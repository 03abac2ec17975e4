/** The row validator shared by every program of the repository: each row of
    the wrong width gets one width diagnostic and its cells are skipped; each
    cell of a row of the right width that does not parse as an integer gets one
    parse diagnostic. The integer test is a parameter (`strconv.Atoi` for the
    Go programs, Python's `int()` for the Python ones). */
module Validate {

  type Row = seq<string>

  /** `Row %d has %d cells, but expected %d` and `Err at (%d, %d)`, without
      the text of the library's error. */
  datatype Diagnostic =
    | WidthMismatch(row: nat, actual: nat, expected: nat)
    | ParseError(col: nat, row: nat)

  /** A row the validator is silent about. */
  predicate RowOk(parses: string -> bool, row: Row, colSize: nat) {
    |row| == colSize && forall j :: 0 <= j < |row| ==> parses(row[j])
  }

  /** Row-then-column order: a strict order on the diagnostics one pass emits. */
  predicate Precedes(a: Diagnostic, b: Diagnostic) {
    a.row < b.row || (a.row == b.row && a.ParseError? && b.ParseError? && a.col < b.col)
  }

  predicate InReportOrder(ds: seq<Diagnostic>) {
    forall a, b :: 0 <= a < b < |ds| ==> Precedes(ds[a], ds[b])
  }

  /** `d` describes a real defect of `rows` (soundness of one diagnostic). */
  predicate Explains(parses: string -> bool, rows: seq<Row>, colSize: nat, d: Diagnostic) {
    match d
    case WidthMismatch(i, a, e) =>
      i < |rows| && a == |rows[i]| && e == colSize && a != colSize
    case ParseError(j, i) =>
      i < |rows| && |rows[i]| == colSize && j < colSize && !parses(rows[i][j])
  }

  /** Every defect of `rows` has its diagnostic in `ds` (completeness). */
  predicate ReportsAll(parses: string -> bool, rows: seq<Row>, colSize: nat, ds: seq<Diagnostic>) {
    forall i :: 0 <= i < |rows| ==>
      (|rows[i]| != colSize ==> WidthMismatch(i, |rows[i]|, colSize) in ds) &&
      (|rows[i]| == colSize ==>
        forall j :: 0 <= j < colSize && !parses(rows[i][j]) ==> ParseError(j, i) in ds)
  }

  /** The inner loop over one row's cells: one diagnostic per rejected cell. */
  function CellErrors(parses: string -> bool, row: Row, rowId: nat): seq<Diagnostic>
  {
    if |row| == 0 then []
    else
      var k := |row| - 1;
      CellErrors(parses, row[..k], rowId) + (if parses(row[k]) then [] else [ParseError(k, rowId)])
  }

  /** The body of the row loop: a width diagnostic that suppresses the cell
      checks, or the cell diagnostics. */
  function RowDiagnostics(parses: string -> bool, row: Row, rowId: nat, colSize: nat): seq<Diagnostic>
  {
    if |row| != colSize then [WidthMismatch(rowId, |row|, colSize)]
    else CellErrors(parses, row, rowId)
  }

  /** `validateRows` / `validate_rows`: the row loop, with `rowID` the index of
      the row in the sequence the function was given. */
  function ValidateRows(parses: string -> bool, rows: seq<Row>, colSize: nat): seq<Diagnostic>
  {
    if |rows| == 0 then []
    else
      var k := |rows| - 1;
      ValidateRows(parses, rows[..k], colSize) + RowDiagnostics(parses, rows[k], k, colSize)
  }

  /** The cell loop reports exactly the rejected cells of the row, in column order. */
  lemma {:induction false} CellErrorsSpec(parses: string -> bool, row: Row, rowId: nat)
    ensures forall d :: d in CellErrors(parses, row, rowId) ==>
      d.ParseError? && d.row == rowId && d.col < |row| && !parses(row[d.col])
    ensures forall j :: 0 <= j < |row| && !parses(row[j]) ==> ParseError(j, rowId) in CellErrors(parses, row, rowId)
    ensures forall a, b :: 0 <= a < b < |CellErrors(parses, row, rowId)| ==>
      CellErrors(parses, row, rowId)[a].col < CellErrors(parses, row, rowId)[b].col
  {
    if |row| > 0 {
      var k := |row| - 1;
      CellErrorsSpec(parses, row[..k], rowId);
      var front := CellErrors(parses, row[..k], rowId);
      var r := CellErrors(parses, row, rowId);
      forall d | d in r ensures d.ParseError? && d.row == rowId && d.col < |row| && !parses(row[d.col]) {
        if d in front {
          assert row[..k][d.col] == row[d.col];
        }
      }
      forall j | 0 <= j < |row| && !parses(row[j]) ensures ParseError(j, rowId) in r {
        if j < k {
          assert row[..k][j] == row[j];
        }
      }
      forall a, b | 0 <= a < b < |r| ensures r[a].col < r[b].col {
        if b >= |front| {
          assert r[b] == ParseError(k, rowId);
          if a < |front| {
            assert r[a] in front;
          }
        }
      }
    }
  }

  /** A row gets no diagnostic exactly when it is silent; a row of the wrong
      width gets the width diagnostic alone; the rest are parse diagnostics in
      column order, all under the row's number. */
  lemma RowDiagnosticsSpec(parses: string -> bool, row: Row, rowId: nat, colSize: nat)
    ensures RowDiagnostics(parses, row, rowId, colSize) == [] <==> RowOk(parses, row, colSize)
    ensures forall d :: d in RowDiagnostics(parses, row, rowId, colSize) ==> d.row == rowId
    ensures |row| != colSize ==> RowDiagnostics(parses, row, rowId, colSize) == [WidthMismatch(rowId, |row|, colSize)]
    ensures |row| == colSize ==> forall d :: d in RowDiagnostics(parses, row, rowId, colSize) ==> d.ParseError?
    ensures InReportOrder(RowDiagnostics(parses, row, rowId, colSize))
  {
    CellErrorsSpec(parses, row, rowId);
    var r := RowDiagnostics(parses, row, rowId, colSize);
    if |row| == colSize && r != [] {
      assert r[0] in r;
    }
  }

  /** A diagnostic of the rows before row `k` describes the same defect in the whole table. */
  lemma SoundStep(parses: string -> bool, rows: seq<Row>, colSize: nat, front: seq<Diagnostic>, last: seq<Diagnostic>)
    requires |rows| > 0
    requires forall d :: d in front ==> Explains(parses, rows[..|rows| - 1], colSize, d)
    requires last == RowDiagnostics(parses, rows[|rows| - 1], |rows| - 1, colSize)
    ensures forall d :: d in front + last ==> Explains(parses, rows, colSize, d)
  {
    var k := |rows| - 1;
    RowDiagnosticsSpec(parses, rows[k], k, colSize);
    CellErrorsSpec(parses, rows[k], k);
    forall d | d in front + last ensures Explains(parses, rows, colSize, d) {
      if d in front {
        assert Explains(parses, rows[..k], colSize, d);
        assert rows[..k][d.row] == rows[d.row];
      }
    }
  }

  /** Every defect of the table is in the front report or in the last row's. */
  lemma CompleteStep(parses: string -> bool, rows: seq<Row>, colSize: nat, front: seq<Diagnostic>, last: seq<Diagnostic>)
    requires |rows| > 0
    requires ReportsAll(parses, rows[..|rows| - 1], colSize, front)
    requires last == RowDiagnostics(parses, rows[|rows| - 1], |rows| - 1, colSize)
    ensures ReportsAll(parses, rows, colSize, front + last)
  {
    var k := |rows| - 1;
    CellErrorsSpec(parses, rows[k], k);
    forall i | 0 <= i < |rows|
      ensures (|rows[i]| != colSize ==> WidthMismatch(i, |rows[i]|, colSize) in front + last) &&
              (|rows[i]| == colSize ==>
                forall j :: 0 <= j < colSize && !parses(rows[i][j]) ==> ParseError(j, i) in front + last)
    {
      if i < k {
        assert rows[..k][i] == rows[i];
      }
    }
  }

  /** The last row's diagnostics, all under row `k`, follow a report of the rows before it. */
  lemma OrderStep(front: seq<Diagnostic>, last: seq<Diagnostic>, k: nat)
    requires InReportOrder(front) && InReportOrder(last)
    requires forall d :: d in front ==> d.row < k
    requires forall d :: d in last ==> d.row == k
    ensures InReportOrder(front + last)
  {
    var r := front + last;
    forall a, b | 0 <= a < b < |r| ensures Precedes(r[a], r[b]) {
      if b < |front| {
        assert r[a] == front[a] && r[b] == front[b];
      } else if a < |front| {
        assert r[a] in front;
        assert r[b] in last;
      } else {
        assert r[a] == last[a - |front|] && r[b] == last[b - |front|];
      }
    }
  }

  /** The row loop is sound (every diagnostic describes a real defect),
      complete (every defect has its diagnostic) and in row-then-column order. */
  lemma {:induction false} ValidateRowsSpec(parses: string -> bool, rows: seq<Row>, colSize: nat)
    ensures forall d :: d in ValidateRows(parses, rows, colSize) ==> Explains(parses, rows, colSize, d)
    ensures ReportsAll(parses, rows, colSize, ValidateRows(parses, rows, colSize))
    ensures InReportOrder(ValidateRows(parses, rows, colSize))
  {
    if |rows| > 0 {
      var k := |rows| - 1;
      var front := ValidateRows(parses, rows[..k], colSize);
      var last := RowDiagnostics(parses, rows[k], k, colSize);
      ValidateRowsSpec(parses, rows[..k], colSize);
      assert ValidateRows(parses, rows, colSize) == front + last;
      SoundStep(parses, rows, colSize, front, last);
      CompleteStep(parses, rows, colSize, front, last);
      assert forall d :: d in front ==> d.row < k by {
        forall d | d in front ensures d.row < k {
          assert Explains(parses, rows[..k], colSize, d);
        }
      }
      RowDiagnosticsSpec(parses, rows[k], k, colSize);
      OrderStep(front, last, k);
    }
  }

  lemma DefectIsReported(parses: string -> bool, rows: seq<Row>, colSize: nat, i: nat)
    requires i < |rows|
    ensures !RowOk(parses, rows[i], colSize) ==> ValidateRows(parses, rows, colSize) != []
  {
    ValidateRowsSpec(parses, rows, colSize);
    var r := ValidateRows(parses, rows, colSize);
    if |rows[i]| != colSize {
      assert WidthMismatch(i, |rows[i]|, colSize) in r;
    } else if !RowOk(parses, rows[i], colSize) {
      var j :| 0 <= j < |rows[i]| && !parses(rows[i][j]);
      assert ParseError(j, i) in r;
    }
  }

  /** No diagnostic at all exactly when every row has the expected width and
      every cell parses. */
  lemma {:induction false} SilentIffWellFormed(parses: string -> bool, rows: seq<Row>, colSize: nat)
    ensures ValidateRows(parses, rows, colSize) == [] <==>
      forall i :: 0 <= i < |rows| ==> RowOk(parses, rows[i], colSize)
  {
    var r := ValidateRows(parses, rows, colSize);
    if r == [] {
      forall i | 0 <= i < |rows| ensures RowOk(parses, rows[i], colSize) {
        DefectIsReported(parses, rows, colSize, i);
      }
    } else {
      ValidateRowsSpec(parses, rows, colSize);
      var d := r[0];
      assert d in r;
      assert Explains(parses, rows, colSize, d);
      assert !RowOk(parses, rows[d.row], colSize);
    }
  }

  /** The table's own first row fixes the width, so it never gets a width diagnostic. */
  lemma FirstRowNeverTooWide(parses: string -> bool, rows: seq<Row>)
    requires |rows| >= 1
    ensures forall d :: d in ValidateRows(parses, rows, |rows[0]|) ==> !(d.WidthMismatch? && d.row == 0)
  {
    ValidateRowsSpec(parses, rows, |rows[0]|);
  }

  lemma {:induction false} ReportOrderIsStrict(a: Diagnostic, b: Diagnostic, c: Diagnostic)
    ensures !Precedes(a, a)
    ensures Precedes(a, b) && Precedes(b, c) ==> Precedes(a, c)
  {
  }

  lemma HeadIn<T>(s: seq<T>)
    ensures |s| > 0 ==> s[0] in s
  {
  }

  /** Two sequences in report order with the same elements are equal. */
  lemma {:induction false} ReportOrderDetermines(x: seq<Diagnostic>, y: seq<Diagnostic>)
    requires InReportOrder(x) && InReportOrder(y)
    requires forall d :: d in x <==> d in y
    ensures x == y
  {
    if |x| == 0 {
      HeadIn(y);
    } else {
      assert x[0] in x;
      assert |y| > 0;
      assert y[0] in y;
      var p :| 0 <= p < |y| && y[p] == x[0];
      var q :| 0 <= q < |x| && x[q] == y[0];
      if p > 0 {
        assert Precedes(y[0], y[p]);
        if q > 0 {
          assert Precedes(x[0], x[q]);
          ReportOrderIsStrict(x[0], y[0], x[0]);
        }
        assert false;
      }
      forall d ensures d in x[1..] <==> d in y[1..] {
        if d in x[1..] {
          var t :| 1 <= t < |x| && x[t] == d;
          assert Precedes(x[0], x[t]);
          ReportOrderIsStrict(x[0], x[0], x[0]);
          assert d in y;
          assert d != y[0];
        }
        if d in y[1..] {
          var t :| 1 <= t < |y| && y[t] == d;
          assert Precedes(y[0], y[t]);
          ReportOrderIsStrict(y[0], y[0], y[0]);
          assert d in x;
          assert d != x[0];
        }
      }
      ReportOrderDetermines(x[1..], y[1..]);
      assert x == [x[0]] + x[1..];
      assert y == [y[0]] + y[1..];
    }
  }

  /** Independent characterisation of the sequential pass: any list of
      diagnostics that reports exactly the table's defects (each once, every
      one of them) in row-then-column order is the validator's output. */
  lemma Characterisation(parses: string -> bool, rows: seq<Row>, colSize: nat, ds: seq<Diagnostic>)
    requires forall d :: d in ds ==> Explains(parses, rows, colSize, d)
    requires ReportsAll(parses, rows, colSize, ds)
    requires InReportOrder(ds)
    ensures ds == ValidateRows(parses, rows, colSize)
  {
    ValidateRowsSpec(parses, rows, colSize);
    var r := ValidateRows(parses, rows, colSize);
    forall d ensures d in ds <==> d in r {
      if d in ds {
        assert Explains(parses, rows, colSize, d);
      }
      if d in r {
        assert Explains(parses, rows, colSize, d);
      }
    }
    ReportOrderDetermines(ds, r);
  }
}
