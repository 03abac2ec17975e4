/** parallel3.py: `check_cells` examines one row and returns at most one
    message, naming the row and the first column that failed, or "Not
    defined" when the width is wrong; `validate_rows` runs it on every
    `(row_id, row)` pair of the table and prints the messages that are not
    None, in row order. */
module Parallel3Py {
  import opened Common
  import opened Validate

  /** The `col_id` slot of a message: the string "Not defined" or a column. */
  datatype Column = NotDefined | Col(index: nat)

  /** `Trouble at row_id: .. with cells: .. at col_id: ..` */
  datatype Trouble = Trouble(row: nat, cells: Row, col: Column)

  /** The index of the first cell `int()` rejects, if any. */
  function FirstFailure(parses: string -> bool, cells: Row): (r: Option<nat>)
    ensures r.None? <==> forall j :: 0 <= j < |cells| ==> parses(cells[j])
    ensures r.Some? ==> r.value < |cells| && !parses(cells[r.value])
    ensures r.Some? ==> forall j :: 0 <= j < r.value ==> parses(cells[j])
  {
    if |cells| == 0 then None
    else if !parses(cells[0]) then Some(0)
    else match FirstFailure(parses, cells[1..])
      case None => None
      case Some(j) => Some(j + 1)
  }

  /** `check_cells(row_id, cells, col_size)`. */
  function CheckCells(parses: string -> bool, rowId: nat, cells: Row, colSize: nat): (r: Option<Trouble>)
    ensures r.None? <==> RowOk(parses, cells, colSize)
    ensures r.Some? ==> r.value.row == rowId && r.value.cells == cells
    ensures r.Some? ==> (r.value.col == NotDefined <==> |cells| != colSize)
    ensures r.Some? && r.value.col.Col? ==>
      r.value.col.index < |cells| && !parses(cells[r.value.col.index]) &&
      forall j :: 0 <= j < r.value.col.index ==> parses(cells[j])
  {
    if |cells| != colSize then Some(Trouble(rowId, cells, NotDefined))
    else match FirstFailure(parses, cells)
      case None => None
      case Some(j) => Some(Trouble(rowId, cells, Col(j)))
  }

  /** What `filter(None, ...)` keeps of row `k`'s result: the message, if any. */
  function Emitted(parses: string -> bool, k: nat, row: Row, colSize: nat): (r: seq<Trouble>)
    ensures r == [] <==> RowOk(parses, row, colSize)
    ensures forall t :: 0 <= t < |r| ==> r[t].row == k && CheckCells(parses, k, row, colSize) == Some(r[t])
  {
    match CheckCells(parses, k, row, colSize)
    case None => []
    case Some(t) => [t]
  }

  /** `filter(None, pool.starmap(check_cells, enumerate(rows)))`: the results
      come back in the order of the rows, and the Nones are dropped. */
  function Messages(parses: string -> bool, rows: seq<Row>, colSize: nat): seq<Trouble>
  {
    if |rows| == 0 then []
    else
      var k := |rows| - 1;
      Messages(parses, rows[..k], colSize) + Emitted(parses, k, rows[k], colSize)
  }

  /** Some message names row `x`. */
  predicate Mentioned(ms: seq<Trouble>, x: nat) {
    exists t :: 0 <= t < |ms| && ms[t].row == x
  }

  /** Every message is what `check_cells` says about the row it names. */
  predicate MessagesSound(parses: string -> bool, rows: seq<Row>, colSize: nat, ms: seq<Trouble>) {
    forall t :: 0 <= t < |ms| ==>
      ms[t].row < |rows| && CheckCells(parses, ms[t].row, rows[ms[t].row], colSize) == Some(ms[t])
  }

  /** The messages name strictly increasing rows. */
  predicate InRowOrder(ms: seq<Trouble>) {
    forall a, b :: 0 <= a < b < |ms| ==> ms[a].row < ms[b].row
  }

  /** Every faulty row is named by some message. */
  predicate MentionsFaulty(parses: string -> bool, rows: seq<Row>, colSize: nat, ms: seq<Trouble>) {
    forall x :: 0 <= x < |rows| && !RowOk(parses, rows[x], colSize) ==> Mentioned(ms, x)
  }

  lemma MessagesSnoc(parses: string -> bool, rows: seq<Row>, colSize: nat)
    requires |rows| > 0
    ensures Messages(parses, rows, colSize) ==
      Messages(parses, rows[..|rows| - 1], colSize) + Emitted(parses, |rows| - 1, rows[|rows| - 1], colSize)
  {
  }

  lemma SoundMessagesStep(parses: string -> bool, rows: seq<Row>, colSize: nat, front: seq<Trouble>, last: seq<Trouble>)
    requires |rows| > 0
    requires MessagesSound(parses, rows[..|rows| - 1], colSize, front)
    requires last == Emitted(parses, |rows| - 1, rows[|rows| - 1], colSize)
    ensures MessagesSound(parses, rows, colSize, front + last)
  {
    var k := |rows| - 1;
    var ms := front + last;
    forall t | 0 <= t < |ms|
      ensures ms[t].row < |rows| && CheckCells(parses, ms[t].row, rows[ms[t].row], colSize) == Some(ms[t])
    {
      if t < |front| {
        assert ms[t] == front[t];
        assert rows[..k][front[t].row] == rows[front[t].row];
      } else {
        assert ms[t] == last[t - |front|];
      }
    }
  }

  lemma OrderMessagesStep(front: seq<Trouble>, last: seq<Trouble>, k: nat)
    requires InRowOrder(front)
    requires forall t :: 0 <= t < |front| ==> front[t].row < k
    requires |last| <= 1 && forall t :: 0 <= t < |last| ==> last[t].row == k
    ensures InRowOrder(front + last)
  {
  }

  lemma CompleteMessagesStep(parses: string -> bool, rows: seq<Row>, colSize: nat, front: seq<Trouble>, last: seq<Trouble>)
    requires |rows| > 0
    requires MentionsFaulty(parses, rows[..|rows| - 1], colSize, front)
    requires last == Emitted(parses, |rows| - 1, rows[|rows| - 1], colSize)
    ensures MentionsFaulty(parses, rows, colSize, front + last)
  {
    var k := |rows| - 1;
    var ms := front + last;
    forall x | 0 <= x < |rows| && !RowOk(parses, rows[x], colSize) ensures Mentioned(ms, x) {
      if x < k {
        assert rows[..k][x] == rows[x];
        var t :| 0 <= t < |front| && front[t].row == x;
        assert ms[t] == front[t];
      } else {
        assert ms[|front|] == last[0];
      }
    }
  }

  /** The messages are those of the faulty rows, each once, in row order. */
  lemma {:induction false} MessagesSpec(parses: string -> bool, rows: seq<Row>, colSize: nat)
    ensures MessagesSound(parses, rows, colSize, Messages(parses, rows, colSize))
    ensures InRowOrder(Messages(parses, rows, colSize))
    ensures MentionsFaulty(parses, rows, colSize, Messages(parses, rows, colSize))
  {
    if |rows| > 0 {
      var k := |rows| - 1;
      MessagesSpec(parses, rows[..k], colSize);
      var front := Messages(parses, rows[..k], colSize);
      var last := Emitted(parses, k, rows[k], colSize);
      MessagesSnoc(parses, rows, colSize);
      SoundMessagesStep(parses, rows, colSize, front, last);
      CompleteMessagesStep(parses, rows, colSize, front, last);
      assert forall t :: 0 <= t < |front| ==> front[t].row < k;
      OrderMessagesStep(front, last, k);
    }
  }

  /** A well-formed table produces no output, and only a well-formed one. */
  lemma SilentIffWellFormed(parses: string -> bool, rows: seq<Row>, colSize: nat)
    ensures Messages(parses, rows, colSize) == [] <==>
      forall x :: 0 <= x < |rows| ==> RowOk(parses, rows[x], colSize)
  {
    MessagesSpec(parses, rows, colSize);
    var m := Messages(parses, rows, colSize);
    if m != [] {
      assert CheckCells(parses, m[0].row, rows[m[0].row], colSize) == Some(m[0]);
    }
  }

  /** Some diagnostic names row `x`. */
  predicate Diagnosed(ds: seq<Diagnostic>, x: nat) {
    exists d :: d in ds && d.row == x
  }

  /** A row has a message exactly when the sequential validator reports it. */
  lemma SameRowsAsSequential(parses: string -> bool, rows: seq<Row>, colSize: nat, x: nat)
    requires x < |rows|
    ensures Mentioned(Messages(parses, rows, colSize), x) <==> Diagnosed(ValidateRows(parses, rows, colSize), x)
  {
    MessagesSpec(parses, rows, colSize);
    ValidateRowsSpec(parses, rows, colSize);
    var ds := ValidateRows(parses, rows, colSize);
    var m := Messages(parses, rows, colSize);
    if Diagnosed(ds, x) {
      var d :| d in ds && d.row == x;
      assert Explains(parses, rows, colSize, d);
    }
    if Mentioned(m, x) {
      var t :| 0 <= t < |m| && m[t].row == x;
      assert CheckCells(parses, x, rows[x], colSize).Some?;
      if |rows[x]| != colSize {
        assert WidthMismatch(x, |rows[x]|, colSize) in ds;
      } else {
        var j :| 0 <= j < |rows[x]| && !parses(rows[x][j]);
        assert ParseError(j, x) in ds;
      }
    }
  }

  /** "Not defined" exactly where the sequential validator reports the width. */
  lemma NotDefinedIsWidth(parses: string -> bool, rows: seq<Row>, colSize: nat, x: nat)
    requires x < |rows|
    ensures CheckCells(parses, x, rows[x], colSize) == Some(Trouble(x, rows[x], NotDefined)) <==>
      WidthMismatch(x, |rows[x]|, colSize) in ValidateRows(parses, rows, colSize)
  {
    ValidateRowsSpec(parses, rows, colSize);
    if WidthMismatch(x, |rows[x]|, colSize) in ValidateRows(parses, rows, colSize) {
      assert Explains(parses, rows, colSize, WidthMismatch(x, |rows[x]|, colSize));
    }
  }

  /** The column named is the first one the sequential validator reports for the row. */
  lemma ColumnIsFirstReported(parses: string -> bool, rows: seq<Row>, colSize: nat, x: nat, j: nat)
    requires x < |rows|
    requires CheckCells(parses, x, rows[x], colSize) == Some(Trouble(x, rows[x], Col(j)))
    ensures ParseError(j, x) in ValidateRows(parses, rows, colSize)
    ensures forall j' :: ParseError(j', x) in ValidateRows(parses, rows, colSize) ==> j <= j'
  {
    ValidateRowsSpec(parses, rows, colSize);
    forall j' | ParseError(j', x) in ValidateRows(parses, rows, colSize) ensures j <= j' {
      assert Explains(parses, rows, colSize, ParseError(j', x));
    }
  }
}
