/** parallel2.py: `multi_validate_rows` deals the rows round-robin to a fixed
    four workers, as parallel.py does, but its `validate_rows` is broken. The
    row loop binds only `i`, so the width branch raises NameError on
    `row_id` while formatting its message. The column loop sits after the row
    loop, so only the chunk's last row has its cells checked, and a failing
    cell raises the same NameError. An empty chunk leaves `row` unbound.
    No diagnostic is ever printed. */
module Parallel2Py {
  import opened Common
  import opened Validate
  import opened Plans
  import ParallelPy

  /** `n_cores = 4`, whatever the machine. */
  const NCores: nat := 4

  /** The exceptions the worker can raise. */
  datatype PyError = NameError | UnboundLocalError

  /** How a worker call ends: normally, or with an uncaught exception. */
  datatype Outcome = Completed | Raised(error: PyError)

  /** The row loop: the first row of the wrong width raises before its message is printed. */
  function RowLoop(chunk: seq<Row>, colSize: nat): (r: Outcome)
    ensures r == Completed <==> forall k :: 0 <= k < |chunk| ==> |chunk[k]| == colSize
    ensures r != Completed ==> r == Raised(NameError)
  {
    if |chunk| == 0 then Completed
    else if |chunk[0]| != colSize then Raised(NameError)
    else
      var rest := RowLoop(chunk[1..], colSize);
      assert forall k :: 1 <= k < |chunk| ==> chunk[k] == chunk[1..][k - 1];
      rest
  }

  /** The dedented column loop over one row: the first rejected cell raises. */
  function CellLoop(parses: string -> bool, row: Row): (r: Outcome)
    ensures r == Completed <==> forall j :: 0 <= j < |row| ==> parses(row[j])
    ensures r != Completed ==> r == Raised(NameError)
  {
    if |row| == 0 then Completed
    else if !parses(row[0]) then Raised(NameError)
    else
      var rest := CellLoop(parses, row[1..]);
      assert forall j :: 1 <= j < |row| ==> row[j] == row[1..][j - 1];
      rest
  }

  /** `validate_rows((rows, col_size))` as written. It ends normally exactly
      when its chunk is not empty, every row has the expected width and the
      last row's cells all parse: the other rows' cells are never looked at. */
  function Worker(parses: string -> bool, chunk: seq<Row>, colSize: nat): (r: Outcome)
    ensures r == Completed <==>
      |chunk| > 0 && (forall k :: 0 <= k < |chunk| ==> |chunk[k]| == colSize) &&
      RowOk(parses, chunk[|chunk| - 1], colSize)
    ensures |chunk| == 0 ==> r == Raised(UnboundLocalError)
    ensures |chunk| > 0 && r != Completed ==> r == Raised(NameError)
  {
    match RowLoop(chunk, colSize)
    case Raised(e) => Raised(e)
    case Completed =>
      if |chunk| == 0 then Raised(UnboundLocalError)
      else CellLoop(parses, chunk[|chunk| - 1])
  }

  /** A worker that ends normally has printed nothing, and one that raises has
      printed nothing either: every defect it meets ends it. So a defect is
      reported only by an exception, and only when it is a width defect or
      lies in the last row. */
  lemma WorkerFindsOnlySomeDefects(parses: string -> bool, chunk: seq<Row>, colSize: nat)
    requires |chunk| > 0
    ensures Worker(parses, chunk, colSize) == Completed <==>
      (forall k :: 0 <= k < |chunk| ==> |chunk[k]| == colSize) &&
      RowDiagnostics(parses, chunk[|chunk| - 1], |chunk| - 1, colSize) == []
  {
    var last := chunk[|chunk| - 1];
    assert RowDiagnostics(parses, last, |chunk| - 1, colSize) == [] <==> RowOk(parses, last, colSize) by {
      RowDiagnosticsSpec(parses, last, |chunk| - 1, colSize);
    }
  }

  /** `multi_validate_rows`: the four strided chunks, each handed to a worker. */
  function MultiValidate(parses: string -> bool, rows: seq<Row>, colSize: nat): (outcomes: seq<Outcome>)
    ensures |outcomes| == NCores
  {
    var chunks := StridedChunks(rows, NCores);
    seq(NCores, i requires 0 <= i < NCores => Worker(parses, chunks[i], colSize))
  }

  /** A five-row table with one bad cell in row 0: every worker ends normally
      and nothing is printed, while the sequential pass reports the cell. */
  lemma BadCellGoesUnreported(parses: string -> bool)
    requires parses("1") && !parses("x")
    ensures MultiValidate(parses, [["x"], ["1"], ["1"], ["1"], ["1"]], 1) ==
      [Completed, Completed, Completed, Completed]
    ensures ValidateRows(parses, [["x"], ["1"], ["1"], ["1"], ["1"]], 1) == [ParseError(0, 0)]
  {
    BadCellWorkersComplete(parses);
    BadCellReportedSequentially(parses);
  }

  /** The bad cell lands in chunk 0 but is not in that chunk's last row. */
  lemma BadCellWorkersComplete(parses: string -> bool)
    requires parses("1") && !parses("x")
    ensures MultiValidate(parses, [["x"], ["1"], ["1"], ["1"], ["1"]], 1) ==
      [Completed, Completed, Completed, Completed]
  {
    var rows: seq<Row> := [["x"], ["1"], ["1"], ["1"], ["1"]];
    var chunks := StridedChunks(rows, NCores);
    assert chunks[0] == [["x"], ["1"]];
    assert chunks[1] == [["1"]];
    assert chunks[2] == [["1"]];
    assert chunks[3] == [["1"]];
  }

  /** The sequential pass reports the bad cell, and only it. */
  lemma BadCellReportedSequentially(parses: string -> bool)
    requires parses("1") && !parses("x")
    ensures ValidateRows(parses, [["x"], ["1"], ["1"], ["1"], ["1"]], 1) == [ParseError(0, 0)]
  {
    var rows: seq<Row> := [["x"], ["1"], ["1"], ["1"], ["1"]];
    assert CellErrors(parses, ["x"], 0) == [ParseError(0, 0)] by {
      assert ["x"][..0] == [];
    }
    assert ["1"][..0] == [];
    assert rows[..1][..0] == [];
    assert ValidateRows(parses, rows[..1], 1) == [ParseError(0, 0)];
    assert rows[..2][..1] == rows[..1];
    assert ValidateRows(parses, rows[..2], 1) == [ParseError(0, 0)];
    assert rows[..3][..2] == rows[..2];
    assert ValidateRows(parses, rows[..3], 1) == [ParseError(0, 0)];
    assert rows[..4][..3] == rows[..3];
    assert ValidateRows(parses, rows[..4], 1) == [ParseError(0, 0)];
  }

  /** The worker as evidently intended: the sequential validator on its chunk. */
  function CorrectedMultiValidate(parses: string -> bool, rows: seq<Row>, colSize: nat): (outs: seq<seq<Diagnostic>>)
    ensures |outs| == NCores
  {
    ParallelPy.ValidateParallel(parses, rows, colSize, NCores)
  }

  /** With the corrected worker, the four reports, with local row `k` of chunk
      `i` read as row `i + 4k`, together are the sequential pass's diagnostics. */
  lemma CorrectedIsSequential(parses: string -> bool, rows: seq<Row>, colSize: nat)
    ensures Union(seq(NCores, i requires 0 <= i < NCores => ParallelPy.Located(parses, rows, colSize, NCores, i))) ==
      multiset(ValidateRows(parses, rows, colSize))
  {
    ParallelPy.ValidateParallelIsSequential(parses, rows, colSize, NCores);
  }
}
