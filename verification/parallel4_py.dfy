/** parallel4.py: `validate_parallel` walks back from the end of the table,
    cutting `(start, end)` ranges of `len(rows) / n` rows, and starts one
    process per range; each runs `validate_rows` over its range of the shared
    table and reports absolute row numbers. With fewer rows than cores the
    range size is 0 and the loop never ends; the loop is modelled with an
    iteration bound (`fuel`) so that its divergence can be stated. Lines 14
    and 34 indent with a tab, which Python 2 reads as eight columns: both
    lines belong to their loop's body. */
module Parallel4Py {
  import opened Common
  import opened Validate
  import opened Plans
  import opened Dispatch

  /** `validate_rows(allrows, col_size, start, end)`: the rows `start .. end-1`
      of the whole table, each reported under its own index. */
  function ValidateRange(parses: string -> bool, allrows: seq<Row>, colSize: nat, start: nat, end: nat): seq<Diagnostic>
    requires start >= end || end <= |allrows|
    decreases end
  {
    if end <= start then []
    else ValidateRange(parses, allrows, colSize, start, end - 1) + RowDiagnostics(parses, allrows[end - 1], end - 1, colSize)
  }

  /** One more row at the end of a range: the facts the induction needs. */
  lemma ValidateRangeStepFacts(parses: string -> bool, allrows: seq<Row>, colSize: nat, start: nat, end: nat)
    requires start < end <= |allrows|
    ensures ValidateRange(parses, allrows, colSize, start, end) ==
      ValidateRange(parses, allrows, colSize, start, end - 1) + RowDiagnostics(parses, allrows[end - 1], end - 1, colSize)
    ensures ValidateRows(parses, allrows[start..end], colSize) ==
      ValidateRows(parses, allrows[start..end - 1], colSize) + RowDiagnostics(parses, allrows[end - 1], end - 1 - start, colSize)
    ensures Shift(RowDiagnostics(parses, allrows[end - 1], end - 1 - start, colSize), start) ==
      RowDiagnostics(parses, allrows[end - 1], end - 1, colSize)
  {
    var block := allrows[start..end];
    var k := end - 1 - start;
    assert block[..k] == allrows[start..end - 1];
    assert block[k] == allrows[end - 1];
    ValidateRowsSnoc(parses, block, colSize);
    ShiftRow(parses, block[k], k, start, colSize);
  }

  /** The algebra of one step of the induction, on plain sequences. */
  lemma ShiftSnocStep(whole: seq<Diagnostic>, x: seq<Diagnostic>, y: seq<Diagnostic>,
                      all: seq<Diagnostic>, vb: seq<Diagnostic>, last: seq<Diagnostic>, off: nat)
    requires whole == x + y
    requires all == vb + last
    requires x == Shift(vb, off)
    requires Shift(last, off) == y
    ensures whole == Shift(all, off)
  {
    ShiftAppend(vb, last, off);
  }

  /** One more row at the end of a range, given the property for the rows before it. */
  lemma ValidateRangeStep(parses: string -> bool, allrows: seq<Row>, colSize: nat, start: nat, end: nat)
    requires start < end <= |allrows|
    requires ValidateRange(parses, allrows, colSize, start, end - 1) ==
      Shift(ValidateRows(parses, allrows[start..end - 1], colSize), start)
    ensures ValidateRange(parses, allrows, colSize, start, end) ==
      Shift(ValidateRows(parses, allrows[start..end], colSize), start)
  {
    ValidateRangeStepFacts(parses, allrows, colSize, start, end);
    ShiftSnocStep(ValidateRange(parses, allrows, colSize, start, end), ValidateRange(parses, allrows, colSize, start, end - 1),
                  RowDiagnostics(parses, allrows[end - 1], end - 1, colSize),
                  ValidateRows(parses, allrows[start..end], colSize), ValidateRows(parses, allrows[start..end - 1], colSize),
                  RowDiagnostics(parses, allrows[end - 1], end - 1 - start, colSize), start);
  }

  /** A range's report is the sequential report of its rows, renumbered by
      `start`: exactly the rows `start .. end-1` are visited. */
  lemma {:induction false} ValidateRangeIsShifted(parses: string -> bool, allrows: seq<Row>, colSize: nat, start: nat, end: nat)
    requires start <= end <= |allrows|
    ensures ValidateRange(parses, allrows, colSize, start, end) ==
      Shift(ValidateRows(parses, allrows[start..end], colSize), start)
    decreases end
  {
    if start == end {
      assert allrows[start..end] == [];
    } else {
      ValidateRangeIsShifted(parses, allrows, colSize, start, end - 1);
      ValidateRangeStep(parses, allrows, colSize, start, end);
    }
  }

  /** Every diagnostic of a range names a row of that range. */
  lemma ValidateRangeRows(parses: string -> bool, allrows: seq<Row>, colSize: nat, start: nat, end: nat)
    requires start <= end <= |allrows|
    ensures forall d :: d in ValidateRange(parses, allrows, colSize, start, end) ==> start <= d.row < end
  {
    ValidateRangeIsShifted(parses, allrows, colSize, start, end);
    var local := ValidateRows(parses, allrows[start..end], colSize);
    ValidateRowsBelow(parses, allrows[start..end], colSize);
    forall d | d in ValidateRange(parses, allrows, colSize, start, end) ensures start <= d.row < end {
      var t :| 0 <= t < |local| && Shift(local, start)[t] == d;
    }
  }

  /** The `while end > 0` loop, run for at most `fuel` iterations: the ranges
      appended, or None when the loop has not finished by then. */
  function RangeLoop(end: nat, chunkSize: nat, fuel: nat): Option<seq<Range>>
  {
    if end == 0 then Some([])
    else if fuel == 0 then None
    else
      var start := if end >= chunkSize then end - chunkSize else 0;
      match RangeLoop(start, chunkSize, fuel - 1)
      case None => None
      case Some(more) => Some([Range(start, end)] + more)
  }

  /** The ranges the loop appends when it terminates, for a range size of at least 1. */
  function BackwardRanges(end: nat, size: nat): (plan: seq<Range>)
    requires size >= 1
    decreases end
  {
    if end == 0 then []
    else
      var start := if end >= size then end - size else 0;
      [Range(start, end)] + BackwardRanges(start, size)
  }

  /** The ranges descend: the first ends at `end`, the last starts at 0, each
      ends where the next one (in loop order) starts; all have `size` rows but
      the last, which has 1 to `size`. */
  lemma {:induction false} BackwardRangesShape(end: nat, size: nat)
    requires size >= 1
    ensures |BackwardRanges(end, size)| == 0 <==> end == 0
    ensures |BackwardRanges(end, size)| > 0 ==>
      BackwardRanges(end, size)[0].hi == end && BackwardRanges(end, size)[|BackwardRanges(end, size)| - 1].lo == 0
    ensures forall j :: 0 <= j < |BackwardRanges(end, size)| ==>
      BackwardRanges(end, size)[j].lo <= BackwardRanges(end, size)[j].hi
    ensures forall j :: 0 <= j < |BackwardRanges(end, size)| - 1 ==>
      BackwardRanges(end, size)[j].lo == BackwardRanges(end, size)[j + 1].hi
    ensures forall j :: 0 <= j < |BackwardRanges(end, size)| - 1 ==> BackwardRanges(end, size)[j].Size() == size
    ensures |BackwardRanges(end, size)| > 0 ==>
      1 <= BackwardRanges(end, size)[|BackwardRanges(end, size)| - 1].Size() <= size
    decreases end
  {
    if end > 0 {
      var start := if end >= size then end - size else 0;
      var more := BackwardRanges(start, size);
      var plan := BackwardRanges(end, size);
      BackwardRangesShape(start, size);
      assert plan == [Range(start, end)] + more;
      assert plan[1..] == more;
      forall j | 0 <= j < |plan| - 1 ensures plan[j].lo == plan[j + 1].hi {
        assert plan[j + 1] == more[j];
      }
    }
  }

  /** With a range size of at least 1, the loop ends within `end` iterations. */
  lemma {:induction false} RangeLoopTerminates(end: nat, size: nat, fuel: nat)
    requires size >= 1 && fuel >= end
    ensures RangeLoop(end, size, fuel) == Some(BackwardRanges(end, size))
    decreases end
  {
    if end > 0 {
      var start := if end >= size then end - size else 0;
      RangeLoopTerminates(start, size, fuel - 1);
    }
  }

  /** Whatever the range size, every range the loop appends lies within `[0, end)`. */
  lemma {:induction false} RangeLoopInBounds(end: nat, chunkSize: nat, fuel: nat)
    ensures RangeLoop(end, chunkSize, fuel).Some? ==> InBounds(RangeLoop(end, chunkSize, fuel).value, end)
  {
    if end > 0 && fuel > 0 {
      var start := if end >= chunkSize then end - chunkSize else 0;
      RangeLoopInBounds(start, chunkSize, fuel - 1);
      match RangeLoop(start, chunkSize, fuel - 1)
      case None =>
      case Some(more) =>
        var plan := [Range(start, end)] + more;
        assert forall j :: 1 <= j < |plan| ==> plan[j] == more[j - 1];
    }
  }

  /** With a range size of 0, `start == end` and no number of iterations is enough. */
  lemma {:induction false} RangeLoopDiverges(end: nat, fuel: nat)
    requires end > 0
    ensures RangeLoop(end, 0, fuel) == None
  {
    if fuel > 0 {
      RangeLoopDiverges(end, fuel - 1);
    }
  }

  /** Reading a sequence of ranges backwards keeps each range well formed. */
  lemma ReverseOrdered(plan: seq<Range>)
    requires forall j :: 0 <= j < |plan| ==> plan[j].lo <= plan[j].hi
    ensures forall j :: 0 <= j < |plan| ==> Reverse(plan)[j].lo <= Reverse(plan)[j].hi
  {
    var rev := Reverse(plan);
    forall j | 0 <= j < |plan| ensures rev[j].lo <= rev[j].hi {
      assert rev[j] == plan[|plan| - 1 - j];
    }
  }

  /** ... and turns a descending chain into an ascending one. */
  lemma ReverseAdjacent(plan: seq<Range>)
    requires forall j :: 0 <= j < |plan| - 1 ==> plan[j].lo == plan[j + 1].hi
    ensures forall j :: 0 <= j < |plan| - 1 ==> Reverse(plan)[j].hi == Reverse(plan)[j + 1].lo
  {
    var rev := Reverse(plan);
    var m := |plan|;
    forall j | 0 <= j < m - 1 ensures rev[j].hi == rev[j + 1].lo {
      assert rev[j] == plan[m - 1 - j];
      assert rev[j + 1] == plan[m - 1 - (j + 1)];
      assert m - 1 - j == (m - 1 - (j + 1)) + 1;
    }
  }

  /** A descending chain of ranges from `L` down to 0, read backwards, tiles `[0, L)`. */
  lemma ReverseChain(plan: seq<Range>, L: nat)
    requires forall j :: 0 <= j < |plan| ==> plan[j].lo <= plan[j].hi
    requires forall j :: 0 <= j < |plan| - 1 ==> plan[j].lo == plan[j + 1].hi
    requires |plan| == 0 ==> L == 0
    requires |plan| > 0 ==> plan[0].hi == L && plan[|plan| - 1].lo == 0
    ensures Contiguous(Reverse(plan), L)
  {
    ReverseOrdered(plan);
    ReverseAdjacent(plan);
    ContiguousIntro(Reverse(plan), L);
  }

  /** Read from the other end, the ranges tile `[0, end)` from left to right. */
  lemma BackwardRangesContiguous(end: nat, size: nat)
    requires size >= 1
    ensures Contiguous(Reverse(BackwardRanges(end, size)), end)
  {
    BackwardRangesShape(end, size);
    ReverseChain(BackwardRanges(end, size), end);
  }

  /** A plan whose reversal tiles `[0, L)` lies inside `[0, L)` ... */
  lemma ReverseInBounds(plan: seq<Range>, L: nat)
    requires Contiguous(Reverse(plan), L)
    ensures InBounds(plan, L)
  {
    var rev := Reverse(plan);
    var m := |plan|;
    ContiguousOrdered(rev, L);
    forall j | 0 <= j < m ensures plan[j].lo <= plan[j].hi <= L {
      assert plan[j] == rev[m - 1 - j];
    }
  }

  /** ... covers every row index of it ... */
  lemma ReverseCovers(plan: seq<Range>, x: int)
    requires Covered(Reverse(plan), x)
    ensures Covered(plan, x)
  {
    var rev := Reverse(plan);
    var m := |plan|;
    var j :| 0 <= j < m && Holds(rev[j], x);
    ReverseAt(plan, m - 1 - j);
    assert Holds(plan[m - 1 - j], x);
  }

  /** ... and holds each row index in one range at most. */
  lemma ReverseDisjoint(plan: seq<Range>, j: nat, k: nat, x: int)
    requires forall a, b :: 0 <= a < b < |plan| ==> Reverse(plan)[a].hi <= Reverse(plan)[b].lo
    requires j < |plan| && k < |plan| && Holds(plan[j], x) && Holds(plan[k], x)
    ensures j == k
  {
    ReverseAt(plan, j);
    ReverseAt(plan, k);
  }

  lemma ReverseAt<T>(s: seq<T>, j: nat)
    requires j < |s|
    ensures Reverse(s)[|s| - 1 - j] == s[j]
  {
  }

  lemma ReverseCoversAll(plan: seq<Range>, L: nat)
    requires forall x :: 0 <= x < L ==> Covered(Reverse(plan), x)
    ensures forall x :: 0 <= x < L ==> Covered(plan, x)
  {
    forall x | 0 <= x < L ensures Covered(plan, x) {
      ReverseCovers(plan, x);
    }
  }

  lemma ReverseDisjointAll(plan: seq<Range>)
    requires forall a, b :: 0 <= a < b < |plan| ==> Reverse(plan)[a].hi <= Reverse(plan)[b].lo
    ensures forall j, k, x :: (0 <= j < |plan| && 0 <= k < |plan| && Holds(plan[j], x) && Holds(plan[k], x)) ==> j == k
  {
    forall j, k, x | 0 <= j < |plan| && 0 <= k < |plan| && Holds(plan[j], x) && Holds(plan[k], x) ensures j == k {
      ReverseDisjoint(plan, j, k, x);
    }
  }

  /** The ranges are disjoint, lie inside `[0, end)` and cover every row of it. */
  lemma BackwardRangesTile(end: nat, size: nat)
    requires size >= 1
    ensures InBounds(BackwardRanges(end, size), end)
    ensures forall x :: 0 <= x < end ==> Covered(BackwardRanges(end, size), x)
    ensures forall j, k, x ::
      (0 <= j < |BackwardRanges(end, size)| && 0 <= k < |BackwardRanges(end, size)| &&
       Holds(BackwardRanges(end, size)[j], x) && Holds(BackwardRanges(end, size)[k], x)) ==> j == k
  {
    BackwardRangesContiguous(end, size);
    ReverseInBounds(BackwardRanges(end, size), end);
    ContiguousPartitions(Reverse(BackwardRanges(end, size)), end);
    ReverseCoversAll(BackwardRanges(end, size), end);
    ContiguousOrdered(Reverse(BackwardRanges(end, size)), end);
    ReverseDisjointAll(BackwardRanges(end, size));
  }

  /** One process per range, each running `validate_rows` on its range. */
  function Processes(parses: string -> bool, rows: seq<Row>, colSize: nat, plan: seq<Range>): (outs: seq<seq<Diagnostic>>)
    requires InBounds(plan, |rows|)
    ensures |outs| == |plan|
  {
    seq(|plan|, j requires 0 <= j < |plan| => ValidateRange(parses, rows, colSize, plan[j].lo, plan[j].hi))
  }

  /** `validate_parallel(rows, col_size, n)`, when the range loop finishes within `fuel` iterations. */
  function ValidateParallel(parses: string -> bool, rows: seq<Row>, colSize: nat, n: nat, fuel: nat)
    : Option<seq<seq<Diagnostic>>>
    requires n >= 1
  {
    match RangeLoop(|rows|, ChunkSize(|rows|, n), fuel)
    case None => None
    case Some(plan) =>
      RangeLoopInBounds(|rows|, ChunkSize(|rows|, n), fuel);
      Some(Processes(parses, rows, colSize, plan))
  }

  lemma ProcessesAreRenumbered(parses: string -> bool, rows: seq<Row>, colSize: nat, plan: seq<Range>)
    requires InBounds(plan, |rows|)
    ensures Processes(parses, rows, colSize, plan) == Renumbered(ValidateEach(parses, Blocks(rows, plan), colSize), plan)
  {
    forall j | 0 <= j < |plan|
      ensures Processes(parses, rows, colSize, plan)[j] ==
        Renumbered(ValidateEach(parses, Blocks(rows, plan), colSize), plan)[j]
    {
      ValidateRangeIsShifted(parses, rows, colSize, plan[j].lo, plan[j].hi);
    }
  }

  /** Listing the processes in the opposite order lists their reports in the opposite order. */
  lemma ProcessesReverse(parses: string -> bool, rows: seq<Row>, colSize: nat, plan: seq<Range>)
    requires InBounds(plan, |rows|)
    ensures InBounds(Reverse(plan), |rows|)
    ensures Processes(parses, rows, colSize, Reverse(plan)) == Reverse(Processes(parses, rows, colSize, plan))
  {
    InBoundsReverse(plan, |rows|);
    var rev := Reverse(plan);
    var m := |plan|;
    var outs := Processes(parses, rows, colSize, plan);
    var revOuts := Processes(parses, rows, colSize, rev);
    forall j | 0 <= j < m ensures revOuts[j] == Reverse(outs)[j] {
      ReverseAt(plan, m - 1 - j);
    }
  }

  lemma InBoundsReverse(plan: seq<Range>, L: nat)
    requires InBounds(plan, L)
    ensures InBounds(Reverse(plan), L)
  {
    var m := |plan|;
    forall j | 0 <= j < m ensures Reverse(plan)[j].lo <= Reverse(plan)[j].hi <= L {
      ReverseAt(plan, m - 1 - j);
    }
  }

  /** Whatever ranges tile the table, in whichever order the processes are
      listed, together they report the sequential pass's diagnostics, each once. */
  lemma BackwardProcessesAreSequential(parses: string -> bool, rows: seq<Row>, colSize: nat, size: nat)
    requires size >= 1
    ensures InBounds(BackwardRanges(|rows|, size), |rows|)
    ensures Union(Processes(parses, rows, colSize, BackwardRanges(|rows|, size))) ==
      multiset(ValidateRows(parses, rows, colSize))
  {
    var plan := BackwardRanges(|rows|, size);
    var rev := Reverse(plan);
    BackwardRangesContiguous(|rows|, size);
    BackwardRangesTile(|rows|, size);
    ProcessesReverse(parses, rows, colSize, plan);
    UnionReverse(Processes(parses, rows, colSize, plan));
    ProcessesAreRenumbered(parses, rows, colSize, rev);
    ContiguousDispatchUnion(parses, rows, rev, colSize);
  }

  /** At least as many rows as cores: the loop ends and the processes report
      the sequential pass. */
  lemma ValidateParallelIsSequential(parses: string -> bool, rows: seq<Row>, colSize: nat, n: nat)
    requires n >= 1 && |rows| >= n
    ensures ValidateParallel(parses, rows, colSize, n, |rows|).Some?
    ensures Union(ValidateParallel(parses, rows, colSize, n, |rows|).value) ==
      multiset(ValidateRows(parses, rows, colSize))
  {
    ChunkSizeZero(|rows|, n);
    RangeLoopTerminates(|rows|, ChunkSize(|rows|, n), |rows|);
    BackwardProcessesAreSequential(parses, rows, colSize, ChunkSize(|rows|, n));
  }

  /** Fewer rows than cores, but some rows: the loop never ends. */
  lemma ValidateParallelDiverges(parses: string -> bool, rows: seq<Row>, colSize: nat, n: nat, fuel: nat)
    requires n >= 1 && 0 < |rows| < n
    ensures ValidateParallel(parses, rows, colSize, n, fuel) == None
  {
    ChunkSizeZero(|rows|, n);
    RangeLoopDiverges(|rows|, fuel);
  }

  // ---------------------------------------------------------------------
  // The loop as evidently intended: never a range size of 0.

  /** One process per range of the corrected size. */
  function CorrectedValidateParallel(parses: string -> bool, rows: seq<Row>, colSize: nat, n: nat): seq<seq<Diagnostic>>
    requires n >= 1
  {
    var plan := BackwardRanges(|rows|, CorrectedChunkSize(|rows|, n));
    BackwardRangesTile(|rows|, CorrectedChunkSize(|rows|, n));
    Processes(parses, rows, colSize, plan)
  }

  /** The corrected loop always ends, agrees with the original whenever that
      one ends, and its processes report the sequential pass. */
  lemma CorrectedIsSequential(parses: string -> bool, rows: seq<Row>, colSize: nat, n: nat)
    requires n >= 1
    ensures RangeLoop(|rows|, CorrectedChunkSize(|rows|, n), |rows|).Some?
    ensures |rows| >= n ==>
      (ValidateParallel(parses, rows, colSize, n, |rows|) == Some(CorrectedValidateParallel(parses, rows, colSize, n)))
    ensures Union(CorrectedValidateParallel(parses, rows, colSize, n)) == multiset(ValidateRows(parses, rows, colSize))
  {
    RangeLoopTerminates(|rows|, CorrectedChunkSize(|rows|, n), |rows|);
    BackwardProcessesAreSequential(parses, rows, colSize, CorrectedChunkSize(|rows|, n));
  }
}
