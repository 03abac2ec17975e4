/** parallel.go: `subslice` cuts the table into `n` contiguous blocks whose
    sizes differ by at most one, and `validateParallel` hands each block to its
    own worker, which runs `validateRows` on it with the width of row 0. */
module ParallelGo {
  import opened Common
  import Strconv
  import opened Validate
  import opened Plans
  import opened Dispatch

  /** The size `subslice` gives block `i`: the first `L % n` blocks have
      `L / n + 1` rows, the others `L / n`. */
  function BlockSize(L: nat, n: nat, i: nat): nat
    requires n >= 1
  {
    if i < L % n then L / n + 1 else L / n
  }

  /** Where block `i` starts: after the blocks before it. */
  function BlockStart(L: nat, n: nat, i: nat): nat
    requires n >= 1
  {
    if i == 0 then 0 else BlockStart(L, n, i - 1) + BlockSize(L, n, i - 1)
  }

  /** The closed form both loops of `subslice` compute. */
  lemma {:induction false} BlockStartClosed(L: nat, n: nat, i: nat)
    requires n >= 1
    ensures BlockStart(L, n, i) == if i <= L % n then i * (L / n + 1) else i * (L / n) + L % n
  {
    if i > 0 {
      BlockStartClosed(L, n, i - 1);
      var blockSize := L / n;
      var remainder := L % n;
      if i <= remainder {
        assert i * (blockSize + 1) == (i - 1) * (blockSize + 1) + (blockSize + 1);
      } else if i - 1 == remainder {
        assert (i - 1) * (blockSize + 1) == (i - 1) * blockSize + (i - 1);
        assert i * blockSize == (i - 1) * blockSize + blockSize;
      } else {
        assert i * blockSize == (i - 1) * blockSize + blockSize;
      }
    }
  }

  lemma BlockStartEnd(L: nat, n: nat)
    requires n >= 1
    ensures BlockStart(L, n, n) == L
  {
    BlockStartClosed(L, n, n);
    DivMod(L, n);
    assert n * (L / n) == (L / n) * n;
  }

  /** The ranges `subslice` cuts, as `[start, end)` pairs. */
  function BalancedPlan(L: nat, n: nat): (plan: seq<Range>)
    requires n >= 1
    ensures |plan| == n
  {
    seq(n, i requires 0 <= i < n => Range(BlockStart(L, n, i), BlockStart(L, n, i + 1)))
  }

  /** Block `i` holds `L / n + 1` rows when `i < L % n` and `L / n` otherwise. */
  lemma BalancedSizes(L: nat, n: nat)
    requires n >= 1
    ensures forall i :: 0 <= i < n ==> BalancedPlan(L, n)[i].Size() == (if i < L % n then L / n + 1 else L / n)
  {
    forall i | 0 <= i < n ensures BalancedPlan(L, n)[i].Size() == (if i < L % n then L / n + 1 else L / n) {
      assert BlockStart(L, n, i + 1) == BlockStart(L, n, i) + BlockSize(L, n, i);
    }
  }

  /** The blocks tile `[0, L)` from left to right. */
  lemma BalancedContiguous(L: nat, n: nat)
    requires n >= 1
    ensures Contiguous(BalancedPlan(L, n), L) && InBounds(BalancedPlan(L, n), L)
  {
    var plan := BalancedPlan(L, n);
    BalancedSizes(L, n);
    BlockStartEnd(L, n);
    assert plan[0].lo == 0;
    ContiguousIntro(plan, L);
    ContiguousOrdered(plan, L);
  }

  /** Block `i` below the remainder, as the first loop of `subslice` cuts it:
      `[i * (bs + 1), (i + 1) * (bs + 1))` with `bs = L / n`. */
  lemma LargerPiece<T>(slice: seq<T>, n: nat, i: nat)
    requires n >= 1 && i < |slice| % n
    ensures 0 <= i * (|slice| / n + 1) <= (i + 1) * (|slice| / n + 1) <= |slice|
    ensures Piece(slice, n, i) == slice[i * (|slice| / n + 1)..(i + 1) * (|slice| / n + 1)]
  {
    BalancedContiguous(|slice|, n);
    BlockStartClosed(|slice|, n, i);
    BlockStartClosed(|slice|, n, i + 1);
    assert BalancedPlan(|slice|, n)[i] == Range(BlockStart(|slice|, n, i), BlockStart(|slice|, n, i + 1));
  }

  /** Block `i` at or above the remainder, as the second loop cuts it:
      `[i * bs + rem, (i + 1) * bs + rem)` with `rem = L % n`. */
  lemma SmallerPiece<T>(slice: seq<T>, n: nat, i: nat)
    requires n >= 1 && |slice| % n <= i < n
    ensures 0 <= i * (|slice| / n) + |slice| % n <= (i + 1) * (|slice| / n) + |slice| % n <= |slice|
    ensures Piece(slice, n, i) == slice[i * (|slice| / n) + |slice| % n..(i + 1) * (|slice| / n) + |slice| % n]
  {
    var r := SmallerRange(|slice|, n, i);
    assert r.lo <= r.hi <= |slice| by {
      BalancedContiguous(|slice|, n);
    }
    assert Piece(slice, n, i) == slice[r.lo..r.hi];
  }

  /** The range of block `i` at or above the remainder, in closed form. */
  lemma SmallerRange(L: nat, n: nat, i: nat) returns (r: Range)
    requires n >= 1 && L % n <= i < n
    ensures r == BalancedPlan(L, n)[i]
    ensures r.lo == i * (L / n) + L % n && r.hi == (i + 1) * (L / n) + L % n
  {
    var blockSize, remainder := L / n, L % n;
    BlockStartClosed(L, n, i);
    BlockStartClosed(L, n, i + 1);
    if i == remainder {
      assert i * (blockSize + 1) == i * blockSize + remainder;
    }
    r := BalancedPlan(L, n)[i];
  }

  /** What cutting along the balanced plan yields: `n` blocks, the input
      again when concatenated, with the balanced sizes. */
  lemma BalancedBlocks<T>(slice: seq<T>, n: nat)
    requires n >= 1
    ensures InBounds(BalancedPlan(|slice|, n), |slice|)
    ensures |Blocks(slice, BalancedPlan(|slice|, n))| == n
    ensures Flatten(Blocks(slice, BalancedPlan(|slice|, n))) == slice
    ensures forall i :: 0 <= i < n ==>
      |Blocks(slice, BalancedPlan(|slice|, n))[i]| == (if i < |slice| % n then |slice| / n + 1 else |slice| / n)
  {
    BalancedContiguous(|slice|, n);
    BalancedSizes(|slice|, n);
    BlocksFlatten(slice, BalancedPlan(|slice|, n));
  }

  /** Block `j` of the balanced plan, cut out of `slice`. */
  function Piece<T>(slice: seq<T>, n: nat, j: nat): seq<T>
    requires n >= 1 && j < n
  {
    BalancedContiguous(|slice|, n);
    var r := BalancedPlan(|slice|, n)[j];
    slice[r.lo..r.hi]
  }

  /** The first loop of `subslice`: the `L % n` blocks of `L / n + 1` rows. */
  method FillLarger<T>(slice: seq<T>, n: nat, subslices: seq<seq<T>>) returns (r: seq<seq<T>>)
    requires n >= 1 && |subslices| == n
    ensures |r| == n
    ensures forall j :: 0 <= j < |slice| % n ==> r[j] == Piece(slice, n, j)
    ensures forall j :: |slice| % n <= j < n ==> r[j] == subslices[j]
  {
    var blockSize := |slice| / n;
    var remainder := |slice| % n;
    r := subslices;
    var i := 0;
    while i < remainder
      invariant 0 <= i <= remainder
      invariant |r| == n
      invariant forall j :: 0 <= j < i ==> r[j] == Piece(slice, n, j)
      invariant forall j :: i <= j < n ==> r[j] == subslices[j]
    {
      var start := i * (blockSize + 1);
      var end := (i + 1) * (blockSize + 1);
      LargerPiece(slice, n, i);
      r := r[i := slice[start..end]];
      i := i + 1;
    }
  }

  /** The second loop of `subslice`: the remaining blocks of `L / n` rows. */
  method FillSmaller<T>(slice: seq<T>, n: nat, subslices: seq<seq<T>>) returns (r: seq<seq<T>>)
    requires n >= 1 && |subslices| == n
    ensures |r| == n
    ensures forall j :: 0 <= j < |slice| % n ==> r[j] == subslices[j]
    ensures forall j :: |slice| % n <= j < n ==> r[j] == Piece(slice, n, j)
  {
    var blockSize := |slice| / n;
    var remainder := |slice| % n;
    r := subslices;
    var i := remainder;
    while i < n
      invariant remainder <= i <= n
      invariant |r| == n
      invariant forall j :: 0 <= j < remainder ==> r[j] == subslices[j]
      invariant forall j :: remainder <= j < i ==> r[j] == Piece(slice, n, j)
    {
      var start := i * blockSize + remainder;
      var end := (i + 1) * blockSize + remainder;
      SmallerPiece(slice, n, i);
      r := r[i := slice[start..end]];
      i := i + 1;
    }
  }

  /** `subslice(slice, n)`: two loops fill the `n` blocks, the larger ones first. */
  method Subslice<T>(slice: seq<T>, n: nat) returns (subslices: seq<seq<T>>)
    requires n >= 1
    ensures |subslices| == n
    ensures Flatten(subslices) == slice
    ensures forall i :: 0 <= i < n ==> |subslices[i]| == (if i < |slice| % n then |slice| / n + 1 else |slice| / n)
    ensures InBounds(BalancedPlan(|slice|, n), |slice|) && subslices == Blocks(slice, BalancedPlan(|slice|, n))
  {
    subslices := seq(n, _ => []);
    subslices := FillLarger(slice, n, subslices);
    subslices := FillSmaller(slice, n, subslices);
    BalancedBlocks(slice, n);
    forall j | 0 <= j < n ensures subslices[j] == Blocks(slice, BalancedPlan(|slice|, n))[j] {
      assert subslices[j] == Piece(slice, n, j);
    }
    assert subslices == Blocks(slice, BalancedPlan(|slice|, n));
  }

  /** The largest and the smallest block differ by at most one row. */
  lemma Balanced(L: nat, n: nat, i: nat, j: nat)
    requires n >= 1 && i < n && j < n
    ensures BalancedPlan(L, n)[i].Size() <= BalancedPlan(L, n)[j].Size() + 1
  {
    BalancedSizes(L, n);
  }

  /** More workers than rows: one row for each of the first `L` blocks, none for the rest. */
  lemma MoreWorkersThanRows(L: nat, n: nat)
    requires n >= 1 && L < n
    ensures forall i :: 0 <= i < n ==> BalancedPlan(L, n)[i].Size() == (if i < L then 1 else 0)
  {
    DivUnique(L, n, 0, L);
    BalancedSizes(L, n);
  }

  /** `validateParallel(rows, n)`: one worker per block, empty ones included,
      each reporting block-local row numbers against the width of row 0. */
  function ValidateParallel(rows: seq<Row>, n: nat): (outs: seq<seq<Diagnostic>>)
    requires |rows| >= 1 && n >= 1
    ensures |outs| == n
  {
    BalancedContiguous(|rows|, n);
    ValidateEach(Strconv.Parses, Blocks(rows, BalancedPlan(|rows|, n)), |rows[0]|)
  }

  /** Renumbering each block's report by the block's start gives the
      sequential report, block after block; so whatever the interleaving,
      the workers report the sequential pass's diagnostics, each once. */
  lemma ValidateParallelIsSequential(rows: seq<Row>, n: nat)
    requires |rows| >= 1 && n >= 1
    ensures InBounds(BalancedPlan(|rows|, n), |rows|)
    ensures Flatten(Renumbered(ValidateParallel(rows, n), BalancedPlan(|rows|, n))) ==
      ValidateRows(Strconv.Parses, rows, |rows[0]|)
    ensures Union(Renumbered(ValidateParallel(rows, n), BalancedPlan(|rows|, n))) ==
      multiset(ValidateRows(Strconv.Parses, rows, |rows[0]|))
  {
    BalancedContiguous(|rows|, n);
    ContiguousDispatch(Strconv.Parses, rows, BalancedPlan(|rows|, n), |rows[0]|);
    ContiguousDispatchUnion(Strconv.Parses, rows, BalancedPlan(|rows|, n), |rows[0]|);
  }

  /** `main`: refuses an empty table; otherwise runs `n` workers. */
  function Run(rows: seq<Row>, n: nat): (r: Option<seq<seq<Diagnostic>>>)
    requires n >= 1
    ensures r.None? <==> |rows| == 0
    ensures r.Some? ==> |r.value| == n
  {
    if |rows| < 1 then None else Some(ValidateParallel(rows, n))
  }

  /** Two small tables through `Atoi`: a letter in the last column of a
      three-column row, and a short second row whose `+3` parses but is not
      looked at. */
  lemma AtoiExamples()
    ensures ValidateRows(Strconv.Parses, [["1", "-2", "x"]], 3) == [ParseError(2, 0)]
    ensures ValidateRows(Strconv.Parses, [["1", "-2"], ["+3"]], 2) == [WidthMismatch(1, 1, 2)]
  {
    var row: Row := ["1", "-2", "x"];
    assert Strconv.Magnitude("-2") == "2";
    assert Strconv.Parses("1") && Strconv.Parses("-2");
    assert !Strconv.IsDigit('x');
    assert !Strconv.Parses("x");
    assert row[..2][..1][..0] == [];
    assert row[..2][..1] == ["1"];
    assert CellErrors(Strconv.Parses, row[..2][..1], 0) == [];
    assert row[..2] == ["1", "-2"] && row[..2][1] == "-2";
    assert CellErrors(Strconv.Parses, row[..2], 0) == [];
    assert CellErrors(Strconv.Parses, row, 0) == [ParseError(2, 0)];
    assert [row][..0] == [];
    var rows: seq<Row> := [["1", "-2"], ["+3"]];
    assert rows[..1] == [["1", "-2"]];
    assert ["1", "-2"][..1][..0] == [];
    assert CellErrors(Strconv.Parses, ["1", "-2"], 0) == [];
    assert rows[..1][..0] == [];
  }
}
