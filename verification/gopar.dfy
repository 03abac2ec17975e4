/** gopar/main.go: `main` cuts the table into `n` blocks of `L / n` rows, the
    last block taking whatever is left over, and starts one worker per block
    running `validateRows` with the width of row 0. */
module GoparMain {
  import opened Common
  import Strconv
  import opened Validate
  import opened Plans
  import opened Dispatch

  /** Blocks `0 .. n-2` are `[i*bs, (i+1)*bs)`; the last is `[(n-1)*bs, L)`. */
  function GoparPlan(L: nat, n: nat): (plan: seq<Range>)
    requires n >= 1
    ensures |plan| == n
  {
    var blockSize := L / n;
    seq(n, i requires 0 <= i < n =>
      if i < n - 1 then Range(i * blockSize, (i + 1) * blockSize) else Range((n - 1) * blockSize, L))
  }

  lemma LastStart(L: nat, n: nat)
    requires n >= 1
    ensures (n - 1) * (L / n) + (L / n + L % n) == L
  {
    DivMod(L, n);
    assert (n - 1) * (L / n) + L / n == n * (L / n);
    assert n * (L / n) == (L / n) * n;
  }

  /** Every block but the last has `L / n` rows; the last has `L / n + L % n`. */
  lemma GoparSizes(L: nat, n: nat)
    requires n >= 1
    ensures forall i :: 0 <= i < n - 1 ==> GoparPlan(L, n)[i].Size() == L / n
    ensures GoparPlan(L, n)[n - 1].Size() == L / n + L % n
  {
    var plan := GoparPlan(L, n);
    var blockSize := L / n;
    forall i | 0 <= i < n - 1 ensures plan[i].Size() == blockSize {
      assert (i + 1) * blockSize == i * blockSize + blockSize;
    }
    LastStart(L, n);
  }

  /** The blocks tile `[0, L)` from left to right: disjoint, and covering every row. */
  lemma GoparContiguous(L: nat, n: nat)
    requires n >= 1
    ensures Contiguous(GoparPlan(L, n), L) && InBounds(GoparPlan(L, n), L)
    ensures forall x :: 0 <= x < L ==> Covered(GoparPlan(L, n), x)
  {
    var plan := GoparPlan(L, n);
    GoparSizes(L, n);
    forall j | 0 <= j < n - 1 ensures plan[j].hi == plan[j + 1].lo {
      if j + 1 == n - 1 {
        assert plan[j].hi == (n - 1) * (L / n);
      }
    }
    assert plan[0].lo == 0;
    ContiguousIntro(plan, L);
    ContiguousOrdered(plan, L);
    ContiguousPartitions(plan, L);
  }

  /** The last block can outgrow the others by up to `n - 1` rows: with
      `2n - 1` rows, every block has one row and the last has `n`. */
  lemma NotBalanced(L: nat, n: nat)
    requires n >= 2 && L == 2 * n - 1
    ensures forall i :: 0 <= i < n - 1 ==> GoparPlan(L, n)[i].Size() == 1
    ensures GoparPlan(L, n)[n - 1].Size() == n
  {
    DivUnique(L, n, 1, n - 1);
    GoparSizes(L, n);
  }

  /** Never more than `n - 1` rows of imbalance. */
  lemma ImbalanceBound(L: nat, n: nat)
    requires n >= 1
    ensures forall i :: 0 <= i < n - 1 ==>
      GoparPlan(L, n)[i].Size() <= GoparPlan(L, n)[n - 1].Size() <= GoparPlan(L, n)[i].Size() + (n - 1)
  {
    GoparSizes(L, n);
  }

  /** Fewer rows than workers: every block but the last is empty, and the last holds all rows. */
  lemma FewerRowsThanWorkers(L: nat, n: nat)
    requires n >= 1 && L < n
    ensures forall i :: 0 <= i < n - 1 ==> GoparPlan(L, n)[i].Size() == 0
    ensures GoparPlan(L, n)[n - 1] == Range(0, L)
  {
    DivUnique(L, n, 0, L);
    GoparSizes(L, n);
  }

  /** The workers `main` starts, in order: `n` of them, matching `wg.Add(n)`,
      each reporting block-local row numbers against the width of row 0. */
  function Workers(rows: seq<Row>, n: nat): (outs: seq<seq<Diagnostic>>)
    requires |rows| >= 1 && n >= 1
    ensures |outs| == n
  {
    GoparContiguous(|rows|, n);
    ValidateEach(Strconv.Parses, Blocks(rows, GoparPlan(|rows|, n)), |rows[0]|)
  }

  /** Renumbered by block start, the workers report exactly the sequential pass. */
  lemma WorkersAreSequential(rows: seq<Row>, n: nat)
    requires |rows| >= 1 && n >= 1
    ensures InBounds(GoparPlan(|rows|, n), |rows|)
    ensures Flatten(Renumbered(Workers(rows, n), GoparPlan(|rows|, n))) ==
      ValidateRows(Strconv.Parses, rows, |rows[0]|)
    ensures Union(Renumbered(Workers(rows, n), GoparPlan(|rows|, n))) ==
      multiset(ValidateRows(Strconv.Parses, rows, |rows[0]|))
  {
    GoparContiguous(|rows|, n);
    ContiguousDispatch(Strconv.Parses, rows, GoparPlan(|rows|, n), |rows[0]|);
    ContiguousDispatchUnion(Strconv.Parses, rows, GoparPlan(|rows|, n), |rows[0]|);
  }

  /** `main`: an empty table is refused before `rows[0]` is read; otherwise
      `n` workers run, and once their row IDs are read back as the table's,
      none of them reports a width mismatch for row 0. */
  function Run(rows: seq<Row>, n: nat): (r: Option<seq<seq<Diagnostic>>>)
    requires n >= 1
    ensures r.None? <==> |rows| == 0
    ensures r.Some? ==> |r.value| == n
    ensures r.Some? ==> forall d :: d in Union(Renumbered(r.value, GoparPlan(|rows|, n))) ==>
      !(d.WidthMismatch? && d.row == 0)
  {
    if |rows| < 1 then None
    else
      var outs := Workers(rows, n);
      RowZeroNeverTooWide(rows, n);
      Some(outs)
  }

  /** Whichever worker holds the table's row 0 (the first when `L >= n`,
      the last when `L < n`), no worker reports a width mismatch for it: the
      width is taken from that very row. */
  lemma RowZeroNeverTooWide(rows: seq<Row>, n: nat)
    requires |rows| >= 1 && n >= 1
    ensures forall d :: d in Union(Renumbered(Workers(rows, n), GoparPlan(|rows|, n))) ==>
      !(d.WidthMismatch? && d.row == 0)
  {
    WorkersAreSequential(rows, n);
    FirstRowNeverTooWide(Strconv.Parses, rows);
  }
}
