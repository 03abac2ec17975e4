/** Index arithmetic shared by the partition schemes: half-open ranges of row
    indices, plans of ranges that tile `[0, L)`, and the strided slices
    `rows[i::n]` of Python. */
module Plans {
  import opened Common

  /** The rows `lo .. hi-1` of the table: a slice `rows[lo:hi]`. */
  datatype Range = Range(lo: nat, hi: nat) {
    function Size(): int {
      hi - lo
    }
  }

  /** The plan lies inside a table of `L` rows, so every slice is legal. */
  predicate InBounds(plan: seq<Range>, L: nat) {
    forall j :: 0 <= j < |plan| ==> plan[j].lo <= plan[j].hi <= L
  }

  /** The ranges tile `[0, L)` from left to right: the first starts at 0, each
      ends where the next starts, the last ends at `L`. */
  predicate Contiguous(plan: seq<Range>, L: nat) {
    && (|plan| == 0 ==> L == 0)
    && (|plan| > 0 ==> plan[0].lo == 0 && plan[|plan| - 1].hi == L)
    && (forall j :: 0 <= j < |plan| ==> plan[j].lo <= plan[j].hi)
    && (forall j :: 0 <= j < |plan| - 1 ==> plan[j].hi == plan[j + 1].lo)
  }

  /** Earlier ranges lie wholly to the left of later ones, and all inside `[0, L)`. */
  lemma {:induction false} ContiguousOrdered(plan: seq<Range>, L: nat)
    requires Contiguous(plan, L)
    ensures forall j, k :: 0 <= j < k < |plan| ==> plan[j].hi <= plan[k].lo
    ensures InBounds(plan, L)
  {
    forall j, k | 0 <= j < k < |plan| ensures plan[j].hi <= plan[k].lo {
      LeftOf(plan, L, j, k);
    }
    forall j | 0 <= j < |plan| ensures plan[j].hi <= L {
      if j < |plan| - 1 {
        LeftOf(plan, L, j, |plan| - 1);
      }
    }
  }

  lemma {:induction false} LeftOf(plan: seq<Range>, L: nat, j: nat, k: nat)
    requires Contiguous(plan, L)
    requires j < k < |plan|
    ensures plan[j].hi <= plan[k].lo
    decreases k - j
  {
    if j + 1 < k {
      LeftOf(plan, L, j + 1, k);
    }
  }

  /** Dropping the last range leaves a plan that tiles up to where it started. */
  lemma ContiguousFront(plan: seq<Range>, L: nat)
    requires Contiguous(plan, L) && |plan| > 0
    ensures Contiguous(plan[..|plan| - 1], plan[|plan| - 1].lo)
  {
  }

  /** Row index `x` lies in range `r`. */
  predicate Holds(r: Range, x: int) {
    r.lo <= x < r.hi
  }

  /** Some range of the plan holds row index `x`. */
  predicate Covered(plan: seq<Range>, x: int) {
    exists j :: 0 <= j < |plan| && Holds(plan[j], x)
  }

  /** A contiguous plan is a partition of `[0, L)`: every row index lies in
      some range, and in no two. */
  lemma ContiguousPartitions(plan: seq<Range>, L: nat)
    requires Contiguous(plan, L)
    ensures forall x :: 0 <= x < L ==> Covered(plan, x)
    ensures forall j, k, x ::
      (0 <= j < |plan| && 0 <= k < |plan| && Holds(plan[j], x) && Holds(plan[k], x)) ==> j == k
  {
    ContiguousOrdered(plan, L);
    forall x | 0 <= x < L ensures Covered(plan, x) {
      Locate(plan, L, x);
    }
  }

  lemma {:induction false} Locate(plan: seq<Range>, L: nat, x: nat)
    requires Contiguous(plan, L) && x < L
    ensures Covered(plan, x)
  {
    var m := |plan| - 1;
    if x >= plan[m].lo {
      assert Holds(plan[m], x);
    } else {
      ContiguousFront(plan, L);
      Locate(plan[..m], plan[m].lo, x);
      var j :| 0 <= j < m && Holds(plan[..m][j], x);
      assert Holds(plan[j], x);
    }
  }

  /** The slices a plan hands to its workers. */
  function Blocks<T>(rows: seq<T>, plan: seq<Range>): (bs: seq<seq<T>>)
    requires InBounds(plan, |rows|)
    ensures |bs| == |plan|
    ensures forall j :: 0 <= j < |plan| ==> |bs[j]| == plan[j].Size()
  {
    seq(|plan|, j requires 0 <= j < |plan| => rows[plan[j].lo..plan[j].hi])
  }

  /** The slices of a contiguous plan concatenate back to the table. */
  lemma {:induction false} BlocksFlatten<T>(rows: seq<T>, plan: seq<Range>)
    requires Contiguous(plan, |rows|)
    ensures InBounds(plan, |rows|)
    ensures Flatten(Blocks(rows, plan)) == rows
    decreases |plan|
  {
    ContiguousOrdered(plan, |rows|);
    if |plan| > 0 {
      var m := |plan| - 1;
      var lo := plan[m].lo;
      ContiguousFront(plan, |rows|);
      BlocksFlatten(rows[..lo], plan[..m]);
      BlocksFront(rows, plan);
      FlattenSnoc(Blocks(rows, plan));
      assert rows == rows[..lo] + rows[lo..plan[m].hi];
    }
  }

  /** The slices of all but the last range are the slices of the rows before it. */
  lemma BlocksFront<T>(rows: seq<T>, plan: seq<Range>)
    requires Contiguous(plan, |rows|) && |plan| > 0
    ensures InBounds(plan, |rows|)
    ensures InBounds(plan[..|plan| - 1], plan[|plan| - 1].lo)
    ensures Blocks(rows, plan)[..|plan| - 1] == Blocks(rows[..plan[|plan| - 1].lo], plan[..|plan| - 1])
  {
    ContiguousOrdered(plan, |rows|);
    var m := |plan| - 1;
    var lo := plan[m].lo;
    ContiguousFront(plan, |rows|);
    ContiguousOrdered(plan[..m], lo);
    var bs := Blocks(rows, plan);
    var front := Blocks(rows[..lo], plan[..m]);
    forall j | 0 <= j < m ensures bs[j] == front[j] {
      assert plan[j].hi <= lo;
      SliceOfPrefix(rows, lo, plan[j].lo, plan[j].hi);
    }
    assert bs[..m] == front;
  }

  lemma SliceOfPrefix<T>(rows: seq<T>, lo: nat, a: nat, b: nat)
    requires a <= b <= lo <= |rows|
    ensures rows[..lo][a..b] == rows[a..b]
  {
  }

  /** `[0, 1, ..., L-1]`. */
  function Indices(L: nat): (ids: seq<nat>)
    ensures |ids| == L
  {
    seq(L, k => k)
  }

  lemma IndicesSnoc(m: nat)
    ensures Indices(m + 1) == Indices(m) + [m]
  {
  }

  // ---------------------------------------------------------------------
  // Arithmetic facts about division used by the schemes below.

  lemma MulLe(a: nat, b: nat, n: nat)
    requires a <= b
    ensures a * n <= b * n
  {
  }

  lemma DivMod(a: nat, n: nat)
    requires n >= 1
    ensures a == (a / n) * n + a % n && 0 <= a % n < n
  {
  }

  /** Quotient and remainder are the unique ones. */
  lemma {:induction false} DivUnique(a: nat, n: nat, q: nat, r: nat)
    requires n >= 1 && r < n && a == q * n + r
    ensures a / n == q && a % n == r
  {
    DivMod(a, n);
    var q' := a / n;
    if q' < q {
      MulLe(q' + 1, q, n);
      assert false;
    } else if q < q' {
      MulLe(q + 1, q', n);
      assert false;
    }
  }

  /** The block size of the chunking schemes that divide the table by the
      core count: `len(rows) / coreCount` in parallel2.go, and
      `int(len(rows)/core_count)` in parallel4.py, floor division either way
      on non-negative operands. */
  function ChunkSize(L: nat, n: nat): nat
    requires n >= 1
  {
    L / n
  }

  /** Fewer rows than cores: the chunk size is 0. */
  lemma ChunkSizeZero(L: nat, n: nat)
    requires n >= 1
    ensures ChunkSize(L, n) == 0 <==> L < n
  {
    if L >= n {
      DivMod(L, n);
    } else {
      DivUnique(L, n, 0, L);
    }
  }

  /** The chunk size as evidently intended: never 0, and the original one
      whenever there are at least as many rows as cores. */
  function CorrectedChunkSize(L: nat, n: nat): (size: nat)
    requires n >= 1
    ensures size >= 1
    ensures L >= n ==> size == ChunkSize(L, n)
  {
    ChunkSizeZero(L, n);
    if L / n == 0 then 1 else L / n
  }

  /** Two numbers less than `n` apart have quotients at most one apart. */
  lemma {:induction false} DivNear(a: nat, b: nat, n: nat)
    requires n >= 1 && b <= a < b + n
    ensures b / n <= a / n <= b / n + 1
  {
    DivMod(a, n);
    DivMod(b, n);
    var qa, qb := a / n, b / n;
    if qa < qb {
      MulLe(qa + 1, qb, n);
      assert false;
    }
    if qa > qb + 1 {
      MulLe(qb + 2, qa, n);
      assert false;
    }
  }

  // ---------------------------------------------------------------------
  // Strided slices `rows[i::n]`.

  /** The length of `rows[i::n]` for a table of `L` rows: the number of
      indices `i, i+n, i+2n, ...` below `L`. */
  function StrideCount(L: nat, i: nat, n: nat): nat
    requires n >= 1
  {
    if i >= L then 0 else (L - i - 1) / n + 1
  }

  /** `i + k*n` is below `L` exactly for the first `StrideCount` values of `k`. */
  lemma StrideCountBounds(L: nat, i: nat, n: nat)
    requires n >= 1
    ensures forall k: nat :: k < StrideCount(L, i, n) ==> i + k * n < L
    ensures i + StrideCount(L, i, n) * n >= L
  {
    var c := StrideCount(L, i, n);
    if i < L {
      var q := (L - i - 1) / n;
      DivMod(L - i - 1, n);
      forall k: nat | k < c ensures i + k * n < L {
        MulLe(k, q, n);
      }
      assert c * n == q * n + n;
    }
  }

  /** The row indices of `rows[i::n]`, in order. */
  function StrideIds(L: nat, i: nat, n: nat): (ids: seq<nat>)
    requires n >= 1
    ensures |ids| == StrideCount(L, i, n)
    ensures forall k :: 0 <= k < |ids| ==> ids[k] == i + k * n && ids[k] < L
  {
    StrideCountBounds(L, i, n);
    seq(StrideCount(L, i, n), k => i + k * n)
  }

  /** Python's `rows[i::n]`: the rows at `i, i+n, i+2n, ...`, in their order. */
  function Stride<T>(rows: seq<T>, i: nat, n: nat): (chunk: seq<T>)
    requires n >= 1
    ensures |chunk| == StrideCount(|rows|, i, n)
    ensures forall k :: 0 <= k < |chunk| ==> i + k * n < |rows| && chunk[k] == rows[i + k * n]
    ensures i + |chunk| * n >= |rows|
  {
    var ids := StrideIds(|rows|, i, n);
    StrideCountBounds(|rows|, i, n);
    seq(|ids|, k requires 0 <= k < |ids| => rows[ids[k]])
  }

  /** `[rows[i::n] for i in range(n)]`. */
  function StridedChunks<T>(rows: seq<T>, n: nat): (chunks: seq<seq<T>>)
    requires n >= 1
    ensures |chunks| == n
  {
    seq(n, i requires 0 <= i < n => Stride(rows, i, n))
  }

  /** One more row at the end of the table joins exactly the slice `L % n`. */
  lemma {:induction false} StrideCountStep(L: nat, i: nat, n: nat)
    requires n >= 1 && i < n
    ensures StrideCount(L + 1, i, n) == StrideCount(L, i, n) + (if L % n == i then 1 else 0)
  {
    if i > L {
      DivUnique(L, n, 0, L);
    } else if i == L {
      DivUnique(L, n, 0, L);
      DivUnique(0, n, 0, 0);
    } else {
      var a := L - i - 1;
      DivMod(a, n);
      var q, r := a / n, a % n;
      if r == n - 1 {
        StepWraps(L, i, n, q);
      } else {
        StepStays(L, i, n, q, r);
      }
    }
  }

  lemma StepWraps(L: nat, i: nat, n: nat, q: nat)
    requires n >= 1 && i < n && i < L
    requires L - i - 1 == q * n + (n - 1)
    ensures (L - i) / n == q + 1 && (L - i - 1) / n == q && L % n == i
  {
    DivUnique(L - i, n, q + 1, 0);
    DivUnique(L - i - 1, n, q, n - 1);
    DivUnique(L, n, q + 1, i);
  }

  lemma StepStays(L: nat, i: nat, n: nat, q: nat, r: nat)
    requires n >= 1 && i < n && i < L && r < n - 1
    requires L - i - 1 == q * n + r
    ensures (L - i) / n == q && (L - i - 1) / n == q && L % n != i
  {
    DivUnique(L - i, n, q, r + 1);
    DivUnique(L - i - 1, n, q, r);
    if i + r + 1 < n {
      DivUnique(L, n, q, i + r + 1);
    } else {
      DivUnique(L, n, q + 1, i + r + 1 - n);
    }
  }

  lemma StrideIdsStep(L: nat, i: nat, n: nat)
    requires n >= 1 && i < n
    ensures StrideIds(L + 1, i, n) == StrideIds(L, i, n) + (if L % n == i then [L] else [])
  {
    StrideCountStep(L, i, n);
    var a, b := StrideIds(L + 1, i, n), StrideIds(L, i, n);
    if L % n == i {
      var c := |b|;
      StrideCountBounds(L + 1, i, n);
      StrideCountBounds(L, i, n);
      assert a[c] == i + c * n;
      assert a[c] == L;
      assert a == b + [L];
    } else {
      assert a == b;
    }
  }

  /** The index lists of `rows[i::n]` for `i` in `0..n-1`. */
  function StrideIdChunks(L: nat, n: nat): (chunks: seq<seq<nat>>)
    requires n >= 1
    ensures |chunks| == n
  {
    seq(n, i requires 0 <= i < n => StrideIds(L, i, n))
  }

  /** One more row at the end of the table is appended to slice `L % n` only. */
  lemma StrideIdChunksStep(L: nat, n: nat)
    requires n >= 1
    ensures StrideIdChunks(L + 1, n) ==
      StrideIdChunks(L, n)[L % n := StrideIdChunks(L, n)[L % n] + [L]]
  {
    var before, after := StrideIdChunks(L, n), StrideIdChunks(L + 1, n);
    var j := L % n;
    forall i | 0 <= i < n ensures after[i] == before[j := before[j] + [L]][i] {
      StrideIdsStep(L, i, n);
    }
  }

  lemma StrideUnionStep(L: nat, n: nat)
    requires n >= 1
    ensures Union(StrideIdChunks(L + 1, n)) == Union(StrideIdChunks(L, n)) + multiset([L])
  {
    StrideIdChunksStep(L, n);
    UnionExtendOne(StrideIdChunks(L, n), L % n, [L]);
  }

  /** The slices `rows[i::n]` for `i` in `0..n-1` hold every row index exactly once. */
  lemma {:induction false} StrideIdsPartition(L: nat, n: nat)
    requires n >= 1
    ensures Union(StrideIdChunks(L, n)) == multiset(Indices(L))
  {
    if L == 0 {
      EmptyParts(StrideIdChunks(0, n));
    } else {
      StrideIdsPartition(L - 1, n);
      StrideUnionStep(L - 1, n);
      IndicesSnoc(L - 1);
    }
  }

  lemma {:induction false} EmptyParts<T>(parts: seq<seq<T>>)
    requires forall i :: 0 <= i < |parts| ==> parts[i] == []
    ensures Union(parts) == multiset{}
  {
    if |parts| > 0 {
      EmptyParts(parts[1..]);
    }
  }

  /** The cardinality of the union is the total size of the parts. */
  lemma {:induction false} UnionSize<T>(parts: seq<seq<T>>)
    ensures |Union(parts)| == TotalSize(parts)
  {
    if |parts| > 0 {
      UnionSize(parts[1..]);
    }
  }

  /** Strided slices differ in length by at most one, longer ones first. */
  lemma StrideBalanced(L: nat, i: nat, i': nat, n: nat)
    requires n >= 1 && i < i' < n
    ensures StrideCount(L, i', n) <= StrideCount(L, i, n) <= StrideCount(L, i', n) + 1
  {
    if i' >= L {
      if i < L {
        DivUnique(L - i - 1, n, 0, L - i - 1);
      }
    } else {
      DivNear(L - i - 1, L - i' - 1, n);
    }
  }

  /** Index `i + k*n` with `i < n` names one slice and one position in it. */
  lemma StridePositionUnique(i: nat, k: nat, i': nat, k': nat, n: nat)
    requires n >= 1 && i < n && i' < n
    requires i + k * n == i' + k' * n
    ensures i == i' && k == k'
  {
    DivUnique(i + k * n, n, k, i);
    DivUnique(i' + k' * n, n, k', i');
  }
}
