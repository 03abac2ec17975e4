/** parallel.py: `validate_parallel` deals the rows out round-robin,
    `rows[i::n]` for worker `i`, and maps `validate_rows` over the chunks in a
    thread pool. Each worker numbers rows within its own chunk, so local row
    `k` of chunk `i` is row `i + k*n` of the table. */
module ParallelPy {
  import opened Common
  import opened Validate
  import opened Plans
  import opened Dispatch

  /** Row `x` of the table sits at position `x / n` of chunk `x % n`. */
  lemma EveryRowPlaced<T>(rows: seq<T>, n: nat, x: nat)
    requires n >= 1 && x < |rows|
    ensures x / n < |StridedChunks(rows, n)[x % n]|
    ensures StrideIds(|rows|, x % n, n)[x / n] == x
    ensures StridedChunks(rows, n)[x % n][x / n] == rows[x]
  {
    var i := x % n;
    var q := x / n;
    DivMod(x, n);
    assert x == i + q * n;
    var c := StrideCount(|rows|, i, n);
    StrideCountBounds(|rows|, i, n);
    if q >= c {
      assert i + c * n >= |rows|;
      MulLe(c, q, n);
      assert false;
    }
  }

  /** ... and at no other position of any chunk. */
  lemma EveryRowOnce(L: nat, n: nat, i: nat, k: nat, i': nat, k': nat)
    requires n >= 1 && i < n && i' < n
    requires k < |StrideIds(L, i, n)| && k' < |StrideIds(L, i', n)|
    requires StrideIds(L, i, n)[k] == StrideIds(L, i', n)[k']
    ensures i == i' && k == k'
  {
    StridePositionUnique(i, k, i', k', n);
  }

  /** The chunk sizes add up to the number of rows. */
  lemma ChunkSizesSum<T>(rows: seq<T>, n: nat)
    requires n >= 1
    ensures TotalSize(StridedChunks(rows, n)) == |rows|
  {
    var chunks := StridedChunks(rows, n);
    var ids := StrideIdChunks(|rows|, n);
    TotalSizeOfLengths(chunks, ids);
    UnionSize(ids);
    StrideIdsPartition(|rows|, n);
  }

  /** Chunk `i` has `ceil((L - i) / n)` rows: the sizes differ by at most one,
      longer chunks first, and chunks past the last row are empty. */
  lemma ChunkSizes<T>(rows: seq<T>, n: nat, i: nat, i': nat)
    requires n >= 1 && i < i' < n
    ensures |StridedChunks(rows, n)[i']| <= |StridedChunks(rows, n)[i]| <= |StridedChunks(rows, n)[i']| + 1
    ensures i < |rows| ==> |StridedChunks(rows, n)[i]| * n >= |rows| - i > (|StridedChunks(rows, n)[i]| - 1) * n
    ensures i >= |rows| ==> StridedChunks(rows, n)[i] == []
  {
    StrideBalanced(|rows|, i, i', n);
    var c := |StridedChunks(rows, n)[i]|;
    StrideCountBounds(|rows|, i, n);
    if c > 0 {
      assert i + (c - 1) * n < |rows|;
    }
  }

  /** `validate_parallel(rows, col_size, n)`: one worker per chunk. */
  function ValidateParallel(parses: string -> bool, rows: seq<Row>, colSize: nat, n: nat): (outs: seq<seq<Diagnostic>>)
    requires n >= 1
    ensures |outs| == n
  {
    ValidateEach(parses, StridedChunks(rows, n), colSize)
  }

  /** Worker `i`'s report with local row `k` read as table row `i + k*n`. */
  function Located(parses: string -> bool, rows: seq<Row>, colSize: nat, n: nat, i: nat): (ds: seq<Diagnostic>)
    requires n >= 1 && i < n
    ensures |ds| == |ValidateParallel(parses, rows, colSize, n)[i]|
    ensures forall t :: 0 <= t < |ds| ==>
      ds[t] == ValidateParallel(parses, rows, colSize, n)[i][t].(row := i + ValidateParallel(parses, rows, colSize, n)[i][t].row * n)
  {
    var chunk := Stride(rows, i, n);
    ValidateRowsBelow(parses, chunk, colSize);
    Place(ValidateParallel(parses, rows, colSize, n)[i], StrideIds(|rows|, i, n))
  }

  /** Renumbered this way, the workers' reports together are the sequential
      pass's diagnostics, each exactly once. */
  lemma ValidateParallelIsSequential(parses: string -> bool, rows: seq<Row>, colSize: nat, n: nat)
    requires n >= 1
    ensures Union(seq(n, i requires 0 <= i < n => Located(parses, rows, colSize, n, i))) ==
      multiset(ValidateRows(parses, rows, colSize))
  {
    var located := seq(n, i requires 0 <= i < n => Located(parses, rows, colSize, n, i));
    assert located == StridedOutputs(parses, rows, n, colSize);
    StridedDispatch(parses, rows, n, colSize);
  }

  /** `__main__`: refuses an empty table, then validates against row 0's width. */
  function Run(parses: string -> bool, rows: seq<Row>, n: nat): (r: Option<seq<seq<Diagnostic>>>)
    requires n >= 1
    ensures r.None? <==> |rows| == 0
    ensures r.Some? ==> |r.value| == n
  {
    if |rows| < 1 then None else Some(ValidateParallel(parses, rows, |rows[0]|, n))
  }
}
