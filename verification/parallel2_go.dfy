/** parallel2.go: `main` peels chunks of `L / n` rows off the front of the
    table with `Head` until nothing is left, starting one `Validate` worker per
    chunk. With fewer rows than cores the chunk size is 0 and the loop never
    ends; the loop is modelled with an iteration bound (`fuel`) so that its
    divergence can be stated. */
module Parallel2Go {
  import opened Common
  import Strconv
  import opened Validate
  import opened Plans
  import opened Dispatch

  /** `Head(input, n)`: `n` is clamped to the length, then the first `n`
      rows and the rest. */
  function Head<T>(input: seq<T>, n: nat): (r: (seq<T>, seq<T>))
    ensures r.0 + r.1 == input
    ensures |r.0| == if n > |input| then |input| else n
  {
    var m := if n > |input| then |input| else n;
    (input[..m], input[m..])
  }

  /** With `n >= 1` a nonempty input shrinks; with `n == 0` nothing moves. */
  lemma HeadProgress<T>(input: seq<T>, n: nat)
    ensures n >= 1 && |input| > 0 ==> |Head(input, n).1| < |input|
    ensures n == 0 ==> Head(input, n) == ([], input)
  {
    if n == 0 {
      assert input[..0] == [] && input[0..] == input;
    }
  }

  /** The chunking loop of `main`, which splits a head of `chunkSize` rows
      off the tail and hands it to a new worker until the tail is empty,
      run for at most `fuel` iterations: the chunks handed out, or None
      when the loop has not finished by then. */
  function ChunkLoop<T>(tail: seq<T>, chunkSize: nat, fuel: nat): Option<seq<seq<T>>>
  {
    if |tail| == 0 then Some([])
    else if fuel == 0 then None
    else
      var (chunk, rest) := Head(tail, chunkSize);
      match ChunkLoop(rest, chunkSize, fuel - 1)
      case None => None
      case Some(more) => Some([chunk] + more)
  }

  /** The chunks the loop hands out when it terminates: every chunk has
      `size` rows except a last, shorter one, and together they are the table. */
  function Chunks<T>(tail: seq<T>, size: nat): (chunks: seq<seq<T>>)
    requires size >= 1
    ensures Flatten(chunks) == tail
    ensures |chunks| == 0 <==> |tail| == 0
    ensures forall j :: 0 <= j < |chunks| - 1 ==> |chunks[j]| == size
    ensures |chunks| > 0 ==> 1 <= |chunks[|chunks| - 1]| <= size
    decreases |tail|
  {
    if |tail| == 0 then []
    else
      var (chunk, rest) := Head(tail, size);
      var more := Chunks(rest, size);
      assert ([chunk] + more)[1..] == more;
      [chunk] + more
  }

  lemma CeilZero(size: nat)
    requires size >= 1
    ensures (size - 1) / size == 0
  {
    DivUnique(size - 1, size, 0, size - 1);
  }

  lemma CeilOne(a: nat, size: nat)
    requires 1 <= a <= size
    ensures (a + size - 1) / size == 1
  {
    DivUnique(a + size - 1, size, 1, a - 1);
  }

  lemma CeilStep(a: nat, size: nat)
    requires size >= 1
    ensures (a + size + size - 1) / size == (a + size - 1) / size + 1
  {
    DivMod(a + size - 1, size);
    DivUnique(a + size + size - 1, size, (a + size - 1) / size + 1, (a + size - 1) % size);
  }

  /** There are `ceil(L / size)` chunks. */
  lemma {:induction false} ChunkCount<T>(tail: seq<T>, size: nat)
    requires size >= 1
    ensures |Chunks(tail, size)| == (|tail| + size - 1) / size
    decreases |tail|
  {
    if |tail| == 0 {
      CeilZero(size);
    } else {
      var rest := Head(tail, size).1;
      assert |Chunks(tail, size)| == 1 + |Chunks(rest, size)|;
      if |tail| <= size {
        assert |rest| == 0;
        CeilOne(|tail|, size);
      } else {
        ChunkCount(rest, size);
        CeilStep(|rest|, size);
      }
    }
  }

  /** With `chunkSize >= 1` the loop ends within `|tail|` iterations and hands out `Chunks`. */
  lemma {:induction false} ChunkLoopTerminates<T>(tail: seq<T>, chunkSize: nat, fuel: nat)
    requires chunkSize >= 1 && fuel >= |tail|
    ensures ChunkLoop(tail, chunkSize, fuel) == Some(Chunks(tail, chunkSize))
    decreases |tail|
  {
    if |tail| > 0 {
      HeadProgress(tail, chunkSize);
      ChunkLoopTerminates(Head(tail, chunkSize).1, chunkSize, fuel - 1);
    }
  }

  /** With `chunkSize == 0` and rows left, no number of iterations is enough. */
  lemma {:induction false} ChunkLoopDiverges<T>(tail: seq<T>, fuel: nat)
    requires |tail| > 0
    ensures ChunkLoop(tail, 0, fuel) == None
  {
    if fuel > 0 {
      HeadProgress(tail, 0);
      ChunkLoopDiverges(tail, fuel - 1);
    }
  }

  /** The workers `main` starts when the loop has finished within `fuel`
      iterations: one `Validate` per chunk, with chunk-local row numbers and
      the width of row 0. */
  function Workers(rows: seq<Row>, n: nat, fuel: nat): Option<seq<seq<Diagnostic>>>
    requires |rows| >= 1 && n >= 1
  {
    match ChunkLoop(rows, ChunkSize(|rows|, n), fuel)
    case None => None
    case Some(chunks) => Some(ValidateEach(Strconv.Parses, chunks, |rows[0]|))
  }

  /** Fewer rows than cores: `main` never gets past the loop. */
  lemma WorkersDiverge(rows: seq<Row>, n: nat, fuel: nat)
    requires |rows| >= 1 && n >= 1 && |rows| < n
    ensures Workers(rows, n, fuel) == None
  {
    ChunkSizeZero(|rows|, n);
    ChunkLoopDiverges(rows, fuel);
  }

  /** At least as many rows as cores: the loop ends, and with each chunk's
      report renumbered by the chunk's offset the workers report exactly the
      sequential pass. */
  lemma WorkersAreSequential(rows: seq<Row>, n: nat)
    requires |rows| >= 1 && n >= 1 && |rows| >= n
    ensures ChunkSize(|rows|, n) >= 1
    ensures Workers(rows, n, |rows|) == Some(ValidateEach(Strconv.Parses, Chunks(rows, ChunkSize(|rows|, n)), |rows[0]|))
    ensures Flatten(Renumbered(Workers(rows, n, |rows|).value, PlanOf(Chunks(rows, ChunkSize(|rows|, n))))) ==
      ValidateRows(Strconv.Parses, rows, |rows[0]|)
  {
    ChunkSizeZero(|rows|, n);
    var chunks := Chunks(rows, ChunkSize(|rows|, n));
    ChunkLoopTerminates(rows, ChunkSize(|rows|, n), |rows|);
    ChunkedDispatch(Strconv.Parses, chunks, |rows[0]|);
  }

  /** The loop can start more workers than there are cores: never fewer. */
  lemma AtLeastOneChunkPerCore<T>(rows: seq<T>, n: nat)
    requires n >= 1 && |rows| >= n
    ensures ChunkSize(|rows|, n) >= 1
    ensures |Chunks(rows, ChunkSize(|rows|, n))| >= n
  {
    ChunkSizeZero(|rows|, n);
    var size := ChunkSize(|rows|, n);
    ChunkCount(rows, size);
    DivMod(|rows|, n);
    CeilAtLeast(|rows|, size, n);
  }

  lemma CeilAtLeast(L: nat, size: nat, n: nat)
    requires size >= 1 && n * size <= L
    ensures (L + size - 1) / size >= n
  {
    DivMod(L + size - 1, size);
    var q := (L + size - 1) / size;
    if q < n {
      assert (q + 1) * size == q * size + size;
      MulLe(q + 1, n, size);
    }
  }

  /** Ten rows on four cores: chunks of two rows, five workers. */
  lemma TenRowsFourCores<T>(rows: seq<T>)
    requires |rows| == 10
    ensures ChunkSize(|rows|, 4) == 2
    ensures |Chunks(rows, 2)| == 5
  {
    ChunkCount(rows, 2);
  }

  // ---------------------------------------------------------------------
  // The loop as evidently intended: never a chunk size of 0.

  /** One `Validate` call per chunk of the corrected size. */
  function CorrectedWorkers(rows: seq<Row>, n: nat): seq<seq<Diagnostic>>
    requires |rows| >= 1 && n >= 1
  {
    ValidateEach(Strconv.Parses, Chunks(rows, CorrectedChunkSize(|rows|, n)), |rows[0]|)
  }

  /** The corrected loop always ends within `|rows|` iterations, agrees with
      the original whenever that one ends, and reports the sequential pass. */
  lemma CorrectedWorkersAreSequential(rows: seq<Row>, n: nat)
    requires |rows| >= 1 && n >= 1
    ensures ChunkLoop(rows, CorrectedChunkSize(|rows|, n), |rows|) == Some(Chunks(rows, CorrectedChunkSize(|rows|, n)))
    ensures |rows| >= n ==> Workers(rows, n, |rows|) == Some(CorrectedWorkers(rows, n))
    ensures Flatten(Renumbered(CorrectedWorkers(rows, n), PlanOf(Chunks(rows, CorrectedChunkSize(|rows|, n))))) ==
      ValidateRows(Strconv.Parses, rows, |rows[0]|)
  {
    ChunkLoopTerminates(rows, CorrectedChunkSize(|rows|, n), |rows|);
    ChunkedDispatch(Strconv.Parses, Chunks(rows, CorrectedChunkSize(|rows|, n)), |rows[0]|);
  }
}
