# Parallel table validators, modelled in Dafny

The repository holds several nearly identical programs, in Go and in Python.
Each checks a table of string cells: every row must have the width of row 0,
and every cell must parse as an integer. Each program splits the rows among
concurrent workers in its own way. This project models three things:

- the row validator all the programs share;
- the six ways of splitting the rows;
- the dispatch of the blocks to workers.

It proves three things:

- each split covers the table exactly once;
- the validator is sound and complete and reports in order;
- after renumbering row IDs, the workers together report exactly what the
  sequential pass reports.

The workers' outputs are read as a multiset union (`Common.Union`), so no
concurrency is needed to state this.

Modules, following the program files:

| module | models |
|---|---|
| `Common` | `Option`, `Result`, `Flatten` (ordered concatenation) and `Union` (multiset union: the workers' outputs, interleaving forgotten) |
| `Strconv` | Go's `strconv.Atoi` on a 64-bit platform (its fast path, `ParseInt` and `ParseUint`'s digit loop), with an `Itoa` partner |
| `Validate` | `validateRows` / `validate_rows`; the diagnostics as a datatype |
| `Plans` | row ranges, contiguous plans, slicing by a plan, strided slices `rows[i::n]` |
| `Dispatch` | per-block validation, with row IDs renumbered back to the table's |
| `ParallelGo` | parallel.go: `subslice`, `validateParallel`, `main` |
| `GoparMain` | gopar/main.go: the block ranges in `main` |
| `Parallel2Go` | parallel2.go: `Head`, the chunking loop, `Validate` |
| `Parallel4Py` | parallel4.py: the backward `(start, end)` ranges and the range validator |
| `ParallelPy` | parallel.py: the strided chunks and `validate_parallel` |
| `Parallel2Py` | parallel2.py: the four strided chunks and the defective `validate_rows` |
| `Parallel3Py` | parallel3.py: `check_cells` and the order-preserving filter |
| `MainPy` | py/main.py: the sequential reference |

The Go programs pass `Strconv.Parses` (Atoi succeeds) as the cell test.
The Python ones leave Python's `int()` as a parameter `parses`.

## Model

| member | source | states |
|---|---|---|
| Strconv.Atoi | parallel.go:33 | Succeeds exactly on an optional sign followed by one or more ASCII digits whose value lies in the 64-bit range, and then returns that value. Fails with a syntax error exactly when the string is malformed and the digits before the first offending byte have not overflowed `uint64`; every other failure is a range error. |
| Strconv.ScanDigitsOk | parallel.go:33 | The digit loop of `ParseUint` succeeds exactly on digit strings whose value, read on from the accumulator, fits in `uint64`, and yields that value. |
| Strconv.ScanDigitsSyntax | parallel.go:33 | The digit loop stops with a syntax error exactly when a non-digit comes before the accumulator has overflowed. |
| Strconv.SmallAtoiAgrees | parallel.go:33 | For 1 to 18 bytes, `Atoi`'s fast path gives exactly what `ParseInt` gives. |
| Strconv.OverflowBeforeSyntax | parallel.go:33 | A digit run past `uint64` followed by a non-digit is a range error; the same non-digit in front is a syntax error, and a sign in front is a range error. |
| Strconv.TwentyNinesThenLetter | parallel.go:33 | Twenty nines followed by `x` is a range error, not a syntax error. |
| Strconv.AtoiItoa | parallel.go:33 | Every 64-bit integer round-trips: Atoi reads back what Itoa writes. |
| Strconv.AtoiSyntaxErrors | parallel.go:33 | The empty cell, a lone sign, two signs, a letter and a leading blank are syntax errors. |
| Strconv.AtoiRangeError | parallel.go:33 | 2^63 is well formed but out of range. |
| Validate.CellErrorsSpec | parallel.go:32-36 | The cell loop reports a parse error for exactly the rejected cells of the row, under the row's ID, in increasing column order. |
| Validate.RowDiagnosticsSpec | parallel.go:27-36 | A row of the wrong width gets exactly one width diagnostic (row, its width, the expected width) and its cells are skipped. A row of the right width gets only parse errors. The row is silent exactly when it has the right width and every cell parses. |
| Validate.ValidateRowsSpec | py/main.py:10-20 | Every diagnostic describes a real defect, every defect has its diagnostic, and they come out in row-then-column order. |
| Validate.DefectIsReported | py/main.py:11-20 | A faulty row makes the report non-empty. |
| Validate.SilentIffWellFormed | py/main.py:10-20 | No diagnostics exactly when every row has the expected width and every cell parses. |
| Validate.FirstRowNeverTooWide | py/main.py:41 | With the width taken from row 0, row 0 never gets a width diagnostic. |
| Validate.Characterisation | py/main.py:10-20 | Any list that is sound, complete and in row-then-column order is the validator's output: an independent definition of the sequential pass. |
| Plans.ContiguousPartitions | parallel.go:68-78 | A plan that starts at 0, is gap-free and ends at `L` puts every row index in exactly one range. |
| Plans.BlocksFlatten | parallel.go:68-80 | The blocks cut along such a plan concatenate back to the table. |
| Plans.Stride | parallel.py:29 | `rows[i::n]` holds the rows `i, i+n, i+2n, …` in their order, and no further row of that stride is left out. |
| Plans.StrideIdsPartition | parallel.py:29 | The strides `i = 0 .. n-1` together hold every row index exactly once. |
| Plans.StrideBalanced | parallel.py:29 | Strides differ in length by at most one, the earlier ones being the longer. |
| Plans.StridePositionUnique | parallel.py:29 | Position `k` of stride `i` and position `k'` of stride `i'` name the same row only when `i = i'` and `k = k'`. |
| Dispatch.ValidateRowsAppend | parallel.go:25-38 | Validating `a + b` gives the report for `a`, then the report for `b` with every row ID moved past `a`. |
| Dispatch.ContiguousDispatch | parallel.go:83-103 | For any contiguous plan, the blocks' reports, renumbered by block start and concatenated, are exactly the sequential report. |
| Dispatch.ContiguousDispatchUnion | parallel.go:83-103 | The same as a multiset: in any interleaving, the workers report each sequential diagnostic once. |
| Dispatch.PlaceLocal | parallel.py:15-29 | A chunk whose row `k` is table row `ids[k]` reports, once local row `k` is read as `ids[k]`, what validating rows `ids` in order with absolute numbers reports. |
| Dispatch.StridedDispatch | parallel.py:27-30 | The strided chunks' reports, with local row `k` of chunk `i` read as row `i + k*n`, together are the sequential report. |
| Dispatch.ChunkedDispatch | parallel2.go:78-82 | For any way of chopping the table into consecutive chunks, the reports renumbered by chunk offset and concatenated are the sequential report. |
| ParallelGo.BlockStartClosed | parallel.go:68-77 | Each block starts where the previous one ends, and that start agrees with the closed forms the two loops compute. |
| ParallelGo.BalancedSizes | parallel.go:51-78 | The first `L % n` blocks have `L / n + 1` rows; the others have `L / n`. |
| ParallelGo.BalancedContiguous | parallel.go:68-78 | The blocks start at 0, each ends where the next starts, and the last ends at `L`. Every slice bound lies in `[0, L]`. |
| ParallelGo.LargerPiece | parallel.go:68-72 | Below the remainder, block `i` is the slice `[i*(bs+1), (i+1)*(bs+1))`, and those bounds lie within the table. |
| ParallelGo.SmallerPiece | parallel.go:74-78 | From the remainder on, block `i` is the slice `[i*bs+rem, (i+1)*bs+rem)`, and those bounds lie within the table. |
| ParallelGo.FillLarger | parallel.go:68-72 | The first loop sets exactly the blocks below the remainder to their balanced slices and leaves the others untouched. |
| ParallelGo.FillSmaller | parallel.go:74-78 | The second loop sets exactly the blocks from the remainder on to their balanced slices and leaves the earlier ones untouched. |
| ParallelGo.Subslice | parallel.go:50-81 | Exactly `n` blocks with the balanced sizes, concatenating to the input. |
| ParallelGo.Balanced | parallel.go:46-81 | No block has more than one row more than any other. |
| ParallelGo.MoreWorkersThanRows | parallel.go:51-78 | With more workers than rows, the first `L` blocks hold one row each and the rest are empty. |
| ParallelGo.ValidateParallelIsSequential | parallel.go:83-103 | One worker per block, empty blocks included. Renumbered by block start, the workers report exactly the sequential pass, as a sequence and as a multiset. |
| ParallelGo.Run | parallel.go:105-126 | An empty table is refused; otherwise exactly `n` workers report. |
| ParallelGo.AtoiExamples | parallel.go:25-38 | `1,-2,x` against width 3 gives one parse error at column 2. A one-cell second row against width 2 gives one width diagnostic, and its cell is not checked. |
| GoparMain.GoparSizes | gopar/main.go:55-73 | Blocks `0 .. n-2` have `L / n` rows; the last has `L / n + L % n`. |
| GoparMain.GoparContiguous | gopar/main.go:61-73 | The blocks tile `[0, L)`: disjoint, in bounds, and covering every row. |
| GoparMain.NotBalanced | gopar/main.go:55-73 | With `2n - 1` rows, every block has one row but the last has `n`: the blocks are not balanced to within one. |
| GoparMain.ImbalanceBound | gopar/main.go:55-73 | The last block has at least as many rows as each other block and at most `n - 1` more. |
| GoparMain.FewerRowsThanWorkers | gopar/main.go:55-73 | With fewer rows than workers, every block but the last is empty and the last holds all rows. |
| GoparMain.WorkersAreSequential | gopar/main.go:59-74 | Renumbered by block start, the `n` workers report exactly the sequential pass. |
| GoparMain.Run | gopar/main.go:46-74 | An empty table is refused before row 0 is read. Otherwise `n` workers run, and once their row IDs are renumbered by block start, no worker reports a width mismatch for the table's row 0. |
| GoparMain.RowZeroNeverTooWide | gopar/main.go:55-74 | Whichever worker holds the table's row 0 (the first when `L >= n`, the last when `L < n`), the renumbered reports hold no width mismatch for it. |
| Parallel2Go.Head | parallel2.go:48-55 | `n` is clamped to the length; head then tail is the input, and the head has `min(n, len)` rows. |
| Parallel2Go.HeadProgress | parallel2.go:48-55 | With `n >= 1` a non-empty tail shrinks; with `n = 0` Head returns an empty head and the tail unchanged. |
| Parallel2Go.Chunks | parallel2.go:78-82 | The chunks concatenate to the table. All have `chunkSize` rows except the last, which has 1 to `chunkSize`. |
| Parallel2Go.ChunkCount | parallel2.go:75-82 | There are `ceil(L / chunkSize)` chunks. |
| Parallel2Go.ChunkLoopTerminates | parallel2.go:79-82 | With `chunkSize >= 1` the loop ends within `L` iterations and hands out those chunks. |
| Parallel2Go.ChunkLoopDiverges | parallel2.go:79-82 | With `chunkSize = 0` and rows left, the loop does not end within any number of iterations. |
| Plans.ChunkSizeZero | parallel2.go:75 | The chunk size `len(rows)/coreCount` is 0 exactly when there are fewer rows than cores; parallel4.py:29 computes the same size. |
| Parallel2Go.WorkersDiverge | parallel2.go:65-82 | With fewer rows than cores, `main` never gets past the loop. |
| Parallel2Go.WorkersAreSequential | parallel2.go:28-82 | With at least as many rows as cores, the loop ends. Renumbered by chunk offset, the `Validate` calls report exactly the sequential pass; their own row IDs are chunk-local. |
| Parallel2Go.AtLeastOneChunkPerCore | parallel2.go:74-82 | The loop starts at least one worker per core, and can start more. |
| Parallel2Go.TenRowsFourCores | parallel2.go:74-82 | Ten rows on four cores give chunks of two and five workers. |
| Plans.CorrectedChunkSize | parallel2.go:75 | The corrected chunk size is at least 1 and agrees with the original whenever there are at least as many rows as cores. |
| Parallel2Go.CorrectedWorkersAreSequential | parallel2.go:75-82 | The corrected loop always ends and agrees with the original when that one ends. Its workers report the sequential pass. |
| Parallel4Py.ValidateRangeIsShifted | parallel4.py:11-23 | Validating rows `start .. end-1` of the whole table, with absolute IDs, is the sequential report of that slice renumbered by `start`. |
| Parallel4Py.ValidateRangeRows | parallel4.py:13-14 | Every diagnostic of a range names a row of that range. |
| Parallel4Py.BackwardRangesShape | parallel4.py:30-34 | The ranges descend: the first ends at `L`, the last starts at 0, and each ends where the previous starts. All have `chunk_size` rows except the last, which has 1 to `chunk_size`. |
| Parallel4Py.RangeLoopTerminates | parallel4.py:30-34 | With `chunk_size >= 1` the loop ends within `L` iterations and produces those ranges. |
| Parallel4Py.RangeLoopInBounds | parallel4.py:30-34 | Whatever the range size, every range the loop appends lies within `[0, L)`. |
| Parallel4Py.RangeLoopDiverges | parallel4.py:29-34 | With `chunk_size = 0`, `start == end` and the loop does not end within any number of iterations. |
| Parallel4Py.BackwardRangesContiguous | parallel4.py:30-34 | Read backwards, the ranges tile `[0, L)` from left to right. |
| Parallel4Py.BackwardRangesTile | parallel4.py:30-34 | The ranges are in bounds and disjoint, and every row lies in one of them. |
| Parallel4Py.BackwardProcessesAreSequential | parallel4.py:36-41 | One process per range: together they report each diagnostic of the sequential pass once. |
| Parallel4Py.ValidateParallelIsSequential | parallel4.py:25-44 | With at least as many rows as cores, `validate_parallel` ends and its processes report the sequential pass. |
| Parallel4Py.ValidateParallelDiverges | parallel4.py:29-34 | With fewer rows than cores (but some rows), `validate_parallel` never ends. |
| Parallel4Py.CorrectedIsSequential | parallel4.py:25-44 | The corrected loop always ends and agrees with the original when that one ends. Its processes report the sequential pass. |
| ParallelPy.EveryRowPlaced | parallel.py:29 | Row `x` of the table is at position `x / n` of chunk `x % n`. |
| ParallelPy.EveryRowOnce | parallel.py:29 | No row is at two positions of the chunks. |
| ParallelPy.ChunkSizesSum | parallel.py:29 | The chunk sizes add up to the number of rows. |
| ParallelPy.ChunkSizes | parallel.py:29 | Chunk `i` has `ceil((L - i) / n)` rows, so sizes differ by at most one; chunks at or past `L` are empty. |
| ParallelPy.Located | parallel.py:15-29 | A worker's diagnostic for local row `k` of chunk `i` is one for table row `i + k*n`. |
| ParallelPy.ValidateParallelIsSequential | parallel.py:27-32 | Located this way, the `n` workers' reports together are the sequential report. |
| ParallelPy.Run | parallel.py:45-54 | An empty table is refused; otherwise exactly `n` workers report. |
| Parallel2Py.RowLoop | parallel2.py:17-21 | The row loop finishes exactly when every row has the expected width; otherwise it raises NameError. |
| Parallel2Py.CellLoop | parallel2.py:22-26 | The dedented column loop finishes exactly when every cell of the row parses; otherwise it raises NameError. |
| Parallel2Py.Worker | parallel2.py:14-26 | A worker ends normally exactly when its chunk is non-empty, all rows have the expected width and the last row's cells parse. An empty chunk raises UnboundLocalError, and any other failure raises NameError. |
| Parallel2Py.WorkerFindsOnlySomeDefects | parallel2.py:17-26 | For a non-empty chunk: a normal end means only that the widths are right and the last row is clean. Cells of earlier rows are never checked. |
| Parallel2Py.MultiValidate | parallel2.py:28-34 | Exactly four workers, whatever the machine. |
| Parallel2Py.BadCellGoesUnreported | parallel2.py:17-34 | The table `x,1,1,1,1` (one column): all four workers end normally and nothing is printed, while the sequential pass reports the bad cell. |
| Parallel2Py.CorrectedIsSequential | parallel2.py:33 | With the sequential validator as the worker, the four strided reports, located as `i + 4k`, together are the sequential report. |
| Parallel3Py.FirstFailure | parallel3.py:24-28 | The first cell `int()` rejects, or none when all parse. |
| Parallel3Py.CheckCells | parallel3.py:20-29 | No message exactly when the width is right and every cell parses. A message carries the row ID and the cells, and says "Not defined" exactly on a width mismatch. Otherwise it names the first failing column. |
| Parallel3Py.MessagesSpec | parallel3.py:31-34 | The printed messages are the rows' non-None results, in strictly increasing row order, with absolute row IDs. Every faulty row has one. |
| Parallel3Py.SilentIffWellFormed | parallel3.py:20-34 | Nothing is printed exactly when the table is well formed. |
| Parallel3Py.SameRowsAsSequential | parallel3.py:31-34 | A row gets a message exactly when the sequential pass reports it. |
| Parallel3Py.NotDefinedIsWidth | parallel3.py:21-29 | "Not defined" exactly where the sequential pass reports a width mismatch. |
| Parallel3Py.ColumnIsFirstReported | parallel3.py:24-29 | The column named is the first column the sequential pass reports for that row. |
| MainPy.Run | py/main.py:27-42 | An empty table is refused. Otherwise the report is sound, complete and in order, has no width diagnostic for row 0, and is empty exactly when the table is well formed. |

## Left out

- Reading the table: `scanInCSV` / `scan_in_csv`, standard input and `split(',')`. Rows are given as a sequence of string sequences. py/main.py:6 ignores its argument and reads `sys.stdin`.
- Strconv.Atoi: Go's strings are bytes and the model's are characters. Every byte of a non-ASCII character is a non-digit, so the outcome is the same. The Go standard library's `strconv` code is not part of this repository; the model follows its `Atoi`, `ParseInt` and `ParseUint` for base 10 on a 64-bit platform, and keeps the kind of error but not the `NumError` text.
- Goroutines, `sync.WaitGroup`, `multiprocessing` processes and pools. Each block is validated exactly once, and the interleaving of the workers' output is forgotten by the multiset union.
- The race in parallel2.go: `wg.Add(1)` runs inside the goroutine (line 29), so `wg.Wait` (line 85) may return before any worker has started.
- The result of `pool.imap` in parallel2.py:34 is never consumed, so the workers' exceptions are never seen by the caller.
- Parallel2Py.Worker: it returns how the call ends, not the exceptions' propagation through the pool.
- Timing (`time.Now`, `datetime`, `timeit`) and the informational prints: `id()` in parallel4.py, `validating %s rows`, `N_CORES`, and Head's `fmt.Println(n)`.
- `runtime.NumCPU`, `GOMAXPROCS` and `cpu_count`: the worker count is a parameter `n >= 1`.
- Message text and the library's error text: the diagnostics are a datatype. parallel3.py's message keeps the row's cells but not their formatting.
- Python's `int()` grammar (blanks, underscores, Unicode digits): it stays an abstract predicate `parses`. The trailing newline Python keeps on the last cell, which `int()` tolerates, is part of that predicate.
- Process exit codes. Only the `len(rows) >= 1` guard is kept, as the `None` result of each `Run`.
- Parallel2Go.ChunkLoop, Parallel4Py.RangeLoop: the loops are run for at most `fuel` iterations, with `None` when they have not finished. "Never ends" is stated as `None` for every bound.
- parallel4.py indents lines 14 and 34 with a tab. The file is read as Python 2 does (a tab reaches column 8), so both lines belong to their loop's body. Under Python 2, `len(rows)/core_count` on integers is floor division, which `ChunkSize` models.
- ParallelGo.ValidateParallel requires a non-empty table, because every goroutine reads `rows[0]` (parallel.go:97). `main` establishes this at line 111.

## Findings

| source | as written | input that shows it | evidently intended | confidence | as-written member | corrected member |
|---|---|---|---|---|---|---|
| parallel2.go:75-82 | `chunkSize := len(rows)/coreCount`, then `Head(tail, chunkSize)` until `tail` is empty | 1 row on 2 cores: `chunkSize` is 0, `Head` returns an empty head and the same tail, so the loop never ends | a chunk size of at least 1 (`max(1, len/cores)`) | not executed | Parallel2Go.WorkersDiverge | Parallel2Go.CorrectedWorkersAreSequential |
| parallel4.py:29-34 | `chunk_size = int(len(rows)/core_count)`, then `start = max(end - chunk_size, 0)` until `end` is 0 | 1 row on 2 cores: `chunk_size` is 0, `start == end`, so the loop never ends | a range size of at least 1 | not executed | Parallel4Py.ValidateParallelDiverges | Parallel4Py.CorrectedIsSequential |
| parallel2.py:17-26 | the row loop binds `i` but the messages use `row_id`, and the column loop sits after the row loop | the one-column table `x,1,1,1,1`: the chunks are `[x,1]`, `[1]`, `[1]`, `[1]` and every worker ends normally without printing, though cell `(0, 0)` is bad | the sequential validator on each strided chunk | not executed | Parallel2Py.BadCellGoesUnreported | Parallel2Py.CorrectedIsSequential |
