/** Running the validator once per block, in any interleaving, reports what
    the sequential pass reports, once each block's local row numbers are
    mapped back to the table's: `start + k` for a contiguous block that starts
    at `start`, and `ids[k]` for a chunk that gathers the rows at `ids` (the
    strided chunk `rows[i::n]` has `ids[k] == i + k*n`). */
module Dispatch {
  import opened Common
  import opened Validate
  import opened Plans

  /** One worker per block, each validating its block once. */
  function ValidateEach(parses: string -> bool, blocks: seq<seq<Row>>, colSize: nat): (outs: seq<seq<Diagnostic>>)
    ensures |outs| == |blocks|
  {
    seq(|blocks|, j requires 0 <= j < |blocks| => ValidateRows(parses, blocks[j], colSize))
  }

  /** Every diagnostic of `ds`, reported under row number `id` instead. */
  function Relabel(ds: seq<Diagnostic>, id: nat): (r: seq<Diagnostic>)
    ensures |r| == |ds|
  {
    seq(|ds|, t requires 0 <= t < |ds| => ds[t].(row := id))
  }

  /** Block-local row number `k` becomes `off + k`. */
  function Shift(ds: seq<Diagnostic>, off: nat): (r: seq<Diagnostic>)
    ensures |r| == |ds|
  {
    seq(|ds|, t requires 0 <= t < |ds| => ds[t].(row := off + ds[t].row))
  }

  predicate RowsBelow(ds: seq<Diagnostic>, L: nat) {
    forall t :: 0 <= t < |ds| ==> ds[t].row < L
  }

  /** Chunk-local row number `k` becomes `ids[k]`. */
  function Place(ds: seq<Diagnostic>, ids: seq<nat>): (r: seq<Diagnostic>)
    requires RowsBelow(ds, |ids|)
    ensures |r| == |ds|
  {
    seq(|ds|, t requires 0 <= t < |ds| => ds[t].(row := ids[ds[t].row]))
  }

  /** Each contiguous block's output, renumbered by the block's start. */
  function Renumbered(outs: seq<seq<Diagnostic>>, plan: seq<Range>): (r: seq<seq<Diagnostic>>)
    requires |outs| == |plan|
    ensures |r| == |plan|
  {
    seq(|plan|, j requires 0 <= j < |plan| => Shift(outs[j], plan[j].lo))
  }

  lemma ShiftAppend(a: seq<Diagnostic>, b: seq<Diagnostic>, off: nat)
    ensures Shift(a + b, off) == Shift(a, off) + Shift(b, off)
  {
  }

  lemma PlaceAppend(a: seq<Diagnostic>, b: seq<Diagnostic>, ids: seq<nat>)
    requires RowsBelow(a, |ids|) && RowsBelow(b, |ids|)
    ensures RowsBelow(a + b, |ids|)
    ensures Place(a + b, ids) == Place(a, ids) + Place(b, ids)
  {
  }

  /** Ids past every row number in use are never consulted. */
  lemma PlacePrefix(ds: seq<Diagnostic>, ids: seq<nat>, m: nat)
    requires m <= |ids| && RowsBelow(ds, m)
    ensures Place(ds, ids) == Place(ds, ids[..m])
  {
  }

  /** The cell diagnostics of a row do not depend on the number it is reported under. */
  lemma {:induction false} CellErrorsMoved(parses: string -> bool, row: Row, id: nat, id2: nat)
    ensures CellErrors(parses, row, id2) == Relabel(CellErrors(parses, row, id), id2)
  {
    if |row| > 0 {
      CellErrorsMoved(parses, row[..|row| - 1], id, id2);
    }
  }

  lemma RowDiagnosticsMoved(parses: string -> bool, row: Row, id: nat, id2: nat, colSize: nat)
    ensures RowDiagnostics(parses, row, id2, colSize) == Relabel(RowDiagnostics(parses, row, id, colSize), id2)
  {
    CellErrorsMoved(parses, row, id, id2);
  }

  lemma ShiftRow(parses: string -> bool, row: Row, id: nat, off: nat, colSize: nat)
    ensures Shift(RowDiagnostics(parses, row, id, colSize), off) == RowDiagnostics(parses, row, off + id, colSize)
  {
    var ds := RowDiagnostics(parses, row, id, colSize);
    RowDiagnosticsSpec(parses, row, id, colSize);
    RowDiagnosticsMoved(parses, row, id, off + id, colSize);
    forall t | 0 <= t < |ds| ensures Shift(ds, off)[t] == Relabel(ds, off + id)[t] {
      assert ds[t] in ds;
    }
  }

  lemma PlaceRow(parses: string -> bool, row: Row, k: nat, ids: seq<nat>, colSize: nat)
    requires k < |ids|
    ensures RowsBelow(RowDiagnostics(parses, row, k, colSize), |ids|)
    ensures Place(RowDiagnostics(parses, row, k, colSize), ids) == RowDiagnostics(parses, row, ids[k], colSize)
  {
    var ds := RowDiagnostics(parses, row, k, colSize);
    RowDiagnosticsSpec(parses, row, k, colSize);
    RowDiagnosticsMoved(parses, row, k, ids[k], colSize);
    forall t | 0 <= t < |ds| ensures ds[t].row == k {
      assert ds[t] in ds;
    }
    assert Place(ds, ids) == Relabel(ds, ids[k]);
  }

  /** One step of the row loop. */
  lemma ValidateRowsSnoc(parses: string -> bool, rows: seq<Row>, colSize: nat)
    requires |rows| > 0
    ensures ValidateRows(parses, rows, colSize) ==
      ValidateRows(parses, rows[..|rows| - 1], colSize) + RowDiagnostics(parses, rows[|rows| - 1], |rows| - 1, colSize)
  {
  }

  lemma ValidateRowsBelow(parses: string -> bool, rows: seq<Row>, colSize: nat)
    ensures RowsBelow(ValidateRows(parses, rows, colSize), |rows|)
  {
    ValidateRowsSpec(parses, rows, colSize);
    var r := ValidateRows(parses, rows, colSize);
    forall t | 0 <= t < |r| ensures r[t].row < |rows| {
      assert r[t] in r;
      assert Explains(parses, rows, colSize, r[t]);
    }
  }

  /** The row loop's last step, on a table given as its front and its last row. */
  lemma ValidateRowsSnocAt(parses: string -> bool, rows: seq<Row>, front: seq<Row>, last: Row, colSize: nat)
    requires |rows| > 0 && front == rows[..|rows| - 1] && last == rows[|rows| - 1]
    ensures ValidateRows(parses, rows, colSize) ==
      ValidateRows(parses, front, colSize) + RowDiagnostics(parses, last, |front|, colSize)
  {
  }

  lemma SnocOfAppend<T>(a: seq<T>, b: seq<T>)
    requires |b| > 0
    ensures (a + b)[..|a + b| - 1] == a + b[..|b| - 1]
    ensures (a + b)[|a + b| - 1] == b[|b| - 1]
  {
  }

  /** The algebra of one step of the append proof, on plain sequences. */
  lemma AppendStep(whole: seq<Diagnostic>, x: seq<Diagnostic>, y: seq<Diagnostic>, va: seq<Diagnostic>,
                   vb: seq<Diagnostic>, last: seq<Diagnostic>, off: nat)
    requires whole == x + y
    requires x == va + Shift(vb, off)
    requires Shift(last, off) == y
    ensures whole == va + Shift(vb + last, off)
  {
    ShiftAppend(vb, last, off);
  }

  /** The last row of `b`, validated at the end of `a + b` and at the end of
      `b`: the same diagnostics, `|a|` rows apart. */
  lemma LastRowOfAppend(parses: string -> bool, a: seq<Row>, b: seq<Row>, colSize: nat)
    returns (y: seq<Diagnostic>, last: seq<Diagnostic>)
    requires |b| > 0
    ensures ValidateRows(parses, a + b, colSize) == ValidateRows(parses, a + b[..|b| - 1], colSize) + y
    ensures ValidateRows(parses, b, colSize) == ValidateRows(parses, b[..|b| - 1], colSize) + last
    ensures Shift(last, |a|) == y
  {
    var m := |b| - 1;
    SnocOfAppend(a, b);
    ValidateRowsSnocAt(parses, a + b, a + b[..m], b[m], colSize);
    ValidateRowsSnocAt(parses, b, b[..m], b[m], colSize);
    y := RowDiagnostics(parses, b[m], |a + b[..m]|, colSize);
    last := RowDiagnostics(parses, b[m], |b[..m]|, colSize);
    ShiftRow(parses, b[m], |b[..m]|, |a|, colSize);
  }

  /** Validating `a + b` is validating `a`, then `b` with its row numbers
      moved past `a`. */
  lemma {:induction false} ValidateRowsAppend(parses: string -> bool, a: seq<Row>, b: seq<Row>, colSize: nat)
    ensures ValidateRows(parses, a + b, colSize) ==
      ValidateRows(parses, a, colSize) + Shift(ValidateRows(parses, b, colSize), |a|)
  {
    if |b| == 0 {
      assert a + b == a;
    } else {
      var y, last := LastRowOfAppend(parses, a, b, colSize);
      ValidateRowsAppend(parses, a, b[..|b| - 1], colSize);
      AppendStep(ValidateRows(parses, a + b, colSize), ValidateRows(parses, a + b[..|b| - 1], colSize), y,
                 ValidateRows(parses, a, colSize), ValidateRows(parses, b[..|b| - 1], colSize), last, |a|);
    }
  }

  /** Cutting the table at `lo`: the rows before, then the rows after renumbered. */
  lemma ValidateRowsSplit(parses: string -> bool, rows: seq<Row>, lo: nat, colSize: nat)
    requires lo <= |rows|
    ensures ValidateRows(parses, rows, colSize) ==
      ValidateRows(parses, rows[..lo], colSize) + Shift(ValidateRows(parses, rows[lo..], colSize), lo)
  {
    assert rows == rows[..lo] + rows[lo..];
    ValidateRowsAppend(parses, rows[..lo], rows[lo..], colSize);
  }

  lemma RenumberedFront(parses: string -> bool, rows: seq<Row>, plan: seq<Range>, colSize: nat)
    requires Contiguous(plan, |rows|) && |plan| > 0
    ensures InBounds(plan, |rows|)
    ensures InBounds(plan[..|plan| - 1], plan[|plan| - 1].lo)
    ensures Renumbered(ValidateEach(parses, Blocks(rows, plan), colSize), plan)[..|plan| - 1] ==
      Renumbered(ValidateEach(parses, Blocks(rows[..plan[|plan| - 1].lo], plan[..|plan| - 1]), colSize), plan[..|plan| - 1])
  {
    BlocksFront(rows, plan);
    var m := |plan| - 1;
    var front := plan[..m];
    var whole := Renumbered(ValidateEach(parses, Blocks(rows, plan), colSize), plan);
    var part := Renumbered(ValidateEach(parses, Blocks(rows[..plan[m].lo], front), colSize), front);
    forall j | 0 <= j < m ensures whole[j] == part[j] {
      assert Blocks(rows, plan)[j] == Blocks(rows[..plan[m].lo], front)[j];
      assert plan[j] == front[j];
    }
    assert whole[..m] == part;
  }

  /** The last block's renumbered output extends the output for the blocks before it. */
  lemma ContiguousStep(parses: string -> bool, rows: seq<Row>, plan: seq<Range>, colSize: nat)
    requires Contiguous(plan, |rows|) && |plan| > 0
    requires InBounds(plan[..|plan| - 1], plan[|plan| - 1].lo) && plan[|plan| - 1].lo <= |rows|
    requires Flatten(Renumbered(ValidateEach(parses, Blocks(rows[..plan[|plan| - 1].lo], plan[..|plan| - 1]), colSize),
                                plan[..|plan| - 1])) ==
      ValidateRows(parses, rows[..plan[|plan| - 1].lo], colSize)
    ensures InBounds(plan, |rows|)
    ensures Flatten(Renumbered(ValidateEach(parses, Blocks(rows, plan), colSize), plan)) ==
      ValidateRows(parses, rows, colSize)
  {
    ContiguousOrdered(plan, |rows|);
    var m := |plan| - 1;
    var lo := plan[m].lo;
    var s := Renumbered(ValidateEach(parses, Blocks(rows, plan), colSize), plan);
    RenumberedFront(parses, rows, plan, colSize);
    FlattenSnoc(s);
    assert plan[m].hi == |rows|;
    assert Blocks(rows, plan)[m] == rows[lo..];
    assert s[m] == Shift(ValidateRows(parses, rows[lo..], colSize), lo);
    ValidateRowsSplit(parses, rows, lo, colSize);
  }

  /** Contiguous blocks: the renumbered outputs, concatenated in block order,
      are exactly the sequential pass over the whole table. */
  lemma {:induction false} ContiguousDispatch(parses: string -> bool, rows: seq<Row>, plan: seq<Range>, colSize: nat)
    requires Contiguous(plan, |rows|)
    ensures InBounds(plan, |rows|)
    ensures Flatten(Renumbered(ValidateEach(parses, Blocks(rows, plan), colSize), plan)) ==
      ValidateRows(parses, rows, colSize)
    decreases |plan|
  {
    ContiguousOrdered(plan, |rows|);
    if |plan| > 0 {
      var m := |plan| - 1;
      var lo := plan[m].lo;
      ContiguousFront(plan, |rows|);
      ContiguousOrdered(plan[..m], lo);
      ContiguousDispatch(parses, rows[..lo], plan[..m], colSize);
      ContiguousStep(parses, rows, plan, colSize);
    }
  }

  /** Corollary for the concurrent reading: the multiset union of the
      renumbered outputs is the sequential pass's multiset. */
  lemma ContiguousDispatchUnion(parses: string -> bool, rows: seq<Row>, plan: seq<Range>, colSize: nat)
    requires Contiguous(plan, |rows|)
    ensures InBounds(plan, |rows|)
    ensures Union(Renumbered(ValidateEach(parses, Blocks(rows, plan), colSize), plan)) ==
      multiset(ValidateRows(parses, rows, colSize))
  {
    ContiguousDispatch(parses, rows, plan, colSize);
    UnionIsFlatten(Renumbered(ValidateEach(parses, Blocks(rows, plan), colSize), plan));
  }

  // ---------------------------------------------------------------------
  // Rows visited through an explicit list of absolute indices.

  predicate IdsIn(ids: seq<nat>, L: nat) {
    forall k :: 0 <= k < |ids| ==> ids[k] < L
  }

  /** Validate the rows at `ids`, in that order, reporting absolute numbers. */
  function DiagnoseAt(parses: string -> bool, rows: seq<Row>, ids: seq<nat>, colSize: nat): seq<Diagnostic>
    requires IdsIn(ids, |rows|)
  {
    if |ids| == 0 then []
    else
      var k := |ids| - 1;
      DiagnoseAt(parses, rows, ids[..k], colSize) + RowDiagnostics(parses, rows[ids[k]], ids[k], colSize)
  }

  lemma {:induction false} ValidatePrefixAtIndices(parses: string -> bool, rows: seq<Row>, L: nat, colSize: nat)
    requires L <= |rows|
    ensures ValidateRows(parses, rows[..L], colSize) == DiagnoseAt(parses, rows, Indices(L), colSize)
  {
    if L > 0 {
      ValidatePrefixAtIndices(parses, rows, L - 1, colSize);
      assert rows[..L][..L - 1] == rows[..L - 1];
      IndicesSnoc(L - 1);
      assert Indices(L)[..L - 1] == Indices(L - 1);
    }
  }

  /** A chunk whose `k`-th row is row `ids[k]` of the table: placing its local
      diagnostics at `ids` gives the absolute ones. */
  lemma {:induction false} PlaceLocal(parses: string -> bool, rows: seq<Row>, chunk: seq<Row>, ids: seq<nat>, colSize: nat)
    requires |ids| == |chunk| && IdsIn(ids, |rows|)
    requires forall k :: 0 <= k < |ids| ==> chunk[k] == rows[ids[k]]
    ensures RowsBelow(ValidateRows(parses, chunk, colSize), |ids|)
    ensures Place(ValidateRows(parses, chunk, colSize), ids) == DiagnoseAt(parses, rows, ids, colSize)
  {
    ValidateRowsBelow(parses, chunk, colSize);
    if |ids| > 0 {
      var m := |ids| - 1;
      var front := ValidateRows(parses, chunk[..m], colSize);
      var last := RowDiagnostics(parses, chunk[m], m, colSize);
      PlaceLocal(parses, rows, chunk[..m], ids[..m], colSize);
      PlacePrefix(front, ids, m);
      PlaceRow(parses, chunk[m], m, ids, colSize);
      PlaceAppend(front, last, ids);
    }
  }

  function DiagnoseChunks(parses: string -> bool, rows: seq<Row>, idChunks: seq<seq<nat>>, colSize: nat)
    : (outs: seq<seq<Diagnostic>>)
    requires forall i :: 0 <= i < |idChunks| ==> IdsIn(idChunks[i], |rows|)
    ensures |outs| == |idChunks|
  {
    seq(|idChunks|, i requires 0 <= i < |idChunks| => DiagnoseAt(parses, rows, idChunks[i], colSize))
  }

  lemma DiagnoseChunksStep(parses: string -> bool, rows: seq<Row>, L: nat, n: nat, colSize: nat)
    requires n >= 1 && L < |rows|
    ensures DiagnoseChunks(parses, rows, StrideIdChunks(L + 1, n), colSize) ==
      var before := DiagnoseChunks(parses, rows, StrideIdChunks(L, n), colSize);
      before[L % n := before[L % n] + RowDiagnostics(parses, rows[L], L, colSize)]
  {
    StrideIdChunksStep(L, n);
    var ids := StrideIdChunks(L, n);
    var ids' := ids[L % n := ids[L % n] + [L]];
    assert ids'[L % n][..|ids'[L % n]| - 1] == ids[L % n];
  }

  lemma StridedUnionStep(parses: string -> bool, rows: seq<Row>, L: nat, n: nat, colSize: nat)
    requires n >= 1 && L < |rows|
    ensures Union(DiagnoseChunks(parses, rows, StrideIdChunks(L + 1, n), colSize)) ==
      Union(DiagnoseChunks(parses, rows, StrideIdChunks(L, n), colSize)) +
      multiset(RowDiagnostics(parses, rows[L], L, colSize))
  {
    DiagnoseChunksStep(parses, rows, L, n, colSize);
    UnionExtendOne(DiagnoseChunks(parses, rows, StrideIdChunks(L, n), colSize), L % n,
                   RowDiagnostics(parses, rows[L], L, colSize));
  }

  lemma {:induction false} StridedUnionPrefix(parses: string -> bool, rows: seq<Row>, L: nat, n: nat, colSize: nat)
    requires n >= 1 && L <= |rows|
    ensures Union(DiagnoseChunks(parses, rows, StrideIdChunks(L, n), colSize)) ==
      multiset(DiagnoseAt(parses, rows, Indices(L), colSize))
  {
    if L == 0 {
      EmptyParts(DiagnoseChunks(parses, rows, StrideIdChunks(0, n), colSize));
    } else {
      StridedUnionPrefix(parses, rows, L - 1, n, colSize);
      StridedUnionStep(parses, rows, L - 1, n, colSize);
      IndicesSnoc(L - 1);
      assert Indices(L)[..L - 1] == Indices(L - 1);
    }
  }

  /** The output of the worker given `rows[i::n]`, its row `k` renumbered `i + k*n`. */
  function StridedOutput(parses: string -> bool, rows: seq<Row>, i: nat, n: nat, colSize: nat): seq<Diagnostic>
    requires n >= 1
  {
    var chunk := Stride(rows, i, n);
    ValidateRowsBelow(parses, chunk, colSize);
    Place(ValidateRows(parses, chunk, colSize), StrideIds(|rows|, i, n))
  }

  function StridedOutputs(parses: string -> bool, rows: seq<Row>, n: nat, colSize: nat): (outs: seq<seq<Diagnostic>>)
    requires n >= 1
    ensures |outs| == n
  {
    seq(n, i requires 0 <= i < n => StridedOutput(parses, rows, i, n, colSize))
  }

  /** Strided chunks: the multiset union of the renumbered outputs is the
      sequential pass's multiset. */
  lemma StridedDispatch(parses: string -> bool, rows: seq<Row>, n: nat, colSize: nat)
    requires n >= 1
    ensures Union(StridedOutputs(parses, rows, n, colSize)) == multiset(ValidateRows(parses, rows, colSize))
  {
    var L := |rows|;
    var outs := StridedOutputs(parses, rows, n, colSize);
    var ids := StrideIdChunks(L, n);
    forall i | 0 <= i < n ensures outs[i] == DiagnoseChunks(parses, rows, ids, colSize)[i] {
      PlaceLocal(parses, rows, Stride(rows, i, n), ids[i], colSize);
    }
    assert outs == DiagnoseChunks(parses, rows, ids, colSize);
    StridedUnionPrefix(parses, rows, L, n, colSize);
    ValidatePrefixAtIndices(parses, rows, L, colSize);
    assert rows[..L] == rows;
  }

  // ---------------------------------------------------------------------
  // Any chunking of the table, described by the chunks themselves.

  /** The ranges a list of consecutive chunks occupies in their concatenation. */
  function PlanOf<T>(chunks: seq<seq<T>>): (plan: seq<Range>)
    ensures |plan| == |chunks|
  {
    seq(|chunks|, j requires 0 <= j < |chunks| => Range(|Flatten(chunks[..j])|, |Flatten(chunks[..j + 1])|))
  }

  lemma PlanOfRange<T>(chunks: seq<seq<T>>, j: nat)
    requires j < |chunks|
    ensures Flatten(chunks) == Flatten(chunks[..j]) + chunks[j] + Flatten(chunks[j + 1..])
    ensures PlanOf(chunks)[j].hi == PlanOf(chunks)[j].lo + |chunks[j]|
    ensures PlanOf(chunks)[j].hi <= |Flatten(chunks)|
  {
    assert chunks == chunks[..j + 1] + chunks[j + 1..];
    FlattenAppend(chunks[..j + 1], chunks[j + 1..]);
    FlattenSnoc(chunks[..j + 1]);
    assert chunks[..j + 1][..j] == chunks[..j];
  }

  /** The chunks sit side by side in their concatenation, in order. */
  lemma PlanOfContiguous<T>(chunks: seq<seq<T>>)
    ensures Contiguous(PlanOf(chunks), |Flatten(chunks)|)
    ensures InBounds(PlanOf(chunks), |Flatten(chunks)|)
  {
    var plan := PlanOf(chunks);
    forall j | 0 <= j < |chunks| ensures plan[j].lo <= plan[j].hi <= |Flatten(chunks)| {
      PlanOfRange(chunks, j);
    }
    if |chunks| > 0 {
      assert chunks[..|chunks|] == chunks;
      assert chunks[..0] == [];
    }
    ContiguousIntro(plan, |Flatten(chunks)|);
  }

  /** Cutting the concatenation along the plan gives the chunks back. */
  lemma PlanOfBlocks<T>(chunks: seq<seq<T>>)
    ensures InBounds(PlanOf(chunks), |Flatten(chunks)|)
    ensures Blocks(Flatten(chunks), PlanOf(chunks)) == chunks
  {
    PlanOfContiguous(chunks);
    var plan := PlanOf(chunks);
    var all := Flatten(chunks);
    forall j | 0 <= j < |chunks| ensures Blocks(all, plan)[j] == chunks[j] {
      PlanOfRange(chunks, j);
      var pre := Flatten(chunks[..j]);
      assert all == pre + chunks[j] + Flatten(chunks[j + 1..]);
      assert all[|pre|..|pre| + |chunks[j]|] == chunks[j];
    }
  }

  lemma ContiguousIntro(plan: seq<Range>, L: nat)
    requires forall j :: 0 <= j < |plan| ==> plan[j].lo <= plan[j].hi
    requires forall j :: 0 <= j < |plan| - 1 ==> plan[j].hi == plan[j + 1].lo
    requires |plan| == 0 ==> L == 0
    requires |plan| > 0 ==> plan[0].lo == 0 && plan[|plan| - 1].hi == L
    ensures Contiguous(plan, L)
  {
  }

  /** Any chunking: the outputs renumbered by each chunk's offset,
      concatenated, are the sequential pass over the concatenated chunks. */
  lemma ChunkedDispatch(parses: string -> bool, chunks: seq<seq<Row>>, colSize: nat)
    ensures Flatten(Renumbered(ValidateEach(parses, chunks, colSize), PlanOf(chunks))) ==
      ValidateRows(parses, Flatten(chunks), colSize)
  {
    PlanOfContiguous(chunks);
    PlanOfBlocks(chunks);
    ContiguousDispatch(parses, Flatten(chunks), PlanOf(chunks), colSize);
  }
}
