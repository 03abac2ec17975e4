/** py/main.py: the sequential reference. After refusing an empty table it
    runs `validate_rows` once over all the rows, against the width of row 0. */
module MainPy {
  import opened Common
  import opened Validate

  /** `__main__`: None for the "No rows in file" exit, otherwise the
      diagnostics of the whole table. They are sound and complete, in
      row-then-column order, never a width diagnostic for row 0, and empty
      exactly when the table is well formed. */
  function Run(parses: string -> bool, rows: seq<Row>): (r: Option<seq<Diagnostic>>)
    ensures r.None? <==> |rows| == 0
    ensures r.Some? ==> forall d :: d in r.value ==> Explains(parses, rows, |rows[0]|, d)
    ensures r.Some? ==> ReportsAll(parses, rows, |rows[0]|, r.value)
    ensures r.Some? ==> InReportOrder(r.value)
    ensures r.Some? ==> forall d :: d in r.value ==> !(d.WidthMismatch? && d.row == 0)
    ensures r.Some? ==> (r.value == [] <==> forall x :: 0 <= x < |rows| ==> RowOk(parses, rows[x], |rows[0]|))
  {
    if |rows| < 1 then None
    else
      ValidateRowsSpec(parses, rows, |rows[0]|);
      FirstRowNeverTooWide(parses, rows);
      SilentIffWellFormed(parses, rows, |rows[0]|);
      Some(ValidateRows(parses, rows, |rows[0]|))
  }
}
