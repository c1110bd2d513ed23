/** `enhanceTableData`: completes a record from the shape of the rendered
    table. The rendered table is given by the number of cells of each of
    its rows, and by whether it has a header section. */
module Enhancement {
  import opened TableModel

  /** `n` is what the running `Math.max` over the rows' cell counts ends at:
      no row has more cells, and it is 0 or the cell count of some row. */
  ghost predicate IsMaxCellCount(rowCells: seq<nat>, n: nat) {
    && (forall i | 0 <= i < |rowCells| :: rowCells[i] <= n)
    && (n == 0 || n in rowCells)
  }

  /** The largest cell count over the rows, 0 for a table without rows. */
  function MaxCellCount(rowCells: seq<nat>): (m: nat)
    ensures IsMaxCellCount(rowCells, m)
  {
    if rowCells == [] then 0
    else
      var m := MaxCellCount(rowCells[..|rowCells| - 1]);
      var last := rowCells[|rowCells| - 1];
      assert rowCells == rowCells[..|rowCells| - 1] + [last];
      if m < last then last else m
  }

  /** The record `enhanceTableData` returns. The default arrays are sized by
      the measured row and column counts, whatever the record says. */
  function Enhanced(d: TableData, rowCells: seq<nat>, hasHeaderRow: bool): TableData {
    var rows := |rowCells|;
    var cols := MaxCellCount(rowCells);
    TableData(
      d.id,
      Structure(
        if d.structure.rowCount == 0 then rows else d.structure.rowCount,
        if d.structure.colCount == 0 then cols else d.structure.colCount,
        if d.structure.hasHeaders.None? then Some(hasHeaderRow) else d.structure.hasHeaders,
        d.structure.useTableWrapper),
      Styling(
        if d.styling.rowHeights == [] then AllAuto(rows) else d.styling.rowHeights,
        if d.styling.colWidths == [] then AllAuto(cols) else d.styling.colWidths,
        if d.styling.alignment == [] then DefaultAlignment(cols) else d.styling.alignment))
  }

  /** What enhancing does to a record: zero counts and an absent `hasHeaders`
      are filled from the rendered table; empty arrays become all-`auto`
      heights (one per row) and widths (one per column) and the
      left-then-right alignment (one per column); everything else is kept. */
  lemma EnhancedFills(d: TableData, rowCells: seq<nat>, hasHeaderRow: bool)
    ensures var r := Enhanced(d, rowCells, hasHeaderRow);
      && r.id == d.id && r.structure.useTableWrapper == d.structure.useTableWrapper
      && r.structure.rowCount == (if d.structure.rowCount == 0 then |rowCells| else d.structure.rowCount)
      && (d.structure.colCount != 0 ==> r.structure.colCount == d.structure.colCount)
      && (d.structure.colCount == 0 ==> IsMaxCellCount(rowCells, r.structure.colCount))
      && r.structure.hasHeaders == (if d.structure.hasHeaders.None? then Some(hasHeaderRow) else d.structure.hasHeaders)
      && (d.styling.rowHeights != [] ==> r.styling.rowHeights == d.styling.rowHeights)
      && (d.styling.rowHeights == [] ==>
            |r.styling.rowHeights| == |rowCells| && forall i | 0 <= i < |rowCells| :: r.styling.rowHeights[i] == "auto")
      && (d.styling.colWidths != [] ==> r.styling.colWidths == d.styling.colWidths)
      && (d.styling.colWidths == [] ==>
            IsMaxCellCount(rowCells, |r.styling.colWidths|) && forall i | 0 <= i < |r.styling.colWidths| :: r.styling.colWidths[i] == "auto")
      && (d.styling.alignment != [] ==> r.styling.alignment == d.styling.alignment)
      && (d.styling.alignment == [] ==>
            && IsMaxCellCount(rowCells, |r.styling.alignment|)
            && (|r.styling.alignment| > 0 ==> r.styling.alignment[0] == "left")
            && forall i | 1 <= i < |r.styling.alignment| :: r.styling.alignment[i] == "right")
  {
  }

  /** `enhanceTableData`. The input is a value, so the copy it works on is
      never the caller's record; the result is `Enhanced`, whose effect
      `EnhancedFills` states. */
  method EnhanceTableData(d: TableData, rowCells: seq<nat>, hasHeaderRow: bool) returns (r: TableData)
    ensures r == Enhanced(d, rowCells, hasHeaderRow)
  {
    r := d;
    var rowCount := |rowCells|;
    var colCount := 0;
    for k := 0 to |rowCells|
      invariant colCount == MaxCellCount(rowCells[..k])
    {
      assert rowCells[..k + 1][..k] == rowCells[..k];
      if colCount < rowCells[k] {
        colCount := rowCells[k];
      }
    }
    assert rowCells[..|rowCells|] == rowCells;

    if r.structure.rowCount == 0 {
      r := r.(structure := r.structure.(rowCount := rowCount));
    }
    if r.structure.colCount == 0 {
      r := r.(structure := r.structure.(colCount := colCount));
    }
    if r.structure.hasHeaders.None? {
      r := r.(structure := r.structure.(hasHeaders := Some(hasHeaderRow)));
    }
    if r.styling.rowHeights == [] {
      r := r.(styling := r.styling.(rowHeights := seq(rowCount, _ => "auto")));
    }
    if r.styling.colWidths == [] {
      r := r.(styling := r.styling.(colWidths := seq(colCount, _ => "auto")));
    }
    if r.styling.alignment == [] {
      var alignment := seq(colCount, _ => "right");
      if colCount > 0 {
        alignment := alignment[0 := "left"];
      }
      assert alignment == DefaultAlignment(colCount);
      r := r.(styling := r.styling.(alignment := alignment));
    }
  }

  /** Enhancing an enhanced record with the same table changes nothing. */
  lemma EnhancedIdempotent(d: TableData, rowCells: seq<nat>, hasHeaderRow: bool)
    ensures Enhanced(Enhanced(d, rowCells, hasHeaderRow), rowCells, hasHeaderRow) == Enhanced(d, rowCells, hasHeaderRow)
  {
    var e := Enhanced(d, rowCells, hasHeaderRow);
    if e.structure.rowCount == 0 {
      assert |rowCells| == 0;
    }
  }
}
