/** The simplified record `addTableDataToFile` writes into a
    `json:table-data` block: zero counts, all-`auto` sizes and the default
    alignment are left out. */
module Export {
  import opened TableModel
  import Enhancement

  /** The `every` test of `addTableDataToFile`: index 0 is `left` and every
      other index is `right`. */
  predicate IsDefaultAlignment(alignment: seq<string>): (b: bool)
    ensures b <==> alignment == DefaultAlignment(|alignment|)
  {
    var b := forall i | 0 <= i < |alignment| ::
      (i == 0 && alignment[i] == "left") || (i > 0 && alignment[i] == "right");
    assert !b ==> exists i | 0 <= i < |alignment| :: alignment[i] != DefaultAlignment(|alignment|)[i];
    b
  }

  /** The `some(x => x !== 'auto')` test. */
  predicate HasNonAuto(sizes: seq<string>): (b: bool)
    ensures b <==> sizes != AllAuto(|sizes|)
  {
    var b := exists i | 0 <= i < |sizes| :: sizes[i] != "auto";
    assert !b ==> sizes == AllAuto(|sizes|);
    b
  }

  /** The simplified structure; `None` is a key left out of the JSON. */
  datatype SimplifiedStructure = SimplifiedStructure(
    rowCount: Option<nat>,
    colCount: Option<nat>,
    hasHeaders: Option<bool>,
    useTableWrapper: Option<bool>)

  datatype SimplifiedStyling = SimplifiedStyling(
    rowHeights: Option<seq<string>>,
    colWidths: Option<seq<string>>,
    alignment: Option<seq<string>>)

  datatype SimplifiedData = SimplifiedData(id: string, structure: SimplifiedStructure, styling: SimplifiedStyling)

  /** The record read back from the exported block: `processTableDataObject`
      finds both `structure` and `styling` present, and every key left out
      reads as zero, absent or empty. */
  function Reload(s: SimplifiedData): TableData {
    TableData(
      s.id,
      Structure(s.structure.rowCount.GetOr(0), s.structure.colCount.GetOr(0),
                s.structure.hasHeaders, s.structure.useTableWrapper),
      Styling(s.styling.rowHeights.GetOr([]), s.styling.colWidths.GetOr([]),
              s.styling.alignment.GetOr([])))
  }

  /** `simplifiedData` of `addTableDataToFile`. Reading it back gives the
      same structure (a `false` wrapper flag reads as absent), no count is
      written as 0, and a styling array is left out exactly when it is all
      `auto` (sizes) or the default left-then-right pattern (alignment). */
  function Simplify(d: TableData): (s: SimplifiedData)
    ensures s.id == d.id
    ensures s.structure.rowCount != Some(0) && s.structure.colCount != Some(0)
    ensures Reload(s).structure
      == d.structure.(useTableWrapper := if d.structure.useTableWrapper == Some(true) then Some(true) else None)
    ensures s.styling.rowHeights.None? <==> d.styling.rowHeights == AllAuto(|d.styling.rowHeights|)
    ensures s.styling.colWidths.None? <==> d.styling.colWidths == AllAuto(|d.styling.colWidths|)
    ensures s.styling.alignment.None? <==> d.styling.alignment == DefaultAlignment(|d.styling.alignment|)
    ensures Reload(s).styling.rowHeights == (if s.styling.rowHeights.Some? then d.styling.rowHeights else [])
    ensures Reload(s).styling.colWidths == (if s.styling.colWidths.Some? then d.styling.colWidths else [])
    ensures Reload(s).styling.alignment == (if s.styling.alignment.Some? then d.styling.alignment else [])
  {
    var st := d.structure;
    var sy := d.styling;
    SimplifiedData(
      d.id,
      SimplifiedStructure(
        if st.rowCount != 0 then Some(st.rowCount) else None,
        if st.colCount != 0 then Some(st.colCount) else None,
        st.hasHeaders,
        if st.useTableWrapper == Some(true) then Some(true) else None),
      SimplifiedStyling(
        if HasNonAuto(sy.rowHeights) then Some(sy.rowHeights) else None,
        if HasNonAuto(sy.colWidths) then Some(sy.colWidths) else None,
        if |sy.alignment| > 0 && !IsDefaultAlignment(sy.alignment) then Some(sy.alignment) else None))
  }

  /** Reading back the simplified record gives the record itself exactly
      when the simplification drops nothing that matters: no styling array
      is a non-empty all-`auto` array or a non-empty default alignment, and
      the wrapper flag is not an explicit `false`. */
  lemma ExportReloadExact(d: TableData)
    ensures Reload(Simplify(d)) == d <==>
      && (d.styling.rowHeights == [] || HasNonAuto(d.styling.rowHeights))
      && (d.styling.colWidths == [] || HasNonAuto(d.styling.colWidths))
      && (d.styling.alignment == [] || !IsDefaultAlignment(d.styling.alignment))
      && d.structure.useTableWrapper != Some(false)
  {
    var back := Reload(Simplify(d));
    var sy := d.styling;
    assert back.structure == d.structure <==> d.structure.useTableWrapper != Some(false) by {
      match d.structure.useTableWrapper
      case None =>
      case Some(b) =>
        if !b {
          assert back.structure.useTableWrapper == None;
        }
    }
    assert back.styling.rowHeights == sy.rowHeights <==> sy.rowHeights == [] || HasNonAuto(sy.rowHeights);
    assert back.styling.colWidths == sy.colWidths <==> sy.colWidths == [] || HasNonAuto(sy.colWidths);
    assert back.styling.alignment == sy.alignment <==> sy.alignment == [] || !IsDefaultAlignment(sy.alignment);
  }

  /** Exporting an enhanced record and reading it back loses nothing the
      renderer uses: enhancing the reloaded record with the same table gives
      the same record again. A styling array may be dropped by the export
      when it is what enhancing would rebuild from the table anyway: all
      `auto` with one entry per row (heights) or per column (widths), or the
      default alignment with one entry per column. The wrapper flag must not
      be an explicit `false`, which reads back as absent. */
  lemma {:induction false} ExportRoundTrip(d: TableData, rowCells: seq<nat>, hasHeaderRow: bool)
    requires var rows, cols := |rowCells|, Enhancement.MaxCellCount(rowCells);
      && (d.styling.rowHeights == [] || HasNonAuto(d.styling.rowHeights) || d.styling.rowHeights == AllAuto(rows))
      && (d.styling.colWidths == [] || HasNonAuto(d.styling.colWidths) || d.styling.colWidths == AllAuto(cols))
      && (d.styling.alignment == [] || !IsDefaultAlignment(d.styling.alignment)
          || d.styling.alignment == DefaultAlignment(cols))
    requires d.structure.useTableWrapper != Some(false)
    ensures var e := Enhancement.Enhanced(d, rowCells, hasHeaderRow);
      Enhancement.Enhanced(Reload(Simplify(e)), rowCells, hasHeaderRow) == e
  {
    var e := Enhancement.Enhanced(d, rowCells, hasHeaderRow);
    var back := Reload(Simplify(e));
    var cols := Enhancement.MaxCellCount(rowCells);
    if e.structure.rowCount == 0 {
      assert |rowCells| == 0;
    }
    if e.structure.colCount == 0 {
      assert cols == 0;
    }
    var flag := e.structure.useTableWrapper;
    assert flag == None || flag == Some(true) by {
      if flag.Some? { assert flag.value != false; }
    }
    assert back.structure == e.structure;
    var again := Enhancement.Enhanced(back, rowCells, hasHeaderRow);
    assert again.styling.rowHeights == e.styling.rowHeights;
    assert again.styling.colWidths == e.styling.colWidths;
    assert again.styling.alignment == e.styling.alignment;
  }
}
