/** The per-table metadata record (`TableData`) and the untyped record a
    `json:table-data` or `csv:table-data` block decodes to. */
module TableModel {

  datatype Option<+T> = None | Some(value: T) {
    function GetOr(default: T): T {
      match this
      case Some(v) => v
      case None => default
    }
  }

  /** `TableData.structure`. A missing or zero count reads the same
      everywhere it is used, so both are 0 here; `hasHeaders` and
      `useTableWrapper` keep "absent" apart from `false`. */
  datatype Structure = Structure(
    rowCount: nat,
    colCount: nat,
    hasHeaders: Option<bool>,
    useTableWrapper: Option<bool>)

  /** `TableData.styling`: one CSS value per row or column. A missing array
      and an empty one read the same everywhere, so both are `[]` here. */
  datatype Styling = Styling(
    rowHeights: seq<string>,
    colWidths: seq<string>,
    alignment: seq<string>)

  datatype TableData = TableData(id: string, structure: Structure, styling: Styling)

  /** A decoded record as `processTableDataObject` receives it: `structure`
      and `styling` may be absent. An absent or non-string id is `""`. */
  datatype RawRecord = RawRecord(id: string, structure: Option<Structure>, styling: Option<Styling>)

  /** The structure both the custom-line parser and the completion start from. */
  const DefaultStructure := Structure(0, 0, Some(false), None)

  const EmptyStyling := Styling([], [], [])

  /** `Array(n).fill('auto')`. */
  function AllAuto(n: nat): (r: seq<string>)
    ensures |r| == n && forall i | 0 <= i < n :: r[i] == "auto"
  {
    seq(n, _ => "auto")
  }

  /** The default alignment: the first column left, every other column right. */
  function DefaultAlignment(n: nat): (r: seq<string>)
    ensures |r| == n
    ensures n > 0 ==> r[0] == "left"
    ensures forall i | 1 <= i < n :: r[i] == "right"
  {
    seq(n, i => if i == 0 then "left" else "right")
  }

  /** The record `processTableDataObject` stores: the missing `structure` or
      `styling` replaced by its default, everything present kept. */
  function Completed(raw: RawRecord): TableData {
    TableData(raw.id, raw.structure.GetOr(DefaultStructure), raw.styling.GetOr(EmptyStyling))
  }

  /** A complete record seen as a decoded one: both parts present. */
  function AsRaw(d: TableData): RawRecord {
    RawRecord(d.id, Some(d.structure), Some(d.styling))
  }

  /** Completion fills exactly the missing parts, with the defaults. */
  lemma CompletedFillsOnlyMissing(raw: RawRecord)
    ensures Completed(raw).id == raw.id
    ensures Completed(raw).structure == if raw.structure.Some? then raw.structure.value else Structure(0, 0, Some(false), None)
    ensures Completed(raw).styling == if raw.styling.Some? then raw.styling.value else Styling([], [], [])
  {
  }

  /** Completion of a record that is already complete gives it back, and
      completing twice is completing once. */
  lemma CompletedRoundTrip(d: TableData, raw: RawRecord)
    ensures Completed(AsRaw(d)) == d
    ensures Completed(AsRaw(Completed(raw))) == Completed(raw)
  {
  }
}
