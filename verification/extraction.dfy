/** `extractTableDataFromFile`: every `json:table-data`, then every
    `csv:table-data`, then every `table-data` block of a note is read into one
    map from table id to record. Each block yields a list of records, and
    the map is these records stored one after the other, so a later record
    with the same id replaces an earlier one. */
module Extraction {
  import opened JsText
  import opened TableModel
  import CustomFormat

  /** A `json:table-data` body after `JSON.parse`: an object, an array whose
      items are records or non-objects (`None`), or anything else, including
      a body that does not parse. */
  datatype JsonBlock = JsonObject(record: RawRecord) | JsonArray(items: seq<Option<RawRecord>>) | JsonOther

  /** The `result` map the extraction fills. */
  class TableDataMap {
    var tables: map<string, TableData>

    constructor()
      ensures tables == map[]
    {
      tables := map[];
    }

    /** `processTableDataObject`: completes the record and stores it under
        its id; every other entry stays as it was. */
    method ProcessTableDataObject(raw: RawRecord)
      modifies this
      ensures tables == old(tables)[raw.id := Completed(raw)]
    {
      var data := raw;
      if data.structure.None? {
        data := data.(structure := Some(DefaultStructure));
      }
      if data.styling.None? {
        data := data.(styling := Some(EmptyStyling));
      }
      tables := tables[data.id := TableData(data.id, data.structure.value, data.styling.value)];
    }

    /** `result[tableData.id] = tableData`, the store for a custom line. */
    method Store(d: TableData)
      modifies this
      ensures tables == old(tables)[d.id := d]
    {
      tables := tables[d.id := d];
    }
  }

  /** The map after storing `writes` one after the other into `m`. */
  function Merge(m: map<string, TableData>, writes: seq<TableData>): map<string, TableData> {
    if writes == [] then m
    else
      var last := writes[|writes| - 1];
      Merge(m, writes[..|writes| - 1])[last.id := last]
  }

  /** Storing two lists is storing the first, then the second. */
  lemma {:induction false} MergeAppend(m: map<string, TableData>, w1: seq<TableData>, w2: seq<TableData>)
    ensures Merge(m, w1 + w2) == Merge(Merge(m, w1), w2)
    decreases |w2|
  {
    if w2 == [] {
      assert w1 + w2 == w1;
    } else {
      var n := |w2| - 1;
      assert (w1 + w2)[..|w1 + w2| - 1] == w1 + w2[..n];
      assert (w1 + w2)[|w1 + w2| - 1] == w2[n];
      MergeAppend(m, w1, w2[..n]);
    }
  }

  /** The record stored last under an id is the one the map keeps. */
  lemma {:induction false} MergeLastWins(m: map<string, TableData>, writes: seq<TableData>, i: nat)
    requires i < |writes|
    requires forall j | i < j < |writes| :: writes[j].id != writes[i].id
    ensures writes[i].id in Merge(m, writes) && Merge(m, writes)[writes[i].id] == writes[i]
    decreases |writes|
  {
    if i < |writes| - 1 {
      MergeLastWins(m, writes[..|writes| - 1], i);
    }
  }

  /** An id nothing is stored under keeps what `m` had for it. */
  lemma {:induction false} MergeUntouched(m: map<string, TableData>, writes: seq<TableData>, id: string)
    requires forall j | 0 <= j < |writes| :: writes[j].id != id
    ensures id in Merge(m, writes) <==> id in m
    ensures id in m ==> Merge(m, writes)[id] == m[id]
    decreases |writes|
  {
    if writes != [] {
      MergeUntouched(m, writes[..|writes| - 1], id);
    }
  }

  /** The records a parsed `json:table-data` body yields: an object with an
      id, or every array item that is a record with an id. */
  function JsonBlockWrites(b: JsonBlock): (ws: seq<TableData>)
    ensures forall i | 0 <= i < |ws| :: ws[i].id != ""
  {
    match b
    case JsonObject(r) => if r.id != "" then [Completed(r)] else []
    case JsonArray(items) => ArrayWrites(items)
    case JsonOther => []
  }

  function ArrayWrites(items: seq<Option<RawRecord>>): (ws: seq<TableData>)
    ensures forall i | 0 <= i < |ws| :: ws[i].id != ""
  {
    if items == [] then []
    else ArrayWrites(items[..|items| - 1]) + ItemWrites(items[|items| - 1])
  }

  function ItemWrites(item: Option<RawRecord>): seq<TableData> {
    if item.Some? && item.value.id != "" then [Completed(item.value)] else []
  }

  /** Every array item that is a record with an id is yielded, completed. */
  lemma {:induction false} ArrayItemYielded(items: seq<Option<RawRecord>>, k: nat)
    requires k < |items| && items[k].Some? && items[k].value.id != ""
    ensures Completed(items[k].value) in ArrayWrites(items)
  {
    var n := |items| - 1;
    if k < n {
      ArrayItemYielded(items[..n], k);
    }
  }

  /** Storing what one array item yields. */
  lemma MergeItem(m: map<string, TableData>, item: Option<RawRecord>)
    ensures Merge(m, ItemWrites(item))
      == if item.Some? && item.value.id != "" then m[item.value.id := Completed(item.value)] else m
  {
    if item.Some? && item.value.id != "" {
      assert [Completed(item.value)][..0] == [];
    }
  }

  /** Storing a JSON array's records: the last item with a given id is the
      record the map keeps under it. */
  lemma {:induction false} ArrayLastWins(m: map<string, TableData>, items: seq<Option<RawRecord>>, k: nat)
    requires k < |items| && items[k].Some? && items[k].value.id != ""
    requires forall j | k < j < |items| :: items[j].Some? ==> items[j].value.id != items[k].value.id
    ensures var id := items[k].value.id;
      id in Merge(m, ArrayWrites(items)) && Merge(m, ArrayWrites(items))[id] == Completed(items[k].value)
  {
    var n := |items| - 1;
    var id := items[k].value.id;
    var before := Merge(m, ArrayWrites(items[..n]));
    assert Merge(m, ArrayWrites(items)) == Merge(before, ItemWrites(items[n])) by {
      MergeAppend(m, ArrayWrites(items[..n]), ItemWrites(items[n]));
    }
    MergeItem(before, items[n]);
    if k < n {
      assert id in before && before[id] == Completed(items[k].value) by {
        assert forall j | k < j < n :: items[..n][j] == items[j];
        ArrayLastWins(m, items[..n], k);
      }
    }
  }

  /** A JSON object with an id is stored, completed, under that id. */
  lemma JsonObjectStored(m: map<string, TableData>, r: RawRecord)
    requires r.id != ""
    ensures Merge(m, JsonBlockWrites(JsonObject(r))) == m[r.id := Completed(r)]
  {
    assert [Completed(r)][..0] == [];
  }

  function JsonWrites(blocks: seq<JsonBlock>): seq<TableData> {
    if blocks == [] then []
    else JsonWrites(blocks[..|blocks| - 1]) + JsonBlockWrites(blocks[|blocks| - 1])
  }

  function Min(a: nat, b: nat): nat {
    if a < b then a else b
  }

  /** The object a CSV row becomes after its first `n` columns: a non-empty
      cell is stored under its column's header, a later column replacing an
      earlier one with the same header. Every key is the header of such a
      column and holds that column's cell. */
  function RowFieldsUpTo(headers: seq<string>, values: seq<string>, n: nat): (fields: map<string, string>)
    requires n <= Min(|headers|, |values|)
    ensures forall k | k in fields :: exists j | 0 <= j < n :: headers[j] == k && values[j] != "" && fields[k] == values[j]
  {
    if n == 0 then map[]
    else
      var fields := RowFieldsUpTo(headers, values, n - 1);
      if values[n - 1] != "" then fields[headers[n - 1] := values[n - 1]] else fields
  }

  /** The object a CSV row becomes: only columns below both the header
      count and the cell count. */
  function RowFields(headers: seq<string>, values: seq<string>): map<string, string> {
    RowFieldsUpTo(headers, values, Min(|headers|, |values|))
  }

  /** The non-empty cell in the last column with a given header is the one
      the row object keeps. */
  lemma {:induction false} RowFieldsLastWins(headers: seq<string>, values: seq<string>, n: nat, j: nat)
    requires n <= Min(|headers|, |values|) && j < n && values[j] != ""
    requires forall j2 | j < j2 < n :: headers[j2] == headers[j] ==> values[j2] == ""
    ensures headers[j] in RowFieldsUpTo(headers, values, n)
    ensures RowFieldsUpTo(headers, values, n)[headers[j]] == values[j]
  {
    if j < n - 1 {
      RowFieldsLastWins(headers, values, n - 1, j);
    }
  }

  /** The CSV row-to-object loop. */
  method CsvRowToObject(headers: seq<string>, values: seq<string>) returns (fields: map<string, string>)
    ensures fields == RowFields(headers, values)
  {
    fields := map[];
    var j := 0;
    while j < |headers| && j < |values|
      invariant j <= Min(|headers|, |values|)
      invariant fields == RowFieldsUpTo(headers, values, j)
    {
      if values[j] != "" {
        fields := fields[headers[j] := values[j]];
      }
      j := j + 1;
    }
  }

  /** The record a CSV row yields: one with a non-empty `id` cell, and no
      `structure` or `styling`. */
  function RowWrites(headers: seq<string>, row: string): seq<TableData> {
    var fields := RowFields(headers, Split(row, ','));
    if "id" in fields then [Completed(RawRecord(fields["id"], None, None))] else []
  }

  function RowsWrites(headers: seq<string>, rows: seq<string>): seq<TableData> {
    if rows == [] then []
    else RowsWrites(headers, rows[..|rows| - 1]) + RowWrites(headers, rows[|rows| - 1])
  }

  /** The records a `csv:table-data` body yields: the first line is the
      header, and a body of fewer than two lines yields nothing. */
  function CsvBlockWrites(body: string): seq<TableData> {
    var lines := Split(Trim(body), '\n');
    if |lines| < 2 then [] else RowsWrites(Split(lines[0], ','), lines[1..])
  }

  function CsvWrites(bodies: seq<string>): seq<TableData> {
    if bodies == [] then []
    else CsvWrites(bodies[..|bodies| - 1]) + CsvBlockWrites(bodies[|bodies| - 1])
  }

  /** The records a `table-data` body yields: one per line that parses. */
  function LinesWrites(lines: seq<string>): seq<TableData> {
    if lines == [] then []
    else LinesWrites(lines[..|lines| - 1]) + LineWrites(lines[|lines| - 1])
  }

  function LineWrites(line: string): seq<TableData> {
    match CustomFormat.ParseCustomLine(line)
    case Some(d) => if d.id != "" then [d] else []
    case None => []
  }

  function CustomBlockWrites(body: string): seq<TableData> {
    LinesWrites(Split(Trim(body), '\n'))
  }

  function CustomWrites(bodies: seq<string>): seq<TableData> {
    if bodies == [] then []
    else CustomWrites(bodies[..|bodies| - 1]) + CustomBlockWrites(bodies[|bodies| - 1])
  }

  /** Every record the blocks yield, in the order they are stored. */
  function AllWrites(jsonBlocks: seq<JsonBlock>, csvBodies: seq<string>, customBodies: seq<string>): seq<TableData> {
    JsonWrites(jsonBlocks) + CsvWrites(csvBodies) + CustomWrites(customBodies)
  }

  /** The map `extractTableDataFromFile` returns. */
  function Extracted(jsonBlocks: seq<JsonBlock>, csvBodies: seq<string>, customBodies: seq<string>): map<string, TableData> {
    Merge(map[], AllWrites(jsonBlocks, csvBodies, customBodies))
  }

  /** Storing one more record. */
  lemma MergeSnoc(m: map<string, TableData>, writes: seq<TableData>, d: TableData)
    ensures Merge(m, writes + [d]) == Merge(m, writes)[d.id := d]
  {
    assert (writes + [d])[..|writes|] == writes;
  }

  /** The body of the first loop of `extractTableDataFromFile`, for one
      parsed `json:table-data` block. */
  method ProcessJsonBlock(result: TableDataMap, b: JsonBlock)
    modifies result
    ensures result.tables == Merge(old(result.tables), JsonBlockWrites(b))
  {
    match b
    case JsonObject(r) =>
      if r.id != "" {
        result.ProcessTableDataObject(r);
        MergeSnoc(old(result.tables), [], Completed(r));
      }
    case JsonArray(items) =>
      for k := 0 to |items|
        invariant result.tables == Merge(old(result.tables), ArrayWrites(items[..k]))
      {
        ArrayWritesStep(items, k);
        MergeAppend(old(result.tables), ArrayWrites(items[..k]), ItemWrites(items[k]));
        MergeItem(result.tables, items[k]);
        if items[k].Some? && items[k].value.id != "" {
          result.ProcessTableDataObject(items[k].value);
        }
      }
      assert items[..|items|] == items;
    case JsonOther =>
  }

  /** The body of the row loop: one CSV data row becomes an object, which
      is stored when it has an `id`. */
  method ProcessCsvRow(result: TableDataMap, headers: seq<string>, line: string)
    modifies result
    ensures result.tables == Merge(old(result.tables), RowWrites(headers, line))
  {
    var fields := CsvRowToObject(headers, Split(line, ','));
    if "id" in fields {
      var raw := RawRecord(fields["id"], None, None);
      result.ProcessTableDataObject(raw);
      assert [Completed(raw)][..0] == [];
    }
  }

  /** The body of the second loop, for one `csv:table-data` body. */
  method ProcessCsvBlock(result: TableDataMap, body: string)
    modifies result
    ensures result.tables == Merge(old(result.tables), CsvBlockWrites(body))
  {
    var lines := Split(Trim(body), '\n');
    if |lines| >= 2 {
      var headers := Split(lines[0], ',');
      for r := 1 to |lines|
        invariant result.tables == Merge(old(result.tables), RowsWrites(headers, lines[1..r]))
      {
        RowsWritesStep(headers, lines, r);
        MergeAppend(old(result.tables), RowsWrites(headers, lines[1..r]), RowWrites(headers, lines[r]));
        ProcessCsvRow(result, headers, lines[r]);
      }
      assert lines[1..|lines|] == lines[1..];
    }
  }

  /** The body of the line loop: a line that parses to a record with an id
      is stored. */
  method ProcessCustomLine(result: TableDataMap, line: string)
    modifies result
    ensures result.tables == Merge(old(result.tables), LineWrites(line))
  {
    var parsed := CustomFormat.ParseCustomTableDataFormat(line);
    if parsed.Some? && parsed.value.id != "" {
      result.Store(parsed.value);
      assert [parsed.value][..0] == [];
    }
  }

  /** The body of the third loop, for one `table-data` body. */
  method ProcessCustomBlock(result: TableDataMap, body: string)
    modifies result
    ensures result.tables == Merge(old(result.tables), CustomBlockWrites(body))
  {
    var lines := Split(Trim(body), '\n');
    for l := 0 to |lines|
      invariant result.tables == Merge(old(result.tables), LinesWrites(lines[..l]))
    {
      LinesWritesStep(lines, l);
      MergeAppend(old(result.tables), LinesWrites(lines[..l]), LineWrites(lines[l]));
      ProcessCustomLine(result, lines[l]);
    }
    assert lines[..|lines|] == lines;
  }

  lemma LinesWritesStep(lines: seq<string>, l: nat)
    requires l < |lines|
    ensures LinesWrites(lines[..l + 1]) == LinesWrites(lines[..l]) + LineWrites(lines[l])
  {
    assert lines[..l + 1][..l] == lines[..l];
  }

  lemma ArrayWritesStep(items: seq<Option<RawRecord>>, k: nat)
    requires k < |items|
    ensures ArrayWrites(items[..k + 1]) == ArrayWrites(items[..k]) + ItemWrites(items[k])
  {
    assert items[..k + 1][..k] == items[..k];
  }

  lemma RowsWritesStep(headers: seq<string>, lines: seq<string>, r: nat)
    requires 1 <= r < |lines|
    ensures RowsWrites(headers, lines[1..r + 1]) == RowsWrites(headers, lines[1..r]) + RowWrites(headers, lines[r])
  {
    assert lines[1..r + 1][..r - 1] == lines[1..r];
  }

  lemma JsonWritesStep(blocks: seq<JsonBlock>, i: nat)
    requires i < |blocks|
    ensures JsonWrites(blocks[..i + 1]) == JsonWrites(blocks[..i]) + JsonBlockWrites(blocks[i])
  {
    assert blocks[..i + 1][..i] == blocks[..i];
  }

  lemma CsvWritesStep(bodies: seq<string>, i: nat)
    requires i < |bodies|
    ensures CsvWrites(bodies[..i + 1]) == CsvWrites(bodies[..i]) + CsvBlockWrites(bodies[i])
  {
    assert bodies[..i + 1][..i] == bodies[..i];
  }

  lemma CustomWritesStep(bodies: seq<string>, i: nat)
    requires i < |bodies|
    ensures CustomWrites(bodies[..i + 1]) == CustomWrites(bodies[..i]) + CustomBlockWrites(bodies[i])
  {
    assert bodies[..i + 1][..i] == bodies[..i];
  }

  /** `extractTableDataFromFile` on the bodies of the blocks, in the order the
      three searches find them. */
  method ExtractTableDataFromFile(jsonBlocks: seq<JsonBlock>, csvBodies: seq<string>, customBodies: seq<string>)
    returns (result: TableDataMap)
    ensures fresh(result)
    ensures result.tables == Extracted(jsonBlocks, csvBodies, customBodies)
  {
    result := new TableDataMap();
    for i := 0 to |jsonBlocks|
      invariant result.tables == Merge(map[], JsonWrites(jsonBlocks[..i]))
    {
      JsonWritesStep(jsonBlocks, i);
      MergeAppend(map[], JsonWrites(jsonBlocks[..i]), JsonBlockWrites(jsonBlocks[i]));
      ProcessJsonBlock(result, jsonBlocks[i]);
    }
    assert jsonBlocks[..|jsonBlocks|] == jsonBlocks;
    ghost var afterJson := result.tables;

    for i := 0 to |csvBodies|
      invariant result.tables == Merge(afterJson, CsvWrites(csvBodies[..i]))
    {
      CsvWritesStep(csvBodies, i);
      MergeAppend(afterJson, CsvWrites(csvBodies[..i]), CsvBlockWrites(csvBodies[i]));
      ProcessCsvBlock(result, csvBodies[i]);
    }
    assert csvBodies[..|csvBodies|] == csvBodies;
    ghost var afterCsv := result.tables;

    for i := 0 to |customBodies|
      invariant result.tables == Merge(afterCsv, CustomWrites(customBodies[..i]))
    {
      CustomWritesStep(customBodies, i);
      MergeAppend(afterCsv, CustomWrites(customBodies[..i]), CustomBlockWrites(customBodies[i]));
      ProcessCustomBlock(result, customBodies[i]);
    }
    assert customBodies[..|customBodies|] == customBodies;
    MergeAppend(map[], JsonWrites(jsonBlocks), CsvWrites(csvBodies));
    MergeAppend(map[], JsonWrites(jsonBlocks) + CsvWrites(csvBodies), CustomWrites(customBodies));
  }

  /** A record from a later kind of block wins over every earlier one with
      the same id: when the custom blocks yield a record for an id, the map
      holds the last of them, whatever the JSON and CSV blocks held. */
  lemma CustomWinsOver(jsonBlocks: seq<JsonBlock>, csvBodies: seq<string>, customBodies: seq<string>, i: nat)
    requires i < |CustomWrites(customBodies)|
    requires forall j | i < j < |CustomWrites(customBodies)| ::
      CustomWrites(customBodies)[j].id != CustomWrites(customBodies)[i].id
    ensures var d := CustomWrites(customBodies)[i];
      d.id in Extracted(jsonBlocks, csvBodies, customBodies)
      && Extracted(jsonBlocks, csvBodies, customBodies)[d.id] == d
  {
    var early := JsonWrites(jsonBlocks) + CsvWrites(csvBodies);
    var late := CustomWrites(customBodies);
    MergeAppend(map[], early, late);
    MergeLastWins(Merge(map[], early), late, i);
  }

  /** An id no block yields a record for is not in the map. */
  lemma ExtractedKeys(jsonBlocks: seq<JsonBlock>, csvBodies: seq<string>, customBodies: seq<string>, id: string)
    requires forall j | 0 <= j < |AllWrites(jsonBlocks, csvBodies, customBodies)| ::
      AllWrites(jsonBlocks, csvBodies, customBodies)[j].id != id
    ensures id !in Extracted(jsonBlocks, csvBodies, customBodies)
  {
    MergeUntouched(map[], AllWrites(jsonBlocks, csvBodies, customBodies), id);
  }
}
