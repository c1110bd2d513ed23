/** The one-line custom format of a `table-data` block:
    `id|key:value|key:v1,v2`, parsed by `parseCustomTableDataFormat`. */
module CustomFormat {
  import opened JsText
  import opened TableModel

  /** A `key:value` part that survived the emptiness checks; `key` is
      already trimmed and lower-cased, `value` is as written. */
  datatype Directive = Directive(key: string, value: string)

  /** The four keys the parser acts on. */
  predicate IsKnownKey(key: string) {
    key == "wrapper" || key == "width" || key == "align" || key == "height"
  }

  predicate IsListKey(key: string) {
    key == "width" || key == "align" || key == "height"
  }

  /** The directive one `|`-separated part holds: none when the trimmed part
      is empty, or when the text before the first `:` or the text between
      the first and the second `:` is empty or missing (destructuring
      `part.split(':')` ignores the rest). */
  function PartDirective(part: string): Option<Directive> {
    var p := Trim(part);
    if p == "" then None
    else
      var kv := Split(p, ':');
      if kv[0] == "" || |kv| < 2 || kv[1] == "" then None
      else Some(Directive(ToLower(Trim(kv[0])), kv[1]))
  }

  predicate HasKey(part: string, key: string) {
    PartDirective(part).Some? && PartDirective(part).value.key == key
  }

  /** `value.split(',').map(x => x.trim())`: one item per comma-separated
      piece, each trimmed. */
  function ListValue(value: string): (items: seq<string>)
    ensures |items| == |Split(value, ',')| == multiset(value)[','] + 1
    ensures forall i | 0 <= i < |items| :: items[i] == Trim(Split(value, ',')[i])
  {
    var pieces := Split(value, ',');
    SplitLength(value, ',');
    seq(|pieces|, i requires 0 <= i < |pieces| => Trim(pieces[i]))
  }

  /** What `wrapper:<value>` sets `useTableWrapper` to. */
  function WrapperFlag(value: string): bool {
    ToLower(Trim(value)) == "true"
  }

  /** `wrapper:` turns the wrapper on exactly for a value that trims to
      `true` in any mix of upper and lower case. */
  lemma WrapperFlagIgnoresCase(value: string)
    ensures var t := Trim(value);
      WrapperFlag(value) <==>
        |t| == 4 && forall i | 0 <= i < 4 :: t[i] == "true"[i] || t[i] as int == "true"[i] as int - 32
  {
    ToLowerMatches(Trim(value), "true");
  }

  /** The list field a list key writes. */
  function ListField(d: TableData, key: string): seq<string>
    requires IsListKey(key)
  {
    if key == "width" then d.styling.colWidths
    else if key == "align" then d.styling.alignment
    else d.styling.rowHeights
  }

  /** The effect of one directive on the record being built. */
  function ApplyDirective(d: TableData, dir: Directive): TableData {
    if dir.key == "wrapper" then
      d.(structure := d.structure.(useTableWrapper := Some(WrapperFlag(dir.value))))
    else if dir.key == "width" then
      d.(styling := d.styling.(colWidths := ListValue(dir.value)))
    else if dir.key == "align" then
      d.(styling := d.styling.(alignment := ListValue(dir.value)))
    else if dir.key == "height" then
      d.(styling := d.styling.(rowHeights := ListValue(dir.value)))
    else d
  }

  function ApplyPart(d: TableData, part: string): TableData {
    match PartDirective(part)
    case None => d
    case Some(dir) => ApplyDirective(d, dir)
  }

  /** The parts applied left to right. */
  function ApplyParts(d: TableData, parts: seq<string>): TableData {
    if parts == [] then d
    else ApplyPart(ApplyParts(d, parts[..|parts| - 1]), parts[|parts| - 1])
  }

  /** Applying one more part of a line. */
  lemma ApplyPartsStep(d: TableData, parts: seq<string>, i: nat)
    requires 1 <= i < |parts|
    ensures ApplyParts(d, parts[1..i + 1]) == ApplyPart(ApplyParts(d, parts[1..i]), parts[i])
  {
    assert parts[1..i + 1][..i - 1] == parts[1..i];
  }

  /** The record the parser starts from, before any part is applied. */
  function InitialRecord(id: string): TableData {
    TableData(id, DefaultStructure, EmptyStyling)
  }

  /** What `parseCustomTableDataFormat` returns, `None` standing for `null`. */
  function ParseCustomLine(line: string): Option<TableData> {
    var parts := Split(line, '|');
    if |parts| < 2 then None
    else
      var id := Trim(parts[0]);
      if id == "" then None
      else Some(ApplyParts(InitialRecord(id), parts[1..]))
  }

  /** `parseCustomTableDataFormat`: builds the record by updating it part
      after part. */
  method ParseCustomTableDataFormat(line: string) returns (r: Option<TableData>)
    ensures r == ParseCustomLine(line)
    ensures r.None? <==> |Split(line, '|')| < 2 || Trim(Split(line, '|')[0]) == ""
    ensures r.Some? ==> r.value.id == Trim(Split(line, '|')[0]) && r.value.id != ""
    ensures r.Some? ==> r.value.structure.rowCount == 0 && r.value.structure.colCount == 0
    ensures r.Some? ==> r.value.structure.hasHeaders == Some(false)
  {
    var parts := Split(line, '|');
    if |parts| < 2 {
      return None;
    }
    var id := Trim(parts[0]);
    if id == "" {
      return None;
    }
    var data := InitialRecord(id);
    for i := 1 to |parts|
      invariant data == ApplyParts(InitialRecord(id), parts[1..i])
      invariant data.id == id && data.structure.rowCount == 0 && data.structure.colCount == 0
      invariant data.structure.hasHeaders == Some(false)
    {
      ApplyPartsStep(InitialRecord(id), parts, i);
      var part := Trim(parts[i]);
      if part == "" {
        continue;
      }
      var kv := Split(part, ':');
      if kv[0] == "" || |kv| < 2 || kv[1] == "" {
        continue;
      }
      var key, value := ToLower(Trim(kv[0])), kv[1];
      ghost var before := data;
      assert PartDirective(parts[i]) == Some(Directive(key, value));
      if key == "wrapper" {
        data := data.(structure := data.structure.(useTableWrapper := Some(ToLower(Trim(value)) == "true")));
      } else if key == "width" {
        data := data.(styling := data.styling.(colWidths := ListValue(value)));
      } else if key == "align" {
        data := data.(styling := data.styling.(alignment := ListValue(value)));
      } else if key == "height" {
        data := data.(styling := data.styling.(rowHeights := ListValue(value)));
      }
      assert data == ApplyDirective(before, Directive(key, value));
    }
    assert parts[1..] == parts[1..|parts|];
    r := Some(data);
  }

  /** A part that is empty, lacks a key or a value, or names another key
      leaves the record as it is. */
  lemma IgnoredPartIsNoOp(d: TableData, part: string)
    requires PartDirective(part).None? || !IsKnownKey(PartDirective(part).value.key)
    ensures ApplyPart(d, part) == d
  {
  }

  /** No part changes the id, the counts or `hasHeaders`. */
  lemma ApplyPartKeepsStructure(d: TableData, part: string)
    ensures ApplyPart(d, part).id == d.id
    ensures ApplyPart(d, part).structure.rowCount == d.structure.rowCount
    ensures ApplyPart(d, part).structure.colCount == d.structure.colCount
    ensures ApplyPart(d, part).structure.hasHeaders == d.structure.hasHeaders
  {
    match PartDirective(part)
    case None =>
    case Some(dir) =>
      assert ApplyPart(d, part) == ApplyDirective(d, dir);
  }

  lemma {:induction false} ApplyPartsKeepsStructure(d: TableData, parts: seq<string>)
    ensures ApplyParts(d, parts).id == d.id
    ensures ApplyParts(d, parts).structure.rowCount == d.structure.rowCount
    ensures ApplyParts(d, parts).structure.colCount == d.structure.colCount
    ensures ApplyParts(d, parts).structure.hasHeaders == d.structure.hasHeaders
  {
    if parts != [] {
      ApplyPartsKeepsStructure(d, parts[..|parts| - 1]);
      ApplyPartKeepsStructure(ApplyParts(d, parts[..|parts| - 1]), parts[|parts| - 1]);
    }
  }

  /** One part changes a list field exactly when it has that field's key. */
  lemma ApplyPartListField(d: TableData, part: string, key: string)
    requires IsListKey(key)
    ensures ListField(ApplyPart(d, part), key)
      == if HasKey(part, key) then ListValue(PartDirective(part).value.value) else ListField(d, key)
  {
    match PartDirective(part)
    case None =>
    case Some(dir) =>
      assert ApplyPart(d, part) == ApplyDirective(d, dir);
  }

  /** One part changes `useTableWrapper` exactly when it has the `wrapper` key. */
  lemma ApplyPartWrapper(d: TableData, part: string)
    ensures ApplyPart(d, part).structure.useTableWrapper
      == if HasKey(part, "wrapper") then Some(WrapperFlag(PartDirective(part).value.value))
         else d.structure.useTableWrapper
  {
    match PartDirective(part)
    case None =>
    case Some(dir) =>
      assert ApplyPart(d, part) == ApplyDirective(d, dir);
  }

  /** A list field is set by the last part with its key, if there is one. */
  lemma {:induction false} ApplyPartsListLastWins(d: TableData, parts: seq<string>, key: string, i: nat)
    requires IsListKey(key) && i < |parts| && HasKey(parts[i], key)
    requires forall j | i < j < |parts| :: !HasKey(parts[j], key)
    ensures ListField(ApplyParts(d, parts), key) == ListValue(PartDirective(parts[i]).value.value)
  {
    var init := parts[..|parts| - 1];
    if i < |parts| - 1 {
      ApplyPartsListLastWins(d, init, key, i);
    }
    ApplyPartListField(ApplyParts(d, init), parts[|parts| - 1], key);
  }

  /** A list field no part names keeps its value. */
  lemma {:induction false} ApplyPartsListUntouched(d: TableData, parts: seq<string>, key: string)
    requires IsListKey(key)
    requires forall j | 0 <= j < |parts| :: !HasKey(parts[j], key)
    ensures ListField(ApplyParts(d, parts), key) == ListField(d, key)
  {
    if parts != [] {
      ApplyPartsListUntouched(d, parts[..|parts| - 1], key);
      ApplyPartListField(ApplyParts(d, parts[..|parts| - 1]), parts[|parts| - 1], key);
    }
  }

  /** `useTableWrapper` is set by the last `wrapper` part, if there is one. */
  lemma {:induction false} ApplyPartsWrapperLastWins(d: TableData, parts: seq<string>, i: nat)
    requires i < |parts| && HasKey(parts[i], "wrapper")
    requires forall j | i < j < |parts| :: !HasKey(parts[j], "wrapper")
    ensures ApplyParts(d, parts).structure.useTableWrapper == Some(WrapperFlag(PartDirective(parts[i]).value.value))
  {
    if i < |parts| - 1 {
      ApplyPartsWrapperLastWins(d, parts[..|parts| - 1], i);
    }
    ApplyPartWrapper(ApplyParts(d, parts[..|parts| - 1]), parts[|parts| - 1]);
  }

  lemma {:induction false} ApplyPartsWrapperUntouched(d: TableData, parts: seq<string>)
    requires forall j | 0 <= j < |parts| :: !HasKey(parts[j], "wrapper")
    ensures ApplyParts(d, parts).structure.useTableWrapper == d.structure.useTableWrapper
  {
    if parts != [] {
      ApplyPartsWrapperUntouched(d, parts[..|parts| - 1]);
      ApplyPartWrapper(ApplyParts(d, parts[..|parts| - 1]), parts[|parts| - 1]);
    }
  }

  /** A line that parses is its id's initial record with the later parts
      applied. */
  lemma ParsedIsApplied(line: string)
    requires ParseCustomLine(line).Some?
    ensures |Split(line, '|')| >= 2
    ensures ParseCustomLine(line).value
      == ApplyParts(InitialRecord(Trim(Split(line, '|')[0])), Split(line, '|')[1..])
  {
  }

  /** A parsed line keeps the structure defaults: no key sets the counts or
      `hasHeaders`. */
  lemma {:induction false} ParsedStructureDefaults(line: string)
    requires ParseCustomLine(line).Some?
    ensures ParseCustomLine(line).value.id == Trim(Split(line, '|')[0])
    ensures ParseCustomLine(line).value.structure.rowCount == 0
    ensures ParseCustomLine(line).value.structure.colCount == 0
    ensures ParseCustomLine(line).value.structure.hasHeaders == Some(false)
  {
    var parts := Split(line, '|');
    ParsedIsApplied(line);
    ApplyPartsKeepsStructure(InitialRecord(Trim(parts[0])), parts[1..]);
  }

  /** In a parsed line, `width`, `align` and `height` hold the comma-split,
      trimmed value of the last part with that key. */
  lemma {:induction false} ParsedListFieldLastWins(line: string, key: string, i: nat)
    requires ParseCustomLine(line).Some? && IsListKey(key)
    requires 1 <= i < |Split(line, '|')| && HasKey(Split(line, '|')[i], key)
    requires forall j | i < j < |Split(line, '|')| :: !HasKey(Split(line, '|')[j], key)
    ensures ListField(ParseCustomLine(line).value, key) == ListValue(PartDirective(Split(line, '|')[i]).value.value)
  {
    var parts := Split(line, '|');
    var start, rest := InitialRecord(Trim(parts[0])), parts[1..];
    assert ParseCustomLine(line).value == ApplyParts(start, rest) by {
      ParsedIsApplied(line);
    }
    assert ListField(ApplyParts(start, rest), key) == ListValue(PartDirective(parts[i]).value.value) by {
      LastKeyInRest(parts, key, i);
      ApplyPartsListLastWins(start, rest, key, i - 1);
    }
  }

  /** In a parsed line, a list field no part names stays empty. */
  lemma {:induction false} ParsedListFieldAbsent(line: string, key: string)
    requires ParseCustomLine(line).Some? && IsListKey(key)
    requires forall j | 1 <= j < |Split(line, '|')| :: !HasKey(Split(line, '|')[j], key)
    ensures ListField(ParseCustomLine(line).value, key) == []
  {
    var parts := Split(line, '|');
    var rest := parts[1..];
    ParsedIsApplied(line);
    forall j | 0 <= j < |rest| ensures !HasKey(rest[j], key) {
      assert rest[j] == parts[j + 1];
    }
    ApplyPartsListUntouched(InitialRecord(Trim(parts[0])), rest, key);
  }

  /** The parts after the id, as `ParseCustomLine` applies them, keep the
      "last part with this key" shape of the whole line. */
  lemma {:induction false} LastKeyInRest(parts: seq<string>, key: string, i: nat)
    requires 1 <= i < |parts| && HasKey(parts[i], key)
    requires forall j | i < j < |parts| :: !HasKey(parts[j], key)
    ensures HasKey(parts[1..][i - 1], key) && parts[1..][i - 1] == parts[i]
    ensures forall j | i - 1 < j < |parts[1..]| :: !HasKey(parts[1..][j], key)
  {
    var rest := parts[1..];
    forall j | i - 1 < j < |rest| ensures !HasKey(rest[j], key) {
      assert rest[j] == parts[j + 1];
    }
  }

  /** In a parsed line, `useTableWrapper` is true exactly when the last
      `wrapper` part's trimmed, lower-cased value is `true`, and false for
      any other value. */
  lemma {:induction false} ParsedWrapperLastWins(line: string, i: nat)
    requires ParseCustomLine(line).Some?
    requires 1 <= i < |Split(line, '|')| && HasKey(Split(line, '|')[i], "wrapper")
    requires forall j | i < j < |Split(line, '|')| :: !HasKey(Split(line, '|')[j], "wrapper")
    ensures ParseCustomLine(line).value.structure.useTableWrapper
      == Some(WrapperFlag(PartDirective(Split(line, '|')[i]).value.value))
  {
    var parts := Split(line, '|');
    var start, rest := InitialRecord(Trim(parts[0])), parts[1..];
    assert ParseCustomLine(line).value == ApplyParts(start, rest) by {
      ParsedIsApplied(line);
    }
    assert ApplyParts(start, rest).structure.useTableWrapper == Some(WrapperFlag(PartDirective(parts[i]).value.value)) by {
      LastKeyInRest(parts, "wrapper", i);
      ApplyPartsWrapperLastWins(start, rest, i - 1);
    }
  }

  /** In a parsed line without a `wrapper` part, `useTableWrapper` stays absent. */
  lemma {:induction false} ParsedWrapperAbsent(line: string)
    requires ParseCustomLine(line).Some?
    requires forall j | 1 <= j < |Split(line, '|')| :: !HasKey(Split(line, '|')[j], "wrapper")
    ensures ParseCustomLine(line).value.structure.useTableWrapper == None
  {
    var parts := Split(line, '|');
    var rest := parts[1..];
    ParsedIsApplied(line);
    forall j | 0 <= j < |rest| ensures !HasKey(rest[j], "wrapper") {
      assert rest[j] == parts[j + 1];
    }
    ApplyPartsWrapperUntouched(InitialRecord(Trim(parts[0])), rest);
  }
}
