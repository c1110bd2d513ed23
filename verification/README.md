# Table data in Markdown: a verified model of the record logic

The Obsidian plugin `table-data-in-md-plugin-example.ts` keeps per-table
metadata: the row and column counts, the header flag, the wrapper flag and
the row heights, column widths and alignment of each table. A note ties a
table to its record with an HTML comment `<!-- table-id: X -->`. The record
itself can live in the note as a `json:table-data`, `csv:table-data` or
one-line `table-data` code block.

This project models the logic that reads, completes and writes these
records:

- `processTableDataObject` completes a decoded record and stores it.
- `parseCustomTableDataFormat` parses the one-line format
  `id|key:value|key:v1,v2`.
- `extractTableDataFromFile` merges every block of a note into one map from
  id to record. It reads the JSON blocks first, then the CSV blocks (one
  record per row), then the one-line blocks, and a later record replaces an
  earlier one.
- `enhanceTableData` fills what a record lacks from the rendered table.
- `addTableDataToFile` builds the simplified record it writes back.
- `exportTableDataToFile` runs a global scan that collects every table id.
- `findTableId` scans the id comments in order. A comment counts as near a
  table when `<table>` occurs in the 50 characters before it or
  `</table>` in the 50 characters after it. It returns the first comment
  whose nearness agrees with whether the table is wrapped, or null when
  none does.

Modules:

- `JsText`: the JavaScript string built-ins used: `trim`, `split` on one
  character, `toLowerCase` and `includes`.
- `TableModel`: the record types.
- `CustomFormat`: the one-line parser, as a method. It is proved equal to
  the function `ParseCustomLine`, and the parser's meaning is proved about
  that function.
- `Enhancement`: `enhanceTableData`.
- `Export`: the simplification done by `addTableDataToFile`, and its round
  trip.
- `Extraction`: the `result` map as a class `TableDataMap`, with the
  methods `processTableDataObject` and `result[id] = …`. The extraction
  loops are methods proved equal to a fold `Merge` over the records the
  blocks yield.
- `IdComments`: the comment pattern `/<!-- table-id: ([\w-]+) -->/g`.
  - `Exec` is the regex's `exec` with its `lastIndex`.
  - `CollectTableIds` is the id-collecting loop.
  - `FindTableId` is the proximity search.

How things outside the model enter it:

- The DOM is not modelled:
  - A rendered table is given by the number of cells in each row and by
    whether it has a `thead`.
  - The wrapped-table test of `findTableId` is a boolean parameter.
- The code blocks of a note are given as lists of their bodies, one list
  per block kind. A JSON body is given already decoded.

## Model

All source paths are in `table-data-in-md-plugin-example.ts`.

| member | source | states |
|---|---|---|
| JsText.TrimSpec | table-data-in-md-plugin-example.ts:66 | `trim` cuts only whitespace, and only from both ends. The result neither starts nor ends with whitespace. A string without whitespace at its ends is left as it is. |
| JsText.TrimStartSpec | table-data-in-md-plugin-example.ts:66 | The leading part `trim` removes is all whitespace. What is left does not start with whitespace. |
| JsText.TrimEndSpec | table-data-in-md-plugin-example.ts:66 | The trailing part `trim` removes is all whitespace. What is left does not end with whitespace. |
| JsText.ToLower | table-data-in-md-plugin-example.ts:92 | Lower-casing keeps the length and leaves no upper-case ASCII letter. |
| JsText.ToLowerMatches | table-data-in-md-plugin-example.ts:92-94 | Comparing the lower-cased string with a lower-case ASCII word ignores case: the two are equal exactly when the lengths agree and each character is the word's letter or that letter in upper case. |
| JsText.SplitJoin | table-data-in-md-plugin-example.ts:63 | Joining the pieces of `split` with the separator gives the string back. |
| JsText.SplitLength | table-data-in-md-plugin-example.ts:63-64 | `split` gives one more piece than there are separators. So `parts.length < 2` means the line has no pipe character. |
| JsText.SplitPiecesFree | table-data-in-md-plugin-example.ts:63 | No piece of `split` contains the separator. |
| TableModel.AllAuto | table-data-in-md-plugin-example.ts:386 | `Array(n).fill('auto')` has n entries, all `auto`. |
| TableModel.DefaultAlignment | table-data-in-md-plugin-example.ts:395-396 | The default alignment has n entries: `left` first and `right` for every other. |
| TableModel.CompletedFillsOnlyMissing | table-data-in-md-plugin-example.ts:34-54 | Completion keeps the id. It replaces a missing `structure` with zero counts and `hasHeaders: false`, and a missing `styling` with empty arrays. It keeps whatever is present. |
| TableModel.CompletedRoundTrip | table-data-in-md-plugin-example.ts:36-50 | Completing a complete record gives it back. Completing twice is the same as completing once. |
| CustomFormat.ListValue | table-data-in-md-plugin-example.ts:97 | `value.split(',').map(trim)` has one item per comma-separated piece, one more than the commas, and each item is that piece trimmed. |
| CustomFormat.ParseCustomTableDataFormat | table-data-in-md-plugin-example.ts:61-113 | The result is `null` exactly when the line has no pipe character or its first part trims to empty. Otherwise the id is the trimmed first part. The counts are 0 and `hasHeaders` is false. The record is the initial record with every later part applied in order. |
| CustomFormat.IgnoredPartIsNoOp | table-data-in-md-plugin-example.ts:86-92 | A part that is empty, lacks a key or a value, or has an unknown key changes nothing. |
| CustomFormat.ApplyPartKeepsStructure | table-data-in-md-plugin-example.ts:92-105 | No part changes the id, the counts or `hasHeaders`. |
| CustomFormat.ApplyPartsKeepsStructure | table-data-in-md-plugin-example.ts:85-106 | The same holds for the whole sequence of parts. |
| CustomFormat.ApplyPartListField | table-data-in-md-plugin-example.ts:96-104 | A part changes `colWidths`, `alignment` or `rowHeights` exactly when its key is `width`, `align` or `height`. It then sets the field to the part's list value. |
| CustomFormat.ApplyPartWrapper | table-data-in-md-plugin-example.ts:93-95 | A part changes `useTableWrapper` exactly when its key is `wrapper`. It then sets the flag to whether the trimmed, lower-cased value is `true`. |
| CustomFormat.WrapperFlagIgnoresCase | table-data-in-md-plugin-example.ts:94 | `wrapper:` turns the wrapper on exactly when the trimmed value is `true` in any mix of upper and lower case. |
| CustomFormat.ApplyPartsListLastWins | table-data-in-md-plugin-example.ts:85-106 | The last part with a list key decides that list field. |
| CustomFormat.ApplyPartsListUntouched | table-data-in-md-plugin-example.ts:85-106 | A list field that no part names keeps its value. |
| CustomFormat.ApplyPartsWrapperLastWins | table-data-in-md-plugin-example.ts:85-106 | The last `wrapper` part decides `useTableWrapper`. |
| CustomFormat.ApplyPartsWrapperUntouched | table-data-in-md-plugin-example.ts:85-106 | Without a `wrapper` part, `useTableWrapper` keeps its value. |
| CustomFormat.ParsedStructureDefaults | table-data-in-md-plugin-example.ts:70-82 | A parsed line has the trimmed first part as its id, zero counts and `hasHeaders: false`, whatever its parts say. |
| CustomFormat.ParsedListFieldLastWins | table-data-in-md-plugin-example.ts:96-104 | In a parsed line, `width`, `align` and `height` hold the list value of the last part with that key. |
| CustomFormat.ParsedListFieldAbsent | table-data-in-md-plugin-example.ts:77-81 | In a parsed line, a list field that no part names is empty. |
| CustomFormat.ParsedWrapperLastWins | table-data-in-md-plugin-example.ts:93-95 | In a parsed line, `useTableWrapper` is set from the last `wrapper` part. |
| CustomFormat.ParsedWrapperAbsent | table-data-in-md-plugin-example.ts:72-76 | In a parsed line without a `wrapper` part, `useTableWrapper` is absent. |
| Enhancement.MaxCellCount | table-data-in-md-plugin-example.ts:366-369 | The running `Math.max` over the rows' cell counts is at least every row's count. It is 0 or the count of some row. |
| Enhancement.EnhanceTableData | table-data-in-md-plugin-example.ts:353-399 | The loop's column count and the conditional updates give exactly `Enhanced`: the record with its gaps filled from the rendered table. |
| Enhancement.EnhancedFills | table-data-in-md-plugin-example.ts:371-397 | Enhancing fills a zero row count with the row total and a zero column count with the largest row. It fills an absent `hasHeaders` with the `thead` test. It fills empty heights, widths and alignment with `auto` per row, `auto` per column and left-then-right per column. Everything else is kept. |
| Enhancement.EnhancedIdempotent | table-data-in-md-plugin-example.ts:372-397 | Enhancing an enhanced record with the same table changes nothing. |
| Export.IsDefaultAlignment | table-data-in-md-plugin-example.ts:599-601 | The `every` test holds exactly when the alignment is the default left-then-right one of its length. |
| Export.HasNonAuto | table-data-in-md-plugin-example.ts:587-594 | The `some(x => x !== 'auto')` test holds exactly when the sizes are not all `auto`. |
| Export.Simplify | table-data-in-md-plugin-example.ts:557-607 | The simplified record keeps the id and writes no zero count. Read back, it gives the same structure, except that a `false` wrapper flag becomes absent. An array is left out exactly when it is all `auto`, or the default alignment, and otherwise it is kept as it is. |
| Export.ExportReloadExact | table-data-in-md-plugin-example.ts:557-607 | Reading back a simplified record gives the record itself exactly when no styling array is a non-empty all-`auto` array or a non-empty default alignment, and the wrapper flag is not an explicit `false`. |
| Export.ExportRoundTrip | table-data-in-md-plugin-example.ts:557-607 | Take an enhanced record, simplify it, read it back and enhance it again with the same table: the result is the same record. A styling array may be dropped by the export when enhancing rebuilds it: all `auto` with one entry per row or column, or the default alignment with one entry per column. The wrapper flag must not be an explicit `false`. |
| Extraction.TableDataMap.constructor | table-data-in-md-plugin-example.ts:257 | The extraction starts from an empty map. |
| Extraction.TableDataMap.ProcessTableDataObject | table-data-in-md-plugin-example.ts:34-54 | The completed record is stored under its id, and every other entry stays as it was. |
| Extraction.TableDataMap.Store | table-data-in-md-plugin-example.ts:339 | A parsed custom record is stored under its id, and every other entry stays as it was. |
| Extraction.MergeAppend | table-data-in-md-plugin-example.ts:256-348 | Storing two lists of records one after the other is storing their concatenation. |
| Extraction.MergeLastWins | table-data-in-md-plugin-example.ts:256-348 | The record stored last under an id is the one the map keeps. |
| Extraction.MergeUntouched | table-data-in-md-plugin-example.ts:256-348 | An id that nothing is stored under keeps its earlier entry, or stays absent. |
| Extraction.JsonBlockWrites | table-data-in-md-plugin-example.ts:270-280 | A JSON body yields only records with a non-empty id. |
| Extraction.ArrayWrites | table-data-in-md-plugin-example.ts:274-279 | A JSON array yields only items with a non-empty id. |
| Extraction.ArrayItemYielded | table-data-in-md-plugin-example.ts:275-279 | Every array item that is a record with a non-empty id is yielded, completed. |
| Extraction.ArrayLastWins | table-data-in-md-plugin-example.ts:274-279 | After a JSON array is stored, the map holds, under each id, the completed last item with that id. |
| Extraction.JsonObjectStored | table-data-in-md-plugin-example.ts:270-272 | A JSON object with an id is stored, completed, under that id, and nothing else changes. |
| Extraction.RowFieldsUpTo | table-data-in-md-plugin-example.ts:304-314 | Every key of a CSV row object is the header of a column, below both the header count and the cell count, whose cell is non-empty, and the key holds that cell. |
| Extraction.RowFieldsLastWins | table-data-in-md-plugin-example.ts:304-314 | The last non-empty cell under a header is the one the row object keeps. |
| Extraction.CsvRowToObject | table-data-in-md-plugin-example.ts:300-314 | The row-to-object loop builds exactly the row object. |
| Extraction.ProcessJsonBlock | table-data-in-md-plugin-example.ts:263-284 | One JSON body stores its records, in order, into the map. |
| Extraction.ProcessCsvRow | table-data-in-md-plugin-example.ts:300-318 | One CSV data row is stored as a record exactly when its object has an `id`, and nothing else changes. |
| Extraction.ProcessCsvBlock | table-data-in-md-plugin-example.ts:290-324 | One CSV body stores one record per data row that has an `id` cell, in order. A body of fewer than two lines stores nothing. |
| Extraction.ProcessCustomLine | table-data-in-md-plugin-example.ts:337-340 | One line is stored under its id exactly when it parses to a record with an id, and nothing else changes. |
| Extraction.ProcessCustomBlock | table-data-in-md-plugin-example.ts:330-345 | One custom body stores the record of every line that parses, in order. |
| Extraction.ExtractTableDataFromFile | table-data-in-md-plugin-example.ts:256-348 | The returned map is new. It is every JSON record, then every CSV record, then every custom record, stored one after the other. |
| Extraction.CustomWinsOver | table-data-in-md-plugin-example.ts:326-345 | When the custom blocks yield a record for an id, the map holds the last of them, whatever the JSON and CSV blocks held. |
| Extraction.ExtractedKeys | table-data-in-md-plugin-example.ts:256-348 | An id that no block yields a record for is not in the map. |
| IdComments.IdComment | table-data-in-md-plugin-example.ts:212 | The comment for an id is `OpeningLength + ClosingLength` (19) characters longer than the id. |
| IdComments.IdRunLengthSpec | table-data-in-md-plugin-example.ts:212 | The greedy `[\w-]+` consumes the whole run of id characters and stops at the first other character. |
| IdComments.IdCommentAtSound | table-data-in-md-plugin-example.ts:212 | A match at the start of a text is the comment of a well-formed id that the text starts with. |
| IdComments.IdCommentAtComplete | table-data-in-md-plugin-example.ts:212 | A text that starts with the comment of a well-formed id matches there, with that id. |
| IdComments.MatchesInSound | table-data-in-md-plugin-example.ts:227-231 | Every match of the global scan is the comment of a well-formed id at its position. |
| IdComments.MatchesInOrdered | table-data-in-md-plugin-example.ts:227-231 | The matches of the global scan come in text order, and none overlaps the next. |
| IdComments.CommentsDoNotNest | table-data-in-md-plugin-example.ts:212 | A comment that starts after another comment starts after that one's end, since no character of a comment after its first is `<`. |
| IdComments.MatchesInFinds | table-data-in-md-plugin-example.ts:227-231 | The scan from any position finds every comment of a well-formed id at or after that position. |
| IdComments.MatchesComplete | table-data-in-md-plugin-example.ts:495-497 | The global scan finds every comment of a well-formed id in the text, at its position. |
| IdComments.CommentIdCollected | table-data-in-md-plugin-example.ts:491-497 | The id of every comment in the text is among the ids collected. |
| IdComments.MatchesIdsWellFormed | table-data-in-md-plugin-example.ts:491-497 | Every collected id is one that `[\w-]+` can capture. |
| IdComments.IdsOfCommentThenRest | table-data-in-md-plugin-example.ts:491-497 | A text that starts with the comment of id `x` yields `x` first, then the ids of the rest. |
| IdComments.Exec | table-data-in-md-plugin-example.ts:227 | `exec` from `lastIndex` returns the first match at or after `lastIndex`, and the later matches are those after its end. It returns `null` when there is no match left. |
| IdComments.CollectTableIds | table-data-in-md-plugin-example.ts:491-497 | The loop collects the ids of all matches of the global scan, in text order. |
| IdComments.FindTableId | table-data-in-md-plugin-example.ts:206-251 | The result is the id of the first comment whose 50-character neighbourhood agrees with the wrapped test: a `<table>` before or a `</table>` after for a wrapped table, neither for a plain one. It is `null` when no comment agrees. |

## Left out

- The DOM (`querySelectorAll`, `closest`, `outerHTML`) is not modelled.
  - The table enters as its rows' cell counts and its `thead` test.
  - The wrapped test of `findTableId` is a parameter.
  - `tableContent` is computed in `findTableId` but never used.
  - The unused `lineStart` parameter is dropped.
- The vault and plugin-data I/O is left out: reading notes, `loadData`,
  `saveData` and `vault.modify`.
- The Markdown post-processor, `onload`, the settings, the commands and
  `applyTableStyles` are not part of this model.
- Finding the code blocks with their regexes is left out, and so is
  `JSON.parse` of a JSON body. The blocks enter as their bodies, and a JSON
  body enters already decoded (`JsonBlock`). A body that does not parse is
  skipped by the `catch`. A body that decodes to neither an object nor an
  array (a number, a string, `true` or `null`) matches neither the object
  test nor the `Array.isArray` test, so nothing is stored. Both kinds are
  `JsonOther`, which yields nothing.
- `JSON.parse` of CSV cells is left out. A CSV row's record has the `id`
  cell as text and no `structure` or `styling`. A cell that is valid JSON
  (a number, `true`, `false`, `null`, a quoted string, an array or an
  object) is not decoded. For example, an `id` cell `null` makes the source
  skip the row, while the model stores a record with the id `null`.
- Extraction.ExtractedKeys: `result` is a plain object in the source, and
  it is modelled as a map of the entries stored. Inherited names such as
  `constructor` or `toString` read as present in the object without being
  stored; this lemma speaks of stored entries only.
- Extraction.MergeLastWins: the id `__proto__`, which the parsers and the
  `[\w-]+` pattern accept, is not modelled. Storing it sets the object's
  prototype instead of adding an entry; this lemma speaks of stored entries
  only.
- Records are assumed well formed:
  - Numeric, `null` or otherwise falsy non-string ids are not modelled, and
    an absent id is `""`.
  - A present `structure` or `styling` is assumed to have the shape of
    `TableData`.
  - A `null` `hasHeaders` is not modelled.
  - Counts are natural numbers. A hand-written JSON block may give a
    negative or fractional count. Enhancing would keep such a count, since
    it is truthy, and simplifying would write it out. Neither is modelled.
- A missing count and a count of 0 are the same value, and so are a
  missing styling array and an empty one. The source treats them alike
  everywhere in the modelled code.
- `processTableDataObject` completes the caller's object in place. The
  model stores a completed copy, so aliasing between the decoded JSON and
  the map is not captured. Nothing in the modelled code reads the decoded
  object afterwards.
- Rewriting the note in `addTableDataToFile` and `exportTableDataToFile` is
  left out: the `existingDataRegex` test, `replace` and `JSON.stringify`.
  Only the simplified record and the id collection are modelled.
- JsText.ToLower: only ASCII letters are lower-cased. `toLowerCase` maps
  more letters, but the only non-ASCII character that lower-cases to ASCII
  is the Kelvin sign (to `k`). None of `wrapper`, `width`, `align`,
  `height` or `true` contains a `k`, so the comparisons come out the same.
- Strings are sequences of code points, not UTF-16 units. Positions and
  the 50-character windows of `findTableId` count code points.
- IdComments.CollectTableIds: the method promises only that it returns the
  ids of the scan. The lemmas state the rest rather than the method:
  `MatchesIdsWellFormed` says that every id is well formed, and
  `CommentIdCollected` says that every comment's id is collected.
- The `try`/`catch` in `parseCustomTableDataFormat` is not modelled: nothing
  in the modelled code can throw.
- The `console` logging is left out.
