# steepbook session exchange, modelled in Dafny

steepbook is a browser notebook for tea tastings. Each tasting session has
fixed ("static") properties such as `datetime` and `teaName`, a list of
steep notes, and user-named custom fields. This project models:

- the CSV export of the session list (clone-and-filter, header, rows) and
  the CSV import (whole-file checks, per-row rebuilding, back-filling,
  datetime check, three-way outcome), at the level of the parsed table;
- the round trip: importing the table that the export builds gives every
  session back with its static properties (an absent one as `""`, any other
  property, such as the `teaBrand` the form saves, dropped), its non-empty
  steeps, and its valued custom fields one per column;
- the JSON export's clone-and-filter;
- the session list with its edit mode (`saveSession`, `resetSessionForm`,
  `deleteSession`, `startEditSession`), the classification of form entries
  into steeps and custom fields, and the labels under which a stored custom
  field is edited and displayed;
- the custom-field name made from a label (`custom-` plus a slug);
- the `datetime-local` text built from local-time components.

Modules:

- `JsBuiltins` holds the JavaScript built-ins the code relies on.
- `SessionModel` holds the session record and the static field list.
- `JsonExport`, `CsvExport`, `CsvImport` and `CsvRoundTrip` cover the two
  transports.
- `SessionEditing` covers `src/session.ts`.
- `CustomFields` covers `src/custom-field.ts`.
- `LocalDatetime` covers `src/util.ts`.

A session's static part is a map from property name to text. A name missing
from the map is a property the JavaScript object does not have. The static
field list comes from `src/constants.ts`, which is not part of this model.
Its value is the column list of the exported header in
`src/transport/csv.test.ts`.

Import loops that change a session step by step are methods:
`CsvImport.RebuildCells`, `CsvImport.BackFillMissing`, `CsvImport.Reconcile`,
`CsvImport.ImportFromCsv` and `SessionEditing.ClassifyEntries`. Each is
proved equal to a specification function, and the lemmas are stated about
those functions. The application state is the class
`SessionEditing.SessionState`, with the session list and the edited position
as fields.

## Model

| member | source | states |
|---|---|---|
| JsBuiltins.StartsWith | src/transport/csv.ts:118 | `startsWith` as a prefix test on character sequences |
| JsBuiltins.IsBlank | src/transport/csv.ts:66 | `csv.trim() === ''`: every character is whitespace; `CsvImport.ImportRejectsMalformed` proves such text is refused |
| JsBuiltins.FirstCharMismatch | src/transport/csv.ts:118 | a string whose first character differs from the prefix's does not start with it |
| JsBuiltins.LowerChar | src/custom-field.ts:9 | `toLowerCase` on one character leaves no upper-case ASCII letter and changes only upper-case ones |
| JsBuiltins.UpperChar | src/session.ts:283 | `toUpperCase` on one character leaves no lower-case ASCII letter and changes only lower-case ones |
| JsBuiltins.ToLower | src/custom-field.ts:9 | lower-casing keeps the length and maps every character through the ASCII lower-case map |
| JsBuiltins.ReplaceChar | src/session.ts:161 | a global one-character replace keeps the length; every occurrence is replaced and every other character kept |
| JsBuiltins.StripPrefix | src/session.ts:161 | an anchored replace removes the prefix once when present, and changes nothing otherwise |
| JsBuiltins.DigitChar | src/util.ts:2 | the character for a digit value is a decimal digit |
| JsBuiltins.DigitValue | src/util.ts:2 | a decimal digit's value is below 10 and is written back as the same character |
| JsBuiltins.NatToString | src/util.ts:2 | `String(n)` is a non-empty digit string without a leading zero, one digit exactly when n < 10 |
| JsBuiltins.ParseNatToString | src/util.ts:2 | the decimal value of `String(n)` is n |
| JsBuiltins.IntToString | src/util.ts:4-10 | `String(n)` for any integer: a `-` before the digits of a negative number; `LocalDatetime.FourDigitYear` and `LocalDatetime.DatetimeLayout` prove how the year is written |
| JsBuiltins.ParseLeadingZeros | src/util.ts:2 | zeros added in front do not change a digit string's value |
| JsBuiltins.PadStart | src/util.ts:2 | `padStart(w, c)` has length max(len, w), leaves a long enough string as it is, and otherwise puts fill characters before the unchanged string |
| JsBuiltins.ZerosParseToZero | src/util.ts:2 | a string of fill zeros is a digit string of value 0 |
| JsBuiltins.Filter | src/transport/csv.ts:12-13 | `filter` keeps only elements that pass, each taken from the input |
| JsBuiltins.FilterAppend | src/transport/json.ts:9-10 | filtering commutes with concatenation, so the kept elements stay in order |
| JsBuiltins.FilterAllKept | src/transport/json.ts:9-10 | a list whose elements all pass filters to itself |
| JsBuiltins.FilterNoneKept | src/transport/csv.ts:123 | a list with no passing element filters to nothing |
| JsBuiltins.FilterIdempotent | src/transport/json.ts:9-10 | filtering twice equals filtering once |
| JsBuiltins.FilterCounts | src/transport/json.ts:9-10 | every passing value occurs as often after filtering as before |
| JsBuiltins.IndexOf | src/transport/csv.ts:27 | the first position of an element: it holds the element, and no earlier position does |
| JsBuiltins.IndexOfExtend | src/transport/csv.ts:17 | appending an element does not move the first position of one already present |
| JsBuiltins.Unique | src/transport/csv.ts:17 | `Array.from(new Set(xs))` holds exactly the elements of xs, without repetition |
| JsBuiltins.UniqueFirstSeenOrder | src/transport/csv.ts:17 | the distinct elements come in the order of their first occurrence |
| JsBuiltins.UniqueOfDistinct | src/transport/csv.ts:22 | a list without repetitions is its own de-duplication |
| JsBuiltins.UniqueIdempotent | src/transport/csv.ts:22 | de-duplicating the custom names a second time changes nothing |
| SessionModel.StaticFieldsWellFormed | src/transport/csv.test.ts:313 | the static field list is duplicate-free, holds `datetime` and `teaName`, and has no name starting `steep-` or `custom-` |
| SessionModel.Cleaned | src/transport/csv.ts:10-14 | the clone keeps the static properties, keeps no empty steep, and keeps no custom field whose value is empty |
| SessionModel.CleanedIdempotent | src/transport/json.ts:9-10 | cleaning a cleaned session changes nothing |
| JsonExport.ExportToJson | src/transport/json.ts:7-11 | the exported list has one session per input session |
| JsonExport.ExportKeepsSessions | src/transport/json.ts:7-11 | same length and order, static properties copied unchanged, and an empty list exports as an empty list |
| JsonExport.ExportFiltersSteeps | src/transport/json.ts:9 | exported steeps are non-empty; each non-empty steep occurs as often as in the original; relative order is kept |
| JsonExport.ExportFiltersCustomFields | src/transport/json.ts:10 | exported custom fields have non-empty values; each such field occurs as often as in the original; relative order is kept |
| JsonExport.ExportIdempotent | src/transport/json.ts:9-10 | exporting an exported list gives the same list |
| CsvExport.MaxSteeps | src/transport/csv.ts:16 | `maxSteeps` bounds every cloned session's steep count and equals one of them (or 0) |
| CsvExport.Names | src/transport/csv.ts:17 | the custom field names of a session, one per field, in order |
| CsvExport.CustomNames | src/transport/csv.ts:17 | the `flatMap` of every cloned session's custom field names, session by session; `CsvExport.CustomNamesMembers` proves a name is in it exactly when some session has a field of that name |
| CsvExport.AllCustomNames | src/transport/csv.ts:17 | `allCustomFields`, the flattened names de-duplicated; `CsvExport.ExportCustomColumns` proves them distinct, in first-seen order, and exactly the names of valued fields |
| CsvExport.SteepColumns | src/transport/csv.ts:21 | column k of the steep part is `steep-(k+1)` |
| CsvExport.HeaderRow | src/transport/csv.ts:19-23 | the header's width is the static count plus `maxSteeps` plus the number of distinct custom names |
| CsvExport.FirstValue | src/transport/csv.ts:25-30 | the value of the first custom field with that name, or `""` when there is none |
| CsvExport.StaticCells | src/transport/csv.ts:34 | one cell per static field, the session's value or `""`; `CsvExport.SessionRowCells` states it cell by cell and `CsvRoundTrip.StaticPartRestored` proves the import reads them back |
| CsvExport.SteepCells | src/transport/csv.ts:35 | `session.steeps[k]`, or `""` when that is missing or empty, for each steep column; `CsvRoundTrip.SteepCellsPadded` and `CsvRoundTrip.SteepsRestored` prove a session's steeps come first and come back |
| CsvExport.CustomCells | src/transport/csv.ts:36 | the first value of each custom column's name, or `""`; `CsvRoundTrip.CustomsRestored` proves the import reads them back one field per column |
| CsvExport.SessionRow | src/transport/csv.ts:32-38 | a data row is exactly as wide as the header |
| CsvExport.DataRows | src/transport/csv.ts:32-38 | one data row per session, each as wide as the header |
| CsvExport.ExportToCsv | src/transport/csv.ts:10-43 | the table is the header plus one row per session, all of one width |
| CsvExport.ExportHeaderLayout | src/transport/csv.ts:19-23 | the header is the static fields, then `steep-1..steep-maxSteeps`, then the distinct custom names, and nothing else |
| CsvExport.ExportSteepColumnCount | src/transport/csv.ts:12-16 | `maxSteeps` is the largest number of non-empty steeps of any session |
| CsvExport.CustomNamesMembers | src/transport/csv.ts:17 | a name is among the flattened names exactly when some cloned session has a field of that name |
| CsvExport.NameHasField | src/transport/csv.ts:17 | every flattened name is the name of some session's custom field |
| CsvExport.FieldHasName | src/transport/csv.ts:17 | every session's custom field names are among the flattened names |
| CsvExport.ExportCustomColumns | src/transport/csv.ts:13-22 | the custom columns are distinct, in first-seen order, and are exactly the names of fields with a non-empty value |
| CsvExport.CustomColumnHasField | src/transport/csv.ts:13-17 | every custom column comes from a field with a non-empty value |
| CsvExport.FieldHasCustomColumn | src/transport/csv.ts:13-17 | every field with a non-empty value gets a custom column |
| CsvExport.ExportRow | src/transport/csv.ts:32-38 | table row i+1 is the row of cleaned session i, laid out under the header's steep count and custom names |
| CsvExport.SessionRowCells | src/transport/csv.ts:34-36 | cell by cell: a static value by name, steep k or `""` past the end, and the first value of the column's custom name or `""` |
| CsvExport.ExportEmpty | src/transport/csv.ts:16-23 | an empty list exports the static header alone, with no steep or custom column and no row |
| CsvImport.RowResults | src/transport/csv.ts:100-155 | one row result per data row |
| CsvImport.Absorb | src/transport/csv.ts:115-131 | one cell: a static column sets that property, other unprefixed columns are ignored, a `steep-` or `custom-` column appends a non-empty cell; `CsvImport.AbsorbFields` and `CsvRoundTrip.AbsorbStatic`, `AbsorbSteep` and `AbsorbCustom` prove each case |
| CsvImport.Rebuild | src/transport/csv.ts:111-132 | the cells absorbed left to right; `CsvImport.RebuildCells` (the loop) is proved equal to it, and `CsvImport.RebuildAppend`, `RebuildFields`, `RebuildLastWins` and `RebuildLists` state what it does |
| CsvImport.BackFill | src/transport/csv.ts:137-141 | every static field missing from the header set to `""`; `CsvImport.BackFillMissing` (the loop) is proved equal to it and `CsvImport.RowFieldsStatic` proves the effect |
| CsvImport.BuildRow | src/transport/csv.ts:104-141 | the session a row becomes; `CsvImport.ImportedRowFields` and `CsvImport.ImportedRowLists` state its properties, steeps and custom fields |
| CsvImport.CheckRow | src/transport/csv.ts:143-154 | a row is accepted with its session exactly when the datetime is non-empty and valid; `CsvImport.ImportRow` and `CsvImport.AcceptedAreValid` prove it |
| CsvImport.Reconciled | src/transport/csv.ts:157-181 | the three-way outcome from the row results; `CsvImport.Reconcile` (the loop) is proved equal to it, and `CsvImport.ReconcileOutcomes` and `CsvImport.ResultsPartition` state the outcomes |
| CsvImport.ImportSpec | src/transport/csv.ts:56-186 | the whole import; `CsvImport.ImportFromCsv` is proved equal to it, and `CsvImport.ImportRejectsMalformed`, `CsvImport.ImportOutcomes`, `CsvImport.ImportKeepsValidRows` and `CsvRoundTrip.CsvRoundTrip` state what it gives |
| CsvImport.BuiltRows | src/transport/csv.ts:100-141 | one rebuilt session per data row, in row order |
| CsvImport.RebuildCells | src/transport/csv.ts:111-132 | the per-cell loop throws exactly when the row has more cells than the header; otherwise it gives the left-to-right rebuild |
| CsvImport.BackFillMissing | src/transport/csv.ts:137-141 | the back-fill loop sets every static field missing from the header to `""` |
| CsvImport.ImportRow | src/transport/csv.ts:104-154 | a row throws exactly when too long; otherwise it is accepted with its rebuilt session iff the datetime is valid |
| CsvImport.Reconcile | src/transport/csv.ts:157-181 | the accumulation loop gives the reduction of the row results |
| CsvImport.ImportFromCsv | src/transport/csv.ts:56-186 | the import gives the outcome the specification function gives |
| CsvImport.RowResultsStep | src/transport/csv.ts:100-155 | one more row that fits the header adds exactly its own result |
| CsvImport.RebuildStep | src/transport/csv.ts:111-114 | the rebuild of one more cell absorbs that cell into the rebuild so far |
| CsvImport.MissingFieldsStep | src/transport/csv.ts:137-141 | one more static field is back-filled with `""` exactly when the header lacks it |
| CsvImport.RebuildAppend | src/transport/csv.ts:111-114 | cells are absorbed left to right, so a row splits into consecutive column segments |
| CsvImport.AbsorbFields | src/transport/csv.ts:118-121 | one cell changes the properties only under a static column, and then to the cell's text; other unprefixed columns are ignored |
| CsvImport.RebuildFields | src/transport/csv.ts:118-121 | rebuilding writes only static names, and leaves a name with no column as it was |
| CsvImport.RebuildLastWins | src/transport/csv.ts:118-121 | the last cell under a static column gives that property its value |
| CsvImport.RebuildLists | src/transport/csv.ts:123-131 | rebuilding only appends: non-empty steeps, and custom fields with a non-empty value named after their `custom-` column |
| CsvImport.ImportedRowFields | src/transport/csv.ts:104-141 | an imported row has only static names, always `datetime` and `teaName`, `""` for static fields missing from the header, the last cell's value for present ones, and no value for a header field past a short row's end |
| CsvImport.RowFieldsStatic | src/transport/csv.ts:104-141 | an imported row has only static names, always `datetime` and `teaName`, and `""` for static fields missing from the header |
| CsvImport.RowFieldsLastWins | src/transport/csv.ts:111-121 | a static column's last cell in the row gives that property its value |
| CsvImport.RowFieldsUnset | src/transport/csv.ts:111-121 | a header field past a short row's end gets no value, except `datetime` and `teaName` |
| CsvImport.ImportedRowLists | src/transport/csv.ts:123-131 | an imported row's steeps are non-empty; its custom fields are `custom-` named columns with non-empty values |
| CsvImport.ResultsPartition | src/transport/csv.ts:157-166 | accepted plus failed is the row count; all failed iff all rejected; none failed iff all accepted |
| CsvImport.AcceptedAppend | src/transport/csv.ts:160-163 | accepted sessions keep their row order |
| CsvImport.AllAccepted | src/transport/csv.ts:181 | when every row is accepted, the sessions are the rows' sessions in order |
| CsvImport.ReconcileOutcomes | src/transport/csv.ts:168-181 | all rejected (or no rows) gives the import error; all accepted gives the sessions; a mix gives the accepted sessions, fewer than the rows, with the partial error |
| CsvImport.ImportRejectsMalformed | src/transport/csv.ts:61-90 | blank text, parser errors, a lone line, no table, a header without `datetime` or `teaName`, or an over-long row gives the import error |
| CsvImport.ImportAllValid | src/transport/csv.ts:143-181 | well-formed input whose rows all rebuild to the given sessions, each with a valid datetime, imports exactly those sessions |
| CsvImport.ImportOutcomes | src/transport/csv.ts:143-181 | on well-formed input: failure iff no row has a valid datetime; full success iff all do, with row i's rebuilt session at position i; partial success gives the accepted rows' sessions in row order, all valid and fewer than the rows |
| CsvImport.AcceptedAreValid | src/transport/csv.ts:143-154 | every accepted session has a non-empty, valid datetime |
| CsvImport.AcceptedInRowOrder | src/transport/csv.ts:157-166 | the accepted sessions are exactly the rebuilt rows whose datetime is valid, filtered in row order |
| CsvImport.ImportKeepsValidRows | src/transport/csv.ts:143-181 | on well-formed input, a full or partial import gives exactly the rebuilt rows with a valid datetime, in row order |
| CsvRoundTrip.ByColumns | src/transport/csv.ts:25-30 | at most one field per custom column, named after a column, with a non-empty value |
| CsvRoundTrip.TableFields | src/transport/csv.ts:34 | the properties the table carries: every static field, an absent one as `""`; `CsvRoundTrip.ExpectedFields` proves it keeps no other property |
| CsvRoundTrip.Expected | src/transport/csv.ts:10-38 | one expected session per exported session |
| CsvRoundTrip.AbsorbStatic | src/transport/csv.ts:118-121 | a cell under a static column overwrites that property |
| CsvRoundTrip.AbsorbSteep | src/transport/csv.ts:123-124 | a cell under a `steep-` column appends a steep when it is not empty |
| CsvRoundTrip.AbsorbCustom | src/transport/csv.ts:126-131 | a cell under a `custom-` column appends a field named after the column when it is not empty |
| CsvRoundTrip.StaticSegment | src/transport/csv.ts:118-121 | the static segment of a row only writes properties |
| CsvRoundTrip.OverlayFacts | src/transport/csv.ts:34 | writing a session's static values under their names gives each name its value |
| CsvRoundTrip.SteepSegment | src/transport/csv.ts:123-124 | the steep segment appends its non-empty cells in column order |
| CsvRoundTrip.CustomSegment | src/transport/csv.ts:126-131 | the custom segment appends, column by column, each name's non-empty first value |
| CsvRoundTrip.StaticPartRestored | src/transport/csv.ts:34 | the static cells of any session rebuild exactly its static properties, an absent one as `""`, and nothing else |
| CsvRoundTrip.OverlayRestores | src/transport/csv.ts:34 | writing a session's static values under the static names over a map with no other name gives each name the session's value or `""` |
| CsvRoundTrip.TableFieldsOfExact | src/transport/csv.ts:34 | a session holding exactly the static properties has them carried unchanged |
| CsvRoundTrip.SteepColumnsPrefixed | src/transport/csv.ts:21 | every steep column starts with `steep-` |
| CsvRoundTrip.SteepCellsPadded | src/transport/csv.ts:35 | the steep cells of a session with no empty steep are its steeps followed by empty cells |
| CsvRoundTrip.SteepsRestored | src/transport/csv.ts:35 | the steep cells of a session with no empty steep give back its steeps, whatever the padding |
| CsvRoundTrip.CustomsRestored | src/transport/csv.ts:36 | the custom cells give back one field per column, in column order |
| CsvRoundTrip.RowSegments | src/transport/csv.ts:32-38 | an exported row is as wide as the header and is rebuilt segment by segment |
| CsvRoundTrip.SteepsAfterFields | src/transport/csv.ts:35 | rebuilding the steep cells after the properties gives the steeps back |
| CsvRoundTrip.CustomsAfterSteeps | src/transport/csv.ts:36 | rebuilding the custom cells after the steeps gives the fields back by column |
| CsvRoundTrip.TailRebuilt | src/transport/csv.ts:35-36 | the steep and custom cells of an exported row rebuild its steeps and custom fields |
| CsvRoundTrip.BackFillNothingMissing | src/transport/csv.ts:137-141 | back-filling under a header with every static field changes nothing |
| CsvRoundTrip.BuildRowFullWidth | src/transport/csv.ts:104-141 | a full-width row is rebuilt under all its columns and back-filled |
| CsvRoundTrip.RowRebuilt | src/transport/csv.ts:32-38 | absorbing an exported row under the export's header gives the static properties (absent as `""`), the steeps, and the custom fields arranged by column |
| CsvRoundTrip.RowRoundTrip | src/transport/csv.ts:32-38 | importing an exported row of any session under the export's header gives its static properties (absent as `""`, no other property), its steeps, and its custom fields arranged by column |
| CsvRoundTrip.CustomColumnsPrefixed | src/transport/csv.ts:17 | when every field name starts with `custom-`, so does every custom column |
| CsvRoundTrip.CustomColumnPrefixed | src/transport/csv.ts:17 | one custom column comes from a `custom-` field name |
| CsvRoundTrip.ExportedRowsRebuilt | src/transport/csv.ts:84-141 | the exported header holds `datetime` and `teaName`; every row of sessions with a valid datetime and `custom-` field names fits it and rebuilds to the expected session, with a valid datetime |
| CsvRoundTrip.CsvRoundTrip | src/transport/csv.ts:17-181 | importing the export of a non-empty list of sessions, each with a valid datetime and `custom-` field names and any other properties, succeeds fully, with the expected sessions |
| CsvRoundTrip.FirstValueOfMember | src/transport/csv.ts:27-28 | when names are distinct, a field's name looks up its own value |
| CsvRoundTrip.ByColumnsMembers | src/transport/csv.ts:25-30 | when names are distinct, the fields given back are exactly the session's valued fields whose name has a column |
| CsvRoundTrip.ByColumnsOrdered | src/transport/csv.ts:26 | the fields given back follow the custom column order |
| CsvRoundTrip.OrderedSnoc | src/transport/csv.ts:26 | a field for a new last column keeps the column order |
| CsvRoundTrip.DistinctCount | src/transport/csv.ts:17 | a list without repetitions holds each element once |
| CsvRoundTrip.SameElements | src/transport/csv.ts:17 | two lists without repetitions and with the same elements are permutations of each other |
| CsvRoundTrip.ByColumnsPermutes | src/transport/csv.ts:25-30 | when every field has a value and a column and the names are distinct, the fields given back are the session's own, reordered |
| CsvRoundTrip.OrderedDistinct | src/transport/csv.ts:26 | fields in strictly increasing column order are all different |
| CsvRoundTrip.CleanedFieldHasColumn | src/transport/csv.ts:13-17 | every custom field of a cleaned session has a custom column |
| CsvRoundTrip.ExpectedRestoresSession | src/transport/csv.ts:10-38 | what the import gives back for a session is its non-empty steeps and (names distinct) its valued custom fields, permuted into column order |
| CsvRoundTrip.ExpectedFields | src/transport/csv.ts:34 | what the import gives back for a session has exactly the static properties, each with the session's value or `""`; a session holding exactly those gets its own properties back |
| CsvRoundTrip.BrandIsNotStatic | src/transport/csv.test.ts:313 | `teaBrand` is not a static field and `teaProducer` is |
| CsvRoundTrip.SavedBrandNotCarried | src/session.ts:28 | a session saved with a brand keeps it, has no producer, and comes back from the table without the brand and with `""` as producer |
| SessionEditing.FormGet | src/session.ts:25-32 | `formData.get` is absent exactly when no entry has the key; otherwise it is the value of the first such entry |
| SessionEditing.FormGetShift | src/session.ts:25-32 | the first entry with a key, found past a non-matching head, is the first in the whole form |
| SessionEditing.FormFields | src/session.ts:24-32 | the saved properties are the read names whose entry holds text, with that text |
| SessionEditing.FormSession | src/session.ts:21-53 | the session the form saves; `SessionEditing.FormSavesField`, `SessionEditing.ClassifyEntries` and `CustomFields.AddedFieldIsSaved` state its parts |
| SessionEditing.FormSavesField | src/session.ts:24-35 | a read name with a text entry is saved with that text; a name the form does not read is never saved |
| SessionEditing.BrandReadProducerNot | src/session.ts:24-35 | the form reads `teaBrand` and does not read `teaProducer` |
| SessionEditing.FormKeepsBrand | src/session.ts:28 | a brand in the form is saved under `teaBrand`, and no producer is saved |
| SessionEditing.SteepEntries | src/session.ts:45-46 | no more steeps than entries |
| SessionEditing.CustomEntries | src/session.ts:47-52 | every custom field is a `custom-` text entry of the form |
| SessionEditing.ClassifyEntries | src/session.ts:37-53 | the classification loop gives the steeps and custom fields the specification functions give |
| SessionEditing.ClassifyAppend | src/session.ts:37-53 | classification follows entry order |
| SessionEditing.ClassifyOne | src/session.ts:41-52 | a `steep-` text entry is a steep, even when empty; another `custom-` text entry is a field named after its key; a non-text entry is skipped |
| SessionEditing.SteepsKeptInOrder | src/session.ts:45-46 | a form of steep texts gives every text, in order, empty ones included |
| SessionEditing.Spliced | src/session.ts:178 | `splice(k, 1)` removes position k and shifts later sessions down by one; past the end it changes nothing |
| SessionEditing.Saved | src/session.ts:55-64 | saving an edit replaces exactly the edited session and keeps the length; saving a new session appends it |
| SessionEditing.DeleteKeepsEditTarget | src/session.ts:176-181 | a delete that adjusts the edited position keeps it on the same session, inside the list, and clears it when that session is deleted |
| SessionEditing.DeleteLeavesStaleEdit | src/session.ts:176-181 | with the position left as it is, it now names the next session or lies past the end |
| SessionEditing.EditLabel | src/session.ts:161 | the edit label has no `-`; it is 7 characters shorter than a `custom-` name, the same length otherwise |
| SessionEditing.EditLabelOfCustomName | src/session.ts:161 | the label of `custom-` + rest is rest with every `-` made a space |
| SessionEditing.CapitalizeFirst | src/session.ts:284 | the first character upper-cased unless it is a line terminator (`.` does not match one); `SessionEditing.DisplayNameShape` states it |
| SessionEditing.DisplayName | src/session.ts:280-284 | the name shown on a session card; `SessionEditing.DisplayNameShape` states its shape |
| SessionEditing.DisplayNameShape | src/session.ts:280-284 | the shown name is the edit label lower-cased, with the first character upper-cased unless it is a line terminator, and has no `-` |
| SessionEditing.EditLabels | src/session.ts:157-162 | one label and value per custom field, in order |
| SessionEditing.SessionState.constructor | src/state.ts:3-11 | the state starts with no sessions and no edited position |
| SessionEditing.SessionState.SaveSession | src/session.ts:21-67 | the form's session replaces the edited one or is appended; the edited position is cleared |
| SessionEditing.SessionState.ResetSessionForm | src/session.ts:77-78 | the edited position is cleared and the list is unchanged |
| SessionEditing.SessionState.DeleteSession | src/session.ts:176-181 | a confirmed delete splices the list, a declined one changes nothing; the edited position is kept as it was |
| SessionEditing.SessionState.DeleteSessionTracked | src/session.ts:176-181 | the delete with the edited position moved along with its session, which keeps the state valid |
| SessionEditing.SessionState.StartEditSession | src/session.ts:106-108 | the edited position becomes the index, the list is unchanged, and the labels of its custom fields are returned |
| CustomFields.DropWhitespace | src/custom-field.ts:9 | a suffix of the input that does not start with whitespace, after a prefix that is all whitespace |
| CustomFields.Collapse | src/custom-field.ts:9 | replacing whitespace runs never lengthens the text, keeps it empty only when it was, and leaves no whitespace besides the separator |
| CustomFields.CollapseDrawsFrom | src/custom-field.ts:9 | every result character is the separator or one of the input's |
| CustomFields.CollapseNoWhitespace | src/custom-field.ts:9 | text without whitespace is unchanged |
| CustomFields.CollapseRun | src/custom-field.ts:9 | a maximal whitespace run becomes one separator |
| CustomFields.DropRun | src/custom-field.ts:9 | dropping leading whitespace removes exactly a whitespace run |
| CustomFields.CollapseKeeps | src/custom-field.ts:9 | a non-whitespace character is kept |
| CustomFields.LeadingRun | src/custom-field.ts:9 | text starting with whitespace splits into its leading run and the rest |
| CustomFields.CollapseAppend | src/custom-field.ts:9 | replacement works piecewise across a boundary that does not split a run |
| CustomFields.RunThenAppend | src/custom-field.ts:9 | the piecewise property extends over a leading run |
| CustomFields.KeepThenAppend | src/custom-field.ts:9 | the piecewise property extends over a leading non-whitespace character |
| CustomFields.CollapseSwapSeparator | src/custom-field.ts:9 | replacing the separator afterwards equals using the other separator, when the first does not occur in the input |
| CustomFields.ReplaceAppend | src/session.ts:161 | a global replace distributes over concatenation |
| CustomFields.CollapseTwice | src/custom-field.ts:9 | collapsing again after collapsing with a whitespace separator equals collapsing once |
| CustomFields.Slug | src/custom-field.ts:9 | the field name starts with `custom-` (so never `steep-`), has no whitespace and no upper-case ASCII letter, and is longer than `custom-` exactly when the label is not empty |
| CustomFields.AddCustomField | src/custom-field.ts:3-9 | a non-empty label is used as given; otherwise a non-empty answer is used; with neither, nothing is added |
| CustomFields.AddedFieldIsSaved | src/session.ts:47-52 | saving the form stores an added field as a custom field under its name, never as a steep |
| CustomFields.EditLabelOfSlug | src/custom-field.ts:9 | for a label without `-`, the edit label of its field name is the lower-cased label with whitespace runs made single spaces |
| CustomFields.EditKeepsFieldName | src/session.ts:157-162 | editing a session re-creates a custom field (label without `-`) under its stored name, without prompting |
| CustomFields.EditRenamesDoubledHyphen | src/session.ts:161 | a label `x--y` is saved back after an edit as `custom-x-y`, a different name |
| CustomFields.SlugOfDoubledHyphen | src/custom-field.ts:9 | `x--y` is stored as `custom-x--y` |
| CustomFields.SlugOfSpacedLabel | src/custom-field.ts:9 | `x  y` is stored as `custom-x-y` |
| CustomFields.SpacedCollapse | src/custom-field.ts:9 | the two spaces of `x  y` become one `-` |
| LocalDatetime.Pad | src/util.ts:2 | `pad(n)` has at least 2 characters, and is `String(n)` itself when that is 2 or more |
| LocalDatetime.PadShape | src/util.ts:2 | one digit gets a leading `0`; any other number, negative ones included, is written as it is |
| LocalDatetime.PadParses | src/util.ts:2 | a padded natural number reads back as itself |
| LocalDatetime.PadTwoDigits | src/util.ts:5-8 | numbers below 100 are padded to exactly two digits |
| LocalDatetime.FourDigitYear | src/util.ts:4 | a year from 1000 to 9999 is written with four digits |
| LocalDatetime.ToLocalDatetimeString | src/util.ts:1-11 | the `YYYY-MM-DDThh:mm` text; `LocalDatetime.DatetimeLayout` states its layout and that each field reads back |
| LocalDatetime.DatetimeLayout | src/util.ts:4-10 | for a four-digit year and in-range components the text has 16 characters with `-`, `-`, `T`, `:` at positions 4, 7, 10, 13, no seconds, and every field reads back as its component, the month as month0 + 1 |
| LocalDatetime.Fields | src/util.ts:10 | where the five fields sit in the joined text |

## Left out

- Papa.parse and Papa.unparse (RFC 4180 quoting, `skipEmptyLines`): the import starts from the parser's error list and rows, and the export ends at the table. The round trip assumes the writer and the parser are inverse on the table and that the written text is not blank.
- `new Date(x).getTime()` and the `Date` getters: date validity is the parameter `isValidDate`, and the local-time components are integer parameters.
- File delivery (`downloadFile`, `downloadJSON`), `JSON.stringify` formatting, local storage, and the `importFromJSON` stub: I/O or library code with no logic to prove.
- DOM, rendering, notifications and `scrollTo`: no state of the model depends on them. `confirm` is the boolean parameter `confirmed`, and `prompt` is the parameter `answer`.
- The `typeof csv !== 'string'` check: the model's input is always text.
- The export's `catch` path: nothing in the modelled export can throw.
- JsBuiltins.LowerChar, JsBuiltins.UpperChar, JsBuiltins.ToLower: `toLowerCase` and `toUpperCase` change only ASCII letters here. The host maps all of Unicode.
- FormFields: a missing form entry (`null`) or a file entry is modelled as a missing property, not as a `null` or a `File` value.
- `saveSession` reads `teaBrand`, while the exported static fields are `teaProducer`, `origin` and `year`. This is modelled as written: `CsvRoundTrip.SavedBrandNotCarried` proves a saved `teaBrand` does not come back from the table.
- SessionEditing.SessionState.SaveSession: requires the edited position to be inside the list. Such a position is reachable only through the delete described under Findings. At the list's length the source's assignment appends: editing 1 in [a, b] and deleting 0 makes the save add the edited copy of b after b. Past the length it leaves a hole, which takes two deletes before the save: editing 2 in [a, b, c] and deleting 0 twice makes the save write index 2 of [c].
- SessionEditing.SessionState.StartEditSession: requires an index inside the list, as the session cards pass. With any other index, the source sets the edited position and then throws reading the missing session.
- `startEditSession`'s filling of the static inputs and steeps: form filling. Only the custom-field labels are modelled.
- `steepCount` in the state and the steep field renumbering in src/steep.ts are not part of this model.
- `setDefaultDateTime`, which feeds `toLocalDatetimeString` the current time, is not part of this model.

## Findings

| source | as written | input that shows it | evidently intended | confidence | as-written member | corrected member |
|---|---|---|---|---|---|---|
| src/session.ts:176-181 | `deleteSession` splices the list but leaves `editingIndex` as it was | sessions [a, b], editing position 0 or 1, delete 0 | the edited position follows its session: cleared when that session is deleted, shifted down when it came later | not executed | SessionEditing.DeleteLeavesStaleEdit | SessionEditing.DeleteKeepsEditTarget |

With the delete as written, a form opened for editing saves over a different
session (`SessionEditing.SessionState.DeleteSession`). When the position is
the list's length, the save appends the edited session beside its original.
After two deletes it can lie further out, and the save then leaves a hole.
The corrected `SessionEditing.SessionState.DeleteSessionTracked` keeps the
state valid, which `SaveSession` relies on.
