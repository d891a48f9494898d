# BMS register map viewer — a Dafny model of its core

The BMS / SCADA register map viewer loads a register map from a CSV file. Each row holds seven text
fields: address, function code, name, unit, scaling, data type and notes. The viewer filters rows
by free text and validates the map. Validation finds missing fields, non-integer addresses,
duplicate addresses and, optionally, gaps between addresses. The viewer also exports the map as a
Markdown or a standalone HTML document.

This project models that core as pure Dafny functions over immutable datatypes and proves what the
code promises. It is organised as follows.

- **Text helpers**
  - `Text`: Python's `str.strip`, ASCII `lower`, substring search, `replace` of one character,
    and `join`.
  - `PyInt`: Python's `int()` on decimal strings, and `str()` of an integer.
- **Loading and filtering**
  - `Registers`: the register entry, `address_int`, and how the CSV loader resolves column
    headers.
  - `Filter`: `filter_text`.
- **Validation**
  - `Validation`: `validate` itself.
  - `Sorting`, `Grouping`, `DuplicateProofs`, `GapProofs`, `ValidationProofs`: the dict of
    address groups, duplicate detection, gap detection and their theorems.
- **Export**
  - `Metadata`: the export metadata and its defaults.
  - `Markdown` and `MarkdownDocument`: `_markdown_row_for_entry` and `generate_markdown`.
  - `Html` and `HtmlDocument`: the `esc` helper, the `<tr>` rows and `generate_html`.
  - `Lines`: splitting at a separator, which is the inverse of `join`.

The exporters have no inverse in the program. The model adds readers (`ParseMdRow`,
`ReadMarkdown`, `ParseHtmlRow`, `ReadHtml`, …) as partner definitions. The round-trip lemmas then
state what the escaping and layout guarantee: every field, and all metadata, can be recovered
from the generated text.

## Model

| member | source | states |
|---|---|---|
| Registers.Fields | bms_register_viewer/model.py:22-32 | an entry has exactly seven text fields, in the column order of the table |
| Registers.EntryOfFields | bms_register_viewer/model.py:22-32 | any seven strings form an entry whose fields are exactly those strings |
| Registers.AddressIntSpec | bms_register_viewer/model.py:34-40 | `address_int` returns a value exactly when the address, without the white space `int()` skips, is an optional sign followed by 1 to 4300 decimal digits. It is None for a blank address. For the decimal spelling of n surrounded by skippable white space, it is n when n has at most 4300 digits and None otherwise |
| PyInt.ParseInt | bms_register_viewer/model.py:37-40 | `int()` succeeds exactly when the text, without the white space it skips, is non-empty, ends in a digit, is all digits except possibly a leading sign, and has at most 4300 digits (CPython's default `int_max_str_digits`). It rejects a string that `strip()` empties, including one made only of U+001C to U+001F |
| PyInt.ParseIntValue | bms_register_viewer/model.py:37-38 | a sign and a run of at most 4300 digits read as the run's decimal value, negated after `-`, and leading zeros and `+` are accepted. A longer run raises |
| PyInt.ParseIntRejects | bms_register_viewer/model.py:37-40 | any character other than a digit, apart from a leading sign, makes `int()` fail and `address_int` return None |
| PyInt.ParseLeadingZeros | bms_register_viewer/model.py:37-38 | leading zeros are accepted: `int("007")` is 7 |
| PyInt.ParsePlusSign | bms_register_viewer/model.py:37-38 | a `+` sign is accepted: `int("+5")` is 5 |
| PyInt.ParsePaddedNegative | bms_register_viewer/model.py:37-38 | a negative number between spaces is read: `int(" -12 ")` is -12 |
| PyInt.ParseIntRejectsExamples | bms_register_viewer/model.py:37-40 | "12a", "1.5", "0x10" and "-" are not integers |
| PyInt.IntTrimWithin | bms_register_viewer/model.py:37-38 | the text `int()` parses is taken from the address and neither starts nor ends with white space `int()` skips |
| PyInt.ParseIntTrimmed | bms_register_viewer/model.py:37-38 | removing the white space `int()` skips (`str.isspace` minus U+001C to U+001F) does not change the result |
| PyInt.ParsePaddedInt | bms_register_viewer/model.py:37-38 | the decimal spelling of n, with skippable white space on either side, parses to n when it has at most 4300 digits, and raises otherwise |
| PyInt.DigitLimitExample | bms_register_viewer/model.py:37-40 | a run of 4300 digits is an integer, but a run of 4301 is not, so its address is None |
| PyInt.ParsedFitsLimit | bms_register_viewer/model.py:189-190 | every integer `int()` returns has at most 4300 digits, so printing an address into a message never hits `str()`'s limit |
| PyInt.SeparatorNotSkipped | bms_register_viewer/model.py:37-40 | U+001C is white space to `strip()` but not to `int()`: `"\x1c5".strip()` is "5", yet `int("\x1c5")` raises while `int("5")` is 5 |
| PyInt.NatToString | bms_register_viewer/model.py:189-190 | the decimal spelling of n is non-empty, digits only, has no leading zero and denotes n |
| PyInt.ParseNatString | bms_register_viewer/model.py:189-190 | parsing the decimal spelling of n (or of -n) gives back n (or -n) when it has at most 4300 digits, and fails otherwise |
| PyInt.IntToStringRoundTrip | bms_register_viewer/model.py:189-190 | `int(str(n)) == n` for every integer of at most 4300 digits, and raises beyond that; the spelling holds no white space |
| Text.TrimLeftSpec | bms_register_viewer/model.py:128 | left trimming removes exactly the leading whitespace: what is dropped is whitespace and what remains starts with a non-space |
| Text.TrimRightSpec | bms_register_viewer/model.py:128 | right trimming removes exactly the trailing whitespace |
| Text.StripSpec | bms_register_viewer/model.py:128 | `strip()` is empty exactly when every character is whitespace; otherwise it neither starts nor ends with whitespace |
| Text.StripIdempotent | bms_register_viewer/model.py:77 | stripping twice is stripping once |
| Text.Contains | bms_register_viewer/model.py:113 | `n in h` holds exactly when n occurs in h at some position |
| Text.ReplaceChar | bms_register_viewer/export.py:76 | after replacing c by a text without c, no c remains, and no new characters other than those of the replacement appear |
| Text.ReplaceCharAppend | bms_register_viewer/export.py:76 | replacing a character distributes over concatenation |
| Registers.FirstPresentIndex | bms_register_viewer/model.py:74-76 | the first candidate name whose lower case is a lower-cased header is chosen; none is chosen exactly when the column is missing |
| Registers.FirstPresentUnique | bms_register_viewer/model.py:74-76 | the chosen candidate is the first present one |
| Registers.GetValueAsWritten | bms_register_viewer/model.py:73-78 | as written: the value is looked up under the candidate's own spelling, then its lower-case form, then "" |
| Registers.DataTypeHeaderLostAsWritten | bms_register_viewer/model.py:55-61 | for a header "Data type" (a spelling the loader documents), the as-written lookup yields "" while the corrected lookup yields the cell's value |
| Registers.GetValue | bms_register_viewer/model.py:73-78 | corrected lookup: the value is read from the first header that matches the chosen candidate case-insensitively, then stripped |
| Registers.GetValueAgreesOnLowerCaseHeader | bms_register_viewer/model.py:70-78 | when every header is already lower case, the as-written and corrected lookups agree |
| Registers.GetValueStripped | bms_register_viewer/model.py:77 | every loaded value is already stripped |
| Registers.EntryFromRowField | bms_register_viewer/model.py:80-89 | with the corrected lookup, each field of a loaded entry comes from its own candidate list (Function/Func, Name/Description, …); it is stripped, and it is "" when the column is missing |
| Registers.LoadedFields | bms_register_viewer/model.py:80-90 | in the corrected loader, field f of loaded row i is the value the corrected lookup resolves for column f in row i; it is stripped, and "" for a missing column |
| Registers.LoadAgreesOnLowerCaseHeader | bms_register_viewer/model.py:70-90 | on an all-lower-case header, the loader as written and the corrected loader load the same entries |
| Registers.DataTypeLostOnLoadAsWritten | bms_register_viewer/model.py:55-90 | for the header "Address,Data type" and the row "1,uint16", the loader as written loads an empty data type; the corrected loader loads "uint16" |
| Filter.Needle | bms_register_viewer/model.py:96-97 | the normalised query is empty exactly when the query is blank |
| Filter.FilterText | bms_register_viewer/model.py:94-115 | a blank query returns every entry; otherwise the result keeps the original order and holds each entry exactly as many times as in the map if it matches, and not at all otherwise |
| Filter.FilterTextIdempotent | bms_register_viewer/model.py:94-115 | filtering the filtered list by the same text changes nothing |
| Filter.FieldMatchSelects | bms_register_viewer/model.py:101-114 | an entry one of whose fields contains the query (case-insensitively) is kept |
| Filter.ContainsInJoin | bms_register_viewer/model.py:102-113 | text found in one lower-cased field is found in the lower-cased space-joined haystack |
| Validation.CheckIssue | bms_register_viewer/model.py:128-178 | a per-row issue has the row number idx+2 and the severity of its check (only the missing name is a warning); its address is None for a missing address or an empty address text |
| Validation.ChecksFrom | bms_register_viewer/model.py:128-178 | the per-row checks report in source order, each for the same row; every issue belongs to a check that failed and carries that check's severity and address |
| Validation.RowIssues | bms_register_viewer/model.py:127-178 | a row's issues are ordered by check and all carry that row's number; each is for a check the entry fails, with the severity and address of that check |
| Validation.RowIssuesCount | bms_register_viewer/model.py:127-178 | each check contributes exactly one issue for its row when it fails, and none otherwise |
| Validation.PerRowIssues | bms_register_viewer/model.py:123-180 | per-row issues appear by ascending row, and by check within a row, with row numbers from 2 to n+1; each is for a check that its row's entry fails, with that check's severity and the entry's address |
| Validation.Validate | bms_register_viewer/model.py:117-211 | an empty map has no issues |
| ValidationProofs.PerRowCount | bms_register_viewer/model.py:123-178 | over all rows, each check reports a given row at most once, and exactly when it fails for that row |
| ValidationProofs.AssembleOrder | bms_register_viewer/model.py:119-211 | the result starts with the per-row issues, then duplicates, then gaps |
| ValidationProofs.ValidateOrder | bms_register_viewer/model.py:119-211 | per-row issues come first, ordered by row and by check; duplicates follow; gaps come last |
| ValidationProofs.ValidateRowCount | bms_register_viewer/model.py:127-178 | for row i and each per-row check, `validate` reports exactly one issue when the check fails and none otherwise |
| ValidationProofs.ValidateRowIssue | bms_register_viewer/model.py:123-178 | every per-row issue in `validate`'s output is for a check its row fails; the missing name is a warning and the rest are errors; the missing address carries no address, the others carry `entry.address or None` |
| ValidationProofs.ValidateCheckIssue | bms_register_viewer/model.py:127-178 | the output contains check k's issue for row i, with its severity and address, exactly when check k fails for that row |
| ValidationProofs.ValidateDuplicateCount | bms_register_viewer/model.py:180-193 | row i gets exactly one duplicate issue when another row parses to the same address, and none otherwise |
| ValidationProofs.ValidateDuplicateOrder | bms_register_viewer/model.py:180-193 | duplicate errors are grouped by address, the addresses in the order their first row appears in the table (dict insertion order), and each address's rows ascend |
| ValidationProofs.ValidateDuplicateIssue | bms_register_viewer/model.py:183-193 | every duplicate issue is an error naming an address that at least two rows share, and a row that has it |
| ValidationProofs.ValidateGap | bms_register_viewer/model.py:195-209 | a gap warning (c, n) is reported exactly when gaps are checked, c and n are valid addresses, n > c + 1, and no valid address lies strictly between them |
| ValidationProofs.ValidateGapIssues | bms_register_viewer/model.py:195-209 | gap warnings are warnings without a row that name their lower address, and they appear in ascending order |
| Grouping.SetDefaultAppend | bms_register_viewer/model.py:180 | `setdefault(a, []).append(row)` appends to a's group, or adds a new group at the end; keys stay distinct |
| Grouping.GroupRowsKeys | bms_register_viewer/model.py:169-180 | the dict has a key exactly for each address that some row parses to |
| Grouping.GroupRowsRows | bms_register_viewer/model.py:169-180 | the group of address a lists exactly the row numbers whose address parses to a, ascending |
| Grouping.GroupNonEmpty | bms_register_viewer/model.py:169-180 | a group exists only once some row has been appended to it, so no group is empty |
| Grouping.GroupRowsFirstSeen | bms_register_viewer/model.py:180-183 | groups are iterated in order of each address's first row |
| Grouping.SortedKeys | bms_register_viewer/model.py:197 | the sorted keys are strictly increasing and are exactly the valid addresses |
| Grouping.GapPairsSound | bms_register_viewer/model.py:198-201 | each pair reported by the scan of the sorted keys is two keys more than one apart with no key between them |
| Grouping.GapPairsComplete | bms_register_viewer/model.py:198-201 | every two such keys are reported |
| Grouping.GapPairsAscending | bms_register_viewer/model.py:198-209 | gaps are reported by ascending lower address |
| Sorting.InsertSpec | bms_register_viewer/model.py:197 | inserting into a sorted list keeps it sorted and adds exactly the new element |
| Sorting.SortSpec | bms_register_viewer/model.py:197 | `sorted` returns a sorted permutation of its input |
| Sorting.SortDistinct | bms_register_viewer/model.py:197 | sorting distinct keys gives a strictly increasing list of the same keys |
| DuplicateProofs.DuplicateCount | bms_register_viewer/model.py:182-193 | the duplicate pass reports row i exactly once when its address is shared, and not at all otherwise |
| DuplicateProofs.DuplicateIssuesOrdered | bms_register_viewer/model.py:183-193 | the duplicate pass emits errors key by key in dict order, and row by row within a key |
| DuplicateProofs.SeenBeforeAt | bms_register_viewer/model.py:169-180 | a row with address a, with no row up to it having b, means a is seen before b when scanning the rows |
| DuplicateProofs.FirstRowsSeenBefore | bms_register_viewer/model.py:169-180 | when the first row with a precedes the first row with b, a is seen before b |
| DuplicateProofs.DuplicateOrder | bms_register_viewer/model.py:180-193 | two duplicate errors share an address with ascending rows, or the earlier one's address was seen first in the table |
| DuplicateProofs.DuplicateIssueFacts | bms_register_viewer/model.py:182-193 | each duplicate issue names a shared address and a row that has it, as an error |
| GapProofs.GapWarningsSpec | bms_register_viewer/model.py:195-209 | the gap pass reports (c, n) exactly for consecutive valid addresses more than one apart, and only when gaps are checked |
| GapProofs.GapWarningsAscending | bms_register_viewer/model.py:196-209 | gap warnings are ordered by their lower address |
| Metadata.Get | bms_register_viewer/export.py:25-29 | `dict.get` returns the stored value when the key is present and the default otherwise |
| Metadata.ResolveMetadata | bms_register_viewer/export.py:23-29 | each key is looked up on its own: a supplied key gives its value, even an empty one; an absent key gives the title "Register Map", an empty device name or summary, the source file's name (or ""), or the clock reading, whatever other keys are supplied |
| Metadata.ResolveAsMetadata | bms_register_viewer/export.py:23-29 | metadata that supplies every key fully determines the settings, whatever the source file and clock |
| Metadata.ResolveNoneIsEmpty | bms_register_viewer/export.py:23 | no metadata and an empty mapping are treated alike |
| Metadata.ClockShowsMetadata | bms_register_viewer/export.py:29-38 | when the generation time is defaulted to a non-empty clock reading, the metadata block is always written |
| Markdown.MdEscapeEscapesPipes | bms_register_viewer/export.py:74-76 | after escaping, every pipe character in the text is preceded by a backslash |
| Markdown.MdEscapeRoundTrip | bms_register_viewer/export.py:74-76 | unescaping the escaped text gives back the original text |
| Markdown.SplitAtSeparator | bms_register_viewer/export.py:78-86 | a cell without unescaped pipes ends at the next separator |
| Markdown.MdCellSafe | bms_register_viewer/export.py:79-85 | an escaped, space-padded cell holds no unescaped pipe |
| Markdown.SplitRowText | bms_register_viewer/export.py:78-86 | splitting a row at unescaped pipes gives back the padded cells |
| Markdown.MarkdownRowLayout | bms_register_viewer/export.py:78-86 | the row is a pipe, then each escaped, space-padded field followed by a pipe |
| Markdown.ParseRowText | bms_register_viewer/export.py:78-86 | a row built from seven fields reads back as the entry of those fields |
| Markdown.MarkdownRowRoundTrip | bms_register_viewer/export.py:73-86 | every entry, including pipes and backslashes in any field, is recovered from its Markdown row |
| Markdown.MarkdownRowOneLine | bms_register_viewer/export.py:73-86 | a character other than pipe, backslash or space that no field contains does not appear in the row |
| MarkdownDocument.ParseTableRows | bms_register_viewer/export.py:65-66 | the entries are recovered from the table rows |
| MarkdownDocument.ReadMetadataBlockOf | bms_register_viewer/export.py:37-46 | the metadata block is recovered: device and source when non-empty, and the generation time; all are empty when the block is omitted |
| MarkdownDocument.ReadSummaryOf | bms_register_viewer/export.py:48-52 | the summary paragraph is recovered, or "" when omitted |
| MarkdownDocument.ReadTableOf | bms_register_viewer/export.py:54-68 | the register table is recovered from its heading, header, rule and rows |
| MarkdownDocument.MarkdownLinesRoundTrip | bms_register_viewer/export.py:31-68 | the title, metadata, summary and every entry are recovered from the document's lines |
| MarkdownDocument.MarkdownLinesOneLine | bms_register_viewer/export.py:31-68 | when no field or setting contains a line break, no line does |
| MarkdownDocument.MarkdownRoundTrip | bms_register_viewer/export.py:18-70 | when no field or setting contains a line break, the resolved settings and every entry are recovered from the document text |
| MarkdownDocument.ReadTableAfter | bms_register_viewer/export.py:54-68 | the rows and column lines never repeat the "## Register Map" heading, so whatever lines come first, its last occurrence starts the table, which reads back from there |
| MarkdownDocument.MarkdownTableRoundTrip | bms_register_viewer/export.py:54-70 | when no field contains a line break, the entries are recovered from the last table of the text, whatever the metadata |
| MarkdownDocument.MarkdownEndsWithNewline | bms_register_viewer/export.py:68-70 | the document ends with a line break |
| Html.EscapeCharByPasses | bms_register_viewer/export.py:102-107 | the three chained replacements turn & into &amp;, < into &lt; and > into &gt;, and keep every other character |
| Html.HtmlEscapeAppend | bms_register_viewer/export.py:102-107 | escaping distributes over concatenation |
| Html.HtmlEscapeEach | bms_register_viewer/export.py:102-107 | escaping in three passes equals escaping each character once; "&" is replaced first, so the entities are not escaped again |
| Html.HtmlEscapeNoTags | bms_register_viewer/export.py:102-107 | escaped text contains no < or > |
| Html.HtmlEscapeKeeps | bms_register_viewer/export.py:102-107 | a character outside the entities that the text lacks does not appear after escaping |
| Html.HtmlEscapeRoundTrip | bms_register_viewer/export.py:102-107 | unescaping the escaped text gives back the original text |
| Html.HtmlRowLayout | bms_register_viewer/export.py:164-174 | the row is "<tr>", seven escaped cells (address and function with the numeric class), then "</tr>" |
| Html.ParseTdOf | bms_register_viewer/export.py:166-172 | a cell is read back to its field, and the rest of the row is left |
| Html.ParseTdsOf | bms_register_viewer/export.py:165-173 | a sequence of cells reads back to its fields |
| Html.HtmlRowRoundTrip | bms_register_viewer/export.py:163-174 | every entry is recovered from its `<tr>` row |
| HtmlDocument.ParseHtmlRowsOf | bms_register_viewer/export.py:163-174 | the entries are recovered from the row lines |
| HtmlDocument.ReadHeadOf | bms_register_viewer/export.py:111-128 | the title is recovered from the head and the first heading |
| HtmlDocument.ReadHtmlMetadataOf | bms_register_viewer/export.py:130-139 | the metadata list is recovered: device and source when non-empty, and the generation time; all are empty when the list is omitted |
| HtmlDocument.ReadHtmlSummaryOf | bms_register_viewer/export.py:141-143 | the summary is recovered, or "" when omitted |
| HtmlDocument.ReadHtmlTableOf | bms_register_viewer/export.py:145-180 | the register table is recovered from the heading, header row, body and closing tags |
| HtmlDocument.HtmlLinesRoundTrip | bms_register_viewer/export.py:109-180 | the title, metadata, summary and every entry are recovered from the document's lines |
| HtmlDocument.HtmlLinesOneLine | bms_register_viewer/export.py:109-180 | when no field or setting contains a line break, no line does |
| HtmlDocument.HtmlRoundTrip | bms_register_viewer/export.py:89-182 | when no field or setting contains a line break, the resolved settings and every entry are recovered from the document text |
| HtmlDocument.ReadTableAfter | bms_register_viewer/export.py:145-180 | the rows never repeat "<tbody>", so whatever lines come first, the last "<tbody>" line is the table's own and the table reads back from five lines above it |
| HtmlDocument.HtmlTableRoundTrip | bms_register_viewer/export.py:145-182 | when no field contains a line break, the entries are recovered from the text after the last "<tbody>", whatever the metadata |
| HtmlDocument.HtmlEndsWithClosingTag | bms_register_viewer/export.py:179-182 | the document ends with "</html>" and no line break |
| Lines.SplitJoin | bms_register_viewer/export.py:70 | splitting a join at its separator gives back the parts, when no part contains it |
| Lines.LastIndexOfSplit | bms_register_viewer/export.py:54-70 | the last occurrence of a line in a join is found after every earlier line |

## Left out

- The GUI (`gui.py`) is not part of this model.
- File I/O is left out: reading the CSV file, `save_text`, and the file name of `source_path`. The
  loader starts from the header and the rows as already tokenised by `csv.DictReader`. A row is a
  map from header to cell, and a header absent from the row reads as missing. The source file's
  name is passed in as an optional parameter.
- CSV tokenising, quoting and the UTF-8 BOM handling are left out, because they belong to Python's
  `csv` module.
- The clock (`_now_iso`) is a parameter `now` of the exporters.
- PyInt.ParseInt: models `int()` on optional white space, an optional sign and ASCII decimal digits.
  The white space skipped is `str.isspace` minus U+001C to U+001F (`IsIntSpace`), as in CPython.
  Underscores between digits and non-ASCII digits are rejected here, although Python accepts them.
  The digit limit is fixed at CPython's default of 4300 (`MaxStrDigits`). The model does not cover
  changing it with `sys.set_int_max_str_digits`, nor interpreters that predate the limit. `str(n)`
  has the same limit, but the model's `IntToString` never meets it: every printed address came from
  `int()` (`ParsedFitsLimit`).
- Registers.LoadEntries: reads every column with the corrected lookup `GetValue`, not with the
  source's `get_value`. `LoadEntriesAsWritten` is the loop as written, on `GetValueAsWritten`.
  The two agree on all-lower-case headers (`LoadAgreesOnLowerCaseHeader`) and differ on a header
  such as "Data type" or "ADDRESS" (`DataTypeLostOnLoadAsWritten`). Validation, filtering and
  export take entries as input and hold for entries from either loader.
- Text.Lower: ASCII case folding only; Python's full Unicode lower-casing is left out.
- Text.IsSpace: covers the characters `str.isspace` accepts, listed explicitly.
- The `address_to_indices` dict is an insertion-ordered list of (address, rows) groups. Python
  dicts keep insertion order, which is what the duplicate pass iterates.
- Validation.Validate: issue messages are a datatype, with `MessageText` spelling the exact
  strings. An issue's address is either the entry's own text or a printed integer. The theorems
  speak about the structured form.
- The readers (`ParseMdRow`, `ReadMarkdown`, `ParseHtmlRow`, `ReadHtml`, …) exist only in the
  model. They serve as partners for the exporters' round-trip lemmas.
- MarkdownDocument.MarkdownRoundTrip and HtmlDocument.HtmlRoundTrip require that no field or
  setting contain a line break. A break inside a field is written verbatim and does split the
  table row; the program does nothing about it.
- The HTML head's style sheet is modelled as its literal text only.
- Spelling differences in the documentation are resolved as follows:
  - The metadata keys are `device_name`, `source_file` and `generated_at`, as the code reads
    them.
  - A row whose every field is blank yields five issues, not four. `int("")` fails, so
    "Invalid address" is reported as well as "Missing address"; the model follows the code.

## Findings

| source | as written | input that shows it | evidently intended | confidence | as-written member | corrected member |
|---|---|---|---|---|---|---|
| bms_register_viewer/model.py:73-78 | the presence test lower-cases the header, but the value is looked up under the candidate's spelling or its lower-case form, never under the file's own header spelling | a CSV whose header is `Address,Data type` (a spelling the loader's docstring lists), with a row `1,uint16`: the data type loads as "" | columns are matched case-insensitively, so the value is read from the header that matched | not executed | Registers.GetValueAsWritten, Registers.DataTypeHeaderLostAsWritten, Registers.LoadEntriesAsWritten, Registers.DataTypeLostOnLoadAsWritten | Registers.GetValue, Registers.LoadEntries |
