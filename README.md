# Spreadsheet restructuring pipeline: the deterministic core

The application uploads a spreadsheet, asks a generative-AI model to reshape it into a
target column structure, and offers the result for download. Around the AI call and the
spreadsheet libraries sit a few deterministic steps, and this Dafny project models and
proves them:

- **CSV export** (`utils/csvHelper.ts`, `downloadCSV`). The header line is the first
  record's keys, unquoted and joined by commas. Each data line has one field per column,
  wrapped in double quotes with internal quotes doubled. All lines are joined by LF. The
  field quoting follows section 2, rules 6 and 7, of RFC 4180. Two things differ from
  that RFC: the header line is not quoted, and the line break is LF, not the CRLF of
  rule 1.
- **AI-response normalisation** (`services/geminiService.ts`). A parsed response whose
  `headers` or `rows` is falsy is rejected. Each row array becomes a header-keyed record built by a
  `headers.forEach` loop. Every failure is reported as one generic message.
- **Sheet decoding** (`services/excelService.ts`). This starts from the grid of cells the
  spreadsheet library returns. An empty grid is rejected. The first row is stringified
  into headers, and every later row becomes a header-keyed record.
- **Fence stripping and defaults** (`backend/services/ai_service.py`). Two conditional
  slices remove a Markdown code fence from the model's reply. `mapped_data` and
  `change_log` are read with their defaults, and errors are re-raised unchanged.
- **Backend tables** (`backend/services/file_service.py`). A reader is chosen by file
  suffix. `get_dataframe_sample` takes the head-N sample and `get_headers` returns the
  column list. `generate_excel_from_data` aligns the mapped records to the template
  columns.

Files: `wrappers.dfy` (Option, Result), `js_values.dfy` (JavaScript primitives, `String`,
truthiness), `records.dfy` (insertion-ordered records and the fold that both `forEach`
loops perform), `csv_reader.dfy` (an independent reader that the CSV writer is proved
against), `csv_helper.dfy`, `gemini_service.dfy`, `excel_service.dfy`, `py_json.dfy` (JSON
values, Python exceptions and the `str` prefix and suffix tests), `ai_service.dfy`, `file_service.dfy`.

Each boundary starts from an already-parsed value: the parsed AI response, the grid
returned by `sheet_to_json`, the reply text together with `json.loads` as a function
parameter, and a list of dicts. JavaScript objects and Python dicts are `Record`s that
keep their key order as an explicit sequence. A new key is appended; assigning to an
existing key keeps its position. A pandas DataFrame is an ordered list of column names
plus, for each row, a map from column name to a cell.

Some consequences of the code that the model makes explicit:
- The header line is written unquoted, so a header holding a comma reads back as two
  columns (`CsvHelper.UnquotedHeaderSplits`). A header written as `"x"` looks like the
  quoted field `x` (`CsvHelper.QuotedHeaderReadsUnquoted`).
- A decoded row shorter than the headers still gets each missing key, with the value
  `undefined`.
- A blank cell in the sheet's header row is a hole in the array `sheet_to_json`
  returns. `map(String)` keeps the hole and `forEach` skips it, so that column gives no
  key at all (`ExcelService.BlankHeaderSkipped`). A blank cell in a data row reads as
  `undefined`.
- The AI response check is a truthiness test: empty arrays pass, while `null`, `0` and
  `""` are rejected (`GeminiService.ValidateTruthiness`). A truthy primitive `headers`
  passes it and, with no rows, is returned as it is.

## Model

| member | source | states |
|---|---|---|
| CsvHelper.DownloadCsv | utils/csvHelper.ts:5-8 | nothing is produced exactly when the data set is empty |
| CsvHelper.CsvRows | utils/csvHelper.ts:10-21 | one line per record plus the header line, and the header line is the first record's keys joined by commas with no quoting |
| CsvHelper.Quote | utils/csvHelper.ts:17-18 | every field is wrapped in double quotes, even a field with no comma and no quote |
| CsvHelper.EscapeLength | utils/csvHelper.ts:17 | escaping adds exactly one character per quote in the value |
| CsvHelper.QuoteRoundTrip | utils/csvHelper.ts:17-18 | stripping the outer quotes and collapsing `""` to `"` gives back the original value |
| CsvHelper.UnquoteOnlyFromQuote | utils/csvHelper.ts:17-18 | the converse: a field that unquotes to a value is exactly that value's quoted form |
| CsvHelper.CsvRoundTrip | utils/csvHelper.ts:10-23 | when the first record has at least one key and every key is a name that RFC 4180 lets stand unquoted (no comma, double quote, CR or LF), reading the text back gives the first record's keys as headers and, for every record in order, exactly one field per column in column order, each the column's text |
| CsvHelper.MissingKeyReadsUndefined | utils/csvHelper.ts:15-17 | a column key that a record lacks is written as the literal text `undefined` |
| CsvHelper.LaterKeysNotWritten | utils/csvHelper.ts:10-20 | under the same conditions on the first record's keys, a key absent from the first record is never a column, and every line read back has as many fields as there are columns |
| CsvHelper.UnquotedHeaderSplits | utils/csvHelper.ts:12 | the header line is not escaped: the key `a,b` is written bare and reads back as two header names |
| CsvHelper.QuotedHeaderReadsUnquoted | utils/csvHelper.ts:12 | a key written as `"x"` appears on the header line exactly as the quoted field `x`, which a reader following RFC 4180 reads as `x` |
| CsvHelper.KeylessFirstRecordUnreadable | utils/csvHelper.ts:10-23 | a first record with no keys, reachable from a response with `headers: []`, is written as a lone line feed, which does not read back as a CSV document |
| Records.Set | services/geminiService.ts:65 | assigning a property keeps the object well formed: keys distinct and exactly the keys with values |
| Records.Zip | services/geminiService.ts:63-66 | the object left by the `forEach` assignments on a fresh object is well formed |
| Records.ZipAssigned | services/geminiService.ts:63-67 | that object's key set is the header set, and each header holds the cell at its last index |
| Records.ZipKeySet | services/excelService.ts:34-38 | every header becomes a key and no other key appears |
| Records.ZipLastWins | services/excelService.ts:35-37 | a header that occurs several times takes the cell at its last index |
| Records.ZipKeyOrder | services/geminiService.ts:64-66 | the object's key order is the headers' first-occurrence order |
| Records.AssignedFromUnique | services/excelService.ts:34-38 | a record with that key order, key set and last-index values is the one the loop builds |
| Records.DedupDistinct | services/geminiService.ts:64-66 | with distinct headers the key order is the header order itself |
| JsValues.OrEmptyBlankIffFalsy | services/geminiService.ts:65 | after `row[index] \|\| ''` a cell prints as empty exactly when it was falsy, and otherwise as before |
| GeminiService.Validate | services/geminiService.ts:56-58 | a response is rejected exactly when `headers` or `rows` is falsy (absent, `null`, `false`, `0` or `""`), and arrays pass even when empty |
| GeminiService.ValidateTruthiness | services/geminiService.ts:56 | empty arrays and a non-empty string pass the check; a missing field, `null`, `0` and `""` do not |
| GeminiService.BuildRowObject | services/geminiService.ts:63-67 | the record's keys are the headers in first-occurrence order, and each header holds the truthy cell at its last index or `""` |
| GeminiService.MapRows | services/geminiService.ts:62-68 | one normalised record per row, in row order |
| GeminiService.RestructureSpreadsheet | services/geminiService.ts:53-73 | fails, always with the one generic message, exactly on a failed call or parse, a falsy field, a primitive `rows`, or a primitive `headers` with at least one row; otherwise `headers` is returned as given and, when it is an array, record i normalises `rows[i]` |
| GeminiService.ShortRowPadded | services/geminiService.ts:65 | headers `[A, B]` with rows `[["1"]]` give `{A: "1", B: ""}` |
| GeminiService.DuplicateHeaderTakesLater | services/geminiService.ts:64-65 | a duplicated header takes the later index's cell, and cells past the headers do not affect the record |
| GeminiService.NormalizedValuesDefined | services/geminiService.ts:65 | a normalised value is never `undefined` or any other falsy value except `""`, and it comes from the cell at one of that header's indexes |
| ExcelService.BuildRowObj | services/excelService.ts:34-38 | the record's keys are the header names in first-occurrence order, blank header cells skipped, and each holds the cell at its last index, or `undefined` for a blank cell or past the row's end |
| ExcelService.MapRows | services/excelService.ts:32-39 | one decoded record per raw row, in order |
| ExcelService.ParseExcelFile | services/excelService.ts:22-52 | a read error gives "Failed to read file", a library failure gives "Failed to parse spreadsheet", and an empty grid gives "File is empty"; otherwise the name is the file's, the headers are the stringified first row with its holes kept, and there is one decoded record per later row |
| ExcelService.DecodedKeysAreHeaders | services/excelService.ts:33-38 | every decoded record's keys are exactly the names in the header row; a blank header cell gives no key |
| ExcelService.NamedMembers | services/excelService.ts:28-35 | a name is visited by `forEach` exactly when the header row holds it; holes are the only entries skipped |
| ExcelService.BlankHeaderSkipped | services/excelService.ts:28-38 | the header row `["Name", <blank>, "Age"]` gives records keyed by `Name` and `Age` only, not by `"undefined"` |
| AiService.StripFences | backend/services/ai_service.py:57-61 | the text is cut as the function `Cleaned` defines, by 0, 3, 7 or 10 characters |
| AiService.CleanedIsSlice | backend/services/ai_service.py:58-61 | the cleaned text is the whole reply, or it loses its first 7 characters, its last 3, or both |
| AiService.FencedPayload | backend/services/ai_service.py:58-61 | a payload wrapped in a "```json" ... "```" fence comes back exactly |
| AiService.UnchangedIffUnfenced | backend/services/ai_service.py:57-63 | the text reaches the parser unchanged exactly when it has neither fence |
| AiService.EmptyFencedBlock | backend/services/ai_service.py:58-61 | the suffix test runs on the prefix-stripped text, so "```json```" becomes empty |
| AiService.LeadingNewlineKeepsPrefix | backend/services/ai_service.py:57-61 | nothing is trimmed, so a leading line feed stops the prefix strip while the suffix is still removed |
| AiService.RestructureData | backend/services/ai_service.py:53-70 | call and parse errors are re-raised unchanged; a JSON object gives `mapped_data` (default `[]`) and `change_log` (default "Sem alterações registradas."); a non-object raises AttributeError from `.get` |
| FileService.ReadFileToDataframe | backend/services/file_service.py:6-13 | `.csv` selects the CSV reader; otherwise `.xls` or `.xlsx` selects the Excel reader; anything else raises ValueError |
| FileService.UpperCaseSuffixRefused | backend/services/file_service.py:8-13 | the suffix test is case-sensitive: `DATA.CSV` is refused and `data.csv` and `data.xlsx` are accepted |
| FileService.Head | backend/services/file_service.py:18 | `head(n)` is a prefix of the rows: the first min(n, rows) rows, or for negative n all but the last -n |
| FileService.GetDataframeSample | backend/services/file_service.py:15-23 | the sample keeps the columns and is a prefix of the rows, of length min(rows, n) for n >= 0 |
| FileService.SampleKeepsHeaders | backend/services/file_service.py:15-27 | with the default of 5 the sample has min(5, rows) rows, and its headers are the frame's |
| FileService.GetHeaders | backend/services/file_service.py:25-27 | the column names in their original order |
| FileService.KeyUnion | backend/services/file_service.py:31 | the DataFrame built from the dicts has a column for every key of every dict |
| FileService.GenerateExcelFromData | backend/services/file_service.py:29-39 | the columns are exactly the template headers in template order, with one row per record in order; each cell is the record's value for the header, or empty when the record lacks it; other keys are dropped |

## Left out

- The AI calls and prompt text (`services/geminiService.ts:5-51`,
  `backend/services/ai_service.py:7-55`) belong to an external service. Their outcome is
  an input to the model: the parsed response, or the reply text or exception.
- `JSON.parse` and `json.loads` are not modelled. The TypeScript side takes the parsed
  value or a failure. The Python side takes `json.loads` as a function parameter.
- The spreadsheet libraries are not modelled: `XLSX.read`, `sheet_to_json`,
  `json_to_sheet`, `XLSX.write`, and the pandas and openpyxl readers and writers.
  Decoding starts from the grid of cells. `generate_excel_from_data` ends at the aligned
  frame, before it is written to bytes.
- The FileReader and Promise plumbing (`services/excelService.ts:7-10,52-53`) is not
  modelled. A `FileLoad` value says which callback fires.
- The browser download (`utils/csvHelper.ts:24-36`) and the `console` logging and
  `print` calls are not modelled.
- `CsvHelper.DownloadCsv`: does not model a `null` or `undefined` `data` argument. The
  declared type excludes it, so the model covers only the empty array.
- JavaScript numbers are modelled as integers. Floating-point values, `NaN` and their
  string forms are not modelled. The model prints every integer in full decimal. In
  the source, `String` prints an integer from 1e21 on in exponent form (`"1e+21"`), and
  integers beyond 2^53 are not held exactly. JSON numbers on the Python side are
  integers too.
- A `headers` or `rows` field that holds a non-array object is not modelled. A field is
  an array or a primitive. Entries of `headers` that are not strings are not modelled
  either; the declared type says string. Cells of `rows` that are arrays or objects are
  not modelled: such a cell is truthy, so `|| ''` keeps it, and it prints through its
  `toString`.
- A row of `rows` that is not an array is not modelled. In the source, with
  `headers: []` such a row, `null` included, becomes `{}`. With at least one header, a
  `null` or `undefined` row throws inside the `try` and ends in the generic error. A
  string row is indexed character by character, and a number or boolean row reads
  `undefined` at every index, which becomes `""`.
- CsvHelper.CsvRoundTrip and CsvHelper.LaterKeysNotWritten: stated only when the
  first record has at least one key, and only for header names that RFC 4180 lets stand
  unquoted (no comma, double quote, CR or LF). A first record without keys is written
  as bare line feeds that do not read back (`CsvHelper.KeylessFirstRecordUnreadable`).
  `CsvHelper.UnquotedHeaderSplits` and `CsvHelper.QuotedHeaderReadsUnquoted` show what
  happens to other names.
- CsvHelper.MissingKeyReadsUndefined: records have no prototype. In the source,
  `row[fieldName]` (`utils/csvHelper.ts:15`) on a record lacking a key such as
  `constructor`, `toString` or `valueOf` finds the inherited `Object.prototype` member,
  and the column prints that member's text instead of `undefined`. The lemma, and
  `CsvHelper.CsvRoundTrip`, hold for the source only for other column names.
- GeminiService.BuildRowObject and ExcelService.BuildRowObj: assigning to the key
  `__proto__` (`services/geminiService.ts:65`, `services/excelService.ts:36`) creates no
  own key, and replaces the prototype only for an object or `null` value. The model creates an ordinary key named
  `__proto__`.
- `Object.keys` lists integer-like keys first. The model keeps plain insertion order.
- The datetime-to-string conversion in `get_dataframe_sample`
  (`backend/services/file_service.py:19-21`) and its JSON serialisation are not
  modelled. `FileService.GetDataframeSample` gives the sampled frame.
- `FileService.GenerateExcelFromData`: pandas fills a dict's missing key with NaN and a
  missing template column with None. Both are written as blank cells, so both are the
  one `Empty` cell here. Duplicate column names inside a DataFrame are not modelled.
- `FileService.GenerateExcelFromData` requires each record to be well formed (distinct
  keys, and exactly the keys that carry a value). This is how a Python dict is
  represented, not a demand on callers.
- `services/excelService.ts` `generateExcelFile` (lines 57-66) only calls the
  spreadsheet library.
- UI components, `App.tsx`, `backend/main.py` routing and file handling,
  `create_test_data.py`, and history persistence are outside the core.
