# Tenant billing: CSV import and form validation

This project models the two pieces of logic in the tenant-billing app's main
component, `src/App.jsx`. Everything else in the app is React view code or calls
to the hosted database.

- **Bulk import** (`uploadCSV`). The uploaded text is split on `'\n'` and the
  first line is always dropped. Lines that are blank after `trim` are skipped.
  Every other line is split on every `','`, with no quoting. The first four
  pieces are destructured as name, water, electricity and rent. Each piece is
  trimmed, and the three amounts go through `Number`. A line with fewer than
  three commas makes `undefined.trim()` throw. The whole import then fails
  before anything reaches the store. On success, the records go to the store in
  one batch insert, and the count reported is the number of records.
- **Single add** (`addTenant`). The form is rejected when `name` is the empty
  string or when `isNaN` holds for any of the three amount strings. Otherwise
  the record keeps `name` exactly as typed and converts the amounts with
  `parseFloat`. That record is inserted on its own.

The model is pure, like the code it models: datatypes, functions and lemmas.

- `Number`, `parseFloat` and `isNaN` are parameters (`string -> N`,
  `string -> bool`) over an arbitrary number type `N`. Nothing is assumed about
  them, and in particular not that they agree with each other.
- The store's insert is a parameter that returns the store's error message,
  if any.
- `trim` removes exactly the ECMAScript WhiteSpace and LineTerminator code
  points.
- `split` with a one-character separator is modelled together with `join`, its
  inverse.

Modules:

- `Results`: `Option`, `Result`.
- `Tenants`: the record.
- `JsStrings`: `trim`, `split`, `join`.
- `JsArrays`: `filter`, `map`, and a `map` whose callback may throw.
- `CsvImport`: the import.
- `FormValidation`: the form.

Four behaviours of the code are easy to miss; the model follows the code:

- An empty amount is not rejected by the form. The form's message at
  src/App.jsx:55 ("请填写所有字段且必须为数字", "fill in every field, and as
  numbers") asks for every field. But `isNaN('')` is false in JavaScript, so
  only the `isNaN` parameter decides (`FormValidation.EmptyAmountsJudgedByTest`).
- The form tests the name for being empty and never trims it, so a name made
  only of spaces is accepted (`FormValidation.WhitespaceNameAccepted`).
- The import does no numeric check. The stored amounts of an imported line are
  whatever `Number` makes of them, NaN included
  (`CsvImport.ImportConvertsTrimmedText`,
  `FormValidation.ImportAcceptsWhatFormRejects`). So records whose amounts are
  not numbers can reach the store.
- The import accepts an empty name (`FormValidation.ImportAcceptsEmptyName`).

## Model

| member | source | states |
|---|---|---|
| JsStrings.Trim | src/App.jsx:102-109 | `trim` never lengthens its input and leaves no whitespace at either end; `TrimSpec` and `TrimMatchesReference` pin it to the reference definition in both directions |
| JsStrings.TrimStartSpec | src/App.jsx:102 | the text left by trimming the start is a suffix of the input; what was cut off is all whitespace; the result does not start with whitespace |
| JsStrings.TrimEndSpec | src/App.jsx:102 | the text left by trimming the end is a prefix of the input; what was cut off is all whitespace; the result does not end with whitespace |
| JsStrings.TrimSpec | src/App.jsx:102 | `trim` meets the reference definition: the input is a whitespace-only prefix, the result, then a whitespace-only suffix, and the result has no whitespace at either end |
| JsStrings.TrimOfIsUnique | src/App.jsx:102 | the reference definition of trimming admits only one result |
| JsStrings.TrimMatchesReference | src/App.jsx:102 | any string that meets the reference definition is what `trim` returns |
| JsStrings.TrimEmptyIffAllWhitespace | src/App.jsx:102 | a line is dropped by the filter (its trim is empty) exactly when it is all whitespace |
| JsStrings.TrimOfTrimmed | src/App.jsx:106-109 | a field with no whitespace at its ends is left unchanged |
| JsStrings.TrimDropsLeadingSpace | src/App.jsx:106-109 | a leading space before a trimmed field is removed |
| JsStrings.TrimIdempotent | src/App.jsx:102 | trimming twice is trimming once |
| JsStrings.TrimIgnoresTrailingWhitespace | src/App.jsx:109 | one more trailing whitespace character, such as a CRLF `'\r'`, does not change the trim |
| JsStrings.Split | src/App.jsx:100 | `split` always yields at least one piece |
| JsStrings.SplitPiecesAvoidSeparator | src/App.jsx:100 | no piece of a split contains the separator |
| JsStrings.SplitPieceCount | src/App.jsx:100 | a split has exactly one piece more than the separator occurs |
| JsStrings.JoinSplit | src/App.jsx:100 | joining the pieces of a split with the separator gives the input back |
| JsStrings.SplitJoin | src/App.jsx:100 | splitting a join of separator-free pieces gives the pieces back |
| JsStrings.SplitWithoutSeparator | src/App.jsx:100 | text without the separator is one piece |
| JsStrings.SplitAtSeparator | src/App.jsx:100 | splitting `a + sep + b` gives the pieces of `a` followed by those of `b` |
| JsStrings.SplitFirstPiece | src/App.jsx:104 | a separator-free first piece comes off whole |
| JsStrings.SplitAppendChar | src/App.jsx:104 | appending a non-separator character extends only the last piece |
| JsArrays.Filter | src/App.jsx:102 | the filter keeps at most as many elements as it is given; every element it keeps comes from the input and is accepted, and every accepted element of the input is kept |
| JsArrays.FilterSkipsRejected | src/App.jsx:102 | a rejected element contributes nothing to the filter, wherever it stands |
| JsArrays.FilterAppend | src/App.jsx:102 | filtering `a + b` gives the accepted elements of `a`, then those of `b`, so order is kept |
| JsArrays.FilterKeepsAll | src/App.jsx:102 | when every element is accepted, the filter returns its input |
| JsArrays.Map | src/App.jsx:103 | the map has the input's length, and its i-th element is the callback applied to the i-th input |
| JsArrays.MapOrFail | src/App.jsx:103-111 | a map whose callback may throw succeeds exactly when every callback returns, and then has the input's length |
| JsArrays.MapOrFailAt | src/App.jsx:103-111 | on success, the i-th result is what the callback returned for the i-th element |
| JsArrays.MapOrFailSucceedsWith | src/App.jsx:103-111 | when every callback returns, the result is exactly the returned values, in order |
| JsArrays.MapOrFailFirstFailure | src/App.jsx:103-111 | the first element whose callback throws decides the error, whatever follows it |
| JsArrays.MapOrFailAgrees | src/App.jsx:103-111 | two inputs whose elements the callback treats alike give the same outcome |
| JsArrays.MapOrFailThenConvert | src/App.jsx:103-111 | a callback that is another one followed by a conversion that cannot throw gives the other's outcome, converted element by element |
| JsArrays.FilterMapOrFailAgrees | src/App.jsx:101-111 | filter-then-map gives the same outcome on two inputs that both callbacks treat alike, element by element |
| CsvImport.DataLines | src/App.jsx:100 | the data lines are as many as the line breaks: every line but the first |
| CsvImport.HasText | src/App.jsx:102 | the filter callback keeps a line exactly when the line is not all whitespace |
| CsvImport.KeptLines | src/App.jsx:100-102 | every kept line is a data line with text, and every data line with text is kept |
| CsvImport.ParseLine | src/App.jsx:104-110 | a line yields a record exactly when it has at least three commas; otherwise the error names the first field that is `undefined` (water, electricity, rent) |
| CsvImport.ParseLineFields | src/App.jsx:104-110 | on a line `name,water,electricity,rent[,...]` the record is the trimmed name with each amount the conversion of its trimmed text |
| CsvImport.ExtraFieldsIgnored | src/App.jsx:104 | fields after the fourth do not change the result |
| CsvImport.ParseLineIgnoresCarriageReturn | src/App.jsx:104-109 | a trailing `'\r'` from a CRLF line ending does not change the result |
| CsvImport.QuotedCommaSplitsField | src/App.jsx:104 | commas are never quoted: `"Doe, J",1,2,3` gives name `"Doe`, and every later field shifts one place |
| CsvImport.ParseLineConvertsText | src/App.jsx:107-110 | a line's record is the record of its trimmed texts with the conversion applied afterwards |
| CsvImport.ParseCsv | src/App.jsx:100-111 | the import succeeds exactly when every kept line has at least three commas, and then yields one record per kept line |
| CsvImport.RecordPerKeptLine | src/App.jsx:101-111 | on success, the i-th record is the one built from the i-th kept line, so file order is kept |
| CsvImport.FirstMalformedLineFailsImport | src/App.jsx:103-111 | a kept line with fewer than three commas makes the whole import fail, with the error of the first such line and no records |
| CsvImport.ImportConvertsTrimmedText | src/App.jsx:107-111 | no numeric check: importing is importing the trimmed texts and converting them afterwards, so success never depends on the conversion |
| CsvImport.UploadCsv | src/App.jsx:98-122 | a parse failure is reported before the store is involved; otherwise the upload fails exactly when the insert returns an error, and then reports the store's own message; on success the count is the number of kept lines |
| CsvImport.FirstLineDropped | src/App.jsx:100 | the first line is dropped whatever it holds: the data lines are the lines of what follows it |
| CsvImport.FirstLineIsIgnored | src/App.jsx:100 | replacing the first line by any other line does not change the result |
| CsvImport.SingleLineYieldsNoRecords | src/App.jsx:100 | text with no line break, even a data line, yields no records |
| CsvImport.TrailingNewlineAddsNothing | src/App.jsx:100-102 | a trailing newline never adds a record |
| CsvImport.DataLinesAfterBreak | src/App.jsx:100 | cutting the text at a line break cuts its data lines there |
| CsvImport.DataLinesWithInsertedLine | src/App.jsx:100 | inserting a line after the first inserts exactly that data line |
| CsvImport.BlankLineAddsNothing | src/App.jsx:102 | a whitespace-only line anywhere after the first adds nothing |
| CsvImport.CarriageReturnsIgnored | src/App.jsx:100-109 | text with CRLF line endings imports exactly like the same text with LF endings |
| CsvImport.ParseFormattedLine | src/App.jsx:104-110 | a row formatted as `name,water,electricity,rent` from plain fields parses back to that row, converted |
| CsvImport.KeptFormattedLines | src/App.jsx:100-102 | under a header, every formatted row's line is kept, in order |
| CsvImport.FormatThenParse | src/App.jsx:100-111 | formatting rows under a header and importing the text gives back every row, in order, with its amounts converted |
| FormValidation.ValidateForm | src/App.jsx:52-66 | the form is accepted exactly when the name is non-empty and no amount fails the numeric test; the record is then the form, name untouched, with each amount converted |
| FormValidation.AddTenant | src/App.jsx:52-72 | a rejected form gives the validation message; otherwise the store is given the single record, and its error, if any, is what is reported |
| FormValidation.RejectedFormSkipsStore | src/App.jsx:54-57 | a rejected form never reaches the store: the outcome is the same whatever the store does |
| FormValidation.WhitespaceNameAccepted | src/App.jsx:54-62 | a non-empty name made only of whitespace passes and is stored as typed, although its trim is empty |
| FormValidation.EmptyAmountsJudgedByTest | src/App.jsx:54-65 | empty amounts are rejected exactly when `isNaN("")` holds; otherwise each becomes `parseFloat("")` |
| FormValidation.FormAgreesWithImport | src/App.jsx:54-66 | on a plain row the form accepts, the form's record equals the import's record for that row's line, given the same conversion |
| FormValidation.ImportAcceptsWhatFormRejects | src/App.jsx:54-109 | a row with an amount that fails the numeric test is imported all the same, while the form rejects it |
| FormValidation.ImportAcceptsEmptyName | src/App.jsx:54-106 | the line `,1,2,3` imports as a record with the empty name, while the form rejects that name |

## Left out

- All database calls except the two inserts: listing, ordering, delete and the change subscription (src/App.jsx:17-47, 80-95). They are an external service with no semantics visible in the code.
- The inserts (src/App.jsx:59-66, 114-120) are a parameter. Nothing about what the store does with the records is modelled.
- React state, effects, rendering, `alert`, `window.confirm`, `FileReader` and DOM access (src/App.jsx:6-14, 126-314) are UI and I/O. This includes what the handler does after an insert: clearing the form, resetting the error and re-fetching (src/App.jsx:74-76).
- The numeric behaviour of `Number`, `parseFloat` and `isNaN`. These are floating-point JavaScript semantics, kept as abstract parameters.
- The displayed total with `toFixed(2)` (src/App.jsx:298-302). It is floating-point display code.
- Async ordering and concurrent submissions. They concern event sequencing against a remote store.
- CsvImport.ParseLine: the error records which destructured field was `undefined`, not the text of the JavaScript TypeError message.
- JsStrings.Trim: strings are sequences of Unicode scalar values, not UTF-16 code units. Text with surrogate pairs is not modelled unit by unit.
- Concrete runs of the whole import on literal texts are not stated as lemmas. They follow from `CsvImport.FormatThenParse`, `CsvImport.TrailingNewlineAddsNothing` and `CsvImport.BlankLineAddsNothing`.
