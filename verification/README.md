# Cycle-calendar upload normaliser

A Dafny model of how the cycle-calendar upload handler in `server.js` turns a
spreadsheet into calendar rows before anything reaches the database:

- choose the sheet: the first whose name contains both "Cycle" and "Calendar", otherwise the first sheet;
- find the header row among the first 20 rows, by its "cycle", "cycle date"/"date" and "type" labels;
- build the column map: labels of columns 0..6, first occurrence wins;
- resolve the cycle, zone, date and type columns, keeping the fixed layout 0/1/3/4 for a missing label;
- classify each data row:
  - read its date from a Date cell, a spreadsheet serial or a string;
  - check its type letter R/W/H;
  - clean cycle and zone to their digits;
  - derive a zero cycle from the UTC month and a zero zone from the UTC day;
- fold the rows: keep the first accepted row of each UTC day, track the largest cycle number, and take the year from the first record.

Modules, in dependency order:

| module | file | what it holds |
|---|---|---|
| `JsText` | `text.dfy` | `trim`, ASCII case mapping, `includes`, `String(n)` for integers, `cleanNum` |
| `Civil` | `calendar.dfy` | proleptic Gregorian calendar on day counts; `getUTCMonth`/`getUTCDate`/ISO date as a bijection |
| `Cells` | `cells.dfy` | the cell datatype, `String(c \|\| '')`, `row[i]`, and the host hooks |
| `Layout` | `layout.dfy` | sheet choice, header scan, column map, `getVal`'s column resolution |
| `Rows` | `rows.dfy` | date coercion, row classification, the loop as a fold, and an independent definition of the rows kept |
| `Survival` | `survival.dfy` | the fold keeps exactly the first accepted row of each day, in order |
| `Upload` | `upload.dfy` | the whole pipeline and its two rejections |
| `Examples` | `examples.dfy` | worked instances: serial 45000, a derived cycle and zone, the type filter, a whole sample upload |

Instants are integers: milliseconds since 1970-01-01T00:00Z. They are valid when their
magnitude is at most 8.64e15, the range of a JavaScript `Date` (ECMA-262, section 21.4.1.1).
The deduplication key `toISOString().split('T')[0]` is modelled as the UTC day number
`ms / 86400000`, using floor division. `Civil.CivilRoundTrip` and
`Civil.DaysFromCivilInjective` show that the UTC calendar date, which the ISO date key
spells out, is a one-to-one function of the day number.

Two behaviours belong to the JavaScript host, not to the handler, and are therefore
parameters of type `Cells.Host`:
- `new Date(string)`, for a date typed as text;
- `String(date)`, for a Date cell read as text.

The handler follows these rules, and the model does the same:
- An empty workbook has no sheet to choose, so the chosen sheet is undefined and the reader turns it into no rows. No row can be a header, and the handler answers "header not found". The model returns `Err(HeaderNotFound)`.
- The kept records are in input order, the order of the rows.
- A date cell that is missing is skipped at `server.js` line 120. A blank string or a boolean date is skipped at line 130. Both are skips; `Rows.Classify` tells them apart as `MissingDate` and `InvalidDate`.

## Model

| member | source | states |
|---|---|---|
| JsText.Trim | server.js:73 | the result is the input without its leading and trailing JavaScript whitespace: only spaces are cut, and none remain at the ends |
| JsText.TrimLowerTrim | server.js:96-99 | trimming again after lower-casing a trimmed label changes nothing |
| JsText.Contains | server.js:63 | `includes` holds exactly when the part occurs at some offset |
| JsText.KeepDigits | server.js:136 | the result holds only digits, is the input itself when that is all digits, and is empty when the input has none |
| JsText.KeepDigitsAppend | server.js:136 | digit stripping distributes over concatenation |
| JsText.DecimalValueAppend | server.js:137 | reading a concatenated digit string shifts the first part by the length of the second |
| JsText.CleanNum | server.js:135-138 | `cleanNum` is 0 exactly when every digit of the input is '0' (including no digits) |
| JsText.CleanNumAppend | server.js:135-138 | `cleanNum` of a concatenation is the first part's value shifted by the second's digit count, plus the second's |
| JsText.DecimalValueNatText | server.js:136-137 | parsing the decimal rendering of a natural number gives the number back |
| JsText.IntText | server.js:136 | `String(n)` of an integer is non-empty, starts with '-' exactly for a negative n, and the rest is all digits whose value is the magnitude of n |
| JsText.LowerCases | server.js:73 | `toLowerCase` leaves no capital letter, shifts each capital down by 32, keeps every other character, and is idempotent |
| JsText.UpperCases | server.js:132 | `toUpperCase` leaves no small letter, shifts each small letter up by 32, keeps every other character, and is idempotent |
| JsText.UpperTrimmed | server.js:132 | a trimmed and upper-cased string has no space at either end and no small letter |
| JsText.CleanNumIntText | server.js:136-137 | `cleanNum(String(n))` is the magnitude of n; the minus sign is dropped |
| Cells.CellText | server.js:132 | `String(c \|\| '')` is empty for every falsy cell; for a number its cleaned value is the number's magnitude |
| Cells.NormIdempotent | server.js:73 | normalising an already normalised cell's text changes nothing |
| Layout.FirstCalendarName | server.js:63 | the first index whose name contains "Cycle" and "Calendar", with no such name before it; None when there is none |
| Layout.SelectSheet | server.js:63 | None exactly for no sheets; otherwise no later than any calendar-named sheet and calendar-named itself if one exists; the first sheet when none is |
| Layout.HasLabelMeans | server.js:73-76 | a row has a label exactly when some cell's trimmed lower-case text equals it |
| Layout.IsHeaderRowMeans | server.js:74-78 | a row is a header exactly when some cell normalises to "cycle", some to "cycle date" or "date", and some to "type" |
| Layout.FindHeaderFrom | server.js:70-83 | from position i, the first qualifying row within the scan window, or None when no row of the window from i qualifies |
| Layout.FindHeader | server.js:70-87 | the header index is below 20 and the row count, it qualifies and no earlier row does; None exactly when no row among the first 20 qualifies |
| Layout.LabelKeyIsNorm | server.js:96-99 | the key a detected label is filed under is the string the header test compared, and it is empty exactly when the label is |
| Layout.MapColumns | server.js:96-100 | after n columns, every key points at the first of those columns carrying it, and every non-empty label among them is a key |
| Layout.ColumnMap | server.js:95-101 | every key is non-empty and maps to a column below 7 whose label it is, with no earlier column carrying it; every non-empty label of columns 0..6 is a key |
| Layout.Resolve | server.js:103-106 | the column of the first keyword, in list order, that the map knows; the fallback when it knows none |
| Layout.ResolvePair | server.js:104-105 | with two keywords: the first's column, else the second's, else the fallback |
| Layout.ResolveColumns | server.js:115-118 | the four lookups: cycle/"cycle #", zone, "cycle date"/date and type, each falling back to the fixed layout 0, 1, 3, 4 |
| Civil.YearStartStep | server.js:143-146 | each year starts a year length after the previous one |
| Civil.YearStartEra | server.js:143-146 | the Gregorian calendar repeats every 400 years (146097 days) |
| Civil.YearInEra | server.js:143-146 | the year of a 400-year cycle whose span holds a given day of the cycle |
| Civil.MonthOfYear | server.js:143-144 | the month whose span holds a given day of the year |
| Civil.CivilFromDays | server.js:143-146 | the calendar date of a day count is a valid date that counts back to the same day |
| Civil.DaysFromCivilInjective | server.js:146 | two valid dates with the same day count are equal |
| Civil.CivilRoundTrip | server.js:146 | converting a valid date to its day count and back returns the date |
| Civil.UtcDate | server.js:143-144 | the UTC date of an instant is a valid date whose day count is the instant's UTC day |
| Civil.SameUtcDate | server.js:146-147 | two instants share an ISO date key exactly when they share a UTC day number |
| Rows.SerialToTime | server.js:17-19 | an integer serial s is midnight UTC of day s - 25569 |
| Rows.ReadDate | server.js:120-130 | a missing cell is no date; a valid Date is used as is; a number is read as a serial; blank text and booleans are invalid; a non-blank string is read as exactly its parse when that is a valid time, and is never read otherwise; a serial is read as exactly `SerialToTime` of it and at the serial's UTC day; a Date outside the valid range is invalid; any read time is valid |
| Rows.TypeTextForm | server.js:132 | the type text of a row has no space at either end and no small letter |
| Rows.ParseKind | server.js:133 | a kind exactly for "R", "W" and "H", and the kind's letter is the text |
| Rows.MakeRecord | server.js:140-159 | the record is well formed; a non-zero cleaned cycle or zone is kept; a zero cycle becomes the UTC month (1..12) and a zero zone the UTC day (1..31); the flag is 1 exactly for a route day; version 1 |
| Rows.Classify | server.js:119-144 | accepted exactly when the date reads and the type is R/W/H; skipped as missing exactly for an empty date cell; the record carries the read time, the type letter and the cleaned or derived numbers |
| Rows.Outcomes | server.js:113-114 | one outcome per data row, in order, each the row's classification |
| Rows.MaxCycle | server.js:150 | an upper bound of every record's cycle number that is attained, and 0 for no records |
| Rows.Step | server.js:146-159 | one iteration adds exactly the accepted row's day to the seen set, extends the records by at most one without changing the earlier ones, and never lowers `maxCycle` |
| Rows.Fold | server.js:109-160 | the loop keeps at most one record per row |
| Rows.AppendSeen | server.js:147-148 | adding a record's day to the seen set keeps it equal to the set of the records' days |
| Rows.AppendDistinct | server.js:147-152 | appending a record whose day is unseen keeps all days distinct |
| Rows.AppendMax | server.js:150 | the maximum after an append is the larger of the old maximum and the new cycle |
| Rows.StepConsistent | server.js:146-159 | one loop iteration keeps the seen set equal to the records' days, the days distinct, and `maxCycle` their maximum |
| Rows.FoldConsistent | server.js:109-160 | after the loop, `seenDates` is the set of the records' days, no day occurs twice, and `maxCycle` is the largest cycle number |
| Rows.FirstOfDayPrefix | server.js:146-147 | whether a row is the first of its day depends only on the rows before it |
| Rows.KeptRows | server.js:146-148 | independent of the loop: the increasing indices of exactly the accepted rows that are the first of their UTC day |
| Rows.Picked | server.js:152-159 | the records at the given row indices, in that order |
| Survival.FoldSeenAllAcceptedDays | server.js:146-148 | after the loop the seen set holds exactly the days of all accepted rows |
| Survival.FirstIsUnseen | server.js:146-147 | an accepted row is the first of its day exactly when its day is not yet in `seenDates` |
| Survival.NotFirstIgnored | server.js:130-147 | a row that is not the first accepted row of its day leaves the loop state unchanged |
| Survival.FoldKeepsFirstOfEachDay | server.js:109-160 | `validRows` is exactly the first accepted row of each UTC day, in input order |
| Survival.EveryAcceptedDayKept | server.js:146-159 | every accepted row's UTC day appears among the records |
| Survival.RejectedRowIgnored | server.js:120-133 | a skipped row never changes the loop's state |
| Survival.RepeatedDayIgnored | server.js:146-147 | a row accepted on a day that an earlier row was accepted on never changes the loop's state |
| Survival.FoldRecordsWellFormed | server.js:152-159 | every kept record is well formed when every accepted record is |
| Survival.FoldEmptyIffNoneAccepted | server.js:162 | no record is kept exactly when no row is accepted |
| Upload.AcceptedWellFormed | server.js:113-159 | every record of an accepted data row is well formed |
| Upload.DataOutcomesMeans | server.js:89-93 | the data rows are the rows after the header, and each is classified with the columns resolved from the header's labels |
| Upload.Finish | server.js:162-164 | rejected with "no valid rows" exactly when every row is skipped; otherwise the loop's records, which are non-empty and well formed, on distinct days, with `maxCycle` their maximum and the year the first record's |
| Upload.FromHeader | server.js:89-164 | below a found header: rejected with "no valid rows" exactly when every data row is skipped, otherwise a sound calendar |
| Upload.NormaliseRows | server.js:67-164 | "header not found" exactly when no row among the first 20 qualifies; any success is a sound calendar |
| Upload.Normalise | server.js:62-164 | "header not found" for an empty workbook, and exactly when the workbook is empty or the chosen sheet has no header; any success is a sound calendar |
| Upload.NormaliseKeepsFirstOfEachDay | server.js:109-162 | once a header is found, the upload succeeds exactly when some data row is accepted, and its records are the first accepted row of each day, in order |
| Examples.SerialEpochs | server.js:17-19 | serial 25569 is 1970-01-01 and serial 0 is 1899-12-30 |
| Examples.SerialExample | server.js:124 | a numeric date cell of 45000 reads as 2023-03-15 |
| Examples.ZeroRow | server.js:140-144 | a row with cycle and zone "0" takes its cycle from the date's month and its zone from the day |
| Examples.DerivationExample | server.js:140-144 | cycle and zone "0" with the date 2024-03-15 and type " r " give a route day of cycle 3, zone 15 |
| Examples.TypeFilterExample | server.js:132-133 | a type of "X" drops the row whatever its date |
| Examples.TitleRowNotHeader | server.js:73-78 | no one-cell row is a header, whatever its cell |
| Examples.TypeRejected | server.js:133 | a row whose date reads but whose type text is not R, W or H is skipped as an unknown type |
| Examples.SampleHeader | server.js:70-83 | in the sample sheet the header is found at row 3, after three title rows |
| Examples.FixedLabels | server.js:103-118 | a header labelled cycle, zone, (blank), date, type resolves to the fixed layout |
| Examples.PlainRow | server.js:119-159 | a data row with positive cycle and zone, a parsed date and a type letter is accepted as exactly that record |
| Examples.SameDayPair | server.js:146-150 | of two accepted rows on the same day only the first is kept |
| Examples.FinishSameDay | server.js:146-164 | two well-formed accepted rows on the same day give a calendar of the first alone, its cycle and its year |
| Examples.SampleUpload | server.js:63-164 | the sample workbook, with two rows for 2024-01-05, yields one route-day record, a cycle count of 1 and year 2024 |

## Left out

- HTTP transport: the Express routes, the multer upload, the status codes, and the removal of the uploaded file. These are I/O.
- Persistence: the Prisma client lookup or creation, the overwrite check and the inserts. These are database side effects; the model stops at the normalised rows.
- The spreadsheet reader (`XLSX.readFile`, `sheet_to_json`). It is a library, so a workbook is given as a list of named sheets whose rows are lists of cells.
  - Its `blankrows: false` filtering is not modelled.
  - The data rows are taken as exactly the rows after the header index. The second read at lines 89-93 uses a sheet-row `range`, and that offset is not modelled.
- Rows.SerialToTime: takes integer serials only, so `Math.round` on a fractional serial is not modelled. Numeric cells are integers throughout the model.
- Cells.CellText: does not model the exponent notation that `String(n)` uses from 1e21 upward.
- JsText.CleanNum: does not model the precision loss of `parseInt` on very long digit strings. It also omits the `isNaN` test at line 150, which an exact integer always passes.
- JsText.Lower: maps ASCII letters only, as does JsText.Upper. Every string the handler compares against is lower-case ASCII ("cycle", "date", "type", ...) or upper-case ASCII ("R", "W", "H"). Full Unicode case mapping gives a different result only for non-ASCII characters. The one exception is a character that maps into ASCII, such as U+212A KELVIN SIGN to "k", which no compared label contains.
- `new Date(string)` and `String(date)` are host-defined. They are the parameters `Host.parseDate` and `Host.dateText`, with no assumptions about them.
- Upload.Normalise: the year is the UTC year of the first record. The handler uses the local-time `getFullYear()`, which depends on the host's time zone and can differ around New Year.
- `Date.now()` in the cycle code (line 165) is the wall clock, and is left out with the rest of the persistence step.
- `colMap` is a plain object, so the `in` test at line 99 also sees inherited names. A label such as "constructor" therefore counts as present and is never filed. The model's map holds every non-empty label; no keyword that `getVal` looks up is such a name, so the resolved columns are the same.
- The Angular front end: UI state and HTTP calls.
