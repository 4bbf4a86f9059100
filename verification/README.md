# Payslip viewer: a Dafny model of its request and data rules

The payslip viewer is a small Express application. Employees log in with LINE,
pick a month and see their payslip as HTML or download it as a PDF. An offline
script imports the payroll sheet. Around its file, database, network and PDF
calls the application applies a handful of pure, sequential rules, and this
project models those rules as immutable data and pure functions:

- **Payslip aggregation** (`processPayslipData`, and the copy of its loop inside
  the PDF route). One pass over a record's fields keeps every `allowance_*`
  and `deduction_*` field whose `Number` value is neither 0 nor NaN. It labels
  each kept field with its display name and sums each kind into a total.
- **Template filling.** A fixed chain of literal `{{token}}` replacements.
  Every token except `{{downloadButton}}` is replaced at all of its
  occurrences; `{{downloadButton}}` only at its first. The HTML view and the
  PDF view differ in how they print absent scalars and in what replaces the
  button.
- **The CSV import.** It builds the display-name map from the label and key
  rows and finds each row's user id column. It drops empty cells, turns
  comma-grouped numbers into numbers, and groups the records per user in row
  order.
- **The employee file** `data/employees.csv`. The listed ids, the duplicate
  check of a registration, the appended line, and the header written when the
  file is created.
- **Month lists.** The month selection page offers the distinct months in
  first-occurrence order. `getAvailableMonths` returns the sorted, distinct
  months of every user.
- **The request gates.** Each route handler is a function from its query
  parameters, its session and the answers of its store queries to a
  response. The routes are the LINE login and its callback, the month
  selection, the payslip page, the PDF download and the registration form.

Files, store queries, LINE API calls and the PDF renderer are parameters:
`Option` for a file that may not exist, `Result` for a request that may fail.
JavaScript objects are ordered sequences of `(key, value)` pairs, read with
`Get` (the first entry with the key) and written with `Put` (overwrite in
place, or append a new key).

Modules, one per source file or shared concern:

| module | file | models |
|---|---|---|
| `Wrappers` | wrappers.dfy | `Option`, `Result` |
| `Strings` | strings.dfy | `startsWith`, `includes`, `indexOf`, `split`, `join`, `replace` (first and global, literal), `trim`, `toLowerCase`, string order |
| `JsValues` | jsvalues.dfy | record values, `Number()` on integers, truthiness, `String()`, `toLocaleString()`, objects as ordered entries |
| `Http` | http.dfy | responses, `!!req.query.x`, query strings |
| `Accumulate` | accumulate.dfy | `findIndex`, runs of property assignments, grouping, `[...new Set(xs)]` |
| `Helpers` | helpers.dfy | utils/helpers.js |
| `Template` | template.dfy | the replacement chains of routes/payslip.js and routes/ppdf.js |
| `EmployeesCsv` | employees.dfy | reading `data/employees.csv` |
| `PdfRoute` | ppdf.dfy | routes/ppdf.js |
| `PayslipRoute` | payslip.dfy | routes/payslip.js |
| `CsvImport` | csvimport.dfy | convert-csv.js |
| `Register` | register.dfy | routes/register.js |
| `SelectRoute` | select.dfy | routes/select.js |
| `AvailableMonths` | months.dfy | utils/getAvailableMonths.js |
| `Auth` | auth.dfy | routes/auth.js |

## Behaviour the proofs make explicit

These are properties of the code as written, each proved as a lemma:

- `processPayslipData` calls `Number(payslip[key])` on the raw value.
  `Number("5,000")` is NaN, so a field whose text holds a comma is skipped
  (`Helpers.SeparatedTextIsSkipped`). Only the import strips commas
  (`CsvImport.ConvertCell`), so a record that went through the import
  carries numbers and is not affected.
- The month form of `/select` sends the uuid as `u`. `/payslip` reads
  `userId`, so submitting the form always gets 400
  (`SelectRoute.MonthFormReachesPayslipWithoutUserId`).
- The login callback and the registration page send a listed user to
  `/select?userId=…`. `/select` reads `u`, so that redirect always gets 400
  (`Auth.SelectRedirectsLackU`).
- The registration duplicate check compares the untrimmed first field.
  The "already registered" check of `GET /register` and the id list of
  `/payslip` trim it.
- An employee file whose last line has no line break swallows the next
  registration into that line. The same id can then register twice
  (`Register.UnterminatedFileAdmitsDuplicate`).
- `/payslip` decodes an absent month to the text `undefined`, so only an
  empty month is refused with 400. A missing `daysWorked`, `workHours` or
  `overtimeH` prints as `undefined` in the HTML view but as nothing in the
  PDF (`Template.MissingScalarRendering`).
- `/payslip` and `/ppdf/pdf` check only that the user id is listed, not that
  it is the logged-in user. `/select` is the only route that compares with
  the session.
- The ownership check of `/select` uses `!==`. With nobody logged in it
  refuses every employee row that has a `line_user_id` column
  (`SelectRoute.LoggedOutIsForbidden`).
- `getAvailableMonths` throws when a user's entry is a single record rather
  than a list, because `forEach` is not defined on it
  (`AvailableMonths.AllMonths`).

## Model

| member | source | states |
|---|---|---|
| Helpers.PrefixesExclusive | utils/helpers.js:8-15 | no field is kept for both the allowance and the deduction branch, so no field feeds both totals |
| Helpers.ProcessPayslip | utils/helpers.js:1-19 | every allowance row carries `allowance_` and a non-zero amount; every deduction row carries `deduction_` and a non-zero amount; each total is the sum of its rows; at most one row per field |
| Helpers.ProcessPayslipIsKeptLines | utils/helpers.js:7-16 | the combined loop builds exactly the rows of two independent single-prefix passes |
| Helpers.RowsFollowKeptFields | utils/helpers.js:7-13 | exactly one row per kept field, in field order; each row is the field's key, its label (`displayNames[key]` when non-empty, else the key) and its `Number` value |
| Helpers.TotalsAreSumsOfKeptFields | utils/helpers.js:8-15 | each total equals the sum, taken front to back, of the numeric values of exactly the kept fields of its kind |
| Helpers.SkippedFieldIsIgnored | utils/helpers.js:8-15 | removing a field whose key has neither prefix, or whose `Number` is 0 or NaN, changes neither rows nor totals |
| Helpers.NothingKeptGivesEmpty | utils/helpers.js:2-18 | a record without kept fields gives two empty row lists and two zero totals |
| Helpers.SeparatedTextIsSkipped | utils/helpers.js:8-14 | any text holding a comma, such as `"5,000"`, is NaN to `Number`, so it feeds neither rows nor totals |
| PdfRoute.AddIfKept | routes/ppdf.js:63-70 | one `if` of the inline loop: a kept field appends its HTML row and adds its value; any other field changes nothing |
| PdfRoute.AggregateInline | routes/ppdf.js:57-71 | the inline loop of the PDF route produces the same HTML rows and totals as `processPayslipData` on the same record |
| PdfRoute.HandlePdf | routes/ppdf.js:13-110 | 400 exactly when `userId` or `month` is missing; 403 for a user without an employee row, whatever the salary store holds; 404 exactly when a listed user has no salary row; a PDF only for a listed user with a row, filled from the first row without the download button |
| Template.DownloadLink | routes/payslip.js:54 | the link contains `/ppdf/pdf?userId=<userId>&month=<month>` |
| Template.ReplaceButton | routes/ppdf.js:86 | replacing `{{downloadButton}}` with a literal pattern rewrites only its leftmost occurrence and keeps the text before and after it, later buttons included |
| Template.RenderPdf | routes/ppdf.js:75-86 | after the global replacements, the first `{{downloadButton}}` (leftmost occurrence) is cut out and the text after it, later buttons included, is kept |
| Template.RenderView | routes/payslip.js:42-54 | after the global replacements, the first `{{downloadButton}}` is replaced by the download link for the same user and month, and later buttons are kept |
| Template.PlainTemplateUnchanged | routes/ppdf.js:75-86 | a template without `{{` comes out of both views unchanged |
| Template.ViewsAgreeOnPresentScalars | routes/ppdf.js:78-80 | when `daysWorked`, `workHours` and `overtimeH` are present and truthy, both views fill every all-occurrence placeholder alike |
| Template.SubstituteAllAt | routes/payslip.js:44-53 | the chain of global replacements can be cut at any step: the steps before it, then every occurrence of that step's placeholder in the text so far replaced by its text, then the steps after it |
| Template.MissingScalarRendering | routes/ppdf.js:78-80 | in any template, at the step of an absent `daysWorked`, `workHours` or `overtimeH`, every occurrence of its placeholder becomes the empty string in the PDF view and `undefined` in the HTML view (routes/payslip.js:46-48) |
| Template.MissingDaysWorkedExample | routes/payslip.js:46 | for the template `{{daysWorked}}` without that field, the whole PDF page is empty and the whole HTML page is `undefined` |
| Strings.ReplaceAllIsJoinOfSplit | routes/ppdf.js:76-85 | replacing a token at all occurrences is splitting on the token and joining with the replacement |
| Strings.ReplaceFirstAtIndexOf | routes/ppdf.js:86 | replacing the first occurrence rewrites the text at the leftmost `indexOf` position and nothing else |
| Strings.JoinSplit | routes/payslip.js:24 | splitting on a separator and joining with it gives the text back, so `split` loses nothing |
| JsValues.FormatAmountRoundTrip | convert-csv.js:65-67 | an amount printed by `toLocaleString` is read back by the comma-stripping conversion as the same integer |
| JsValues.PutKeys | convert-csv.js:69 | assigning a property keeps the key order and appends a new key at the end |
| PayslipRoute.SelectedMonth | routes/payslip.js:11 | a missing month decodes to the text `undefined`; a sent month is kept |
| PayslipRoute.FirstWithMonth | routes/payslip.js:36 | `None` exactly when no record has the month; otherwise the first record whose `month` is strictly equal to it |
| PayslipRoute.ChoosePayslip | routes/payslip.js:36 | a single record is chosen whatever the month; from a list, the first record with the month, and none when no record has it |
| PayslipRoute.HandlePayslip | routes/payslip.js:9-58 | 400 exactly when `userId` is missing or the month is empty; 500 exactly when the employee file is missing, or the payslip file cannot be read for a listed user; 403 exactly when the user is not listed; 404 exactly when a listed user has no entry or no record of the month; a page only for a listed user, showing the chosen record with the download link |
| PayslipRoute.ShownMonthIsSelected | routes/payslip.js:36 | from a list, the shown record is of the month asked for |
| PayslipRoute.NumericMonthNeverMatches | routes/payslip.js:36 | records whose month is a number are never found, because `===` compares with the query text |
| EmployeesCsv.NonEmpty | routes/payslip.js:25 | `filter(Boolean)` keeps exactly the non-empty ids |
| EmployeesCsv.EmployeeIdsListLines | routes/payslip.js:24-25 | an id is listed exactly when it is non-empty and some line after the header has it, trimmed, before its first comma |
| CsvImport.HeaderKeys | convert-csv.js:28-30 | the header keys are the fields of the second line, each trimmed |
| CsvImport.DisplayNameOfColumn | convert-csv.js:32-36 | a column with non-empty key and label maps its trimmed key to its trimmed label, unless a later such column has the same trimmed key |
| CsvImport.DisplayNamesFromColumns | convert-csv.js:32-36 | every display name comes from a column with a non-empty key and label |
| CsvImport.UserIdOf | convert-csv.js:45-51 | a kept row's id is non-empty; a row without a user-id column is read at the property `undefined`, trimmed, and skipped when that cell is absent or blank |
| CsvImport.UserIdIsFirstColumn | convert-csv.js:45-51 | the id is the trimmed cell of the first column whose trimmed, lower-cased name is `userid`; an empty one skips the row |
| CsvImport.ConvertCell | convert-csv.js:65-67 | a cell that is a number once its commas are removed becomes that number; any other cell is kept as text |
| CsvImport.RowKeys | convert-csv.js:41 | a row has a key exactly when some cell of the line is stored under it: its column's header key, or `_<index>` for a cell past the last header |
| CsvImport.ExtraCellIsNoAmount | convert-csv.js:59-70 | the `_<index>` field of a cell past the last header matches neither the allowance nor the deduction prefix, so the aggregation never uses it |
| CsvImport.PayslipFieldPresence | convert-csv.js:59-70 | a record has a field exactly when some non-empty cell has that trimmed key |
| CsvImport.PayslipFieldValue | convert-csv.js:59-70 | a field holds the converted value of the last non-empty cell with that trimmed key |
| CsvImport.GroupFilesRecords | convert-csv.js:55-72 | a user's entry lists the records of exactly the rows with that id, in row order; a user without rows has no entry |
| CsvImport.Import | convert-csv.js:27-72 | the grouped payslips have each user once |
| CsvImport.ImportReadsPrintedAmounts | convert-csv.js:65-67 | an amount as the payslip page prints it is imported back as the same number |
| Accumulate.FirstTrue | convert-csv.js:45 | `findIndex`: `None` exactly when no flag is set, else the first set flag |
| Accumulate.LastAssignmentWins | convert-csv.js:69 | after a run of property assignments, a key holds the last value assigned to it |
| Accumulate.AssignedKeys | convert-csv.js:62-69 | a key is present exactly when some assignment wrote it; skipped cells write nothing |
| Accumulate.LastMapAssignmentWins | convert-csv.js:34 | in the display-name map too, the last assignment to a key wins |
| Accumulate.CollectFiles | convert-csv.js:55-72 | grouping lists under each key exactly its values in item order, and a key with no items is absent |
| Accumulate.FiledMembers | convert-csv.js:72 | a value is filed under a key exactly when some item carries it with that key |
| Accumulate.Distinct | routes/select.js:67 | the values of `[...new Set(xs)]` are exactly those of `xs`, with no repeats |
| Accumulate.DistinctKeepsFirstOccurrenceOrder | routes/select.js:67 | the distinct values come out in the order of their first occurrence |
| Register.RegisterGet | routes/register.js:9-33 | 400 exactly when `userId` is missing; a redirect to `/select?userId=<id>` exactly when a line after the header has the id, trimmed, as first field; else the sign-up form for the id |
| Register.GetAgreesWithEmployeeIds | routes/register.js:17-26 | the registration page sends a user on exactly when the payslip page lists the user |
| Register.NewLine | routes/register.js:61 | the new line starts with `userId,` and ends with a line break |
| Register.PostResponse | routes/register.js:36-72 | a saved registration redirects to `/register/success`; a refused one is 400 |
| Register.RegisterPost | routes/register.js:36-72 | 400 exactly when a field is missing; duplicate exactly when a line after the header has the id, untrimmed, as first field; the old content is kept as a prefix; a new file starts with the header; the content ends with a line break |
| Register.SavedIsAppend | routes/register.js:61-68 | the saved content is the old content, or the header when there was no file, followed by the new line |
| Register.SavedContentShape | routes/register.js:61-68 | for no file or a file ending in a line break, the saved content is the text before that line break (or the header's columns), a line break, and `userId,name,department` with a line break |
| Register.SecondRegistrationRejected | routes/register.js:45-67 | after a registration of an id without comma or line break, registering the same id again is refused, provided the file ended with a line break |
| Register.RegisteredUserIsListed | routes/register.js:17-67 | after a registration of an id without surrounding white space, the payslip page lists the id and the registration page redirects it |
| Register.UnterminatedFileAdmitsDuplicate | routes/register.js:45-67 | when the file's only line has no line break, the same id registers a second time |
| SelectRoute.HandleSelect | routes/select.js:9-80 | 400 exactly when `u` is missing; 404 exactly for an unknown uuid, a failed lookup, or an owner without salary rows; 403 exactly when the row's `line_user_id` is not strictly the session user; 500 exactly when the salary query fails past that; the page exactly for the owner with at least one salary row, offering the distinct months |
| SelectRoute.LoggedOutIsForbidden | routes/select.js:34-41 | with nobody logged in, a row with a `line_user_id` column is refused with 403 |
| SelectRoute.MonthListIsFirstOccurrences | routes/select.js:67 | the month list holds every month of the salary rows and only those, once each, in first-occurrence order |
| SelectRoute.OptionTagsAppend | routes/select.js:68 | the options of a month list are the options of its parts in order |
| SelectRoute.OneOptionPerMonth | routes/select.js:68 | one month gives exactly one `<option>` |
| SelectRoute.FormQuery | routes/select.js:70-79 | the form sends the uuid as `u` and the chosen month as `month` |
| SelectRoute.MonthFormReachesPayslipWithoutUserId | routes/select.js:70-79 | the form sends no `userId`, so the payslip page answers every submission with 400 |
| AvailableMonths.SortsBeforeIrreflexive | utils/getAvailableMonths.js:21 | no month sorts before itself |
| AvailableMonths.SortsBeforeTransitive | utils/getAvailableMonths.js:21 | the default sort order is transitive |
| AvailableMonths.Insert | utils/getAvailableMonths.js:21 | inserting gives a permutation of the list plus the new month, keeps a sorted list sorted, and keeps a list free of repeats |
| AvailableMonths.Sort | utils/getAvailableMonths.js:21 | `sort()` returns a permutation of its input that is sorted, with `undefined` last, and keeps a list free of repeats |
| AvailableMonths.AllMonths | utils/getAvailableMonths.js:14-19 | an error exactly when some user's entry is not a list; otherwise exactly the months of every record of every user |
| AvailableMonths.GetAvailableMonths | utils/getAvailableMonths.js:6-22 | an error when the file is missing; otherwise sorted, free of repeats, and holding exactly the months that occur |
| AvailableMonths.TextMonthsStrictlyIncrease | utils/getAvailableMonths.js:12-21 | when every month is text, the list is strictly increasing in string order |
| Auth.AuthorizeUrl | routes/auth.js:17 | the authorization URL carries `&state=<nonce>&` |
| Auth.StartLogin | routes/auth.js:13-20 | the nonce is stored as the session's state and the browser is sent to a URL carrying it |
| Auth.LandingPage | routes/auth.js:82-93 | the target is `/select?userId=<id>` when an employee row has the LINE id, else `/register?userId=<id>` |
| Auth.Callback | routes/auth.js:23-98 | an `error` parameter gives 400 and leaves the session alone; 400 exactly for an error or a missing code; past those the stored state is cleared; 403 exactly on a missing or mismatched state; 500 exactly when LINE or the store fails past that; the session user changes only on the redirect, which logs in the LINE user |
| Auth.FreshStatePasses | routes/auth.js:13-43 | a callback carrying the state the login stored is not refused with 400 or 403 |
| Auth.StateIsOneShot | routes/auth.js:38-43 | once a callback got past the code check, replaying it is refused with 403 |
| Auth.SelectRedirectsLackU | routes/auth.js:87 | the login redirect of a listed user carries only `userId`, so the month selection answers it with 400 |
| Auth.LoginAndRegisterUseTheSameLocation | routes/auth.js:82-87 | the login redirect of a listed user and the registration page's redirect go to the same location |

## Left out

- File and database access, the LINE API calls and the PDF renderer: their
  results are parameters (`Option` for a missing file, `Result` for a failed
  read or request), and the renderer's success is a boolean.
- Message texts of the error pages: a response is reduced to its status, its
  redirect target or its page body.
- Floating point: amounts are integers. `Number()` accepts white space
  around an optional sign and decimal digits, and the empty text is 0.
  Decimals, exponents, hex, `Infinity` and fractional sums are not
  modelled.
- Locale: `toLocaleString` is the `en-US`/`ja-JP` integer form, with
  thousands separators and a leading minus.
- `Strings.Trim`: removes the common white space (ASCII white space, no-break
  space, ideographic space, byte order mark), not every Unicode space
  separator.
- `Strings.ToLower`: lower-cases ASCII letters only.
- String order is by code point rather than by UTF-16 code unit. The two
  differ only outside the Basic Multilingual Plane.
- `String.prototype.replace` is modelled literally. The `$&`-style
  patterns in a replacement text are not expanded.
- `for…in` visits integer-like keys first: records keep their insertion
  order instead.
- Records are sequences of typed values (text, integer, `null`). Nested
  objects, booleans and arrays inside a record are not modelled.
- Prototype properties such as `constructor` are not visible to `Get`.
- A record is assumed to hold each key once, as a JavaScript object does.
  For a record with a repeated key, the aggregation would count every entry
  while `Get` reads the first. Every record the import builds has unique
  keys.
- `JSON.parse` of a malformed `payslips.json` throws. That exception is
  outside the model; the parsed file is a parameter.
- `payslips.json` entries that are neither a list nor an object are not
  modelled.
- Query strings are split on `&` and `=` without percent-decoding and
  without the array and nested forms of Express's parser.
- `decodeURIComponent` and `encodeURIComponent` are not modelled. The month
  of `/payslip` is taken as sent, and the callback URL of the login is a
  parameter.
- The random nonce of `GET /auth` is a parameter.
- The LINE profile always carries a user id.
- Shift_JIS decoding, line reading and the cell quoting of `csv-parser`
  happen before the import: rows arrive as cell lists.
- The store queries' filtering (`eq`, `maybeSingle`) happens before the
  handlers: `/ppdf/pdf` receives the rows of the user and month, and
  `/select` receives the employee row of the uuid and its salary rows.
- `GET /register` sends a second response after rendering the form; that
  second send fails at run time and is not modelled.
- The success page of the registration, the logout route, `app.js`, the
  webhook and `routes/months.js` are not part of this model.
  `routes/months.js` only turns `getAvailableMonths` into JSON or a 500.
- Sessions, cookies and CSRF tokens are outside the model; the callback
  receives and returns the two session entries it uses.
- Concurrent requests are not modelled. That includes the race between the
  duplicate check and the append of two simultaneous registrations.
- AvailableMonths.Sort: the insertion places an element after every
  element it does not sort before, so the sort is stable like JavaScript's.
  No contract states that stability; for distinct values with the same
  string form the output order is not promised.
- CsvImport.Import: its own contract states only that each user appears
  once. What the grouped records and display names hold is stated by
  `CsvImport.GroupFilesRecords` and `CsvImport.DisplayNameOfColumn` about
  its parts.
