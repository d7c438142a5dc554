# Club registration store — a Dafny model

This project models the core of a small club-registration web app (app.py). Applicants post a form with name, student id, class, a first and a second choice, and an introduction. The app keeps two tables:

- `Reg`: the registrations, where `stu_id` is not declared unique and every query takes the first row that has it.
- `Config`: string flags. `allow` says whether registration is open. `allow_edit` says whether editing is open. A missing row reads as open.

An administrator can flip either flag, export every registration ordered by choice, delete one registration by student id, or delete them all.

The model has these modules:

- `Text`: Python's `str.strip()` and `s[:n]`, and the code-point order SQLite's BINARY collation uses for `ORDER BY`.
- `Flags`: the config map, the flag reading with its fail-open default, the toggle and the startup initialisation.
- `Records`: the registration row, the first-match lookup and the invariant "at most one row per student id".
- `Submission`: the form's POST path as a function from table, config and form to the page outcome and the new table.
- `Download`: the export ordering (a stable insertion sort proved sorted and a permutation) and the spreadsheet rows.
- `App`: the class `RegistrationSystem`. It has one field per table and one method per handler. Its constructor is the startup block.

Each handler returns an outcome value in place of the rendered page. The key invariant is `UniqueIds`. Every mutating method keeps it (`Submit`, `DeleteOne`; `DeleteAll` leaves no rows; `Admin` does not touch the table). The lemmas of `Submission` prove it for the pure step.

## Model

| member | source | states |
|---|---|---|
| `Text.Strip` | app.py:45-46 | `str.strip()`: the result is no longer than the input and neither starts nor ends with a character `str.isspace()` accepts |
| `Text.StripIsTrimmedSlice` | app.py:45-46 | the stripped string is a contiguous slice of the input, and everything cut off at both ends is whitespace |
| `Text.StripIdempotent` | app.py:94-95 | stripping an already stripped name or id changes nothing |
| `Text.Truncate` | app.py:55 | `intro[:200]`: the result is a prefix of the input of length min(len, 200) |
| `Flags.Flag` | app.py:30-36 | a flag reads true when its key is absent, and otherwise exactly when the stored value is "1" |
| `Flags.Toggle` | app.py:110-111 | flipping an existing row stores `Flipped` of its value ("1" becomes "0", anything else "1") and leaves every other key and the key set unchanged |
| `Flags.ToggleFlipsFlag` | app.py:109-111 | toggling a present key negates the flag it reads as |
| `Flags.ToggleTwice` | app.py:111 | toggling twice gives back the same flag reading, and leaves "1" if the row held "1", else "0" |
| `Flags.ToggleTwiceRestores` | app.py:111 | toggling twice restores the config exactly when the row held "0" or "1" |
| `Flags.ToggleRequest` | app.py:108-116 | one admin POST flips `allow` exactly when `toggle` is present and `allow_edit` exactly when `toggle_edit` is present; the key set and all other rows stay |
| `Flags.ToggleRequestFlips` | app.py:108-116 | each toggle field present flips only its own flag, both flip when both are present, and all other keys stay |
| `Flags.Initialized` | app.py:161-167 | startup adds each missing flag row with "1", keeps every existing row's value, and adds no other key |
| `Flags.InitializedKeepsFlags` | app.py:161-167 | startup initialisation does not change how any flag reads |
| `Flags.InitializedIdempotent` | app.py:161-167 | running the startup block again changes nothing |
| `Records.FindFirst` | app.py:47 | `filter_by(stu_id=...).first()`: returns the lowest index holding the id, or none exactly when no row holds it |
| `Records.RemoveAt` | app.py:148 | deleting a row drops exactly that row and keeps the others in order |
| `Records.UniqueIdsCount` | app.py:18 | under the invariant every id is held by at most one row, and by exactly one when some row holds it |
| `Records.RemoveAtKeepsUnique` | app.py:144-149 | deleting any row keeps "at most one row per student id" |
| `Records.RemoveFirstLeavesNone` | app.py:147-148 | under the invariant, deleting the first match leaves no row with that id |
| `Records.FirstMatchIsOnlyMatch` | app.py:96-101 | under the invariant the first match has a given name exactly when some row has both that id and that name |
| `Records.AppendFreshKeepsUnique` | app.py:60-68 | appending a row whose id no row holds keeps the invariant |
| `Submission.NewReg` | app.py:61-68 | a new row holds the stripped name and id, the submitted class and choices, the introduction cut to 200 characters and the insert time |
| `Submission.Revised` | app.py:53-55 | an update sets both choices and the cut introduction and keeps name, id, class and time |
| `Submission.SubmitStep` | app.py:39-72 | the outcome is `Closed` exactly when registration is closed; only a create grows the table, by one row; closed and conflict leave it unchanged |
| `Submission.SubmitWhenClosed` | app.py:41-42 | with registration closed a POST changes nothing and shows the closed page |
| `Submission.SubmitFreshId` | app.py:60-72 | a stripped id no row holds appends exactly one new row at the end and reports it created |
| `Submission.SubmitConflict` | app.py:48-52 | a first match with a different stripped name is a conflict and changes nothing |
| `Submission.SubmitUpdate` | app.py:53-59 | a first match with the same name changes only that row's choices and introduction; the count and all other rows stay |
| `Submission.SubmitKeepsUniqueIds` | app.py:44-69 | every submission keeps "at most one row per student id" |
| `Submission.SubmitThenLookup` | app.py:44-72 | from a table with at most one row per id: after a create or update, looking the id up finds the submitted name, choices and cut introduction, and exactly one row holds the id |
| `Submission.ResubmitUpdatesNotDuplicates` | app.py:44-72 | two submissions with the same name and id give one row with the second's choices and the first's class and time |
| `Submission.ToggleGatesSubmission` | app.py:41-42 | toggling `allow` on an open system makes a submission a no-op; toggling again reopens it; `allow_edit` is unaffected |
| `Download.RowOf` | app.py:130-131 | a data row has the header's seven columns, with the choices in columns four and five |
| `Download.ExportedIdsDistinct` | app.py:125-131 | from a table with at most one row per student id, the exported data rows show pairwise distinct student ids |
| `Download.SortKeepsUniqueIds` | app.py:125 | the export order keeps "at most one row per student id" |
| `Download.ChoiceLeTotal` | app.py:125 | any two rows are comparable under (first choice, second choice) order |
| `Download.ChoiceLeTransitive` | app.py:125 | the (first choice, second choice) order is transitive |
| `Text.StrLeTotal` | app.py:125 | SQLite's BINARY text order compares any two strings |
| `Text.StrLeAntisymmetric` | app.py:125 | two strings each no greater than the other are equal |
| `Text.StrLeTransitive` | app.py:125 | SQLite's BINARY text order is transitive |
| `Download.SortByChoices` | app.py:125 | `ORDER BY first_choice, second_choice`: the result is a permutation of the table and non-decreasing in (first, second) |
| `Download.SortedAllPairs` | app.py:125 | in the export order any earlier row is no greater than any later one |
| `App.RegistrationSystem.constructor` | app.py:161-167 | startup keeps the stored rows, initialises the config and leaves both flag rows present |
| `App.RegistrationSystem.AllowRegister` | app.py:30-32 | on when `allow` is absent, else exactly when it holds "1" |
| `App.RegistrationSystem.AllowEdit` | app.py:34-36 | on when `allow_edit` is absent, else exactly when it holds "1" |
| `App.RegistrationSystem.Submit` | app.py:39-72 | the new table and outcome are those of `SubmitStep` on the old state, the config is unchanged, and the id invariant is kept |
| `App.RegistrationSystem.FormView` | app.py:74-83 | closed page exactly when registration is closed; pre-filled from the first row of the session id exactly when that id is non-empty and some row holds it |
| `App.RegistrationSystem.EditLookup` | app.py:85-103 | registration closed is reported before editing closed; with both open, not-found exactly when no row has the stripped id, mismatch exactly when the first row with that id has another name, found exactly when it has the stripped name, and then the result is that first row; under the invariant found holds exactly when some row has both stripped values |
| `App.RegistrationSystem.Admin` | app.py:106-117 | the config becomes `ToggleRequest` of the old one, the flag rows stay present and the table is untouched |
| `App.RegistrationSystem.DeleteOne` | app.py:144-151 | 404 exactly when the field is absent or no row has the id, with nothing changed; otherwise the first match is removed; the invariant is kept |
| `App.RegistrationSystem.DeleteAll` | app.py:153-158 | the table is empty afterwards and the config is unchanged |
| `App.RegistrationSystem.ExportRows` | app.py:123-131 | record count + 1 rows, the fixed seven-title header of app.py:128 first, then one row per registration in `SortByChoices` order |

## Left out

- HTTP routing, templates, `flash`, `redirect` and the message texts: each handler returns an outcome value. `Admin`, `DeleteOne` and `DeleteAll` redirect, so they return at most a found/404 result.
- The database layer and `db.session.commit`: the tables are an in-memory sequence and map. Storage order stands for SQLite's row order in unordered queries.
- The surrogate primary key `id` of `Reg` is not modelled.
- The column widths `String(20)` / `String(50)`: SQLite does not enforce them and the code never cuts a name.
- The time of a row is an opaque integer passed to `Submit`, in place of `datetime.utcnow`. Its `strftime` formatting in the export is not modelled: the cell holds the time itself.
- The openpyxl workbook, the byte stream and the dated file name of the export: only the row sequence is modelled.
- `Download.SortByChoices`: ties keep storage order. SQLite's ORDER BY leaves the order among equal keys unspecified, so the model picks one valid order.
- `App.RegistrationSystem.FormView`: the session is a parameter. Nothing in app.py ever stores `stu_id` in the session.
- The admin page's GET (app.py:119-121) only shows `AllowRegister` and `AllowEdit`, so it has no member of its own. The preview page (app.py:139-142) only lists `records`, so it has none either.
- Missing form fields: the model assumes every field the handlers index is present. In app.py a missing `name`, `stu_id`, `first`, `second`, `intro` or `major_class` raises a 400 before anything changes; which fields are read depends on the branch taken.
- Concurrent requests and the check-then-act race between two submissions of a new id: the model is sequential.
- The missing admin authentication and `app.run`.
- `App.RegistrationSystem.Admin` requires both flag rows to exist. The code would fail on a missing row, and the constructor (the startup block) guarantees the rows.
