# Hospital roster backend — service-layer model

This project models the service layer (`dbService`) of a small hospital
administration backend, together with its start-up seeding rule. The
backend keeps four SQLite tables: `admin`, `hospital_info`, `staff` and
`duty`. Here each table is a sequence of rows plus its AUTOINCREMENT
high-water mark (`Tables.Table`). Every writing call (create, update and
delete of staff, create of duty, the hospital-info upsert, the password
change) is a pure transition from a database value to a `Step`, which holds
what the callback receives (an error or a value) and the database
afterwards. The read-only calls (`GetAllStaff`, `GetDutyByDate`,
`GetHospitalInfo`, `AdminLogin`) are plain functions of the database that
return the rows the query yields.

Modules, in dependency order:

- `Results`: `Option` and `Result`.
- `Tables`: one AUTOINCREMENT table. It covers rows in rowid order, `WHERE id = ?` selection, INSERT, UPDATE and DELETE by id, and `LIMIT 1` as "first row".
- `Schema`: the four row types, the database, the error type, and the invariant `Valid`. `Valid` says each table is well formed (ids increasing and at most the high-water mark), admin usernames are unique, and no two duty rows share a (staff_id, date, shift) triple.
- `Ordering`: SQLite's BINARY collation on text, with NULL first, as used by `ORDER BY ... ASC`.
- `StaffService`, `DutyService`, `HospitalService`, `AdminService`: the operations of `dbService`.
- `Seed`: `initDefaultData`.
- `Routes`: how a service outcome becomes an HTTP status and an error body.

Modelling choices:

- The clock is a parameter. Every call that writes a timestamp takes `now`, and the model makes no claim about its value.
- A request-body field is `Option<string>`. `None` stands for a field left out or sent as null; node-sqlite3 binds it as SQL NULL.
- JavaScript's `field || fallback` treats both `None` and `""` as missing (`Schema.Or`).
- A NULL written to a NOT NULL column is a `NotNull("table.column")` error. SQLite checks columns in declaration order, so the first NULL column is the one named. The statement changes nothing.
- `LIMIT 1` without ORDER BY returns the first row of the sequence. Under `Valid` this is the row with the smallest id, which is the row a rowid-order scan meets first.
- UPDATE and DELETE act on every row with the given id and report that count. Under `Valid` the count is 0 or 1 (`Tables.CountAtMostOne`).
- The roster query uses full LEFT JOIN semantics: each matching staff row gives one view, and no match gives one view with NULL name and department. The result is then sorted by (department with NULL first, shift). SQL leaves the order of rows with equal keys open. The model keeps them in table order, and its contracts state only sortedness and the exact multiset of rows.

Behaviour of the code worth knowing, all of it modelled as written:

- The arrange-duty and update-password routes answer 400 for every error their callback receives, NOT NULL failures included (server.js:351, 367). Every other route answers 500 on error (`Routes.ErrorStatus`).
- The update-info route answers `changes || lastID` (server.js:360). `changes` is 1 after both the UPDATE and the INSERT branch, so the answer is always 1 (`Routes.UpdateInfoAnswersOne`).
- updateStaff binds every field as given (server.js:182), so a field left out is written as NULL. For `position` and `status` that stores NULL. For `name` and `department` it is a NOT NULL error, raised only when a row with that id exists.
- The duty table declares a foreign key to staff (server.js:69), but SQLite enforces foreign keys only under `PRAGMA foreign_keys = ON`, which the code never issues. A duty row may therefore name a staff id that does not exist, and deleting a staff row keeps its duty rows (`DutyService.DeleteStaffLeavesOrphans`).

## Model

| member | source | states |
|---|---|---|
| Tables.CountAtMostOne | server.js:50-51 | in a well-formed table an id selects at most one row, so the `changes` of an update or delete by id is 1 when the id exists and 0 otherwise |
| Tables.First | server.js:228 | `LIMIT 1` yields no row exactly when the table is empty; otherwise it yields a row of the table that, in a well-formed table, has the smallest id |
| Tables.Insert | server.js:28 | an insert appends one row whose id is above the high-water mark, so no existing row has it, and it keeps the table well formed |
| Tables.SetWherePreservesWellFormed | server.js:180-183 | an UPDATE by id rewrites columns other than id, so the table stays well formed: ids still increase and stay within the AUTOINCREMENT high-water mark |
| Tables.DeleteWhere | server.js:189 | a delete by id keeps exactly the rows with another id, shrinks the table by the number removed, and keeps ids increasing |
| StaffService.CreateStaff | server.js:166-174 | a missing name or department is a NOT NULL error that changes nothing; otherwise exactly one row is appended with a fresh id above every id ever used, position defaulting to "" and status to "active"; the other tables are unchanged and `Valid` is preserved |
| StaffService.CreateThenList | server.js:157-174 | after a successful create, the staff listing is one row longer and contains the new id with the given name and department, position "" and status "active" when those were left out or empty |
| StaffService.UpdateStaff | server.js:177-185 | with no row of that id it reports 0 and changes nothing; with such a row a missing name or department is an error that changes nothing, and the call succeeds exactly when neither of those errors occurs; on success with such a row every row of that id gets exactly the four given values (NULL included) and the new updated_at, its created_at is kept, every other row and table is unchanged, and the reported count is the number of rows of that id |
| StaffService.UpdateThenRead | server.js:177-185 | updating an existing id in a valid database reports 1 change, and reading that id back gives exactly the last update's values |
| StaffService.UpdateUnknownIsNoop | server.js:177-185 | updating an id no row has reports 0 and leaves the database as it was |
| StaffService.DeleteStaff | server.js:188-190 | the staff table keeps exactly the rows with another id; the reported count is the number removed; the duty, admin and hospital tables are untouched |
| StaffService.DeleteThenCreate | server.js:188-190 | deleting an existing id reports 1 change, the id can no longer be read, and the next created staff row gets a different id |
| DutyService.CreateDuty | server.js:206-224 | the duplicate error occurs exactly when all three fields are given and some row already has that triple; a missing field is a NOT NULL error; every error leaves the database unchanged; the call succeeds exactly when all three fields are given and no row has the triple, and a success appends exactly one row with that triple and a fresh id; `Valid`, and with it the absence of duplicate triples, is preserved |
| DutyService.ArrangeTwice | server.js:206-224 | arranging a duty whose triple no row holds yet, twice, makes the first call insert it and the second call fail with the duplicate error and change nothing, and the only row holding the triple is the one the first call added |
| DutyService.OnDate | server.js:198 | the date filter keeps exactly the duty rows whose date equals the query, in table order, so in a well-formed table each appears once |
| DutyService.InsertSorted | server.js:199 | inserting into a roster sorted by (department, shift) gives a sorted roster with the same rows plus the new one |
| DutyService.SortViews | server.js:199 | the ORDER BY result is sorted by department (NULL first) and then shift, and is a permutation of its input |
| DutyService.GetDutyByDate | server.js:193-203 | the roster of a date is sorted by department then shift and holds exactly the left join of that date's duty rows with staff |
| DutyService.LeftJoinIsViews | server.js:195-197 | when staff ids are unique, the left join gives one view per duty row, carrying its staff member's name and department, or NULLs when no staff row matches |
| DutyService.GetDutyByDateExact | server.js:193-203 | in a valid database a view is in the roster of a date exactly when it is a duty row of that date joined with its staff row, or with NULLs; each such duty row appears exactly once, and the roster has as many entries as the date has duty rows |
| DutyService.DeleteStaffLeavesOrphans | server.js:188-203 | after deleting a staff member, their duty rows stay in the table and still appear in the roster of their date, with NULL name and department |
| DutyService.ViewLeTransitive | server.js:199 | the (department, shift) ordering used by ORDER BY is transitive |
| DutyService.ViewLeReflexive | server.js:199 | every roster row sorts at or before itself under the (department, shift) ordering; with transitivity and totality this makes the ORDER BY key a total preorder |
| DutyService.ViewLeTotal | server.js:199 | any two roster rows are comparable under the (department, shift) ordering |
| Ordering.TextLeAntisymmetric | server.js:199 | two texts that each sort at or before the other are equal |
| Ordering.TextLeTransitive | server.js:199 | text ordering under the BINARY collation is transitive |
| Ordering.TextLeTotal | server.js:199 | any two texts are comparable under the BINARY collation |
| HospitalService.GetHospitalInfo | server.js:227-229 | the query returns no row exactly when the table is empty, and otherwise a row of the table that, in a valid database, has the smallest id |
| HospitalService.UpdateHospitalInfo | server.js:232-251 | a missing name is an error that changes nothing; with a row present, the first row is overwritten in place (optional fields default to "", created_at kept), the row count is unchanged and, in a valid database, the other rows are untouched; with no row, exactly one row is inserted, with an id above every id the table ever handed out; the reported count is 1 in a valid database; `Valid` is preserved |
| HospitalService.UpdateThenGet | server.js:227-251 | after a successful update, reading the info returns the values just written with the new updated_at |
| HospitalService.UpsertKeepsOneRow | server.js:232-251 | on an empty table the first update inserts one row, and a second update rewrites that same row, so the table keeps exactly one row |
| AdminService.FindLogin | server.js:256-259 | finds a row exactly when some row has both the username and the password, and what it finds is such a row |
| AdminService.AdminLogin | server.js:254-261 | login returns a row if and only if both fields are given and some admin row has that username and that password; a mismatch is no row, not an error |
| AdminService.ChangeAdminPassword | server.js:263-278 | an empty admin table gives "account not found"; a first row whose password differs from the old password gives "incorrect old password"; a missing new password is a NOT NULL error; every failure leaves the database unchanged; in a valid database success sets only the first row's password and updated_at; the other tables are unchanged and `Valid` is preserved |
| AdminService.ChangeThenLogin | server.js:254-278 | after a successful change, the first admin logs in with the new password, and no longer with the old one when the two differ |
| AdminService.WrongOldPasswordKeepsLogin | server.js:263-270 | a wrong old password fails and the stored credentials still log in |
| Seed.InitDefaultData | server.js:96-147 | afterwards admin and hospital_info each have at least one row; a table that already had rows is unchanged; an empty one gets exactly the default row, stamped with the moment of its own insert (the admin and hospital inserts read the clock separately); staff and duty are untouched; `Valid` is preserved |
| Seed.SeedIdempotent | server.js:96-147 | seeding again, at any later time, changes nothing |
| Seed.SeededDefaultsUsable | server.js:106-145 | on a fresh database the default admin credentials log in and the hospital info query returns the default row |
| Routes.LoginReply | server.js:317-322 | the login route always answers 200, with a null body exactly when no admin row has that username and password |
| Routes.UpdateInfoAnswersOne | server.js:357-362 | in a valid database a successful update-info always answers 1, so the fallback to the last inserted id never decides the answer |
| Routes.ValidationFailuresAre400 | server.js:349-370 | a duplicate duty, a missing admin account and a wrong old password reach the client as status 400 with their message |
| Routes.StaffConstraintErrorsAre500 | server.js:325-338 | a missing name or department on add-staff, and on update-staff when it fails, is answered with status 500 |

## Left out

- The Express application (routing, CORS, JSON parsing, `app.listen`) is left out as HTTP plumbing. Only the outcome-to-status mapping (`Routes`) is kept.
- Opening the SQLite file, the CREATE TABLE statements and closing the handle on SIGINT are left out as I/O. The model starts from the four empty tables (`Schema.EmptyDb`).
- Storage failures are left out: connection errors, query errors and the full-disk case. The model's database never fails, so the `err` pass-through branches and the one-second retry in `initDefaultData` are not modelled.
- Concurrency is left out. The model is sequential, so the race windows of the duty check-then-insert and of the hospital-info upsert are outside it.
- Timestamps are left out: `new Date().toISOString()` is a caller-supplied value with no stated properties.
- Request fields of any other JSON type are left out: a text field sent as a number, or a `staff_id` sent as text such as "1", which SQLite's INTEGER affinity would convert. Text fields are text or absent, and `staff_id` is an integer or absent.
- SQLite's conversion of the text `:id` route parameter to an integer is left out; ids are integers in the model.
- `getAllStaff` is the identity on the staff table. It has no contract of its own and appears in `StaffService.CreateThenList`.
- utils.js, the spreadsheet import utility, is not part of this model. It is driven by a spreadsheet library's object shapes and is not wired to the service layer.
- The 64-bit rowid limit is left out; ids are unbounded integers.
