# Attendance backend — a Dafny model

This project models the request handlers of a small attendance-tracking
backend. The backend is an Express server over three SQLite tables:

- `users`: administrators, faculty and students, with an approval flag;
- `students`: the roster, keyed by roll number;
- `attendance`: one row per student, day and status.

The model covers:

- **faculty routes**: ingesting attendance as CSV text, as a decoded
  spreadsheet and as a JSON array; importing students; the filtered
  attendance history;
- **auth routes**: registration and login;
- **student routes**: one student's history with its counts, the monthly
  share of days present, and the roster lookup;
- **admin routes**: approving and deleting faculty accounts, the list of
  pending faculty, daily and monthly per-department statistics, one
  section's attendance, and the roster listing.

The store is a `Database` class (module `Schema`). It holds the three tables
and the users AUTOINCREMENT counter, and it enforces the constraints of the
schema: NOT NULL, the role and status CHECKs, the UNIQUE username and the
roster key; its inserts are methods of the class. Every route that writes
is a module-level method that takes the `Database`. The batch routes and
registration change it through those inserts; approve and delete replace
`db.users` with `Approve` or `Delete` of the old users table, the UPDATE and
DELETE of the route. Each such route method is proved equal to a pure function
from the old tables to the reply and the new tables. The properties are proved about those functions.

JavaScript request values are modelled as `Value = Null | Str | Num`:

- `Null` stands for both `undefined` and `null`;
- truthiness and `||` are modelled exactly;
- query-string parameters are strings, and `""` is the absent parameter.

Password hashing and comparison are parameters of the routes that use them.

The batch routes count a row as a success when it passes the handler's own
checks. The store reports its own rejections only asynchronously, after the
loop has finished counting, so `successCount` counts insert attempts. The
model ASSUMES that a rejected insert is simply not stored and that the batch
goes on; under that assumption the table receives only the attempts the
store admits, and `Faculty.SuccessCountIsNotRowsStored` proves that the two
can differ. The program itself does not go on (see "Left out").

Modules, one per file: `Values`, `Text` (JavaScript string operations and
SQLite's text order), `Sorting` (filters, counts, a stable key order and an
insertion sort), `Http`, `Schema`, `Faculty`, `Auth`, `StudentRoutes` and `Admin`.

## Model

| member | source | states |
|---|---|---|
| Values.Or | routes/faculty.js:42-45 | `a \|\| b` is truthy iff either operand is; it is `a` when `a` is truthy and `b` otherwise |
| Values.Truthy | routes/auth.js:49 | JavaScript truthiness: a value is falsy exactly when it is `undefined`/`null`, the empty string or zero |
| Values.BindInteger | database.js:46 | the model's reading of a value bound to the INTEGER `marked_by` column: a number is kept, NULL stays NULL, and text counts as an integer exactly when it is a non-empty run of digits (narrower than SQLite's affinity; see "Left out") |
| Values.BindIntegerOfText | database.js:46 | a user id bound as its decimal text reads back as that id |
| Values.ParseNat | routes/admin.js:25 | a text id matches an INTEGER id exactly when it is a non-empty run of decimal digits |
| Values.ParseNatText | routes/admin.js:23-26 | rendering an id as decimal text and reading it back gives the id |
| Values.BindText | database.js:16-50 | a bound value is NULL exactly for `undefined`/`null`; strings are stored as given |
| Text.Trim | routes/faculty.js:85 | `trim` returns text with no white space at either end |
| Text.TrimInfix | routes/faculty.js:85 | what `trim` returns is an infix of the text, and what it cuts off on either side is white space |
| Text.TrimIgnoresTrailingSpace | routes/faculty.js:85 | appending white space to a text does not change its `trim` |
| Text.TrimIdempotent | routes/faculty.js:85 | trimming twice equals trimming once |
| Text.Split | routes/faculty.js:85 | `split` on one character yields at least one piece |
| Text.SplitPiecesFree | routes/faculty.js:85 | no piece of a `split` holds the separator |
| Text.JoinSplit | routes/faculty.js:85 | joining the pieces of a `split` with the separator gives the text back |
| Text.SplitAfterPiece | routes/faculty.js:85 | a piece without the separator, the separator and a rest split into that piece followed by the pieces of the rest |
| Text.SplitJoin | routes/faculty.js:101 | splitting pieces joined by a separator they do not hold gives the pieces back |
| Text.SplitLength | routes/faculty.js:101 | `split` yields one piece more than there are separators |
| Text.Lower | routes/faculty.js:108 | `toLowerCase` maps A–Z to a–z, keeps the length, and leaves no capital letter |
| Text.LowerIdempotent | routes/faculty.js:43 | lower-casing twice equals lower-casing once |
| Text.PadStart | routes/student.js:38 | `padStart(n, c)` ends with the text, is padded with `c`, and has length max(n, length of the text) |
| Text.LessEqTotalOrder | routes/faculty.js:150-156 | the BINARY collation that `date >= ?` and `date <= ?` use is a total order on text |
| Sorting.Filter | routes/student.js:16-17 | the selected rows are exactly the rows satisfying the condition, in order |
| Sorting.FilterPairwise | routes/admin.js:8-11 | selecting rows keeps any ordering relation between earlier and later rows |
| Sorting.FilterFilter | routes/admin.js:62-66 | selecting by one condition and then another selects, in order, the rows that satisfy both |
| Sorting.CountFilter | routes/admin.js:62-66 | counting by a condition within a selection counts the rows that satisfy both |
| Sorting.CountDisjoint | routes/student.js:16-18 | rows satisfying one of two exclusive conditions number the sum of the two counts |
| Sorting.Distinct | routes/admin.js:69 | `GROUP BY`: every value of the column appears, and only once |
| Sorting.NoRepeatsPermutation | routes/admin.js:69-70 | reordering a sequence without repeats leaves it without repeats |
| Sorting.SortBy | routes/faculty.js:159 | `ORDER BY` yields the same multiset of rows, sorted by the key |
| Sorting.KeyLeTotalPreorder | routes/faculty.js:159 | a sort key of ascending and descending text columns is a total preorder |
| Schema.UserViolation | database.js:16-27 | a users insert passes exactly when username, role and name are not NULL, the role is one of three, and the name is free; Unique only for a taken name |
| Schema.InsertUser | database.js:16-27 | an insert appends the row with the next AUTOINCREMENT id (one more than the last id handed out) exactly when no constraint fails, otherwise changes nothing, and keeps the tables valid |
| Schema.InsertStudent | database.js:30-36 | a roster insert appends exactly when no column is NULL and the roll number is free, and keeps the tables valid |
| Schema.StudentViolation | database.js:30-36 | in the model, a roster insert breaks no constraint exactly when roll number, name, department and section are all bound and the roll number is not already on the roster (the model also refuses a NULL roll number; see "Left out") |
| Schema.AdmitAttendance | database.js:39-50 | an attendance insert is stored exactly when no NOT NULL column is NULL and the status is 'present' or 'absent', with the bound values |
| Schema.AdmittedRowsAppend | database.js:39-50 | the rows stored by two runs of inserts are those of the first run followed by those of the second |
| Schema.Database.RunUserInsert | database.js:16-27 | the store's users insert is `InsertUser` on the old tables |
| Schema.Database.RunStudentInsert | database.js:30-36 | the store's roster insert is `InsertStudent` on the old tables, and keeps them valid |
| Schema.Database.RunAttendanceInsert | database.js:39-50 | the store's attendance insert appends exactly the admitted row |
| Faculty.RunBatch | routes/faculty.js:96-118 | the success and error counters add up to the number of rows, and there is one attempt per success |
| Faculty.BatchErrors | routes/faculty.js:103-117 | the error count is the number of rows the handler's checks refuse |
| Faculty.BatchAttempts | routes/faculty.js:99-111 | every attempted insert comes from an accepted row, and every accepted row is attempted |
| Faculty.AcceptedIndices | routes/faculty.js:99-111 | the positions of the accepted rows: each names an accepted row, they strictly ascend, and every accepted row's position is among them |
| Faculty.BatchAttemptsInOrder | routes/faculty.js:99-111 | the attempts are the accepted rows' inserts in row order: one per accepted row, the k-th from the k-th accepted row |
| Faculty.InsertEach | routes/faculty.js:96-118 | the counting loop returns the counters of `RunBatch` and leaves the store holding the admitted attempts |
| Faculty.CsvLineInsert | routes/faculty.js:101-111 | a line yields an insert iff it has at least five trimmed fields: roll from field 0, department 2, section 3, lower-cased status 4, and the request's date and faculty id |
| Faculty.CsvLines | routes/faculty.js:85 | the trimmed text cut at newlines has at least one line |
| Faculty.CsvLinesOfText | routes/faculty.js:85 | no line holds a newline, the lines joined with newlines are the trimmed text, and there is one more line than newlines |
| Faculty.CsvFields | routes/faculty.js:101 | a line has at least one field |
| Faculty.CsvFieldsOfLine | routes/faculty.js:101 | one more field than commas; no field holds a comma or starts or ends with white space |
| Faculty.UploadCsv | routes/faculty.js:77-132 | an error reply attempts nothing; a success reply's counters add up to its total |
| Faculty.UploadAttendanceCsv | routes/faculty.js:77-132 | the route's reply and new store are those of `UploadCsv` |
| Faculty.UploadCsvText | routes/faculty.js:84-127 | with the date and the text present, the reply and new store are those of `UploadCsv`: a 400 that stores nothing for a single line, otherwise the counting loop over the data lines |
| Faculty.UploadCsvMissing | routes/faculty.js:80-82 | a missing text or date is 400 "Missing required fields" and attempts nothing |
| Faculty.UploadCsvNotText | routes/faculty.js:84-131 | a present value that is not text makes `trim` throw: 500 "Error processing CSV data", nothing attempted |
| Faculty.UploadCsvOk | routes/faculty.js:80-89 | a 200 reply needs a date and text of at least two lines |
| Faculty.UploadCsvOneLineOnly | routes/faculty.js:85-89 | text that trims to a single line is a 400 "Invalid CSV data" that attempts nothing |
| Faculty.UploadCsvRejects | routes/faculty.js:80-89 | missing text, missing date, or text that trims to one line gives 400 and attempts nothing |
| Faculty.UploadCsvAccepted | routes/faculty.js:84-127 | a date and a text of two or more lines runs every line after the header through the per-line check, with total `lines - 1` |
| Faculty.UploadCsvCounts | routes/faculty.js:103-126 | on success, errors are the data lines with fewer than five fields, and successes plus errors equal the total |
| Faculty.UploadCsvSkipsHeader | routes/faculty.js:99-111 | every attempt comes from a data line (index at least 1), and every data line with five fields is attempted |
| Faculty.UploadCsvInOrder | routes/faculty.js:96-111 | the attempts of an accepted CSV request are, in order, the inserts of the data lines with five fields, one per such line |
| Faculty.UploadCsvTrailingSpace | routes/faculty.js:85 | trailing white space, including a final newline, changes neither the reply nor the attempts |
| Faculty.UploadCsvDependsOnLines | routes/faculty.js:85-127 | two texts with the same lines get the same reply and the same attempts |
| Faculty.CsvLinesOfJoin | routes/faculty.js:85 | lines joined by newlines, with no white space at the outer ends, split back into the same lines |
| Faculty.CsvLinesAfterHeader | routes/faculty.js:85 | a first line, a newline and a rest, with no white space at the outer ends: the first line followed by the pieces of the rest |
| Faculty.CsvLinesOfTwo | routes/faculty.js:85 | `header\nline` with no white space at the outer ends has exactly those two lines |
| Faculty.CsvLinesOfThree | routes/faculty.js:85 | `header\nfull\nshort` with no white space at the outer ends has exactly those three lines |
| Faculty.UploadCsvOneOfTwo | routes/faculty.js:99-127 | text whose lines are a header, a full line and a short line gives 1 success, 1 error, total 2, and attempts the full line only |
| Faculty.UploadCsvOneLine | routes/faculty.js:99-127 | text whose lines are a header and one full line gives 1 success, 0 errors, total 1, and attempts that line |
| Faculty.SuccessCountIsNotRowsStored | routes/faculty.js:108-111 | a line whose status fails the CHECK still counts as a success, yet stores no row |
| Faculty.SheetRowInsert | routes/faculty.js:40-56 | a spreadsheet row yields an insert iff its first-truthy roll number, department and section are all truthy and its status value is text (lower-casing a number throws); its status is `Status \|\| status \|\| 'present'` lower-cased |
| Faculty.SheetStatusDefault | routes/faculty.js:43 | a row without a status is recorded as 'present' |
| Faculty.UploadSheet | routes/faculty.js:15-74 | no file gives 400 "No file uploaded"; an empty sheet gives 400 "Empty file"; otherwise the counters add up to the number of rows |
| Faculty.UploadAttendanceFile | routes/faculty.js:15-74 | the route's reply and new store are those of `UploadSheet` |
| Faculty.SubmitRecordInsert | routes/faculty.js:238-246 | a record yields an insert iff `roll_number`, `status`, `department` and `section` are all truthy, carrying those values |
| Faculty.SubmitAttendance | routes/faculty.js:223-264 | success iff the date is truthy and the data is a non-empty array; otherwise 400 and no attempt; the counters add up to the array's length |
| Faculty.SubmitAttendanceRoute | routes/faculty.js:223-264 | the route's reply and new store are those of `SubmitAttendance` |
| Faculty.SubmitAttemptsCarryRequest | routes/faculty.js:241-242 | every attempted row carries the request's date and faculty id, and a truthy roll number and status |
| Faculty.EnrolmentOf | routes/faculty.js:190-198 | a record yields a users row (role 'student', approved) and a roster row iff all six fields, including 'roll number', are truthy |
| Faculty.Enrol | routes/faculty.js:196-197 | running the two inserts per record keeps the tables valid, leaves attendance alone, and adds at most one row per record to each table |
| Faculty.AddStudents | routes/faculty.js:170-221 | success iff the students array is present and non-empty, otherwise 400; the counters add up to the array's length |
| Faculty.AddStudentsRoute | routes/faculty.js:170-221 | the route's reply and new store are those of `AddStudents` |
| Faculty.EnrolOne | routes/faculty.js:196-197 | a record with a free username and a free roll number adds exactly one users row and one roster row |
| Faculty.HoldsAllAppend | routes/faculty.js:142-157 | appending one `AND` term narrows the selection by exactly that term |
| Faculty.BuildHistoryQuery | routes/faculty.js:138-157 | the built terms select a row iff it matches every supplied filter: department, section, and dates from/to compared as text |
| Faculty.AttendanceHistory | routes/faculty.js:135-167 | the history is exactly the matching rows, each as often as stored, sorted by date descending, then roll number |
| Auth.RegisterInsert | routes/auth.js:16-21 | approved iff the role is not 'faculty'; a falsy roll number or section becomes NULL; other fields are passed on |
| Auth.Register | routes/auth.js:7-41 | 400 when a required field is falsy; success iff the hash succeeds and no constraint fails, appending the new row with the next AUTOINCREMENT id, which it returns, and `needsApproval` = role is faculty; no error changes the table; validity is kept |
| Auth.RegisterRoute | routes/auth.js:7-41 | the route's reply and new store are those of `Register` |
| Auth.RegisterDuplicate | routes/auth.js:23-25 | a taken username gives 400 "Username already exists" and leaves the tables unchanged |
| Auth.RegisterBadRole | routes/auth.js:26-27 | any other rejection (a role outside the CHECK) gives 500 "Registration failed" |
| Auth.View | routes/auth.js:79-87 | the login view copies the seven public columns |
| Auth.ViewHidesPassword | routes/auth.js:79-87 | the login view does not depend on the stored hash |
| Auth.FindUser | routes/auth.js:53 | the lookup finds a row with that username exactly when one exists |
| Auth.FindAppended | routes/auth.js:53 | a row appended under a free name is what a later lookup of that name finds |
| Auth.Login | routes/auth.js:44-94 | a falsy username or password gives 400; an unknown name gives 401; for the first row with the name, a failed comparison gives 500 "Server error", a wrong password 401 "Invalid credentials", the right password on an unapproved faculty account 403 "Account pending admin approval", and the right password otherwise 200 with that row's view; success only for a row with that name, a matching password, and not an unapproved faculty account |
| Auth.LoginChecksPasswordFirst | routes/auth.js:66-75 | an unapproved faculty account gets 401 with a wrong password and 403 with the right one |
| Auth.RegisterThenLogin | routes/auth.js:7-94 | after a successful registration, logging in with the same password succeeds with the new row's view, or gets 403 for a faculty account |
| StudentRoutes.Percentage | routes/student.js:19 | 0 when the total is 0; between 0 and 100 when present does not exceed total |
| StudentRoutes.Tally | routes/student.js:16-19 | present and absent count the records with that status; total is their sum; the percentage is in [0, 100] |
| StudentRoutes.StudentHistory | routes/student.js:6-31 | the records are the student's rows, each as often as stored, sorted by date descending, with the tally of those records |
| StudentRoutes.HistoryTotal | routes/student.js:16-18 | in a valid table, the history's total equals the number of records |
| StudentRoutes.HistoryRecordsOfStudent | routes/student.js:9 | every stored row of the student appears in the history |
| StudentRoutes.YearOf | routes/student.js:44 | the year of an ISO date is its first four characters; other text has no year |
| StudentRoutes.MonthOf | routes/student.js:45 | the month of an ISO date is characters 5–6; other text has no month |
| StudentRoutes.MonthText | routes/student.js:37-38 | the month text is at least two characters: a one-character month gets a leading '0', a longer one is kept |
| StudentRoutes.MonthPadding | routes/student.js:37-38 | the current month 1–9 renders as '0' and its digit, 10–12 as two digits |
| StudentRoutes.MonthPaddingExamples | routes/student.js:38 | "3" renders as "03", "12" as "12", and month 3 by default as "03" |
| StudentRoutes.MonthlyAverage | routes/student.js:34-66 | total counts every row of that student, year and month whatever its status; present counts 'present'; the percentage follows the zero guard |
| StudentRoutes.MonthlyAverageEmpty | routes/student.js:52-54 | a student without rows gets total 0 and percentage 0 |
| StudentRoutes.FindStudent | routes/student.js:72-74 | the lookup finds a roster row with that roll number exactly when one exists |
| StudentRoutes.StudentInfo | routes/student.js:69-85 | 404 "Student not found" iff no roster row has that roll number; otherwise that row |
| StudentRoutes.StudentInfoUnique | routes/student.js:72-83 | in a valid roster, the row returned is the only row with that roll number |
| Admin.Approve | routes/admin.js:25 | only the approval flag changes, and it is set on exactly the faculty rows with that id |
| Admin.ApproveIdempotent | routes/admin.js:25 | approving twice leaves the same table as approving once |
| Admin.ApproveValid | routes/admin.js:25 | approving keeps the users table valid |
| Admin.MatchedAtMostOne | routes/admin.js:25 | in a valid table, at most one row matches an id |
| Admin.MatchedNone | routes/admin.js:31 | no row matches iff no faculty row has that id |
| Admin.Matched | routes/admin.js:31 | `this.changes` is positive exactly when some faculty row has the id |
| Admin.ApproveFaculty | routes/admin.js:22-37 | 404 "Faculty not found" iff nothing matched, with the table unchanged; otherwise the approved table and a success message; validity is kept |
| Admin.ApproveFacultyRoute | routes/admin.js:22-37 | the route's reply and new store are those of `ApproveFaculty` |
| Admin.FindApproved | routes/admin.js:25 | a lookup by name after approval finds the approved version of the row found before |
| Admin.ApproveThenLogin | routes/admin.js:22-37 | a faculty account with the right password logs in once its id is approved |
| Admin.Delete | routes/admin.js:43 | the rows kept are exactly those that are not the faculty row with that id |
| Admin.DeleteCount | routes/admin.js:43-49 | the rows removed number exactly the rows matched (`this.changes`) |
| Admin.DeleteIdempotent | routes/admin.js:43 | deleting twice leaves the same table as deleting once |
| Admin.DeleteValid | routes/admin.js:43 | deleting keeps the users table valid |
| Admin.DeleteFaculty | routes/admin.js:40-55 | 404 iff nothing matched, with the table unchanged; otherwise a success message; in a valid table exactly one row is removed |
| Admin.DeleteFacultyRoute | routes/admin.js:40-55 | the route's reply and new store are those of `DeleteFaculty` |
| Admin.NonFacultyUnmatched | routes/admin.js:25 | in a valid table, the id of an administrator or a student matches no row |
| Admin.ApproveNonFaculty | routes/admin.js:31-33 | approving an administrator's or student's id gives 404 and changes nothing |
| Admin.DeleteNonFaculty | routes/admin.js:49-51 | deleting an administrator's or student's id gives 404 and removes nothing |
| Admin.DeleteKeepsOthers | routes/admin.js:43 | an administrator or student row is never removed |
| Admin.PendingRows | routes/admin.js:8-11 | the pending list holds exactly the unapproved faculty rows |
| Admin.PendingNewestFirst | routes/admin.js:11 | in a valid table, the pending list runs from the newest account to the oldest |
| Admin.PendingFaculty | routes/admin.js:6-19 | each entry is the id, username, name and department of an unapproved faculty row, in pending order |
| Admin.Departments | routes/admin.js:69-70 | the groups are every department that has a row, once, in strictly ascending order |
| Admin.DepartmentListed | routes/admin.js:69 | a department is listed iff some row names it |
| Admin.Share | routes/admin.js:82 | `present / total * 100` lies in [0, 100] when present does not exceed total |
| Admin.StatsOf | routes/admin.js:62-66 | a department's total is the number of rows of the whole table in that department (at least one), its present and absent counts are the rows of that department with that status, and its percentage is `present / total * 100`, in range |
| Admin.GroupByDepartment | routes/admin.js:62-83 | one entry per listed department, in department order; entry k is `StatsOf` of the k-th department, so it carries that department's total, present and absent counts over the rows given |
| Admin.StatsAddUp | routes/admin.js:64-66 | in a valid table, present plus absent is the group's total |
| Admin.DailyStats | routes/admin.js:58-88 | the date is the parameter, or today when it is absent; the stats group that day's rows |
| Admin.GroupListed | routes/admin.js:69-70 | a department has an entry iff it is listed |
| Admin.OnDateRow | routes/admin.js:68 | the day's rows naming a department are the table's rows of that day and department |
| Admin.DailyStatsDepartments | routes/admin.js:58-88 | a department has an entry iff it has a row on that day; departments ascend; every total is at least 1 |
| Admin.DayListed | routes/admin.js:62-69 | a department has an entry in a day's grouping exactly when some row of that day names it |
| Admin.GroupOrdered | routes/admin.js:62-69 | the grouping's entries are in strictly ascending department order and each counts at least one row |
| Admin.MonthlyStats | routes/admin.js:91-121 | the rows in the year and the zero-padded month, grouped by department, without the absent count; the response echoes the unpadded month |
| Admin.MarkerName | routes/admin.js:186-189 | the LEFT JOIN gives the name of a user whose id is `marked_by`, or nothing when there is none |
| Admin.SectionAttendance | routes/admin.js:175-200 | 400 iff department, section or date is missing; otherwise the matching rows with the marker's name, sorted by roll number |
| Admin.SectionAttendanceComplete | routes/admin.js:182-191 | every row of that section on that day is listed |
| Admin.StudentsListing | routes/admin.js:124-148 | the roster rows passing the supplied department and section filters, each once, sorted by roll number |

## Left out

- `/attendance-log`, a GROUP BY over timestamps with LIMIT 100, is not modelled. It depends on `created_at` timestamps and on engine-specific grouping.
- Spreadsheet decoding (`xlsx.readFile`, `sheet_to_json`) is not modelled. A sheet is given as an optional sequence of key-to-value records. Also left out: the multer upload with its 5 MB limit, and the removal of the temporary file.
- Express wiring, the server's start and stop, console logging, and the database connection are not modelled.
- bcrypt is not modelled. `hash` and `matches` are parameters of the routes; None stands for a thrown error.
- `new Date()` defaults are not modelled. Today's date, the current year and the current month are parameters.
- `toFixed(2)` is not modelled. Percentages are exact reals, not decimal strings.
- Faculty.InsertEach, Faculty.UploadAttendanceCsv, Faculty.UploadAttendanceFile, Faculty.SubmitAttendanceRoute, Faculty.AddStudentsRoute: the model continues past an insert the store rejects (a failed NOT NULL, CHECK or UNIQUE) and leaves that row out. The batch `stmt.run` calls pass no callback (routes/faculty.js:49, 112, 194-195, 242), so the program receives the failure as an unhandled 'error' event on the statement, and the process exits: no later insert runs, and submit-attendance and add-students, which reply from the `finalize` callback (routes/faculty.js:209-220, 252-263), send no reply. This asynchronous failure is outside the model.
- Database errors delivered to a query's callback are not modelled. This leaves out the 500 "Server error" replies of approve and delete (routes/admin.js:27-29 and 45-47), of the login lookup (routes/auth.js:54-57) and of the read routes (routes/admin.js:14, 74, 108, 144, 167, 195; routes/faculty.js:163; routes/student.js:13, 49, 77), and the 500 of a failing `finalize` (routes/faculty.js:211, 254). The model treats the store as always answering.
- `created_at` columns are not modelled. The pending list is ordered newest first by id, which grows with insertion order, rather than by timestamp. `created_at` is also dropped from the responses that return it.
- The order among rows with equal sort keys is not modelled. SQLite leaves it unspecified, so the model proves sortedness and the multiset of rows.
- Values are `undefined`/`null`, strings or integers. Other JSON values (floats, booleans, objects, arrays inside a field) are not modelled.
- Values.BindInteger: text bound to the INTEGER `marked_by` column is read as an integer only when it is a plain run of digits. SQLite's INTEGER affinity also converts texts such as " 5" or "5.0" to 5; the model keeps those as text that matches no user id.
- Values.ParseNat: SQLite also treats texts such as "05.0" or " 5" as matching the integer 5 under INTEGER affinity. The model only accepts plain digit strings; any other id text matches nothing.
- Text.Lower: only A–Z are lower-cased. The full Unicode case mapping of `toLowerCase` is not modelled.
- StudentRoutes.YearOf: the year is taken from any text whose first ten characters have the shape `DDDD-DD-DD`. Text after them is ignored ("2024-01-10xyz" has year "2024", where `strftime` gives NULL). Other formats SQLite accepts, such as times or Julian day numbers, have no year here.
- StudentRoutes.MonthOf: the same shape test as the year, with no range check and no normalisation. "2024-13-01" has month "13" where `strftime` gives NULL, and "2024-02-31" has month "02" where SQLite normalises the date into March.
- Schema.StudentViolation: a NULL roll number is reported as a NOT NULL violation. SQLite does not enforce NOT NULL on a TEXT PRIMARY KEY, so it would store the row; no route binds a NULL roll number, because the import requires a truthy one.
- Schema.InsertStudent: the roster's TEXT PRIMARY KEY is modelled as NOT NULL. SQLite would admit NULL keys, but no route binds one: the import requires a truthy roll number.
- Foreign keys are not modelled: SQLite does not enforce them unless asked, and this database does not ask.
- The 500 "Error processing file" path of the spreadsheet route is not modelled: it comes from a failing decode.
