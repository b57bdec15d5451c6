# Student information system: a Dafny model of its core

The system is a small school web application. It registers students, manages
departments, posts announcements and authenticates two roles: students and
admins. This project models its request-handling core as pure Dafny functions
of the form `(store, session, request fields) -> (store, session, response)`.

The core has four parts:

- **The student password policy** (routes/auth.js, routes/admin.js).
  - Registration derives the secret `DD/MM/(YYYY+543)` from the date of birth.
  - Student login runs a tolerant normaliser over what was typed.
  - An admin can reset a student's password or set a new one.
- **Authentication and the role gates.**
  - Student and admin login, and logout.
  - The `isAdmin` gate of the admin router and the `isAuthenticated` gate of the student router.
  - The admin router's dispatch of a request through its layers in declaration order.
- **The resource operations over the store.**
  - Registration, with its required fields and unique student code.
  - Student listing, lookup, update and deletion.
  - Departments, announcements (their department normalisation, filter and per-student visibility) and the dashboard statistics.
- **The store itself** (database.js).
  - Four tables with AUTOINCREMENT ids.
  - The UNIQUE and NOT NULL constraints the handlers rely on.
  - The seed-if-empty initialisation.

Modules, one per concern:

| module | file | contents |
|---|---|---|
| `Common` | common.dfy | `Option`, decimal digits, the JavaScript number rendering and `parseInt` |
| `Text` | text.dfy | JavaScript `split`, `join`, `reverse` on strings |
| `Rows` | rows.dfy | WHERE-style selection, counting, first match, key ordering and uniqueness |
| `Password` | password.dfy | the bcrypt abstraction, the normaliser, the registration and reset secrets |
| `Store` | store.dfy | the tables, SQLite INTEGER affinity, the table constraints, seeding |
| `Query` | query.dfy | the LEFT JOINs, ORDER BY created_at DESC, the per-department breakdown |
| `Http` | http.dfy | the session record, error kinds with their status codes, response bodies |
| `Auth` | auth.dfy | routes/auth.js |
| `Admin` | admin.dfy | routes/admin.js, including the router's layer order |
| `StudentApi` | student.dfy | routes/student.js |

Modelling decisions:

- **bcrypt** is an injective, deterministic `Hash`. `Verify(s, h)` holds exactly when `h == Hash(s)`.
- **The session** is a record of optional fields, not an optional record.
  - An admin login assigns three fields and leaves a student code from an earlier login in place.
  - Logout yields the record with every field absent.
- **Tables** are sequences of rows in rowid order, each with its AUTOINCREMENT counter.
  - A department reference is an optional `SqlValue`.
  - A text parameter bound to an INTEGER column becomes an integer only when it is a non-empty run of decimal digits; otherwise it stays text.
  - NULL equals nothing.
- **The clock** is a natural-number parameter (`now`).
- **An uploaded file** is given as its stored path, an optional string.

Where the code's own comments and messages promise more than its statements do, the model follows the statements:

- The reset route is headed "Reset Student Password (to DOB)" (routes/admin.js:107) and answers 'Password reset to DOB (DDMMYYYY)' (routes/admin.js:122). The statement at routes/admin.js:116 does store the eight digits `DDMMYYYY`, but no login input reaches that secret (see Findings). `Admin.ResetPasswordAsWritten` models the statement; the corrected `Admin.ResetPassword` restores the registration secret.
- The normaliser at routes/auth.js:106-123 assigns the cleaned input (digits and `/` only) whenever no date shape is recognised, so an unrecognised shape is cleaned rather than kept. `Password.Normalize` does the same.

## Model

| member | source | states |
|---|---|---|
| Common.NatToString | routes/auth.js:74-75 | a number rendered in a template literal is a non-empty run of digits with no leading zero that reads back as the number |
| Common.IntToString | routes/auth.js:74-75 | a template literal prints an integer as its decimal digits, with a leading `-` exactly when it is negative; `Common.ParseIntRendering` reads it back |
| Common.RenderingLength | routes/auth.js:74-75 | the rendering of n has more than k digits exactly when n is at least 10^k |
| Common.FourDigitRendering | routes/auth.js:74-75 | a year renders with exactly four digits exactly when it lies in 1000..9999 |
| Common.ParseInt | routes/auth.js:74 | parseInt of a non-empty digit string is its decimal value; parseInt of the empty string is NaN |
| Common.ParseIntRendering | routes/auth.js:74-75 | parseInt reads back the rendering of every integer, negative ones included |
| Common.ParseIntStopsAtNonDigit | routes/auth.js:74 | parseInt reads the leading digits and ignores whatever follows the first non-digit |
| Common.LeadingDigits | routes/auth.js:74 | the digits parseInt reads are a digit-only prefix followed by a non-digit or the end |
| Text.Split | routes/auth.js:109 | split yields one more part than there are separators, and no part contains the separator or any character not in the input |
| Text.JoinSplit | routes/admin.js:116 | joining the parts of a split with the same separator restores the string |
| Text.SplitJoin | routes/auth.js:109-114 | splitting a join of separator-free parts gives back the parts |
| Text.SplitSlashed | routes/auth.js:109-114 | a `d/m/y` built from slash-free parts splits into exactly those three parts |
| Text.Reverse | routes/admin.js:116 | reverse keeps the length and mirrors the positions |
| Text.ConcatThree | routes/admin.js:116 | join('') of three parts is their concatenation |
| Rows.Filter | routes/admin.js:222 | a WHERE clause keeps exactly the matching rows, each no more often than stored |
| Rows.FindFirst | routes/auth.js:127-128 | `rows[0]` exists exactly when some row matches, and it is the first matching row |
| Rows.FilterKeepsIncreasing | database.js:20 | deleting rows keeps AUTOINCREMENT ids increasing |
| Rows.FilterKeepsDistinct | database.js:43 | deleting rows keeps a UNIQUE column unique |
| Rows.FilterKeepsAll | routes/admin.js:218 | a query without a WHERE clause returns every row |
| Rows.CountIsFilterSize | routes/admin.js:244 | count(*) with a condition is the size of the corresponding selection |
| Rows.DistinctKeySelectsAtMostOne | database.js:43 | on a UNIQUE column an equality lookup matches at most one row |
| Rows.DistinctKeyIdentifies | database.js:28 | on a UNIQUE column two rows with the same value are the same row |
| Rows.MapKeepsDistinct | routes/admin.js:135-139 | an UPDATE that leaves a UNIQUE column alone keeps it unique |
| Rows.IncreasingIsDistinct | database.js:20 | AUTOINCREMENT ids are unique |
| Rows.CountDisjointUnion | routes/admin.js:253-256 | counting rows that match one of two exclusive conditions adds the two counts |
| Rows.CountComplement | routes/admin.js:253-256 | the rows matching a condition and those matching its negation add up to all rows |
| Password.VerifyAcceptsOnlyItsSecret | routes/auth.js:132 | bcrypt.compare accepts the secret a digest was made from and rejects every other string |
| Password.Clean | routes/auth.js:107 | the result holds only digits and slashes, exactly the ones the input holds; one character is kept when it is a digit or a slash and dropped otherwise; digit-and-slash text is left as it is |
| Password.CleanAppend | routes/auth.js:107 | cleaning a concatenation cleans each part, so with the one-character case the cleaned text is the input's digits and slashes, in order and with their repetitions |
| Password.PadDatePart | routes/auth.js:111-112 | padStart(2, '0') gives at least two characters: zeros followed by the part itself |
| Password.Normalize | routes/auth.js:106-123 | the normalised password contains only digits and `/`, and the empty password passes through untouched |
| Password.NormalizeInput | routes/auth.js:106-122 | an absent password stays absent and an empty one stays empty |
| Password.NormalizeIgnoresOtherCharacters | routes/auth.js:107 | characters other than digits and `/` have no effect on the result |
| Password.NormalizePadsDayAndMonth | routes/auth.js:108-115 | three slash-separated digit groups have day and month left-padded to two digits and the year kept |
| Password.NormalizeReadsEightDigits | routes/auth.js:116-121 | eight bare digits become `s[0..2]/s[2..4]/s[4..8]` |
| Password.NormalizeKeepsOtherShapesCleaned | routes/auth.js:107-123 | any other shape yields the cleaned input, not the raw input |
| Password.NormalizeIdempotent | routes/auth.js:106-123 | normalising a normalised password changes nothing |
| Password.NormalizeNeverYieldsEightBareDigits | routes/auth.js:107-121 | no input at all normalises to eight digits without a slash |
| Password.AcceptedShapeUnpadded | routes/auth.js:108-115 | `1/1/2550` normalises to `01/01/2550` |
| Password.AcceptedShapePadded | routes/auth.js:108-115 | `01/01/2550` normalises to itself |
| Password.AcceptedShapeBare | routes/auth.js:116-121 | `01012550` normalises to `01/01/2550` |
| Password.SplitIsoDate | routes/auth.js:73 | a YYYY-MM-DD date splits on `-` into year, month and day |
| Password.RegistrationSecret | routes/auth.js:73-75 | the registration secret is `day/month/beYear` from the dash-separated parts of the date of birth, a missing part printing as `undefined` and an unparseable year as `NaN`; `Password.RegistrationSecretOfIsoDate` gives its value on ISO dates |
| Password.BuddhistYear | routes/auth.js:74 | the Buddhist-era year is a digit string of at least three digits whose value is the Gregorian year plus 543 |
| Password.RegistrationSecretOfIsoDate | routes/auth.js:73-75 | for YYYY-MM-DD the registration secret is DD/MM/(YYYY+543) |
| Password.RegistrationSecretIsFixedPoint | routes/auth.js:73-75 | the registration secret typed as is survives the login normaliser unchanged |
| Password.EightDigitFormLogsIn | routes/auth.js:116-121 | typed as the eight digits DDMM(YYYY+543), a four-digit Buddhist-era year normalises to the registration secret |
| Password.ResetSecretAsWritten | routes/admin.js:116 | the reset secret is the dash-separated parts of the date of birth in reverse order, joined with nothing; `Password.ResetSecretOfIsoDate` gives its value on ISO dates |
| Password.ResetSecretOfIsoDate | routes/admin.js:116 | the reset secret of YYYY-MM-DD is the eight digits DDMMYYYY |
| Password.ResetSecretUnreachable | routes/admin.js:116 | no normalised login input verifies against the digest of the reset secret |
| Store.IntegerAffinity | database.js:42 | text bound to an INTEGER column becomes an integer exactly when it is a non-empty digit string, and otherwise stays the same text |
| Store.IntegerAffinityOfRendering | database.js:42 | an id sent as its decimal text is stored as that integer |
| Store.Valid | database.js:16-58 | the table constraints: each AUTOINCREMENT id increases with the row order and never passes its counter, student_code is UNIQUE and username is UNIQUE; `Store.EmptyDbValid` and `Admin.HandleKeepsValid` establish and keep it |
| Store.DeleteWhere | routes/admin.js:101 | a DELETE keeps exactly the rows that do not match and leaves the counter alone |
| Store.EmptyDbValid | database.js:16-58 | freshly created tables satisfy every constraint |
| Store.InsertKeepsValid | database.js:20 | an INSERT with the next AUTOINCREMENT id keeps ids increasing and within the counter |
| Store.DeleteKeepsValid | database.js:20 | a DELETE keeps the table's id constraints |
| Store.UpdateKeepsValid | database.js:36 | an UPDATE that leaves the id alone keeps the table's id constraints |
| Store.InsertDepartments | database.js:71-81 | the prepared INSERT appends one row per name and code, with consecutive ids, and keeps the id constraints |
| Store.Seed | database.js:65-99 | seeding touches only empty department and admin tables, leaves both non-empty, and leaves students and announcements alone |
| Store.SeedPopulatesEmptyDepartments | database.js:67-82 | an empty departments table is seeded with exactly the codes COM, ELEC, POWER, IT, CIVIL, CONST, WELD, MECHA, AUTO in this order |
| Store.SeedPopulatesEmptyAdmins | database.js:86-96 | an empty admin table is seeded with one admin `admin` whose password is `admin` |
| Store.SeedIdempotent | database.js:69-88 | initialising an initialised store changes nothing |
| Store.SeedKeepsValid | database.js:65-99 | seeding keeps every table constraint |
| Query.JoinedDepartment | routes/admin.js:75 | the LEFT JOIN pairs a row with a department it references, or with none when it references none |
| Query.DepartmentNameOf | routes/admin.js:75 | the joined `d.department_name` is the name of a department the row references, and NULL exactly when it references none |
| Query.JoinStudents | routes/admin.js:72-76 | the student join keeps every student row, in order, each with the name of the department it references |
| Query.JoinAnnouncements | routes/admin.js:218 | the announcement join keeps every announcement row, in order, each with the name of the department it references |
| Query.AnnouncementsOfJoin | routes/admin.js:218 | the announcements carried by the joined rows are the announcements joined |
| Query.InsertNewestFirst | routes/admin.js:218 | inserting into a newest-first sequence keeps it newest first and adds exactly one row |
| Query.SortNewestFirst | routes/admin.js:218 | ORDER BY created_at DESC returns the same rows with creation times non-increasing |
| Query.SortKeepsMembers | routes/admin.js:218 | sorting neither adds nor drops an announcement |
| Query.Breakdown | routes/admin.js:253-256 | the breakdown has one row per department, in table order, counting the students that reference it, zero included |
| Query.BreakdownCountsListed | routes/admin.js:253-256 | with unique department ids the breakdown's counts sum to the number of students that reference a listed department |
| Query.BreakdownAccountsForEveryStudent | routes/admin.js:244-256 | the breakdown plus the students without a listed department is the student total |
| Auth.Register | routes/auth.js:64-97 | a missing required field gives 400 with no insert; a duplicate code gives 400 with the store unchanged; otherwise one row is appended with the next AUTOINCREMENT id, carrying every submitted column (department id under INTEGER affinity), the uploaded image and the digest of the registration secret, and the caller's code is returned |
| Auth.RegisterKeepsValid | database.js:43 | registration keeps every table constraint, student_code uniqueness included |
| Auth.LoginStudent | routes/auth.js:100-145 | an unknown code gives 401 "not found"; for a known code an absent password gives 500 (bcrypt.compare without data) and a digest that does not verify gives 401 "incorrect password"; success requires a student with that code whose digest verifies the normalised password, sets id, role, name and code in the session, and redirects to the student dashboard; every failure leaves the session alone |
| Auth.LoginStudentSucceedsIff | routes/auth.js:127-141 | with unique codes, a student login succeeds exactly when the normalised password verifies against that student's digest |
| Auth.LoginAdmin | routes/auth.js:148-169 | an unknown username gives 401 "not found"; for a known username an absent password gives 500 and a digest that does not verify gives 401 "incorrect password"; success requires an admin with that username whose digest verifies the password as typed, and sets id, role and name; every failure leaves the session alone |
| Auth.LoginAdminSucceedsIff | routes/auth.js:152-165 | with unique usernames, an admin login succeeds exactly when the password verifies against that admin's digest |
| Auth.Logout | routes/auth.js:172-177 | logout destroys the session and redirects to the index page |
| Auth.LogoutIdempotent | routes/auth.js:173 | logging out twice is logging out once |
| Auth.RegisterThenLogin | routes/auth.js:73-79 | a student registered with an ISO date of birth logs in with the registration secret |
| Auth.RegisterThenLoginWithEightDigits | routes/auth.js:116-121 | the same student also logs in with the eight-digit form DDMM(YYYY+543) |
| Auth.ListDepartments | routes/auth.js:33-40 | the department list is every department, for any session; the admin router's GET /departments (routes/admin.js:172-177) is the same query and dispatches to this member |
| Auth.PublicStats | routes/auth.js:43-61 | the public statistics hold the student total and the per-department breakdown |
| Auth.PublicStatsAccountsForEveryStudent | routes/auth.js:50-56 | the public breakdown plus the students without a listed department is the student total |
| Admin.UpdateStudentsKeepsValid | routes/admin.js:135-139 | an UPDATE that leaves student_id and student_code alone keeps every constraint |
| Admin.UploadImage | routes/admin.js:30-55 | a missing file gives 400 with no change; otherwise only the image of the student with that id changes |
| Admin.ListStudents | routes/admin.js:71-81 | the listing is every student in reverse table order, each with its department name |
| Admin.ListStudentsByIdDescending | routes/admin.js:76 | in a valid store the listing holds every student, ids strictly decreasing |
| Admin.ShowStudent | routes/admin.js:84-96 | an unknown id gives 404; otherwise the stored student with that id, with its department name |
| Admin.RemoveStudent | routes/admin.js:99-105 | deletion drops exactly the students with that id and nothing else |
| Admin.ResetPasswordAsWritten | routes/admin.js:108-128 | an unknown id gives 404 with no update; otherwise only the password of that id changes, to the digest of the reversed date of birth, and every other row and column stays |
| Admin.ResetPassword | routes/admin.js:108-128 | corrected reset: 404 for an unknown id; otherwise only the password of that id changes, to the digest of the registration secret |
| Admin.StoredPasswordOf | routes/admin.js:122 | with unique ids and codes, after a password UPDATE the student with that code carries exactly the new digest |
| Admin.ResetFinds | routes/admin.js:112 | with unique ids the reset reads the date of birth of the student with that id |
| Admin.ResetThenLogin | routes/admin.js:116-124 | after the corrected reset the student logs in with the registration secret |
| Admin.ResetAsWrittenLocksOut | routes/admin.js:116 | after the reset as written no login input lets the student in |
| Admin.StoredInteger | routes/admin.js:141 | an absent field binds NULL; text binds under INTEGER affinity |
| Admin.UpdateStudent | routes/admin.js:131-147 | the eleven listed columns of the student with that id take the request's values; id, student_code, password and image stay; a missing NOT NULL column fails with the store unchanged only when the row exists |
| Admin.UpdateThenShow | routes/admin.js:135-141 | after an update, looking up the student returns the updated values |
| Admin.ChangePasswordAsWritten | routes/admin.js:150-167 | a missing password or one shorter than four characters gives 400 with no update; otherwise only the password of that id changes, to the digest of the password as typed, and every other row and column stays |
| Admin.ChangePassword | routes/admin.js:150-167 | corrected change: 400 for a short or missing password; otherwise only the password of that id changes, to the digest of the normalised password |
| Admin.ChangeThenLogin | routes/admin.js:159 | after the corrected change the student logs in with the new password as typed |
| Admin.ChangeAsWrittenLoginIff | routes/admin.js:159 | after the change as written some login succeeds exactly when the new password is already in normal form |
| Admin.ChangeAsWrittenLocksOutLetters | routes/admin.js:154-159 | after the change as written sets `abcd`, no login input lets the student in |
| Admin.AddDepartment | routes/admin.js:180-186 | a missing name or code gives 500 (NOT NULL) with no insert; otherwise a row with the next id is appended and that id is returned |
| Admin.AddDepartmentThenList | routes/admin.js:182-184 | an added department appears in the listing under the id reported |
| Admin.RemoveDepartment | routes/admin.js:189-195 | deletion drops exactly the departments with that id and leaves students untouched |
| Admin.AnnouncementDepartment | routes/admin.js:206 | an absent, empty or `null` department means a global announcement; any other value is kept under INTEGER affinity |
| Admin.AnnouncementDepartmentOfId | routes/admin.js:206-209 | a department id sent as text targets that department |
| Admin.Announce | routes/admin.js:201-213 | a missing title or content gives 500 (NOT NULL) with no insert; otherwise the announcement is appended with the next id and the current time |
| Admin.ListedUnder | routes/admin.js:221-224 | a truthy `department_id` filter admits exactly the announcements stored under its INTEGER-affinity value; a falsy one admits all; `Admin.ListAnnouncementsByDepartment` and `Admin.ListAnnouncementsUnfiltered` state both cases |
| Admin.ListAnnouncements | routes/admin.js:216-230 | the listing is newest first, holds exactly the stored announcements the filter admits, and names each one's department |
| Admin.ListAnnouncementsUnfiltered | routes/admin.js:218 | without a truthy filter every announcement is listed exactly as often as stored |
| Admin.ListAnnouncementsByDepartment | routes/admin.js:221-224 | filtering by a department id lists exactly that department's announcements |
| Admin.RemoveAnnouncement | routes/admin.js:233-239 | deletion drops exactly the announcements with that id |
| Admin.Stats | routes/admin.js:242-263 | the statistics hold the student and department totals and one breakdown row per department, named after it and counting the students that reference it, zero included |
| Admin.StatsAccountsForEveryStudent | routes/admin.js:253-256 | in a valid store the breakdown plus the students without a listed department is the student total |
| Admin.RemoveDepartmentKeepsStudentTotal | routes/admin.js:189-195 | deleting a department leaves the student total unchanged; the breakdown then holds exactly the entries, with unchanged counts, of the departments with another id |
| Admin.Handle | routes/admin.js:71-263 | no admin handler changes the session; the reset and change-password routes run the handlers as written or the corrected ones, as chosen |
| Admin.HandleKeepsValid | database.js:16-58 | every admin handler, as written or corrected, keeps every table constraint |
| Admin.Dispatch | routes/admin.js:59-66 | dispatch either runs the request's handler or refuses with an error and changes nothing |
| Admin.DispatchSkips | routes/admin.js:66 | routes that do not match the request are passed over |
| Admin.MountsReachHandler | routes/admin.js:71-263 | a run of routes that includes the request's route reaches its handler |
| Admin.DispatchAsWritten | routes/admin.js:30-66 | the router as written (layers as declared, reset and change-password as written) either runs the as-written handler or refuses without effect |
| Admin.DispatchGated | routes/admin.js:59-66 | the corrected router (gate first, corrected handlers) either runs the corrected handler or refuses without effect |
| Admin.DeclaredGateCoverage | routes/admin.js:30-66 | as declared, the gate guards every route but the upload route, which runs for any session |
| Admin.UploadBypassesGate | routes/admin.js:30 | an anonymous request replaces a student's image |
| Admin.GatedDispatch | routes/admin.js:59-64 | with the gate first, a non-admin request gets 401 and changes nothing, and an admin request reaches its handler |
| Admin.RouterAsWrittenResetLocksOut | routes/admin.js:108-128 | through the router as written, an admin's reset leaves the student unable to log in with any input |
| Admin.RouterAsWrittenChangeLocksOut | routes/admin.js:150-167 | through the router as written, an admin's change to `abcd` leaves the student unable to log in with any input |
| Admin.RouterGatedResetThenLogin | routes/admin.js:108-128 | through the corrected router, an admin's reset lets the student log in with the registration secret |
| Admin.RouterGatedChangeThenLogin | routes/admin.js:150-167 | through the corrected router, an admin's change lets the student log in with the new password as typed |
| Admin.AdminLoginOpensGate | routes/admin.js:60 | in a valid store a successful admin login passes isAdmin |
| Admin.IsAdmin | routes/admin.js:59-64 | isAdmin admits a session whose role is admin and whose user id is truthy; `Admin.AdminLoginOpensGate` and `Admin.StudentAndLogoutSessionsAreNotAdmin` state which logins pass it |
| Admin.StudentAndLogoutSessionsAreNotAdmin | routes/admin.js:60 | neither a student login nor a logout passes isAdmin |
| StudentApi.IsAuthenticated | routes/student.js:6-11 | isAuthenticated admits a session whose role is student and whose user id is truthy; `StudentApi.StudentLoginOpensGate` and `StudentApi.LogoutClosesGate` state which sessions pass it |
| StudentApi.GatesAreDisjoint | routes/student.js:7 | no session passes both isAuthenticated and isAdmin, so an admin session is refused |
| StudentApi.StudentLoginOpensGate | routes/student.js:7 | in a valid store a successful student login passes isAuthenticated |
| StudentApi.LogoutClosesGate | routes/student.js:6-11 | a logged-out session does not pass isAuthenticated |
| StudentApi.InfoOf | routes/student.js:17-27 | the info row carries every student column except the password, with the joined department name and department code |
| StudentApi.ShowInfo | routes/student.js:14-30 | 401 without a student session; 404 when no student has the session's id; otherwise the info of that student |
| StudentApi.InfoIgnoresPasswords | routes/student.js:27 | the /info response is the same whatever passwords are stored, so no digest reaches it |
| StudentApi.LoginThenInfo | routes/student.js:15-20 | after a student login /info returns the record of the student who logged in |
| StudentApi.VisibleTo | routes/student.js:47 | an announcement is visible to a department when it has no department, or the same non-NULL one; `StudentApi.FeedOfStudent` and `StudentApi.NullDepartmentSeesOnlyGlobal` state the feed it selects |
| StudentApi.Feed | routes/student.js:33-55 | 401 without a student session; 404 when the record is missing; otherwise exactly the announcements for the student's department or for everyone, newest first, each as often as stored, each with its department name |
| StudentApi.FeedOfStudent | routes/student.js:43-48 | in a valid store the feed is determined by the logged-in student's own department |
| StudentApi.NullDepartmentSeesOnlyGlobal | routes/student.js:47 | a student without a department sees exactly the global announcements |
| StudentApi.GlobalAnnouncementReachesEveryone | routes/student.js:47 | a global announcement is in every student's feed |
| StudentApi.PostedAnnouncementReaches | routes/admin.js:206 | an announcement posted with an empty department reaches every student; one posted with a department id reaches that department's students |

## Left out

- bcrypt salting, cost factor and timing: `Hash` is deterministic and injective, and the async hashing errors (500) are not modelled.
- Storage faults: every `err` branch that answers 500 with the driver's message is left out. The NOT NULL violations and the `bcrypt.compare` call without a password are kept.
- Load-time faults are not modelled; the intended query logic is modelled instead:
  - routes/auth.js:14 uses `fs` without requiring it.
  - routes/auth.js issues pg-style `db.query` calls with `$n` placeholders and `result.rows` against the SQLite handle of database.js:101.
- The per-driver differences of those queries are left out, for example `count(*)` arriving as text from a networked SQL service.
- The failure path of `session.destroy` (routes/auth.js:174): the session store is not modelled.
- File handling is not modelled:
  - Multer disk storage, file names built from the clock, the Cloudinary adapter (routes/cloudinary.js) and test-cloudinary.js. An upload is given as its stored path.
  - The fire-and-forget removal of the old image (routes/admin.js:39-47).
- `created_at` DEFAULT CURRENT_TIMESTAMP: the time is the `now` parameter.
- These files are outside the core: server.js (Express wiring, body parsing, static files, the session store), public/js/main.js (browser UI) and the three migration scripts.
- Request bodies are modelled as optional strings. Numbers, arrays and objects sent in JSON are not modelled.
- Route `:id` parameters are integers. A non-numeric id matches no row in the source, and an id absent from the store behaves the same way.
- Admin.ChangePasswordAsWritten: the length check counts characters, not UTF-16 code units as JavaScript's `length` does.
- Common.ParseInt: leading whitespace is not skipped, and only a sign followed by leading decimal digits is read. The contract states the digit-only and empty cases; signed input is covered only by the `Common.ParseIntRendering` round trip.
- Store.IntegerAffinity: only non-empty ASCII digit strings become integers. Signs, surrounding whitespace and real-number text are left as text, while SQLite would convert some of them.
- Password.RegistrationSecret: the year is computed with unbounded integers. JavaScript adds 543 in double precision, so a year above 2^53 rounds (`99999999999999999` gives `100000000000000540`, the model `100000000000000542`).
- Common.IntToString: JavaScript prints a number of magnitude 10^21 or more in exponent form (`1e+21`); the model always prints plain digits. Only absurd years reach that range.
- Password.Hash: bcrypt reads only the first 72 bytes of a password, so two passwords that agree on those bytes share a digest. The model's `Hash` is injective on whole strings. `Admin.ChangeAsWrittenLoginIff` and `Password.VerifyAcceptsOnlyItsSecret` depend on this and hold only for passwords of at most 72 bytes in the real system.
- Store.IntegerAffinity: every non-empty digit string becomes an integer. SQLite stores a digit string above 2^63-1 as REAL instead.
- Foreign keys are not enforced: SQLite leaves them off by default, so deleting a department leaves dangling references. The model keeps them, and they count as "no listed department" in the statistics.
- Registration failures other than UNIQUE (a 500) are not modelled. Every required column is checked before the insert.

## Findings

| source | as written | input that shows it | evidently intended | confidence | as-written member | corrected member |
|---|---|---|---|---|---|---|
| routes/admin.js:116 | the reset stores the digest of `dob.split('-').reverse().join('')`, the eight bare digits DDMMYYYY | date of birth `2008-01-01`: the new secret is `01012008`, but login rewrites every input, `01012008` itself included (to `01/01/2008`), so nothing verifies | reset to the secret registration set, DD/MM/(YYYY+543), which the login form accepts | high; not executed | Admin.ResetAsWrittenLocksOut | Admin.ResetThenLogin |
| routes/admin.js:30 | the "Admin Only" image-upload route is declared before `router.use(isAdmin)` at routes/admin.js:66, so it runs for any session | an anonymous `POST /students/5/upload-image` with a file replaces student 5's image | the gate guards every admin route | high; not executed | Admin.UploadBypassesGate | Admin.GatedDispatch |
| routes/admin.js:159 | change-password stores the digest of the new password as typed, while student login normalises what is typed (routes/auth.js:106-123) | new password `abcd`, or `12345678`: no login input normalises to it | store the password in the form the login normaliser produces | medium; not executed | Admin.ChangeAsWrittenLocksOutLetters | Admin.ChangeThenLogin |

The as-written handlers are `Admin.ResetPasswordAsWritten` and `Admin.ChangePasswordAsWritten`.
`Admin.DispatchAsWritten` is the router as written: the layers as declared and these two
handlers, and `Admin.RouterAsWrittenResetLocksOut` and `Admin.RouterAsWrittenChangeLocksOut`
show the first and third findings through it. `Admin.DispatchGated` is the corrected router:
the gate first and the corrected `Admin.ResetPassword` and `Admin.ChangePassword`, with
`Admin.RouterGatedResetThenLogin` and `Admin.RouterGatedChangeThenLogin` as its counterparts.
