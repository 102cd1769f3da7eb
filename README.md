# Personal-information endpoints of the LAMS administration back end

This project models the four PHP endpoints through which administrators
maintain the people registered in LAMS: students
(`admin-student_perinfo.php`), faculty (`admin-faculty_perinfo.php`) and
staff (`admin-staff_perinfo.php`), plus the super-administrator's
administrator accounts (`superadmin-user.php`).

The database is one `Schema.Database` object. Each of the tables `students`,
`faculty`, `staff` and `users` is a map from the auto-increment id to the row,
and each has a counter holding the next id. Beside them is the set of picture
paths stored on disk. `Database.Valid()` says that every id is positive and
below its table's counter.

Each request that writes is a module-level method that takes the database
object and updates its fields (`AddFaculty`, `UpdateFaculty`, `AddStudent`,
`EditStudent`, `CreateStaff`, `UpdateStaff`, `AddUser`, `EditUser`,
`DeleteUser`). Each method is proved equal to a pure
function of the tables it reads: `AddOutcome`, `UpdateOutcome`,
`EditOutcome`, `CreateOutcome` or `DeleteOutcome` in its module. That
function gives the JSON reply, the new table and the new picture store. The
lemmas state what these functions guarantee:

- which requests succeed (as an if-and-only-if over the checks), and for
  each refusal which error reply it gets, in the endpoint's order of checks;
  each endpoint's `Problem` type holds its exact messages;
- which row is written, and that nothing else changes;
- what happens to uploaded files;
- invariants each request preserves:
  - student, faculty and staff numbers form one namespace with no
    duplicates (`Schema.Distinct`);
  - usernames are unique;
  - every account is an 'Admin';
  - pincodes keep their format.

The listing requests (`GetFaculty`, `GetAllStudents`, `GetDepartments`,
`GetPrograms`, `SearchStudents`, `GetStaff` without an id, `GetUsers`) are
methods over `Listing.SelectOrdered` and `Listing.SelectDistinct`. These
return every row the WHERE clause accepts, exactly once and in `ORDER BY`
order. The single-row lookups (`GetSingleFaculty`, `GetStudent`,
`FindStaff`, `GetUser`) are functions that read the addressed key of the
table's map.

The reference definitions the lemmas are stated over, with the source they
follow:

- `FacultyPerinfo.UploadDecision`: `handle_picture_upload`,
  LAMS-Capstone/PHP/admin-faculty_perinfo.php:15-45.
- `FacultyPerinfo.AddOutcome` and `FacultyPerinfo.UpdateOutcome`:
  LAMS-Capstone/PHP/admin-faculty_perinfo.php:71-166 and 261-419.
- `FacultyPerinfo.Matches`: the WHERE clause of
  LAMS-Capstone/PHP/admin-faculty_perinfo.php:169-232.
- `StudentPerinfo.AddOutcome` and `StudentPerinfo.EditOutcome`:
  LAMS-Capstone/PHP/admin-student_perinfo.php:91-122 and 124-166.
- `StudentPerinfo.Matches`: the WHERE clause of
  LAMS-Capstone/PHP/admin-student_perinfo.php:244-315.
- `StaffPerinfo.Violations`: `validate_staff_data`,
  LAMS-Capstone/PHP/admin-staff_perinfo.php:14-39.
- `StaffPerinfo.CreateOutcome` and `StaffPerinfo.UpdateOutcome`:
  LAMS-Capstone/PHP/admin-staff_perinfo.php:149-220 and 223-313.
- `StaffPerinfo.Merged`: the `isset(…) ? … : $current_staff[…]` fields of
  LAMS-Capstone/PHP/admin-staff_perinfo.php:252-258.
- `StaffPerinfo.Matches`: the WHERE clause of
  LAMS-Capstone/PHP/admin-staff_perinfo.php:88-146.
- `SuperadminUser.AddOutcome`, `SuperadminUser.EditOutcome` and
  `SuperadminUser.DeleteOutcome`: LAMS-Capstone/PHP/superadmin-user.php:79-133,
  139-204 and 210-247.
- `SuperadminUser.Listed`: the WHERE clause of
  LAMS-Capstone/PHP/superadmin-user.php:253-283.

The quirks of the source are reproduced and stated as lemmas:

- Faculty add keeps an uploaded picture when it then rejects the pincode.
- When a new file is sent and the row has a picture, faculty update deletes
  the current picture before checking the request. A refused update then
  leaves the row naming a file that is gone.
- Student add keeps its upload when the number clashes or the INSERT fails.
- Student edit does not check that the row exists, and reports success
  anyway.
- Student edit resets an omitted `registration_status` to 'Unregistered'.
- Superadmin edit also reports success for an id with no row.

Modules:

- `Php`: PHP and SQL behaviour the endpoints rely on: `empty()`, the six-digit
  pattern, `LIKE '%term%'`, `strtolower`, `pathinfo` extension,
  `str_pad(…, STR_PAD_LEFT)`, string order.
- `Listing`: `SELECT … ORDER BY` and `SELECT DISTINCT`.
- `Schema`: the rows and the database.
- `FacultyPerinfo`, `StudentPerinfo`, `StaffPerinfo`, `SuperadminUser`: one
  per endpoint.

## Model

| member | source | states |
|---|---|---|
| `Php.AllDigits` | LAMS-Capstone/PHP/admin-staff_perinfo.php:34 | a string matches the digit class exactly when every character is 0-9 (with length 6 this is `^\d{6}$`) |
| `Php.Contains` | LAMS-Capstone/PHP/admin-student_perinfo.php:256-261 | `LIKE '%term%'` holds exactly when the term occurs at some position of the column |
| `Php.Lower` | LAMS-Capstone/PHP/admin-student_perinfo.php:18 | `strtolower` keeps the length and lower-cases each ASCII letter in place |
| `Php.Extension` | LAMS-Capstone/PHP/admin-student_perinfo.php:18 | the extension is the dot-free text after the last '.', so the name is `base.ext`; a name without '.' has extension "" |
| `Php.ExtensionOfJoin` | LAMS-Capstone/PHP/admin-student_perinfo.php:22 | the extension of `base.ext` is ext whenever ext has no '.' |
| `Php.PadPin` | LAMS-Capstone/PHP/admin-student_perinfo.php:110 | the padded random pin is six digits and denotes the drawn number |
| `Php.ZeroPad` | LAMS-Capstone/PHP/admin-student_perinfo.php:110 | left zero padding reaches the width and keeps the digits' value |
| `Listing.SelectOrdered` | LAMS-Capstone/PHP/admin-student_perinfo.php:301-309 | the rows returned are exactly the rows the WHERE clause accepts, each once, ordered by the key |
| `Listing.SelectDistinct` | LAMS-Capstone/PHP/admin-student_perinfo.php:183-190 | the values returned are strictly ascending, and a value appears exactly when some accepted row has it |
| `FacultyPerinfo.UploadDecisionCases` | LAMS-Capstone/PHP/admin-faculty_perinfo.php:15-45 | no file or an errored one gives no picture; a file is stored exactly when its MIME type is allowed, it is at most 5 MB and it moves; each refusal has its message, in that order |
| `FacultyPerinfo.StoredPathShape` | LAMS-Capstone/PHP/admin-faculty_perinfo.php:32-39 | a stored picture lies under `uploads/faculty_pictures/` and ends with the client file's extension |
| `FacultyPerinfo.NumberConflict` | LAMS-Capstone/PHP/admin-faculty_perinfo.php:94-131 | the student clash is reported first, then faculty (skipping the row itself on update), then staff, and passes exactly when no table holds the number |
| `FacultyPerinfo.AddFaculty` | LAMS-Capstone/PHP/admin-faculty_perinfo.php:71-166 | the request's reply, faculty table and picture store are those of `AddOutcome`; the id counter advances exactly on success; `Valid` is kept |
| `FacultyPerinfo.AddInsertsExactlyWhenAccepted` | LAMS-Capstone/PHP/admin-faculty_perinfo.php:74-151 | add succeeds exactly when the four fields are set, the upload is not refused, the pincode is fine, the number is free and the INSERT works; it then inserts the submitted row as 'Unregistered' at the fresh id; otherwise the table is unchanged, and the reply is the message of the first failing check: "Missing required fields", the upload's refusal, "Pincode must be exactly 6 digits", the clash, or the INSERT error |
| `FacultyPerinfo.AddedNumberWasFree` | LAMS-Capstone/PHP/admin-faculty_perinfo.php:94-138 | an accepted faculty number was held by no student, faculty or staff row |
| `FacultyPerinfo.AddKeepsIdentifiersDistinct` | LAMS-Capstone/PHP/admin-faculty_perinfo.php:94-145 | add preserves the one-namespace invariant of student, faculty and staff numbers |
| `FacultyPerinfo.AddKeepsPincodesWellFormed` | LAMS-Capstone/PHP/admin-faculty_perinfo.php:81-91 | add keeps every stored pincode NULL, empty or six digits; the new row's pincode is NULL exactly when none or an empty one is sent, and six digits otherwise |
| `FacultyPerinfo.AddPictureLifecycle` | LAMS-Capstone/PHP/admin-faculty_perinfo.php:84-156 | the stored file stays on success; it is unlinked after a clash or a failed INSERT; it is left behind when the pincode is refused |
| `FacultyPerinfo.GetFaculty` | LAMS-Capstone/PHP/admin-faculty_perinfo.php:169-232 | returns every row matching all non-empty filters and the search over number, name, department, program and pincode, once each, ordered by name |
| `FacultyPerinfo.GetSingleFaculty` | LAMS-Capstone/PHP/admin-faculty_perinfo.php:236-258 | an empty id gives "Faculty ID is required", an unknown one "Faculty not found", otherwise the row |
| `FacultyPerinfo.Patched` | LAMS-Capstone/PHP/admin-faculty_perinfo.php:361-397 | update sets the picture, overwrites each field only when it was sent, and keeps the status |
| `FacultyPerinfo.UpdateRefusal` | LAMS-Capstone/PHP/admin-faculty_perinfo.php:303-357 | update passes exactly when the pincode is acceptable, a sent number is free (own row excluded) and the UPDATE works; a bad pincode is reported first, then the number clash, then the UPDATE error |
| `FacultyPerinfo.UpdateFaculty` | LAMS-Capstone/PHP/admin-faculty_perinfo.php:261-419 | the request's reply, faculty table and picture store are those of `UpdateOutcome`; the set of ids is unchanged |
| `FacultyPerinfo.UpdateChangesOnlyTheRow` | LAMS-Capstone/PHP/admin-faculty_perinfo.php:264-400 | empty or unknown ids are refused with their messages; a success writes only the patched row; a refusal changes no row and replies with the upload's refusal or else the first failing check; empty or unknown ids leave the store alone (the written picture and the store after a success are stated by `FacultyPerinfo.UpdatePictureLifecycle`) |
| `FacultyPerinfo.UpdateSucceedsExactlyWhenAccepted` | LAMS-Capstone/PHP/admin-faculty_perinfo.php:261-412 | update succeeds exactly when the row exists, a sent file is accepted and the pincode, number and UPDATE checks pass |
| `FacultyPerinfo.UpdatePictureLifecycle` | LAMS-Capstone/PHP/admin-faculty_perinfo.php:285-400 | a successful update keeps the current picture and the store when no file is sent; with a file, the row gets the newly stored path, which replaces the old file in the store |
| `FacultyPerinfo.UpdateKeepsIdentifiersDistinct` | LAMS-Capstone/PHP/admin-faculty_perinfo.php:311-357 | update preserves the one-namespace invariant |
| `FacultyPerinfo.UpdateKeepsPincodesWellFormed` | LAMS-Capstone/PHP/admin-faculty_perinfo.php:303-308 | update never stores a malformed pincode |
| `FacultyPerinfo.UpdateKeepsRegistrationStatus` | LAMS-Capstone/PHP/admin-faculty_perinfo.php:361-397 | update never changes any registration status |
| `FacultyPerinfo.RefusedUpdatePictureCleanup` | LAMS-Capstone/PHP/admin-faculty_perinfo.php:285-357 | a refused update of an existing row leaves the store unchanged when no file is sent; with a file sent, the current picture is deleted and a newly stored file (one not re-using the current path) is deleted again, whether or not the row had a picture |
| `FacultyPerinfo.RefusedUpdateLeavesStalePicture` | LAMS-Capstone/PHP/admin-faculty_perinfo.php:285-357 | with a new file sent, a refused update leaves the row naming its old picture although that file was deleted, and a newly stored file is deleted too, so no picture is left |
| `StudentPerinfo.StoredPathShape` | LAMS-Capstone/PHP/admin-student_perinfo.php:22-23 | a stored path lies under `uploads/students/` and has exactly the extension it was built from |
| `StudentPerinfo.UploadedPictureCases` | LAMS-Capstone/PHP/admin-student_perinfo.php:8-32 | a file is stored exactly when it arrived without error, its lower-cased extension is jpg, jpeg, png or gif and it moves; the stored path's extension is that lower-cased extension; otherwise the result is NULL without an error |
| `StudentPerinfo.IsIdUnique` | LAMS-Capstone/PHP/admin-student_perinfo.php:34-85 | students, then faculty, then staff, each with its message; the own row is skipped only for table 'students' with a current id; unique exactly when no table holds the number |
| `StudentPerinfo.AddStudent` | LAMS-Capstone/PHP/admin-student_perinfo.php:91-122 | the request's reply, students table and picture store are those of `AddOutcome`; the id counter advances exactly on success; `Valid` is kept |
| `StudentPerinfo.AddInsertsExactlyWhenUnique` | LAMS-Capstone/PHP/admin-student_perinfo.php:92-122 | add inserts exactly when the number is free in all three tables and the INSERT works, and then the submitted row at the fresh id; otherwise nothing, with "Student number already exists", "… in faculty", "… in staff" in that order, or the INSERT error |
| `StudentPerinfo.AddedPinShape` | LAMS-Capstone/PHP/admin-student_perinfo.php:98-111 | a non-empty sent pin is kept; otherwise the pin is six digits denoting the drawn number; never empty |
| `StudentPerinfo.AddKeepsUploadedFile` | LAMS-Capstone/PHP/admin-student_perinfo.php:101-107 | the uploaded file stays in the store whatever the outcome, and a new row points to it |
| `StudentPerinfo.AddKeepsIdentifiersDistinct` | LAMS-Capstone/PHP/admin-student_perinfo.php:103-117 | add preserves the one-namespace invariant |
| `StudentPerinfo.AddKeepsPinsAssigned` | LAMS-Capstone/PHP/admin-student_perinfo.php:109-114 | add never stores an empty pin |
| `StudentPerinfo.EditStudent` | LAMS-Capstone/PHP/admin-student_perinfo.php:124-166 | the request's reply, students table and picture store are those of `EditOutcome`; the set of ids is unchanged |
| `StudentPerinfo.EditOverwritesRow` | LAMS-Capstone/PHP/admin-student_perinfo.php:135-158 | edit succeeds exactly when the number is free (own row excluded) and the UPDATE works; it rewrites every column, keeping the picture without a new upload and the pin when none is sent; the status becomes the sent one or 'Unregistered'; other rows are untouched; a refusal gives the same messages in the same order as add, or the UPDATE error |
| `StudentPerinfo.EditOfMissingRowReportsSuccess` | LAMS-Capstone/PHP/admin-student_perinfo.php:141-161 | when the number is held by no other row and the UPDATE works, an edit of an absent or unknown id changes no row but replies success, and still stores the upload (with a taken number it is refused like any edit) |
| `StudentPerinfo.EditResetsStatus` | LAMS-Capstone/PHP/admin-student_perinfo.php:133 | an edit without registration_status sets 'Unregistered' |
| `StudentPerinfo.EditKeepsIdentifiersDistinct` | LAMS-Capstone/PHP/admin-student_perinfo.php:135-158 | edit preserves the one-namespace invariant |
| `StudentPerinfo.EditKeepsPinsAssigned` | LAMS-Capstone/PHP/admin-student_perinfo.php:153-158 | edit never stores an empty pin |
| `StudentPerinfo.GetAllStudents` | LAMS-Capstone/PHP/admin-student_perinfo.php:168-180 | every student once, ordered by name |
| `StudentPerinfo.GetDepartments` | LAMS-Capstone/PHP/admin-student_perinfo.php:182-194 | each department of some student exactly once, strictly ascending |
| `StudentPerinfo.GetPrograms` | LAMS-Capstone/PHP/admin-student_perinfo.php:196-221 | each program once, strictly ascending, of the given department when a non-empty one is sent |
| `StudentPerinfo.GetStudent` | LAMS-Capstone/PHP/admin-student_perinfo.php:223-242 | no id gives "ID parameter missing", an unknown one "Student not found", otherwise the row |
| `StudentPerinfo.SearchStudents` | LAMS-Capstone/PHP/admin-student_perinfo.php:244-315 | every student matching all non-empty filters and, when a term is set, containing it in number or name; once each, ordered by name |
| `StudentPerinfo.UnfilteredSearchMatchesAll` | LAMS-Capstone/PHP/admin-student_perinfo.php:245-293 | a search with no filters and an empty or absent term accepts every student |
| `StaffPerinfo.ViolationsListEveryFailure` | LAMS-Capstone/PHP/admin-staff_perinfo.php:14-39 | the validator lists a check exactly when it fails |
| `StaffPerinfo.ViolationsInCheckOrder` | LAMS-Capstone/PHP/admin-staff_perinfo.php:17-36 | the errors come in the order number, name, department, role, pincode, each at most once |
| `StaffPerinfo.NoViolationsIffValid` | LAMS-Capstone/PHP/admin-staff_perinfo.php:14-39 | no error exactly when the four fields are non-empty and a non-empty pincode is six digits |
| `StaffPerinfo.ValidateStaffData` | LAMS-Capstone/PHP/admin-staff_perinfo.php:14-39 | the appended error list is the messages of the failing checks, in check order |
| `StaffPerinfo.ValidPincode` | LAMS-Capstone/PHP/admin-staff_perinfo.php:33-36 | a record the validator accepts has a NULL, empty or six-digit pincode |
| `StaffPerinfo.OtherTable` | LAMS-Capstone/PHP/admin-staff_perinfo.php:41-67 | "students" before "faculty", none exactly when neither holds the number; staff is not consulted |
| `StaffPerinfo.CreateStaff` | LAMS-Capstone/PHP/admin-staff_perinfo.php:149-220 | the request's reply and staff table are those of `CreateOutcome`; the counter advances exactly on success; `Valid` is kept |
| `StaffPerinfo.CreateInsertsExactlyWhenAccepted` | LAMS-Capstone/PHP/admin-staff_perinfo.php:159-219 | create inserts exactly when validation passes, no table holds the number and the INSERT works; a validation failure replies "Validation failed" with the list; otherwise "Staff number already exists in the students table", "… faculty table", "… in staff records" in that order, or the INSERT error; the row's status defaults to 'Unregistered' |
| `StaffPerinfo.CreateKeepsIdentifiersDistinct` | LAMS-Capstone/PHP/admin-staff_perinfo.php:175-202 | create preserves the one-namespace invariant |
| `StaffPerinfo.CreateKeepsPincodesWellFormed` | LAMS-Capstone/PHP/admin-staff_perinfo.php:165-202 | create never stores a malformed pincode |
| `StaffPerinfo.UpdateStaff` | LAMS-Capstone/PHP/admin-staff_perinfo.php:223-313 | the request's reply and staff table are those of `UpdateOutcome`; the set of ids is unchanged |
| `StaffPerinfo.UpdateIsMerge` | LAMS-Capstone/PHP/admin-staff_perinfo.php:228-297 | an empty id gives "Staff ID is required" and an unknown one "Staff not found", changing nothing; success writes the merge, each omitted field keeping its value |
| `StaffPerinfo.UpdateSucceedsExactlyWhenAccepted` | LAMS-Capstone/PHP/admin-staff_perinfo.php:260-299 | update succeeds exactly when the merged record validates, a changed number is free elsewhere (own row excluded) and the UPDATE works; an unchanged number is not checked; a refusal replies "Validation failed" with the list, then the other-table, staff-records and UPDATE messages in that order |
| `StaffPerinfo.UpdateKeepsIdentifiersDistinct` | LAMS-Capstone/PHP/admin-staff_perinfo.php:268-297 | update preserves the one-namespace invariant |
| `StaffPerinfo.UpdateKeepsPincodesWellFormed` | LAMS-Capstone/PHP/admin-staff_perinfo.php:258-266 | update never stores a malformed pincode |
| `StaffPerinfo.FindStaff` | LAMS-Capstone/PHP/admin-staff_perinfo.php:71-86 | the row of a known id, otherwise "Staff not found" |
| `StaffPerinfo.GetStaff` | LAMS-Capstone/PHP/admin-staff_perinfo.php:70-146 | a non-empty id looks up one row; otherwise every row matching the filters and the search over number, name, department and role, once each, ordered by name |
| `SuperadminUser.AddUser` | LAMS-Capstone/PHP/superadmin-user.php:79-133 | the request's reply and users table are those of `AddOutcome`; the counter advances exactly on success; `Valid` is kept |
| `SuperadminUser.AddInsertsExactlyWhenAccepted` | LAMS-Capstone/PHP/superadmin-user.php:81-132 | add succeeds exactly when all five fields are non-empty, the pincode is six digits, the username is free and the INSERT works; the row is an 'Admin' holding the password's digest; a refusal replies "All fields are required", "Pincode must be 6 digits", "Username already exists" or the INSERT error, first failing check first |
| `SuperadminUser.AddKeepsUsernamesDistinct` | LAMS-Capstone/PHP/superadmin-user.php:98-118 | add keeps usernames unique |
| `SuperadminUser.AddKeepsAdminsWithPincodes` | LAMS-Capstone/PHP/superadmin-user.php:86-116 | add keeps every account an 'Admin' with a six-digit pincode |
| `SuperadminUser.EditUser` | LAMS-Capstone/PHP/superadmin-user.php:139-204 | the request's reply and users table are those of `EditOutcome`; the set of ids is unchanged |
| `SuperadminUser.EditRewritesAccount` | LAMS-Capstone/PHP/superadmin-user.php:141-203 | edit succeeds exactly when id, name and username are non-empty, a sent pincode is six digits, no other account has the username and the UPDATE works; it sets name, username and role 'Admin', and password and pincode only when sent non-empty; an unknown id changes nothing yet succeeds; a refusal replies "Missing required fields", "Pincode must be 6 digits", "Username already exists" or the UPDATE error, first failing check first |
| `SuperadminUser.EditKeepsUsernamesDistinct` | LAMS-Capstone/PHP/superadmin-user.php:159-188 | edit keeps usernames unique |
| `SuperadminUser.EditKeepsAdminsWithPincodes` | LAMS-Capstone/PHP/superadmin-user.php:148-188 | edit keeps every account an 'Admin' with a six-digit pincode |
| `SuperadminUser.DeleteUser` | LAMS-Capstone/PHP/superadmin-user.php:210-247 | the request's reply and users table are those of `DeleteOutcome`; `Valid` is kept |
| `SuperadminUser.DeleteRemovesExactlyTheAccount` | LAMS-Capstone/PHP/superadmin-user.php:212-246 | delete removes exactly the addressed account, and only when the id is non-empty and known, is not the session's user and the DELETE works; otherwise it replies "User ID is required", "User not found", "Cannot delete your own account" or the DELETE error, in that order |
| `SuperadminUser.DeleteKeepsInvariants` | LAMS-Capstone/PHP/superadmin-user.php:240-243 | delete keeps usernames unique, all accounts 'Admin' and pincodes six digits |
| `SuperadminUser.GetUsers` | LAMS-Capstone/PHP/superadmin-user.php:253-283 | every 'Admin' account whose name or username contains a non-empty search, once each, ordered by name, without password or pincode |
| `SuperadminUser.GetUser` | LAMS-Capstone/PHP/superadmin-user.php:35-51 | an empty id gives "User ID is required", an unknown one "User not found", otherwise the account's public columns |

## Left out

- SQL text, prepared statements and the connection: tables are maps and each
  statement is a read or an update of them.
- SELECT failures are not modelled; only a refused INSERT, UPDATE or DELETE
  is (the `dbError` parameter). Examples: "Failed to fetch students",
  "Database query error", a `get_result` that fails.
- Escaping and trimming (`sanitize_input`, `real_escape_string`) are the
  identity. So a staff field of blanks counts as non-empty here, while PHP
  trims it first.
- `customHash` is the uninterpreted parameter `hash`.
- `uniqid` and `rand(0, 999999)` are the parameters `uniq` and `randomPin`.
- The file system is the set of stored paths. `mkdir`, `file_exists` and the
  file contents are not modelled. `move_uploaded_file` is the `movable` flag
  of an upload.
- `created_at`, `updated_at` and `NOW()` are not modelled; the users listing
  also returns `created_at`.
- `LIKE` is a case-sensitive substring test with `%` and `_` taken literally.
  Username and number equality ignore MySQL's case-insensitive collation.
- Collation: `ORDER BY`, `DISTINCT` and the equality filters compare strings
  by code point (`Php.LessEq`, `Listing.SelectDistinct`, the `Matches`
  predicates). MySQL's default collation ignores case, so "cs" and "CS" are
  one department there and two in the model, and the listing order of names
  differing only in case may differ.
- Ids are integers. A non-numeric id string, which PHP and MySQL turn into 0,
  is only represented as 0, and 0 counts as an empty id in the model. Such a
  request therefore gets the empty-id reply here where the source, which
  sees a non-empty string, looks the id up and finds nothing: for example
  staff GET lists every row where the source replies "Staff not found";
  faculty lookup and update, staff update and superadmin lookup and delete
  reply "… ID is required" where the source replies "… not found"; and
  superadmin edit replies "Missing required fields" where the source's
  UPDATE of id 0 reports success. Student requests, which test only that
  the id is set, are not affected.
- The six column fields of student add and edit are taken as sent, because
  the source reads them without `isset`.
- A refused INSERT, UPDATE or DELETE is modelled as the statement returning
  false (the `dbError` parameter), as the source's `execute()` branches
  expect. If the connection throws on errors instead (mysqli's exception
  mode), faculty add's `catch` would skip the unlink of the new picture and
  the other endpoints would not send their "Failed to …" replies; the
  connection setup is not part of this model.
- HTTP method and action dispatch, request-body decoding, JSON encoding, and
  the "Invalid action" and "Exception: …" replies are not modelled.
- Inserts take the counter's id, and the counter advances only on success.
  MySQL may also use up an id on a failed INSERT.
- The session's `user_id` is an integer compared with the id. If the session
  held a string, PHP's `===` would never match.
- The race between a uniqueness check and its INSERT or UPDATE is out of
  scope for a sequential model.
- `FacultyPerinfo.UpdateFaculty`, `StudentPerinfo.EditStudent`,
  `StaffPerinfo.UpdateStaff` and `SuperadminUser.EditUser` promise that the
  set of ids is unchanged rather than `Valid()`. They do not touch the
  counters, so the two say the same.
