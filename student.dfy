/**
  * The student endpoint (`admin-student_perinfo.php`): picture upload, the
  * cross-table uniqueness check, add, edit, the listings and the single
  * lookup of `students` rows.
  *
  * As for faculty, each request that writes is a method on the `Database`
  * proved equal to a function of the tables it reads (`AddOutcome`,
  * `EditOutcome`), and the lemmas state what those functions guarantee.
  */
module StudentPerinfo {
  import opened Php
  import opened Schema
  import opened Listing

  const UploadDir := "uploads/students/"
  const AllowedExtensions: seq<string> := ["jpg", "jpeg", "png", "gif"]

  /** The error replies of this endpoint. */
  datatype Problem =
    | NumberInStudents | NumberTaken | NumberInFaculty | NumberInStaff
    | AddRefused(error: string) | UpdateRefused(error: string)
    | IdParameterMissing | NotFound
  {
    /** The `message` of the JSON reply. */
    function Text(): string {
      match this
      case NumberInStudents => "Student number already exists in students"
      case NumberTaken => "Student number already exists"
      case NumberInFaculty => "Student number already exists in faculty"
      case NumberInStaff => "Student number already exists in staff"
      case AddRefused(e) => "Failed to add student: " + e
      case UpdateRefused(e) => "Failed to update student: " + e
      case IdParameterMissing => "ID parameter missing"
      case NotFound => "Student not found"
    }
  }

  /** The path handlePictureUpload moves a file to:
      `uploads/students/student_<uniqid>.<extension>`. */
  function StoredPath(uniq: string, ext: string): string {
    UploadDir + ("student_" + uniq) + ("." + ext)
  }

  /** handlePictureUpload: the stored path, or NULL when no file arrived
      without error, its lower-cased extension is not allowed, or it cannot
      be moved. `uniq` is what `uniqid` appends to its prefix. */
  function UploadedPicture(file: Option<Upload>, uniq: string): Option<string> {
    if file.None? || file.value.error != UPLOAD_ERR_OK then None
    else
      var ext := Lower(Extension(file.value.name));
      if ext in AllowedExtensions && file.value.movable then Some(StoredPath(uniq, ext)) else None
  }

  /** A stored path lies in the student directory and carries the extension
      it was built from. */
  lemma StoredPathShape(uniq: string, ext: string)
    requires '.' !in ext
    ensures StartsWith(StoredPath(uniq, ext), UploadDir) && Extension(StoredPath(uniq, ext)) == ext
  {
    var base := UploadDir + ("student_" + uniq);
    AffixesOfConcat(UploadDir, "student_" + uniq, "." + ext);
    ExtensionOfJoin(base, ext);
    assert StoredPath(uniq, ext) == base + "." + ext;
  }

  /** handlePictureUpload stores a file exactly when one arrived without
      error, with a jpg, jpeg, png or gif extension in any letter case, and
      could be moved; the file then lies in the student directory and its
      extension is the lower-cased extension of the client's name. */
  lemma UploadedPictureCases(file: Option<Upload>, uniq: string)
    ensures UploadedPicture(file, uniq).Some? <==>
      && file.Some? && file.value.error == UPLOAD_ERR_OK
      && Lower(Extension(file.value.name)) in AllowedExtensions && file.value.movable
    ensures UploadedPicture(file, uniq).Some? ==>
      var path := UploadedPicture(file, uniq).value;
      && StartsWith(path, UploadDir)
      && Extension(path) == Lower(Extension(file.value.name))
      && Extension(path) in AllowedExtensions
  {
    if UploadedPicture(file, uniq).Some? {
      var ext := Lower(Extension(file.value.name));
      LowerKeepsNoDot(Extension(file.value.name));
      StoredPathShape(uniq, ext);
    }
  }

  function PathSet(picture: Option<string>): set<string> {
    if picture.Some? then {picture.value} else {}
  }

  /** isIdUnique: the problem of the first table that already holds the
      number, or None. Within `students` the row `currentId` is skipped, but
      only when uniqueness is tested for the students table itself. */
  function IsIdUnique(students: map<int, Student>, faculty: map<int, Faculty>, staff: map<int, Staff>,
                      number: string, currentId: Option<int>, currentTable: string): (m: Option<Problem>)
    ensures var self := if currentTable == "students" then currentId else None;
      m.None? <==>
        !StudentHolds(students, number, self) && !FacultyHolds(faculty, number, None) && !StaffHolds(staff, number, None)
    ensures m == Some(NumberInStudents) <==> currentTable != "students" && StudentHolds(students, number, None)
    ensures m == Some(NumberTaken) <==> currentTable == "students" && StudentHolds(students, number, currentId)
    ensures var self := if currentTable == "students" then currentId else None;
      m == Some(NumberInFaculty) <==> !StudentHolds(students, number, self) && FacultyHolds(faculty, number, None)
    ensures var self := if currentTable == "students" then currentId else None;
      m == Some(NumberInStaff) <==>
        !StudentHolds(students, number, self) && !FacultyHolds(faculty, number, None) && StaffHolds(staff, number, None)
  {
    if currentTable != "students" && StudentHolds(students, number, None) then Some(NumberInStudents)
    else if currentTable == "students" && StudentHolds(students, number, currentId) then Some(NumberTaken)
    else if FacultyHolds(faculty, number, None) then Some(NumberInFaculty)
    else if StaffHolds(staff, number, None) then Some(NumberInStaff)
    else None
  }

  /** The POST fields of add and edit. The six columns are read without an
      `isset` test; pin_code and registration_status may be absent. */
  datatype StudentForm = StudentForm(
    studentNumber: string,
    name: string,
    department: string,
    program: string,
    yearLevel: string,
    block: string,
    pinCode: Option<string>,
    registrationStatus: Option<string>)

  /** The row add and edit write: the form's columns, the given picture and
      pin, and the sent registration status or 'Unregistered'. */
  function FormRow(form: StudentForm, picture: Option<string>, pin: string): Student {
    Student(form.studentNumber, form.name, form.department, form.program, form.yearLevel, form.block,
            picture, pin, form.registrationStatus.GetOr("Unregistered"))
  }

  /** The pin add stores: the sent one, or the drawn number zero-padded to six
      digits when the field is absent or empty. */
  function AddedPin(form: StudentForm, randomPin: nat): string
    requires randomPin <= 999999
  {
    if Given(form.pinCode) then form.pinCode.value else PadPin(randomPin)
  }

  /** What a request does to the students table and the picture store, with
      the reply it gets. */
  datatype Effect<R> = Effect(reply: Reply<R>, students: map<int, Student>, pictures: set<string>)

  /** add on the tables as they are, the picture store, and the id the
      INSERT would receive. `randomPin` is what `rand(0, 999999)` returns and
      `dbError` the database's error when it refuses the INSERT. */
  function AddOutcome(students: map<int, Student>, faculty: map<int, Faculty>, staff: map<int, Staff>,
                      pictures: set<string>, nextId: int, form: StudentForm, file: Option<Upload>, uniq: string,
                      randomPin: nat, dbError: Option<string>): Effect<int>
    requires randomPin <= 999999
  {
    var picture := UploadedPicture(file, uniq);
    var stored := pictures + PathSet(picture);
    var problem := IsIdUnique(students, faculty, staff, form.studentNumber, None, "students");
    if problem.Some? then Effect(Fail(problem.value.Text()), students, stored)
    else if dbError.Some? then Effect(Fail(AddRefused(dbError.value).Text()), students, stored)
    else Effect(Ok(nextId), students[nextId := FormRow(form, picture, AddedPin(form, randomPin))], stored)
  }

  /** The `add` action. */
  method AddStudent(db: Database, form: StudentForm, file: Option<Upload>, uniq: string,
                    randomPin: nat, dbError: Option<string>)
    returns (reply: Reply<int>)
    requires db.Valid() && randomPin <= 999999
    modifies db`students, db`nextStudentId, db`pictures
    ensures db.Valid()
    ensures var e := AddOutcome(old(db.students), old(db.faculty), old(db.staff), old(db.pictures), old(db.nextStudentId),
                                form, file, uniq, randomPin, dbError);
      reply == e.reply && db.students == e.students && db.pictures == e.pictures
    ensures db.nextStudentId == if reply.Ok? then old(db.nextStudentId) + 1 else old(db.nextStudentId)
  {
    var picture := UploadedPicture(file, uniq);
    var store := db.pictures + PathSet(picture);
    var problem := IsIdUnique(db.students, db.faculty, db.staff, form.studentNumber, None, "students");
    if problem.Some? {
      db.pictures := store;
      return Fail(problem.value.Text());
    }
    var pin := if Given(form.pinCode) then form.pinCode.value else PadPin(randomPin);
    if dbError.Some? {
      db.pictures := store;
      return Fail(AddRefused(dbError.value).Text());
    }
    var id := db.nextStudentId;
    db.students, db.nextStudentId, db.pictures := db.students[id := FormRow(form, picture, pin)], id + 1, store;
    reply := Ok(id);
  }

  /** add inserts exactly when the number is free in all three tables and the
      INSERT succeeds, and then exactly the submitted row at the fresh id; a
      refused request leaves the table as it was. */
  lemma AddInsertsExactlyWhenUnique(students: map<int, Student>, faculty: map<int, Faculty>, staff: map<int, Staff>,
                                    pictures: set<string>, nextId: int, form: StudentForm, file: Option<Upload>,
                                    uniq: string, randomPin: nat, dbError: Option<string>)
    requires randomPin <= 999999
    ensures var e := AddOutcome(students, faculty, staff, pictures, nextId, form, file, uniq, randomPin, dbError);
      && (e.reply.Ok? <==>
            && !StudentHolds(students, form.studentNumber, None) && !FacultyHolds(faculty, form.studentNumber, None)
            && !StaffHolds(staff, form.studentNumber, None) && dbError.None?)
      && (e.reply.Ok? ==>
            && e.reply.value == nextId
            && e.students == students[nextId := FormRow(form, UploadedPicture(file, uniq), AddedPin(form, randomPin))])
      && (e.reply.Err? ==> e.students == students)
    ensures var e := AddOutcome(students, faculty, staff, pictures, nextId, form, file, uniq, randomPin, dbError);
      var n := form.studentNumber;
      && (StudentHolds(students, n, None) ==> e.reply == Fail(NumberTaken.Text()))
      && (!StudentHolds(students, n, None) && FacultyHolds(faculty, n, None) ==> e.reply == Fail(NumberInFaculty.Text()))
      && (!StudentHolds(students, n, None) && !FacultyHolds(faculty, n, None) && StaffHolds(staff, n, None) ==>
            e.reply == Fail(NumberInStaff.Text()))
      && (IsIdUnique(students, faculty, staff, n, None, "students").None? && dbError.Some? ==>
            e.reply == Fail(AddRefused(dbError.value).Text()))
  {
  }

  /** The pin of a row add inserts: the sent one when it is non-empty;
      otherwise six digits denoting the drawn number. */
  lemma AddedPinShape(form: StudentForm, randomPin: nat)
    requires randomPin <= 999999
    ensures var pin := AddedPin(form, randomPin);
      && !Empty(pin)
      && (Given(form.pinCode) ==> pin == form.pinCode.value)
      && (!Given(form.pinCode) ==> SixDigits(pin) && DigitsValue(pin) == randomPin)
  {
  }

  /** The picture is stored before the number is checked and is never
      removed: a refused add leaves the uploaded file behind. */
  lemma AddKeepsUploadedFile(students: map<int, Student>, faculty: map<int, Faculty>, staff: map<int, Staff>,
                             pictures: set<string>, nextId: int, form: StudentForm, file: Option<Upload>,
                             uniq: string, randomPin: nat, dbError: Option<string>)
    requires randomPin <= 999999
    ensures var e := AddOutcome(students, faculty, staff, pictures, nextId, form, file, uniq, randomPin, dbError);
      && e.pictures == pictures + PathSet(UploadedPicture(file, uniq))
      && (e.reply.Ok? ==> e.students[nextId].picture == UploadedPicture(file, uniq))
  {
  }

  /** add keeps student, faculty and staff numbers distinct. */
  lemma AddKeepsIdentifiersDistinct(students: map<int, Student>, faculty: map<int, Faculty>, staff: map<int, Staff>,
                                    pictures: set<string>, nextId: int, form: StudentForm, file: Option<Upload>,
                                    uniq: string, randomPin: nat, dbError: Option<string>)
    requires randomPin <= 999999
    requires Distinct(students, faculty, staff)
    ensures Distinct(AddOutcome(students, faculty, staff, pictures, nextId, form, file, uniq, randomPin, dbError).students,
                     faculty, staff)
  {
    var e := AddOutcome(students, faculty, staff, pictures, nextId, form, file, uniq, randomPin, dbError);
    if e.reply.Ok? {
      var row := FormRow(form, UploadedPicture(file, uniq), AddedPin(form, randomPin));
      assert !StudentHolds(students, row.studentNumber, None);
      StudentWriteKeepsDistinct(students, faculty, staff, nextId, row);
    }
  }

  /** Every stored student pin is non-empty in PHP's sense. */
  predicate PinsAssigned(students: map<int, Student>) {
    forall id :: id in students ==> !Empty(students[id].pinCode)
  }

  /** add never stores an empty pin. */
  lemma AddKeepsPinsAssigned(students: map<int, Student>, faculty: map<int, Faculty>, staff: map<int, Staff>,
                             pictures: set<string>, nextId: int, form: StudentForm, file: Option<Upload>,
                             uniq: string, randomPin: nat, dbError: Option<string>)
    requires randomPin <= 999999
    requires PinsAssigned(students)
    ensures PinsAssigned(AddOutcome(students, faculty, staff, pictures, nextId, form, file, uniq, randomPin, dbError).students)
  {
    AddedPinShape(form, randomPin);
  }

  /** The pin edit writes: the sent one, or the row's current pin when the
      field is absent or empty. */
  function KeptPin(sent: Option<string>, current: string): string {
    if Given(sent) then sent.value else current
  }

  /** edit on the tables as they are and the picture store. `id` is the
      posted id (None when it was not sent). */
  function EditOutcome(students: map<int, Student>, faculty: map<int, Faculty>, staff: map<int, Staff>,
                       pictures: set<string>, id: Option<int>, form: StudentForm, file: Option<Upload>,
                       uniq: string, dbError: Option<string>): Effect<()>
  {
    var problem := IsIdUnique(students, faculty, staff, form.studentNumber, id, "students");
    if problem.Some? then Effect(Fail(problem.value.Text()), students, pictures)
    else
      var upload := UploadedPicture(file, uniq);
      var stored := pictures + PathSet(upload);
      if dbError.Some? then Effect(Fail(UpdateRefused(dbError.value).Text()), students, stored)
      else if id.Some? && id.value in students then
        var row := students[id.value];
        var picture := if upload.Some? then upload else row.picture;
        Effect(Ok(()), students[id.value := FormRow(form, picture, KeptPin(form.pinCode, row.pinCode))], stored)
      // the UPDATE matches no row and still reports success
      else Effect(Ok(()), students, stored)
  }

  /** The `edit` action. */
  method EditStudent(db: Database, id: Option<int>, form: StudentForm, file: Option<Upload>,
                     uniq: string, dbError: Option<string>)
    returns (reply: Reply<()>)
    modifies db`students, db`pictures
    ensures db.students.Keys == old(db.students.Keys)
    ensures var e := EditOutcome(old(db.students), old(db.faculty), old(db.staff), old(db.pictures), id,
                                 form, file, uniq, dbError);
      reply == e.reply && db.students == e.students && db.pictures == e.pictures
  {
    var problem := IsIdUnique(db.students, db.faculty, db.staff, form.studentNumber, id, "students");
    if problem.Some? {
      return Fail(problem.value.Text());
    }
    var found := id.Some? && id.value in db.students;
    var picture := UploadedPicture(file, uniq);
    var store := db.pictures + PathSet(picture);
    if dbError.Some? {
      db.pictures := store;
      return Fail(UpdateRefused(dbError.value).Text());
    }
    if found {
      var current := db.students[id.value];
      if picture.None? {
        picture := current.picture;
      }
      ghost var before := db.students;
      db.students := db.students[id.value := FormRow(form, picture, KeptPin(form.pinCode, current.pinCode))];
      assert db.students.Keys == before.Keys;
    }
    db.pictures := store;
    reply := Ok(());
  }

  /** edit succeeds exactly when no other row of any table holds the number
      and the UPDATE succeeds; it then rewrites every column of the addressed
      row, keeping the picture when no new one is stored and the pin when
      none is sent. Nothing else changes. */
  lemma EditOverwritesRow(students: map<int, Student>, faculty: map<int, Faculty>, staff: map<int, Staff>,
                          pictures: set<string>, id: Option<int>, form: StudentForm, file: Option<Upload>,
                          uniq: string, dbError: Option<string>)
    ensures var e := EditOutcome(students, faculty, staff, pictures, id, form, file, uniq, dbError);
      && (e.reply.Ok? <==>
            && !StudentHolds(students, form.studentNumber, id) && !FacultyHolds(faculty, form.studentNumber, None)
            && !StaffHolds(staff, form.studentNumber, None) && dbError.None?)
      && e.students.Keys == students.Keys
      && (e.reply.Ok? && id.Some? && id.value in students ==>
            var row := e.students[id.value];
            && row.studentNumber == form.studentNumber && row.name == form.name
            && row.department == form.department && row.program == form.program
            && row.yearLevel == form.yearLevel && row.block == form.block
            && row.picture == (if UploadedPicture(file, uniq).Some? then UploadedPicture(file, uniq)
                               else students[id.value].picture)
            && row.pinCode == KeptPin(form.pinCode, students[id.value].pinCode)
            && row.registrationStatus == (if form.registrationStatus.Some? then form.registrationStatus.value
                                          else "Unregistered")
            && forall k :: k in students && k != id.value ==> e.students[k] == students[k])
      && (e.reply.Err? ==> e.students == students)
    ensures var e := EditOutcome(students, faculty, staff, pictures, id, form, file, uniq, dbError);
      var n := form.studentNumber;
      && (StudentHolds(students, n, id) ==> e.reply == Fail(NumberTaken.Text()))
      && (!StudentHolds(students, n, id) && FacultyHolds(faculty, n, None) ==> e.reply == Fail(NumberInFaculty.Text()))
      && (!StudentHolds(students, n, id) && !FacultyHolds(faculty, n, None) && StaffHolds(staff, n, None) ==>
            e.reply == Fail(NumberInStaff.Text()))
      && (IsIdUnique(students, faculty, staff, n, id, "students").None? && dbError.Some? ==>
            e.reply == Fail(UpdateRefused(dbError.value).Text()))
  {
  }

  /** An edit that names no existing row, whose number no other row holds
      and whose UPDATE does not fail, changes nothing in the table yet is
      reported as a success (a file sent with it is still stored). With a
      taken number it is refused like any other edit. */
  lemma EditOfMissingRowReportsSuccess(students: map<int, Student>, faculty: map<int, Faculty>, staff: map<int, Staff>,
                                       pictures: set<string>, id: Option<int>, form: StudentForm, file: Option<Upload>,
                                       uniq: string, dbError: Option<string>)
    requires id.None? || id.value !in students
    requires IsIdUnique(students, faculty, staff, form.studentNumber, id, "students").None? && dbError.None?
    ensures var e := EditOutcome(students, faculty, staff, pictures, id, form, file, uniq, dbError);
      e.reply == Ok(()) && e.students == students && e.pictures == pictures + PathSet(UploadedPicture(file, uniq))
  {
  }

  /** An edit that does not send registration_status sets the row back to
      'Unregistered'. */
  lemma EditResetsStatus(students: map<int, Student>, faculty: map<int, Faculty>, staff: map<int, Staff>,
                         pictures: set<string>, id: Option<int>, form: StudentForm, file: Option<Upload>,
                         uniq: string, dbError: Option<string>)
    requires id.Some? && id.value in students && form.registrationStatus.None?
    ensures var e := EditOutcome(students, faculty, staff, pictures, id, form, file, uniq, dbError);
      e.reply.Ok? ==> e.students[id.value].registrationStatus == "Unregistered"
  {
  }

  /** edit keeps student, faculty and staff numbers distinct: the number it
      writes was checked against every other row. */
  lemma EditKeepsIdentifiersDistinct(students: map<int, Student>, faculty: map<int, Faculty>, staff: map<int, Staff>,
                                     pictures: set<string>, id: Option<int>, form: StudentForm, file: Option<Upload>,
                                     uniq: string, dbError: Option<string>)
    requires Distinct(students, faculty, staff)
    ensures Distinct(EditOutcome(students, faculty, staff, pictures, id, form, file, uniq, dbError).students, faculty, staff)
  {
    var e := EditOutcome(students, faculty, staff, pictures, id, form, file, uniq, dbError);
    if e.reply.Ok? && id.Some? && id.value in students {
      StudentWriteKeepsDistinct(students, faculty, staff, id.value, e.students[id.value]);
    }
  }

  /** edit never stores an empty pin. */
  lemma EditKeepsPinsAssigned(students: map<int, Student>, faculty: map<int, Faculty>, staff: map<int, Staff>,
                              pictures: set<string>, id: Option<int>, form: StudentForm, file: Option<Upload>,
                              uniq: string, dbError: Option<string>)
    requires PinsAssigned(students)
    ensures PinsAssigned(EditOutcome(students, faculty, staff, pictures, id, form, file, uniq, dbError).students)
  {
  }

  function Name(r: Student): string {
    r.name
  }

  function Department(r: Student): string {
    r.department
  }

  function Program(r: Student): string {
    r.program
  }

  function Everyone(): Student -> bool {
    (r: Student) => true
  }

  /** get_all: every student once, ordered by name. */
  method GetAllStudents(db: Database) returns (rows: seq<Row<Student>>)
    ensures Selects(rows, db.students, Everyone())
    ensures SortedBy(rows, Name)
  {
    rows := SelectOrdered(db.students, Everyone(), Name);
  }

  /** get_departments: each department of some student once, ascending. */
  method GetDepartments(db: Database) returns (departments: seq<string>)
    ensures StrictlySorted(departments)
    ensures forall d :: d in departments <==> exists id :: id in db.students && db.students[id].department == d
  {
    departments := SelectDistinct(db.students, Everyone(), Department);
  }

  /** The rows get_programs reads: those of the department when one is given. */
  function InDepartment(department: Option<string>): Student -> bool {
    (r: Student) => !Given(department) || r.department == department.value
  }

  /** get_programs: each program once, ascending, restricted to the
      department when a non-empty one is sent. */
  method GetPrograms(db: Database, department: Option<string>) returns (programs: seq<string>)
    ensures StrictlySorted(programs)
    ensures forall p :: p in programs <==>
      exists id :: id in db.students && db.students[id].program == p &&
        (Given(department) ==> db.students[id].department == department.value)
  {
    programs := SelectDistinct(db.students, InDepartment(department), Program);
  }

  /** get_student. */
  function GetStudent(db: Database, id: Option<int>): (r: Reply<Student>)
    reads db`students
    ensures r.Ok? <==> id.Some? && id.value in db.students
    ensures r.Ok? ==> r.value == db.students[id.value]
    ensures r == Fail(IdParameterMissing.Text()) <==> id.None?
    ensures r == Fail(NotFound.Text()) <==> id.Some? && id.value !in db.students
  {
    if id.None? then Fail(IdParameterMissing.Text())
    else if id.value in db.students then Ok(db.students[id.value])
    else Fail(NotFound.Text())
  }

  /** The fields of search; the term applies whenever it is set (even when
      empty), the others only when set and non-empty. */
  datatype StudentSearch = StudentSearch(
    term: Option<string>,
    department: Option<string>,
    program: Option<string>,
    yearLevel: Option<string>,
    block: Option<string>,
    registrationStatus: Option<string>)

  /** The WHERE clause search builds. */
  predicate Matches(f: StudentSearch, r: Student) {
    && (f.term.Some? ==> Contains(r.studentNumber, f.term.value) || Contains(r.name, f.term.value))
    && (Given(f.department) ==> r.department == f.department.value)
    && (Given(f.program) ==> r.program == f.program.value)
    && (Given(f.yearLevel) ==> r.yearLevel == f.yearLevel.value)
    && (Given(f.block) ==> r.block == f.block.value)
    && (Given(f.registrationStatus) ==> r.registrationStatus == f.registrationStatus.value)
  }

  function Keep(f: StudentSearch): Student -> bool {
    r => Matches(f, r)
  }

  /** search: every matching student once, ordered by name. */
  method SearchStudents(db: Database, f: StudentSearch) returns (rows: seq<Row<Student>>)
    ensures Selects(rows, db.students, Keep(f))
    ensures SortedBy(rows, Name)
  {
    rows := SelectOrdered(db.students, Keep(f), Name);
  }

  /** A search with an empty or absent term and no other filter matches every
      student, so it lists what get_all lists. */
  lemma UnfilteredSearchMatchesAll(f: StudentSearch, r: Student)
    requires f.term.None? || f.term.value == ""
    requires !Given(f.department) && !Given(f.program) && !Given(f.yearLevel)
    requires !Given(f.block) && !Given(f.registrationStatus)
    ensures Matches(f, r)
  {
    assert OccursAt(r.studentNumber, "", 0);
  }
}
