/**
  * The faculty endpoint (`admin-faculty_perinfo.php`): picture upload, add,
  * filtered list, single lookup and partial update of `faculty` rows.
  *
  * Each request that writes is a method on the `Database` proved equal to a
  * function of the tables it reads (`AddOutcome`, `UpdateOutcome`); the
  * lemmas below state what those functions guarantee.
  */
module FacultyPerinfo {
  import opened Php
  import opened Schema
  import opened Listing

  const PictureDir := "uploads/faculty_pictures/"
  const AllowedTypes: seq<string> := ["image/jpeg", "image/png", "image/gif", "image/webp"]
  const MaxPictureSize := 5 * 1024 * 1024

  /** The error replies of this endpoint. */
  datatype Problem =
    | InvalidType | TooLarge | MoveFailed
    | MissingFields | BadPincodeFormat
    | StudentClash | FacultyClash | StaffClash
    | IdRequired | NotFound
    | AddRefused(error: string) | UpdateRefused(error: string)
  {
    /** The `message` of the JSON reply. */
    function Text(): string {
      match this
      case InvalidType => "Invalid file type. Only JPEG, PNG, GIF, and WebP are allowed."
      case TooLarge => "File size too large. Maximum 5MB allowed."
      case MoveFailed => "Failed to upload file."
      case MissingFields => "Missing required fields"
      case BadPincodeFormat => "Pincode must be exactly 6 digits"
      case StudentClash => "Faculty number already exists as a student number"
      case FacultyClash => "Faculty number already exists"
      case StaffClash => "Faculty number already exists as a staff number"
      case IdRequired => "Faculty ID is required"
      case NotFound => "Faculty not found"
      case AddRefused(e) => "Failed to add faculty: " + e
      case UpdateRefused(e) => "Failed to update faculty: " + e
    }
  }

  /** What `handle_picture_upload('picture')` makes of the request's file:
      nothing, a stored file, or the exception it throws. */
  datatype UploadOutcome = NoPicture | Stored(path: string) | Rejected(problem: Problem)

  /** The decision of `handle_picture_upload`; `uniq` is what `uniqid` returns. */
  function UploadDecision(file: Option<Upload>, uniq: string): UploadOutcome {
    if file.None? || file.value.error != UPLOAD_ERR_OK then NoPicture
    else if file.value.mimeType !in AllowedTypes then Rejected(InvalidType)
    else if file.value.size > MaxPictureSize then Rejected(TooLarge)
    else if !file.value.movable then Rejected(MoveFailed)
    else Stored(StoredPath(uniq, file.value.name))
  }

  /** The path `handle_picture_upload` moves a file to:
      `uploads/faculty_pictures/faculty_<uniqid>.<extension>`. */
  function StoredPath(uniq: string, name: string): string {
    PictureDir + ("faculty_" + uniq) + ("." + Extension(name))
  }

  /** handle_picture_upload stores a file exactly when one arrived without
      error, has an allowed type, is at most 5 MB and can be moved; each
      refusal has its own message, checked in that order. */
  lemma UploadDecisionCases(file: Option<Upload>, uniq: string)
    ensures var o := UploadDecision(file, uniq);
      && (o.NoPicture? <==> file.None? || file.value.error != UPLOAD_ERR_OK)
      && (o.Stored? <==>
            && file.Some? && file.value.error == UPLOAD_ERR_OK
            && file.value.mimeType in AllowedTypes && file.value.size <= MaxPictureSize && file.value.movable)
      && (o == Rejected(InvalidType) <==>
            file.Some? && file.value.error == UPLOAD_ERR_OK && file.value.mimeType !in AllowedTypes)
      && (o == Rejected(TooLarge) <==>
            && file.Some? && file.value.error == UPLOAD_ERR_OK
            && file.value.mimeType in AllowedTypes && file.value.size > MaxPictureSize)
      && (o == Rejected(MoveFailed) <==>
            && file.Some? && file.value.error == UPLOAD_ERR_OK
            && file.value.mimeType in AllowedTypes && file.value.size <= MaxPictureSize && !file.value.movable)
  {
  }

  /** A stored picture lies in the faculty picture directory and keeps the
      extension of the client's file name. */
  lemma StoredPathShape(file: Option<Upload>, uniq: string)
    ensures UploadDecision(file, uniq).Stored? ==>
      && StartsWith(UploadDecision(file, uniq).path, PictureDir)
      && EndsWith(UploadDecision(file, uniq).path, "." + Extension(file.value.name))
  {
    if UploadDecision(file, uniq).Stored? {
      AffixesOfConcat(PictureDir, "faculty_" + uniq, "." + Extension(file.value.name));
    }
  }

  /** The picture store once handle_picture_upload has moved an accepted
      file into place. */
  function WithUpload(pictures: set<string>, o: UploadOutcome): set<string> {
    if o.Stored? then pictures + {o.path} else pictures
  }

  /** The uniqueness check of add_faculty (self = None) and update_faculty
      (self = the row being updated): students, then faculty, then staff; the
      problem of the first table that holds the number, or None. */
  function NumberConflict(students: map<int, Student>, faculty: map<int, Faculty>, staff: map<int, Staff>,
                          number: string, self: Option<int>): (m: Option<Problem>)
    ensures m.None? <==>
      !StudentHolds(students, number, None) && !FacultyHolds(faculty, number, self) && !StaffHolds(staff, number, None)
    ensures m == Some(StudentClash) <==> StudentHolds(students, number, None)
    ensures m == Some(FacultyClash) <==>
      !StudentHolds(students, number, None) && FacultyHolds(faculty, number, self)
    ensures m == Some(StaffClash) <==>
      !StudentHolds(students, number, None) && !FacultyHolds(faculty, number, self) && StaffHolds(staff, number, None)
  {
    if StudentHolds(students, number, None) then Some(StudentClash)
    else if FacultyHolds(faculty, number, self) then Some(FacultyClash)
    else if StaffHolds(staff, number, None) then Some(StaffClash)
    else None
  }

  /** Every stored faculty pincode is NULL, empty in PHP's sense, or six digits. */
  predicate PincodesWellFormed(faculty: map<int, Faculty>) {
    forall id :: id in faculty && faculty[id].pincode.Some? ==>
      Empty(faculty[id].pincode.value) || SixDigits(faculty[id].pincode.value)
  }

  /** The POST fields of add_faculty and update_faculty; None is "not set". */
  datatype FacultyForm = FacultyForm(
    facultyNumber: Option<string>,
    name: Option<string>,
    department: Option<string>,
    program: Option<string>,
    pincode: Option<string>)

  /** add_faculty only tests that the four fields are set (an empty string passes). */
  predicate HasRequiredFields(form: FacultyForm) {
    form.facultyNumber.Some? && form.name.Some? && form.department.Some? && form.program.Some?
  }

  /** The pincode add_faculty stores: NULL when absent or empty. */
  function AddedPincode(form: FacultyForm): Option<string> {
    if Given(form.pincode) then form.pincode else None
  }

  /** The row add_faculty inserts. */
  function NewFaculty(form: FacultyForm, picture: Option<string>): Faculty
    requires HasRequiredFields(form)
  {
    Faculty(form.facultyNumber.value, form.name.value, form.department.value, form.program.value,
            picture, AddedPincode(form), "Unregistered")
  }

  function PathOf(o: UploadOutcome): Option<string> {
    if o.Stored? then Some(o.path) else None
  }

  function PathSet(o: UploadOutcome): set<string> {
    if o.Stored? then {o.path} else {}
  }

  /** A pincode that is sent, non-empty, and not six digits. */
  predicate BadPincode(pincode: Option<string>) {
    Given(pincode) && !SixDigits(pincode.value)
  }

  /** What a request does to the faculty table and the picture store, with
      the reply it gets. */
  datatype Effect<R> = Effect(reply: Reply<R>, faculty: map<int, Faculty>, pictures: set<string>)

  /** add_faculty on the tables as they are, the picture store, and the id
      the INSERT would receive. `uniq` is what `uniqid` returns and `dbError`
      the database's error when it refuses the INSERT. */
  function AddOutcome(students: map<int, Student>, faculty: map<int, Faculty>, staff: map<int, Staff>,
                      pictures: set<string>, nextId: int,
                      form: FacultyForm, file: Option<Upload>, uniq: string, dbError: Option<string>): Effect<int>
  {
    if !HasRequiredFields(form) then Effect(Fail(MissingFields.Text()), faculty, pictures)
    else
      var up := UploadDecision(file, uniq);
      if up.Rejected? then Effect(Fail(up.problem.Text()), faculty, pictures)
      else if BadPincode(form.pincode) then Effect(Fail(BadPincodeFormat.Text()), faculty, WithUpload(pictures, up))
      else
        var conflict := NumberConflict(students, faculty, staff, form.facultyNumber.value, None);
        if conflict.Some? then Effect(Fail(conflict.value.Text()), faculty, pictures - PathSet(up))
        else if dbError.Some? then Effect(Fail(AddRefused(dbError.value).Text()), faculty, pictures - PathSet(up))
        else Effect(Ok(nextId), faculty[nextId := NewFaculty(form, PathOf(up))], WithUpload(pictures, up))
  }

  /** add_faculty. */
  method AddFaculty(db: Database, form: FacultyForm, file: Option<Upload>, uniq: string, dbError: Option<string>)
    returns (reply: Reply<int>)
    requires db.Valid()
    modifies db`faculty, db`nextFacultyId, db`pictures
    ensures db.Valid()
    ensures var e := AddOutcome(old(db.students), old(db.faculty), old(db.staff), old(db.pictures), old(db.nextFacultyId),
                                form, file, uniq, dbError);
      reply == e.reply && db.faculty == e.faculty && db.pictures == e.pictures
    ensures db.nextFacultyId == if reply.Ok? then old(db.nextFacultyId) + 1 else old(db.nextFacultyId)
  {
    if !HasRequiredFields(form) {
      return Fail(MissingFields.Text());
    }
    var number := form.facultyNumber.value;
    var pincode := AddedPincode(form);
    var store := db.pictures;
    var up := NoPicture;
    if file.Some? {
      up := UploadDecision(file, uniq);
      if up.Rejected? {
        return Fail(up.problem.Text());
      }
      store := WithUpload(store, up);
    }
    var picturePath := PathOf(up);
    if BadPincode(pincode) {
      db.pictures := store;
      return Fail(BadPincodeFormat.Text());
    }
    var conflict := NumberConflict(db.students, db.faculty, db.staff, number, None);
    if conflict.Some? || dbError.Some? {
      if Given(picturePath) {
        store := store - {picturePath.value};
      }
      db.pictures := store;
      return Fail(if conflict.Some? then conflict.value.Text() else AddRefused(dbError.value).Text());
    }
    var id := db.nextFacultyId;
    db.faculty, db.nextFacultyId, db.pictures := db.faculty[id := NewFaculty(form, picturePath)], id + 1, store;
    reply := Ok(id);
  }

  /** add_faculty inserts exactly when every check passes, and then exactly
      the submitted row, unregistered, at the fresh id; a refused request
      leaves the table as it was. */
  lemma AddInsertsExactlyWhenAccepted(students: map<int, Student>, faculty: map<int, Faculty>, staff: map<int, Staff>,
                                      pictures: set<string>, nextId: int,
                                      form: FacultyForm, file: Option<Upload>, uniq: string, dbError: Option<string>)
    ensures var e := AddOutcome(students, faculty, staff, pictures, nextId, form, file, uniq, dbError);
      && (e.reply.Ok? <==>
            && HasRequiredFields(form) && !UploadDecision(file, uniq).Rejected? && !BadPincode(form.pincode)
            && NumberConflict(students, faculty, staff, form.facultyNumber.value, None).None? && dbError.None?)
      && (e.reply.Ok? ==>
            && e.reply.value == nextId
            && e.faculty == faculty[nextId := NewFaculty(form, PathOf(UploadDecision(file, uniq)))]
            && e.faculty[nextId].registrationStatus == "Unregistered")
      && (e.reply.Err? ==> e.faculty == faculty)
    ensures var e := AddOutcome(students, faculty, staff, pictures, nextId, form, file, uniq, dbError);
      var up := UploadDecision(file, uniq);
      && (!HasRequiredFields(form) ==> e.reply == Fail(MissingFields.Text()))
      && (HasRequiredFields(form) && up.Rejected? ==> e.reply == Fail(up.problem.Text()))
      && (HasRequiredFields(form) && !up.Rejected? && BadPincode(form.pincode) ==>
            e.reply == Fail(BadPincodeFormat.Text()))
      && (HasRequiredFields(form) && !up.Rejected? && !BadPincode(form.pincode) ==>
            var conflict := NumberConflict(students, faculty, staff, form.facultyNumber.value, None);
            && (conflict.Some? ==> e.reply == Fail(conflict.value.Text()))
            && (conflict.None? && dbError.Some? ==> e.reply == Fail(AddRefused(dbError.value).Text())))
  {
  }

  /** A faculty number add_faculty accepts was held by no student, faculty or
      staff row. */
  lemma AddedNumberWasFree(students: map<int, Student>, faculty: map<int, Faculty>, staff: map<int, Staff>,
                           pictures: set<string>, nextId: int,
                           form: FacultyForm, file: Option<Upload>, uniq: string, dbError: Option<string>)
    ensures var e := AddOutcome(students, faculty, staff, pictures, nextId, form, file, uniq, dbError);
      e.reply.Ok? ==>
        && (forall k :: k in students ==> students[k].studentNumber != e.faculty[nextId].facultyNumber)
        && (forall k :: k in faculty ==> faculty[k].facultyNumber != e.faculty[nextId].facultyNumber)
        && (forall k :: k in staff ==> staff[k].staffNumber != e.faculty[nextId].facultyNumber)
  {
    var e := AddOutcome(students, faculty, staff, pictures, nextId, form, file, uniq, dbError);
    if e.reply.Ok? {
      var number := form.facultyNumber.value;
      assert NumberConflict(students, faculty, staff, number, None).None?;
      assert e.faculty[nextId].facultyNumber == number;
    }
  }

  /** add_faculty keeps student, faculty and staff numbers distinct. */
  lemma AddKeepsIdentifiersDistinct(students: map<int, Student>, faculty: map<int, Faculty>, staff: map<int, Staff>,
                                    pictures: set<string>, nextId: int,
                                    form: FacultyForm, file: Option<Upload>, uniq: string, dbError: Option<string>)
    requires Distinct(students, faculty, staff)
    ensures Distinct(students, AddOutcome(students, faculty, staff, pictures, nextId, form, file, uniq, dbError).faculty, staff)
  {
    var e := AddOutcome(students, faculty, staff, pictures, nextId, form, file, uniq, dbError);
    if e.reply.Ok? {
      var number := form.facultyNumber.value;
      assert NumberConflict(students, faculty, staff, number, None).None?;
      FacultyWriteKeepsDistinct(students, faculty, staff, nextId, NewFaculty(form, PathOf(UploadDecision(file, uniq))));
    }
  }

  /** add_faculty stores no malformed pincode: the new row's pincode is NULL
      exactly when none (or an empty one) is sent, and six digits otherwise. */
  lemma AddKeepsPincodesWellFormed(students: map<int, Student>, faculty: map<int, Faculty>, staff: map<int, Staff>,
                                   pictures: set<string>, nextId: int,
                                   form: FacultyForm, file: Option<Upload>, uniq: string, dbError: Option<string>)
    requires PincodesWellFormed(faculty)
    ensures PincodesWellFormed(AddOutcome(students, faculty, staff, pictures, nextId, form, file, uniq, dbError).faculty)
    ensures var e := AddOutcome(students, faculty, staff, pictures, nextId, form, file, uniq, dbError);
      e.reply.Ok? ==>
        && nextId in e.faculty
        && (e.faculty[nextId].pincode.None? <==> !Given(form.pincode))
        && (e.faculty[nextId].pincode.Some? ==> SixDigits(e.faculty[nextId].pincode.value))
  {
    var e := AddOutcome(students, faculty, staff, pictures, nextId, form, file, uniq, dbError);
    AddInsertsExactlyWhenAccepted(students, faculty, staff, pictures, nextId, form, file, uniq, dbError);
    if e.reply.Ok? {
      forall id | id in e.faculty && e.faculty[id].pincode.Some?
        ensures Empty(e.faculty[id].pincode.value) || SixDigits(e.faculty[id].pincode.value)
      {
        if id == nextId {
          assert !BadPincode(form.pincode);
        }
      }
    }
  }

  /** The picture store after add_faculty: the stored file stays on success,
      is unlinked again when the number clashes or the INSERT fails, and is
      left behind when the pincode is refused. */
  lemma AddPictureLifecycle(students: map<int, Student>, faculty: map<int, Faculty>, staff: map<int, Staff>,
                            pictures: set<string>, nextId: int,
                            form: FacultyForm, file: Option<Upload>, uniq: string, dbError: Option<string>)
    ensures var e := AddOutcome(students, faculty, staff, pictures, nextId, form, file, uniq, dbError);
      var up := UploadDecision(file, uniq);
      var pincodeRefused := HasRequiredFields(form) && !up.Rejected? && BadPincode(form.pincode);
      && (e.reply.Ok? ==> e.pictures == pictures + PathSet(up) && e.faculty[nextId].picture == PathOf(up))
      && (!HasRequiredFields(form) ==> e.pictures == pictures)
      && (HasRequiredFields(form) && e.reply.Err? && !pincodeRefused ==> e.pictures == pictures - PathSet(up))
      && (pincodeRefused ==> e.reply.Err? && e.pictures == pictures + PathSet(up))
  {
  }

  /** The filters of get_faculty; each applies only when set and non-empty. */
  datatype FacultyFilter = FacultyFilter(
    department: Option<string>,
    program: Option<string>,
    registrationStatus: Option<string>,
    pincode: Option<string>,
    search: Option<string>)

  /** The search of get_faculty: the term occurs in the number, name,
      department, program or (non-NULL) pincode. */
  predicate SearchHit(r: Faculty, term: string) {
    || Contains(r.facultyNumber, term) || Contains(r.name, term) || Contains(r.department, term)
    || Contains(r.program, term) || (r.pincode.Some? && Contains(r.pincode.value, term))
  }

  /** The WHERE clause get_faculty builds. */
  predicate Matches(f: FacultyFilter, r: Faculty) {
    && (Given(f.department) ==> r.department == f.department.value)
    && (Given(f.program) ==> r.program == f.program.value)
    && (Given(f.registrationStatus) ==> r.registrationStatus == f.registrationStatus.value)
    && (Given(f.pincode) ==> r.pincode == Some(f.pincode.value))
    && (Given(f.search) ==> SearchHit(r, f.search.value))
  }

  function Keep(f: FacultyFilter): Faculty -> bool {
    r => Matches(f, r)
  }

  function Name(r: Faculty): string {
    r.name
  }

  /** get_faculty: every matching row once, ordered by name. */
  method GetFaculty(db: Database, f: FacultyFilter) returns (rows: seq<Row<Faculty>>)
    ensures Selects(rows, db.faculty, Keep(f))
    ensures SortedBy(rows, Name)
  {
    rows := SelectOrdered(db.faculty, Keep(f), Name);
  }

  /** get_single_faculty. */
  function GetSingleFaculty(db: Database, facultyId: Option<int>): (r: Reply<Faculty>)
    reads db`faculty
    ensures r.Ok? <==> !IdMissing(facultyId) && facultyId.value in db.faculty
    ensures r.Ok? ==> r.value == db.faculty[facultyId.value]
    ensures r == Fail(IdRequired.Text()) <==> IdMissing(facultyId)
    ensures r == Fail(NotFound.Text()) <==> !IdMissing(facultyId) && facultyId.value !in db.faculty
  {
    if IdMissing(facultyId) then Fail(IdRequired.Text())
    else if facultyId.value in db.faculty then Ok(db.faculty[facultyId.value])
    else Fail(NotFound.Text())
  }

  /** The columns update_faculty sets: the picture always, every other field
      only when it was sent. */
  function Patched(row: Faculty, form: FacultyForm, picture: Option<string>): (r: Faculty)
    ensures r.picture == picture
    ensures r.facultyNumber == form.facultyNumber.GetOr(row.facultyNumber)
    ensures r.name == form.name.GetOr(row.name)
    ensures r.department == form.department.GetOr(row.department)
    ensures r.program == form.program.GetOr(row.program)
    ensures r.pincode == (if form.pincode.Some? then form.pincode else row.pincode)
    ensures r.registrationStatus == row.registrationStatus
  {
    var r := row.(picture := picture);
    var r := if form.facultyNumber.Some? then r.(facultyNumber := form.facultyNumber.value) else r;
    var r := if form.name.Some? then r.(name := form.name.value) else r;
    var r := if form.department.Some? then r.(department := form.department.value) else r;
    var r := if form.program.Some? then r.(program := form.program.value) else r;
    if form.pincode.Some? then r.(pincode := form.pincode) else r
  }

  /** update_faculty sends a new file to handle_picture_upload only when it
      arrived without error. */
  predicate UploadAttempted(file: Option<Upload>) {
    file.Some? && file.value.error == UPLOAD_ERR_OK
  }

  /** The store once update_faculty has deleted the current picture (which it
      does before the new file is checked). */
  function Cleared(pictures: set<string>, current: Option<string>, file: Option<Upload>): set<string> {
    if UploadAttempted(file) && Given(current) then pictures - {current.value} else pictures
  }

  /** The checks update_faculty makes once the picture is handled: the
      pincode, then (when a number is sent) its uniqueness against every row
      but this one, then the UPDATE itself; the first that fails, or None. */
  function UpdateRefusal(students: map<int, Student>, faculty: map<int, Faculty>, staff: map<int, Staff>,
                         id: int, form: FacultyForm, dbError: Option<string>): (p: Option<Problem>)
    ensures p.None? <==>
      && !BadPincode(form.pincode)
      && (form.facultyNumber.Some? ==> NumberConflict(students, faculty, staff, form.facultyNumber.value, Some(id)).None?)
      && dbError.None?
    ensures p == Some(BadPincodeFormat) <==> BadPincode(form.pincode)
    ensures !BadPincode(form.pincode) && form.facultyNumber.Some? ==>
      var conflict := NumberConflict(students, faculty, staff, form.facultyNumber.value, Some(id));
      && (conflict.Some? ==> p == conflict)
      && (conflict.None? && dbError.Some? ==> p == Some(UpdateRefused(dbError.value)))
    ensures !BadPincode(form.pincode) && form.facultyNumber.None? && dbError.Some? ==>
      p == Some(UpdateRefused(dbError.value))
  {
    if BadPincode(form.pincode) then Some(BadPincodeFormat)
    else if form.facultyNumber.Some? && NumberConflict(students, faculty, staff, form.facultyNumber.value, Some(id)).Some?
    then NumberConflict(students, faculty, staff, form.facultyNumber.value, Some(id))
    else if dbError.Some? then Some(UpdateRefused(dbError.value))
    else None
  }

  /** update_faculty on the tables as they are and the picture store. */
  function UpdateOutcome(students: map<int, Student>, faculty: map<int, Faculty>, staff: map<int, Staff>,
                         pictures: set<string>, facultyId: Option<int>,
                         form: FacultyForm, file: Option<Upload>, uniq: string, dbError: Option<string>)
    : Effect<Option<string>>
  {
    if IdMissing(facultyId) then Effect(Fail(IdRequired.Text()), faculty, pictures)
    else if facultyId.value !in faculty then Effect(Fail(NotFound.Text()), faculty, pictures)
    else
      var id := facultyId.value;
      var current := faculty[id].picture;
      var cleared := Cleared(pictures, current, file);
      var up := if UploadAttempted(file) then UploadDecision(file, uniq) else NoPicture;
      if up.Rejected? then Effect(Fail(up.problem.Text()), faculty, cleared)
      else
        var picture := if up.Stored? then Some(up.path) else current;
        var stored := WithUpload(cleared, up);
        var refusal := UpdateRefusal(students, faculty, staff, id, form, dbError);
        if refusal.None? then Effect(Ok(picture), faculty[id := Patched(faculty[id], form, picture)], stored)
        // the new file (never a re-used current path) is unlinked again
        else if picture != current then Effect(Fail(refusal.value.Text()), faculty, stored - {picture.value})
        else Effect(Fail(refusal.value.Text()), faculty, stored)
  }

  /** update_faculty. */
  method UpdateFaculty(db: Database, facultyId: Option<int>, form: FacultyForm, file: Option<Upload>,
                       uniq: string, dbError: Option<string>)
    returns (reply: Reply<Option<string>>)
    modifies db`faculty, db`pictures
    ensures db.faculty.Keys == old(db.faculty.Keys)
    ensures var e := UpdateOutcome(old(db.students), old(db.faculty), old(db.staff), old(db.pictures), facultyId,
                                   form, file, uniq, dbError);
      reply == e.reply && db.faculty == e.faculty && db.pictures == e.pictures
  {
    if IdMissing(facultyId) {
      return Fail(IdRequired.Text());
    }
    var id := facultyId.value;
    if id !in db.faculty {
      return Fail(NotFound.Text());
    }
    var current := db.faculty[id].picture;
    var store := db.pictures;
    var picturePath := current;
    if UploadAttempted(file) {
      if Given(current) {
        store := store - {current.value};
      }
      var up := UploadDecision(file, uniq);
      if up.Rejected? {
        db.pictures := store;
        return Fail(up.problem.Text());
      }
      store := WithUpload(store, up);
      picturePath := PathOf(up);
    }
    var refusal := UpdateRefusal(db.students, db.faculty, db.staff, id, form, dbError);
    if refusal.Some? {
      if picturePath != current {
        store := store - {picturePath.value};
      }
      db.pictures := store;
      return Fail(refusal.value.Text());
    }
    var row := Patched(db.faculty[id], form, picturePath);
    ghost var before := db.faculty;
    db.faculty, db.pictures := db.faculty[id := row], store;
    assert db.faculty.Keys == before.Keys;
    reply := Ok(picturePath);
  }

  /** update_faculty changes only the addressed row, and only when every
      check passes; the reply then carries the picture the row now has. A
      refusal names the first check that failed. */
  lemma UpdateChangesOnlyTheRow(students: map<int, Student>, faculty: map<int, Faculty>, staff: map<int, Staff>,
                                pictures: set<string>, facultyId: Option<int>,
                                form: FacultyForm, file: Option<Upload>, uniq: string, dbError: Option<string>)
    ensures var e := UpdateOutcome(students, faculty, staff, pictures, facultyId, form, file, uniq, dbError);
      && e.faculty.Keys == faculty.Keys
      && (IdMissing(facultyId) ==> e.reply == Fail(IdRequired.Text()) && e.pictures == pictures)
      && (!IdMissing(facultyId) && facultyId.value !in faculty ==> e.reply == Fail(NotFound.Text()) && e.pictures == pictures)
      && (e.reply.Ok? ==>
            && facultyId.Some? && facultyId.value in faculty
            && e.faculty == faculty[facultyId.value := Patched(faculty[facultyId.value], form, e.reply.value)])
      && (e.reply.Err? ==> e.faculty == faculty)
    ensures var e := UpdateOutcome(students, faculty, staff, pictures, facultyId, form, file, uniq, dbError);
      !IdMissing(facultyId) && facultyId.value in faculty ==>
        var up := UploadDecision(file, uniq);
        var refusal := UpdateRefusal(students, faculty, staff, facultyId.value, form, dbError);
        && (UploadAttempted(file) && up.Rejected? ==> e.reply == Fail(up.problem.Text()))
        && (!(UploadAttempted(file) && up.Rejected?) && refusal.Some? ==> e.reply == Fail(refusal.value.Text()))
  {
  }

  /** The picture a successful update_faculty writes is the current one
      when no file is sent, and the store is then unchanged; with a sent
      file it is the newly stored one, which replaces the current file in
      the store. */
  lemma UpdatePictureLifecycle(students: map<int, Student>, faculty: map<int, Faculty>, staff: map<int, Staff>,
                               pictures: set<string>, facultyId: Option<int>,
                               form: FacultyForm, file: Option<Upload>, uniq: string, dbError: Option<string>)
    ensures var e := UpdateOutcome(students, faculty, staff, pictures, facultyId, form, file, uniq, dbError);
      && (e.reply.Ok? && !UploadAttempted(file) ==>
            && facultyId.Some? && facultyId.value in faculty
            && e.reply.value == faculty[facultyId.value].picture && e.pictures == pictures)
      && (e.reply.Ok? && UploadAttempted(file) ==>
            && facultyId.Some? && facultyId.value in faculty
            && UploadDecision(file, uniq).Stored?
            && e.reply.value == Some(UploadDecision(file, uniq).path)
            && e.pictures == Cleared(pictures, faculty[facultyId.value].picture, file) + {UploadDecision(file, uniq).path})
  {
  }

  /** update_faculty succeeds exactly when the row exists, a sent file is
      accepted, and the pincode, number and UPDATE checks pass. */
  lemma UpdateSucceedsExactlyWhenAccepted(students: map<int, Student>, faculty: map<int, Faculty>, staff: map<int, Staff>,
                                          pictures: set<string>, facultyId: Option<int>,
                                          form: FacultyForm, file: Option<Upload>, uniq: string, dbError: Option<string>)
    ensures var e := UpdateOutcome(students, faculty, staff, pictures, facultyId, form, file, uniq, dbError);
      e.reply.Ok? <==>
        && !IdMissing(facultyId) && facultyId.value in faculty
        && !(UploadAttempted(file) && UploadDecision(file, uniq).Rejected?)
        && UpdateRefusal(students, faculty, staff, facultyId.value, form, dbError).None?
  {
  }

  /** update_faculty keeps student, faculty and staff numbers distinct: a
      number it writes is either checked against every other row or the
      row's own. */
  lemma UpdateKeepsIdentifiersDistinct(students: map<int, Student>, faculty: map<int, Faculty>, staff: map<int, Staff>,
                                       pictures: set<string>, facultyId: Option<int>,
                                       form: FacultyForm, file: Option<Upload>, uniq: string, dbError: Option<string>)
    requires Distinct(students, faculty, staff)
    ensures Distinct(students, UpdateOutcome(students, faculty, staff, pictures, facultyId, form, file, uniq, dbError).faculty, staff)
  {
    var e := UpdateOutcome(students, faculty, staff, pictures, facultyId, form, file, uniq, dbError);
    if e.reply.Ok? {
      var id := facultyId.value;
      var row := Patched(faculty[id], form, e.reply.value);
      if form.facultyNumber.Some? {
        assert NumberConflict(students, faculty, staff, form.facultyNumber.value, Some(id)).None?;
      } else {
        assert row.facultyNumber == faculty[id].facultyNumber;
      }
      FacultyWriteKeepsDistinct(students, faculty, staff, id, row);
    }
  }

  /** update_faculty stores no malformed pincode. */
  lemma UpdateKeepsPincodesWellFormed(students: map<int, Student>, faculty: map<int, Faculty>, staff: map<int, Staff>,
                                      pictures: set<string>, facultyId: Option<int>,
                                      form: FacultyForm, file: Option<Upload>, uniq: string, dbError: Option<string>)
    requires PincodesWellFormed(faculty)
    ensures PincodesWellFormed(UpdateOutcome(students, faculty, staff, pictures, facultyId, form, file, uniq, dbError).faculty)
  {
    var e := UpdateOutcome(students, faculty, staff, pictures, facultyId, form, file, uniq, dbError);
    if e.reply.Ok? {
      forall k | k in e.faculty && e.faculty[k].pincode.Some?
        ensures Empty(e.faculty[k].pincode.value) || SixDigits(e.faculty[k].pincode.value)
      {
        if k == facultyId.value && form.pincode.Some? {
          assert !BadPincode(form.pincode);
        }
      }
    }
  }

  /** update_faculty never changes a registration status. */
  lemma UpdateKeepsRegistrationStatus(students: map<int, Student>, faculty: map<int, Faculty>, staff: map<int, Staff>,
                                      pictures: set<string>, facultyId: Option<int>,
                                      form: FacultyForm, file: Option<Upload>, uniq: string, dbError: Option<string>)
    ensures var e := UpdateOutcome(students, faculty, staff, pictures, facultyId, form, file, uniq, dbError);
      forall k :: k in faculty ==> k in e.faculty && e.faculty[k].registrationStatus == faculty[k].registrationStatus
  {
  }

  /** The picture store after a refused update_faculty of an existing row:
      without a sent file it is unchanged; with one, the current picture is
      gone and a newly stored file (one that does not re-use the current
      path) is deleted again, whether or not the row had a picture. */
  lemma RefusedUpdatePictureCleanup(students: map<int, Student>, faculty: map<int, Faculty>, staff: map<int, Staff>,
                                    pictures: set<string>, facultyId: Option<int>,
                                    form: FacultyForm, file: Option<Upload>, uniq: string, dbError: Option<string>)
    ensures var e := UpdateOutcome(students, faculty, staff, pictures, facultyId, form, file, uniq, dbError);
      e.reply.Err? && !IdMissing(facultyId) && facultyId.value in faculty ==>
        var current := faculty[facultyId.value].picture;
        var up := if UploadAttempted(file) then UploadDecision(file, uniq) else NoPicture;
        && (!UploadAttempted(file) ==> e.pictures == pictures)
        && ((up.Stored? ==> Some(up.path) != current) ==> e.pictures == Cleared(pictures, current, file) - PathSet(up))
  {
  }

  /** The current picture is deleted before the new file and the other fields
      are checked, so a refused update with an accepted-for-upload file
      leaves the row naming a picture that no longer exists; a new file that
      was stored is deleted again, so no picture is left at all. */
  lemma RefusedUpdateLeavesStalePicture(students: map<int, Student>, faculty: map<int, Faculty>, staff: map<int, Staff>,
                                        pictures: set<string>, facultyId: Option<int>,
                                        form: FacultyForm, file: Option<Upload>, uniq: string, dbError: Option<string>)
    requires !IdMissing(facultyId) && facultyId.value in faculty
    requires UploadAttempted(file) && Given(faculty[facultyId.value].picture)
    requires UploadDecision(file, uniq).Stored? ==> Some(UploadDecision(file, uniq).path) != faculty[facultyId.value].picture
    ensures var e := UpdateOutcome(students, faculty, staff, pictures, facultyId, form, file, uniq, dbError);
      e.reply.Err? ==>
        && e.faculty == faculty && e.faculty[facultyId.value].picture.value !in e.pictures
        && (UploadDecision(file, uniq).Stored? ==> UploadDecision(file, uniq).path !in e.pictures)
  {
  }
}
