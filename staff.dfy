/**
  * The staff endpoint (`admin-staff_perinfo.php`): the validator, the lookup
  * of the other two tables, GET (one row or a filtered list), POST create
  * and the PUT/PATCH merge update. There is no delete.
  *
  * Staff pictures are paths sent by the client, not uploads, so this
  * endpoint never touches the picture store.
  */
module StaffPerinfo {
  import opened Php
  import opened Schema
  import opened Listing

  /** The checks of validate_staff_data, in the order it makes them. */
  datatype Check = StaffNumberRequired | NameRequired | DepartmentRequired | RoleRequired | PincodeFormat
  {
    /** The entry it adds to `errors`. */
    function Message(): string {
      match this
      case StaffNumberRequired => "Staff number is required"
      case NameRequired => "Name is required"
      case DepartmentRequired => "Department is required"
      case RoleRequired => "Role is required"
      case PincodeFormat => "Pincode must be exactly 6 digits"
    }

    function Rank(): nat {
      match this
      case StaffNumberRequired => 0
      case NameRequired => 1
      case DepartmentRequired => 2
      case RoleRequired => 3
      case PincodeFormat => 4
    }
  }

  /** The values validate_staff_data is given. */
  datatype StaffFields = StaffFields(staffNumber: string, name: string, department: string, role: string,
                                     pincode: Option<string>)

  /** Check c fails on f: a required field is empty, or a pincode is
      given but not six digits. */
  predicate Fails(c: Check, f: StaffFields) {
    match c
    case StaffNumberRequired => Empty(f.staffNumber)
    case NameRequired => Empty(f.name)
    case DepartmentRequired => Empty(f.department)
    case RoleRequired => Empty(f.role)
    case PincodeFormat => Given(f.pincode) && !SixDigits(f.pincode.value)
  }

  function IfFails(c: Check, f: StaffFields): seq<Check> {
    if Fails(c, f) then [c] else []
  }

  /** The checks that fail on f, in check order. */
  function Violations(f: StaffFields): seq<Check> {
    IfFails(StaffNumberRequired, f) + IfFails(NameRequired, f) + IfFails(DepartmentRequired, f)
    + IfFails(RoleRequired, f) + IfFails(PincodeFormat, f)
  }

  /** validate_staff_data reports every check that fails and no other. */
  lemma ViolationsListEveryFailure(f: StaffFields, c: Check)
    ensures c in Violations(f) <==> Fails(c, f)
  {
    var v := Violations(f);
    assert v == IfFails(StaffNumberRequired, f) + IfFails(NameRequired, f) + IfFails(DepartmentRequired, f)
      + IfFails(RoleRequired, f) + IfFails(PincodeFormat, f);
    match c
    case StaffNumberRequired => assert c in v <==> c in IfFails(c, f);
    case NameRequired => assert c in v <==> c in IfFails(c, f);
    case DepartmentRequired => assert c in v <==> c in IfFails(c, f);
    case RoleRequired => assert c in v <==> c in IfFails(c, f);
    case PincodeFormat => assert c in v <==> c in IfFails(c, f);
  }

  /** A record passes validate_staff_data exactly when its four text fields
      are non-empty and a given pincode is six digits. */
  lemma NoViolationsIffValid(f: StaffFields)
    ensures Violations(f) == [] <==>
      && !Empty(f.staffNumber) && !Empty(f.name) && !Empty(f.department) && !Empty(f.role)
      && (Given(f.pincode) ==> SixDigits(f.pincode.value))
  {
    if Violations(f) == [] {
      ViolationsListEveryFailure(f, PincodeFormat);
    }
  }

  /** validate_staff_data lists its errors in check order, each at most once. */
  lemma ViolationsInCheckOrder(f: StaffFields, i: int, j: int)
    requires 0 <= i < j < |Violations(f)|
    ensures Violations(f)[i].Rank() < Violations(f)[j].Rank()
  {
    var a := IfFails(StaffNumberRequired, f);
    var b := IfFails(NameRequired, f);
    var c := IfFails(DepartmentRequired, f);
    var d := IfFails(RoleRequired, f);
    var e := IfFails(PincodeFormat, f);
    var v := Violations(f);
    assert v == a + b + c + d + e;
    assert forall k :: 0 <= k < |a| ==> v[k].Rank() == 0;
    assert forall k :: |a| <= k < |a| + |b| ==> v[k].Rank() == 1;
    assert forall k :: |a| + |b| <= k < |a| + |b| + |c| ==> v[k].Rank() == 2;
    assert forall k :: |a| + |b| + |c| <= k < |a| + |b| + |c| + |d| ==> v[k].Rank() == 3;
    assert forall k :: |a| + |b| + |c| + |d| <= k < |v| ==> v[k].Rank() == 4;
  }

  function Messages(checks: seq<Check>): (m: seq<string>)
    ensures |m| == |checks| && forall i :: 0 <= i < |checks| ==> m[i] == checks[i].Message()
  {
    if checks == [] then [] else [checks[0].Message()] + Messages(checks[1..])
  }

  /** validate_staff_data: appends each failing check in turn; the reply
      carries their messages. */
  method ValidateStaffData(f: StaffFields) returns (errors: seq<string>)
    ensures errors == Messages(Violations(f))
  {
    var failed: seq<Check> := [];
    if Empty(f.staffNumber) {
      failed := failed + [StaffNumberRequired];
    }
    assert failed == IfFails(StaffNumberRequired, f);
    if Empty(f.name) {
      failed := failed + [NameRequired];
    }
    assert failed == IfFails(StaffNumberRequired, f) + IfFails(NameRequired, f);
    if Empty(f.department) {
      failed := failed + [DepartmentRequired];
    }
    assert failed == IfFails(StaffNumberRequired, f) + IfFails(NameRequired, f) + IfFails(DepartmentRequired, f);
    if Empty(f.role) {
      failed := failed + [RoleRequired];
    }
    if Given(f.pincode) && !SixDigits(f.pincode.value) {
      failed := failed + [PincodeFormat];
    }
    assert failed == Violations(f);
    errors := Messages(failed);
  }

  /** identifier_exists_in_other_tables: "students" when a student holds the
      number, otherwise "faculty" when a faculty member does, otherwise
      None (PHP's false). The staff table is not consulted. */
  function OtherTable(students: map<int, Student>, faculty: map<int, Faculty>, number: string): (t: Option<string>)
    ensures t.None? <==> !StudentHolds(students, number, None) && !FacultyHolds(faculty, number, None)
    ensures t == Some("students") <==> StudentHolds(students, number, None)
    ensures t == Some("faculty") <==> !StudentHolds(students, number, None) && FacultyHolds(faculty, number, None)
  {
    if StudentHolds(students, number, None) then Some("students")
    else if FacultyHolds(faculty, number, None) then Some("faculty")
    else None
  }

  /** The error replies of this endpoint, besides the validator's. */
  datatype Problem =
    | ValidationFailed(errors: seq<string>)
    | InOtherTable(table: string) | InStaffRecords
    | IdRequired | NotFound
    | AddRefused(error: string) | UpdateRefused(error: string)
  {
    function Reply<T>(): Reply<T> {
      match this
      case ValidationFailed(errors) => Err("Validation failed", errors)
      case InOtherTable(t) => Fail("Staff number already exists in the " + t + " table")
      case InStaffRecords => Fail("Staff number already exists in staff records")
      case IdRequired => Fail("Staff ID is required")
      case NotFound => Fail("Staff not found")
      case AddRefused(e) => Fail("Failed to add staff: " + e)
      case UpdateRefused(e) => Fail("Failed to update staff: " + e)
    }
  }

  /** The fields of a POST or PUT/PATCH body; None is "not set" (a JSON null
      is not set either). */
  datatype StaffForm = StaffForm(
    staffNumber: Option<string>,
    name: Option<string>,
    department: Option<string>,
    role: Option<string>,
    registrationStatus: Option<string>,
    picture: Option<string>,
    pincode: Option<string>)

  /** The row POST inserts: missing text fields are "", the status defaults
      to 'Unregistered', picture and pincode to NULL. */
  function NewStaff(form: StaffForm): Staff {
    Staff(form.staffNumber.GetOr(""), form.name.GetOr(""), form.department.GetOr(""), form.role.GetOr(""),
          form.picture, form.pincode, form.registrationStatus.GetOr("Unregistered"))
  }

  /** The record PUT/PATCH writes: every field sent replaces the current one. */
  function Merged(current: Staff, form: StaffForm): Staff {
    Staff(form.staffNumber.GetOr(current.staffNumber), form.name.GetOr(current.name),
          form.department.GetOr(current.department), form.role.GetOr(current.role),
          if form.picture.Some? then form.picture else current.picture,
          if form.pincode.Some? then form.pincode else current.pincode,
          form.registrationStatus.GetOr(current.registrationStatus))
  }

  function FieldsOf(r: Staff): StaffFields {
    StaffFields(r.staffNumber, r.name, r.department, r.role, r.pincode)
  }

  /** The checks of POST on a row it would insert: the validator, then the
      other tables, then the staff table; the first that fails, or None. */
  function CreateRefusal(students: map<int, Student>, faculty: map<int, Faculty>, staff: map<int, Staff>,
                         row: Staff, dbError: Option<string>): Option<Problem>
  {
    var errors := Violations(FieldsOf(row));
    if errors != [] then Some(ValidationFailed(Messages(errors)))
    else
      var other := OtherTable(students, faculty, row.staffNumber);
      if other.Some? then Some(InOtherTable(other.value))
      else if StaffHolds(staff, row.staffNumber, None) then Some(InStaffRecords)
      else if dbError.Some? then Some(AddRefused(dbError.value))
      else None
  }

  /** What POST does to the staff table, with its reply: the inserted row
      with its fresh id. */
  datatype Effect<R> = Effect(reply: Reply<R>, staff: map<int, Staff>)

  function CreateOutcome(students: map<int, Student>, faculty: map<int, Faculty>, staff: map<int, Staff>,
                         nextId: int, form: StaffForm, dbError: Option<string>): Effect<Row<Staff>>
  {
    var row := NewStaff(form);
    var refusal := CreateRefusal(students, faculty, staff, row, dbError);
    if refusal.Some? then Effect(refusal.value.Reply(), staff)
    else Effect(Ok(Row(nextId, row)), staff[nextId := row])
  }

  /** POST. */
  method CreateStaff(db: Database, form: StaffForm, dbError: Option<string>) returns (reply: Reply<Row<Staff>>)
    requires db.Valid()
    modifies db`staff, db`nextStaffId
    ensures db.Valid()
    ensures var e := CreateOutcome(old(db.students), old(db.faculty), old(db.staff), old(db.nextStaffId), form, dbError);
      reply == e.reply && db.staff == e.staff
    ensures db.nextStaffId == if reply.Ok? then old(db.nextStaffId) + 1 else old(db.nextStaffId)
  {
    var row := NewStaff(form);
    var errors := ValidateStaffData(FieldsOf(row));
    if errors != [] {
      return ValidationFailed(errors).Reply();
    }
    var other := OtherTable(db.students, db.faculty, row.staffNumber);
    if other.Some? {
      return InOtherTable(other.value).Reply();
    }
    if StaffHolds(db.staff, row.staffNumber, None) {
      return InStaffRecords.Reply();
    }
    if dbError.Some? {
      return AddRefused(dbError.value).Reply();
    }
    var id := db.nextStaffId;
    db.staff, db.nextStaffId := db.staff[id := row], id + 1;
    reply := Ok(Row(id, row));
  }

  /** POST inserts exactly when the validator finds nothing, no student,
      faculty or staff row holds the number and the INSERT succeeds; the
      new row carries the sent status or 'Unregistered'. A refused request
      leaves the table as it was. */
  lemma CreateInsertsExactlyWhenAccepted(students: map<int, Student>, faculty: map<int, Faculty>, staff: map<int, Staff>,
                                         nextId: int, form: StaffForm, dbError: Option<string>)
    ensures var e := CreateOutcome(students, faculty, staff, nextId, form, dbError);
      var number := form.staffNumber.GetOr("");
      && (e.reply.Ok? <==>
            && Violations(FieldsOf(NewStaff(form))) == []
            && !StudentHolds(students, number, None) && !FacultyHolds(faculty, number, None)
            && !StaffHolds(staff, number, None) && dbError.None?)
      && (Violations(FieldsOf(NewStaff(form))) != [] ==>
            e.reply == Err("Validation failed", Messages(Violations(FieldsOf(NewStaff(form))))))
      && (e.reply.Ok? ==>
            && e.reply.value == Row(nextId, NewStaff(form))
            && e.staff == staff[nextId := NewStaff(form)]
            && e.staff[nextId].registrationStatus == form.registrationStatus.GetOr("Unregistered"))
      && (e.reply.Err? ==> e.staff == staff)
    ensures var e := CreateOutcome(students, faculty, staff, nextId, form, dbError);
      var number := form.staffNumber.GetOr("");
      Violations(FieldsOf(NewStaff(form))) == [] ==>
        && (StudentHolds(students, number, None) ==> e.reply == InOtherTable("students").Reply())
        && (!StudentHolds(students, number, None) && FacultyHolds(faculty, number, None) ==>
              e.reply == InOtherTable("faculty").Reply())
        && (OtherTable(students, faculty, number).None? && StaffHolds(staff, number, None) ==>
              e.reply == InStaffRecords.Reply())
        && (OtherTable(students, faculty, number).None? && !StaffHolds(staff, number, None) && dbError.Some? ==>
              e.reply == AddRefused(dbError.value).Reply())
  {
  }

  /** POST keeps student, faculty and staff numbers distinct. */
  lemma CreateKeepsIdentifiersDistinct(students: map<int, Student>, faculty: map<int, Faculty>, staff: map<int, Staff>,
                                       nextId: int, form: StaffForm, dbError: Option<string>)
    requires Distinct(students, faculty, staff)
    ensures Distinct(students, faculty, CreateOutcome(students, faculty, staff, nextId, form, dbError).staff)
  {
    var e := CreateOutcome(students, faculty, staff, nextId, form, dbError);
    if e.reply.Ok? {
      var row := NewStaff(form);
      assert !StaffHolds(staff, row.staffNumber, None);
      StaffWriteKeepsDistinct(students, faculty, staff, nextId, row);
    }
  }

  /** Every stored staff pincode is NULL, empty in PHP's sense, or six digits. */
  predicate PincodesWellFormed(staff: map<int, Staff>) {
    forall id :: id in staff && staff[id].pincode.Some? ==>
      Empty(staff[id].pincode.value) || SixDigits(staff[id].pincode.value)
  }

  /** A record the validator accepts has a well-formed pincode. */
  lemma ValidPincode(f: StaffFields)
    requires Violations(f) == []
    ensures f.pincode.Some? ==> Empty(f.pincode.value) || SixDigits(f.pincode.value)
  {
    assert PincodeFormat !in Violations(f);
  }

  /** POST stores no malformed pincode. */
  lemma CreateKeepsPincodesWellFormed(students: map<int, Student>, faculty: map<int, Faculty>, staff: map<int, Staff>,
                                      nextId: int, form: StaffForm, dbError: Option<string>)
    requires PincodesWellFormed(staff)
    ensures PincodesWellFormed(CreateOutcome(students, faculty, staff, nextId, form, dbError).staff)
  {
    var e := CreateOutcome(students, faculty, staff, nextId, form, dbError);
    if e.reply.Ok? {
      ValidPincode(FieldsOf(NewStaff(form)));
    }
  }

  /** The checks of PUT/PATCH on the merged record: the validator, then,
      only when the number changes, the other tables and every other staff
      row; the first that fails, or None. */
  function UpdateRefusal(students: map<int, Student>, faculty: map<int, Faculty>, staff: map<int, Staff>,
                         id: int, current: Staff, row: Staff, dbError: Option<string>): Option<Problem>
  {
    var errors := Violations(FieldsOf(row));
    if errors != [] then Some(ValidationFailed(Messages(errors)))
    else if row.staffNumber != current.staffNumber && OtherTable(students, faculty, row.staffNumber).Some?
    then Some(InOtherTable(OtherTable(students, faculty, row.staffNumber).value))
    else if row.staffNumber != current.staffNumber && StaffHolds(staff, row.staffNumber, Some(id))
    then Some(InStaffRecords)
    else if dbError.Some? then Some(UpdateRefused(dbError.value))
    else None
  }

  /** PUT/PATCH on the tables as they are; the reply carries the updated row. */
  function UpdateOutcome(students: map<int, Student>, faculty: map<int, Faculty>, staff: map<int, Staff>,
                         id: Option<int>, form: StaffForm, dbError: Option<string>): Effect<Row<Staff>>
  {
    if IdMissing(id) then Effect(IdRequired.Reply(), staff)
    else if id.value !in staff then Effect(NotFound.Reply(), staff)
    else
      var row := Merged(staff[id.value], form);
      var refusal := UpdateRefusal(students, faculty, staff, id.value, staff[id.value], row, dbError);
      if refusal.Some? then Effect(refusal.value.Reply(), staff)
      else Effect(Ok(Row(id.value, row)), staff[id.value := row])
  }

  /** PUT/PATCH. */
  method UpdateStaff(db: Database, id: Option<int>, form: StaffForm, dbError: Option<string>)
    returns (reply: Reply<Row<Staff>>)
    modifies db`staff
    ensures db.staff.Keys == old(db.staff.Keys)
    ensures var e := UpdateOutcome(old(db.students), old(db.faculty), old(db.staff), id, form, dbError);
      reply == e.reply && db.staff == e.staff
  {
    if IdMissing(id) {
      return IdRequired.Reply();
    }
    if id.value !in db.staff {
      return NotFound.Reply();
    }
    var current := db.staff[id.value];
    var row := Merged(current, form);
    var errors := ValidateStaffData(FieldsOf(row));
    if errors != [] {
      return ValidationFailed(errors).Reply();
    }
    if row.staffNumber != current.staffNumber {
      var other := OtherTable(db.students, db.faculty, row.staffNumber);
      if other.Some? {
        return InOtherTable(other.value).Reply();
      }
      if StaffHolds(db.staff, row.staffNumber, Some(id.value)) {
        return InStaffRecords.Reply();
      }
    }
    if dbError.Some? {
      return UpdateRefused(dbError.value).Reply();
    }
    ghost var before := db.staff;
    db.staff := db.staff[id.value := row];
    assert db.staff.Keys == before.Keys;
    reply := Ok(Row(id.value, row));
  }

  /** PUT/PATCH needs a non-empty id naming an existing row; it then writes
      the merge of the sent fields over the current row, or nothing at all.
      Each field left out keeps its current value. */
  lemma UpdateIsMerge(students: map<int, Student>, faculty: map<int, Faculty>, staff: map<int, Staff>,
                      id: Option<int>, form: StaffForm, dbError: Option<string>)
    ensures var e := UpdateOutcome(students, faculty, staff, id, form, dbError);
      && (IdMissing(id) ==> e.reply == Fail("Staff ID is required") && e.staff == staff)
      && (!IdMissing(id) && id.value !in staff ==> e.reply == Fail("Staff not found") && e.staff == staff)
      && (e.reply.Ok? ==>
            && !IdMissing(id) && id.value in staff
            && e.staff == staff[id.value := Merged(staff[id.value], form)]
            && (form.staffNumber.None? ==> e.staff[id.value].staffNumber == staff[id.value].staffNumber)
            && (form.name.None? ==> e.staff[id.value].name == staff[id.value].name)
            && (form.department.None? ==> e.staff[id.value].department == staff[id.value].department)
            && (form.role.None? ==> e.staff[id.value].role == staff[id.value].role)
            && (form.picture.None? ==> e.staff[id.value].picture == staff[id.value].picture)
            && (form.pincode.None? ==> e.staff[id.value].pincode == staff[id.value].pincode)
            && (form.registrationStatus.None? ==>
                  e.staff[id.value].registrationStatus == staff[id.value].registrationStatus))
      && (e.reply.Err? ==> e.staff == staff)
  {
  }

  /** PUT/PATCH succeeds exactly when the merged record passes the
      validator, a changed number is held by no student, faculty or other
      staff row, and the UPDATE succeeds. An unchanged number is not
      checked again. */
  lemma UpdateSucceedsExactlyWhenAccepted(students: map<int, Student>, faculty: map<int, Faculty>, staff: map<int, Staff>,
                                          id: Option<int>, form: StaffForm, dbError: Option<string>)
    requires !IdMissing(id) && id.value in staff
    ensures var e := UpdateOutcome(students, faculty, staff, id, form, dbError);
      var row := Merged(staff[id.value], form);
      e.reply.Ok? <==>
        && Violations(FieldsOf(row)) == []
        && (row.staffNumber != staff[id.value].staffNumber ==>
              && !StudentHolds(students, row.staffNumber, None) && !FacultyHolds(faculty, row.staffNumber, None)
              && !StaffHolds(staff, row.staffNumber, Some(id.value)))
        && dbError.None?
    ensures var e := UpdateOutcome(students, faculty, staff, id, form, dbError);
      var row := Merged(staff[id.value], form);
      var changed := row.staffNumber != staff[id.value].staffNumber;
      && (Violations(FieldsOf(row)) != [] ==> e.reply == Err("Validation failed", Messages(Violations(FieldsOf(row)))))
      && (Violations(FieldsOf(row)) == [] ==>
            && (changed && StudentHolds(students, row.staffNumber, None) ==> e.reply == InOtherTable("students").Reply())
            && (changed && !StudentHolds(students, row.staffNumber, None) && FacultyHolds(faculty, row.staffNumber, None) ==>
                  e.reply == InOtherTable("faculty").Reply())
            && (changed && OtherTable(students, faculty, row.staffNumber).None? &&
                StaffHolds(staff, row.staffNumber, Some(id.value)) ==>
                  e.reply == InStaffRecords.Reply())
            && (UpdateRefusal(students, faculty, staff, id.value, staff[id.value], row, None).None? && dbError.Some? ==>
                  e.reply == UpdateRefused(dbError.value).Reply()))
  {
  }

  /** PUT/PATCH keeps student, faculty and staff numbers distinct: a changed
      number is checked against every other row, an unchanged one is the
      row's own. */
  lemma UpdateKeepsIdentifiersDistinct(students: map<int, Student>, faculty: map<int, Faculty>, staff: map<int, Staff>,
                                       id: Option<int>, form: StaffForm, dbError: Option<string>)
    requires Distinct(students, faculty, staff)
    ensures Distinct(students, faculty, UpdateOutcome(students, faculty, staff, id, form, dbError).staff)
  {
    var e := UpdateOutcome(students, faculty, staff, id, form, dbError);
    if e.reply.Ok? {
      var row := Merged(staff[id.value], form);
      if row.staffNumber != staff[id.value].staffNumber {
        assert OtherTable(students, faculty, row.staffNumber).None?;
      }
      StaffWriteKeepsDistinct(students, faculty, staff, id.value, row);
    }
  }

  /** PUT/PATCH stores no malformed pincode. */
  lemma UpdateKeepsPincodesWellFormed(students: map<int, Student>, faculty: map<int, Faculty>, staff: map<int, Staff>,
                                      id: Option<int>, form: StaffForm, dbError: Option<string>)
    requires PincodesWellFormed(staff)
    ensures PincodesWellFormed(UpdateOutcome(students, faculty, staff, id, form, dbError).staff)
  {
    var e := UpdateOutcome(students, faculty, staff, id, form, dbError);
    if e.reply.Ok? {
      ValidPincode(FieldsOf(Merged(staff[id.value], form)));
    }
  }

  /** The filters of the GET list; each applies only when set and non-empty. */
  datatype StaffFilter = StaffFilter(
    department: Option<string>,
    role: Option<string>,
    registrationStatus: Option<string>,
    search: Option<string>)

  /** The search of the GET list: the term occurs in the number, name,
      department or role. */
  predicate SearchHit(r: Staff, term: string) {
    Contains(r.staffNumber, term) || Contains(r.name, term) || Contains(r.department, term) || Contains(r.role, term)
  }

  /** The WHERE clause the GET list builds. */
  predicate Matches(f: StaffFilter, r: Staff) {
    && (Given(f.department) ==> r.department == f.department.value)
    && (Given(f.role) ==> r.role == f.role.value)
    && (Given(f.registrationStatus) ==> r.registrationStatus == f.registrationStatus.value)
    && (Given(f.search) ==> SearchHit(r, f.search.value))
  }

  function Keep(f: StaffFilter): Staff -> bool {
    (r: Staff) => Matches(f, r)
  }

  function Name(r: Staff): string {
    r.name
  }

  /** The single-row GET. */
  function FindStaff(staff: map<int, Staff>, id: int): (r: Reply<Staff>)
    ensures r.Ok? <==> id in staff
    ensures r.Ok? ==> r.value == staff[id]
    ensures r.Err? ==> r == Fail("Staff not found")
  {
    if id in staff then Ok(staff[id]) else NotFound.Reply()
  }

  /** What GET returns: one row, or the filtered list. */
  datatype Found = One(row: Staff) | Many(rows: seq<Row<Staff>>)

  /** GET: the row of a non-empty id, otherwise every row the filters
      accept once, ordered by name. */
  method GetStaff(db: Database, id: Option<int>, f: StaffFilter) returns (reply: Reply<Found>)
    ensures !IdMissing(id) ==>
      (reply.Ok? <==> id.value in db.staff) &&
      (reply.Ok? ==> reply.value == One(db.staff[id.value])) &&
      (reply.Err? ==> reply == Fail("Staff not found"))
    ensures IdMissing(id) ==>
      reply.Ok? && reply.value.Many? && Selects(reply.value.rows, db.staff, Keep(f)) && SortedBy(reply.value.rows, Name)
  {
    if !IdMissing(id) {
      var r := FindStaff(db.staff, id.value);
      reply := if r.Ok? then Ok(One(r.value)) else Fail(r.message);
    } else {
      var rows := SelectOrdered(db.staff, Keep(f), Name);
      reply := Ok(Many(rows));
    }
  }
}
