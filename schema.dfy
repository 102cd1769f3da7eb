/**
  * The records of the four tables and the one object that holds them: each
  * table is a map from its auto-increment id to the row, beside the set of
  * picture files currently stored on disk.
  */
module Schema {
  import opened Php

  /** A row of `students`. */
  datatype Student = Student(
    studentNumber: string,
    name: string,
    department: string,
    program: string,
    yearLevel: string,
    block: string,
    picture: Option<string>,
    pinCode: string,
    registrationStatus: string)

  /** A row of `faculty` (timestamps left out). */
  datatype Faculty = Faculty(
    facultyNumber: string,
    name: string,
    department: string,
    program: string,
    picture: Option<string>,
    pincode: Option<string>,
    registrationStatus: string)

  /** A row of `staff`. */
  datatype Staff = Staff(
    staffNumber: string,
    name: string,
    department: string,
    role: string,
    picture: Option<string>,
    pincode: Option<string>,
    registrationStatus: string)

  /** A row of `users`; password holds the stored digest. */
  datatype User = User(
    name: string,
    role: string,
    username: string,
    password: string,
    pincode: string)

  /** One entry of `$_FILES`: the client's file name, the declared MIME type,
      the size in bytes, PHP's upload error code, and whether
      `move_uploaded_file` succeeds for it. */
  datatype Upload = Upload(name: string, mimeType: string, size: int, error: int, movable: bool)

  const UPLOAD_ERR_OK := 0

  /** No student, faculty or staff number is held by two rows of these tables. */
  ghost predicate Distinct(students: map<int, Student>, faculty: map<int, Faculty>, staff: map<int, Staff>) {
    && (forall a, b :: a in students && b in students && students[a].studentNumber == students[b].studentNumber ==> a == b)
    && (forall a, b :: a in faculty && b in faculty && faculty[a].facultyNumber == faculty[b].facultyNumber ==> a == b)
    && (forall a, b :: a in staff && b in staff && staff[a].staffNumber == staff[b].staffNumber ==> a == b)
    && (forall a, b :: a in students && b in faculty ==> students[a].studentNumber != faculty[b].facultyNumber)
    && (forall a, b :: a in students && b in staff ==> students[a].studentNumber != staff[b].staffNumber)
    && (forall a, b :: a in faculty && b in staff ==> faculty[a].facultyNumber != staff[b].staffNumber)
  }

  /** Some student row other than `self` has this student_number. */
  predicate StudentHolds(students: map<int, Student>, number: string, self: Option<int>) {
    exists id :: id in students && students[id].studentNumber == number && (self.None? || id != self.value)
  }

  /** Some faculty row other than `self` has this faculty_number. */
  predicate FacultyHolds(faculty: map<int, Faculty>, number: string, self: Option<int>) {
    exists id :: id in faculty && faculty[id].facultyNumber == number && (self.None? || id != self.value)
  }

  /** Some staff row other than `self` has this staff_number. */
  predicate StaffHolds(staff: map<int, Staff>, number: string, self: Option<int>) {
    exists id :: id in staff && staff[id].staffNumber == number && (self.None? || id != self.value)
  }

  /** Writing a student row at id whose number no other row holds keeps the
      namespace distinct. */
  lemma StudentWriteKeepsDistinct(students: map<int, Student>, faculty: map<int, Faculty>, staff: map<int, Staff>,
                                  id: int, r: Student)
    requires Distinct(students, faculty, staff)
    requires !StudentHolds(students, r.studentNumber, Some(id))
    requires !FacultyHolds(faculty, r.studentNumber, None) && !StaffHolds(staff, r.studentNumber, None)
    ensures Distinct(students[id := r], faculty, staff)
  {
  }

  /** Writing a faculty row at id whose number no other row holds keeps the
      namespace distinct. */
  lemma FacultyWriteKeepsDistinct(students: map<int, Student>, faculty: map<int, Faculty>, staff: map<int, Staff>,
                                  id: int, r: Faculty)
    requires Distinct(students, faculty, staff)
    requires !FacultyHolds(faculty, r.facultyNumber, Some(id))
    requires !StudentHolds(students, r.facultyNumber, None) && !StaffHolds(staff, r.facultyNumber, None)
    ensures Distinct(students, faculty[id := r], staff)
  {
  }

  /** Writing a staff row at id whose number no other row holds keeps the
      namespace distinct. */
  lemma StaffWriteKeepsDistinct(students: map<int, Student>, faculty: map<int, Faculty>, staff: map<int, Staff>,
                                id: int, r: Staff)
    requires Distinct(students, faculty, staff)
    requires !StaffHolds(staff, r.staffNumber, Some(id))
    requires !StudentHolds(students, r.staffNumber, None) && !FacultyHolds(faculty, r.staffNumber, None)
    ensures Distinct(students, faculty, staff[id := r])
  {
  }

  /** Every id of the table is positive and below the AUTO_INCREMENT counter. */
  predicate IdsBelow<T>(table: map<int, T>, next: int) {
    forall id :: id in table ==> 1 <= id < next
  }

  class Database {
    var students: map<int, Student>
    var faculty: map<int, Faculty>
    var staff: map<int, Staff>
    var users: map<int, User>
    /** The paths of the picture files that exist on disk. */
    var pictures: set<string>
    /** The AUTO_INCREMENT counters: the id the next insert receives. */
    var nextStudentId: int
    var nextFacultyId: int
    var nextStaffId: int
    var nextUserId: int

    /** Every id is positive and below its table's counter, so a new row
        never overwrites an existing one. */
    ghost predicate Valid()
      reads this`students, this`faculty, this`staff, this`users,
            this`nextStudentId, this`nextFacultyId, this`nextStaffId, this`nextUserId
    {
      && IdsBelow(students, nextStudentId) && IdsBelow(faculty, nextFacultyId)
      && IdsBelow(staff, nextStaffId) && IdsBelow(users, nextUserId)
      && 1 <= nextStudentId && 1 <= nextFacultyId && 1 <= nextStaffId && 1 <= nextUserId
    }

    constructor ()
      ensures Valid()
      ensures students == map[] && faculty == map[] && staff == map[] && users == map[]
      ensures pictures == {}
    {
      students, faculty, staff, users := map[], map[], map[], map[];
      pictures := {};
      nextStudentId, nextFacultyId, nextStaffId, nextUserId := 1, 1, 1, 1;
    }
  }
}
