/**
 * The three tables of the SQLite store (users, students, attendance), the
 * constraints their schema declares, and the store object the routes share.
 *
 * An INSERT binds the handler's JavaScript values to the columns; the store
 * then checks NOT NULL, then CHECK, then UNIQUE / PRIMARY KEY, and either
 * appends the row or rejects the statement and leaves the table as it was.
 * Foreign keys are declared but not enforced (SQLite leaves them off unless
 * a connection turns them on, and this one does not).
 */
module Schema {

  import opened Values

  datatype User = User(
    id: nat,
    username: string,
    password: string,    // the stored password hash
    role: string,
    name: string,
    department: Option<string>,
    rollNumber: Option<string>,
    section: Option<string>,
    approved: bool)

  datatype Student = Student(rollNumber: string, name: string, department: string, section: string)

  datatype AttendanceRow = AttendanceRow(
    date: string,
    rollNumber: string,
    status: string,
    department: string,
    section: string,
    markedBy: Option<int>)

  predicate IsRole(role: string) {
    role == "admin" || role == "faculty" || role == "student"
  }

  predicate IsStatus(status: string) {
    status == "present" || status == "absent"
  }

  /** Which declared constraint an INSERT broke. */
  datatype Constraint = NotNull | Check | Unique

  datatype InsertResult = Inserted(id: nat) | Rejected(violated: Constraint)

  /** The values an `INSERT INTO users` statement binds. */
  datatype UserInsert = UserInsert(
    username: Value,
    password: string,
    role: Value,
    name: Value,
    department: Value,
    rollNumber: Value,
    section: Value,
    approved: bool)

  /** The values an `INSERT INTO students` statement binds. */
  datatype StudentInsert = StudentInsert(rollNumber: Value, name: Value, department: Value, section: Value)

  /** The values an `INSERT INTO attendance` statement binds. */
  datatype AttendanceInsert = AttendanceInsert(
    date: Value,
    rollNumber: Value,
    status: Value,
    department: Value,
    section: Value,
    markedBy: Value)

  /**
   * The whole store: the three tables in insertion order and the users
   * table's AUTOINCREMENT counter (the largest id ever handed out).
   */
  datatype Tables = Tables(
    users: seq<User>,
    lastUserId: nat,
    students: seq<Student>,
    attendance: seq<AttendanceRow>)

  /**
   * users: every role passes the CHECK, ids are handed out in increasing
   * order and never above the counter, usernames are UNIQUE.
   */
  predicate UsersValid(users: seq<User>, lastUserId: nat) {
    && (forall i :: 0 <= i < |users| ==> IsRole(users[i].role) && 1 <= users[i].id <= lastUserId)
    && (forall i, j :: 0 <= i < j < |users| ==>
          users[i].id < users[j].id && users[i].username != users[j].username)
  }

  /** students: `roll_number` is the PRIMARY KEY. */
  predicate StudentsValid(students: seq<Student>) {
    forall i, j :: 0 <= i < j < |students| ==> students[i].rollNumber != students[j].rollNumber
  }

  /** attendance: every status passes the CHECK. */
  predicate AttendanceValid(rows: seq<AttendanceRow>) {
    forall i :: 0 <= i < |rows| ==> IsStatus(rows[i].status)
  }

  predicate TablesValid(t: Tables) {
    UsersValid(t.users, t.lastUserId) && StudentsValid(t.students) && AttendanceValid(t.attendance)
  }

  predicate UsernameTaken(users: seq<User>, username: string) {
    exists i :: 0 <= i < |users| && users[i].username == username
  }

  /** The first constraint of the users table that the insert breaks, if any. */
  function UserViolation(users: seq<User>, u: UserInsert): (v: Option<Constraint>)
    ensures v.None? <==>
      && !u.username.Null? && !u.role.Null? && !u.name.Null?
      && IsRole(BindText(u.role).value)
      && !UsernameTaken(users, BindText(u.username).value)
    ensures v == Some(Unique) ==> !u.username.Null? && UsernameTaken(users, BindText(u.username).value)
  {
    if u.username.Null? || u.role.Null? || u.name.Null? then Some(NotNull)
    else if !IsRole(BindText(u.role).value) then Some(Check)
    else if UsernameTaken(users, BindText(u.username).value) then Some(Unique)
    else None
  }

  function NewUser(u: UserInsert, id: nat): User
    requires !u.username.Null? && !u.role.Null? && !u.name.Null?
  {
    User(id, BindText(u.username).value, u.password, BindText(u.role).value, BindText(u.name).value,
         BindText(u.department), BindText(u.rollNumber), BindText(u.section), u.approved)
  }

  /**
   * `INSERT INTO users`: the row is appended with the next AUTOINCREMENT id
   * exactly when no constraint is broken; otherwise nothing changes.
   */
  function InsertUser(t: Tables, u: UserInsert): (r: (Tables, InsertResult))
    ensures TablesValid(t) ==> TablesValid(r.0)
    ensures r.1.Inserted? <==> UserViolation(t.users, u).None?
    ensures r.1.Rejected? ==> r.0 == t && r.1.violated == UserViolation(t.users, u).value
    ensures r.1.Inserted? ==>
      && r.1.id == t.lastUserId + 1
      && (forall i :: 0 <= i < |t.users| && TablesValid(t) ==> t.users[i].id < r.1.id)
      && r.0 == t.(users := t.users + [NewUser(u, r.1.id)], lastUserId := r.1.id)
  {
    match UserViolation(t.users, u)
    case Some(c) => (t, Rejected(c))
    case None =>
      var id := t.lastUserId + 1;
      (t.(users := t.users + [NewUser(u, id)], lastUserId := id), Inserted(id))
  }

  predicate RollNumberTaken(students: seq<Student>, rollNumber: string) {
    exists i :: 0 <= i < |students| && students[i].rollNumber == rollNumber
  }

  /** The first constraint of the students table that the insert breaks, if any. */
  function StudentViolation(students: seq<Student>, s: StudentInsert): (v: Option<Constraint>)
    ensures v.None? <==>
      && !s.rollNumber.Null? && !s.name.Null? && !s.department.Null? && !s.section.Null?
      && !RollNumberTaken(students, BindText(s.rollNumber).value)
  {
    if s.rollNumber.Null? || s.name.Null? || s.department.Null? || s.section.Null? then Some(NotNull)
    else if RollNumberTaken(students, BindText(s.rollNumber).value) then Some(Unique)
    else None
  }

  /** `INSERT INTO students`: appended exactly when no constraint is broken. */
  function InsertStudent(t: Tables, s: StudentInsert): (r: (Tables, bool))
    ensures TablesValid(t) ==> TablesValid(r.0)
    ensures r.1 <==> StudentViolation(t.students, s).None?
    ensures !r.1 ==> r.0 == t
    ensures r.1 ==> r.0 == t.(students := t.students + [Student(BindText(s.rollNumber).value,
              BindText(s.name).value, BindText(s.department).value, BindText(s.section).value)])
  {
    if StudentViolation(t.students, s).Some? then (t, false)
    else
      var row := Student(BindText(s.rollNumber).value, BindText(s.name).value,
                         BindText(s.department).value, BindText(s.section).value);
      (t.(students := t.students + [row]), true)
  }

  /**
   * The row an `INSERT INTO attendance` adds, or None when the store
   * rejects it: a NULL in a NOT NULL column or a status other than
   * 'present' or 'absent'.
   */
  function AdmitAttendance(a: AttendanceInsert): (r: Option<AttendanceRow>)
    ensures r.Some? <==>
      && !a.date.Null? && !a.rollNumber.Null? && !a.status.Null?
      && !a.department.Null? && !a.section.Null?
      && IsStatus(BindText(a.status).value)
    ensures r.Some? ==>
      && IsStatus(r.value.status)
      && Some(r.value.date) == BindText(a.date)
      && Some(r.value.rollNumber) == BindText(a.rollNumber)
      && Some(r.value.status) == BindText(a.status)
      && Some(r.value.department) == BindText(a.department)
      && Some(r.value.section) == BindText(a.section)
      && r.value.markedBy == BindInteger(a.markedBy)
  {
    if a.date.Null? || a.rollNumber.Null? || a.status.Null? || a.department.Null? || a.section.Null? then None
    else if !IsStatus(BindText(a.status).value) then None
    else Some(AttendanceRow(BindText(a.date).value, BindText(a.rollNumber).value, BindText(a.status).value,
                            BindText(a.department).value, BindText(a.section).value, BindInteger(a.markedBy)))
  }

  /** The rows a sequence of attendance inserts adds, in order. */
  function AdmittedRows(inserts: seq<AttendanceInsert>): (rows: seq<AttendanceRow>)
    ensures |rows| <= |inserts|
    ensures AttendanceValid(rows)
    decreases |inserts|
  {
    if inserts == [] then []
    else
      var rest := AdmittedRows(inserts[..|inserts| - 1]);
      match AdmitAttendance(inserts[|inserts| - 1])
      case Some(row) => rest + [row]
      case None => rest
  }

  /** Every insert the store admits adds exactly its row, in order. */
  lemma {:induction false} AdmittedRowsAppend(a: seq<AttendanceInsert>, b: seq<AttendanceInsert>)
    ensures AdmittedRows(a + b) == AdmittedRows(a) + AdmittedRows(b)
    decreases |b|
  {
    if b == [] {
      assert a + b == a;
    } else {
      var b' := b[..|b| - 1];
      AdmittedRowsAppend(a, b');
      assert (a + b)[..|a + b| - 1] == a + b';
      assert (a + b)[|a + b| - 1] == b[|b| - 1];
    }
  }

  /** The store that every route reads and writes. */
  class Database {
    var users: seq<User>
    var lastUserId: nat
    var students: seq<Student>
    var attendance: seq<AttendanceRow>

    function Snapshot(): Tables
      reads this
    {
      Tables(users, lastUserId, students, attendance)
    }

    ghost predicate Valid()
      reads this
    {
      TablesValid(Snapshot())
    }

    constructor ()
      ensures Valid()
      ensures Snapshot() == Tables([], 0, [], [])
    {
      users, lastUserId, students, attendance := [], 0, [], [];
    }

    method RunUserInsert(u: UserInsert) returns (result: InsertResult)
      requires Valid()
      modifies this
      ensures Valid()
      ensures (Snapshot(), result) == InsertUser(old(Snapshot()), u)
    {
      var violation := UserViolation(users, u);
      if violation.Some? {
        result := Rejected(violation.value);
      } else {
        lastUserId := lastUserId + 1;
        users := users + [NewUser(u, lastUserId)];
        result := Inserted(lastUserId);
      }
    }

    method RunStudentInsert(s: StudentInsert) returns (inserted: bool)
      requires Valid()
      modifies this
      ensures Valid()
      ensures (Snapshot(), inserted) == InsertStudent(old(Snapshot()), s)
    {
      inserted := StudentViolation(students, s).None?;
      if inserted {
        students := students + [Student(BindText(s.rollNumber).value, BindText(s.name).value,
                                        BindText(s.department).value, BindText(s.section).value)];
      }
    }

    method RunAttendanceInsert(a: AttendanceInsert) returns (inserted: bool)
      requires Valid()
      modifies this
      ensures Valid()
      ensures inserted <==> AdmitAttendance(a).Some?
      ensures Snapshot() == old(Snapshot()).(attendance := old(attendance) + AdmittedRows([a]))
    {
      var row := AdmitAttendance(a);
      assert [a][..0] == [];
      inserted := row.Some?;
      if inserted {
        attendance := attendance + [row.value];
      }
    }
  }
}
