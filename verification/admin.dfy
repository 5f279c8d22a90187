/**
 * The administrator's routes: approving and deleting faculty accounts (the
 * only routes that update or remove rows), the list of faculty accounts
 * waiting for approval, per-department attendance statistics for a day and
 * for a month, one section's attendance on one day, and the roster listing.
 */
module Admin {

  import opened Values
  import opened Text
  import opened Sorting
  import opened Http
  import opened Schema
  import opened Auth
  import opened StudentRoutes

  // ------------------------------------------------------ approve and delete

  /** The row `WHERE id = ? AND role = 'faculty'` selects; `id` is None when the path text is not a number. */
  predicate IsFacultyWithId(u: User, id: Option<nat>) {
    id.Some? && u.id == id.value && u.role == "faculty"
  }

  function FacultyWithId(id: Option<nat>): User -> bool {
    (u: User) => IsFacultyWithId(u, id)
  }

  function OtherThanFacultyWithId(id: Option<nat>): User -> bool {
    (u: User) => !IsFacultyWithId(u, id)
  }

  /** `this.changes`: how many rows the statement's `WHERE` selects. */
  function Matched(users: seq<User>, id: Option<nat>): (n: nat)
    ensures n > 0 <==> exists i :: 0 <= i < |users| && IsFacultyWithId(users[i], id)
  {
    var selected := Filter(users, FacultyWithId(id));
    assert selected != [] ==> selected[0] in users;
    assert forall i :: 0 <= i < |users| && IsFacultyWithId(users[i], id) ==> users[i] in selected;
    Count(users, FacultyWithId(id))
  }

  function ApproveRow(u: User, id: Option<nat>): User {
    if IsFacultyWithId(u, id) then u.(approved := true) else u
  }

  /**
   * `UPDATE users SET approved = 1 WHERE id = ? AND role = 'faculty'`:
   * only the approval flag changes, and it is set on exactly the selected
   * rows; every other row stays as it was.
   */
  function Approve(users: seq<User>, id: Option<nat>): (r: seq<User>)
    ensures |r| == |users|
    ensures forall i :: 0 <= i < |users| ==>
              && r[i].(approved := users[i].approved) == users[i]
              && r[i].approved == (users[i].approved || IsFacultyWithId(users[i], id))
  {
    seq(|users|, i requires 0 <= i < |users| => ApproveRow(users[i], id))
  }

  /** Approving twice leaves the table approving once left. */
  lemma ApproveIdempotent(users: seq<User>, id: Option<nat>)
    ensures Approve(Approve(users, id), id) == Approve(users, id)
  {
  }

  /** Approval keeps the table valid: no id, name or role changes. */
  lemma ApproveValid(users: seq<User>, lastUserId: nat, id: Option<nat>)
    requires UsersValid(users, lastUserId)
    ensures UsersValid(Approve(users, id), lastUserId)
  {
  }

  predicate UserBefore(a: User, b: User) {
    a.id < b.id
  }

  /** Ids are the primary key, so a statement keyed by id selects at most one row. */
  lemma MatchedAtMostOne(users: seq<User>, lastUserId: nat, id: Option<nat>)
    requires UsersValid(users, lastUserId)
    ensures Matched(users, id) <= 1
  {
    var r := Filter(users, FacultyWithId(id));
    FilterPairwise(users, FacultyWithId(id), UserBefore);
    assert |r| >= 2 ==> UserBefore(r[0], r[1]);
  }

  /** Nothing is selected exactly when no faculty row has that id. */
  lemma MatchedNone(users: seq<User>, id: Option<nat>)
    ensures Matched(users, id) == 0 <==> forall i :: 0 <= i < |users| ==> !IsFacultyWithId(users[i], id)
  {
  }

  /** The store and reply of `PUT /approve-faculty/:id`. */
  function ApproveFaculty(t: Tables, id: string): (r: (Reply<string>, Tables))
    ensures r.1 == t.(users := Approve(t.users, ParseNat(id)))
    ensures r.0.Error? <==> Matched(t.users, ParseNat(id)) == 0
    ensures r.0.Error? ==> r.0 == Error(NOT_FOUND, "Faculty not found") && r.1 == t
    ensures r.0.Ok? ==> r.0 == Ok(OK, "Faculty approved successfully")
    ensures TablesValid(t) ==> TablesValid(r.1)
  {
    var id' := ParseNat(id);
    var users := Approve(t.users, id');
    assert Matched(t.users, id') == 0 ==> users == t.users by {
      MatchedNone(t.users, id');
    }
    assert TablesValid(t) ==> TablesValid(t.(users := users)) by {
      if TablesValid(t) {
        ApproveValid(t.users, t.lastUserId, id');
      }
    }
    if Matched(t.users, id') == 0 then (Error(NOT_FOUND, "Faculty not found"), t.(users := users))
    else (Ok(OK, "Faculty approved successfully"), t.(users := users))
  }

  method ApproveFacultyRoute(db: Database, id: string) returns (reply: Reply<string>)
    requires db.Valid()
    modifies db
    ensures db.Valid()
    ensures (reply, db.Snapshot()) == ApproveFaculty(old(db.Snapshot()), id)
  {
    var changes := Matched(db.users, ParseNat(id));
    db.users := Approve(db.users, ParseNat(id));
    if changes == 0 {
      reply := Error(NOT_FOUND, "Faculty not found");
    } else {
      reply := Ok(OK, "Faculty approved successfully");
    }
  }

  /** Lookup by name sees the approved row where it saw the original. */
  lemma {:induction false} FindApproved(users: seq<User>, username: string, id: Option<nat>)
    ensures FindUser(Approve(users, id), username) ==
            (match FindUser(users, username) case None => None case Some(u) => Some(ApproveRow(u, id)))
  {
    if users != [] {
      FindApproved(users[1..], username, id);
      assert Approve(users, id)[1..] == Approve(users[1..], id);
    }
  }

  /**
   * A faculty account that got 403 at login logs in once an administrator
   * has approved its id, and the view it gets is of the approved row.
   */
  lemma ApproveThenLogin(users: seq<User>, req: LoginRequest, matches: (Value, string) -> Option<bool>, u: User)
    requires Truthy(req.username) && Truthy(req.password)
    requires FindUser(users, BindText(req.username).value) == Some(u)
    requires u.role == "faculty" && matches(req.password, u.password) == Some(true)
    ensures Login(Approve(users, Some(u.id)), req, matches) == Ok(OK, View(u.(approved := true)))
  {
    FindApproved(users, BindText(req.username).value, Some(u.id));
  }

  /** `DELETE FROM users WHERE id = ? AND role = 'faculty'`: every other row stays, in order. */
  function Delete(users: seq<User>, id: Option<nat>): (r: seq<User>)
    ensures forall u :: u in r <==> u in users && !IsFacultyWithId(u, id)
  {
    Filter(users, OtherThanFacultyWithId(id))
  }

  /** The rows removed are counted by `this.changes`. */
  lemma DeleteCount(users: seq<User>, id: Option<nat>)
    ensures |Delete(users, id)| + Matched(users, id) == |users|
  {
    var all := (u: User) => true;
    CountDisjoint(users, FacultyWithId(id), OtherThanFacultyWithId(id), all);
    CountAll(users, all);
  }

  /** Deleting twice leaves the table deleting once left. */
  lemma DeleteIdempotent(users: seq<User>, id: Option<nat>)
    ensures Delete(Delete(users, id), id) == Delete(users, id)
  {
    FilterIdempotent(users, OtherThanFacultyWithId(id));
  }

  predicate UserOrdered(a: User, b: User) {
    a.id < b.id && a.username != b.username
  }

  /** Deletion keeps the table valid. */
  lemma DeleteValid(users: seq<User>, lastUserId: nat, id: Option<nat>)
    requires UsersValid(users, lastUserId)
    ensures UsersValid(Delete(users, id), lastUserId)
  {
    FilterPairwise(users, OtherThanFacultyWithId(id), UserOrdered);
    var r := Delete(users, id);
    forall i, j | 0 <= i < j < |r| ensures r[i].id < r[j].id && r[i].username != r[j].username {
      assert UserOrdered(r[i], r[j]);
    }
  }

  /** The store and reply of `DELETE /delete-faculty/:id`. */
  function DeleteFaculty(t: Tables, id: string): (r: (Reply<string>, Tables))
    ensures r.1 == t.(users := Delete(t.users, ParseNat(id)))
    ensures r.0.Error? <==> Matched(t.users, ParseNat(id)) == 0
    ensures r.0.Error? ==> r.0 == Error(NOT_FOUND, "Faculty not found") && r.1 == t
    ensures r.0.Ok? ==> r.0 == Ok(OK, "Faculty deleted successfully") && |r.1.users| == |t.users| - Matched(t.users, ParseNat(id))
    ensures TablesValid(t) ==> TablesValid(r.1)
    ensures TablesValid(t) && r.0.Ok? ==> |r.1.users| == |t.users| - 1
  {
    var id' := ParseNat(id);
    DeleteCount(t.users, id');
    assert TablesValid(t) ==> Matched(t.users, id') <= 1 by {
      if TablesValid(t) {
        MatchedAtMostOne(t.users, t.lastUserId, id');
      }
    }
    assert Matched(t.users, id') == 0 ==> Delete(t.users, id') == t.users by {
      if Matched(t.users, id') == 0 {
        MatchedNone(t.users, id');
        FilterAll(t.users, OtherThanFacultyWithId(id'));
      }
    }
    assert TablesValid(t) ==> TablesValid(t.(users := Delete(t.users, id'))) by {
      if TablesValid(t) {
        DeleteValid(t.users, t.lastUserId, id');
      }
    }
    var t' := t.(users := Delete(t.users, id'));
    if Matched(t.users, id') == 0 then (Error(NOT_FOUND, "Faculty not found"), t')
    else (Ok(OK, "Faculty deleted successfully"), t')
  }

  method DeleteFacultyRoute(db: Database, id: string) returns (reply: Reply<string>)
    requires db.Valid()
    modifies db
    ensures db.Valid()
    ensures (reply, db.Snapshot()) == DeleteFaculty(old(db.Snapshot()), id)
  {
    var changes := Matched(db.users, ParseNat(id));
    DeleteValid(db.users, db.lastUserId, ParseNat(id));
    db.users := Delete(db.users, ParseNat(id));
    if changes == 0 {
      reply := Error(NOT_FOUND, "Faculty not found");
    } else {
      reply := Ok(OK, "Faculty deleted successfully");
    }
  }

  /** An id that belongs to an administrator or a student selects nothing: ids are unique. */
  lemma NonFacultyUnmatched(users: seq<User>, lastUserId: nat, i: nat, id: string)
    requires UsersValid(users, lastUserId)
    requires i < |users| && ParseNat(id) == Some(users[i].id) && users[i].role != "faculty"
    ensures Matched(users, ParseNat(id)) == 0
  {
    forall j | 0 <= j < |users| ensures !IsFacultyWithId(users[j], ParseNat(id)) {
      if j < i {
        assert users[j].id < users[i].id;
      } else if j > i {
        assert users[i].id < users[j].id;
      }
    }
    MatchedNone(users, ParseNat(id));
  }

  /** Approving the id of an administrator or a student gives 404 and changes nothing. */
  lemma ApproveNonFaculty(t: Tables, i: nat, id: string)
    requires TablesValid(t)
    requires i < |t.users| && ParseNat(id) == Some(t.users[i].id) && t.users[i].role != "faculty"
    ensures ApproveFaculty(t, id) == (Error(NOT_FOUND, "Faculty not found"), t)
  {
    NonFacultyUnmatched(t.users, t.lastUserId, i, id);
  }

  /** Deleting the id of an administrator or a student gives 404 and removes nothing. */
  lemma DeleteNonFaculty(t: Tables, i: nat, id: string)
    requires TablesValid(t)
    requires i < |t.users| && ParseNat(id) == Some(t.users[i].id) && t.users[i].role != "faculty"
    ensures DeleteFaculty(t, id) == (Error(NOT_FOUND, "Faculty not found"), t)
  {
    NonFacultyUnmatched(t.users, t.lastUserId, i, id);
  }

  /** An administrator or student account is never removed, whatever the id. */
  lemma DeleteKeepsOthers(users: seq<User>, id: string, u: User)
    requires u in users && u.role != "faculty"
    ensures u in Delete(users, ParseNat(id))
  {
  }

  // --------------------------------------------------------- pending faculty

  predicate IsPendingFaculty(u: User) {
    u.role == "faculty" && !u.approved
  }

  /** The columns `/pending-faculty` lists. */
  datatype PendingView = PendingView(id: nat, username: string, name: string, department: Option<string>)

  function Reverse<T>(s: seq<T>): (r: seq<T>)
    ensures |r| == |s|
    ensures forall i :: 0 <= i < |s| ==> r[i] == s[|s| - 1 - i]
  {
    seq(|s|, i requires 0 <= i < |s| => s[|s| - 1 - i])
  }

  /**
   * The unapproved faculty accounts, newest first: accounts are created in
   * id order, so the newest is the one with the largest id.
   */
  function PendingRows(users: seq<User>): (r: seq<User>)
    ensures forall u :: u in r <==> u in users && IsPendingFaculty(u)
  {
    var rows := Filter(users, IsPendingFaculty);
    assert forall u :: u in Reverse(rows) <==> u in rows by {
      forall u ensures u in Reverse(rows) <==> u in rows {
        if u in rows {
          var k :| 0 <= k < |rows| && rows[k] == u;
          assert Reverse(rows)[|rows| - 1 - k] == u;
        }
      }
    }
    Reverse(rows)
  }

  /** In a valid table the pending list runs from the largest id down. */
  lemma PendingNewestFirst(users: seq<User>, lastUserId: nat)
    requires UsersValid(users, lastUserId)
    ensures forall i, j :: 0 <= i < j < |PendingRows(users)| ==> PendingRows(users)[i].id > PendingRows(users)[j].id
  {
    FilterPairwise(users, IsPendingFaculty, UserBefore);
    var rows := Filter(users, IsPendingFaculty);
    forall i, j | 0 <= i < j < |rows| ensures rows[i].id < rows[j].id {
      assert UserBefore(rows[i], rows[j]);
    }
  }

  /** `GET /pending-faculty`. */
  function PendingFaculty(users: seq<User>): (r: seq<PendingView>)
    ensures |r| == |PendingRows(users)|
    ensures forall i :: 0 <= i < |r| ==>
              var u := PendingRows(users)[i];
              r[i] == PendingView(u.id, u.username, u.name, u.department) && IsPendingFaculty(u) && u in users
  {
    var rows := PendingRows(users);
    seq(|rows|, i requires 0 <= i < |rows| => PendingView(rows[i].id, rows[i].username, rows[i].name, rows[i].department))
  }

  // ------------------------------------------------------ department grouping

  function DepartmentColumn(rows: seq<AttendanceRow>): (ds: seq<string>)
    ensures |ds| == |rows|
    ensures forall i :: 0 <= i < |rows| ==> ds[i] == rows[i].department
  {
    seq(|rows|, i requires 0 <= i < |rows| => rows[i].department)
  }

  function ByText(s: string): Key {
    [Asc(s)]
  }

  /**
   * `GROUP BY department ORDER BY department`: every department that has
   * a row, once, in strictly ascending order.
   */
  function Departments(rows: seq<AttendanceRow>): (ds: seq<string>)
    ensures forall d :: d in ds <==> d in DepartmentColumn(rows)
    ensures forall i, j :: 0 <= i < j < |ds| ==> Less(ds[i], ds[j])
  {
    var distinct := Distinct(DepartmentColumn(rows));
    var ds := SortBy(distinct, ByText);
    NoRepeatsPermutation(ds, distinct);
    forall d ensures d in ds <==> d in distinct {
      SortByMembership(distinct, ByText, d);
    }
    forall i, j | 0 <= i < j < |ds| ensures Less(ds[i], ds[j]) {
      assert KeyLe(ByText(ds[i]), ByText(ds[j]));
      assert ds[i] != ds[j];
    }
    ds
  }

  /** A department is listed exactly when some row names it. */
  lemma DepartmentListed(rows: seq<AttendanceRow>, d: string)
    ensures d in Departments(rows) <==> exists i :: 0 <= i < |rows| && rows[i].department == d
  {
    if d in DepartmentColumn(rows) {
      var i :| 0 <= i < |rows| && DepartmentColumn(rows)[i] == d;
    }
    if exists i :: 0 <= i < |rows| && rows[i].department == d {
      var i :| 0 <= i < |rows| && rows[i].department == d;
      assert DepartmentColumn(rows)[i] == d;
    }
  }

  function InDepartment(d: string): AttendanceRow -> bool {
    (row: AttendanceRow) => row.department == d
  }

  predicate RowAbsent(row: AttendanceRow) {
    row.status == "absent"
  }

  /** `present / total * 100`, which the handler divides without a guard. */
  function Share(present: nat, total: nat): (p: real)
    requires total > 0
    ensures present <= total ==> 0.0 <= p <= 100.0
  {
    (present as real / total as real) * 100.0
  }

  datatype DepartmentStats = DepartmentStats(department: string, total: nat, present: nat, absent: nat, percentage: real)

  /**
   * `COUNT(*)` and the two `SUM(CASE ...)` of one department's group: the
   * rows of the whole table in that department, and those of them marked
   * present and absent.
   */
  function StatsOf(rows: seq<AttendanceRow>, d: string): (s: DepartmentStats)
    requires d in DepartmentColumn(rows)
    ensures s.department == d && s.total >= 1
    ensures s.total == Count(rows, InDepartment(d))
    ensures s.present == Count(rows, Both(InDepartment(d), RowPresent))
    ensures s.absent == Count(rows, Both(InDepartment(d), RowAbsent))
    ensures s.present <= s.total && s.absent <= s.total
    ensures s.percentage == Share(s.present, s.total) && 0.0 <= s.percentage <= 100.0
  {
    var group := Filter(rows, InDepartment(d));
    var i :| 0 <= i < |rows| && DepartmentColumn(rows)[i] == d;
    CountPositive(rows, InDepartment(d), rows[i]);
    CountFilter(rows, InDepartment(d), RowPresent);
    CountFilter(rows, InDepartment(d), RowAbsent);
    var present, absent := Count(group, RowPresent), Count(group, RowAbsent);
    DepartmentStats(d, |group|, present, absent, Share(present, |group|))
  }

  /** One statistics entry per department that has rows, in department order. */
  function GroupByDepartment(rows: seq<AttendanceRow>): (stats: seq<DepartmentStats>)
    ensures |stats| == |Departments(rows)|
    ensures forall k :: 0 <= k < |stats| ==> stats[k] == StatsOf(rows, Departments(rows)[k])
  {
    var ds := Departments(rows);
    seq(|ds|, k requires 0 <= k < |ds| => StatsOf(rows, ds[k]))
  }

  /** In a valid table each group's present and absent counts make up its total. */
  lemma StatsAddUp(rows: seq<AttendanceRow>, d: string)
    requires AttendanceValid(rows)
    requires d in DepartmentColumn(rows)
    ensures StatsOf(rows, d).present + StatsOf(rows, d).absent == StatsOf(rows, d).total
  {
    var group := Filter(rows, InDepartment(d));
    forall i | 0 <= i < |group| ensures RowPresent(group[i]) || RowAbsent(group[i]) {
      var k :| 0 <= k < |rows| && rows[k] == group[i];
    }
    CountDisjoint(group, RowPresent, RowAbsent, IsStatusRow);
    CountAll(group, IsStatusRow);
  }

  predicate IsStatusRow(row: AttendanceRow) {
    RowPresent(row) || RowAbsent(row)
  }

  function OnDate(date: string): AttendanceRow -> bool {
    (row: AttendanceRow) => row.date == date
  }

  datatype DailyReport = DailyReport(date: string, stats: seq<DepartmentStats>)

  /** `GET /daily-stats`: `date` is the query parameter, `today` the fallback when it is absent. */
  function DailyStats(attendance: seq<AttendanceRow>, date: string, today: string): (r: DailyReport)
    ensures r.date == (if date != "" then date else today)
    ensures r.stats == GroupByDepartment(Filter(attendance, OnDate(r.date)))
  {
    var day := if date != "" then date else today;
    DailyReport(day, GroupByDepartment(Filter(attendance, OnDate(day))))
  }

  /** A department has an entry in the grouping exactly when it is listed. */
  lemma GroupListed(rows: seq<AttendanceRow>, d: string)
    ensures (exists k :: 0 <= k < |GroupByDepartment(rows)| && GroupByDepartment(rows)[k].department == d)
            <==> d in Departments(rows)
  {
    var ds := Departments(rows);
    if d in ds {
      var k :| 0 <= k < |ds| && ds[k] == d;
      assert GroupByDepartment(rows)[k].department == d;
    }
  }

  /** The rows of one day that name a department are the table's rows of that day and department. */
  lemma OnDateRow(attendance: seq<AttendanceRow>, date: string, d: string)
    ensures var rows := Filter(attendance, OnDate(date));
            (exists i :: 0 <= i < |rows| && rows[i].department == d) <==>
            (exists i :: 0 <= i < |attendance| && attendance[i].date == date && attendance[i].department == d)
  {
    var rows := Filter(attendance, OnDate(date));
    if exists i :: 0 <= i < |rows| && rows[i].department == d {
      OnDateRowFromDay(attendance, date, d);
    }
    if exists i :: 0 <= i < |attendance| && attendance[i].date == date && attendance[i].department == d {
      OnDateRowToDay(attendance, date, d);
    }
  }

  lemma OnDateRowFromDay(attendance: seq<AttendanceRow>, date: string, d: string)
    requires exists i :: 0 <= i < |Filter(attendance, OnDate(date))| && Filter(attendance, OnDate(date))[i].department == d
    ensures exists i :: 0 <= i < |attendance| && attendance[i].date == date && attendance[i].department == d
  {
    var rows := Filter(attendance, OnDate(date));
    var i :| 0 <= i < |rows| && rows[i].department == d;
    assert rows[i] in attendance && OnDate(date)(rows[i]);
    var j :| 0 <= j < |attendance| && attendance[j] == rows[i];
  }

  lemma OnDateRowToDay(attendance: seq<AttendanceRow>, date: string, d: string)
    requires exists i :: 0 <= i < |attendance| && attendance[i].date == date && attendance[i].department == d
    ensures exists i :: 0 <= i < |Filter(attendance, OnDate(date))| && Filter(attendance, OnDate(date))[i].department == d
  {
    var rows := Filter(attendance, OnDate(date));
    var i :| 0 <= i < |attendance| && attendance[i].date == date && attendance[i].department == d;
    assert OnDate(date)(attendance[i]);
    assert attendance[i] in rows;
    var j :| 0 <= j < |rows| && rows[j] == attendance[i];
    assert rows[j].department == d;
  }

  /**
   * The daily statistics list each department with a row on that day
   * exactly once, in ascending order, and each entry counts at least one row.
   */
  lemma DailyStatsDepartments(attendance: seq<AttendanceRow>, date: string, today: string, d: string)
    ensures var r := DailyStats(attendance, date, today);
            && ((exists k :: 0 <= k < |r.stats| && r.stats[k].department == d) <==>
                (exists i :: 0 <= i < |attendance| && attendance[i].date == r.date && attendance[i].department == d))
            && (forall k, l :: 0 <= k < l < |r.stats| ==> Less(r.stats[k].department, r.stats[l].department))
            && (forall k :: 0 <= k < |r.stats| ==> r.stats[k].total >= 1)
  {
    var day := if date != "" then date else today;
    DayListed(attendance, day, d);
    GroupOrdered(Filter(attendance, OnDate(day)));
  }

  /** A department has an entry for a day exactly when some row of that day names it. */
  lemma DayListed(attendance: seq<AttendanceRow>, date: string, d: string)
    ensures var stats := GroupByDepartment(Filter(attendance, OnDate(date)));
            (exists k :: 0 <= k < |stats| && stats[k].department == d) <==>
            (exists i :: 0 <= i < |attendance| && attendance[i].date == date && attendance[i].department == d)
  {
    var rows := Filter(attendance, OnDate(date));
    GroupListed(rows, d);
    DepartmentListed(rows, d);
    OnDateRow(attendance, date, d);
  }

  /** The entries are in strictly ascending department order and each counts a row. */
  lemma GroupOrdered(rows: seq<AttendanceRow>)
    ensures var stats := GroupByDepartment(rows);
            && (forall k, l :: 0 <= k < l < |stats| ==> Less(stats[k].department, stats[l].department))
            && (forall k :: 0 <= k < |stats| ==> stats[k].total >= 1)
  {
  }

  function InYearMonth(yearText: string, monthText: string): AttendanceRow -> bool {
    (row: AttendanceRow) => YearOf(row.date) == Some(yearText) && MonthOf(row.date) == Some(monthText)
  }

  /** The monthly entry: the daily one without the absent count. */
  datatype MonthlyDepartmentStats = MonthlyDepartmentStats(department: string, total: nat, present: nat, percentage: real)

  datatype MonthlyReport = MonthlyReport(year: string, month: string, stats: seq<MonthlyDepartmentStats>)

  /**
   * `GET /monthly-stats`: the rows whose date falls in the year and the
   * zero-padded month, grouped by department.
   */
  function MonthlyStats(attendance: seq<AttendanceRow>, year: string, month: string,
                        currentYear: nat, currentMonth: nat): (r: MonthlyReport)
    ensures r.year == YearText(year, currentYear)
    ensures r.month == (if month != "" then month else NatText(currentMonth))
    ensures var groups := GroupByDepartment(Filter(attendance,
                                            InYearMonth(YearText(year, currentYear), MonthText(month, currentMonth))));
            && |r.stats| == |groups|
            && forall k :: 0 <= k < |groups| ==>
                 r.stats[k] == MonthlyDepartmentStats(groups[k].department, groups[k].total, groups[k].present,
                                                      groups[k].percentage)
  {
    var rows := Filter(attendance, InYearMonth(YearText(year, currentYear), MonthText(month, currentMonth)));
    var groups := GroupByDepartment(rows);
    MonthlyReport(YearText(year, currentYear), if month != "" then month else NatText(currentMonth),
                  seq(|groups|, k requires 0 <= k < |groups| =>
                    MonthlyDepartmentStats(groups[k].department, groups[k].total, groups[k].present, groups[k].percentage)))
  }

  // ---------------------------------------------------- section and roster

  /** One row of `/section-attendance`: `marked_by` is the marking user's name through a LEFT JOIN. */
  datatype SectionEntry = SectionEntry(rollNumber: string, status: string, markedBy: Option<string>)

  /** The LEFT JOIN's side: the name of the user whose id is `markedBy`, if there is one. */
  function MarkerName(users: seq<User>, markedBy: Option<int>): (r: Option<string>)
    ensures r.Some? <==> markedBy.Some? && exists i :: 0 <= i < |users| && users[i].id == markedBy.value
    ensures r.Some? ==> exists i :: 0 <= i < |users| && users[i].id == markedBy.value && users[i].name == r.value
  {
    if markedBy.None? || users == [] then None
    else if users[0].id == markedBy.value then Some(users[0].name)
    else
      var r := MarkerName(users[1..], markedBy);
      assert forall i :: 0 < i < |users| ==> users[i] == users[1..][i - 1];
      r
  }

  function SectionEntries(users: seq<User>, rows: seq<AttendanceRow>): (es: seq<SectionEntry>)
    ensures |es| == |rows|
    ensures forall i :: 0 <= i < |rows| ==>
              es[i] == SectionEntry(rows[i].rollNumber, rows[i].status, MarkerName(users, rows[i].markedBy))
  {
    seq(|rows|, i requires 0 <= i < |rows| =>
      SectionEntry(rows[i].rollNumber, rows[i].status, MarkerName(users, rows[i].markedBy)))
  }

  function ByRollNumber(e: SectionEntry): Key {
    [Asc(e.rollNumber)]
  }

  function InSection(department: string, section: string, date: string): AttendanceRow -> bool {
    (row: AttendanceRow) => row.department == department && row.section == section && row.date == date
  }

  /**
   * `GET /section-attendance`: 400 unless department, section and date are
   * all given; otherwise the matching rows, by roll number.
   */
  function SectionAttendance(t: Tables, department: string, section: string, date: string)
    : (r: Reply<seq<SectionEntry>>)
    ensures r.Error? <==> department == "" || section == "" || date == ""
    ensures r.Error? ==> r == Error(BAD_REQUEST, "Department, section, and date are required")
    ensures r.Ok? ==>
      && SortedBy(r.body, ByRollNumber)
      && multiset(r.body) == multiset(SectionEntries(t.users, Filter(t.attendance, InSection(department, section, date))))
  {
    if department == "" || section == "" || date == "" then
      Error(BAD_REQUEST, "Department, section, and date are required")
    else
      Ok(OK, SortBy(SectionEntries(t.users, Filter(t.attendance, InSection(department, section, date))), ByRollNumber))
  }

  /** Every row of that section on that day is listed, with the marker's name when the join finds one. */
  lemma SectionAttendanceComplete(t: Tables, department: string, section: string, date: string, row: AttendanceRow)
    requires department != "" && section != "" && date != ""
    requires row in t.attendance && row.department == department && row.section == section && row.date == date
    ensures SectionEntry(row.rollNumber, row.status, MarkerName(t.users, row.markedBy))
            in SectionAttendance(t, department, section, date).body
  {
    var rows := Filter(t.attendance, InSection(department, section, date));
    var k :| 0 <= k < |rows| && rows[k] == row;
    var e := SectionEntries(t.users, rows)[k];
    assert e in multiset(SectionEntries(t.users, rows));
    assert e in multiset(SectionAttendance(t, department, section, date).body);
  }

  function StudentKey(s: Student): Key {
    [Asc(s.rollNumber)]
  }

  /** The optional `department = ?` and `section = ?` terms of `/students`. */
  predicate Listed(s: Student, department: string, section: string) {
    (department != "" ==> s.department == department) && (section != "" ==> s.section == section)
  }

  /** `GET /students`: the roster rows passing the supplied filters, by roll number. */
  function StudentsListing(students: seq<Student>, department: string, section: string): (r: seq<Student>)
    ensures SortedBy(r, StudentKey)
    ensures multiset(r) == multiset(Filter(students, s => Listed(s, department, section)))
    ensures forall s :: s in r <==> s in students && Listed(s, department, section)
  {
    var rows := Filter(students, s => Listed(s, department, section));
    var r := SortBy(rows, StudentKey);
    forall s ensures s in r <==> s in rows {
      SortByMembership(rows, StudentKey, s);
    }
    r
  }
}
