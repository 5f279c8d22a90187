/**
 * The read-only student routes: one student's attendance history with
 * present/absent counts, the share of days present in one month, and the
 * roster lookup by roll number.
 */
module StudentRoutes {

  import opened Values
  import opened Text
  import opened Sorting
  import opened Http
  import opened Schema

  /**
   * `total > 0 ? present / total * 100 : 0`: the share of present days in
   * percent, with no division when nothing was counted.
   */
  function Percentage(present: nat, total: nat): (p: real)
    ensures total == 0 ==> p == 0.0
    ensures present <= total ==> 0.0 <= p <= 100.0
    ensures 0 < total && present == total ==> p == 100.0
  {
    if total > 0 then (present as real / total as real) * 100.0 else 0.0
  }

  /** The columns `/attendance/:rollNumber` selects for each record. */
  datatype HistoryRecord = HistoryRecord(date: string, status: string, department: string, section: string)

  function HistoryRecordOf(row: AttendanceRow): HistoryRecord {
    HistoryRecord(row.date, row.status, row.department, row.section)
  }

  function Records(rows: seq<AttendanceRow>): (records: seq<HistoryRecord>)
    ensures |records| == |rows|
    ensures forall i :: 0 <= i < |rows| ==> records[i] == HistoryRecordOf(rows[i])
  {
    seq(|rows|, i requires 0 <= i < |rows| => HistoryRecordOf(rows[i]))
  }

  /** `ORDER BY date DESC`. */
  function DateDescending(r: HistoryRecord): Key {
    [Desc(r.date)]
  }

  predicate IsPresent(r: HistoryRecord) { r.status == "present" }
  predicate IsAbsent(r: HistoryRecord) { r.status == "absent" }
  predicate IsMarked(r: HistoryRecord) { IsPresent(r) || IsAbsent(r) }

  datatype History = History(
    rollNumber: string, present: nat, absent: nat, total: nat, percentage: real, records: seq<HistoryRecord>)

  /** The rows stored for one roll number, in the order the table holds them. */
  function RowsOf(attendance: seq<AttendanceRow>, rollNumber: string): (rows: seq<AttendanceRow>)
    ensures forall row :: row in rows <==> row in attendance && row.rollNumber == rollNumber
  {
    Filter(attendance, (row: AttendanceRow) => row.rollNumber == rollNumber)
  }

  /**
   * The counts the handler computes over the fetched records: present and
   * absent records, their sum as the total, and the share present.
   */
  function Tally(rollNumber: string, records: seq<HistoryRecord>): (h: History)
    ensures h.rollNumber == rollNumber && h.records == records
    ensures h.present == Count(records, IsPresent) && h.absent == Count(records, IsAbsent)
    ensures h.total == h.present + h.absent
    ensures h.percentage == Percentage(h.present, h.total) && 0.0 <= h.percentage <= 100.0
  {
    var present := Count(records, IsPresent);
    var absent := Count(records, IsAbsent);
    History(rollNumber, present, absent, present + absent, Percentage(present, present + absent), records)
  }

  /**
   * `GET /attendance/:rollNumber`: every record of the student, newest
   * first, with the counts of present and absent records; the total is
   * their sum, not the number of records.
   */
  function StudentHistory(attendance: seq<AttendanceRow>, rollNumber: string): (h: History)
    ensures SortedBy(h.records, DateDescending)
    ensures multiset(h.records) == multiset(Records(RowsOf(attendance, rollNumber)))
    ensures h == Tally(rollNumber, h.records)
  {
    Tally(rollNumber, SortBy(Records(RowsOf(attendance, rollNumber)), DateDescending))
  }

  /**
   * Since the store only keeps 'present' and 'absent', the total is the
   * number of records after all.
   */
  lemma HistoryTotal(attendance: seq<AttendanceRow>, rollNumber: string)
    requires AttendanceValid(attendance)
    ensures StudentHistory(attendance, rollNumber).total == |StudentHistory(attendance, rollNumber).records|
  {
    var h := StudentHistory(attendance, rollNumber);
    var rows := RowsOf(attendance, rollNumber);
    forall i | 0 <= i < |h.records| ensures IsMarked(h.records[i]) {
      assert h.records[i] in multiset(Records(rows));
      var k :| 0 <= k < |Records(rows)| && Records(rows)[k] == h.records[i];
      assert rows[k] in attendance;
      var j :| 0 <= j < |attendance| && attendance[j] == rows[k];
    }
    CountDisjoint(h.records, IsPresent, IsAbsent, IsMarked);
    CountAll(h.records, IsMarked);
  }

  /** Every row stored for the student appears in the history. */
  lemma HistoryRecordsOfStudent(attendance: seq<AttendanceRow>, rollNumber: string, row: AttendanceRow)
    requires row in attendance
    ensures row.rollNumber == rollNumber ==> HistoryRecordOf(row) in StudentHistory(attendance, rollNumber).records
  {
    var rows := RowsOf(attendance, rollNumber);
    if row.rollNumber == rollNumber {
      var k :| 0 <= k < |rows| && rows[k] == row;
      assert Records(rows)[k] == HistoryRecordOf(row);
      assert HistoryRecordOf(row) in multiset(StudentHistory(attendance, rollNumber).records);
    }
  }

  // ---------------------------------------------------------- monthly share

  /**
   * `strftime('%Y', date)` and `strftime('%m', date)` for a date written
   * `YYYY-MM-DD`: only the shape of the first ten characters is checked,
   * and any other text is treated as matching no year or month.
   */
  predicate IsIsoDate(d: string) {
    |d| >= 10 && IsDigit(d[0]) && IsDigit(d[1]) && IsDigit(d[2]) && IsDigit(d[3]) && d[4] == '-'
    && IsDigit(d[5]) && IsDigit(d[6]) && d[7] == '-' && IsDigit(d[8]) && IsDigit(d[9])
  }

  function YearOf(d: string): (y: Option<string>)
    ensures y.Some? <==> IsIsoDate(d)
    ensures y.Some? ==> y.value == d[..4]
  {
    if IsIsoDate(d) then Some(d[..4]) else None
  }

  function MonthOf(d: string): (m: Option<string>)
    ensures m.Some? <==> IsIsoDate(d)
    ensures m.Some? ==> m.value == d[5..7]
  {
    if IsIsoDate(d) then Some(d[5..7]) else None
  }

  /**
   * `month.toString().padStart(2, '0')`: `month` is the query parameter,
   * or the current month when the parameter is absent.
   */
  function MonthText(month: string, currentMonth: nat): (m: string)
    ensures |m| >= 2
    ensures month != "" && |month| >= 2 ==> m == month
    ensures month != "" && |month| == 1 ==> m == ['0'] + month
  {
    PadStart(if month != "" then month else NatText(currentMonth), 2, '0')
  }

  /** `year.toString()`: the query parameter, or the current year when it is absent. */
  function YearText(year: string, currentYear: nat): string {
    if year != "" then year else NatText(currentYear)
  }

  /** A month number from 1 to 9 becomes a zero and its digit; 10 to 12 stay as they are. */
  lemma MonthPadding(m: nat)
    requires 1 <= m <= 12
    ensures m < 10 ==> MonthText("", m) == ['0', DigitChar(m)]
    ensures m >= 10 ==> MonthText("", m) == ['1', DigitChar(m - 10)]
  {
    if m >= 10 {
      assert NatText(m) == NatText(1) + [DigitChar(m - 10)];
    }
  }

  lemma MonthPaddingExamples()
    ensures MonthText("3", 7) == "03"
    ensures MonthText("12", 7) == "12"
    ensures MonthText("", 3) == "03"
  {
    GivenMonthPadded();
    GivenMonthKept();
    CurrentMonthPadded();
  }

  lemma GivenMonthPadded()
    ensures MonthText("3", 7) == "03"
  {
    assert MonthText("3", 7) == ['0'] + "3";
  }

  lemma GivenMonthKept()
    ensures MonthText("12", 7) == "12"
  {
  }

  lemma CurrentMonthPadded()
    ensures MonthText("", 3) == "03"
  {
    assert NatText(3) == "3";
    assert PadStart("3", 2, '0') == "03";
  }

  datatype MonthlyShare = MonthlyShare(
    rollNumber: string, year: string, month: string, present: nat, total: nat, percentage: real)

  predicate InMonth(row: AttendanceRow, rollNumber: string, yearText: string, monthText: string) {
    row.rollNumber == rollNumber && YearOf(row.date) == Some(yearText) && MonthOf(row.date) == Some(monthText)
  }

  predicate RowPresent(row: AttendanceRow) {
    row.status == "present"
  }

  /**
   * `GET /monthly-average/:rollNumber`: of the student's rows in that year
   * and month, how many are 'present' and how many there are in all.
   * Unlike the history, the total counts every row whatever its status.
   */
  function MonthlyAverage(attendance: seq<AttendanceRow>, rollNumber: string, year: string, month: string,
                          currentYear: nat, currentMonth: nat): (r: MonthlyShare)
    ensures var rows := Filter(attendance,
                               row => InMonth(row, rollNumber, YearText(year, currentYear), MonthText(month, currentMonth)));
            && r.total == |rows|
            && r.present == Count(rows, RowPresent)
            && r.present <= r.total
            && r.percentage == Percentage(r.present, r.total)
            && (forall row :: row in rows <==>
                  row in attendance && row.rollNumber == rollNumber
                  && YearOf(row.date) == Some(YearText(year, currentYear))
                  && MonthOf(row.date) == Some(MonthText(month, currentMonth)))
  {
    var yearText, monthText := YearText(year, currentYear), MonthText(month, currentMonth);
    var rows := Filter(attendance, row => InMonth(row, rollNumber, yearText, monthText));
    var present := Count(rows, RowPresent);
    MonthlyShare(rollNumber, if year != "" then year else NatText(currentYear),
                 if month != "" then month else NatText(currentMonth),
                 present, |rows|, Percentage(present, |rows|))
  }

  /** A student with no rows in the month gets a share of 0 and a total of 0. */
  lemma MonthlyAverageEmpty(attendance: seq<AttendanceRow>, rollNumber: string, year: string, month: string,
                            currentYear: nat, currentMonth: nat)
    requires forall i :: 0 <= i < |attendance| ==> attendance[i].rollNumber != rollNumber
    ensures MonthlyAverage(attendance, rollNumber, year, month, currentYear, currentMonth).total == 0
    ensures MonthlyAverage(attendance, rollNumber, year, month, currentYear, currentMonth).percentage == 0.0
  {
    var rows := Filter(attendance,
                       row => InMonth(row, rollNumber, YearText(year, currentYear), MonthText(month, currentMonth)));
    if rows != [] {
      assert rows[0] in attendance;
    }
  }

  // ----------------------------------------------------------------- roster

  /** `SELECT * FROM students WHERE roll_number = ?` with `db.get`. */
  function FindStudent(students: seq<Student>, rollNumber: string): (r: Option<Student>)
    ensures r.None? <==> !RollNumberTaken(students, rollNumber)
    ensures r.Some? ==> r.value in students && r.value.rollNumber == rollNumber
  {
    if students == [] then None
    else if students[0].rollNumber == rollNumber then Some(students[0])
    else
      var r := FindStudent(students[1..], rollNumber);
      assert forall i :: 0 < i < |students| ==> students[i] == students[1..][i - 1];
      r
  }

  /** `GET /info/:rollNumber`: the roster row, or 404 when there is none. */
  function StudentInfo(students: seq<Student>, rollNumber: string): (r: Reply<Student>)
    ensures r.Error? <==> !RollNumberTaken(students, rollNumber)
    ensures r.Error? ==> r == Error(NOT_FOUND, "Student not found")
    ensures r.Ok? ==> r.code == OK && r.body in students && r.body.rollNumber == rollNumber
  {
    match FindStudent(students, rollNumber)
    case None => Error(NOT_FOUND, "Student not found")
    case Some(s) => Ok(OK, s)
  }

  /** Roll numbers are the roster's key, so the row found is the only one with that number. */
  lemma StudentInfoUnique(students: seq<Student>, rollNumber: string, i: nat)
    requires StudentsValid(students)
    requires i < |students| && students[i].rollNumber == rollNumber
    ensures StudentInfo(students, rollNumber) == Ok(OK, students[i])
  {
    var s := FindStudent(students, rollNumber).value;
    var j :| 0 <= j < |students| && students[j] == s;
    assert j == i;
  }
}
