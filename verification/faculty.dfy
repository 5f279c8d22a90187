/**
 * The faculty routes: batch attendance ingestion from CSV text, from a
 * decoded spreadsheet and from a JSON array, the student roster import, and
 * the filtered attendance history.
 *
 * Every batch route walks its input once, in order. A row that passes the
 * route's own checks is handed to the store as one INSERT and counted as a
 * success; any other row is counted as an error. The store reports its own
 * rejections (a CHECK or UNIQUE failure) only asynchronously, after the
 * counting is over, so `successCount` counts insert attempts, not stored rows.
 * The model assumes that a rejected insert is not stored and that the batch
 * goes on; the program instead dies on the unhandled statement error.
 */
module Faculty {

  import opened Values
  import opened Text
  import opened Sorting
  import opened Http
  import opened Schema

  /** The JSON body of a successful batch: `{successCount, errorCount, total}`. */
  datatype BatchReport = BatchReport(successCount: nat, errorCount: nat, total: nat)

  /** The counters of a per-row loop and the inserts it attempted, in order. */
  datatype Batch<I> = Batch(attempts: seq<I>, successCount: nat, errorCount: nat)

  /** One row of the loop: an accepted row is attempted and counted, any other is an error. */
  function Step<I>(b: Batch<I>, r: Option<I>): Batch<I> {
    match r
    case Some(i) => Batch(b.attempts + [i], b.successCount + 1, b.errorCount)
    case None => Batch(b.attempts, b.successCount, b.errorCount + 1)
  }

  /**
   * The per-row loop: `accept` gives the insert(s) a row asks for, or None
   * when the row fails the route's checks (or throws inside the `try`).
   */
  function RunBatch<T(!new), I>(items: seq<T>, accept: T -> Option<I>): (b: Batch<I>)
    ensures b.successCount + b.errorCount == |items|
    ensures b.successCount == |b.attempts|
    decreases |items|
  {
    if items == [] then Batch([], 0, 0)
    else Step(RunBatch(items[..|items| - 1], accept), accept(items[|items| - 1]))
  }

  lemma RunBatchStep<T(!new), I>(items: seq<T>, x: T, accept: T -> Option<I>)
    ensures RunBatch(items + [x], accept) == Step(RunBatch(items, accept), accept(x))
  {
    assert (items + [x])[..|items|] == items;
  }

  function Refused<T, I>(accept: T -> Option<I>): T -> bool {
    x => accept(x).None?
  }

  /** The errors are exactly the rows `accept` refuses. */
  lemma {:induction false} BatchErrors<T(!new), I>(items: seq<T>, accept: T -> Option<I>)
    ensures RunBatch(items, accept).errorCount == Count(items, Refused(accept))
    decreases |items|
  {
    if items != [] {
      BatchErrors(items[..|items| - 1], accept);
    }
  }

  /** Every attempted insert comes from an accepted row, and every accepted row is attempted. */
  lemma {:induction false} BatchAttempts<T(!new), I>(items: seq<T>, accept: T -> Option<I>)
    ensures forall a :: a in RunBatch(items, accept).attempts ==>
              exists i :: 0 <= i < |items| && accept(items[i]) == Some(a)
    ensures forall i :: 0 <= i < |items| && accept(items[i]).Some? ==>
              accept(items[i]).value in RunBatch(items, accept).attempts
    decreases |items|
  {
    if items != [] {
      var front, last := items[..|items| - 1], items[|items| - 1];
      BatchAttempts(front, accept);
      var b := RunBatch(front, accept);
      var r := RunBatch(items, accept);
      assert r == Step(b, accept(last));
      forall a | a in r.attempts
        ensures exists i :: 0 <= i < |items| && accept(items[i]) == Some(a)
      {
        if a in b.attempts {
          var i :| 0 <= i < |front| && accept(front[i]) == Some(a);
          assert items[i] == front[i];
        } else {
          assert accept(items[|items| - 1]) == Some(a);
        }
      }
      forall i | 0 <= i < |items| && accept(items[i]).Some?
        ensures accept(items[i]).value in r.attempts
      {
        if i < |front| {
          assert items[i] == front[i];
        }
      }
    }
  }

  /** The positions of the rows `accept` takes, in ascending order. */
  function AcceptedIndices<T(!new), I>(items: seq<T>, accept: T -> Option<I>): (idx: seq<nat>)
    ensures forall k :: 0 <= k < |idx| ==> idx[k] < |items| && accept(items[idx[k]]).Some?
    ensures forall k, l :: 0 <= k < l < |idx| ==> idx[k] < idx[l]
    ensures forall i :: 0 <= i < |items| && accept(items[i]).Some? ==> i in idx
    decreases |items|
  {
    if items == [] then []
    else
      var front := items[..|items| - 1];
      var rest := AcceptedIndices(front, accept);
      assert forall i :: 0 <= i < |front| ==> items[i] == front[i];
      if accept(items[|items| - 1]).Some? then rest + [|items| - 1] else rest
  }

  /**
   * The attempts are the accepted rows' inserts in row order: the k-th
   * attempt is the insert of the k-th accepted row, and there is one per
   * accepted row.
   */
  lemma {:induction false} BatchAttemptsInOrder<T(!new), I>(items: seq<T>, accept: T -> Option<I>)
    ensures var attempts, idx := RunBatch(items, accept).attempts, AcceptedIndices(items, accept);
            && |attempts| == |idx|
            && forall k :: 0 <= k < |idx| ==> attempts[k] == accept(items[idx[k]]).value
    decreases |items|
  {
    if items != [] {
      var front := items[..|items| - 1];
      BatchAttemptsInOrder(front, accept);
      assert forall i :: 0 <= i < |front| ==> items[i] == front[i];
    }
  }

  /** A batch route's reply and the inserts it attempted (none on an error reply). */
  datatype Outcome<I> = Outcome(reply: Reply<BatchReport>, attempts: seq<I>)

  function Rejection<I>(code: nat, message: string): (o: Outcome<I>)
    ensures o.reply.Error? && o.attempts == []
  {
    Outcome(Error(code, message), [])
  }

  function Report<I>(b: Batch<I>, total: nat): Outcome<I> {
    Outcome(Ok(OK, BatchReport(b.successCount, b.errorCount, total)), b.attempts)
  }

  // ---------------------------------------------------------------- CSV text

  /** The lines of the posted text, header first: `csvData.trim().split('\n')`. */
  function CsvLines(text: string): (lines: seq<string>)
    ensures |lines| >= 1
  {
    Split(Trim(text), '\n')
  }

  /** The fields of one line: `line.split(',').map(p => p.trim())`. */
  function CsvFields(line: string): (fields: seq<string>)
    ensures |fields| >= 1
  {
    var pieces := Split(line, ',');
    seq(|pieces|, i requires 0 <= i < |pieces| => Trim(pieces[i]))
  }

  /**
   * The lines are the trimmed text cut at its newlines: none holds a
   * newline, joining them with newlines gives the trimmed text back, and
   * there is one more line than there are newlines in it.
   */
  lemma CsvLinesOfText(text: string)
    ensures forall i :: 0 <= i < |CsvLines(text)| ==> '\n' !in CsvLines(text)[i]
    ensures Join(CsvLines(text), '\n') == Trim(text)
    ensures |CsvLines(text)| == Occurrences(Trim(text), '\n') + 1
  {
    SplitPiecesFree(Trim(text), '\n');
    JoinSplit(Trim(text), '\n');
    SplitLength(Trim(text), '\n');
  }

  /**
   * The fields are the line's comma-separated pieces, trimmed: one more
   * than there are commas, none holding a comma or starting or ending with
   * white space.
   */
  lemma CsvFieldsOfLine(line: string)
    ensures |CsvFields(line)| == Occurrences(line, ',') + 1
    ensures forall i :: 0 <= i < |CsvFields(line)| ==>
              && ',' !in CsvFields(line)[i]
              && (CsvFields(line)[i] == [] || (!IsSpace(CsvFields(line)[i][0]) && !IsSpace(CsvFields(line)[i][|CsvFields(line)[i]| - 1])))
  {
    var pieces := Split(line, ',');
    SplitLength(line, ',');
    SplitPiecesFree(line, ',');
    forall i | 0 <= i < |pieces| ensures ',' !in Trim(pieces[i]) {
      TrimInfix(pieces[i]);
    }
  }

  /**
   * The insert a data line asks for: only a line with at least five fields
   * gives one, taking the roll number, department, section and lower-cased
   * status from fixed positions 0, 2, 3 and 4 (field 1 is never read).
   */
  function CsvLineInsert(date: Value, line: string, facultyId: Value): (r: Option<AttendanceInsert>)
    ensures r.Some? <==> |CsvFields(line)| >= 5
    ensures r.Some? ==> r.value == AttendanceInsert(date, Str(CsvFields(line)[0]),
              Str(Lower(CsvFields(line)[4])), Str(CsvFields(line)[2]), Str(CsvFields(line)[3]), facultyId)
  {
    var parts := CsvFields(line);
    if |parts| >= 5 then
      Some(AttendanceInsert(date, Str(parts[0]), Str(Lower(parts[4])), Str(parts[2]), Str(parts[3]), facultyId))
    else None
  }

  /** A line with fewer than five fields, which the route counts as an error. */
  predicate ShortLine(line: string) {
    |CsvFields(line)| < 5
  }

  function CsvAccept(date: Value, facultyId: Value): string -> Option<AttendanceInsert> {
    line => CsvLineInsert(date, line, facultyId)
  }

  /** `POST /upload-attendance-csv`. */
  function UploadCsv(date: Value, csvData: Value, facultyId: Value): (o: Outcome<AttendanceInsert>)
    ensures o.reply.Error? ==> o.attempts == []
    ensures o.reply.Ok? ==> o.reply.body.successCount + o.reply.body.errorCount == o.reply.body.total
  {
    if !Truthy(csvData) || !Truthy(date) then Rejection(BAD_REQUEST, "Missing required fields")
    else if !csvData.Str? then Rejection(SERVER_ERROR, "Error processing CSV data")  // `trim` of a number throws
    else
      var lines := CsvLines(csvData.s);
      if |lines| < 2 then Rejection(BAD_REQUEST, "Invalid CSV data")
      else Report(RunBatch(lines[1..], CsvAccept(date, facultyId)), |lines| - 1)
  }

  /**
   * The attendance table after a batch, under the assumption that a rejected
   * insert is skipped: the store keeps each attempted row it admits.
   */
  function AfterAttendance(t: Tables, attempts: seq<AttendanceInsert>): (t': Tables)
    ensures TablesValid(t) ==> TablesValid(t')
  {
    t.(attendance := t.attendance + AdmittedRows(attempts))
  }

  /** A request that attempts nothing leaves the tables as they were. */
  lemma AfterAttendanceNothing(t: Tables)
    ensures AfterAttendance(t, []) == t
  {
    assert t.attendance + [] == t.attendance;
  }

  lemma AfterAttendanceStep(t: Tables, attempts: seq<AttendanceInsert>, a: AttendanceInsert)
    ensures var before := AfterAttendance(t, attempts);
            AfterAttendance(t, attempts + [a]) == before.(attendance := before.attendance + AdmittedRows([a]))
  {
    AdmittedRowsAppend(attempts, [a]);
    assert AfterAttendance(t, attempts + [a]).attendance
        == AfterAttendance(t, attempts).attendance + AdmittedRows([a]);
  }

  /**
   * The loop the three attendance routes share: each row `accept` admits is
   * sent to the store as one INSERT and counted as a success, every other
   * row is counted as an error.
   */
  method InsertEach<T(!new)>(db: Database, items: seq<T>, accept: T -> Option<AttendanceInsert>)
    returns (successCount: nat, errorCount: nat)
    requires db.Valid()
    modifies db
    ensures db.Valid()
    ensures successCount == RunBatch(items, accept).successCount
    ensures errorCount == RunBatch(items, accept).errorCount
    ensures db.Snapshot() == AfterAttendance(old(db.Snapshot()), RunBatch(items, accept).attempts)
  {
    successCount, errorCount := 0, 0;
    ghost var attempts: seq<AttendanceInsert> := [];
    for i := 0 to |items|
      invariant db.Valid()
      invariant Batch(attempts, successCount, errorCount) == RunBatch(items[..i], accept)
      invariant db.Snapshot() == AfterAttendance(old(db.Snapshot()), attempts)
    {
      assert items[..i + 1] == items[..i] + [items[i]];
      RunBatchStep(items[..i], items[i], accept);
      var insert := accept(items[i]);
      if insert.Some? {
        var _ := db.RunAttendanceInsert(insert.value);
        AfterAttendanceStep(old(db.Snapshot()), attempts, insert.value);
        attempts := attempts + [insert.value];
        successCount := successCount + 1;
      } else {
        errorCount := errorCount + 1;
      }
    }
    assert items[..|items|] == items;
  }

  method UploadAttendanceCsv(db: Database, date: Value, csvData: Value, facultyId: Value)
    returns (reply: Reply<BatchReport>)
    requires db.Valid()
    modifies db
    ensures db.Valid()
    ensures reply == UploadCsv(date, csvData, facultyId).reply
    ensures db.Snapshot() == AfterAttendance(old(db.Snapshot()), UploadCsv(date, csvData, facultyId).attempts)
  {
    AfterAttendanceNothing(db.Snapshot());
    if !Truthy(csvData) || !Truthy(date) {
      UploadCsvMissing(date, csvData, facultyId);
      return Error(BAD_REQUEST, "Missing required fields");
    }
    if !csvData.Str? {
      UploadCsvNotText(date, csvData, facultyId);
      return Error(SERVER_ERROR, "Error processing CSV data");
    }
    reply := UploadCsvText(db, date, csvData.s, facultyId);
  }

  /** The CSV route once the date and the text are known to be present: split, check, and insert line by line. */
  method UploadCsvText(db: Database, date: Value, text: string, facultyId: Value)
    returns (reply: Reply<BatchReport>)
    requires db.Valid() && Truthy(date) && text != []
    modifies db
    ensures db.Valid()
    ensures reply == UploadCsv(date, Str(text), facultyId).reply
    ensures db.Snapshot() == AfterAttendance(old(db.Snapshot()), UploadCsv(date, Str(text), facultyId).attempts)
  {
    var lines := CsvLines(text);
    if |lines| < 2 {
      UploadCsvOneLineOnly(date, text, facultyId);
      AfterAttendanceNothing(db.Snapshot());
      return Error(BAD_REQUEST, "Invalid CSV data");
    }
    UploadCsvAccepted(date, text, facultyId);
    var successCount, errorCount := InsertEach(db, lines[1..], CsvAccept(date, facultyId));
    reply := Ok(OK, BatchReport(successCount, errorCount, |lines| - 1));
  }

  /** A missing text or date is a 400 before anything else is looked at. */
  lemma UploadCsvMissing(date: Value, csvData: Value, facultyId: Value)
    requires !Truthy(csvData) || !Truthy(date)
    ensures UploadCsv(date, csvData, facultyId) == Rejection(BAD_REQUEST, "Missing required fields")
  {
  }

  /** A present value that is not text makes `trim` throw: a 500. */
  lemma UploadCsvNotText(date: Value, csvData: Value, facultyId: Value)
    requires Truthy(csvData) && Truthy(date) && !csvData.Str?
    ensures UploadCsv(date, csvData, facultyId) == Rejection(SERVER_ERROR, "Error processing CSV data")
  {
  }

  /** The reply to non-empty text, one case per line count: the unfolding the lemmas below start from. */
  lemma UploadCsvOfText(date: Value, text: string, facultyId: Value)
    requires text != []
    ensures UploadCsv(date, Str(text), facultyId)
            == if !Truthy(date) then Rejection(BAD_REQUEST, "Missing required fields")
               else if |CsvLines(text)| < 2 then Rejection(BAD_REQUEST, "Invalid CSV data")
               else Report(RunBatch(CsvLines(text)[1..], CsvAccept(date, facultyId)), |CsvLines(text)| - 1)
  {
  }

  /** Text that trims to a single line is a 400 that inserts nothing. */
  lemma UploadCsvOneLineOnly(date: Value, text: string, facultyId: Value)
    requires Truthy(date) && text != [] && |CsvLines(text)| < 2
    ensures UploadCsv(date, Str(text), facultyId) == Rejection(BAD_REQUEST, "Invalid CSV data")
  {
  }

  /** Text that holds a header and at least one more line is run through the per-line loop. */
  lemma UploadCsvAccepted(date: Value, text: string, facultyId: Value)
    requires Truthy(date) && text != [] && |CsvLines(text)| >= 2
    ensures UploadCsv(date, Str(text), facultyId)
            == Report(RunBatch(CsvLines(text)[1..], CsvAccept(date, facultyId)), |CsvLines(text)| - 1)
  {
  }

  /** A missing text or date, or text that trims to a single line, is a 400 that inserts nothing. */
  lemma UploadCsvRejects(date: Value, csvData: Value, facultyId: Value)
    requires !Truthy(csvData) || !Truthy(date) || (csvData.Str? && |CsvLines(csvData.s)| < 2)
    ensures UploadCsv(date, csvData, facultyId).reply.Error?
    ensures UploadCsv(date, csvData, facultyId).reply.code == BAD_REQUEST
    ensures UploadCsv(date, csvData, facultyId).attempts == []
  {
  }

  /** Only text with a date and at least two lines is answered 200. */
  lemma UploadCsvOk(date: Value, csvData: Value, facultyId: Value)
    requires UploadCsv(date, csvData, facultyId).reply.Ok?
    ensures Truthy(date) && csvData.Str? && csvData.s != [] && |CsvLines(csvData.s)| >= 2
  {
  }

  /**
   * The counts of an accepted CSV request: one per line after the header;
   * the errors are exactly the lines with fewer than five fields, and the
   * successes are the attempted inserts.
   */
  lemma UploadCsvCounts(date: Value, csvData: Value, facultyId: Value)
    requires UploadCsv(date, csvData, facultyId).reply.Ok?
    ensures csvData.Str?
    ensures var o := UploadCsv(date, csvData, facultyId);
            var lines := CsvLines(csvData.s);
            && o.reply.body.total == |lines| - 1
            && o.reply.body.successCount == |o.attempts|
            && o.reply.body.errorCount == Count(lines[1..], ShortLine)
  {
    UploadCsvOk(date, csvData, facultyId);
    UploadCsvAccepted(date, csvData.s, facultyId);
    var lines := CsvLines(csvData.s);
    var accept := CsvAccept(date, facultyId);
    BatchErrors(lines[1..], accept);
    forall l ensures Refused(accept)(l) == ShortLine(l) {
      assert accept(l) == CsvLineInsert(date, l, facultyId);
    }
    FilterExtensional(lines[1..], Refused(accept), ShortLine);
  }

  /**
   * The header is never inserted: every attempt is the insert of some line
   * after the first, and every such line with five fields is attempted.
   */
  lemma UploadCsvSkipsHeader(date: Value, csvData: Value, facultyId: Value)
    requires UploadCsv(date, csvData, facultyId).reply.Ok?
    ensures csvData.Str?
    ensures var o := UploadCsv(date, csvData, facultyId);
            var lines := CsvLines(csvData.s);
            && (forall a :: a in o.attempts ==>
                  exists k :: 1 <= k < |lines| && CsvLineInsert(date, lines[k], facultyId) == Some(a))
            && (forall k :: 1 <= k < |lines| && |CsvFields(lines[k])| >= 5 ==>
                  CsvLineInsert(date, lines[k], facultyId).value in o.attempts)
  {
    UploadCsvOk(date, csvData, facultyId);
    UploadCsvAccepted(date, csvData.s, facultyId);
    var lines := CsvLines(csvData.s);
    var accept := CsvAccept(date, facultyId);
    var data := lines[1..];
    BatchAttempts(data, accept);
    var o := UploadCsv(date, csvData, facultyId);
    forall a | a in o.attempts
      ensures exists k :: 1 <= k < |lines| && CsvLineInsert(date, lines[k], facultyId) == Some(a)
    {
      var i :| 0 <= i < |data| && accept(data[i]) == Some(a);
      assert accept(data[i]) == CsvLineInsert(date, lines[i + 1], facultyId);
    }
    forall k | 1 <= k < |lines| && |CsvFields(lines[k])| >= 5
      ensures CsvLineInsert(date, lines[k], facultyId).value in o.attempts
    {
      assert accept(data[k - 1]) == CsvLineInsert(date, lines[k], facultyId);
    }
  }

  /**
   * The attempts of an accepted CSV request follow the data lines: the k-th
   * attempt is the insert of the k-th data line that has five fields.
   */
  lemma UploadCsvInOrder(date: Value, csvData: Value, facultyId: Value)
    requires UploadCsv(date, csvData, facultyId).reply.Ok?
    ensures csvData.Str?
    ensures var o := UploadCsv(date, csvData, facultyId);
            var lines := CsvLines(csvData.s);
            var idx := AcceptedIndices(lines[1..], CsvAccept(date, facultyId));
            && |o.attempts| == |idx|
            && forall k :: 0 <= k < |idx| ==>
                 o.attempts[k] == CsvLineInsert(date, lines[idx[k] + 1], facultyId).value
  {
    UploadCsvOk(date, csvData, facultyId);
    UploadCsvAccepted(date, csvData.s, facultyId);
    var lines := CsvLines(csvData.s);
    BatchAttemptsInOrder(lines[1..], CsvAccept(date, facultyId));
  }

  /** Trailing white space, a final newline included, never adds a data line. */
  lemma UploadCsvTrailingSpace(date: Value, text: string, w: string, facultyId: Value)
    requires text != "" && AllSpace(w)
    ensures UploadCsv(date, Str(text + w), facultyId) == UploadCsv(date, Str(text), facultyId)
  {
    TrimIgnoresTrailingSpace(text, w);
    UploadCsvDependsOnLines(date, text + w, text, facultyId);
  }

  /** The reply and the attempts depend on the text only through its lines. */
  lemma UploadCsvDependsOnLines(date: Value, a: string, b: string, facultyId: Value)
    requires a != [] && b != [] && CsvLines(a) == CsvLines(b)
    ensures UploadCsv(date, Str(a), facultyId) == UploadCsv(date, Str(b), facultyId)
  {
    UploadCsvOfText(date, a, facultyId);
    UploadCsvOfText(date, b, facultyId);
  }

  lemma TrimUnchanged(s: string)
    requires s != [] && !IsSpace(s[0]) && !IsSpace(s[|s| - 1])
    ensures Trim(s) == s
  {
  }

  /** A header and data lines that need no trimming, joined by newlines, come back as they were. */
  lemma {:induction false} CsvLinesOfJoin(lines: seq<string>)
    requires |lines| >= 1
    requires forall i :: 0 <= i < |lines| ==> '\n' !in lines[i]
    requires lines[0] != [] && !IsSpace(lines[0][0])
    requires lines[|lines| - 1] != [] && !IsSpace(lines[|lines| - 1][|lines[|lines| - 1]| - 1])
    ensures CsvLines(Join(lines, '\n')) == lines
  {
    var text := Join(lines, '\n');
    JoinLast(lines, '\n');
    assert text[0] == lines[0][0];
    TrimUnchanged(text);
    SplitJoin(lines, '\n');
  }

  lemma {:induction false} JoinLast(parts: seq<string>, sep: char)
    requires |parts| >= 1 && parts[|parts| - 1] != []
    ensures Join(parts, sep) != []
    ensures Join(parts, sep)[|Join(parts, sep)| - 1] == parts[|parts| - 1][|parts[|parts| - 1]| - 1]
    decreases |parts|
  {
    if |parts| > 1 {
      JoinLast(parts[1..], sep);
    }
  }

  /** Text joined around a newline, with no white space at its outer ends, is left as it is by `trim`. */
  lemma TrimAroundNewline(header: string, rest: string)
    requires header != [] && !IsSpace(header[0])
    requires rest != [] && !IsSpace(rest[|rest| - 1])
    ensures Trim(header + "\n" + rest) == header + "\n" + rest
  {
    var text := header + "\n" + rest;
    assert text[0] == header[0] && text[|text| - 1] == rest[|rest| - 1];
    TrimUnchanged(text);
  }

  /**
   * A first line without leading white space, a newline, and a rest without
   * trailing white space: the first line is the header and the rest splits
   * into the data lines.
   */
  lemma CsvLinesAfterHeader(header: string, rest: string)
    requires header != [] && !IsSpace(header[0]) && '\n' !in header
    requires rest != [] && !IsSpace(rest[|rest| - 1])
    ensures CsvLines(header + "\n" + rest) == [header] + Split(rest, '\n')
  {
    TrimAroundNewline(header, rest);
    SplitAfterPiece(header, rest, '\n');
  }

  /** Two lines joined by a newline, neither holding one, split back into the two. */
  lemma SplitTwoLines(first: string, second: string)
    requires '\n' !in first && '\n' !in second
    ensures Split(first + "\n" + second, '\n') == [first, second]
  {
    SplitAfterPiece(first, second, '\n');
    SplitPiece(second, '\n');
  }

  lemma CsvAcceptFull(date: Value, line: string, facultyId: Value)
    requires |CsvFields(line)| >= 5
    ensures CsvAccept(date, facultyId)(line) == Some(CsvLineInsert(date, line, facultyId).value)
  {
  }

  lemma CsvAcceptShort(date: Value, line: string, facultyId: Value)
    requires |CsvFields(line)| < 5
    ensures CsvAccept(date, facultyId)(line) == None
  {
  }

  /** A single accepted row: one attempt, no error. */
  lemma RunBatchAccepted<T(!new), I>(x: T, accept: T -> Option<I>)
    requires accept(x).Some?
    ensures RunBatch([x], accept) == Batch([accept(x).value], 1, 0)
  {
    RunBatchStep([], x, accept);
    assert [] + [x] == [x];
  }

  /** An accepted row followed by a refused one: one attempt, one error. */
  lemma RunBatchAcceptedRefused<T(!new), I>(x: T, y: T, accept: T -> Option<I>)
    requires accept(x).Some? && accept(y).None?
    ensures RunBatch([x, y], accept) == Batch([accept(x).value], 1, 1)
  {
    RunBatchAccepted(x, accept);
    RunBatchStep([x], y, accept);
    assert [x] + [y] == [x, y];
  }

  lemma UploadCsvThreeLines(date: Value, text: string, facultyId: Value)
    requires Truthy(date) && text != [] && |CsvLines(text)| == 3
    ensures UploadCsv(date, Str(text), facultyId)
            == Report(RunBatch([CsvLines(text)[1], CsvLines(text)[2]], CsvAccept(date, facultyId)), 2)
  {
    UploadCsvAccepted(date, text, facultyId);
    DropFirstOfThree(CsvLines(text));
  }

  lemma DropFirstOfThree<T>(s: seq<T>)
    requires |s| == 3
    ensures s[1..] == [s[1], s[2]]
  {
  }

  /**
   * Text whose lines are a header, a line of five fields and one of four:
   * one success, one error, total two, and the one attempt is the full
   * line's. The header is never read.
   */
  lemma UploadCsvOneOfTwo(date: Value, text: string, full: string, short: string, facultyId: Value)
    requires Truthy(date) && text != []
    requires |CsvLines(text)| == 3 && CsvLines(text)[1] == full && CsvLines(text)[2] == short
    requires |CsvFields(full)| >= 5 && |CsvFields(short)| < 5
    ensures var o := UploadCsv(date, Str(text), facultyId);
            o.reply == Ok(OK, BatchReport(1, 1, 2)) && o.attempts == [CsvLineInsert(date, full, facultyId).value]
  {
    UploadCsvThreeLines(date, text, facultyId);
    CsvAcceptFull(date, full, facultyId);
    CsvAcceptShort(date, short, facultyId);
    RunBatchAcceptedRefused(full, short, CsvAccept(date, facultyId));
  }

  /** The text `header\nfull\nshort` of such lines, when its outer ends are not white space. */
  lemma CsvLinesOfThree(header: string, full: string, short: string)
    requires header != [] && !IsSpace(header[0]) && short != [] && !IsSpace(short[|short| - 1])
    requires '\n' !in header && '\n' !in full && '\n' !in short
    ensures var text := header + "\n" + (full + "\n" + short);
            text != [] && CsvLines(text) == [header, full, short]
  {
    var rest := full + "\n" + short;
    assert rest[|rest| - 1] == short[|short| - 1];
    CsvLinesAfterHeader(header, rest);
    SplitTwoLines(full, short);
  }

  /** Text whose lines are a header and one line of five fields: one attempt, the line's insert. */
  lemma UploadCsvOneLine(date: Value, text: string, line: string, facultyId: Value)
    requires Truthy(date) && text != []
    requires |CsvLines(text)| == 2 && CsvLines(text)[1] == line
    requires |CsvFields(line)| >= 5
    ensures UploadCsv(date, Str(text), facultyId)
            == Outcome(Ok(OK, BatchReport(1, 0, 1)), [CsvLineInsert(date, line, facultyId).value])
  {
    UploadCsvAccepted(date, text, facultyId);
    CsvAcceptFull(date, line, facultyId);
    RunBatchSingle(CsvLines(text)[1..], CsvAccept(date, facultyId));
  }

  /** A batch of one accepted row: one attempt, no error. */
  lemma RunBatchSingle<T(!new), I>(items: seq<T>, accept: T -> Option<I>)
    requires |items| == 1 && accept(items[0]).Some?
    ensures RunBatch(items, accept) == Batch([accept(items[0]).value], 1, 0)
  {
    assert items == [items[0]];
    RunBatchAccepted(items[0], accept);
  }

  /** The text `header\nline`, when its outer ends are not white space, has those two lines. */
  lemma CsvLinesOfTwo(header: string, line: string)
    requires header != [] && !IsSpace(header[0]) && line != [] && !IsSpace(line[|line| - 1])
    requires '\n' !in header && '\n' !in line
    ensures header + "\n" + line != [] && CsvLines(header + "\n" + line) == [header, line]
  {
    CsvLinesAfterHeader(header, line);
    SplitPieceAfter(header, line);
  }

  /** A header followed by the pieces of a line without a newline: the header and the line. */
  lemma SplitPieceAfter(header: string, line: string)
    requires '\n' !in line
    ensures [header] + Split(line, '\n') == [header, line]
  {
    SplitPiece(line, '\n');
  }

  /**
   * `successCount` counts attempts, not stored rows: a line of five fields
   * whose status is neither 'present' nor 'absent' is counted as a success,
   * yet the store's CHECK keeps it out of the table.
   */
  lemma SuccessCountIsNotRowsStored(date: Value, text: string, line: string, facultyId: Value)
    requires Truthy(date) && text != []
    requires |CsvLines(text)| == 2 && CsvLines(text)[1] == line
    requires |CsvFields(line)| >= 5 && !IsStatus(Lower(CsvFields(line)[4]))
    ensures var o := UploadCsv(date, Str(text), facultyId);
            o.reply == Ok(OK, BatchReport(1, 0, 1)) && AdmittedRows(o.attempts) == []
  {
    UploadCsvOneLine(date, text, line, facultyId);
    StoreRefusesStatus(date, line, facultyId);
  }

  lemma StoreRefusesStatus(date: Value, line: string, facultyId: Value)
    requires |CsvFields(line)| >= 5 && !IsStatus(Lower(CsvFields(line)[4]))
    ensures AdmittedRows([CsvLineInsert(date, line, facultyId).value]) == []
  {
    var a := CsvLineInsert(date, line, facultyId).value;
    assert AdmitAttendance(a) == None;
    assert [a][..0] == [];
  }

  // -------------------------------------------------------- spreadsheet rows

  /**
   * One decoded spreadsheet row: each field is the first truthy of its
   * aliases, capitalised name first; the status falls back to 'present' and
   * is lower-cased, which throws (and so counts an error) when the cell
   * holds a number. The row is accepted when roll number, department and
   * section are all truthy.
   */
  function SheetRowInsert(date: Value, row: Record, facultyId: Value): (r: Option<AttendanceInsert>)
    ensures var roll := Or(Or(Field(row, "RollNumber"), Field(row, "rollNumber")), Field(row, "roll_number"));
            var status := Or(Or(Field(row, "Status"), Field(row, "status")), Str("present"));
            var department := Or(Field(row, "Department"), Field(row, "department"));
            var section := Or(Field(row, "Section"), Field(row, "section"));
            && (r.Some? <==> Truthy(roll) && Truthy(department) && Truthy(section) && status.Str?)
            && (r.Some? ==> r.value == AttendanceInsert(date, roll, Str(Lower(status.s)), department, section, facultyId))
  {
    var roll := Or(Or(Field(row, "RollNumber"), Field(row, "rollNumber")), Field(row, "roll_number"));
    var status := Or(Or(Field(row, "Status"), Field(row, "status")), Str("present"));
    var department := Or(Field(row, "Department"), Field(row, "department"));
    var section := Or(Field(row, "Section"), Field(row, "section"));
    if !status.Str? then None
    else if Truthy(roll) && Truthy(department) && Truthy(section) then
      Some(AttendanceInsert(date, roll, Str(Lower(status.s)), department, section, facultyId))
    else None
  }

  /** Status is never required: a row without one is recorded as present. */
  lemma SheetStatusDefault(date: Value, row: Record, facultyId: Value)
    requires !Truthy(Field(row, "Status")) && !Truthy(Field(row, "status"))
    requires SheetRowInsert(date, row, facultyId).Some?
    ensures SheetRowInsert(date, row, facultyId).value.status == Str("present")
  {
    LowerUnchanged("present");
  }

  function SheetAccept(date: Value, facultyId: Value): Record -> Option<AttendanceInsert> {
    row => SheetRowInsert(date, row, facultyId)
  }

  /**
   * `POST /upload-attendance-file` once the upload has been decoded:
   * `sheet` is the first sheet's rows, None when no file was uploaded.
   */
  function UploadSheet(date: Value, sheet: Option<seq<Record>>, facultyId: Value): (o: Outcome<AttendanceInsert>)
    ensures sheet.None? ==> o == Rejection(BAD_REQUEST, "No file uploaded")
    ensures sheet == Some([]) ==> o == Rejection(BAD_REQUEST, "Empty file")
    ensures o.reply.Ok? ==>
              && sheet.Some? && o.reply.body.total == |sheet.value|
              && o.reply.body.successCount + o.reply.body.errorCount == |sheet.value|
  {
    match sheet
    case None => Rejection(BAD_REQUEST, "No file uploaded")
    case Some(data) =>
      if |data| == 0 then Rejection(BAD_REQUEST, "Empty file")
      else Report(RunBatch(data, SheetAccept(date, facultyId)), |data|)
  }

  method UploadAttendanceFile(db: Database, date: Value, sheet: Option<seq<Record>>, facultyId: Value)
    returns (reply: Reply<BatchReport>)
    requires db.Valid()
    modifies db
    ensures db.Valid()
    ensures reply == UploadSheet(date, sheet, facultyId).reply
    ensures db.Snapshot() == AfterAttendance(old(db.Snapshot()), UploadSheet(date, sheet, facultyId).attempts)
  {
    if sheet.None? {
      return Error(BAD_REQUEST, "No file uploaded");
    }
    var data := sheet.value;
    if |data| == 0 {
      return Error(BAD_REQUEST, "Empty file");
    }
    var successCount, errorCount := InsertEach(db, data, SheetAccept(date, facultyId));
    reply := Ok(OK, BatchReport(successCount, errorCount, |data|));
  }

  // ------------------------------------------------------ structured records

  /** One JSON record: attempted when `roll_number`, `status`, `department` and `section` are all truthy. */
  function SubmitRecordInsert(date: Value, record: Record, facultyId: Value): (r: Option<AttendanceInsert>)
    ensures r.Some? <==> Truthy(Field(record, "roll_number")) && Truthy(Field(record, "status"))
                         && Truthy(Field(record, "department")) && Truthy(Field(record, "section"))
    ensures r.Some? ==> r.value == AttendanceInsert(date, Field(record, "roll_number"), Field(record, "status"),
                         Field(record, "department"), Field(record, "section"), facultyId)
  {
    var roll, status := Field(record, "roll_number"), Field(record, "status");
    var department, section := Field(record, "department"), Field(record, "section");
    if Truthy(roll) && Truthy(status) && Truthy(department) && Truthy(section) then
      Some(AttendanceInsert(date, roll, status, department, section, facultyId))
    else None
  }

  function SubmitAccept(date: Value, facultyId: Value): Record -> Option<AttendanceInsert> {
    record => SubmitRecordInsert(date, record, facultyId)
  }

  /**
   * `POST /submit-attendance`: `attendanceData` is None when it is missing
   * or not an array.
   */
  function SubmitAttendance(date: Value, attendanceData: Option<seq<Record>>, facultyId: Value)
    : (o: Outcome<AttendanceInsert>)
    ensures o.reply.Ok? <==> Truthy(date) && attendanceData.Some? && |attendanceData.value| > 0
    ensures o.reply.Error? ==> o == Rejection(BAD_REQUEST, "Invalid or empty attendance data")
    ensures o.reply.Ok? ==>
              && o.reply.body.total == |attendanceData.value|
              && o.reply.body.successCount + o.reply.body.errorCount == |attendanceData.value|
  {
    if !Truthy(date) || attendanceData.None? || |attendanceData.value| == 0 then
      Rejection(BAD_REQUEST, "Invalid or empty attendance data")
    else
      Report(RunBatch(attendanceData.value, SubmitAccept(date, facultyId)), |attendanceData.value|)
  }

  method SubmitAttendanceRoute(db: Database, date: Value, attendanceData: Option<seq<Record>>, facultyId: Value)
    returns (reply: Reply<BatchReport>)
    requires db.Valid()
    modifies db
    ensures db.Valid()
    ensures reply == SubmitAttendance(date, attendanceData, facultyId).reply
    ensures db.Snapshot() == AfterAttendance(old(db.Snapshot()), SubmitAttendance(date, attendanceData, facultyId).attempts)
  {
    if !Truthy(date) || attendanceData.None? || |attendanceData.value| == 0 {
      return Error(BAD_REQUEST, "Invalid or empty attendance data");
    }
    var records := attendanceData.value;
    var successCount, errorCount := InsertEach(db, records, SubmitAccept(date, facultyId));
    reply := Ok(OK, BatchReport(successCount, errorCount, |records|));
  }

  /** Every record the route attempts carries the request's date and submitting user. */
  lemma SubmitAttemptsCarryRequest(date: Value, attendanceData: Option<seq<Record>>, facultyId: Value)
    ensures forall a :: a in SubmitAttendance(date, attendanceData, facultyId).attempts ==>
              a.date == date && a.markedBy == facultyId && Truthy(a.rollNumber) && Truthy(a.status)
  {
    if Truthy(date) && attendanceData.Some? && |attendanceData.value| > 0 {
      var items := attendanceData.value;
      var accept := SubmitAccept(date, facultyId);
      BatchAttempts(items, accept);
      forall a: AttendanceInsert | a in RunBatch(items, accept).attempts
        ensures a.date == date && a.markedBy == facultyId && Truthy(a.rollNumber) && Truthy(a.status)
      {
        var k :| 0 <= k < |RunBatch(items, accept).attempts| && RunBatch(items, accept).attempts[k] == a;
        var i :| 0 <= i < |items| && accept(items[i]) == Some(a);
      }
    }
  }

  // ---------------------------------------------------------- roster import

  /** The two inserts one roster record asks for. */
  datatype Enrolment = Enrolment(user: UserInsert, student: StudentInsert)

  /**
   * One roster record: it needs `username`, `password`, `name`,
   * `department`, `section` and `roll number` (with a space), all truthy;
   * then the password is hashed (`hash` gives None when hashing throws,
   * which counts an error) and the record asks for a pre-approved student
   * account and a roster row.
   */
  function EnrolmentOf(record: Record, hash: Value -> Option<string>): (r: Option<Enrolment>)
    ensures r.Some? ==>
      && Truthy(Field(record, "username")) && Truthy(Field(record, "password")) && Truthy(Field(record, "name"))
      && Truthy(Field(record, "department")) && Truthy(Field(record, "section"))
      && Truthy(Field(record, "roll number"))
      && hash(Field(record, "password")).Some?
      && r.value.user == UserInsert(Field(record, "username"), hash(Field(record, "password")).value,
           Str("student"), Field(record, "name"), Field(record, "department"), Field(record, "roll number"),
           Field(record, "section"), true)
      && r.value.student == StudentInsert(Field(record, "roll number"), Field(record, "name"),
           Field(record, "department"), Field(record, "section"))
    ensures r.None? ==>
      || !Truthy(Field(record, "username")) || !Truthy(Field(record, "password")) || !Truthy(Field(record, "name"))
      || !Truthy(Field(record, "department")) || !Truthy(Field(record, "section"))
      || !Truthy(Field(record, "roll number"))
      || hash(Field(record, "password")).None?
  {
    var username, password, name := Field(record, "username"), Field(record, "password"), Field(record, "name");
    var department, section := Field(record, "department"), Field(record, "section");
    var rollNumber := Field(record, "roll number");
    if Truthy(username) && Truthy(password) && Truthy(name) && Truthy(department) && Truthy(section)
       && Truthy(rollNumber)
    then
      match hash(password)
      case None => None
      case Some(hashed) =>
        Some(Enrolment(UserInsert(username, hashed, Str("student"), name, department, rollNumber, section, true),
                       StudentInsert(rollNumber, name, department, section)))
    else None
  }

  function EnrolAccept(hash: Value -> Option<string>): Record -> Option<Enrolment> {
    record => EnrolmentOf(record, hash)
  }

  /** The store after running each enrolment's two inserts in turn. */
  function Enrol(t: Tables, enrolments: seq<Enrolment>): (t': Tables)
    ensures TablesValid(t) ==> TablesValid(t')
    ensures t'.attendance == t.attendance
    ensures |t.users| <= |t'.users| <= |t.users| + |enrolments|
    ensures |t.students| <= |t'.students| <= |t.students| + |enrolments|
    decreases |enrolments|
  {
    if enrolments == [] then t
    else
      var before := Enrol(t, enrolments[..|enrolments| - 1]);
      var e := enrolments[|enrolments| - 1];
      InsertStudent(InsertUser(before, e.user).0, e.student).0
  }

  /** One more enrolment is one more user insert followed by one more roster insert. */
  lemma EnrolStep(t: Tables, enrolments: seq<Enrolment>, e: Enrolment)
    ensures Enrol(t, enrolments + [e]) == InsertStudent(InsertUser(Enrol(t, enrolments), e.user).0, e.student).0
  {
    assert (enrolments + [e])[..|enrolments|] == enrolments;
  }

  /** `POST /add-students`: `students` is None when it is missing or not an array. */
  function AddStudents(students: Option<seq<Record>>, hash: Value -> Option<string>): (o: Outcome<Enrolment>)
    ensures o.reply.Ok? <==> students.Some? && |students.value| > 0
    ensures o.reply.Error? ==> o == Rejection(BAD_REQUEST, "Invalid or empty students data")
    ensures o.reply.Ok? ==>
              && o.reply.body.total == |students.value|
              && o.reply.body.successCount + o.reply.body.errorCount == |students.value|
  {
    if students.None? || |students.value| == 0 then Rejection(BAD_REQUEST, "Invalid or empty students data")
    else Report(RunBatch(students.value, EnrolAccept(hash)), |students.value|)
  }

  method AddStudentsRoute(db: Database, students: Option<seq<Record>>, hash: Value -> Option<string>)
    returns (reply: Reply<BatchReport>)
    requires db.Valid()
    modifies db
    ensures db.Valid()
    ensures reply == AddStudents(students, hash).reply
    ensures db.Snapshot() == Enrol(old(db.Snapshot()), AddStudents(students, hash).attempts)
  {
    if students.None? || |students.value| == 0 {
      return Error(BAD_REQUEST, "Invalid or empty students data");
    }
    var records := students.value;
    var accept := EnrolAccept(hash);
    var successCount, errorCount := 0, 0;
    ghost var attempts: seq<Enrolment> := [];
    for i := 0 to |records|
      invariant db.Valid()
      invariant Batch(attempts, successCount, errorCount) == RunBatch(records[..i], accept)
      invariant db.Snapshot() == Enrol(old(db.Snapshot()), attempts)
    {
      assert records[..i + 1] == records[..i] + [records[i]];
      RunBatchStep(records[..i], records[i], accept);
      var enrolment := accept(records[i]);
      if enrolment.Some? {
        EnrolStep(old(db.Snapshot()), attempts, enrolment.value);
        var _ := db.RunUserInsert(enrolment.value.user);
        var _ := db.RunStudentInsert(enrolment.value.student);
        attempts := attempts + [enrolment.value];
        successCount := successCount + 1;
      } else {
        errorCount := errorCount + 1;
      }
    }
    assert records[..|records|] == records;
    reply := Ok(OK, BatchReport(successCount, errorCount, |records|));
  }

  /**
   * A record whose username is new and whose roll number is not on the
   * roster adds exactly one student account and one roster row.
   */
  lemma EnrolOne(t: Tables, e: Enrolment, username: string, rollNumber: string)
    requires e.user.role == Str("student") && !e.user.username.Null? && !e.user.name.Null?
    requires BindText(e.user.username) == Some(username) && !UsernameTaken(t.users, username)
    requires !e.student.name.Null? && !e.student.department.Null? && !e.student.section.Null?
    requires BindText(e.student.rollNumber) == Some(rollNumber) && !RollNumberTaken(t.students, rollNumber)
    ensures var t' := Enrol(t, [e]);
            && |t'.users| == |t.users| + 1 && |t'.students| == |t.students| + 1
            && t'.users[|t.users|].role == "student" && t'.users[|t.users|].username == username
            && t'.students[|t.students|].rollNumber == rollNumber
  {
    assert [e][..0] == [];
  }

  // ------------------------------------------------------ attendance history

  /** The columns `/attendance-history` selects. */
  datatype HistoryEntry = HistoryEntry(date: string, rollNumber: string, status: string, department: string, section: string)

  function Entry(row: AttendanceRow): HistoryEntry {
    HistoryEntry(row.date, row.rollNumber, row.status, row.department, row.section)
  }

  function Entries(rows: seq<AttendanceRow>): (entries: seq<HistoryEntry>)
    ensures |entries| == |rows|
    ensures forall i :: 0 <= i < |rows| ==> entries[i] == Entry(rows[i])
  {
    seq(|rows|, i requires 0 <= i < |rows| => Entry(rows[i]))
  }

  /** `ORDER BY date DESC, roll_number`. */
  function HistoryKey(e: HistoryEntry): Key {
    [Desc(e.date), Asc(e.rollNumber)]
  }

  /** One `AND` term the handler appends to the query. */
  datatype Condition = DepartmentIs(department: string) | SectionIs(section: string)
                     | DateFrom(date: string) | DateUntil(date: string)

  /** A term as SQL evaluates it on a row; dates compare as text. */
  predicate Holds(c: Condition, row: AttendanceRow) {
    match c
    case DepartmentIs(d) => row.department == d
    case SectionIs(s) => row.section == s
    case DateFrom(d) => LessEq(d, row.date)
    case DateUntil(d) => LessEq(row.date, d)
  }

  predicate HoldsAll(conditions: seq<Condition>, row: AttendanceRow) {
    forall i :: 0 <= i < |conditions| ==> Holds(conditions[i], row)
  }

  /**
   * The history filter stated directly: each filter that is given (a
   * non-empty query parameter) must hold, and an absent one imposes nothing.
   */
  predicate Selected(row: AttendanceRow, department: string, section: string, startDate: string, endDate: string) {
    && (department != "" ==> row.department == department)
    && (section != "" ==> row.section == section)
    && (startDate != "" ==> LessEq(startDate, row.date))
    && (endDate != "" ==> LessEq(row.date, endDate))
  }

  /** Appending one `AND` term narrows the selection by exactly that term. */
  lemma HoldsAllAppend(conditions: seq<Condition>, c: Condition)
    ensures forall row :: HoldsAll(conditions + [c], row) <==> HoldsAll(conditions, row) && Holds(c, row)
  {
    var extended := conditions + [c];
    forall row ensures HoldsAll(extended, row) <==> HoldsAll(conditions, row) && Holds(c, row) {
      if HoldsAll(extended, row) {
        assert Holds(extended[|conditions|], row);
        forall i | 0 <= i < |conditions| ensures Holds(conditions[i], row) {
          assert Holds(extended[i], row);
        }
      }
    }
  }

  /** Builds the `WHERE 1=1 AND ...` terms, one per supplied filter. */
  method BuildHistoryQuery(department: string, section: string, startDate: string, endDate: string)
    returns (conditions: seq<Condition>)
    ensures |conditions| <= 4
    ensures forall row :: HoldsAll(conditions, row) <==> Selected(row, department, section, startDate, endDate)
  {
    conditions := [];
    if department != "" {
      HoldsAllAppend(conditions, DepartmentIs(department));
      conditions := conditions + [DepartmentIs(department)];
    }
    assert forall row :: HoldsAll(conditions, row) <==> (department != "" ==> row.department == department);
    ghost var c1 := conditions;
    if section != "" {
      HoldsAllAppend(conditions, SectionIs(section));
      conditions := conditions + [SectionIs(section)];
    }
    assert forall row :: HoldsAll(conditions, row) <==>
      HoldsAll(c1, row) && (section != "" ==> row.section == section);
    ghost var c2 := conditions;
    if startDate != "" {
      HoldsAllAppend(conditions, DateFrom(startDate));
      conditions := conditions + [DateFrom(startDate)];
    }
    assert forall row :: HoldsAll(conditions, row) <==>
      HoldsAll(c2, row) && (startDate != "" ==> LessEq(startDate, row.date));
    ghost var c3 := conditions;
    if endDate != "" {
      HoldsAllAppend(conditions, DateUntil(endDate));
      conditions := conditions + [DateUntil(endDate)];
    }
    assert forall row :: HoldsAll(conditions, row) <==>
      HoldsAll(c3, row) && (endDate != "" ==> LessEq(row.date, endDate));
  }

  /**
   * `GET /attendance-history`: exactly the rows that match every supplied
   * filter, each as often as it is stored, newest date first and by roll
   * number within a date.
   */
  method AttendanceHistory(db: Database, department: string, section: string, startDate: string, endDate: string)
    returns (result: seq<HistoryEntry>)
    ensures SortedBy(result, HistoryKey)
    ensures multiset(result) ==
            multiset(Entries(Filter(db.attendance, row => Selected(row, department, section, startDate, endDate))))
  {
    var conditions := BuildHistoryQuery(department, section, startDate, endDate);
    var matching := Filter(db.attendance, row => HoldsAll(conditions, row));
    FilterExtensional(db.attendance, row => HoldsAll(conditions, row),
                      row => Selected(row, department, section, startDate, endDate));
    result := SortBy(Entries(matching), HistoryKey);
  }
}
