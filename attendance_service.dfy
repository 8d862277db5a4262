/**
 * The attendance service: the RFID tap state machine (check in, check out,
 * or refuse a third tap), the query for today's record, the recent history
 * query, and the thirty-day statistics fold. The persistence layer is a
 * sequence of attendance rows and a sequence of user rows; a row's identity is
 * its position in the sequence.
 */
module Attendance {
  import opened Wrappers
  import opened Clock
  import opened UserDto
  import opened Users

  /** A row of the `attendance` table. `date` is the midnight of the day the row belongs to. */
  datatype AttendanceRecord = AttendanceRecord(
    studentId: string,
    date: Instant,
    timeIn: Option<Instant>,
    timeOut: Option<Instant>)

  datatype TapAction = CheckIn | CheckOut

  /** The three refusals of a tap; the service throws each as a `NotFoundException`. */
  datatype TapError = CardNotRegistered | NotAStudent | AlreadyCompleted

  function ErrorMessage(e: TapError): string
  {
    match e
    case CardNotRegistered => "RFID card not registered"
    case NotAStudent => "Only students can use attendance system"
    case AlreadyCompleted => "Already checked in and out for today"
  }

  /** The three refusals carry three different messages, each the text the service throws. */
  lemma ErrorMessages()
    ensures ErrorMessage(CardNotRegistered) == "RFID card not registered"
    ensures ErrorMessage(NotAStudent) == "Only students can use attendance system"
    ensures ErrorMessage(AlreadyCompleted) == "Already checked in and out for today"
    ensures forall e, f :: ErrorMessage(e) == ErrorMessage(f) ==> e == f
  {
    assert ErrorMessage(CardNotRegistered)[0] == 'R';
    assert ErrorMessage(NotAStudent)[0] == 'O';
    assert ErrorMessage(AlreadyCompleted)[0] == 'A';
  }

  datatype StudentInfo = StudentInfo(firstName: string, lastName: string, gradeLevel: Option<GradeLevel>)

  /** `RfidTapResult`: the action taken, who tapped, and the row's times after the tap. */
  datatype TapResult = TapResult(
    success: bool,
    action: TapAction,
    student: StudentInfo,
    timeIn: Option<Instant>,
    timeOut: Option<Instant>)

  // ---------------------------------------------------------------------------
  // Card resolution

  /** `prisma.user.findUnique({ where: { rfidCard } })`: the user holding `card`, if any. */
  function FindByCard(users: seq<User>, card: string): (r: Option<User>)
    ensures r.None? <==> forall u :: u in users ==> u.rfidCard != Some(card)
    ensures r.Some? ==> r.value in users && r.value.rfidCard == Some(card)
  {
    if users == [] then None
    else if users[0].rfidCard == Some(card) then Some(users[0])
    else FindByCard(users[1..], card)
  }

  /** The schema's unique constraint on `rfidCard`: no card is held by two users. */
  predicate UniqueCards(users: seq<User>)
  {
    forall i, j :: 0 <= i < j < |users| && users[i].rfidCard.Some? ==> users[i].rfidCard != users[j].rfidCard
  }

  /** With unique cards, the lookup finds exactly the holder of the card. */
  lemma {:induction false} FindByCardHolder(users: seq<User>, card: string, k: nat)
    requires UniqueCards(users)
    requires k < |users| && users[k].rfidCard == Some(card)
    ensures FindByCard(users, card) == Some(users[k])
  {
    if k > 0 {
      assert users[0].rfidCard != Some(card);
      var tail := users[1..];
      forall i, j | 0 <= i < j < |tail| && tail[i].rfidCard.Some?
        ensures tail[i].rfidCard != tail[j].rfidCard
      {
        assert tail[i] == users[i + 1] && tail[j] == users[j + 1];
      }
      FindByCardHolder(tail, card, k - 1);
    }
  }

  // ---------------------------------------------------------------------------
  // Today's record

  /** A row of student `sid` dated in the `[today, tomorrow)` window of `now`. */
  predicate InToday(rec: AttendanceRecord, sid: string, now: Instant)
  {
    rec.studentId == sid && SameDay(rec.date, now)
  }

  /** The first row from position `from` on that is `sid`'s row for the day of `now`. */
  function FindTodayFrom(records: seq<AttendanceRecord>, sid: string, now: Instant, from: nat): (r: Option<nat>)
    requires from <= |records|
    ensures r.Some? ==> from <= r.value < |records| && InToday(records[r.value], sid, now)
    ensures r.Some? ==> forall j :: from <= j < r.value ==> !InToday(records[j], sid, now)
    ensures r.None? ==> forall j :: from <= j < |records| ==> !InToday(records[j], sid, now)
    decreases |records| - from
  {
    if from == |records| then None
    else if InToday(records[from], sid, now) then Some(from)
    else FindTodayFrom(records, sid, now, from + 1)
  }

  /** `prisma.attendance.findFirst` over the day window: the position of `sid`'s row for today. */
  function FindToday(records: seq<AttendanceRecord>, sid: string, now: Instant): (r: Option<nat>)
    ensures r.Some? ==> r.value < |records| && InToday(records[r.value], sid, now)
    ensures r.Some? ==> forall j :: 0 <= j < r.value ==> !InToday(records[j], sid, now)
    ensures r.None? <==> forall j :: 0 <= j < |records| ==> !InToday(records[j], sid, now)
  {
    FindTodayFrom(records, sid, now, 0)
  }

  /** `getTodayAttendance`: `sid`'s row for the day of `now`, or `null`. */
  function TodayAttendance(records: seq<AttendanceRecord>, sid: string, now: Instant): (r: Option<AttendanceRecord>)
    ensures r.Some? ==> r.value in records && InToday(r.value, sid, now)
    ensures r.None? <==> forall rec :: rec in records ==> !InToday(rec, sid, now)
  {
    var i := FindToday(records, sid, now);
    if i.Some? then Some(records[i.value]) else None
  }

  // ---------------------------------------------------------------------------
  // The store invariant the tap maintains

  /** A row as a tap writes it: a midnight date, a check-in on that day, a check-out, if any, on the same day. */
  predicate WellFormed(rec: AttendanceRecord)
  {
    && IsMidnight(rec.date)
    && rec.timeIn.Some? && DayStart(rec.timeIn.value) == rec.date
    && (rec.timeOut.Some? ==> DayStart(rec.timeOut.value) == rec.date)
  }

  /** Every row well formed, and at most one row per (student, date). */
  predicate ValidStore(records: seq<AttendanceRecord>)
  {
    && (forall i :: 0 <= i < |records| ==> WellFormed(records[i]))
    && (forall i, j :: 0 <= i < j < |records| && records[i].studentId == records[j].studentId ==>
          records[i].date != records[j].date)
  }

  /** In a valid store a student has at most one row in a day window. */
  lemma TodayRowUnique(records: seq<AttendanceRecord>, sid: string, now: Instant, i: nat, j: nat)
    requires ValidStore(records)
    requires i < |records| && j < |records|
    requires InToday(records[i], sid, now) && InToday(records[j], sid, now)
    ensures i == j
  {
    SameDayMidnight(records[i].date, now);
    SameDayMidnight(records[j].date, now);
    assert records[i].date == records[j].date;
  }

  /** In a valid store the day-window lookup finds the student's one row for today. */
  lemma FindTodayInValidStore(records: seq<AttendanceRecord>, sid: string, now: Instant, i: nat)
    requires ValidStore(records)
    requires i < |records| && InToday(records[i], sid, now)
    ensures FindToday(records, sid, now) == Some(i)
  {
    var r := FindToday(records, sid, now);
    TodayRowUnique(records, sid, now, r.value, i);
  }

  // ---------------------------------------------------------------------------
  // The tap state machine

  /** The outcome of a tap together with the store after it. */
  datatype Transition = Transition(result: Result<TapResult, TapError>, records: seq<AttendanceRecord>)

  function Report(action: TapAction, user: User, rec: AttendanceRecord): TapResult
  {
    TapResult(true, action, StudentInfo(user.firstName, user.lastName, user.gradeLevel), rec.timeIn, rec.timeOut)
  }

  /**
   * `handleRfidTap` at instant `now`, as a function of the stores: resolve the
   * card, insist on a student, then create today's row (check-in), fill its
   * check-out, or refuse.
   */
  function Resolve(users: seq<User>, records: seq<AttendanceRecord>, card: string, now: Instant): (t: Transition)
    ensures t.result == Failure(CardNotRegistered) <==> forall u :: u in users ==> u.rfidCard != Some(card)
    ensures t.result == Failure(NotAStudent) <==>
      FindByCard(users, card).Some? && FindByCard(users, card).value.role != Student
    ensures t.result == Failure(AlreadyCompleted) ==>
      exists j :: 0 <= j < |records| && InToday(records[j], FindByCard(users, card).value.id, now) && records[j].timeOut.Some?
    ensures t.result.Failure? ==> t.records == records
    ensures t.result.Success? ==>
      var user := FindByCard(users, card).value;
      && user.role == Student
      && t.result.value.success
      && t.result.value.student == StudentInfo(user.firstName, user.lastName, user.gradeLevel)
    ensures t.result.Success? && t.result.value.action == CheckIn ==>
      |t.records| == |records| + 1 && t.result.value.timeIn == Some(now) && t.result.value.timeOut.None?
    ensures t.result.Success? && t.result.value.action == CheckOut ==>
      |t.records| == |records| && t.result.value.timeOut == Some(now)
  {
    match FindByCard(users, card)
    case None => Transition(Failure(CardNotRegistered), records)
    case Some(user) =>
      if user.role != Student then Transition(Failure(NotAStudent), records)
      else
        match FindToday(records, user.id, now)
        case None =>
          var rec := AttendanceRecord(user.id, DayStart(now), Some(now), None);
          Transition(Success(Report(CheckIn, user, rec)), records + [rec])
        case Some(i) =>
          if records[i].timeOut.None? then
            var rec := records[i].(timeOut := Some(now));
            Transition(Success(Report(CheckOut, user, rec)), records[i := rec])
          else Transition(Failure(AlreadyCompleted), records)
  }

  /** An unregistered card is refused and nothing is written. */
  lemma TapUnknownCard(users: seq<User>, records: seq<AttendanceRecord>, card: string, now: Instant)
    requires forall u :: u in users ==> u.rfidCard != Some(card)
    ensures Resolve(users, records, card, now) == Transition(Failure(CardNotRegistered), records)
  {
  }

  /** A card held by someone who is not a student is refused and nothing is written. */
  lemma TapNonStudent(users: seq<User>, records: seq<AttendanceRecord>, card: string, now: Instant, k: nat)
    requires UniqueCards(users) && k < |users| && users[k].rfidCard == Some(card)
    requires users[k].role != Student
    ensures Resolve(users, records, card, now) == Transition(Failure(NotAStudent), records)
  {
    FindByCardHolder(users, card, k);
  }

  /** First tap of the day: exactly one row is added, dated today, checked in at `now`, not checked out. */
  lemma TapFirstOfDay(users: seq<User>, records: seq<AttendanceRecord>, card: string, now: Instant, k: nat)
    requires UniqueCards(users) && k < |users| && users[k].rfidCard == Some(card)
    requires users[k].role == Student
    requires forall rec :: rec in records ==> !InToday(rec, users[k].id, now)
    ensures Resolve(users, records, card, now) ==
      Transition(
        Success(TapResult(true, CheckIn, StudentInfo(users[k].firstName, users[k].lastName, users[k].gradeLevel), Some(now), None)),
        records + [AttendanceRecord(users[k].id, DayStart(now), Some(now), None)])
  {
    FindByCardHolder(users, card, k);
    assert FindToday(records, users[k].id, now).None? by {
      forall j | 0 <= j < |records| ensures !InToday(records[j], users[k].id, now) {
        assert records[j] in records;
      }
    }
  }

  /** Second tap of the day: today's row gets `timeOut = now`, keeps its check-in and date, and no row is added. */
  lemma TapSecondOfDay(users: seq<User>, records: seq<AttendanceRecord>, card: string, now: Instant, k: nat, i: nat)
    requires UniqueCards(users) && k < |users| && users[k].rfidCard == Some(card)
    requires users[k].role == Student
    requires ValidStore(records)
    requires i < |records| && InToday(records[i], users[k].id, now) && records[i].timeOut.None?
    ensures Resolve(users, records, card, now) ==
      Transition(
        Success(TapResult(true, CheckOut, StudentInfo(users[k].firstName, users[k].lastName, users[k].gradeLevel), records[i].timeIn, Some(now))),
        records[i := AttendanceRecord(records[i].studentId, records[i].date, records[i].timeIn, Some(now))])
  {
    FindByCardHolder(users, card, k);
    FindTodayInValidStore(records, users[k].id, now, i);
  }

  /** Third tap of the day: refused, and the store is unchanged. */
  lemma TapThirdOfDay(users: seq<User>, records: seq<AttendanceRecord>, card: string, now: Instant, k: nat, i: nat)
    requires UniqueCards(users) && k < |users| && users[k].rfidCard == Some(card)
    requires users[k].role == Student
    requires ValidStore(records)
    requires i < |records| && InToday(records[i], users[k].id, now) && records[i].timeOut.Some?
    ensures Resolve(users, records, card, now) == Transition(Failure(AlreadyCompleted), records)
  {
    FindByCardHolder(users, card, k);
    FindTodayInValidStore(records, users[k].id, now, i);
  }

  /**
   * Nothing else changes: a refused tap writes nothing; an accepted one either
   * appends the tapping student's row for today or rewrites one row that is
   * the tapping student's row for today. Rows of other students and other days
   * are untouched.
   */
  lemma TapFrame(users: seq<User>, records: seq<AttendanceRecord>, card: string, now: Instant)
    ensures var t := Resolve(users, records, card, now);
      && (t.result.Failure? ==> t.records == records)
      && (t.result.Success? ==> FindByCard(users, card).Some? && FindByCard(users, card).value.role == Student)
      && |records| <= |t.records| <= |records| + 1
      && (forall j :: 0 <= j < |records| && t.records[j] != records[j] ==>
            InToday(records[j], FindByCard(users, card).value.id, now))
      && (forall j, j' :: 0 <= j < |records| && 0 <= j' < |records| && j != j' && t.records[j] != records[j] ==>
            t.records[j'] == records[j'])
      && (|t.records| > |records| ==> t.records[..|records|] == records)
      && (|t.records| > |records| ==>
            InToday(t.records[|records|], FindByCard(users, card).value.id, now))
  {
    var t := Resolve(users, records, card, now);
    var user := FindByCard(users, card);
    if user.Some? && user.value.role == Student {
      var i := FindToday(records, user.value.id, now);
      if i.None? {
        var rec := AttendanceRecord(user.value.id, DayStart(now), Some(now), None);
        assert t.records == records + [rec];
        assert InToday(rec, user.value.id, now);
      }
    }
  }

  /** A tap keeps the store valid: one row per student and day, times on the row's day. */
  lemma TapPreservesValid(users: seq<User>, records: seq<AttendanceRecord>, card: string, now: Instant)
    requires ValidStore(records)
    ensures ValidStore(Resolve(users, records, card, now).records)
  {
    var user := FindByCard(users, card);
    if user.Some? && user.value.role == Student {
      var sid := user.value.id;
      var i := FindToday(records, sid, now);
      if i.None? {
        var rec := AttendanceRecord(sid, DayStart(now), Some(now), None);
        var s := records + [rec];
        assert s == Resolve(users, records, card, now).records;
        forall j | 0 <= j < |records| && records[j].studentId == sid
          ensures records[j].date != rec.date
        {
          assert !InToday(records[j], sid, now);
          SameDayMidnight(records[j].date, now);
        }
        forall a, b | 0 <= a < b < |s| && s[a].studentId == s[b].studentId
          ensures s[a].date != s[b].date
        {
          if b == |records| {
            assert s[a] == records[a] && s[b] == rec;
          } else {
            assert s[a] == records[a] && s[b] == records[b];
          }
        }
        assert ValidStore(s);
      } else if records[i.value].timeOut.None? {
        var old_ := records[i.value];
        SameDayMidnight(old_.date, now);
        var s := records[i.value := old_.(timeOut := Some(now))];
        assert WellFormed(s[i.value]);
        assert forall j :: 0 <= j < |s| ==> s[j].studentId == records[j].studentId && s[j].date == records[j].date;
        assert ValidStore(s);
      }
    }
  }

  /**
   * After an accepted tap, `getTodayAttendance` for the tapping student returns
   * the row the tap reported: same check-in, same check-out.
   */
  lemma TodayAfterTap(users: seq<User>, records: seq<AttendanceRecord>, card: string, now: Instant)
    requires Resolve(users, records, card, now).result.Success?
    ensures var t := Resolve(users, records, card, now);
      var today := TodayAttendance(t.records, FindByCard(users, card).value.id, now);
      && today.Some?
      && today.value.timeIn == t.result.value.timeIn
      && today.value.timeOut == t.result.value.timeOut
      && (t.result.value.action == CheckIn ==> today.value.timeIn == Some(now))
      && (t.result.value.action == CheckOut ==> today.value.timeOut == Some(now))
  {
    var t := Resolve(users, records, card, now);
    var sid := FindByCard(users, card).value.id;
    var i := FindToday(records, sid, now);
    if i.None? {
      var rec := AttendanceRecord(sid, DayStart(now), Some(now), None);
      assert t.records == records + [rec];
      assert FindToday(t.records, sid, now) == Some(|records|) by {
        var r := FindToday(t.records, sid, now);
        assert InToday(t.records[|records|], sid, now);
        assert forall j :: 0 <= j < |records| ==> t.records[j] == records[j];
      }
    } else {
      var rec := records[i.value].(timeOut := Some(now));
      assert t.records == records[i.value := rec];
      assert FindToday(t.records, sid, now) == Some(i.value) by {
        assert InToday(t.records[i.value], sid, now);
        assert forall j :: 0 <= j < i.value ==> t.records[j] == records[j];
      }
    }
  }

  /**
   * Taps on different days do not interact: whatever a tap at `now` does, the
   * row that `getTodayAttendance` finds for any student on any other day is
   * the same as before.
   */
  lemma TapLeavesOtherDays(users: seq<User>, records: seq<AttendanceRecord>, card: string, now: Instant,
                           sid: string, other: Instant)
    requires DayStart(other) != DayStart(now)
    ensures TodayAttendance(Resolve(users, records, card, now).records, sid, other) == TodayAttendance(records, sid, other)
  {
    var t := Resolve(users, records, card, now);
    DayStartOf(DayStart(now), DayStart(now));
    DayStartOf(DayStart(other), DayStart(other));
    assert forall j :: 0 <= j < |t.records| && j < |records| && t.records[j] != records[j] ==>
      SameDay(records[j].date, now) by {
      TapFrame(users, records, card, now);
    }
    TapFrame(users, records, card, now);
    // A row in the day window of `now` is not in the day window of `other`.
    forall d | SameDay(d, now) ensures !SameDay(d, other) {
      if SameDay(d, other) {
        DayStartOf(DayStart(now), d);
        DayStartOf(DayStart(other), d);
      }
    }
    var a := FindToday(records, sid, other);
    var b := FindToday(t.records, sid, other);
    assert forall j :: 0 <= j < |records| ==> (InToday(t.records[j], sid, other) <==> InToday(records[j], sid, other)) && (InToday(records[j], sid, other) ==> t.records[j] == records[j]);
    if |t.records| > |records| {
      assert !InToday(t.records[|records|], sid, other);
    }
    if a.Some? {
      assert b.Some? && b.value <= a.value;
      assert b.value == a.value;
    } else {
      assert b.None?;
    }
  }

  /**
   * A whole day for one student: a first tap checks in at `t1`, a second tap
   * the same day checks out at `t2` keeping `t1`, and a third tap the same day
   * is refused with the store left as the second tap left it.
   */
  lemma TapsOfOneDay(users: seq<User>, records: seq<AttendanceRecord>, card: string, k: nat,
                     t1: Instant, t2: Instant, t3: Instant)
    requires UniqueCards(users) && k < |users| && users[k].rfidCard == Some(card)
    requires users[k].role == Student
    requires ValidStore(records)
    requires forall rec :: rec in records ==> !InToday(rec, users[k].id, t1)
    requires DayStart(t2) == DayStart(t1) && DayStart(t3) == DayStart(t1)
    ensures var first := Resolve(users, records, card, t1);
      var second := Resolve(users, first.records, card, t2);
      var third := Resolve(users, second.records, card, t3);
      && first.result.Success? && first.result.value.action == CheckIn
      && first.result.value.timeIn == Some(t1) && first.result.value.timeOut.None?
      && second.result.Success? && second.result.value.action == CheckOut
      && second.result.value.timeIn == Some(t1) && second.result.value.timeOut == Some(t2)
      && third == Transition(Failure(AlreadyCompleted), second.records)
  {
    var sid := users[k].id;
    TapFirstOfDay(users, records, card, t1, k);
    var first := Resolve(users, records, card, t1);
    TapPreservesValid(users, records, card, t1);
    var n := |records|;
    assert first.records[n] == AttendanceRecord(sid, DayStart(t1), Some(t1), None);
    assert InToday(first.records[n], sid, t2);
    TapSecondOfDay(users, first.records, card, t2, k, n);
    var second := Resolve(users, first.records, card, t2);
    TapPreservesValid(users, first.records, card, t2);
    assert second.records[n].timeOut == Some(t2);
    assert InToday(second.records[n], sid, t3);
    TapThirdOfDay(users, second.records, card, t3, k, n);
  }

  /** The attendance service over its two tables. */
  class AttendanceService {
    var users: seq<User>
    var records: seq<AttendanceRecord>

    constructor (users: seq<User>, records: seq<AttendanceRecord>)
      ensures this.users == users && this.records == records
    {
      this.users := users;
      this.records := records;
    }

    /** `handleRfidTap(rfidCard)` with the clock read once, as `now`. */
    method HandleRfidTap(card: string, now: Instant) returns (r: Result<TapResult, TapError>)
      modifies this`records
      ensures Transition(r, records) == Resolve(users, old(records), card, now)
      ensures old(ValidStore(records)) ==> ValidStore(records)
    {
      ghost var before := records;
      var user := FindByCard(users, card);
      if user.None? {
        return Failure(CardNotRegistered);
      }
      if user.value.role != Student {
        return Failure(NotAStudent);
      }
      var today := DayStart(now);
      var existing := FindToday(records, user.value.id, now);
      var attendance: AttendanceRecord;
      var action: TapAction;
      if existing.None? {
        attendance := AttendanceRecord(user.value.id, today, Some(now), None);
        records := records + [attendance];
        action := CheckIn;
      } else if records[existing.value].timeOut.None? {
        attendance := records[existing.value].(timeOut := Some(now));
        records := records[existing.value := attendance];
        action := CheckOut;
      } else {
        return Failure(AlreadyCompleted);
      }
      r := Success(Report(action, user.value, attendance));
      if ValidStore(before) {
        TapPreservesValid(users, before, card, now);
      }
    }
  }

  // ---------------------------------------------------------------------------
  // Recent history: `getStudentAttendance`

  const HistoryLimit: nat := 30

  /** The rows of student `sid`, in store order: each of them as often as the store holds it, no other row. */
  function OfStudent(records: seq<AttendanceRecord>, sid: string): (r: seq<AttendanceRecord>)
    ensures forall x :: multiset(r)[x] == if x.studentId == sid then multiset(records)[x] else 0
  {
    if records == [] then []
    else
      assert records == [records[0]] + records[1..];
      (if records[0].studentId == sid then [records[0]] else []) + OfStudent(records[1..], sid)
  }

  predicate SortedByDateDesc(s: seq<AttendanceRecord>)
  {
    forall i, j :: 0 <= i < j < |s| ==> s[i].date >= s[j].date
  }

  /** Inserts `x` before the first row dated earlier than it. */
  function InsertByDateDesc(x: AttendanceRecord, s: seq<AttendanceRecord>): (r: seq<AttendanceRecord>)
    ensures multiset(r) == multiset(s) + multiset{x}
  {
    if s == [] || x.date >= s[0].date then [x] + s
    else
      assert s == [s[0]] + s[1..];
      [s[0]] + InsertByDateDesc(x, s[1..])
  }

  /** Insertion keeps a date-descending sequence date-descending; its head is `x` or the old head. */
  lemma {:induction false} InsertKeepsSorted(x: AttendanceRecord, s: seq<AttendanceRecord>)
    requires SortedByDateDesc(s)
    ensures SortedByDateDesc(InsertByDateDesc(x, s))
    ensures |InsertByDateDesc(x, s)| == |s| + 1
    ensures InsertByDateDesc(x, s)[0] == x || InsertByDateDesc(x, s)[0] == s[0]
  {
    if s != [] && x.date < s[0].date {
      var rest := InsertByDateDesc(x, s[1..]);
      InsertKeepsSorted(x, s[1..]);
      var r := [s[0]] + rest;
      assert rest[0].date <= s[0].date;
      forall i, j | 0 <= i < j < |r| ensures r[i].date >= r[j].date {
        if i == 0 {
          assert r[j] == rest[j - 1];
          assert rest[0].date >= rest[j - 1].date;
        } else {
          assert r[i] == rest[i - 1] && r[j] == rest[j - 1];
        }
      }
    }
  }

  /** `orderBy: { date: 'desc' }`, by insertion: a date-descending permutation of `s`. */
  function SortByDateDesc(s: seq<AttendanceRecord>): (r: seq<AttendanceRecord>)
    ensures SortedByDateDesc(r)
    ensures multiset(r) == multiset(s)
  {
    if s == [] then []
    else
      assert s == [s[0]] + s[1..];
      var rest := SortByDateDesc(s[1..]);
      InsertKeepsSorted(s[0], rest);
      InsertByDateDesc(s[0], rest)
  }

  function Min(a: nat, b: nat): nat
  {
    if a <= b then a else b
  }

  /** The rows a prefix leaves out are those of the rest of the sequence. */
  lemma PrefixComplement(s: seq<AttendanceRecord>, k: nat)
    requires k <= |s|
    ensures multiset(s) - multiset(s[..k]) == multiset(s[k..])
    ensures multiset(s[..k]) <= multiset(s)
  {
    assert s == s[..k] + s[k..];
  }

  /** Taking a prefix of a date-descending sequence keeps the newest rows: each row dropped is no later than each row kept. */
  lemma TakeNewest(s: seq<AttendanceRecord>, k: nat)
    requires SortedByDateDesc(s) && k <= |s|
    ensures SortedByDateDesc(s[..k])
    ensures multiset(s[..k]) <= multiset(s)
    ensures forall x, y :: x in multiset(s) - multiset(s[..k]) && y in s[..k] ==> x.date <= y.date
  {
    PrefixComplement(s, k);
    forall x, y | x in multiset(s[k..]) && y in s[..k] ensures x.date <= y.date {
      var a :| k <= a < |s| && s[a] == x;
      var b :| 0 <= b < k && s[b] == y;
    }
  }

  /**
   * `getStudentAttendance`: the student's rows, newest first, at most thirty.
   * Only the student's rows, no row more often than the store holds it, and
   * every row of the student left out is dated no later than every row returned.
   */
  function StudentAttendance(records: seq<AttendanceRecord>, sid: string): (r: seq<AttendanceRecord>)
    ensures |r| == Min(HistoryLimit, |OfStudent(records, sid)|)
    ensures forall x :: x in r ==> x.studentId == sid
    ensures SortedByDateDesc(r)
    ensures multiset(r) <= multiset(records)
    ensures forall x, y :: x in multiset(OfStudent(records, sid)) - multiset(r) && y in r ==> x.date <= y.date
  {
    var all := OfStudent(records, sid);
    var sorted := SortByDateDesc(all);
    var k := Min(HistoryLimit, |sorted|);
    TakeNewest(sorted, k);
    HistoryRows(records, sid, sorted[..k]);
    sorted[..k]
  }

  /** A sub-multiset of a student's rows holds only that student's rows, each no more often than the store. */
  lemma HistoryRows(records: seq<AttendanceRecord>, sid: string, r: seq<AttendanceRecord>)
    requires multiset(r) <= multiset(OfStudent(records, sid))
    ensures forall x :: x in r ==> x.studentId == sid
    ensures multiset(r) <= multiset(records)
  {
    var all := OfStudent(records, sid);
    forall x | x in r ensures x.studentId == sid {
      assert multiset(all)[x] > 0;
    }
    forall x ensures multiset(r)[x] <= multiset(records)[x] {
      assert multiset(r)[x] <= multiset(all)[x];
    }
  }

  // ---------------------------------------------------------------------------
  // Statistics: `getStudentStats`

  /** A row counted by the statistics at `now`: the student's, dated on or after `now` minus thirty days. */
  predicate InWindow(rec: AttendanceRecord, sid: string, now: Instant)
  {
    rec.studentId == sid && rec.date >= WindowStart(now)
  }

  /** The rows the statistics query returns. */
  function WindowRecords(records: seq<AttendanceRecord>, sid: string, now: Instant): (w: seq<AttendanceRecord>)
    ensures |w| <= |records|
    ensures forall rec :: multiset(w)[rec] == if InWindow(rec, sid, now) then multiset(records)[rec] else 0
    ensures forall rec :: rec in w <==> rec in records && InWindow(rec, sid, now)
  {
    if records == [] then []
    else
      assert records == [records[0]] + records[1..];
      (if InWindow(records[0], sid, now) then [records[0]] else []) + WindowRecords(records[1..], sid, now)
  }

  /** Rows with a check-in: `filter(record => record.timeIn !== null).length`. */
  function CountPresent(rs: seq<AttendanceRecord>): (n: nat)
    ensures n <= |rs|
  {
    if rs == [] then 0
    else (if rs[0].timeIn.Some? then 1 else 0) + CountPresent(rs[1..])
  }

  /** A row whose check-in is after 08:00 local time. */
  function IsLateRecord(rec: AttendanceRecord): (late: bool)
    ensures late <==> rec.timeIn.Some? && TimeOfDay(rec.timeIn.value) >= SchoolStartHour * MsPerHour + MsPerMinute
  {
    rec.timeIn.Some? && IsLate(rec.timeIn.value)
  }

  /** Rows checked in late. Being late needs a check-in, so there are no more of them than rows present. */
  function CountLate(rs: seq<AttendanceRecord>): (n: nat)
    ensures n <= CountPresent(rs)
  {
    if rs == [] then 0
    else (if IsLateRecord(rs[0]) then 1 else 0) + CountLate(rs[1..])
  }

  /** Division brackets its dividend between consecutive multiples of the divisor. */
  lemma DivBracket(a: int, b: int)
    requires b > 0
    ensures b * (a / b) <= a < b * (a / b + 1)
  {
  }

  /** A positive factor can be cancelled from a strict inequality of products. */
  lemma MulCancel(a: int, b: int, c: int)
    requires a > 0 && a * b < a * c
    ensures b < c
  {
    assert a * (c - b) == a * c - a * b;
  }

  /**
   * `Math.round(present / totalDays * 100)` for `totalDays > 0`, in integers:
   * the integer nearest to `100 * present / totalDays`, halves rounded up.
   * It is a percentage, 100 when every day is present and 0 when none is.
   */
  function RoundedRate(present: nat, totalDays: nat): (r: int)
    requires present <= totalDays
    ensures totalDays > 0 ==> 2 * totalDays * r <= 200 * present + totalDays < 2 * totalDays * (r + 1)
    ensures totalDays == 0 ==> r == 0
    ensures 0 <= r <= 100
    ensures totalDays > 0 && present == totalDays ==> r == 100
    ensures present == 0 ==> r == 0
  {
    if totalDays > 0 then
      var t := totalDays;
      var q := (200 * present + t) / (2 * t);
      DivBracket(200 * present + t, 2 * t);
      RateRange(present, t, q);
      q
    else 0
  }

  /** What the rounding bracket says about the rate when `present <= totalDays`. */
  lemma RateRange(present: nat, totalDays: nat, q: int)
    requires 0 < totalDays && present <= totalDays
    requires 2 * totalDays * q <= 200 * present + totalDays < 2 * totalDays * (q + 1)
    ensures 0 <= q <= 100
    ensures present == totalDays ==> q == 100
    ensures present == 0 ==> q == 0
  {
    var t := totalDays;
    MulCancel(2 * t, q, 101);
    MulCancel(2 * t, 0, q + 1);
    if present == t {
      MulCancel(2 * t, 100, q + 1);
    }
    if present == 0 {
      MulCancel(2 * t, q, 1);
    }
  }

  datatype StudentStats = StudentStats(totalDays: nat, present: nat, late: nat, absent: int, attendanceRate: int)

  /**
   * `getStudentStats(studentId)` evaluated at `now`. The counts are consistent:
   * late ≤ present ≤ total, absent = total − present and never negative; the
   * rate is the rounded percentage of days present, 0 for no rows, 100 when
   * every row is present and 0 when none is.
   */
  function GetStudentStats(records: seq<AttendanceRecord>, sid: string, now: Instant): (s: StudentStats)
    ensures s.totalDays == |WindowRecords(records, sid, now)|
    ensures s.late <= s.present <= s.totalDays
    ensures s.absent == s.totalDays - s.present && s.absent >= 0
    ensures s.totalDays > 0 ==>
      2 * s.totalDays * s.attendanceRate <= 200 * s.present + s.totalDays < 2 * s.totalDays * (s.attendanceRate + 1)
    ensures 0 <= s.attendanceRate <= 100
    ensures s.totalDays == 0 ==> s == StudentStats(0, 0, 0, 0, 0)
    ensures s.totalDays > 0 && s.present == s.totalDays ==> s.attendanceRate == 100
    ensures s.present == 0 ==> s.attendanceRate == 0
  {
    var w := WindowRecords(records, sid, now);
    var totalDays := |w|;
    var present := CountPresent(w);
    var late := CountLate(w);
    var absent := totalDays - present;
    var attendanceRate := if totalDays > 0 then RoundedRate(present, totalDays) else 0;
    StudentStats(totalDays, present, late, absent, attendanceRate)
  }

  /** Every row a tap writes carries a check-in, so on a valid store no day counts as absent. */
  lemma {:induction false} AllPresentInValidStore(rs: seq<AttendanceRecord>)
    requires forall rec :: rec in rs ==> WellFormed(rec)
    ensures CountPresent(rs) == |rs|
  {
    if rs != [] {
      assert rs[0] in rs;
      assert forall rec :: rec in rs[1..] ==> rec in rs;
      AllPresentInValidStore(rs[1..]);
    }
  }

  /** On a valid store `absent` is always 0 and the rate is 0 with no rows and 100 otherwise. */
  lemma StatsOnValidStore(records: seq<AttendanceRecord>, sid: string, now: Instant)
    requires ValidStore(records)
    ensures var s := GetStudentStats(records, sid, now);
      && s.present == s.totalDays && s.absent == 0
      && s.attendanceRate == (if s.totalDays == 0 then 0 else 100)
  {
    var w := WindowRecords(records, sid, now);
    forall rec | rec in w ensures WellFormed(rec) {
      var i :| 0 <= i < |records| && records[i] == rec;
    }
    AllPresentInValidStore(w);
  }

  /**
   * The window starts thirty days back at the current time of day, while row
   * dates are midnights: the row dated thirty days back is counted only when
   * `now` is exactly midnight; the row dated twenty-nine days back always is.
   */
  lemma WindowEdge(sid: string, now: Instant, timeIn: Option<Instant>, timeOut: Option<Instant>)
    ensures InWindow(AttendanceRecord(sid, DayStart(now) - StatsWindowDays * MsPerDay, timeIn, timeOut), sid, now)
            <==> TimeOfDay(now) == 0
    ensures InWindow(AttendanceRecord(sid, DayStart(now) - (StatsWindowDays - 1) * MsPerDay, timeIn, timeOut), sid, now)
  {
  }

  /** Late is counted from the check-in: 08:15 counts as late, 08:00:59 does not. */
  lemma LateCountExamples(sid: string, day: Instant)
    requires IsMidnight(day)
    ensures CountLate([AttendanceRecord(sid, day, Some(day + 8 * MsPerHour + 15 * MsPerMinute), None)]) == 1
    ensures CountLate([AttendanceRecord(sid, day, Some(day + 8 * MsPerHour + 59_999), None)]) == 0
  {
    LatenessExamples(day);
  }
}
