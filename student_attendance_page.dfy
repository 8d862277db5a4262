/**
 * The student attendance page: the status badge it derives from each row of
 * the recent history, and the badge's label. The page shows the statistics
 * cards next to the history table; the lemmas here relate the badges to the
 * counts of the statistics fold.
 */
module StudentAttendancePage {
  import opened Wrappers
  import opened Clock
  import opened Attendance

  datatype Status = Present | Late | Absent

  /**
   * `getStatus(record)`: absent without a check-in, late with a check-in after
   * 08:00, present otherwise. Each row gets exactly one of the three.
   */
  function GetStatus(rec: AttendanceRecord): (s: Status)
    ensures s == Absent <==> rec.timeIn.None?
    ensures s == Late <==> IsLateRecord(rec)
    ensures s == Present <==> rec.timeIn.Some? && !IsLate(rec.timeIn.value)
  {
    if rec.timeIn.None? then Absent
    else if IsLate(rec.timeIn.value) then Late
    else Present
  }

  /** The badge is late exactly when the check-in is at or after 08:01:00.000 of its day. */
  lemma StatusLateThreshold(rec: AttendanceRecord)
    requires rec.timeIn.Some?
    ensures GetStatus(rec) == Late <==> TimeOfDay(rec.timeIn.value) >= SchoolStartHour * MsPerHour + MsPerMinute
  {
  }

  /** A row written by a tap always has a check-in, so the page never shows it as absent. */
  lemma TappedRowNeverAbsent(rec: AttendanceRecord)
    requires WellFormed(rec)
    ensures GetStatus(rec) != Absent
  {
  }

  /** The status string `getStatus` returns. */
  function StatusName(s: Status): string
  {
    match s
    case Present => "present"
    case Late => "late"
    case Absent => "absent"
  }

  /** `toUpperCase` on one character; only ASCII letters are modelled. */
  function UpperAscii(c: char): (u: char)
    ensures 'a' <= c <= 'z' ==> 'A' <= u <= 'Z' && u as int == c as int - 32
    ensures !('a' <= c <= 'z') ==> u == c
  {
    if 'a' <= c <= 'z' then (c as int - 32) as char else c
  }

  /** `s.charAt(0).toUpperCase() + s.slice(1)`: the first character upper-cased, the rest kept. */
  function Capitalize(s: string): (r: string)
    ensures |r| == |s|
    ensures |s| > 0 ==> r[0] == UpperAscii(s[0]) && r[1..] == s[1..]
  {
    if s == [] then [] else [UpperAscii(s[0])] + s[1..]
  }

  /** The label of the badge: the status name with its lower-case first letter turned into the capital. */
  function StatusLabel(s: Status): (l: string)
    ensures |l| == |StatusName(s)| > 0
    ensures 'A' <= l[0] <= 'Z' && l[0] as int == StatusName(s)[0] as int - 32
    ensures l[1..] == StatusName(s)[1..]
  {
    Capitalize(StatusName(s))
  }

  /** The three labels, and they tell the statuses apart. */
  lemma StatusLabels()
    ensures StatusLabel(Present) == "Present"
    ensures StatusLabel(Late) == "Late"
    ensures StatusLabel(Absent) == "Absent"
    ensures forall s, t :: StatusLabel(s) == StatusLabel(t) ==> s == t
  {
    assert StatusLabel(Present) == "Present";
    assert StatusLabel(Late) == "Late";
    assert StatusLabel(Absent) == "Absent";
  }

  /** The number of rows of the table that carry badge `s`. */
  function CountStatus(rs: seq<AttendanceRecord>, s: Status): (n: nat)
    ensures n <= |rs|
  {
    if rs == [] then 0
    else (if GetStatus(rs[0]) == s then 1 else 0) + CountStatus(rs[1..], s)
  }

  /**
   * Over the same rows, the badges agree with the statistics fold: as many
   * "Late" badges as the late count, "Present" and "Late" badges together as
   * many as the present count, "Absent" badges as many as the absent count.
   */
  lemma {:induction false} BadgesMatchCounts(rs: seq<AttendanceRecord>)
    ensures CountStatus(rs, Late) == CountLate(rs)
    ensures CountStatus(rs, Present) + CountStatus(rs, Late) == CountPresent(rs)
    ensures CountStatus(rs, Absent) == |rs| - CountPresent(rs)
  {
    if rs != [] {
      BadgesMatchCounts(rs[1..]);
    }
  }

  /** Each row gets exactly one badge. */
  lemma BadgesPartitionRows(rs: seq<AttendanceRecord>)
    ensures CountStatus(rs, Present) + CountStatus(rs, Late) + CountStatus(rs, Absent) == |rs|
  {
    BadgesMatchCounts(rs);
  }

  /** For the rows inside the statistics window, the "Late" badges number exactly the late card. */
  lemma WindowBadgesMatchStats(records: seq<AttendanceRecord>, sid: string, now: Instant)
    ensures CountStatus(WindowRecords(records, sid, now), Late) == GetStudentStats(records, sid, now).late
    ensures CountStatus(WindowRecords(records, sid, now), Absent) == GetStudentStats(records, sid, now).absent
  {
    BadgesMatchCounts(WindowRecords(records, sid, now));
  }
}
