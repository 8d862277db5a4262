/**
 * The injected clock. An instant is a number of milliseconds since the epoch,
 * read in the server's local time zone, which is what the service's `Date`
 * values give through `setHours`, `getHours` and `getMinutes`. Day
 * boundaries, hours and minutes are derived from the instant by division.
 */
module Clock {

  type Instant = int

  const MsPerMinute: int := 60_000
  const MsPerHour: int := 60 * MsPerMinute
  const MsPerDay: int := 24 * MsPerHour

  /** The lateness rule: a check-in strictly after SchoolStartHour:00 is late. */
  const SchoolStartHour: int := 8

  /** Length of the trailing statistics window, in days. */
  const StatsWindowDays: int := 30

  /** `d.setHours(0, 0, 0, 0)`: the midnight that starts the day of `t`. */
  function DayStart(t: Instant): (d: Instant)
    ensures d <= t < d + MsPerDay
    ensures IsMidnight(d)
  {
    (t / MsPerDay) * MsPerDay
  }

  predicate IsMidnight(t: Instant)
  {
    t % MsPerDay == 0
  }

  /** The `[today, tomorrow)` window of the day that contains `now`. */
  predicate SameDay(t: Instant, now: Instant)
  {
    DayStart(now) <= t < DayStart(now) + MsPerDay
  }

  /** Milliseconds elapsed since the midnight that starts the day of `t`. */
  function TimeOfDay(t: Instant): (r: int)
    ensures 0 <= r < MsPerDay
    ensures DayStart(t) + r == t
  {
    t % MsPerDay
  }

  /** `getHours()`. */
  function Hour(t: Instant): (h: int)
    ensures 0 <= h < 24
  {
    TimeOfDay(t) / MsPerHour
  }

  /** `getMinutes()`: the minute within the hour; seconds are dropped. */
  function Minute(t: Instant): (m: int)
    ensures 0 <= m < 60
  {
    TimeOfDay(t) % MsPerHour / MsPerMinute
  }

  /**
   * The lateness test shared by the statistics fold and the student page:
   * late means at or after 08:01:00.000 of the instant's day, since the
   * minute test drops the seconds.
   */
  function IsLate(t: Instant): (late: bool)
    ensures late <==> TimeOfDay(t) >= SchoolStartHour * MsPerHour + MsPerMinute
  {
    HourMinuteThreshold(t);
    Hour(t) > SchoolStartHour || (Hour(t) == SchoolStartHour && Minute(t) > 0)
  }

  /** `now.setDate(now.getDate() - 30)`: the same time of day thirty days back. */
  function WindowStart(now: Instant): (w: Instant)
    ensures TimeOfDay(w) == TimeOfDay(now)
    ensures DayStart(w) == DayStart(now) - StatsWindowDays * MsPerDay
  {
    now - StatsWindowDays * MsPerDay
  }

  /** A midnight is the start of every instant of the day it begins. */
  lemma DayStartOf(d: Instant, t: Instant)
    requires IsMidnight(d) && d <= t < d + MsPerDay
    ensures DayStart(t) == d
  {
    var k := d / MsPerDay;
    assert d == k * MsPerDay;
    assert k * MsPerDay <= t < (k + 1) * MsPerDay;
  }

  /** A midnight-normalised date lies in the `[today, tomorrow)` window exactly when it is today. */
  lemma SameDayMidnight(d: Instant, now: Instant)
    requires IsMidnight(d)
    ensures SameDay(d, now) <==> d == DayStart(now)
  {
    if SameDay(d, now) {
      DayStartOf(d, d);
      DayStartOf(DayStart(now), d);
    }
  }

  /** The hour and minute test is a threshold test on the time of day. */
  lemma HourMinuteThreshold(t: Instant)
    ensures (Hour(t) > SchoolStartHour || (Hour(t) == SchoolStartHour && Minute(t) > 0))
            <==> TimeOfDay(t) >= SchoolStartHour * MsPerHour + MsPerMinute
  {
    var r := TimeOfDay(t);
    var h := r / MsPerHour;
    var rest := r % MsPerHour;
    assert r == h * MsPerHour + rest;
    assert Minute(t) == rest / MsPerMinute;
    if h > SchoolStartHour {
      assert r >= 9 * MsPerHour;
    } else if h == SchoolStartHour {
      assert r == SchoolStartHour * MsPerHour + rest;
    } else {
      assert r < SchoolStartHour * MsPerHour;
    }
  }

  /** An instant `off` milliseconds after a midnight is `off` into its day. */
  lemma TimeOfDayAfter(day: Instant, off: int)
    requires IsMidnight(day) && 0 <= off < MsPerDay
    ensures TimeOfDay(day + off) == off
  {
    DayStartOf(day, day + off);
  }

  /** Seconds are ignored: 08:00:59.999 is on time, 08:01:00 is late, 08:15 is late. */
  lemma LatenessExamples(day: Instant)
    requires IsMidnight(day)
    ensures !IsLate(day + 8 * MsPerHour + 59_999)
    ensures IsLate(day + 8 * MsPerHour + MsPerMinute)
    ensures IsLate(day + 8 * MsPerHour + 15 * MsPerMinute)
    ensures !IsLate(day + 7 * MsPerHour + 30 * MsPerMinute)
  {
    TimeOfDayAfter(day, 8 * MsPerHour + 59_999);
    TimeOfDayAfter(day, 8 * MsPerHour + MsPerMinute);
    TimeOfDayAfter(day, 8 * MsPerHour + 15 * MsPerMinute);
    TimeOfDayAfter(day, 7 * MsPerHour + 30 * MsPerMinute);
  }
}
