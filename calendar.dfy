/**
  The parts of java.time that the schedule service relies on, as integers.

  A LocalDate is its epoch day (day 0 is 1970-01-01, a Thursday) and a
  LocalDateTime is a whole number of seconds since 1970-01-01T00:00. Leap
  seconds, time zones and sub-second precision are not represented. Dafny's
  `/` and `%` with a positive divisor round toward negative infinity, which is
  what java.time uses (Math.floorDiv, Math.floorMod) to derive the date, the
  hour and the weekday; plain Java `%` on int is modelled separately by JavaRem.
 */
module Calendar {

  /** A LocalDate, as its epoch day. */
  type Date = int

  /** A LocalDateTime, as seconds since the start of epoch day 0. */
  type DateTime = int

  const SecondsPerHour: int := 3600
  const SecondsPerDay: int := 86400

  /** A weekday as an index into a week: 0 = Monday, ..., 6 = Sunday. */
  type DayIndex = i: int | 0 <= i < 7

  const Monday: DayIndex := 0

  /** LocalDate.getDayOfWeek as a Monday-based index; epoch day 0 is a Thursday. */
  function DayOfWeek(d: Date): (w: DayIndex)
    ensures (d + 3 - w) % 7 == 0
  {
    (d + 3) % 7
  }

  predicate IsMonday(d: Date)
  {
    DayOfWeek(d) == Monday
  }

  /** LocalDateTime.toLocalDate: the day whose midnight-to-midnight span holds t. */
  function DateOf(t: DateTime): (d: Date)
    ensures d * SecondsPerDay <= t < (d + 1) * SecondsPerDay
  {
    t / SecondsPerDay
  }

  /** LocalDateTime.getHour: the whole hours elapsed since midnight of t's date. */
  function HourOf(t: DateTime): (h: int)
    ensures 0 <= h < 24
    ensures DateOf(t) * SecondsPerDay + h * SecondsPerHour <= t
    ensures t < DateOf(t) * SecondsPerDay + (h + 1) * SecondsPerHour
  {
    (t % SecondsPerDay) / SecondsPerHour
  }

  /** LocalDate.atStartOfDay: midnight at the beginning of d. */
  function AtStartOfDay(d: Date): (t: DateTime)
    ensures DateOf(t) == d && HourOf(t) == 0
  {
    d * SecondsPerDay
  }

  /**
    Java's `a % 7` on int: the quotient is truncated toward zero, so a non-zero
    remainder has the sign of the dividend (`-1 % 7` is -1, not 6).
   */
  function JavaRem7(a: int): (r: int)
    ensures a >= 0 ==> 0 <= r < 7
    ensures a < 0 ==> -7 < r <= 0
    ensures (a - r) % 7 == 0
  {
    if a >= 0 then a % 7 else -((-a) % 7)
  }

  /** Midnight is the earliest instant of its day: comparing with it is comparing dates. */
  lemma AtStartOfDayOrder(d: Date, t: DateTime)
    ensures AtStartOfDay(d) <= t <==> d <= DateOf(t)
    ensures t <= AtStartOfDay(d) ==> DateOf(t) <= d
  {
    var e := DateOf(t);
    if d <= e {
      assert d * SecondsPerDay <= e * SecondsPerDay;
    } else {
      assert (e + 1) * SecondsPerDay <= d * SecondsPerDay;
    }
  }

  /** Counting from a Monday, the k-th following day has weekday index k. */
  lemma DayOfWeekFromMonday(monday: Date, k: int)
    requires IsMonday(monday)
    requires 0 <= k < 7
    ensures DayOfWeek(monday + k) == k
  {
    var q := (monday + 3) / 7;
    assert monday + 3 == 7 * q;
    assert monday + k + 3 == 7 * q + k;
  }
}
