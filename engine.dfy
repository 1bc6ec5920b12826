/**
  The effective-schedule computation on values: which time-off requests apply
  to a requested week, what one request does to a week of seven days, and the
  result of applying the selected requests one after another.
 */
module ScheduleEngine {
  import opened Calendar
  import opened Model

  /** The request lies inside the week, both ends inclusive: from Monday midnight to next Monday midnight. */
  predicate IsTimeOffInWeek(t: TimeOff, monday: Date)
  {
    AtStartOfDay(monday) <= t.start && t.end <= AtStartOfDay(monday + 7)
  }

  /** The condition of the filter over an employee's time-offs. */
  predicate IsApplied(t: TimeOff, monday: Date)
  {
    t.approved && IsTimeOffInWeek(t, monday)
  }

  /** The requests that are applied to the week, in their list order. */
  function SelectTimeOffs(ts: seq<TimeOff>, monday: Date): (r: seq<TimeOff>)
    ensures |r| <= |ts|
    ensures forall t :: t in r <==> t in ts && IsApplied(t, monday)
  {
    if ts == [] then []
    else (if IsApplied(ts[0], monday) then [ts[0]] else []) + SelectTimeOffs(ts[1..], monday)
  }

  /**
    A same-day request on a working day: the start boundary moves to the
    request's end hour when the request starts at the day's start hour, the end
    boundary moves to the request's start hour when the request ends at the
    day's end hour, and the day is marked modified either way. A day off is
    left as it is.
   */
  function TrimSameDay(day: DailyAvailability, t: TimeOff): (r: DailyAvailability)
    ensures day.off ==> r == day
    ensures !day.off ==> !r.off && r.modified
    ensures !day.off ==> r.start == (if t.StartHour() == day.start then t.EndHour() else day.start)
    ensures !day.off ==> r.end == (if t.EndHour() == day.end then t.StartHour() else day.end)
  {
    if day.off then day
    else
      var trimmedStart := if t.StartHour() == day.start then day.(start := t.EndHour()) else day;
      var trimmed := if t.EndHour() == trimmedStart.end then trimmedStart.(end := t.StartHour()) else trimmedStart;
      trimmed.(modified := true)
  }

  /** A day covered by a multi-day request: a working day is replaced by a fresh day off. */
  function TakeOff(day: DailyAvailability): (r: DailyAvailability)
    ensures r.off
    ensures day.off ==> r == day
    ensures !day.off ==> r == TakenOffAvailability
  {
    if day.off then day else TakenOffAvailability
  }

  /**
    The last day index a multi-day request takes off: `(endDayOfWeek - 1) % 7`
    with Java's remainder. For a weekday index it never wraps, so a request
    ending on a Monday gives -1 and takes no day off.
   */
  function LastDayTakenOff(t: TimeOff): (last: int)
    ensures last == t.EndDayOfWeek() - 1
  {
    JavaRem7(t.EndDayOfWeek() - 1)
  }

  /** The day indices whose records a request may change. */
  predicate Affects(t: TimeOff, i: int)
  {
    if t.IsSameDay() then i == t.StartDayOfWeek()
    else t.StartDayOfWeek() <= i <= LastDayTakenOff(t)
  }

  /** One request applied to a week of seven days. */
  function ApplyTimeOff(days: seq<DailyAvailability>, t: TimeOff): (r: seq<DailyAvailability>)
    requires |days| == 7
    ensures |r| == 7
    ensures forall i :: 0 <= i < 7 && !Affects(t, i) ==> r[i] == days[i]
    ensures forall i :: 0 <= i < 7 && Affects(t, i) ==>
      r[i] == if t.IsSameDay() then TrimSameDay(days[i], t) else TakeOff(days[i])
  {
    if t.IsSameDay() then
      var d := t.StartDayOfWeek();
      days[d := TrimSameDay(days[d], t)]
    else
      seq(7, i requires 0 <= i < 7 =>
        if t.StartDayOfWeek() <= i <= LastDayTakenOff(t) then TakeOff(days[i]) else days[i])
  }

  /** The requests applied one after another, in sequence order. */
  function Overlay(days: seq<DailyAvailability>, ts: seq<TimeOff>): (r: seq<DailyAvailability>)
    requires |days| == 7
    ensures |r| == 7
    decreases ts
  {
    if ts == [] then days else Overlay(ApplyTimeOff(days, ts[0]), ts[1..])
  }

  /** The availability of the requested week: the base availability overlaid with the selected requests. */
  function EffectiveAvailability(monday: Date, base: seq<DailyAvailability>, ts: seq<TimeOff>): (r: seq<DailyAvailability>)
    requires |base| == 7
    ensures |r| == 7
  {
    Overlay(base, SelectTimeOffs(ts, monday))
  }
}
