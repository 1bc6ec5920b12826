/**
  What the effective-schedule computation promises, proved about the value
  model in ScheduleEngine: which requests are selected and in what order, what
  the overlay does and does not touch, and the concrete cases that show how
  the Java code behaves at its edges.
 */
module ScheduleProperties {
  import opened Calendar
  import opened Model
  import opened ScheduleEngine

  // ---- Selection ---------------------------------------------------------

  /** Selection distributes over concatenation, so it keeps the requests' list order. */
  lemma {:induction false} SelectAppend(a: seq<TimeOff>, b: seq<TimeOff>, monday: Date)
    ensures SelectTimeOffs(a + b, monday) == SelectTimeOffs(a, monday) + SelectTimeOffs(b, monday)
  {
    if a == [] {
      assert a + b == b;
    } else {
      assert (a + b)[0] == a[0];
      assert (a + b)[1..] == a[1..] + b;
      SelectAppend(a[1..], b, monday);
    }
  }

  /** A request is selected exactly when it is approved and lies inside the week. */
  lemma SelectSingle(t: TimeOff, monday: Date)
    ensures SelectTimeOffs([t], monday) == if IsApplied(t, monday) then [t] else []
  {
    assert [t][1..] == [];
  }

  /** No request is selected from a list without an approved request inside the week. */
  lemma {:induction false} NothingSelected(ts: seq<TimeOff>, monday: Date)
    requires forall t :: t in ts ==> !IsApplied(t, monday)
    ensures SelectTimeOffs(ts, monday) == []
  {
    if ts != [] {
      assert ts[0] in ts;
      assert forall t :: t in ts[1..] ==> t in ts;
      NothingSelected(ts[1..], monday);
    }
  }

  /** A request that starts before Monday midnight is never applied. */
  lemma StartBeforeWeekIgnored(t: TimeOff, monday: Date)
    requires t.start < AtStartOfDay(monday)
    ensures !IsApplied(t, monday)
    ensures SelectTimeOffs([t], monday) == []
  {
    SelectSingle(t, monday);
  }

  /** A request that ends after next Monday midnight is never applied. */
  lemma EndAfterWeekIgnored(t: TimeOff, monday: Date)
    requires AtStartOfDay(monday + 7) < t.end
    ensures !IsApplied(t, monday)
    ensures SelectTimeOffs([t], monday) == []
  {
    SelectSingle(t, monday);
  }

  /**
    Inside the requested week, the weekday index of a request's start is its
    offset from that Monday: the same-day overlay edits the day on which the
    request actually falls.
   */
  lemma InWeekStartIndex(t: TimeOff, monday: Date)
    requires IsMonday(monday)
    requires IsTimeOffInWeek(t, monday)
    requires t.start < AtStartOfDay(monday + 7)
    ensures 0 <= DateOf(t.start) - monday < 7
    ensures t.StartDayOfWeek() == DateOf(t.start) - monday
  {
    AtStartOfDayOrder(monday, t.start);
    AtStartOfDayOrder(monday + 7, t.start);
    assert DateOf(t.start) < monday + 7;
    DayOfWeekFromMonday(monday, DateOf(t.start) - monday);
  }

  /**
    Inside the requested week, a request's end is on the week's own days, or
    exactly at next Monday midnight, which has weekday index 0.
   */
  lemma InWeekEndIndex(t: TimeOff, monday: Date)
    requires IsMonday(monday)
    requires IsTimeOffInWeek(t, monday)
    requires AtStartOfDay(monday) <= t.end
    ensures 0 <= DateOf(t.end) - monday <= 7
    ensures DateOf(t.end) - monday < 7 ==> t.EndDayOfWeek() == DateOf(t.end) - monday
    ensures DateOf(t.end) - monday == 7 ==> t.end == AtStartOfDay(monday + 7) && t.EndDayOfWeek() == 0
  {
    AtStartOfDayOrder(monday, t.end);
    AtStartOfDayOrder(monday + 7, t.end);
    if DateOf(t.end) < monday + 7 {
      DayOfWeekFromMonday(monday, DateOf(t.end) - monday);
    } else {
      assert DateOf(t.end) == monday + 7;
      DayOfWeekFromMonday(monday, 0);
      assert DayOfWeek(monday + 7) == DayOfWeek(monday);
    }
  }

  // ---- One request -------------------------------------------------------

  /** Overlaying a single request is applying it. */
  lemma OverlaySingle(days: seq<DailyAvailability>, t: TimeOff)
    requires |days| == 7
    ensures Overlay(days, [t]) == ApplyTimeOff(days, t)
  {
    assert [t][1..] == [];
  }

  /** Whatever a request changes is marked modified. */
  lemma ApplyChangedIsModified(days: seq<DailyAvailability>, t: TimeOff, i: int)
    requires |days| == 7 && 0 <= i < 7
    ensures ApplyTimeOff(days, t)[i] != days[i] ==> ApplyTimeOff(days, t)[i].modified
  {
  }

  /** A request never changes whether a day is off, except that a multi-day request takes days off. */
  lemma ApplyOffDays(days: seq<DailyAvailability>, t: TimeOff, i: int)
    requires |days| == 7 && 0 <= i < 7
    ensures days[i].off ==> ApplyTimeOff(days, t)[i] == days[i]
    ensures !t.IsSameDay() && Affects(t, i) ==> ApplyTimeOff(days, t)[i].off
    ensures t.IsSameDay() ==> ApplyTimeOff(days, t)[i].off == days[i].off
  {
  }

  /** Applying the same multi-day request twice is the same as applying it once. */
  lemma MultiDayIdempotent(days: seq<DailyAvailability>, t: TimeOff)
    requires |days| == 7
    requires !t.IsSameDay()
    ensures ApplyTimeOff(ApplyTimeOff(days, t), t) == ApplyTimeOff(days, t)
  {
    var once := ApplyTimeOff(days, t);
    var twice := ApplyTimeOff(once, t);
    forall i | 0 <= i < 7
      ensures twice[i] == once[i]
    {
      if Affects(t, i) {
        assert once[i] == TakeOff(days[i]);
      }
    }
  }

  /**
    A multi-day request that ends on a Monday takes no day off: the Java
    remainder of -1 by 7 is -1, so the loop over the days does not run.
   */
  lemma EndingOnMondayChangesNothing(days: seq<DailyAvailability>, t: TimeOff)
    requires |days| == 7
    requires !t.IsSameDay() && t.EndDayOfWeek() == Monday
    ensures ApplyTimeOff(days, t) == days
  {
    assert JavaRem7(-1) == -1;
    assert forall i :: 0 <= i < 7 ==> !Affects(t, i);
  }

  /**
    A same-day request that covers a day's whole window moves both boundaries:
    the day then starts at the request's end hour and ends at its start hour,
    so a request with start hour before end hour leaves the hours inverted.
   */
  lemma FullWindowInvertsHours(day: DailyAvailability, t: TimeOff)
    requires !day.off
    requires t.StartHour() == day.start && t.EndHour() == day.end
    ensures TrimSameDay(day, t) == DailyAvailability(day.end, day.start, false, true)
  {
  }

  /** A same-day request strictly inside the working window changes no hour but still marks the day modified. */
  lemma InteriorTimeOffOnlyMarksModified(day: DailyAvailability, t: TimeOff)
    requires !day.off
    requires t.StartHour() != day.start && t.EndHour() != day.end
    ensures TrimSameDay(day, t) == day.(modified := true)
  {
  }

  // ---- A sequence of requests ---------------------------------------------

  /** Overlaying one more request is applying it to the overlay of the earlier ones. */
  lemma {:induction false} OverlayAppend(days: seq<DailyAvailability>, ts: seq<TimeOff>, t: TimeOff)
    requires |days| == 7
    ensures Overlay(days, ts + [t]) == ApplyTimeOff(Overlay(days, ts), t)
    decreases ts
  {
    if ts == [] {
      assert ts + [t] == [t];
      assert [t][1..] == [];
    } else {
      assert (ts + [t])[0] == ts[0];
      assert (ts + [t])[1..] == ts[1..] + [t];
      OverlayAppend(ApplyTimeOff(days, ts[0]), ts[1..], t);
    }
  }

  /** A day no request affects keeps its record. */
  lemma {:induction false} OverlayFrame(days: seq<DailyAvailability>, ts: seq<TimeOff>, i: int)
    requires |days| == 7 && 0 <= i < 7
    requires forall t :: t in ts ==> !Affects(t, i)
    ensures Overlay(days, ts)[i] == days[i]
    decreases ts
  {
    if ts != [] {
      assert ts[0] in ts;
      OverlayFrame(ApplyTimeOff(days, ts[0]), ts[1..], i);
    }
  }

  /** A day that is off keeps its record, whatever requests are applied. */
  lemma {:induction false} OverlayKeepsDaysOff(days: seq<DailyAvailability>, ts: seq<TimeOff>, i: int)
    requires |days| == 7 && 0 <= i < 7
    requires days[i].off
    ensures Overlay(days, ts)[i] == days[i]
    decreases ts
  {
    if ts != [] {
      ApplyOffDays(days, ts[0], i);
      OverlayKeepsDaysOff(ApplyTimeOff(days, ts[0]), ts[1..], i);
    }
  }

  /** Every day whose record the overlay changed is marked modified. */
  lemma {:induction false} OverlayChangedIsModified(days: seq<DailyAvailability>, ts: seq<TimeOff>, i: int)
    requires |days| == 7 && 0 <= i < 7
    ensures Overlay(days, ts)[i] != days[i] ==> Overlay(days, ts)[i].modified
    decreases ts
  {
    if ts != [] {
      var next := ApplyTimeOff(days, ts[0]);
      ApplyChangedIsModified(days, ts[0], i);
      OverlayChangedIsModified(next, ts[1..], i);
    }
  }

  /** With no approved request inside the week, the effective availability is the base availability. */
  lemma NothingSelectedKeepsBase(monday: Date, base: seq<DailyAvailability>, ts: seq<TimeOff>)
    requires |base| == 7
    requires forall t :: t in ts ==> !IsApplied(t, monday)
    ensures EffectiveAvailability(monday, base, ts) == base
  {
    NothingSelected(ts, monday);
  }

  /**
    One more request in the list is applied last when it is approved and inside
    the week, and changes nothing otherwise.
   */
  lemma EffectiveAppend(monday: Date, base: seq<DailyAvailability>, ts: seq<TimeOff>, t: TimeOff)
    requires |base| == 7
    ensures EffectiveAvailability(monday, base, ts + [t]) ==
      if IsApplied(t, monday) then ApplyTimeOff(EffectiveAvailability(monday, base, ts), t)
      else EffectiveAvailability(monday, base, ts)
  {
    SelectAppend(ts, [t], monday);
    SelectSingle(t, monday);
    var selected := SelectTimeOffs(ts, monday);
    if IsApplied(t, monday) {
      OverlayAppend(base, selected, t);
    } else {
      assert selected + [] == selected;
    }
  }

  // ---- Concrete weeks ------------------------------------------------------

  /** Epoch day 4, 1970-01-05, is a Monday. */
  const ExampleMonday: Date := 4

  function Hour(d: Date, h: int): DateTime
  {
    AtStartOfDay(d) + h * SecondsPerHour
  }

  const NineToFive := DailyAvailability(9, 17, false, false)

  function ExampleWeek(): (w: seq<DailyAvailability>)
    ensures |w| == 7
  {
    [NineToFive, NineToFive, NineToFive, NineToFive, NineToFive, DefaultAvailability, DefaultAvailability]
  }

  /**
    Both week boundaries are inclusive; a start one second before Monday
    midnight, or an end one second after next Monday midnight, is outside.
   */
  lemma WeekBoundaries()
    ensures IsTimeOffInWeek(TimeOff(AtStartOfDay(ExampleMonday), AtStartOfDay(ExampleMonday + 7), true), ExampleMonday)
    ensures !IsTimeOffInWeek(TimeOff(AtStartOfDay(ExampleMonday), AtStartOfDay(ExampleMonday + 7) + 1, true), ExampleMonday)
    ensures !IsTimeOffInWeek(TimeOff(AtStartOfDay(ExampleMonday) - 1, AtStartOfDay(ExampleMonday + 7), true), ExampleMonday)
  {
  }

  /** Monday 09:00 to 12:00 on a nine-to-five Monday: the day now starts at 12 and is marked modified. */
  lemma SameDayTrimExample()
    ensures
      var t := TimeOff(Hour(ExampleMonday, 9), Hour(ExampleMonday, 12), true);
      EffectiveAvailability(ExampleMonday, ExampleWeek(), [t]) ==
        ExampleWeek()[0 := DailyAvailability(12, 17, false, true)]
  {
    var t := TimeOff(Hour(ExampleMonday, 9), Hour(ExampleMonday, 12), true);
    SelectSingle(t, ExampleMonday);
    assert t.IsSameDay() && t.StartDayOfWeek() == 0;
    assert t.StartHour() == 9 && t.EndHour() == 12;
    assert TrimSameDay(NineToFive, t) == DailyAvailability(12, 17, false, true);
    OverlaySingle(ExampleWeek(), t);
  }

  /** The same request left unapproved changes nothing. */
  lemma UnapprovedExample()
    ensures
      var t := TimeOff(Hour(ExampleMonday, 9), Hour(ExampleMonday, 12), false);
      EffectiveAvailability(ExampleMonday, ExampleWeek(), [t]) == ExampleWeek()
  {
    var t := TimeOff(Hour(ExampleMonday, 9), Hour(ExampleMonday, 12), false);
    SelectSingle(t, ExampleMonday);
  }

  /** Monday 10:00 to 11:00 touches neither boundary: the hours stay, the day is marked modified. */
  lemma InteriorExample()
    ensures
      var t := TimeOff(Hour(ExampleMonday, 10), Hour(ExampleMonday, 11), true);
      EffectiveAvailability(ExampleMonday, ExampleWeek(), [t]) ==
        ExampleWeek()[0 := DailyAvailability(9, 17, false, true)]
  {
    var t := TimeOff(Hour(ExampleMonday, 10), Hour(ExampleMonday, 11), true);
    SelectSingle(t, ExampleMonday);
    assert t.IsSameDay() && t.StartDayOfWeek() == 0;
    assert t.StartHour() == 10 && t.EndHour() == 11;
    assert TrimSameDay(NineToFive, t) == DailyAvailability(9, 17, false, true);
    OverlaySingle(ExampleWeek(), t);
  }

  /** Wednesday 00:00 to Saturday 00:00: Wednesday, Thursday and Friday are taken off; the rest is unchanged. */
  lemma MultiDayExample()
    ensures
      var t := TimeOff(Hour(ExampleMonday + 2, 0), Hour(ExampleMonday + 5, 0), true);
      EffectiveAvailability(ExampleMonday, ExampleWeek(), [t]) ==
        [NineToFive, NineToFive, TakenOffAvailability, TakenOffAvailability, TakenOffAvailability,
         DefaultAvailability, DefaultAvailability]
  {
    var t := TimeOff(Hour(ExampleMonday + 2, 0), Hour(ExampleMonday + 5, 0), true);
    SelectSingle(t, ExampleMonday);
    assert !t.IsSameDay() && t.StartDayOfWeek() == 2 && t.EndDayOfWeek() == 5;
    OverlaySingle(ExampleWeek(), t);
    var r := ApplyTimeOff(ExampleWeek(), t);
    assert r[0] == NineToFive && r[1] == NineToFive;
    assert r[2] == TakenOffAvailability && r[3] == TakenOffAvailability && r[4] == TakenOffAvailability;
    assert r[5] == DefaultAvailability && r[6] == DefaultAvailability;
  }

  /**
    Wednesday 10:00 back to the Saturday before, 1970-01-03 00:00: the week test
    never compares the start with the end, so the request is selected, and as a
    multi-day request from weekday 2 to `(5 - 1) % 7` it takes Wednesday,
    Thursday and Friday off.
   */
  lemma InvertedRequestExample()
    ensures
      var t := TimeOff(Hour(ExampleMonday + 2, 10), Hour(ExampleMonday - 2, 0), true);
      IsApplied(t, ExampleMonday) && t.end < t.start &&
      EffectiveAvailability(ExampleMonday, ExampleWeek(), [t]) ==
        [NineToFive, NineToFive, TakenOffAvailability, TakenOffAvailability, TakenOffAvailability,
         DefaultAvailability, DefaultAvailability]
  {
    var t := TimeOff(Hour(ExampleMonday + 2, 10), Hour(ExampleMonday - 2, 0), true);
    SelectSingle(t, ExampleMonday);
    assert !t.IsSameDay() && t.StartDayOfWeek() == 2 && t.EndDayOfWeek() == 5;
    OverlaySingle(ExampleWeek(), t);
    var r := ApplyTimeOff(ExampleWeek(), t);
    assert r[0] == NineToFive && r[1] == NineToFive;
    assert r[2] == TakenOffAvailability && r[3] == TakenOffAvailability && r[4] == TakenOffAvailability;
    assert r[5] == DefaultAvailability && r[6] == DefaultAvailability;
  }

  /**
    Wednesday 00:00 to next Monday 00:00 is selected, but ends on a Monday and
    so takes no day off at all.
   */
  lemma UntilNextMondayExample()
    ensures
      var t := TimeOff(Hour(ExampleMonday + 2, 0), Hour(ExampleMonday + 7, 0), true);
      IsApplied(t, ExampleMonday) &&
      EffectiveAvailability(ExampleMonday, ExampleWeek(), [t]) == ExampleWeek()
  {
    var t := TimeOff(Hour(ExampleMonday + 2, 0), Hour(ExampleMonday + 7, 0), true);
    SelectSingle(t, ExampleMonday);
    assert !t.IsSameDay() && t.EndDayOfWeek() == 0;
    EndingOnMondayChangesNothing(ExampleWeek(), t);
    OverlaySingle(ExampleWeek(), t);
  }
}
