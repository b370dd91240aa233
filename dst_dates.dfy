/**
 The summer-time window of one year under the European rule the clock
 hard-codes: summer time starts on the last Sunday of March and ends on the
 last Sunday of October, both at 01:00 UTC.  `WorldClockApp.get_dst_dates`
 finds each Sunday by starting on the 31st of the month at 01:00 UTC and
 stepping back one day at a time until the weekday is Sunday.
 */
module DstDates {
  import opened Calendar

  const March := 3
  const October := 10
  const LastDayOfMonth := 31
  /** The hour of day, in UTC, at which the clocks change. */
  const ChangeHour := 1

  /** A year's summer-time window, as two instants in Unix seconds. */
  datatype Window = Window(start: int, end: int)

  /**
   The nearest instant at or before `t`, a whole number of days earlier,
   that falls on a Sunday: what stepping back one day at a time from `t`
   until the weekday is Sunday arrives at.
   */
  function SundayOnOrBefore(t: int): (s: int)
    ensures WeekdayAt(s) == Sunday
    ensures t - 6 * SecondsPerDay <= s <= t
    ensures s % SecondsPerDay == t % SecondsPerDay
  {
    var back := (WeekdayAt(t) + 1) % 7;
    DivModOfSum(t / SecondsPerDay - back, t % SecondsPerDay);
    t - back * SecondsPerDay
  }

  /**
   Of the seven instants `t`, one day earlier, ..., six days earlier,
   exactly one is on a Sunday, and it is `SundayOnOrBefore(t)`.
   */
  lemma OnlySundayOfWeek(t: int, k: int)
    requires 0 <= k <= 6
    ensures WeekdayAt(t - k * SecondsPerDay) == Sunday <==> t - k * SecondsPerDay == SundayOnOrBefore(t)
  {
    DivModOfSum(t / SecondsPerDay - k, t % SecondsPerDay);
    WeekdayBefore(DayOf(t), k);
  }

  /** The window `get_dst_dates` computes for year `y`, as a specification. */
  function DstWindow(y: int): Window {
    Window(SundayOnOrBefore(At(y, March, LastDayOfMonth, ChangeHour)),
           SundayOnOrBefore(At(y, October, LastDayOfMonth, ChangeHour)))
  }

  /**
   Steps back from `from`, one day at a time, until the weekday is Sunday.
   `get_dst_dates` runs this loop from March 31 and from October 31, at
   01:00 UTC.
   */
  method WalkBackToSunday(from: int) returns (t: int)
    ensures t == SundayOnOrBefore(from)
  {
    t := from;
    ghost var steps := 0;
    while WeekdayAt(t) != Sunday
      invariant t == from - steps * SecondsPerDay
      invariant 0 <= steps <= (from - SundayOnOrBefore(from)) / SecondsPerDay <= 6
      decreases t - SundayOnOrBefore(from)
    {
      OnlySundayOfWeek(from, steps);
      t := t - SecondsPerDay;
      steps := steps + 1;
    }
    OnlySundayOfWeek(from, steps);
  }

  /**
   `get_dst_dates`: the year must be one `datetime` accepts; the result is
   this year's start and end of summer time.
   */
  method GetDstDates(year: int) returns (r: Result<Window>)
    ensures r.Ok? <==> ValidYear(year)
    ensures r.Ok? ==> r.value == DstWindow(year)
    ensures r.Err? ==> r.error == YearOutOfRange
  {
    if !ValidYear(year) {
      return Err(YearOutOfRange);
    }
    var dstStart := WalkBackToSunday(At(year, March, LastDayOfMonth, ChangeHour));
    var dstEnd := WalkBackToSunday(At(year, October, LastDayOfMonth, ChangeHour));
    return Ok(Window(dstStart, dstEnd));
  }

  /**
   Day of the month of the last Sunday of March or October, computed in
   closed form from the weekday of the 31st.
   */
  function LastSunday(y: int, m: int): (d: int)
    requires m == March || m == October
    ensures 25 <= d <= LastDayOfMonth
    ensures Weekday(Ordinal(y, m, d)) == Sunday
  {
    var o := Ordinal(y, m, LastDayOfMonth);
    var back := (Weekday(o) + 1) % 7;
    OrdinalOfEarlierDay(y, m, LastDayOfMonth, back);
    WeekdayBefore(o, back);
    LastDayOfMonth - back
  }

  /**
   The last Sunday is the only Sunday among the 25th to the 31st: seven
   consecutive days hold exactly one Sunday.
   */
  lemma OnlySundayOfLastWeek(y: int, m: int, e: int)
    requires m == March || m == October
    requires 25 <= e <= LastDayOfMonth
    ensures Weekday(Ordinal(y, m, e)) == Sunday <==> e == LastSunday(y, m)
  {
    var d := LastSunday(y, m);
    if e >= d {
      OrdinalOfEarlierDay(y, m, e, e - d);
      WeekdayBefore(Ordinal(y, m, e), e - d);
    } else {
      OrdinalOfEarlierDay(y, m, d, d - e);
      WeekdayBefore(Ordinal(y, m, d), d - e);
    }
  }

  /** Walking back from the 31st at 01:00 UTC ends at 01:00 UTC on the last Sunday. */
  lemma WalkBackEndsOnLastSunday(y: int, m: int)
    requires m == March || m == October
    ensures SundayOnOrBefore(At(y, m, LastDayOfMonth, ChangeHour)) == At(y, m, LastSunday(y, m), ChangeHour)
  {
    var d := LastSunday(y, m);
    var k := LastDayOfMonth - d;
    OrdinalOfEarlierDay(y, m, LastDayOfMonth, k);
    DayOfAt(y, m, d, ChangeHour);
    OnlySundayOfWeek(At(y, m, LastDayOfMonth, ChangeHour), k);
  }

  /**
   The window is the last Sunday of March and the last Sunday of October
   of the year, at 01:00 UTC.
   */
  lemma WindowOnLastSundays(y: int)
    ensures DstWindow(y).start == At(y, March, LastSunday(y, March), ChangeHour)
    ensures DstWindow(y).end == At(y, October, LastSunday(y, October), ChangeHour)
  {
    WalkBackEndsOnLastSunday(y, March);
    WalkBackEndsOnLastSunday(y, October);
  }

  /**
   An independent description of a change instant: a Sunday, at 01:00 UTC,
   in the last seven days (25th to 31st) of month `m` of year `y`.
   */
  predicate IsChangeInstant(t: int, y: int, m: int)
    requires m == March || m == October
  {
    && WeekdayAt(t) == Sunday
    && t % SecondsPerDay == ChangeHour * SecondsPerHour
    && At(y, m, 25, ChangeHour) <= t <= At(y, m, LastDayOfMonth, ChangeHour)
  }

  /**
   A change instant is unique: an instant is a Sunday at 01:00 UTC among
   the last seven days of the month exactly when it is the one the walk
   back from the 31st returns.
   */
  lemma ChangeInstantIsLastSunday(t: int, y: int, m: int)
    requires m == March || m == October
    ensures IsChangeInstant(t, y, m) <==> t == SundayOnOrBefore(At(y, m, LastDayOfMonth, ChangeHour))
  {
    var last := At(y, m, LastDayOfMonth, ChangeHour);
    DayOfAt(y, m, LastDayOfMonth, ChangeHour);
    OrdinalOfEarlierDay(y, m, LastDayOfMonth, LastDayOfMonth - 25);
    assert At(y, m, 25, ChangeHour) == last - 6 * SecondsPerDay;
    if IsChangeInstant(t, y, m) {
      InstantOfDay(t);
      InstantOfDay(last);
      var k := DayOf(last) - DayOf(t);
      assert t == last - k * SecondsPerDay;
      OnlySundayOfWeek(last, k);
    }
  }

  /** The start is a change instant of March and the end one of October. */
  lemma WindowAreChangeInstants(y: int)
    ensures IsChangeInstant(DstWindow(y).start, y, March)
    ensures IsChangeInstant(DstWindow(y).end, y, October)
  {
    ChangeInstantIsLastSunday(DstWindow(y).start, y, March);
    ChangeInstantIsLastSunday(DstWindow(y).end, y, October);
  }

  /**
   "Last Sunday": no calendar day after the start, up to March 31, is a
   Sunday, and likewise for the end up to October 31.
   */
  lemma NoLaterSunday(y: int)
    ensures forall o :: DayOf(DstWindow(y).start) < o <= Ordinal(y, March, LastDayOfMonth) ==> Weekday(o) != Sunday
    ensures forall o :: DayOf(DstWindow(y).end) < o <= Ordinal(y, October, LastDayOfMonth) ==> Weekday(o) != Sunday
  {
    var ds, de := LastSunday(y, March), LastSunday(y, October);
    WindowOnLastSundays(y);
    DayOfAt(y, March, ds, ChangeHour);
    DayOfAt(y, October, de, ChangeHour);
    forall o | Ordinal(y, March, ds) < o <= Ordinal(y, March, LastDayOfMonth)
      ensures Weekday(o) != Sunday
    {
      var e := o - Ordinal(y, March, 0);
      OrdinalOfEarlierDay(y, March, e, e);
      OnlySundayOfLastWeek(y, March, e);
    }
    forall o | Ordinal(y, October, de) < o <= Ordinal(y, October, LastDayOfMonth)
      ensures Weekday(o) != Sunday
    {
      var e := o - Ordinal(y, October, 0);
      OrdinalOfEarlierDay(y, October, e, e);
      OnlySundayOfLastWeek(y, October, e);
    }
  }

  /** Every year's window is non-empty: summer time starts before it ends. */
  lemma StartBeforeEnd(y: int)
    ensures DstWindow(y).start < DstWindow(y).end
  {
    var ds, de := LastSunday(y, March), LastSunday(y, October);
    WindowOnLastSundays(y);
    assert Ordinal(y, March, ds) < Ordinal(y, October, de);
  }

  /** A year's window ends before the next year's window starts. */
  lemma EndBeforeNextStart(y: int)
    ensures DstWindow(y).end < DstWindow(y + 1).start
  {
    var de, ds := LastSunday(y, October), LastSunday(y + 1, March);
    WindowOnLastSundays(y);
    WindowOnLastSundays(y + 1);
    DaysInYear(y);
    assert Ordinal(y, October, de) < Ordinal(y + 1, March, ds);
  }

  /** 2024: summer time runs from Sunday 31 March to Sunday 27 October. */
  lemma Example2024()
    ensures LastSunday(2024, March) == 31 && LastSunday(2024, October) == 27
    ensures DstWindow(2024) == Window(At(2024, 3, 31, 1), At(2024, 10, 27, 1))
  {
    WindowOnLastSundays(2024);
  }
}
