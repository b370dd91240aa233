/**
 The arithmetic of `WorldClockApp.update_time`: which summer-time boundary
 comes next, how long until it in whole days, hours and minutes, and the
 colour of the countdown label.  `now` is the current instant in Unix
 seconds and `year` is the calendar year of `now` in local (Berlin) time,
 which the clock reads from the time-zone database.
 */
module Countdown {
  import opened Calendar
  import opened DstDates

  /** Fewer whole days than this turn the countdown label red. */
  const AlertDays := 30

  datatype Colour = Red | Brown

  /** A span of time as `timedelta.days`, whole hours and whole minutes. */
  datatype Duration = Duration(days: int, hours: int, minutes: int)

  /** What the countdown label shows. */
  datatype Countdown = Countdown(nextChange: int, remaining: Duration, colour: Colour)

  /** The number of seconds a duration spells out. */
  function Seconds(d: Duration): int {
    d.days * SecondsPerDay + d.hours * SecondsPerHour + d.minutes * SecondsPerMinute
  }

  /**
   The next boundary: this year's start if it is still ahead, otherwise this
   year's end, and next year's start once this year's end has passed.
   Building a `datetime` for year 10000 fails.
   */
  function NextChange(now: int, year: int): (r: Result<int>)
    ensures r.Ok? <==> ValidYear(year) && (now > DstWindow(year).end ==> ValidYear(year + 1))
    ensures r.Err? ==> r.error == YearOutOfRange
    ensures r.Ok? && now < DstWindow(year).start ==> r.value == DstWindow(year).start
    ensures r.Ok? && DstWindow(year).start <= now <= DstWindow(year).end ==> r.value == DstWindow(year).end
    ensures r.Ok? && now > DstWindow(year).end ==> r.value == DstWindow(year + 1).start
  {
    if !ValidYear(year) then Err(YearOutOfRange)
    else
      var w := DstWindow(year);
      StartBeforeEnd(year);
      var next := if now < w.start then w.start else w.end;
      if now > w.end then
        if ValidYear(year + 1) then Ok(DstWindow(year + 1).start) else Err(YearOutOfRange)
      else
        Ok(next)
  }

  /**
   Splits a number of seconds as `timedelta` normalises it (days rounded
   down, then 0 <= seconds < 86400), followed by `divmod(seconds, 3600)` and
   `remainder // 60`.
   */
  function Split(total: int): (d: Duration)
    ensures 0 <= d.hours < 24 && 0 <= d.minutes < 60
    ensures Seconds(d) <= total < Seconds(d) + SecondsPerMinute
  {
    var days := total / SecondsPerDay;
    var seconds := total % SecondsPerDay;
    var hours := seconds / SecondsPerHour;
    var remainder := seconds % SecondsPerHour;
    Duration(days, hours, remainder / SecondsPerMinute)
  }

  /** The colour of the countdown label for a number of remaining days. */
  function AlertColour(days: int): Colour {
    if days < AlertDays then Red else Brown
  }

  /** The whole countdown computed on one refresh. */
  function UpdateCountdown(now: int, year: int): (r: Result<Countdown>)
    ensures r.Ok? <==> NextChange(now, year).Ok?
    ensures r.Err? ==> r.error == YearOutOfRange
    ensures r.Ok? ==>
      var c := r.value;
      && c.nextChange == NextChange(now, year).value
      && 0 <= c.remaining.hours < 24 && 0 <= c.remaining.minutes < 60
      && Seconds(c.remaining) <= c.nextChange - now < Seconds(c.remaining) + SecondsPerMinute
      && (c.colour == Red <==> c.nextChange - now < AlertDays * SecondsPerDay)
  {
    match NextChange(now, year)
    case Err(e) => Err(e)
    case Ok(next) =>
      var remaining := Split(next - now);
      Ok(Countdown(next, remaining, AlertColour(remaining.days)))
  }

  /**
   The arithmetic part of `update_time`, over the imperative
   `get_dst_dates`: choose the next boundary, subtract `now`, split the
   difference and pick the label colour.
   */
  method ComputeCountdown(now: int, year: int) returns (r: Result<Countdown>)
    ensures r == UpdateCountdown(now, year)
  {
    var dates := GetDstDates(year);
    if dates.Err? {
      return Err(dates.error);
    }
    var dstStart, dstEnd := dates.value.start, dates.value.end;
    var nextChange := if now < dstStart then dstStart else dstEnd;
    if now > dstEnd {
      var following := GetDstDates(year + 1);
      if following.Err? {
        return Err(following.error);
      }
      nextChange := following.value.start;
    }
    var timeUntilChange := nextChange - now;
    var remaining := Split(timeUntilChange);
    return Ok(Countdown(nextChange, remaining, AlertColour(remaining.days)));
  }

  /**
   The split is the only one with hours and minutes in range that accounts
   for the total up to the dropped seconds.
   */
  lemma SplitIsUnique(total: int, d: Duration)
    ensures (&& 0 <= d.hours < 24 && 0 <= d.minutes < 60
             && Seconds(d) <= total < Seconds(d) + SecondsPerMinute)
            <==> d == Split(total)
  {
    if 0 <= d.hours < 24 && 0 <= d.minutes < 60 && Seconds(d) <= total < Seconds(d) + SecondsPerMinute {
      var s := Split(total);
      var withinDay := d.hours * SecondsPerHour + d.minutes * SecondsPerMinute;
      assert 0 <= withinDay < SecondsPerDay - SecondsPerMinute + 1;
      assert d.days == s.days by {
        DivModOfSum(d.days, total - d.days * SecondsPerDay);
      }
      assert d.hours == s.hours;
      assert d.minutes == s.minutes;
    }
  }

  /** Red exactly when fewer than thirty whole days, 2592000 seconds, remain. */
  lemma AlertWhenUnderThirtyDays(total: int)
    ensures AlertColour(Split(total).days) == Red <==> total < AlertDays * SecondsPerDay
  {
  }

  /**
   If `year` is the local calendar year of `now` under any UTC offset
   greater than minus one day (Berlin's is one or two hours ahead), `now`
   is before January 2 of the following year, 00:00 UTC, and that is
   before the following year's summer-time start.
   */
  lemma LocalYearPrecedesNextStart(now: int, year: int)
    requires now < At(year + 1, 1, 2, 0)
    ensures now < DstWindow(year + 1).start
  {
    WindowAreChangeInstants(year + 1);
  }

  /**
   For a `year` that is the local year of `now`, the countdown is never
   negative, nor are its whole days, and it is zero only at the instant
   summer time ends.
   */
  lemma CountdownNonNegative(now: int, year: int)
    requires now < At(year + 1, 1, 2, 0)
    ensures UpdateCountdown(now, year).Ok? ==>
      var c := UpdateCountdown(now, year).value;
      && c.nextChange - now >= 0
      && c.remaining.days >= 0
      && (c.nextChange == now <==> now == DstWindow(year).end)
  {
    LocalYearPrecedesNextStart(now, year);
  }

  /**
   From one second to the next the target stays the same, and the
   countdown drops by one second, except when `now + 1` reaches this year's
   start or `now` is this year's end.
   */
  lemma CountdownTicks(now: int, year: int)
    ensures now + 1 != DstWindow(year).start && now != DstWindow(year).end ==>
      NextChange(now + 1, year) == NextChange(now, year)
    ensures now + 1 != DstWindow(year).start && now != DstWindow(year).end && NextChange(now, year).Ok? ==>
      NextChange(now + 1, year).value - (now + 1) == NextChange(now, year).value - now - 1
  {
  }

  /** In 2024 the countdown from midnight, January 1, local time (CET). */
  lemma ExampleNewYear2024()
    ensures UpdateCountdown(At(2023, 12, 31, 23), 2024)
         == Ok(Countdown(At(2024, 3, 31, 1), Duration(90, 2, 0), Brown))
  {
    Example2024();
    var now := At(2023, 12, 31, 23);
    assert now == 1704063600;
    assert DstWindow(2024).start == 1711846800;
    assert NextChange(now, 2024) == Ok(1711846800);
    assert Split(1711846800 - now) == Duration(90, 2, 0);
  }

  /** From midnight, November 1, 2024 (CET) the target rolls over to 2025. */
  lemma ExampleRollOver2024()
    ensures UpdateCountdown(At(2024, 10, 31, 23), 2024)
         == Ok(Countdown(At(2025, 3, 30, 1), Duration(149, 2, 0), Brown))
  {
    Example2024();
    var now := At(2024, 10, 31, 23);
    assert now == 1730415600;
    assert DstWindow(2024).end == 1729990800;
    assert LastSunday(2025, March) == 30;
    assert DstWindow(2025).start == 1743296400;
    assert NextChange(now, 2024) == Ok(1743296400);
    assert Split(1743296400 - now) == Duration(149, 2, 0);
  }

  /** After the last window `datetime` can represent there is no next change. */
  lemma LastYearHasNoRollOver(now: int)
    requires now > DstWindow(MaxYear).end
    ensures UpdateCountdown(now, MaxYear) == Err(YearOutOfRange)
  {
  }
}
