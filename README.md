# Summer-time clock: the window and the countdown

`summer.py` is a desktop clock in a single file. It shows Berlin time, UTC,
Unix time, whether summer time (DST) is in effect, and a countdown to the
next summer-time change. This project models the two parts of it that
compute something:

- `WorldClockApp.get_dst_dates` finds a year's summer-time window. The EU
  rule is the last Sunday of March and the last Sunday of October, both at
  01:00 UTC. The source starts on the 31st at 01:00 UTC and steps back one
  day at a time until `weekday() == 6` (Sunday). Module `DstDates`.
- The arithmetic in `WorldClockApp.update_time` picks the next change
  (this year's start, this year's end, or next year's start). It subtracts
  `now` and splits the difference into `timedelta.days`,
  `divmod(seconds, 3600)` and `// 60`. The label turns red when fewer than
  30 days remain. Module `Countdown`.

Module `Calendar` holds the date arithmetic these rest on. It follows
Python's `datetime` exactly: the ordinal of a date is days-before-year plus
days-before-month plus the day, the weekday is `(ordinal + 6) % 7` with
Monday = 0, and years run from 1 to 9999. An instant is a whole number of
seconds since 1970-01-01T00:00:00Z.

`get_dst_dates` keeps its two loops as a method (`WalkBackToSunday`, called
once from March 31 and once from October 31, at 01:00 UTC). The loop is
proved against a closed-form specification, `SundayOnOrBefore`. Lemmas then
tie that instant to the calendar: it is 01:00 UTC on the last Sunday of
the month. The update arithmetic is written
as pure functions. `ComputeCountdown` follows `update_time` line by line
over the imperative `GetDstDates` and is proved equal to them.

`datetime(year, ...)` raises for a year outside 1..9999. The model returns
`Err(YearOutOfRange)` in that case instead of forbidding it. The only time
the clock can reach this error is after the end of summer time in 9999,
when it asks for the window of year 10000.

From 2024-01-01 00:00 Berlin time the countdown is 90 days, 2 hours and
0 minutes (`ExampleNewYear2024`).

## Model

| member | source | states |
|---|---|---|
| `DstDates.SundayOnOrBefore` | summer.py:72-73 | the instant reached is a Sunday, at the same time of day as the starting instant, and at most six days before it |
| `DstDates.OnlySundayOfWeek` | summer.py:72-73 | of the starting instant and the six instants one to six days before it, exactly one is on a Sunday, the one `SundayOnOrBefore` gives |
| `DstDates.WalkBackToSunday` | summer.py:72-78 | the loop that subtracts one day while the weekday is not Sunday stops, after at most six steps, at `SundayOnOrBefore` of its starting instant |
| `DstDates.GetDstDates` | summer.py:68-82 | returns a window exactly when the year is in 1..9999 (otherwise YearOutOfRange); the window is `DstWindow` of the year, the walk back from March 31 and from October 31 of the year, at 01:00 UTC |
| `DstDates.LastSunday` | summer.py:70-78 | the day of the month of the last Sunday of March or October is one of the 25th to the 31st and is a Sunday |
| `DstDates.OnlySundayOfLastWeek` | summer.py:70-78 | among the 25th to the 31st, a day is a Sunday if and only if it is that last Sunday |
| `DstDates.WalkBackEndsOnLastSunday` | summer.py:71-78 | walking back from the 31st at 01:00 UTC ends at 01:00 UTC on the last Sunday of the month |
| `DstDates.WindowOnLastSundays` | summer.py:68-82 | the window `DstWindow` (the specification of what `get_dst_dates` returns) is the last Sunday of March and the last Sunday of October of the year, both at 01:00 UTC |
| `DstDates.ChangeInstantIsLastSunday` | summer.py:71-78 | an instant is a Sunday at 01:00 UTC in the last seven days of the month if and only if it is the instant the walk back returns |
| `DstDates.WindowAreChangeInstants` | summer.py:71-78 | the start is a Sunday at 01:00 UTC between March 25 and March 31 of the year; the end is the same for October |
| `DstDates.NoLaterSunday` | summer.py:72-78 | no calendar day after the start, up to March 31, is a Sunday; no day after the end, up to October 31, is one either |
| `DstDates.StartBeforeEnd` | summer.py:71-78 | in every year summer time starts strictly before it ends |
| `DstDates.EndBeforeNextStart` | summer.py:99-101 | a year's end is strictly before the next year's start, so rolling over to next year's start moves forward in time |
| `DstDates.Example2024` | summer.py:68-82 | for 2024 the window is Sunday 31 March to Sunday 27 October, at 01:00 UTC |
| `Calendar.Weekday` | summer.py:72 | `weekday()`, computed by `WeekdayAt` from the UTC date of an instant, is a number from 0 (Monday) to 6 (Sunday) |
| `Calendar.DayOfAt` | summer.py:71 | the instant `At` of a given date and hour, as `datetime(year, m, 31, 1, tzinfo=pytz.utc)` builds it, falls on that date, at that hour of the day |
| `Calendar.WeekdayOfPreviousDay` | summer.py:73 | subtracting one day keeps the time of day and moves the weekday back by one |
| `Countdown.NextChange` | summer.py:99-101 | before the start the next change is the start; from the start to the end inclusive it is the end; after the end it is next year's start; the result is an error exactly when the year is out of range or next year would be 10000 |
| `Countdown.Split` | summer.py:103-106 | the hours are 0..23 and the minutes 0..59, and days, hours and minutes account for the total seconds to within the dropped seconds (less than 60) |
| `Countdown.SplitIsUnique` | summer.py:104-106 | a days/hours/minutes triple satisfies those bounds if and only if it is the split that was computed |
| `Countdown.AlertWhenUnderThirtyDays` | summer.py:117 | the colour `AlertColour` picks from the whole days of the split is red exactly when fewer than 30 days (2592000 seconds) remain, and brown otherwise |
| `Countdown.UpdateCountdown` | summer.py:96-117 | the label's next change, its in-range hours and minutes, its days/hours/minutes bounding the remaining seconds, and its colour (red exactly when fewer than 30 days remain) |
| `Countdown.ComputeCountdown` | summer.py:96-106 | running the update arithmetic over the imperative window calculator gives exactly the specified countdown, errors included |
| `Countdown.LocalYearPrecedesNextStart` | summer.py:96 | a local year read under any UTC offset above minus one day puts `now` before next year's start |
| `Countdown.CountdownNonNegative` | summer.py:99-103 | when the year is the local year of `now`, the remaining time and its whole days are never negative, and the remaining time is zero exactly when `now` is this year's end |
| `Countdown.CountdownTicks` | summer.py:99-103 | one second later the target is unchanged and the remaining time is one second less, except where `now + 1` reaches the start or `now` is the end |
| `Countdown.ExampleNewYear2024` | summer.py:96-117 | from 2024-01-01 00:00 Berlin time the next change is 2024-03-31 01:00 UTC, 90 days 2 hours 0 minutes away, shown in brown |
| `Countdown.ExampleRollOver2024` | summer.py:99-106 | from 2024-11-01 00:00 Berlin time the next change rolls over to 2025-03-30 01:00 UTC, 149 days 2 hours 0 minutes away |
| `Countdown.LastYearHasNoRollOver` | summer.py:100-101 | after the end of summer time in 9999 no countdown can be computed, because year 10000 cannot be built |

## Left out

- The Tk window: labels, fonts, the colour dictionary and the layout (summer.py:7-66). This is user interface only.
- The one-second refresh through `root.after` and `mainloop` (summer.py:120, 122-125). This is event-loop scheduling; each refresh is modelled as one call of `ComputeCountdown`.
- Reading the clock with `datetime.now` and `time.time()` (summer.py:86, 89). The current instant `now` is a parameter.
- The Europe/Berlin conversion through pytz. This covers `astimezone` (summer.py:81-82, 88) and the summer-time flag `now_cet.dst()` (summer.py:92-93). They depend on an external time-zone database. The model works on UTC instants, because comparing and subtracting zone-aware datetimes works on instants. The local year (summer.py:96) is a parameter. The model does not claim that the database's flag agrees with the computed window.
- Label text formatting with `strftime` and f-strings (summer.py:109-116). This is presentation only.
- Sub-second parts of `timedelta`. `now` is a whole number of seconds, the clock read with its microseconds dropped. Away from this year's end, a fractional `now` gives the days, hours and minutes of the whole-second difference one second shorter. During the second that begins at this year's end the real clock, read to the microsecond, is already past the end (summer.py:100) and shows next year's start; the model's zero countdown at `now` equal to the end is reached only when the microseconds are exactly zero.
- `Countdown.CountdownNonNegative`: assumes `now` is before January 2 of the following year, 00:00 UTC. A local year read from `now` guarantees this. Called with an arbitrary year, the source can give a negative countdown.
