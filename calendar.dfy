/**
 The proleptic Gregorian calendar as Python's `datetime` module computes it:
 a date is identified with its ordinal (0001-01-01 is day 1), the weekday is
 numbered from Monday == 0 to Sunday == 6, and an instant is a whole number
 of seconds since 1970-01-01T00:00:00Z.  Dates are only constructible for
 years 1 through 9999; outside that range `datetime(...)` raises.
 */
module Calendar {

  const MinYear := 1
  const MaxYear := 9999

  const SecondsPerMinute := 60
  const SecondsPerHour := 3600
  const SecondsPerDay := 86400

  /** Python's `weekday()` numbering. */
  const Sunday := 6

  /** The ordinal of 1970-01-01, the day Unix time counts from. */
  const EpochOrdinal := 719163

  /** The error `datetime(...)` raises for a year outside 1..9999. */
  datatype DateError = YearOutOfRange

  datatype Result<T> = Ok(value: T) | Err(error: DateError)

  predicate ValidYear(y: int) {
    MinYear <= y <= MaxYear
  }

  predicate IsLeap(y: int) {
    y % 4 == 0 && (y % 100 != 0 || y % 400 == 0)
  }

  /** Number of days in all years before year `y`. */
  function DaysBeforeYear(y: int): int {
    var p := y - 1;
    p * 365 + p / 4 - p / 100 + p / 400
  }

  /** Number of days in year `y` before the first of month `m`. */
  function DaysBeforeMonth(y: int, m: int): int
    requires 1 <= m <= 12
  {
    [0, 31, 59, 90, 120, 151, 181, 212, 243, 273, 304, 334][m - 1]
    + (if m > 2 && IsLeap(y) then 1 else 0)
  }

  /** The ordinal of the date y-m-d (Python's `date.toordinal`). */
  function Ordinal(y: int, m: int, d: int): int
    requires 1 <= m <= 12
  {
    DaysBeforeYear(y) + DaysBeforeMonth(y, m) + d
  }

  /** The weekday of a day ordinal, Monday == 0 (Python's `date.weekday`). */
  function Weekday(ordinal: int): (w: int)
    ensures 0 <= w < 7
  {
    (ordinal + 6) % 7
  }

  /** The instant y-m-d h:00:00 UTC, in seconds since the Unix epoch. */
  function At(y: int, m: int, d: int, h: int): int
    requires 1 <= m <= 12
  {
    (Ordinal(y, m, d) - EpochOrdinal) * SecondsPerDay + h * SecondsPerHour
  }

  /** The ordinal of the UTC calendar date on which instant `t` falls. */
  function DayOf(t: int): int {
    t / SecondsPerDay + EpochOrdinal
  }

  /** The weekday of the UTC calendar date of instant `t`. */
  function WeekdayAt(t: int): int {
    Weekday(DayOf(t))
  }

  lemma EpochIsDayOne()
    ensures Ordinal(1970, 1, 1) == EpochOrdinal
    ensures At(1970, 1, 1, 0) == 0
  {
  }

  /** An instant given by a date and an hour of that day falls on that date. */
  lemma DayOfAt(y: int, m: int, d: int, h: int)
    requires 1 <= m <= 12 && 0 <= h < 24
    ensures DayOf(At(y, m, d, h)) == Ordinal(y, m, d)
    ensures At(y, m, d, h) % SecondsPerDay == h * SecondsPerHour
  {
    var a := Ordinal(y, m, d) - EpochOrdinal;
    var r := h * SecondsPerHour;
    assert 0 <= r < SecondsPerDay;
    DivModOfSum(a, r);
  }

  lemma DivModOfSum(a: int, r: int)
    requires 0 <= r < SecondsPerDay
    ensures (a * SecondsPerDay + r) / SecondsPerDay == a
    ensures (a * SecondsPerDay + r) % SecondsPerDay == r
  {
  }

  /** An instant is its UTC date plus its time of day. */
  lemma InstantOfDay(t: int)
    ensures t == (DayOf(t) - EpochOrdinal) * SecondsPerDay + t % SecondsPerDay
    ensures forall u :: u <= t ==> DayOf(u) <= DayOf(t)
  {
  }

  /** Subtracting one whole day from an instant moves its weekday back by one. */
  lemma WeekdayOfPreviousDay(t: int)
    ensures WeekdayAt(t - SecondsPerDay) == (WeekdayAt(t) + 6) % 7
    ensures (t - SecondsPerDay) % SecondsPerDay == t % SecondsPerDay
  {
    DivModOfSum(t / SecondsPerDay - 1, t % SecondsPerDay);
  }

  /** The weekday `k` days (at most a week) before day `o`. */
  lemma WeekdayBefore(o: int, k: int)
    requires 0 <= k <= 6
    ensures Weekday(o - k) == (Weekday(o) - k + 7) % 7
  {
    var x := o + 6;
    DivModSeven(x / 7, x % 7 - k);
  }

  lemma DivModSeven(q: int, r: int)
    requires -7 <= r < 7
    ensures (q * 7 + r) % 7 == (r + 7) % 7
  {
    if r < 0 {
      assert q * 7 + r == (q - 1) * 7 + (r + 7);
    }
  }

  /** A year has 366 days if it is a leap year and 365 otherwise. */
  lemma DaysInYear(y: int)
    ensures DaysBeforeYear(y + 1) - DaysBeforeYear(y) == if IsLeap(y) then 366 else 365
  {
    DivStep(y, 4);
    DivStep(y, 100);
    DivStep(y, 400);
  }

  /** Floor division by `n` grows by one exactly at the multiples of `n`. */
  lemma DivStep(y: int, n: int)
    requires n == 4 || n == 100 || n == 400
    ensures y / n - (y - 1) / n == if y % n == 0 then 1 else 0
  {
  }

  /** Within a month, consecutive day numbers are consecutive ordinals. */
  lemma OrdinalOfEarlierDay(y: int, m: int, d: int, k: int)
    requires 1 <= m <= 12
    ensures Ordinal(y, m, d - k) == Ordinal(y, m, d) - k
    ensures At(y, m, d - k, 1) == At(y, m, d, 1) - k * SecondsPerDay
  {
  }
}
