/**
  Python `datetime` values as an integer record: the proleptic Gregorian
  calendar, years 1 to 9999, microsecond precision, no time zone. A time
  difference (`timedelta`) is an integer number of microseconds.
*/
module Calendar {
  import opened Wrappers

  const MIN_YEAR := 1
  const MAX_YEAR := 9999
  const MICROS_PER_HOUR := 3_600_000_000
  const MICROS_PER_DAY := 86_400_000_000

  /** `timedelta.max` (999999999 days, 23:59:59.999999) in microseconds. */
  const TIMEDELTA_MAX := 86_399_999_999_999_999_999

  datatype DateTime = DateTime(year: int, month: int, day: int,
                               hour: int, minute: int, second: int, microsecond: int)
  {
    /** The values the `datetime` constructor accepts; any other raises ValueError. */
    predicate Valid() {
      && MIN_YEAR <= year <= MAX_YEAR
      && 1 <= month <= 12
      && 1 <= day <= DaysInMonth(year, month)
      && 0 <= hour < 24
      && 0 <= minute < 60
      && 0 <= second < 60
      && 0 <= microsecond < 1000000
    }
  }

  /** A value the `datetime` constructor accepts. */
  type Instant = dt: DateTime | dt.Valid() witness DateTime(1, 1, 1, 0, 0, 0, 0)

  predicate IsLeapYear(y: int) {
    y % 4 == 0 && (y % 100 != 0 || y % 400 == 0)
  }

  function DaysInMonth(y: int, m: int): (n: int)
    requires 1 <= m <= 12
    ensures 28 <= n <= 31
  {
    if m == 2 then (if IsLeapYear(y) then 29 else 28)
    else if m == 4 || m == 6 || m == 9 || m == 11 then 30
    else 31
  }

  function DaysInYear(y: int): int {
    if IsLeapYear(y) then 366 else 365
  }

  /** Days in the months of year `y` before month `m`, from the common-year table. */
  function DaysBeforeMonth(y: int, m: int): (n: nat)
    requires 1 <= m <= 12
  {
    [0, 31, 59, 90, 120, 151, 181, 212, 243, 273, 304, 334][m - 1]
    + (if m > 2 && IsLeapYear(y) then 1 else 0)
  }

  /** Days in the years before year `y`, counted from 0001-01-01. */
  function DaysBeforeYear(y: int): (n: nat)
    requires y >= 1
    decreases y
  {
    if y == 1 then 0 else DaysBeforeYear(y - 1) + DaysInYear(y - 1)
  }

  /** `date.toordinal()`: 0001-01-01 is day 1. */
  function Ordinal(dt: DateTime): int
    requires dt.year >= 1 && 1 <= dt.month <= 12
  {
    DaysBeforeYear(dt.year) + DaysBeforeMonth(dt.year, dt.month) + dt.day
  }

  /** The instant as microseconds since 0001-01-00 00:00 (only differences matter). */
  function Micros(dt: DateTime): int
    requires dt.year >= 1 && 1 <= dt.month <= 12
  {
    (((Ordinal(dt) * 24 + dt.hour) * 60 + dt.minute) * 60 + dt.second) * 1000000 + dt.microsecond
  }

  /** `abs(a - b)` as microseconds. */
  function Distance(a: DateTime, b: DateTime): (d: nat)
    requires a.Valid() && b.Valid()
    ensures d == 0 <==> Micros(a) == Micros(b)
  {
    if Micros(a) <= Micros(b) then Micros(b) - Micros(a) else Micros(a) - Micros(b)
  }

  lemma {:induction false} DaysBeforeYearBound(y: int)
    requires y >= 1
    ensures DaysBeforeYear(y) <= 366 * (y - 1)
  {
    if y > 1 {
      DaysBeforeYearBound(y - 1);
    }
  }

  /** Every valid instant lies in a range far narrower than `timedelta.max`. */
  lemma {:induction false} MicrosRange(dt: DateTime)
    requires dt.Valid()
    ensures 0 < Micros(dt) < 320_000_000_000_000_000
  {
    DaysBeforeYearBound(dt.year);
  }

  /** Any two valid instants are less than `timedelta.max` apart. */
  lemma {:induction false} DistanceBelowTimedeltaMax(a: DateTime, b: DateTime)
    requires a.Valid() && b.Valid()
    ensures Distance(a, b) < TIMEDELTA_MAX
  {
    MicrosRange(a);
    MicrosRange(b);
  }

  /**
    `dt - timedelta(days=1)`: the same time of day on the previous calendar
    day; None stands for the OverflowError raised on 0001-01-01.
  */
  function PrevDay(dt: DateTime): (r: Option<DateTime>)
    requires dt.Valid()
    ensures r.None? <==> dt.year == MIN_YEAR && dt.month == 1 && dt.day == 1
    ensures r.Some? ==> r.value.Valid() && Ordinal(r.value) == Ordinal(dt) - 1
    ensures r.Some? ==> r.value.hour == dt.hour && r.value.minute == dt.minute
                        && r.value.second == dt.second && r.value.microsecond == dt.microsecond
  {
    if dt.day > 1 then
      Some(dt.(day := dt.day - 1))
    else if dt.month > 1 then
      MonthStartOrdinal(dt);
      Some(dt.(month := dt.month - 1, day := DaysInMonth(dt.year, dt.month - 1)))
    else if dt.year > MIN_YEAR then
      YearStartOrdinal(dt);
      Some(dt.(year := dt.year - 1, month := 12, day := 31))
    else
      None
  }

  /** The previous day is exactly 24 hours earlier. */
  lemma {:induction false} PrevDayShift(dt: DateTime)
    requires dt.Valid() && PrevDay(dt).Some?
    ensures Micros(PrevDay(dt).value) == Micros(dt) - MICROS_PER_DAY
  {
    MicrosByOrdinal(PrevDay(dt).value, dt);
  }

  lemma {:induction false} MonthStartOrdinal(dt: DateTime)
    requires dt.Valid() && dt.day == 1 && dt.month > 1
    ensures var p := dt.(month := dt.month - 1, day := DaysInMonth(dt.year, dt.month - 1));
            p.Valid() && Ordinal(p) == Ordinal(dt) - 1
  {
  }

  lemma {:induction false} YearStartOrdinal(dt: DateTime)
    requires dt.Valid() && dt.day == 1 && dt.month == 1 && dt.year > MIN_YEAR
    ensures var p := dt.(year := dt.year - 1, month := 12, day := 31);
            p.Valid() && Ordinal(p) == Ordinal(dt) - 1
  {
  }

  /** Two instants with the same time of day are as far apart as their ordinals. */
  lemma {:induction false} MicrosByOrdinal(a: DateTime, b: DateTime)
    requires a.year >= 1 && 1 <= a.month <= 12 && b.year >= 1 && 1 <= b.month <= 12
    requires a.hour == b.hour && a.minute == b.minute && a.second == b.second && a.microsecond == b.microsecond
    requires Ordinal(b) == Ordinal(a) + 1
    ensures Micros(b) == Micros(a) + MICROS_PER_DAY
  {
  }

  /**
    `dt - timedelta(hours=1)`; None stands for the OverflowError raised
    during the first hour of 0001-01-01.
  */
  function PrevHour(dt: DateTime): (r: Option<DateTime>)
    requires dt.Valid()
    ensures r.None? <==> dt.year == MIN_YEAR && dt.month == 1 && dt.day == 1 && dt.hour == 0
    ensures r.Some? ==> r.value.Valid()
    ensures r.Some? ==> r.value.minute == dt.minute && r.value.second == dt.second
                        && r.value.microsecond == dt.microsecond
  {
    if dt.hour > 0 then
      Some(dt.(hour := dt.hour - 1))
    else
      match PrevDay(dt)
      case None => None
      case Some(p) => Some(p.(hour := 23))
  }

  /** The previous hour is exactly one hour earlier. */
  lemma {:induction false} PrevHourShift(dt: DateTime)
    requires dt.Valid() && PrevHour(dt).Some?
    ensures Micros(PrevHour(dt).value) == Micros(dt) - MICROS_PER_HOUR
  {
    if dt.hour == 0 {
      PrevDayShift(dt);
    }
  }
}
