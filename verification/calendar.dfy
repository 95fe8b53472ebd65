/** Proleptic Gregorian date-times as integer fields, the instant they denote
    and the minute floor used to bucket events. */
module Calendar {

  /** A calendar date and a time of day, to the second. */
  datatype DateTime = DateTime(year: int, month: int, day: int, hour: int, minute: int, second: int)

  predicate IsLeapYear(y: int) {
    y % 4 == 0 && (y % 100 != 0 || y % 400 == 0)
  }

  function DaysInYear(y: int): int {
    if IsLeapYear(y) then 366 else 365
  }

  function DaysInMonth(y: int, m: int): (n: int)
    requires 1 <= m <= 12
    ensures 28 <= n <= 31
  {
    if m == 2 then (if IsLeapYear(y) then 29 else 28)
    else if m == 4 || m == 6 || m == 9 || m == 11 then 30
    else 31
  }

  /** The fields name an existing second: a month of the table, a day that
      exists in that month of that year, hour 0-23, minute and second 0-59. */
  predicate Valid(t: DateTime) {
    && 1 <= t.year <= 9999
    && 1 <= t.month <= 12
    && 1 <= t.day <= DaysInMonth(t.year, t.month)
    && 0 <= t.hour <= 23
    && 0 <= t.minute <= 59
    && 0 <= t.second <= 59
  }

  /** Days from 0001-01-01 to the first day of year `y`. */
  function DaysBeforeYear(y: int): nat
    requires y >= 1
  {
    if y == 1 then 0 else DaysBeforeYear(y - 1) + DaysInYear(y - 1)
  }

  /** Days from the first of January to the first day of month `m`. */
  function DaysBeforeMonth(y: int, m: int): nat
    requires 1 <= m <= 13
  {
    if m == 1 then 0 else DaysBeforeMonth(y, m - 1) + DaysInMonth(y, m - 1)
  }

  /** The twelve months make up the year. */
  lemma MonthsFillYear(y: int)
    ensures DaysBeforeMonth(y, 13) == DaysInYear(y)
  {
    var leap := if IsLeapYear(y) then 1 else 0;
    assert DaysBeforeMonth(y, 2) == 31;
    assert DaysBeforeMonth(y, 3) == 59 + leap;
    assert DaysBeforeMonth(y, 4) == 90 + leap;
    assert DaysBeforeMonth(y, 5) == 120 + leap;
    assert DaysBeforeMonth(y, 6) == 151 + leap;
    assert DaysBeforeMonth(y, 7) == 181 + leap;
    assert DaysBeforeMonth(y, 8) == 212 + leap;
    assert DaysBeforeMonth(y, 9) == 243 + leap;
    assert DaysBeforeMonth(y, 10) == 273 + leap;
    assert DaysBeforeMonth(y, 11) == 304 + leap;
    assert DaysBeforeMonth(y, 12) == 334 + leap;
  }

  /** Days from 0001-01-01 to the date of `t`. */
  function DayNumber(t: DateTime): nat
    requires Valid(t)
  {
    DaysBeforeYear(t.year) + DaysBeforeMonth(t.year, t.month) + (t.day - 1)
  }

  /** The instant `t` denotes, in seconds since 0001-01-01 00:00:00. */
  function EpochSeconds(t: DateTime): nat
    requires Valid(t)
  {
    ((DayNumber(t) * 24 + t.hour) * 60 + t.minute) * 60 + t.second
  }

  /** Lexicographic order of the fields: year, month, day, hour, minute,
      second. */
  predicate Before(a: DateTime, b: DateTime) {
    if a.year != b.year then a.year < b.year
    else if a.month != b.month then a.month < b.month
    else if a.day != b.day then a.day < b.day
    else if a.hour != b.hour then a.hour < b.hour
    else if a.minute != b.minute then a.minute < b.minute
    else a.second < b.second
  }

  /** `t` truncated to the start of its minute: the `floor("min")` of the
      instant. */
  function FloorMinute(t: DateTime): (f: DateTime)
    requires Valid(t)
    ensures Valid(f)
    ensures EpochSeconds(f) % 60 == 0
    ensures EpochSeconds(f) <= EpochSeconds(t) < EpochSeconds(f) + 60
  {
    t.(second := 0)
  }

  /** The minute floor is the instant rounded down to a whole minute. */
  lemma FloorMinuteRoundsDown(t: DateTime)
    requires Valid(t)
    ensures EpochSeconds(FloorMinute(t)) == EpochSeconds(t) - EpochSeconds(t) % 60
  {
    var f := FloorMinute(t);
    var s := EpochSeconds(t);
    assert s == EpochSeconds(f) + t.second;
    assert EpochSeconds(f) == ((DayNumber(t) * 24 + t.hour) * 60 + t.minute) * 60;
  }

  /** The days of a valid date stay inside its month and its year. */
  lemma DayNumberBounds(t: DateTime)
    requires Valid(t)
    ensures DaysBeforeYear(t.year) <= DayNumber(t) < DaysBeforeYear(t.year) + DaysInYear(t.year)
  {
    MonthsFillYear(t.year);
    DaysBeforeMonthMonotone(t.year, t.month, 13);
  }

  lemma {:induction false} DaysBeforeYearMonotone(y1: int, y2: int)
    requires 1 <= y1 < y2
    ensures DaysBeforeYear(y1) + DaysInYear(y1) <= DaysBeforeYear(y2)
    decreases y2 - y1
  {
    if y1 + 1 < y2 {
      DaysBeforeYearMonotone(y1 + 1, y2);
    }
  }

  lemma {:induction false} DaysBeforeMonthMonotone(y: int, m1: int, m2: int)
    requires 1 <= m1 < m2 <= 13
    ensures DaysBeforeMonth(y, m1) + DaysInMonth(y, m1) <= DaysBeforeMonth(y, m2)
    decreases m2 - m1
  {
    if m1 + 1 < m2 {
      DaysBeforeMonthMonotone(y, m1 + 1, m2);
    }
  }

  /** Earlier fields mean an earlier instant: the field order and the order
      of instants agree on valid date-times. */
  lemma BeforeIsEarlier(a: DateTime, b: DateTime)
    requires Valid(a) && Valid(b) && Before(a, b)
    ensures EpochSeconds(a) < EpochSeconds(b)
  {
    if a.year != b.year {
      DayNumberBounds(a);
      DayNumberBounds(b);
      DaysBeforeYearMonotone(a.year, b.year);
    } else if a.month != b.month {
      DaysBeforeMonthMonotone(a.year, a.month, b.month);
    }
    if DayNumber(a) < DayNumber(b) {
      DayOrderDominates(DayNumber(a), a.hour, a.minute, a.second, DayNumber(b), b.hour, b.minute, b.second);
    }
  }

  /** A later day outweighs any time of day. */
  lemma DayOrderDominates(d1: nat, h1: int, m1: int, s1: int, d2: nat, h2: int, m2: int, s2: int)
    requires d1 < d2
    requires 0 <= h1 <= 23 && 0 <= m1 <= 59 && 0 <= s1 <= 59
    requires 0 <= h2 <= 23 && 0 <= m2 <= 59 && 0 <= s2 <= 59
    ensures ((d1 * 24 + h1) * 60 + m1) * 60 + s1 < ((d2 * 24 + h2) * 60 + m2) * 60 + s2
  {
    assert d1 * 24 + h1 < d2 * 24 + h2;
    assert (d1 * 24 + h1) * 60 + m1 < (d2 * 24 + h2) * 60 + m2;
  }

  /** Distinct valid date-times are distinct instants, so grouping by the
      fields groups by the instant. */
  lemma EpochSecondsInjective(a: DateTime, b: DateTime)
    requires Valid(a) && Valid(b) && EpochSeconds(a) == EpochSeconds(b)
    ensures a == b
  {
    if Before(a, b) {
      BeforeIsEarlier(a, b);
    } else if Before(b, a) {
      BeforeIsEarlier(b, a);
    }
  }
}
