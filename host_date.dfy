/** The host's `Date` facility as the Gregorian month view uses it:
    `new Date(year, month - 1, 1).getDay()` and `new Date(year, month, 0).getDate()`.
    Dates are proleptic Gregorian; a year argument in 0..99 is read as 1900..1999,
    as the `Date` constructor does. */
module HostDate {

  /** The year the `Date(year, monthIndex, day)` constructor really uses. */
  function ConstructorYear(year: int): (y: int)
    ensures 0 <= year <= 99 ==> y == 1900 + year
    ensures (year < 0 || year > 99) ==> y == year
  {
    if 0 <= year <= 99 then 1900 + year else year
  }

  predicate IsLeapYear(year: int) {
    year % 4 == 0 && (year % 100 != 0 || year % 400 == 0)
  }

  /** Number of days of `month` (1..12) in `year`. */
  function DaysInMonth(year: int, month: int): (n: int)
    requires 1 <= month <= 12
    ensures 28 <= n <= 31
    ensures n == 31 <==> month in {1, 3, 5, 7, 8, 10, 12}
    ensures n == 30 <==> month in {4, 6, 9, 11}
    ensures month == 2 ==> (n == 29 <==> IsLeapYear(year))
  {
    if month == 2 then (if IsLeapYear(year) then 29 else 28)
    else if month in {4, 6, 9, 11} then 30
    else 31
  }

  /** Days of `year` that come before the first of `month`; month 13 stands for
      the first of January of the next year. */
  function DaysBeforeMonth(year: int, month: int): int
    requires 1 <= month <= 13
  {
    var common := [0, 31, 59, 90, 120, 151, 181, 212, 243, 273, 304, 334, 365][month - 1];
    if month > 2 && IsLeapYear(year) then common + 1 else common
  }

  /** Days from 0001-01-01 to the first of January of `year`. */
  function DaysBeforeYear(year: int): int {
    var z := year - 1;
    365 * z + z / 4 - z / 100 + z / 400
  }

  /** Days from 0001-01-01 (a Monday) to the given date. */
  function DayNumber(year: int, month: int, day: int): int
    requires 1 <= month <= 12
  {
    DaysBeforeYear(year) + DaysBeforeMonth(year, month) + day - 1
  }

  /** `getDay()`: 0 is Sunday, 6 is Saturday. */
  function Weekday(year: int, month: int, day: int): (w: int)
    requires 1 <= month <= 12
    ensures 0 <= w < 7
  {
    (DayNumber(year, month, day) + 1) % 7
  }

  /** The months of a year add up to its length, and each month's first day comes
      one month length after the first day of the month before. */
  lemma MonthStarts(year: int, month: int)
    requires 1 <= month <= 12
    ensures DaysBeforeMonth(year, month + 1) == DaysBeforeMonth(year, month) + DaysInMonth(year, month)
    ensures DaysBeforeMonth(year, 13) == if IsLeapYear(year) then 366 else 365
  {
  }

  /** Going from one year to the next advances the day number by that year's length. */
  lemma NextYearStart(year: int)
    ensures DaysBeforeYear(year + 1) == DaysBeforeYear(year) + DaysBeforeMonth(year, 13)
  {
    MonthStarts(year, 12);
    var z := year - 1;
    DivStep4(z);
    DivStep100(z);
    DivStep400(z);
    MultiplesNest(year);
    var a := if year % 4 == 0 then 1 else 0;
    var b := if year % 100 == 0 then 1 else 0;
    var c := if year % 400 == 0 then 1 else 0;
    assert DaysBeforeYear(year + 1) == DaysBeforeYear(year) + 365 + a - b + c;
    assert 365 + a - b + c == if IsLeapYear(year) then 366 else 365;
  }

  /** A multiple of 400 is a multiple of 100, and a multiple of 100 one of 4. */
  lemma MultiplesNest(y: int)
    ensures y % 400 == 0 ==> y % 100 == 0
    ensures y % 100 == 0 ==> y % 4 == 0
  {
    if y % 400 == 0 {
      MultipleOf100(y, 4 * (y / 400));
    }
    if y % 100 == 0 {
      MultipleOf4(y, 25 * (y / 100));
    }
  }

  lemma MultipleOf100(y: int, k: int)
    requires y == 100 * k
    ensures y % 100 == 0
  {
  }

  lemma MultipleOf4(y: int, k: int)
    requires y == 4 * k
    ensures y % 4 == 0
  {
  }

  lemma DivStep4(z: int)
    ensures (z + 1) / 4 == z / 4 + (if (z + 1) % 4 == 0 then 1 else 0)
  {
    var q, r := z / 4, z % 4;
    assert z == 4 * q + r;
    if r == 3 { assert z + 1 == 4 * (q + 1); } else { assert z + 1 == 4 * q + (r + 1); }
  }

  lemma DivStep100(z: int)
    ensures (z + 1) / 100 == z / 100 + (if (z + 1) % 100 == 0 then 1 else 0)
  {
    var q, r := z / 100, z % 100;
    assert z == 100 * q + r;
    if r == 99 { assert z + 1 == 100 * (q + 1); } else { assert z + 1 == 100 * q + (r + 1); }
  }

  lemma DivStep400(z: int)
    ensures (z + 1) / 400 == z / 400 + (if (z + 1) % 400 == 0 then 1 else 0)
  {
    var q, r := z / 400, z % 400;
    assert z == 400 * q + r;
    if r == 399 { assert z + 1 == 400 * (q + 1); } else { assert z + 1 == 400 * q + (r + 1); }
  }

  /** The first of a month falls on the weekday after the last day of the month
      before: month grids follow on from each other, across year ends too. */
  lemma WeekdayOfNextMonth(year: int, month: int)
    requires 1 <= month <= 12
    ensures month < 12 ==>
      Weekday(year, month + 1, 1) == (Weekday(year, month, 1) + DaysInMonth(year, month)) % 7
    ensures month == 12 ==>
      Weekday(year + 1, 1, 1) == (Weekday(year, 12, 1) + 31) % 7
  {
    MonthStarts(year, month);
    if month == 12 {
      NextYearStart(year);
      ModAdd7(DayNumber(year, 12, 1) + 1, 31);
    } else {
      ModAdd7(DayNumber(year, month, 1) + 1, DaysInMonth(year, month));
    }
  }

  lemma ModAdd7(a: int, b: int)
    ensures (a + b) % 7 == (a % 7 + b) % 7
  {
    var q := a / 7;
    assert a == 7 * q + a % 7;
    assert a + b == 7 * q + (a % 7 + b);
  }

  /** A check of the arithmetic against the calendar: 2024-01-01 was a Monday. */
  lemma NewYear2024IsMonday()
    ensures Weekday(2024, 1, 1) == 1
  {
  }

  /** And the Unix epoch, 1970-01-01, was a Thursday. */
  lemma UnixEpochIsThursday()
    ensures Weekday(1970, 1, 1) == 4
  {
  }
}
