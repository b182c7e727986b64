/**
 * The proleptic Gregorian calendar: month lengths, leap years and a day
 * number that orders calendar dates the way the date library compares the
 * instants it builds for them.
 */
module Calendar {

  datatype CalendarDate = CalendarDate(year: int, month: int, day: int)

  predicate IsLeapYear(y: int)
  {
    y % 4 == 0 && (y % 100 != 0 || y % 400 == 0)
  }

  function DaysInYear(y: int): (n: int)
    ensures n == 365 || n == 366
    ensures n == 366 <==> IsLeapYear(y)
  {
    if IsLeapYear(y) then 366 else 365
  }

  function DaysInMonth(y: int, m: int): (n: int)
    requires 1 <= m <= 12
    ensures 28 <= n <= 31
    ensures n == 29 <==> m == 2 && IsLeapYear(y)
    ensures n == 28 <==> m == 2 && !IsLeapYear(y)
  {
    if m == 2 then (if IsLeapYear(y) then 29 else 28)
    else if m == 4 || m == 6 || m == 9 || m == 11 then 30
    else 31
  }

  /** A date whose year fits in four digits, with a month 1..12 and a day of that month. */
  predicate IsValid(d: CalendarDate)
  {
    && 0 <= d.year <= 9999
    && 1 <= d.month <= 12
    && 1 <= d.day <= DaysInMonth(d.year, d.month)
  }

  /** Strict chronological order of two dates: by year, then month, then day. */
  predicate Before(a: CalendarDate, b: CalendarDate)
  {
    || a.year < b.year
    || (a.year == b.year && a.month < b.month)
    || (a.year == b.year && a.month == b.month && a.day < b.day)
  }

  /** Number of leap years among the years 0 .. y-1. */
  function LeapYearsBefore(y: nat): (n: int)
  {
    (y + 3) / 4 - (y + 99) / 100 + (y + 399) / 400
  }

  /** Number of days in the years 0 .. y-1. */
  function DaysBeforeYear(y: nat): (n: int)
  {
    365 * y + LeapYearsBefore(y)
  }

  /** Number of days in the months 1 .. m-1 of year y. */
  function DaysBeforeMonth(y: int, m: int): (n: int)
    requires 1 <= m <= 12
    ensures m == 12 ==> n + DaysInMonth(y, m) == DaysInYear(y)
  {
    var common :=
      if m == 1 then 0 else if m == 2 then 31 else if m == 3 then 59
      else if m == 4 then 90 else if m == 5 then 120 else if m == 6 then 151
      else if m == 7 then 181 else if m == 8 then 212 else if m == 9 then 243
      else if m == 10 then 273 else if m == 11 then 304 else 334;
    if m > 2 && IsLeapYear(y) then common + 1 else common
  }

  /** Days since 0000-01-01 (day number 0). */
  function DayNumber(d: CalendarDate): (n: int)
    requires IsValid(d)
  {
    DaysBeforeYear(d.year) + DaysBeforeMonth(d.year, d.month) + d.day - 1
  }

  /** Whole days from one year start to the next is the length of that year. */
  lemma YearStep(y: nat)
    ensures DaysBeforeYear(y + 1) == DaysBeforeYear(y) + DaysInYear(y)
  {
    LeapStep(y);
  }

  /** Moving past year y adds one leap year exactly when y is a leap year. */
  lemma LeapStep(y: nat)
    ensures LeapYearsBefore(y + 1) == LeapYearsBefore(y) + (if IsLeapYear(y) then 1 else 0)
  {
    Step4(y);
    Step100(y);
    Step400(y);
    DivisibilityChain(y);
  }

  /** Multiples of 400 are multiples of 100, which are multiples of 4. */
  lemma DivisibilityChain(y: nat)
    ensures y % 400 == 0 ==> y % 100 == 0
    ensures y % 100 == 0 ==> y % 4 == 0
  {
    if y % 400 == 0 {
      var k := y / 400;
      assert y == 100 * (4 * k);
    }
    if y % 100 == 0 {
      var k := y / 100;
      assert y == 4 * (25 * k);
    }
  }

  lemma Step4(y: nat)
    ensures (y + 4) / 4 - (y + 3) / 4 == if y % 4 == 0 then 1 else 0
  {
    var q, r := y / 4, y % 4;
    assert y + 4 == 4 * (q + 1) + r;
    assert y + 3 == 4 * q + (r + 3);
  }

  lemma Step100(y: nat)
    ensures (y + 100) / 100 - (y + 99) / 100 == if y % 100 == 0 then 1 else 0
  {
    var q, r := y / 100, y % 100;
    assert y + 100 == 100 * (q + 1) + r;
    assert y + 99 == 100 * q + (r + 99);
  }

  lemma Step400(y: nat)
    ensures (y + 400) / 400 - (y + 399) / 400 == if y % 400 == 0 then 1 else 0
  {
    var q, r := y / 400, y % 400;
    assert y + 400 == 400 * (q + 1) + r;
    assert y + 399 == 400 * q + (r + 399);
  }

  /** Every day of year y comes before the first day of any later year. */
  lemma {:induction false} YearsOrdered(y: nat, z: nat)
    requires y < z
    ensures DaysBeforeYear(y) + DaysInYear(y) <= DaysBeforeYear(z)
    decreases z - y
  {
    YearStep(y);
    if y + 1 < z {
      YearsOrdered(y + 1, z);
    }
  }

  /** Every day of month m comes before the first day of any later month of the same year. */
  lemma {:induction false} MonthsOrdered(y: int, m: int, n: int)
    requires 1 <= m < n <= 12
    ensures DaysBeforeMonth(y, m) + DaysInMonth(y, m) <= DaysBeforeMonth(y, n)
    decreases n - m
  {
    assert DaysBeforeMonth(y, m) + DaysInMonth(y, m) == DaysBeforeMonth(y, m + 1);
    if m + 1 < n {
      MonthsOrdered(y, m + 1, n);
    }
  }

  /** A valid date lies inside its own year. */
  lemma DayInYear(d: CalendarDate)
    requires IsValid(d)
    ensures DaysBeforeYear(d.year) <= DayNumber(d) < DaysBeforeYear(d.year) + DaysInYear(d.year)
  {
    if d.month < 12 {
      MonthsOrdered(d.year, d.month, 12);
    }
  }

  /** Day numbers order valid dates exactly as the calendar does. */
  lemma DayNumberOrdersDates(a: CalendarDate, b: CalendarDate)
    requires IsValid(a) && IsValid(b)
    ensures Before(a, b) <==> DayNumber(a) < DayNumber(b)
    ensures a == b <==> DayNumber(a) == DayNumber(b)
  {
    if a.year < b.year {
      EarlierYearHasSmallerDayNumber(a, b);
    } else if b.year < a.year {
      EarlierYearHasSmallerDayNumber(b, a);
    } else if a.month < b.month {
      MonthsOrdered(a.year, a.month, b.month);
    } else if b.month < a.month {
      MonthsOrdered(a.year, b.month, a.month);
    }
  }

  lemma EarlierYearHasSmallerDayNumber(a: CalendarDate, b: CalendarDate)
    requires IsValid(a) && IsValid(b) && a.year < b.year
    ensures DayNumber(a) < DayNumber(b)
  {
    DayInYear(a);
    YearsOrdered(a.year, b.year);
  }

  /** The successor of a date has the next day number, across month and year ends. */
  function NextDay(d: CalendarDate): (r: CalendarDate)
    requires IsValid(d) && (d.year < 9999 || !(d.month == 12 && d.day == 31))
    ensures IsValid(r) && DayNumber(r) == DayNumber(d) + 1
  {
    if d.day < DaysInMonth(d.year, d.month) then CalendarDate(d.year, d.month, d.day + 1)
    else if d.month < 12 then CalendarDate(d.year, d.month + 1, 1)
    else
      YearStep(d.year);
      CalendarDate(d.year + 1, 1, 1)
  }
}
