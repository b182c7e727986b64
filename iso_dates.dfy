/**
 * Date strings: the `dd/MM/yyyy` form typed into the booking dialogue, the
 * `yyyy-MM-dd` calendar form stored in the reservation database, and
 * convertToIsoDate, which turns the first into the second and throws on a
 * string that is not a real calendar date.
 */
module IsoDates {
  import opened Wrappers
  import opened Calendar

  predicate IsDigit(c: char)
  {
    '0' <= c <= '9'
  }

  function DigitValue(c: char): (n: int)
    requires IsDigit(c)
    ensures 0 <= n <= 9
  {
    c as int - '0' as int
  }

  function DigitChar(n: int): (c: char)
    requires 0 <= n <= 9
    ensures IsDigit(c) && DigitValue(c) == n
  {
    ('0' as int + n) as char
  }

  /** The `count` characters of s from position i are all decimal digits. */
  predicate DigitsAt(s: string, i: nat, count: nat)
  {
    i + count <= |s| && forall k :: i <= k < i + count ==> IsDigit(s[k])
  }

  /** The two-digit number written at position i of s. */
  function Read2(s: string, i: nat): (n: int)
    requires DigitsAt(s, i, 2)
    ensures 0 <= n <= 99
  {
    10 * DigitValue(s[i]) + DigitValue(s[i + 1])
  }

  /** The four-digit number written at position i of s. */
  function Read4(s: string, i: nat): (n: int)
    requires DigitsAt(s, i, 4)
    ensures 0 <= n <= 9999
  {
    1000 * DigitValue(s[i]) + 100 * DigitValue(s[i + 1]) + 10 * DigitValue(s[i + 2]) + DigitValue(s[i + 3])
  }

  /** n written with exactly two digits, zero-padded. */
  function Pad2(n: int): (s: string)
    requires 0 <= n <= 99
    ensures DigitsAt(s, 0, 2) && |s| == 2 && Read2(s, 0) == n
  {
    [DigitChar(n / 10), DigitChar(n % 10)]
  }

  /** n written with exactly four digits, zero-padded. */
  function Pad4(n: int): (s: string)
    requires 0 <= n <= 9999
    ensures DigitsAt(s, 0, 4) && |s| == 4 && Read4(s, 0) == n
  {
    var high, low := Pad2(n / 100), Pad2(n % 100);
    Read4Halves(high + low, 0);
    high + low
  }

  /** Four digits are two two-digit halves. */
  lemma Read4Halves(s: string, i: nat)
    requires DigitsAt(s, i, 4)
    ensures DigitsAt(s, i, 2) && DigitsAt(s, i + 2, 2)
    ensures Read4(s, i) == 100 * Read2(s, i) + Read2(s, i + 2)
  {
  }

  /** Reading two digits back and writing them again gives the same characters. */
  lemma Pad2Read2(s: string, i: nat)
    requires DigitsAt(s, i, 2)
    ensures Pad2(Read2(s, i)) == s[i..i + 2]
  {
    var a, b := DigitValue(s[i]), DigitValue(s[i + 1]);
    assert (10 * a + b) / 10 == a && (10 * a + b) % 10 == b;
    assert DigitChar(a) == s[i] && DigitChar(b) == s[i + 1];
  }

  /** Reading four digits back and writing them again gives the same characters. */
  lemma Pad4Read4(s: string, i: nat)
    requires DigitsAt(s, i, 4)
    ensures Pad4(Read4(s, i)) == s[i..i + 4]
  {
    Read4Halves(s, i);
    var high, low := Read2(s, i), Read2(s, i + 2);
    assert Read4(s, i) / 100 == high && Read4(s, i) % 100 == low;
    Pad2Read2(s, i);
    Pad2Read2(s, i + 2);
    assert s[i..i + 4] == s[i..i + 2] + s[i + 2..i + 4];
  }

  /**
   * The date-library reading of `dd/MM/yyyy`: two-digit day, two-digit month,
   * four-digit year, separated by slashes, naming a real calendar day of a
   * year after year 0.
   */
  function ParseDayMonthYear(s: string): (r: Option<CalendarDate>)
    ensures r.Some? ==> IsValid(r.value) && r.value.year >= 1
  {
    if |s| == 10 && s[2] == '/' && s[5] == '/' && DigitsAt(s, 0, 2) && DigitsAt(s, 3, 2) && DigitsAt(s, 6, 4) then
      var date := CalendarDate(Read4(s, 6), Read2(s, 3), Read2(s, 0));
      if IsValid(date) && date.year >= 1 then Some(date) else None
    else
      None
  }

  /** A date written as `dd/MM/yyyy`. */
  function FormatDayMonthYear(d: CalendarDate): (s: string)
    requires IsValid(d)
  {
    Pad2(d.day) + "/" + Pad2(d.month) + "/" + Pad4(d.year)
  }

  /** A date written as the ISO 8601 calendar date `yyyy-MM-dd`. */
  function FormatIso(d: CalendarDate): (s: string)
    requires IsValid(d)
  {
    Pad4(d.year) + "-" + Pad2(d.month) + "-" + Pad2(d.day)
  }

  /** The ISO 8601 calendar-date reading `yyyy-MM-dd`, rejecting days that do not exist. */
  function ParseIso(s: string): (r: Option<CalendarDate>)
    ensures r.Some? ==> IsValid(r.value)
  {
    if |s| == 10 && s[4] == '-' && s[7] == '-' && DigitsAt(s, 0, 4) && DigitsAt(s, 5, 2) && DigitsAt(s, 8, 2) then
      var date := CalendarDate(Read4(s, 0), Read2(s, 5), Read2(s, 8));
      if IsValid(date) then Some(date) else None
    else
      None
  }

  /**
   * The instant the date library gives a `yyyy-MM-dd` string, counted in
   * whole days; None stands for the library's Invalid Date.
   */
  function ParseIsoInstant(s: string): (r: Option<int>)
    ensures r.Some? <==> ParseIso(s).Some?
  {
    match ParseIso(s)
    case None => None
    case Some(d) => Some(DayNumber(d))
  }

  /** The instants of two `yyyy-MM-dd` strings compare as the dates they name. */
  lemma ParseIsoInstantOrdersDates(s: string, t: string)
    requires ParseIso(s).Some? && ParseIso(t).Some?
    ensures ParseIsoInstant(s).value < ParseIsoInstant(t).value <==> Before(ParseIso(s).value, ParseIso(t).value)
    ensures ParseIsoInstant(s) == ParseIsoInstant(t) <==> ParseIso(s) == ParseIso(t)
  {
    DayNumberOrdersDates(ParseIso(s).value, ParseIso(t).value);
  }

  /**
   * convertToIsoDate: a valid `dd/MM/yyyy` date becomes `yyyy-MM-dd` naming
   * the same day; anything else throws "Invalid date format".
   */
  function ConvertToIsoDate(dateStr: string): (r: Result<string, string>)
    ensures r.Success? <==> ParseDayMonthYear(dateStr).Some?
    ensures r.Success? ==> |r.value| == 10 && ParseIso(r.value) == ParseDayMonthYear(dateStr)
    ensures r.Failure? ==> r.error == "Invalid date format: " + dateStr
  {
    match ParseDayMonthYear(dateStr)
    case None => Failure("Invalid date format: " + dateStr)
    case Some(d) =>
      IsoRoundTrip(d);
      Success(FormatIso(d))
  }

  /** Writing a valid date as `dd/MM/yyyy` and reading it back gives the same date. */
  lemma DayMonthYearRoundTrip(d: CalendarDate)
    requires IsValid(d) && d.year >= 1
    ensures ParseDayMonthYear(FormatDayMonthYear(d)) == Some(d)
  {
    var s := FormatDayMonthYear(d);
    assert s[0..2] == Pad2(d.day) && s[3..5] == Pad2(d.month) && s[6..10] == Pad4(d.year);
    assert DigitsAt(s, 0, 2) && DigitsAt(s, 3, 2) && DigitsAt(s, 6, 4);
    assert Read2(s, 0) == Read2(Pad2(d.day), 0);
    assert Read2(s, 3) == Read2(Pad2(d.month), 0);
    assert Read4(s, 6) == Read4(Pad4(d.year), 0);
  }

  /** A string the parser accepts is exactly the standard writing of the date it denotes. */
  lemma DayMonthYearCanonical(s: string)
    requires ParseDayMonthYear(s).Some?
    ensures FormatDayMonthYear(ParseDayMonthYear(s).value) == s
  {
    Pad2Read2(s, 0);
    Pad2Read2(s, 3);
    Pad4Read4(s, 6);
    assert s == s[0..2] + [s[2]] + s[3..5] + [s[5]] + s[6..10];
  }

  /** A string the `yyyy-MM-dd` reading accepts is the writing of the date it yields. */
  lemma IsoCanonical(s: string)
    requires ParseIso(s).Some?
    ensures FormatIso(ParseIso(s).value) == s
  {
    Pad4Read4(s, 0);
    Pad2Read2(s, 5);
    Pad2Read2(s, 8);
    assert s == s[0..4] + [s[4]] + s[5..7] + [s[7]] + s[8..10];
  }

  /** Writing a valid date as `yyyy-MM-dd` and reading it back gives the same date. */
  lemma IsoRoundTrip(d: CalendarDate)
    requires IsValid(d)
    ensures ParseIso(FormatIso(d)) == Some(d)
  {
    var s := FormatIso(d);
    assert s[0..4] == Pad4(d.year) && s[5..7] == Pad2(d.month) && s[8..10] == Pad2(d.day);
    assert DigitsAt(s, 0, 4) && DigitsAt(s, 5, 2) && DigitsAt(s, 8, 2);
    assert Read4(s, 0) == Read4(Pad4(d.year), 0);
    assert Read2(s, 5) == Read2(Pad2(d.month), 0);
    assert Read2(s, 8) == Read2(Pad2(d.day), 0);
  }

  /**
   * convertToIsoDate succeeds exactly on the strings that write a real
   * calendar date as `dd/MM/yyyy`.
   */
  lemma ConvertAcceptsExactlyValidDates(s: string)
    ensures ConvertToIsoDate(s).Success? <==> exists d :: IsValid(d) && d.year >= 1 && s == FormatDayMonthYear(d)
  {
    if ConvertToIsoDate(s).Success? {
      DayMonthYearCanonical(s);
      var d := ParseDayMonthYear(s).value;
      assert IsValid(d) && d.year >= 1 && s == FormatDayMonthYear(d);
    }
    if exists d :: IsValid(d) && d.year >= 1 && s == FormatDayMonthYear(d) {
      var d :| IsValid(d) && d.year >= 1 && s == FormatDayMonthYear(d);
      DayMonthYearRoundTrip(d);
    }
  }

  /**
   * The ISO string convertToIsoDate returns names the same day, month and
   * year as its input, and the engine's date parser reads it back as that day.
   */
  lemma ConvertKeepsTheDate(d: CalendarDate)
    requires IsValid(d) && d.year >= 1
    ensures ConvertToIsoDate(FormatDayMonthYear(d)) == Success(FormatIso(d))
    ensures ParseIso(FormatIso(d)) == Some(d)
    ensures ParseIsoInstant(FormatIso(d)) == Some(DayNumber(d))
  {
    DayMonthYearRoundTrip(d);
    IsoRoundTrip(d);
  }

  /** Day 31 of a 30-day month does not exist. */
  lemma ConvertRejectsDay31OfApril()
    ensures ConvertToIsoDate("31/04/2024").Failure?
  {
  }

  /** 29 February exists only in leap years: not in 2023, not in 1900. */
  lemma ConvertFollowsLeapYears()
    ensures ConvertToIsoDate("29/02/2023").Failure?
    ensures ConvertToIsoDate("29/02/1900").Failure?
  {
  }

  lemma ConvertLeapDay()
    ensures ConvertToIsoDate("29/02/2024") == Success("2024-02-29")
  {
    assert ParseDayMonthYear("29/02/2024") == Some(CalendarDate(2024, 2, 29));
    assert FormatIso(CalendarDate(2024, 2, 29)) == "2024-02-29";
  }
}
