/**
 * How the pieces meet: dates typed as `dd/MM/yyyy` are stored through
 * convertToIsoDate and read back by the free-date engine, and a reservation
 * without an end date becomes a one-day stay.
 */
module Availability {
  import opened Wrappers
  import opened Calendar
  import opened IsoDates
  import opened Stays
  import opened NotionEntries
  import opened RoomGrouping

  /**
   * A reservation whose bounds were stored through convertToIsoDate is kept
   * by the engine exactly when its end day is not before its start day, and
   * then as the stay between those two days.
   */
  lemma ConvertedBookingIsReadBack(startInput: string, endInput: string)
    requires ConvertToIsoDate(startInput).Success? && ConvertToIsoDate(endInput).Success?
    ensures var first, last := ParseDayMonthYear(startInput).value, ParseDayMonthYear(endInput).value;
      var stored := RawRange(ConvertToIsoDate(startInput).value, ConvertToIsoDate(endInput).value);
      && (ParseRange(ParseIsoInstant, stored).Some? <==> !Before(last, first))
      && (ParseRange(ParseIsoInstant, stored).Some? ==>
            ParseRange(ParseIsoInstant, stored).value == Span(DayNumber(first), DayNumber(last)))
  {
    var first, last := ParseDayMonthYear(startInput).value, ParseDayMonthYear(endInput).value;
    ConvertKeepsTheDate(first);
    ConvertKeepsTheDate(last);
    DayMonthYearCanonical(startInput);
    DayMonthYearCanonical(endInput);
    DayNumberOrdersDates(last, first);
  }

  /**
   * A reservation stored without an end date is read as a zero-length stay
   * on its start day, which the engine keeps whenever that day parses.
   */
  lemma MissingEndDateIsOneDayStay(parse: string -> Option<Instant>, result: NotionResult)
    requires ParseResult(result).Some? && result.checkDate.value.end.None?
    ensures var e := ParseResult(result).value;
      && e.endDate == e.startDate
      && (ParseRange(parse, RangeOf(e)).Some? <==> parse(e.startDate).Some?)
      && (parse(e.startDate).Some? ==>
            ParseRange(parse, RangeOf(e)) == Some(Span(parse(e.startDate).value, parse(e.startDate).value)))
  {
  }
}
