/**
 * Concrete runs of findEmptyDatesByRoom over `yyyy-MM-dd` strings, and the
 * places where the code as written departs from a merge-based reading:
 * overlapping stays are not merged, back-to-back stays still leave a gap,
 * and the order of stays sharing a start changes the result.
 */
module Scenarios {
  import opened Wrappers
  import opened Calendar
  import opened IsoDates
  import opened Stays
  import opened StaySort
  import opened EmptyDates

  /** The instant of a calendar day. */
  function Day(y: int, m: int, d: int): (n: int)
    requires IsValid(CalendarDate(y, m, d))
  {
    DayNumber(CalendarDate(y, m, d))
  }

  /** Stays of 1-3 and 10-12 June 2024 leave one free range, from 3 June to 10 June. */
  lemma TwoStaysLeaveOneGap()
    ensures EmptyRanges(ParseIsoInstant, [RawRange("2024-06-01", "2024-06-03"), RawRange("2024-06-10", "2024-06-12")])
         == [Span(Day(2024, 6, 3), Day(2024, 6, 10))]
  {
    assert ParseIsoInstant("2024-06-01") == Some(Day(2024, 6, 1));
    assert ParseIsoInstant("2024-06-03") == Some(Day(2024, 6, 3));
    assert ParseIsoInstant("2024-06-10") == Some(Day(2024, 6, 10));
    assert ParseIsoInstant("2024-06-12") == Some(Day(2024, 6, 12));
    TwoStays(ParseIsoInstant, RawRange("2024-06-01", "2024-06-03"), RawRange("2024-06-10", "2024-06-12"));
  }

  /**
   * A range whose end precedes its start is dropped; the one valid stay left
   * gives the room an empty list.
   */
  lemma ReversedRangeIsDroppedAndSingleStayHasNoGap()
    ensures ValidRanges(ParseIsoInstant, [RawRange("2024-07-05", "2024-07-01"), RawRange("2024-07-01", "2024-07-05")])
         == [Span(Day(2024, 7, 1), Day(2024, 7, 5))]
    ensures EmptyRanges(ParseIsoInstant, [RawRange("2024-07-05", "2024-07-01"), RawRange("2024-07-01", "2024-07-05")]) == []
  {
    assert ParseIsoInstant("2024-07-01") == Some(Day(2024, 7, 1));
    assert ParseIsoInstant("2024-07-05") == Some(Day(2024, 7, 5));
    var raws := [RawRange("2024-07-05", "2024-07-01"), RawRange("2024-07-01", "2024-07-05")];
    assert raws[..1][..0] == [];
    assert ValidRanges(ParseIsoInstant, raws[..1]) == [];
  }

  /**
   * A stay ending 29 February 2024 followed by one starting 1 March, the next
   * day: the code still reports the one-day range between them as free.
   */
  lemma BackToBackStaysStillLeaveAGap()
    ensures Day(2024, 3, 1) == Day(2024, 2, 29) + 1
    ensures EmptyRanges(ParseIsoInstant, [RawRange("2024-02-28", "2024-02-29"), RawRange("2024-03-01", "2024-03-02")])
         == [Span(Day(2024, 2, 29), Day(2024, 3, 1))]
  {
    assert NextDay(CalendarDate(2024, 2, 29)) == CalendarDate(2024, 3, 1);
    assert ParseIsoInstant("2024-02-28") == Some(Day(2024, 2, 28));
    assert ParseIsoInstant("2024-02-29") == Some(Day(2024, 2, 29));
    assert ParseIsoInstant("2024-03-01") == Some(Day(2024, 3, 1));
    assert ParseIsoInstant("2024-03-02") == Some(Day(2024, 3, 2));
    TwoStays(ParseIsoInstant, RawRange("2024-02-28", "2024-02-29"), RawRange("2024-03-01", "2024-03-02"));
  }

  /**
   * Overlapping stays are not merged: a short stay inside a longer one,
   * followed by a third stay, yields a "free" range whose inner instants the
   * longer stay occupies.
   */
  lemma ContainedStayLeavesOccupiedGap()
    ensures Gaps(SortByStart([Span(1, 10), Span(2, 3), Span(5, 6)])) == [Span(3, 5)]
    ensures 3 < 4 < 5 && Span(1, 10).start <= 4 <= Span(1, 10).end
  {
    var s := [Span(1, 10), Span(2, 3), Span(5, 6)];
    assert s[..2] == [Span(1, 10), Span(2, 3)] && s[..2][..1] == [Span(1, 10)] && s[..1][..0] == [];
    assert SortByStart(s[..1]) == [Span(1, 10)];
    assert SortByStart(s[..2]) == [Span(1, 10), Span(2, 3)];
    assert SortByStart(s) == s;
    assert Gaps(s[..2]) == [];
  }

  /**
   * The result depends on the input order of stays that share a start
   * instant: the stable sort keeps them as given, and only the second one's
   * end is compared with the next start.
   */
  lemma TieOrderChangesTheResult()
    ensures Gaps(SortByStart([Span(1, 5), Span(1, 3), Span(7, 8)])) == [Span(3, 7)]
    ensures Gaps(SortByStart([Span(1, 3), Span(1, 5), Span(7, 8)])) == [Span(5, 7)]
  {
    var s := [Span(1, 5), Span(1, 3), Span(7, 8)];
    assert s[..2] == [Span(1, 5), Span(1, 3)] && s[..2][..1] == [Span(1, 5)] && s[..1][..0] == [];
    assert SortByStart(s[..1]) == [Span(1, 5)];
    assert SortByStart(s[..2]) == s[..2];
    assert SortByStart(s) == s;
    assert Gaps(s[..2]) == [];
    var t := [Span(1, 3), Span(1, 5), Span(7, 8)];
    assert t[..2] == [Span(1, 3), Span(1, 5)] && t[..2][..1] == [Span(1, 3)] && t[..1][..0] == [];
    assert SortByStart(t[..1]) == [Span(1, 3)];
    assert SortByStart(t[..2]) == t[..2];
    assert SortByStart(t) == t;
    assert Gaps(t[..2]) == [];
  }
}
