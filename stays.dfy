/**
 * The reservations of one room as findEmptyDatesByRoom sees them: raw
 * start/end strings, and the stays kept after parsing them.
 */
module Stays {
  import opened Wrappers

  /** An instant as the date library compares it (Date.getTime()). */
  type Instant = int

  /** One `{startDate, endDate}` pair as stored for a room. */
  datatype RawRange = RawRange(startDate: string, endDate: string)

  /** A pair of parsed instants: an occupied stay, or a free range between two stays. */
  datatype Span = Span(start: Instant, end: Instant)

  /**
   * Parses both bounds of a raw range and keeps it when both are valid and
   * the end is not before the start (a zero-length stay is kept).
   */
  function ParseRange(parse: string -> Option<Instant>, raw: RawRange): (r: Option<Span>)
    ensures r.Some? <==>
      parse(raw.startDate).Some? && parse(raw.endDate).Some? && parse(raw.startDate).value <= parse(raw.endDate).value
    ensures r.Some? ==> r.value == Span(parse(raw.startDate).value, parse(raw.endDate).value)
  {
    var start := parse(raw.startDate);
    var end := parse(raw.endDate);
    if start.Some? && end.Some? && (!(end.value < start.value) || start.value == end.value) then
      Some(Span(start.value, end.value))
    else
      None
  }

  /** The stays kept from a room's raw ranges, in input order. */
  function ValidRanges(parse: string -> Option<Instant>, raws: seq<RawRange>): (r: seq<Span>)
    ensures |r| <= |raws|
    ensures forall k :: 0 <= k < |r| ==> r[k].start <= r[k].end
  {
    if raws == [] then []
    else
      var last := ParseRange(parse, raws[|raws| - 1]);
      ValidRanges(parse, raws[..|raws| - 1]) + (if last.Some? then [last.value] else [])
  }

  /** Validation is range by range: the kept stays of a concatenation are the concatenation of the kept stays. */
  lemma {:induction false} ValidRangesAppend(parse: string -> Option<Instant>, a: seq<RawRange>, b: seq<RawRange>)
    ensures ValidRanges(parse, a + b) == ValidRanges(parse, a) + ValidRanges(parse, b)
    decreases |b|
  {
    if b == [] {
      assert a + b == a;
    } else {
      var b' := b[..|b| - 1];
      assert (a + b)[..|a + b| - 1] == a + b';
      assert (a + b)[|a + b| - 1] == b[|b| - 1];
      ValidRangesAppend(parse, a, b');
    }
  }

  /** An invalid range is dropped without changing which other stays of the room are kept. */
  lemma InvalidRangeIsDropped(parse: string -> Option<Instant>, a: seq<RawRange>, bad: RawRange, b: seq<RawRange>)
    requires ParseRange(parse, bad).None?
    ensures ValidRanges(parse, a + [bad] + b) == ValidRanges(parse, a + b)
  {
    ValidRangesAppend(parse, a + [bad], b);
    ValidRangesAppend(parse, a, [bad]);
    ValidRangesAppend(parse, a, b);
    assert [bad][..0] == [];
  }

  /** A stay is kept exactly when some raw range of the room parses to it. */
  lemma {:induction false} ValidRangesMembers(parse: string -> Option<Instant>, raws: seq<RawRange>, x: Span)
    ensures x in ValidRanges(parse, raws) <==> exists k :: 0 <= k < |raws| && ParseRange(parse, raws[k]) == Some(x)
    decreases |raws|
  {
    if raws != [] {
      var init := raws[..|raws| - 1];
      ValidRangesMembers(parse, init, x);
      if exists k :: 0 <= k < |raws| && ParseRange(parse, raws[k]) == Some(x) {
        var k :| 0 <= k < |raws| && ParseRange(parse, raws[k]) == Some(x);
        if k < |init| {
          assert init[k] == raws[k];
        }
      }
      if exists k :: 0 <= k < |init| && ParseRange(parse, init[k]) == Some(x) {
        var k :| 0 <= k < |init| && ParseRange(parse, init[k]) == Some(x);
        assert raws[k] == init[k];
      }
    }
  }

  /** A room none of whose ranges are valid has no stays at all. */
  lemma {:induction false} AllInvalidMeansNoStays(parse: string -> Option<Instant>, raws: seq<RawRange>)
    requires forall k :: 0 <= k < |raws| ==> ParseRange(parse, raws[k]).None?
    ensures ValidRanges(parse, raws) == []
    decreases |raws|
  {
    if raws != [] {
      var init := raws[..|raws| - 1];
      assert forall k :: 0 <= k < |init| ==> init[k] == raws[k];
      AllInvalidMeansNoStays(parse, init);
    }
  }
}
