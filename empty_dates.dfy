/**
 * findEmptyDatesByRoom: for each room, keep its valid stays, sort them by
 * start, and report a free range between each two consecutive stays where
 * one ends strictly before the next begins. Overlapping stays are not
 * merged and back-to-back days are not treated as adjacent.
 */
module EmptyDates {
  import opened Wrappers
  import opened Stays
  import opened StaySort

  /** A free range appears between positions i and i + 1 of the sorted stays. */
  predicate GapAfter(s: seq<Span>, i: int)
    requires 0 <= i < |s| - 1
  {
    s[i].end < s[i + 1].start
  }

  /** The free ranges found by the pairwise scan over sorted stays, in scan order. */
  function Gaps(s: seq<Span>): (r: seq<Span>)
    ensures |s| <= 1 ==> r == []
    ensures |s| >= 1 ==> |r| <= |s| - 1
    ensures forall k :: 0 <= k < |r| ==> r[k].start < r[k].end
  {
    if |s| < 2 then []
    else
      Gaps(s[..|s| - 1]) + (if GapAfter(s, |s| - 2) then [Span(s[|s| - 2].end, s[|s| - 1].start)] else [])
  }

  /** The free ranges of one room: the gaps between its sorted valid stays. */
  function EmptyRanges(parse: string -> Option<Instant>, raws: seq<RawRange>): (r: seq<Span>)
    ensures |ValidRanges(parse, raws)| <= 1 ==> r == []
    ensures |r| < |ValidRanges(parse, raws)| || r == []
    ensures forall k :: 0 <= k < |r| ==> r[k].start < r[k].end
  {
    Gaps(SortByStart(ValidRanges(parse, raws)))
  }

  /**
   * Each free range is the end of one sorted stay and the start of the next,
   * at a pair where the first ends strictly before the second starts; and
   * every such pair yields one.
   */
  lemma {:induction false} GapsAreExactlyTheGapPairs(s: seq<Span>, g: Span)
    ensures g in Gaps(s) <==>
      exists i :: 0 <= i < |s| - 1 && GapAfter(s, i) && g == Span(s[i].end, s[i + 1].start)
    decreases |s|
  {
    if |s| >= 2 {
      var n := |s|;
      var init := s[..n - 1];
      var last := if GapAfter(s, n - 2) then [Span(s[n - 2].end, s[n - 1].start)] else [];
      assert Gaps(s) == Gaps(init) + last;
      assert g in Gaps(s) <==> g in Gaps(init) || g in last;
      GapsAreExactlyTheGapPairs(init, g);
      if g in Gaps(init) {
        var i :| 0 <= i < |init| - 1 && GapAfter(init, i) && g == Span(init[i].end, init[i + 1].start);
        assert init[i] == s[i] && init[i + 1] == s[i + 1];
        assert GapAfter(s, i);
      } else if g in last {
        assert GapAfter(s, n - 2) && g == Span(s[n - 2].end, s[n - 1].start);
      }
      if exists i :: 0 <= i < n - 1 && GapAfter(s, i) && g == Span(s[i].end, s[i + 1].start) {
        var i :| 0 <= i < n - 1 && GapAfter(s, i) && g == Span(s[i].end, s[i + 1].start);
        if i < n - 2 {
          assert init[i] == s[i] && init[i + 1] == s[i + 1];
          assert GapAfter(init, i) && g == Span(init[i].end, init[i + 1].start);
        }
      }
    }
  }

  /**
   * Over sorted stays the free ranges come out in order and do not overlap:
   * each one ends no later than the next one starts. Hence their starts
   * strictly increase and their ends never decrease.
   */
  lemma {:induction false} GapsAreInOrder(s: seq<Span>)
    requires SortedByStart(s)
    requires forall i :: 0 <= i < |s| ==> s[i].start <= s[i].end
    ensures forall j, k :: 0 <= j < k < |Gaps(s)| ==> Gaps(s)[j].end <= Gaps(s)[k].start
    ensures forall j, k :: 0 <= j < k < |Gaps(s)| ==> Gaps(s)[j].start < Gaps(s)[k].start
    ensures forall j, k :: 0 <= j < k < |Gaps(s)| ==> Gaps(s)[j].end <= Gaps(s)[k].end
    decreases |s|
  {
    if |s| >= 2 {
      var n := |s|;
      var init := s[..n - 1];
      assert SortedByStart(init);
      assert forall i :: 0 <= i < |init| ==> init[i] == s[i];
      GapsAreInOrder(init);
      var g := Gaps(s);
      var gi := Gaps(init);
      forall j, k | 0 <= j < k < |g|
        ensures g[j].end <= g[k].start
      {
        if k >= |gi| {
          // g[k] is the range after stay n - 2; g[j] closes at the start of a stay no later than n - 2
          assert g[j] == gi[j] && gi[j] in gi;
          GapsAreExactlyTheGapPairs(init, gi[j]);
          var i :| 0 <= i < |init| - 1 && GapAfter(init, i) && gi[j] == Span(init[i].end, init[i + 1].start);
          assert g[k].start == s[n - 2].end;
          assert init[i + 1] == s[i + 1] && s[i + 1].start <= s[n - 2].start;
        } else {
          assert g[j] == gi[j] && g[k] == gi[k];
        }
      }
    }
  }

  /**
   * When no sorted stay reaches past the start of the next one, a free range
   * really is free: no instant strictly inside it is occupied by any stay.
   */
  lemma GapsAreFreeWhenStaysDoNotOverlap(s: seq<Span>, k: int, x: Instant, m: int)
    requires SortedByStart(s)
    requires forall i :: 0 <= i < |s| ==> s[i].start <= s[i].end
    requires forall i :: 0 <= i < |s| - 1 ==> s[i].end <= s[i + 1].start
    requires 0 <= k < |Gaps(s)| && 0 <= m < |s|
    requires Gaps(s)[k].start < x < Gaps(s)[k].end
    ensures !(s[m].start <= x <= s[m].end)
  {
    GapsAreExactlyTheGapPairs(s, Gaps(s)[k]);
    var i :| 0 <= i < |s| - 1 && GapAfter(s, i) && Gaps(s)[k] == Span(s[i].end, s[i + 1].start);
    if m <= i {
      ChainedEnds(s, m, i);
    }
  }

  /** Along a chain of stays that do not overlap, ends never decrease. */
  lemma {:induction false} ChainedEnds(s: seq<Span>, m: int, i: int)
    requires forall k :: 0 <= k < |s| ==> s[k].start <= s[k].end
    requires forall k :: 0 <= k < |s| - 1 ==> s[k].end <= s[k + 1].start
    requires 0 <= m <= i < |s|
    ensures s[m].end <= s[i].end
    decreases i - m
  {
    if m < i {
      ChainedEnds(s, m + 1, i);
    }
  }

  /** A room whose every range is invalid gets an empty list, not an error. */
  lemma AllInvalidMeansNoFreeRange(parse: string -> Option<Instant>, raws: seq<RawRange>)
    requires forall k :: 0 <= k < |raws| ==> ParseRange(parse, raws[k]).None?
    ensures EmptyRanges(parse, raws) == []
  {
    AllInvalidMeansNoStays(parse, raws);
  }

  /** An invalid range is dropped without changing the room's free ranges. */
  lemma InvalidRangeDoesNotChangeFreeRanges(parse: string -> Option<Instant>, a: seq<RawRange>, bad: RawRange, b: seq<RawRange>)
    requires ParseRange(parse, bad).None?
    ensures EmptyRanges(parse, a + [bad] + b) == EmptyRanges(parse, a + b)
  {
    InvalidRangeIsDropped(parse, a, bad, b);
  }

  /**
   * The free ranges of a room are the gaps of a sorted permutation of its
   * valid stays: each lies strictly between the end of one stay and the
   * start of the stay that follows it in start order, and they come in
   * non-decreasing order of their ends.
   */
  lemma FreeRangesComeFromSortedStays(parse: string -> Option<Instant>, raws: seq<RawRange>)
    ensures var sorted := SortByStart(ValidRanges(parse, raws));
      && SortedByStart(sorted)
      && multiset(sorted) == multiset(ValidRanges(parse, raws))
      && EmptyRanges(parse, raws) == Gaps(sorted)
    ensures var free := EmptyRanges(parse, raws);
      forall j, k :: 0 <= j < k < |free| ==> free[j].end <= free[k].start && free[j].start < free[k].start
  {
    var valid := ValidRanges(parse, raws);
    var sorted := SortByStart(valid);
    SortByStartSortsAndPermutes(valid);
    forall i | 0 <= i < |sorted|
      ensures sorted[i].start <= sorted[i].end
    {
      assert sorted[i] in multiset(valid);
      var k :| 0 <= k < |valid| && valid[k] == sorted[i];
    }
    GapsAreInOrder(sorted);
  }

  /** The free range, if any, between a stay and a later-starting one. */
  function GapBetween(first: Span, second: Span): (r: seq<Span>)
  {
    if first.end < second.start then [Span(first.end, second.start)] else []
  }

  /**
   * A room with exactly two valid stays: one free range from the end of the
   * earlier-starting stay to the start of the other when that end is
   * strictly before that start, and none when they overlap or touch.
   */
  lemma TwoStays(parse: string -> Option<Instant>, r1: RawRange, r2: RawRange)
    requires ParseRange(parse, r1).Some? && ParseRange(parse, r2).Some?
    ensures var a, b := ParseRange(parse, r1).value, ParseRange(parse, r2).value;
      EmptyRanges(parse, [r1, r2]) == if a.start <= b.start then GapBetween(a, b) else GapBetween(b, a)
  {
    var a, b := ParseRange(parse, r1).value, ParseRange(parse, r2).value;
    assert [r1, r2][..1] == [r1] && [r1][..0] == [];
    assert ValidRanges(parse, [r1, r2]) == [a, b];
    assert [a, b][..1] == [a] && [a][..0] == [];
    assert SortByStart([a]) == [a];
    if a.start <= b.start {
      assert SortByStart([a, b]) == [a, b];
      assert [a, b][..1] == [a];
    } else {
      assert InsertByStart([a], b) == [b, a];
      assert [b, a][..1] == [b];
    }
  }

  /**
   * The per-room body of findEmptyDatesByRoom: collect the valid stays,
   * sort them in place, then scan adjacent pairs.
   */
  method FindEmptyRanges(parse: string -> Option<Instant>, dateRanges: seq<RawRange>) returns (emptyRanges: seq<Span>)
    ensures emptyRanges == EmptyRanges(parse, dateRanges)
  {
    var allDates: seq<Span> := [];
    for k := 0 to |dateRanges|
      invariant allDates == ValidRanges(parse, dateRanges[..k])
    {
      assert dateRanges[..k + 1][..k] == dateRanges[..k];
      var start := parse(dateRanges[k].startDate);
      var end := parse(dateRanges[k].endDate);
      if start.Some? && end.Some? && (!(end.value < start.value) || start.value == end.value) {
        allDates := allDates + [Span(start.value, end.value)];
      }
    }
    assert dateRanges[..|dateRanges|] == dateRanges;

    var sorted := new Span[|allDates|](i requires 0 <= i < |allDates| => allDates[i]);
    assert sorted[..] == allDates;
    SortInPlace(sorted);

    emptyRanges := [];
    var i := 0;
    while i < sorted.Length - 1
      invariant sorted.Length == 0 ==> i == 0 && emptyRanges == []
      invariant sorted.Length > 0 ==> 0 <= i < sorted.Length && emptyRanges == Gaps(sorted[..i + 1])
    {
      assert sorted[..i + 2][..i + 1] == sorted[..i + 1];
      var currentEnd := sorted[i].end;
      var nextStart := sorted[i + 1].start;
      if currentEnd < nextStart {
        emptyRanges := emptyRanges + [Span(currentEnd, nextStart)];
      }
      i := i + 1;
    }
    assert sorted.Length > 0 ==> sorted[..i + 1] == sorted[..];
  }

  /**
   * findEmptyDatesByRoom: every room of the input gets an entry, holding
   * that room's free ranges.
   */
  method FindEmptyDatesByRoom(parse: string -> Option<Instant>, dateRangesByRoom: map<string, seq<RawRange>>)
    returns (emptyDatesByRoom: map<string, seq<Span>>)
    ensures emptyDatesByRoom.Keys == dateRangesByRoom.Keys
    ensures forall room :: room in dateRangesByRoom ==>
      emptyDatesByRoom[room] == EmptyRanges(parse, dateRangesByRoom[room])
  {
    emptyDatesByRoom := map[];
    var pending := dateRangesByRoom.Keys;
    while pending != {}
      invariant pending <= dateRangesByRoom.Keys
      invariant emptyDatesByRoom.Keys == dateRangesByRoom.Keys - pending
      invariant forall room :: room in emptyDatesByRoom ==>
        emptyDatesByRoom[room] == EmptyRanges(parse, dateRangesByRoom[room])
      decreases pending
    {
      var room :| room in pending;
      var emptyRanges := FindEmptyRanges(parse, dateRangesByRoom[room]);
      emptyDatesByRoom := emptyDatesByRoom[room := emptyRanges];
      pending := pending - {room};
    }
  }
}
