/**
 * `allDates.sort((a, b) => a.start - b.start)`: a stable sort of a room's
 * stays by start instant. The functional insertion sort SortByStart is the
 * specification; SortInPlace sorts an array in place and is proved to
 * produce exactly its result.
 */
module StaySort {
  import opened Stays

  predicate SortedByStart(s: seq<Span>)
  {
    forall i, j :: 0 <= i < j < |s| ==> s[i].start <= s[j].start
  }

  /**
   * Inserts x into a sorted sequence after every element whose start is not
   * later than x's, scanning from the back as insertion sort does.
   */
  function InsertByStart(sorted: seq<Span>, x: Span): (r: seq<Span>)
    ensures |r| == |sorted| + 1
    decreases |sorted|
  {
    if sorted == [] || sorted[|sorted| - 1].start <= x.start then
      sorted + [x]
    else
      InsertByStart(sorted[..|sorted| - 1], x) + [sorted[|sorted| - 1]]
  }

  /** Inserting adds exactly x to the elements. */
  lemma {:induction false} InsertByStartPermutes(sorted: seq<Span>, x: Span)
    ensures multiset(InsertByStart(sorted, x)) == multiset(sorted) + multiset{x}
    decreases |sorted|
  {
    if !(sorted == [] || sorted[|sorted| - 1].start <= x.start) {
      var init, last := sorted[..|sorted| - 1], sorted[|sorted| - 1];
      assert sorted == init + [last];
      InsertByStartPermutes(init, x);
    }
  }

  /**
   * Insertion puts x right after the last element that does not start later
   * than it: at position j when every element from j on starts later.
   */
  lemma {:induction false} InsertLandsAt(done: seq<Span>, j: nat, x: Span)
    requires j <= |done|
    requires j == 0 || done[j - 1].start <= x.start
    requires forall k :: j <= k < |done| ==> done[k].start > x.start
    ensures InsertByStart(done, x) == done[..j] + [x] + done[j..]
    decreases |done|
  {
    if j == |done| {
      assert done[..j] == done && done[j..] == [];
    } else {
      var init, last := done[..|done| - 1], done[|done| - 1];
      InsertLandsAt(init, j, x);
      assert init[..j] == done[..j];
      assert init[j..] + [last] == done[j..];
    }
  }

  /** Inserting into a sorted sequence keeps it sorted. */
  lemma {:induction false} InsertByStartSorted(sorted: seq<Span>, x: Span)
    requires SortedByStart(sorted)
    ensures SortedByStart(InsertByStart(sorted, x))
    decreases |sorted|
  {
    if !(sorted == [] || sorted[|sorted| - 1].start <= x.start) {
      var init, last := sorted[..|sorted| - 1], sorted[|sorted| - 1];
      InsertByStartSorted(init, x);
      var r := InsertByStart(init, x);
      InsertByStartPermutes(init, x);
      forall y | y in r
        ensures y.start <= last.start
      {
        assert y in multiset(r);
        assert y == x || y in multiset(init);
      }
      forall i, j | 0 <= i < j < |r| + 1
        ensures (r + [last])[i].start <= (r + [last])[j].start
      {
        if j == |r| {
          assert r[i] in r;
        }
      }
    }
  }

  /** Insertion sort by start instant. */
  function SortByStart(s: seq<Span>): (r: seq<Span>)
    ensures |r| == |s|
  {
    if s == [] then []
    else InsertByStart(SortByStart(s[..|s| - 1]), s[|s| - 1])
  }

  /** The sorted stays are a permutation of the input, ordered by non-decreasing start. */
  lemma {:induction false} SortByStartSortsAndPermutes(s: seq<Span>)
    ensures SortedByStart(SortByStart(s))
    ensures multiset(SortByStart(s)) == multiset(s)
    decreases |s|
  {
    if s != [] {
      var init, last := s[..|s| - 1], s[|s| - 1];
      assert s == init + [last];
      SortByStartSortsAndPermutes(init);
      InsertByStartSorted(SortByStart(init), last);
      InsertByStartPermutes(SortByStart(init), last);
    }
  }

  /** The stays of s that start at instant t, in their order in s. */
  function StartingAt(s: seq<Span>, t: Instant): (r: seq<Span>)
    ensures forall k :: 0 <= k < |r| ==> r[k].start == t
  {
    if s == [] then []
    else StartingAt(s[..|s| - 1], t) + (if s[|s| - 1].start == t then [s[|s| - 1]] else [])
  }

  lemma {:induction false} StartingAtAppend(a: seq<Span>, b: seq<Span>, t: Instant)
    ensures StartingAt(a + b, t) == StartingAt(a, t) + StartingAt(b, t)
    decreases |b|
  {
    if b == [] {
      assert a + b == a;
    } else {
      assert (a + b)[..|a + b| - 1] == a + b[..|b| - 1];
      StartingAtAppend(a, b[..|b| - 1], t);
    }
  }

  /** Inserting x adds it after the stays that share its start and leaves every other tie group as it was. */
  lemma {:induction false} InsertKeepsTies(sorted: seq<Span>, x: Span, t: Instant)
    requires SortedByStart(sorted)
    ensures StartingAt(InsertByStart(sorted, x), t) == StartingAt(sorted, t) + (if x.start == t then [x] else [])
    decreases |sorted|
  {
    if sorted == [] || sorted[|sorted| - 1].start <= x.start {
      StartingAtAppend(sorted, [x], t);
      assert [x][..0] == [];
    } else {
      var init, last := sorted[..|sorted| - 1], sorted[|sorted| - 1];
      assert sorted == init + [last];
      InsertKeepsTies(init, x, t);
      StartingAtAppend(InsertByStart(init, x), [last], t);
      StartingAtAppend(init, [last], t);
      assert [last][..0] == [] && [x][..0] == [];
      if x.start == t {
        // last starts after x, so neither it nor any later stay ties with x
        assert StartingAt([last], t) == [];
        assert StartingAt(init, t) == StartingAt(sorted, t) by {
          StartingAtAppend(init, [last], t);
        }
      }
    }
  }

  /**
   * Stability: the stays that share a start instant keep their input order,
   * so SortByStart is the result of any stable sort by start.
   */
  lemma {:induction false} SortByStartIsStable(s: seq<Span>, t: Instant)
    ensures StartingAt(SortByStart(s), t) == StartingAt(s, t)
    decreases |s|
  {
    if s != [] {
      var init, last := s[..|s| - 1], s[|s| - 1];
      SortByStartIsStable(init, t);
      SortByStartSortsAndPermutes(init);
      InsertKeepsTies(SortByStart(init), last, t);
    }
  }

  /**
   * One step of insertion sort: moves a[i] left past the elements of the
   * sorted prefix a[..i] that start strictly later than it.
   */
  method InsertInPlace(a: array<Span>, i: nat)
    requires i < a.Length
    modifies a
    ensures a[..i + 1] == InsertByStart(old(a[..i]), old(a[i]))
    ensures a[i + 1..] == old(a[i + 1..])
  {
    ghost var done := a[..i];
    var x := a[i];
    var j := i;
    while j > 0 && a[j - 1].start > x.start
      invariant 0 <= j <= i
      invariant forall k :: 0 <= k < j ==> a[k] == done[k]
      invariant forall k :: j < k <= i ==> a[k] == done[k - 1]
      invariant forall k :: i < k < a.Length ==> a[k] == old(a[k])
      invariant forall k :: j <= k < i ==> done[k].start > x.start
    {
      a[j] := a[j - 1];
      j := j - 1;
    }
    a[j] := x;
    InsertLandsAt(done, j, x);
    ghost var inserted := done[..j] + [x] + done[j..];
    assert forall k :: 0 <= k <= i ==> a[k] == inserted[k];
    assert a[..i + 1] == inserted;
    assert a[i + 1..] == old(a[i + 1..]);
  }

  /** Insertion sort in place; the array ends up holding SortByStart of its old contents. */
  method SortInPlace(a: array<Span>)
    modifies a
    ensures a[..] == SortByStart(old(a[..]))
  {
    ghost var input := a[..];
    var i := 0;
    while i < a.Length
      invariant 0 <= i <= a.Length
      invariant a[..i] == SortByStart(input[..i])
      invariant a[i..] == input[i..]
    {
      assert input[..i + 1][..i] == input[..i];
      assert input[i] == a[i];
      InsertInPlace(a, i);
      i := i + 1;
    }
    assert input[..a.Length] == input;
  }
}
