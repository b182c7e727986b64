/**
 * parseDatesAndRoomsFromNotion: turns the records of a reservation-database
 * query into `{roomId, startDate, endDate}` entries. The room is the first
 * entry of the `Listings` relation and a missing end date falls back to the
 * start date; a record without a room or without a `Check Date` makes the
 * property lookup throw, and is skipped.
 */
module NotionEntries {
  import opened Wrappers

  /** The `date` value of the `Check Date` property; Notion always supplies `start`. */
  datatype DateValue = DateValue(start: string, end: Option<string>)

  /**
   * The two properties of a query result that are read. `listings` is None
   * when the property or its relation is absent; `checkDate` is None when
   * the property is absent or its date is null.
   */
  datatype NotionResult = NotionResult(listings: Option<seq<string>>, checkDate: Option<DateValue>)

  datatype DateEntry = DateEntry(roomId: string, startDate: string, endDate: string)

  /** `date.end || startDate`: an absent or empty end (both falsy) becomes the start. */
  function EndOrStart(date: DateValue): (end: string)
    ensures end == date.start || date.end == Some(end)
    ensures end == date.start <== date.end.None? || date.end == Some("")
    ensures date.end.Some? && date.end.value != "" ==> end == date.end.value
  {
    if date.end.None? || date.end.value == "" then date.start else date.end.value
  }

  /** One result's entry, or None where the property lookups would throw. */
  function ParseResult(result: NotionResult): (r: Option<DateEntry>)
    ensures r.Some? <==> result.listings.Some? && |result.listings.value| > 0 && result.checkDate.Some?
    ensures r.Some? ==> r.value.roomId == result.listings.value[0] && r.value.startDate == result.checkDate.value.start
    ensures r.Some? ==> r.value.endDate == EndOrStart(result.checkDate.value)
  {
    if result.listings.Some? && |result.listings.value| > 0 && result.checkDate.Some? then
      var date := result.checkDate.value;
      Some(DateEntry(result.listings.value[0], date.start, EndOrStart(date)))
    else
      None
  }

  /** The entries of the well-formed results, one per result, in result order. */
  function ParsedEntries(results: seq<NotionResult>): (entries: seq<DateEntry>)
    ensures |entries| <= |results|
  {
    if results == [] then []
    else
      var last := ParseResult(results[|results| - 1]);
      ParsedEntries(results[..|results| - 1]) + (if last.Some? then [last.value] else [])
  }

  /** The results are handled one by one: a run of results yields the entries of its pieces, in order. */
  lemma {:induction false} ParsedEntriesAppend(a: seq<NotionResult>, b: seq<NotionResult>)
    ensures ParsedEntries(a + b) == ParsedEntries(a) + ParsedEntries(b)
    decreases |b|
  {
    if b == [] {
      assert a + b == a;
    } else {
      assert (a + b)[..|a + b| - 1] == a + b[..|b| - 1];
      ParsedEntriesAppend(a, b[..|b| - 1]);
    }
  }

  /** A malformed result is skipped without aborting: the other results give the same entries. */
  lemma MalformedResultIsSkipped(a: seq<NotionResult>, bad: NotionResult, b: seq<NotionResult>)
    requires ParseResult(bad).None?
    ensures ParsedEntries(a + [bad] + b) == ParsedEntries(a) + ParsedEntries(b)
  {
    ParsedEntriesAppend(a + [bad], b);
    ParsedEntriesAppend(a, [bad]);
    assert [bad][..0] == [];
    assert ParsedEntries([bad]) == [];
    assert ParsedEntries(a + [bad]) == ParsedEntries(a);
  }

  /** An entry is produced exactly when some result parses to it. */
  lemma {:induction false} ParsedEntriesMembers(results: seq<NotionResult>, e: DateEntry)
    ensures e in ParsedEntries(results) <==> exists k :: 0 <= k < |results| && ParseResult(results[k]) == Some(e)
    decreases |results|
  {
    if results != [] {
      var init := results[..|results| - 1];
      ParsedEntriesMembers(init, e);
      if exists k :: 0 <= k < |results| && ParseResult(results[k]) == Some(e) {
        var k :| 0 <= k < |results| && ParseResult(results[k]) == Some(e);
        if k < |init| {
          assert init[k] == results[k];
        }
      }
      if exists k :: 0 <= k < |init| && ParseResult(init[k]) == Some(e) {
        var k :| 0 <= k < |init| && ParseResult(init[k]) == Some(e);
        assert results[k] == init[k];
      }
    }
  }

  /** When every result is well formed, there is exactly one entry per result, in order. */
  lemma {:induction false} WellFormedResultsGiveOneEntryEach(results: seq<NotionResult>)
    requires forall k :: 0 <= k < |results| ==> ParseResult(results[k]).Some?
    ensures |ParsedEntries(results)| == |results|
    ensures forall k :: 0 <= k < |results| ==> ParsedEntries(results)[k] == ParseResult(results[k]).value
    decreases |results|
  {
    if results != [] {
      var init := results[..|results| - 1];
      assert forall k :: 0 <= k < |init| ==> init[k] == results[k];
      WellFormedResultsGiveOneEntryEach(init);
    }
  }

  /** parseDatesAndRoomsFromNotion: a forEach over the results that pushes each entry it can read. */
  method ParseDatesAndRoomsFromNotion(results: seq<NotionResult>) returns (entries: seq<DateEntry>)
    ensures entries == ParsedEntries(results)
  {
    entries := [];
    for k := 0 to |results|
      invariant entries == ParsedEntries(results[..k])
    {
      assert results[..k + 1][..k] == results[..k];
      var result := results[k];
      if result.listings.Some? && |result.listings.value| > 0 && result.checkDate.Some? {
        var roomId := result.listings.value[0];
        var startDate := result.checkDate.value.start;
        var endDate := if result.checkDate.value.end.None? || result.checkDate.value.end.value == "" then startDate
                       else result.checkDate.value.end.value;
        entries := entries + [DateEntry(roomId, startDate, endDate)];
      }
    }
    assert results[..|results|] == results;
  }
}
