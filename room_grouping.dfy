/**
 * The grouping step between parseDatesAndRoomsFromNotion and
 * findEmptyDatesByRoom (the /checkdate route and bot command): each entry's
 * `{startDate, endDate}` is pushed onto the list of its room's display name,
 * `roomNames[roomId] || "Unknown Room"`, keeping arrival order.
 */
module RoomGrouping {
  import opened Stays
  import opened NotionEntries

  const UnknownRoom := "Unknown Room"

  /** The display name of a room; a missing or empty name is replaced by "Unknown Room". */
  function RoomName(roomNames: map<string, string>, roomId: string): (name: string)
    ensures name != ""
    ensures name == UnknownRoom || (roomId in roomNames && name == roomNames[roomId])
    ensures roomId in roomNames && roomNames[roomId] != "" ==> name == roomNames[roomId]
  {
    if roomId in roomNames && roomNames[roomId] != "" then roomNames[roomId] else UnknownRoom
  }

  /** The range an entry contributes. */
  function RangeOf(e: DateEntry): (range: RawRange)
  {
    RawRange(e.startDate, e.endDate)
  }

  /** The ranges of the entries whose room is displayed as `room`, in entry order. */
  function RangesFor(entries: seq<DateEntry>, roomNames: map<string, string>, room: string): (r: seq<RawRange>)
    ensures |r| <= |entries|
  {
    if entries == [] then []
    else
      var e := entries[|entries| - 1];
      RangesFor(entries[..|entries| - 1], roomNames, room) + (if RoomName(roomNames, e.roomId) == room then [RangeOf(e)] else [])
  }

  /** The display names of the entries' rooms. */
  function RoomsOf(entries: seq<DateEntry>, roomNames: map<string, string>): (rooms: set<string>)
  {
    if entries == [] then {}
    else RoomsOf(entries[..|entries| - 1], roomNames) + {RoomName(roomNames, entries[|entries| - 1].roomId)}
  }

  /** A name is among the rooms exactly when some entry is displayed under it. */
  lemma {:induction false} RoomsOfNamesTheEntries(entries: seq<DateEntry>, roomNames: map<string, string>, room: string)
    ensures room in RoomsOf(entries, roomNames) <==> exists e :: e in entries && RoomName(roomNames, e.roomId) == room
    decreases |entries|
  {
    if entries != [] {
      var init, last := entries[..|entries| - 1], entries[|entries| - 1];
      assert entries == init + [last];
      RoomsOfNamesTheEntries(init, roomNames, room);
      if room in RoomsOf(init, roomNames) {
        var e :| e in init && RoomName(roomNames, e.roomId) == room;
        assert e in entries;
      }
    }
  }

  /** The dictionary the grouping loop builds, entry by entry. */
  function Grouped(entries: seq<DateEntry>, roomNames: map<string, string>): (byName: map<string, seq<RawRange>>)
    ensures byName.Keys == RoomsOf(entries, roomNames)
  {
    if entries == [] then map[]
    else
      var byRoom := Grouped(entries[..|entries| - 1], roomNames);
      var e := entries[|entries| - 1];
      var room := RoomName(roomNames, e.roomId);
      byRoom[room := (if room in byRoom then byRoom[room] else []) + [RangeOf(e)]]
  }

  /**
   * The grouped dictionary has one key per displayed room name that occurs,
   * and under it exactly that room's ranges in arrival order.
   */
  lemma {:induction false} GroupedIsRangesByRoom(entries: seq<DateEntry>, roomNames: map<string, string>)
    ensures Grouped(entries, roomNames).Keys == RoomsOf(entries, roomNames)
    ensures forall room :: room in Grouped(entries, roomNames) ==>
      Grouped(entries, roomNames)[room] == RangesFor(entries, roomNames, room) != []
    decreases |entries|
  {
    if entries != [] {
      var init := entries[..|entries| - 1];
      var e := entries[|entries| - 1];
      GroupedIsRangesByRoom(init, roomNames);
      assert entries == init + [e];
      forall room | room !in Grouped(init, roomNames)
        ensures RangesFor(init, roomNames, room) == []
      {
        RoomAbsentMeansNoRanges(init, roomNames, room);
      }
    }
  }

  /** A room name no entry is displayed under has no ranges. */
  lemma {:induction false} RoomAbsentMeansNoRanges(entries: seq<DateEntry>, roomNames: map<string, string>, room: string)
    requires room !in RoomsOf(entries, roomNames)
    ensures RangesFor(entries, roomNames, room) == []
    decreases |entries|
  {
    if entries != [] {
      var init := entries[..|entries| - 1];
      RoomAbsentMeansNoRanges(init, roomNames, room);
    }
  }

  /** Every entry's range is listed under its own room's display name. */
  lemma {:induction false} EveryEntryIsListedUnderItsRoom(entries: seq<DateEntry>, roomNames: map<string, string>, e: DateEntry)
    requires e in entries
    ensures RangeOf(e) in RangesFor(entries, roomNames, RoomName(roomNames, e.roomId))
    decreases |entries|
  {
    var init := entries[..|entries| - 1];
    if e != entries[|entries| - 1] {
      assert e in init by {
        assert entries == init + [entries[|entries| - 1]];
      }
      EveryEntryIsListedUnderItsRoom(init, roomNames, e);
    }
  }

  /** The grouping loop: fetch-or-create the room's list, then push onto it. */
  method GroupByRoom(dateEntries: seq<DateEntry>, roomNames: map<string, string>)
    returns (dateRangesByRoom: map<string, seq<RawRange>>)
    ensures dateRangesByRoom == Grouped(dateEntries, roomNames)
  {
    dateRangesByRoom := map[];
    for k := 0 to |dateEntries|
      invariant dateRangesByRoom == Grouped(dateEntries[..k], roomNames)
    {
      assert dateEntries[..k + 1][..k] == dateEntries[..k];
      var e := dateEntries[k];
      var roomName := if e.roomId in roomNames && roomNames[e.roomId] != "" then roomNames[e.roomId] else UnknownRoom;
      if roomName !in dateRangesByRoom {
        dateRangesByRoom := dateRangesByRoom[roomName := []];
      }
      dateRangesByRoom := dateRangesByRoom[roomName := dateRangesByRoom[roomName] + [RawRange(e.startDate, e.endDate)]];
    }
    assert dateEntries[..|dateEntries|] == dateEntries;
  }
}
