# Free dates of rental rooms — a Dafny model

The booking bot and its HTTP route answer one question: for each room, which
dates lie free between its reservations? Reservations come from a hosted
database as query results. `parseDatesAndRoomsFromNotion` turns them into
`{roomId, startDate, endDate}` entries. The caller groups the entries by room
display name. `findEmptyDatesByRoom` then keeps each room's valid stays,
sorts them by start and reports a free range between each two consecutive
stays where the first ends strictly before the next starts. When a booking
is entered, its dates are typed as `dd/MM/yyyy` and stored through
`convertToIsoDate` as `yyyy-MM-dd`.

Modules, one per piece of the pipeline:

- `Wrappers`: `Option` and `Result`.
- `Calendar`: leap years, month lengths, and a day number that orders valid dates as the calendar does.
- `IsoDates`: `convertToIsoDate`, the `dd/MM/yyyy` and `yyyy-MM-dd` readings and writings, and `ParseIsoInstant`, the engine's date parser for `yyyy-MM-dd` strings.
- `Stays`: the raw ranges of a room and which of them are kept.
- `StaySort`: the stable sort by start. `SortByStart` is a functional insertion sort and serves as the specification. `SortInPlace` sorts an array in place and is proved to give exactly that result.
- `EmptyDates`: the pairwise gap scan and the two imperative passes of `findEmptyDatesByRoom`.
- `NotionEntries`: `parseDatesAndRoomsFromNotion`.
- `RoomGrouping`: the grouping loop the callers run between the two functions. It appears in api/checkdate.js:32-39 and again in index.js:58-65.
- `Availability`: lemmas that connect the date converter, the query parser and the engine.
- `Scenarios`: concrete runs, including the cases where the code does not merge stays.

The engine takes the date parser as a parameter `parse: string -> Option<Instant>`. `None` stands for an Invalid Date, and an instant is compared the way `Date.getTime()` values are. `IsoDates.ParseIsoInstant` is the instance for `yyyy-MM-dd` strings. It counts instants in whole days, and `IsoDates.ParseIsoInstantOrdersDates` shows that this order is the calendar order.

## What the code does, and a merge-based reading it does not follow

The code is modelled as written. It does not merge overlapping stays, and it
does not treat a stay that begins the day after another ends as adjacent. A
range is "free" exactly when, in start order, one stay's end is strictly
before the next stay's start. The model proves the consequences:

- `Scenarios.ContainedStayLeavesOccupiedGap`: a short stay inside a longer one, followed by a third stay, produces a "free" range that the longer stay occupies.
- `Scenarios.BackToBackStaysStillLeaveAGap`: a stay ending on 29 February 2024 followed by one starting on 1 March 2024 still leaves the one-day range between them.
- `Scenarios.TieOrderChangesTheResult`: stays that share a start are kept in input order by the stable sort, so input order can change the result. No ordering by end breaks the tie.
- `EmptyDates.GapsAreFreeWhenStaysDoNotOverlap`: the reported ranges really are free when, in start order, no stay reaches past the start of the next one.
- `EmptyDates.FreeRangesComeFromSortedStays`: the free ranges come out in strictly increasing order of start and do not overlap one another.

## Model

| member | source | states |
|---|---|---|
| `IsoDates.ConvertToIsoDate` | utils.js:134-141 | success exactly when the input reads as a valid `dd/MM/yyyy` date; the result is a 10-character `yyyy-MM-dd` string that reads back as the same date; otherwise the error is "Invalid date format: " followed by the input |
| `IsoDates.ParseDayMonthYear` | utils.js:135-136 | a date is produced only when it is a real calendar day with a year of at least 1 |
| `IsoDates.ConvertAcceptsExactlyValidDates` | utils.js:134-138 | conversion succeeds if and only if the input is the `dd/MM/yyyy` writing of a valid date |
| `IsoDates.ConvertKeepsTheDate` | utils.js:139-140 | a valid date converts to its `yyyy-MM-dd` writing, which the engine's parser reads back as the same day |
| `IsoDates.DayMonthYearRoundTrip` | utils.js:135 | writing a valid date as `dd/MM/yyyy` and reading it gives the date back |
| `IsoDates.DayMonthYearCanonical` | utils.js:135 | an accepted `dd/MM/yyyy` string is exactly the writing of the date it denotes |
| `IsoDates.IsoCanonical` | utils.js:288-289 | a string the `yyyy-MM-dd` reading accepts is exactly the `yyyy-MM-dd` writing of the date it yields |
| `IsoDates.IsoRoundTrip` | utils.js:140 | writing a valid date as `yyyy-MM-dd` and reading it gives the date back |
| `IsoDates.ConvertRejectsDay31OfApril` | utils.js:136-137 | 31/04/2024 is rejected |
| `IsoDates.ConvertFollowsLeapYears` | utils.js:136-137 | 29/02/2023 and 29/02/1900 are rejected |
| `IsoDates.ConvertLeapDay` | utils.js:134-140 | 29/02/2024 becomes 2024-02-29 |
| `IsoDates.ParseIsoInstant` | utils.js:288-289 | an instant exists exactly for strings that read as a valid `yyyy-MM-dd` date |
| `IsoDates.ParseIsoInstantOrdersDates` | utils.js:291-294 | for two accepted strings, one instant is smaller exactly when its date is earlier, and the instants are equal exactly when the dates are |
| `IsoDates.ParseIso` | utils.js:288-289 | only valid calendar dates are produced |
| `Calendar.DayNumberOrdersDates` | utils.js:294 | for valid dates, day numbers are smaller exactly when the date is earlier, and equal exactly when the dates are equal |
| `Calendar.DaysInMonth` | utils.js:136 | month lengths are 28 to 31 days; 29 exactly for February of a leap year |
| `Stays.ParseRange` | utils.js:288-296 | a range is kept if and only if both bounds parse and the end is not before the start; it is kept as the parsed pair |
| `Stays.ValidRanges` | utils.js:287-300 | no more stays than raw ranges, and each kept stay has start not after end |
| `Stays.ValidRangesAppend` | utils.js:287-300 | each range is validated on its own: the stays of a concatenation are the concatenation of the stays |
| `Stays.InvalidRangeIsDropped` | utils.js:297-299 | an invalid range is dropped and the other stays of the room are unchanged |
| `Stays.ValidRangesMembers` | utils.js:287-300 | a stay is kept if and only if some raw range of the room parses to it |
| `Stays.AllInvalidMeansNoStays` | utils.js:287-300 | a room with no valid range has no stays |
| `StaySort.InsertByStart` | utils.js:302 | insertion adds one element |
| `StaySort.InsertByStartPermutes` | utils.js:302 | insertion adds exactly the inserted stay to the multiset of stays |
| `StaySort.InsertByStartSorted` | utils.js:302 | inserting into a sorted sequence keeps it sorted by start |
| `StaySort.InsertLandsAt` | utils.js:302 | an inserted stay lands right after the last stay that does not start later than it, with every later-starting stay after it |
| `StaySort.SortByStart` | utils.js:302 | sorting keeps the length |
| `StaySort.SortByStartSortsAndPermutes` | utils.js:302 | the sorted stays are ordered by non-decreasing start and are a permutation of the input |
| `StaySort.InsertKeepsTies` | utils.js:302 | insertion places a stay after the stays that share its start |
| `StaySort.SortByStartIsStable` | utils.js:302 | stays sharing a start keep their input order, so the result is that of any stable sort |
| `StaySort.InsertInPlace` | utils.js:302 | one insertion step on the array gives the functional insertion of that element, and the rest of the array is unchanged |
| `StaySort.SortInPlace` | utils.js:302 | the array ends up holding the sorted permutation of its old contents |
| `EmptyDates.EmptyRanges` | utils.js:284-311 | a room's free ranges, the gaps between its stably sorted valid stays: none with at most one valid stay, fewer free ranges than valid stays, and each with start strictly before end |
| `EmptyDates.Gaps` | utils.js:304-311 | no free range for fewer than two stays, at most one fewer than the stays otherwise, and every free range has start strictly before end |
| `EmptyDates.GapsAreExactlyTheGapPairs` | utils.js:305-311 | a range is reported if and only if it runs from the end of sorted stay i to the start of stay i+1 and that end is strictly before that start |
| `EmptyDates.GapsAreInOrder` | utils.js:302-311 | over sorted stays, each free range ends no later than the next one starts, starts strictly increase and ends never decrease |
| `EmptyDates.GapsAreFreeWhenStaysDoNotOverlap` | utils.js:305-311 | when sorted stays do not overlap, no instant strictly inside a free range lies in any stay |
| `EmptyDates.AllInvalidMeansNoFreeRange` | utils.js:283-313 | a room whose ranges are all invalid gets an empty list |
| `EmptyDates.InvalidRangeDoesNotChangeFreeRanges` | utils.js:287-311 | dropping an invalid range leaves the room's free ranges unchanged |
| `EmptyDates.FreeRangesComeFromSortedStays` | utils.js:302-311 | the free ranges are the gaps of a sorted permutation of the valid stays, in strictly increasing order of start and pairwise non-overlapping |
| `EmptyDates.TwoStays` | utils.js:302-311 | with two valid stays: one free range from the earlier-starting stay's end to the other's start when that end is strictly before that start, else none |
| `EmptyDates.FindEmptyRanges` | utils.js:284-313 | the per-room passes (filter, in-place sort, index loop) return exactly the room's free ranges |
| `EmptyDates.FindEmptyDatesByRoom` | utils.js:280-318 | the output has exactly the input's rooms, each mapped to its free ranges |
| `NotionEntries.EndOrStart` | utils.js:270 | an absent or empty end date becomes the start date; otherwise the end is kept |
| `NotionEntries.ParseResult` | utils.js:267-274 | an entry is produced if and only if the result has a first room relation and a check date; its room is the first relation, its start is the date's start, and its end is the date's end or, when that is absent or empty, the start |
| `NotionEntries.ParsedEntries` | utils.js:264-278 | no more entries than results |
| `NotionEntries.ParsedEntriesAppend` | utils.js:266-275 | results are handled one by one, in order |
| `NotionEntries.MalformedResultIsSkipped` | utils.js:272-274 | a malformed result is skipped and parsing goes on with the other results |
| `NotionEntries.ParsedEntriesMembers` | utils.js:266-275 | an entry is produced if and only if some result parses to it |
| `NotionEntries.WellFormedResultsGiveOneEntryEach` | utils.js:266-275 | with well-formed results there is exactly one entry per result, in result order |
| `NotionEntries.ParseDatesAndRoomsFromNotion` | utils.js:264-278 | the loop returns exactly the parsed entries |
| `RoomGrouping.RoomName` | api/checkdate.js:34 | the display name is never empty; it is the room's known non-empty name, or "Unknown Room" |
| `RoomGrouping.Grouped` | api/checkdate.js:32-39 | fetch-or-create the room's list, then push: the keys are exactly the display names of the entries' rooms |
| `RoomGrouping.RoomsOfNamesTheEntries` | api/checkdate.js:32-35 | a name is among the rooms exactly when some entry is displayed under it |
| `RoomGrouping.RangesFor` | api/checkdate.js:32-39 | no more ranges for one room than entries |
| `RoomGrouping.GroupedIsRangesByRoom` | api/checkdate.js:32-39 | the keys are exactly the displayed room names that occur; each holds that room's ranges in arrival order and is non-empty |
| `RoomGrouping.RoomAbsentMeansNoRanges` | api/checkdate.js:32-39 | a name no entry is displayed under has no ranges |
| `RoomGrouping.EveryEntryIsListedUnderItsRoom` | api/checkdate.js:32-39 | every entry's range is listed under its own room's display name |
| `RoomGrouping.GroupByRoom` | api/checkdate.js:32-39 | the loop builds exactly the grouped dictionary |
| `Availability.ConvertedBookingIsReadBack` | utils.js:288-296 | a booking stored through the converter is kept if and only if its end day is not before its start day, and then as the stay between those days |
| `Availability.MissingEndDateIsOneDayStay` | utils.js:270 | a reservation without an end date is a zero-length stay on its start day, kept whenever that day parses |
| `Scenarios.TwoStaysLeaveOneGap` | utils.js:302-311 | stays on 1-3 and 10-12 June 2024 leave one free range, 3 June to 10 June |
| `Scenarios.ReversedRangeIsDroppedAndSingleStayHasNoGap` | utils.js:287-311 | a reversed range is dropped, and the one valid stay left gives an empty list |
| `Scenarios.BackToBackStaysStillLeaveAGap` | utils.js:305-311 | a stay that starts the day after another ends still leaves a one-day free range |
| `Scenarios.ContainedStayLeavesOccupiedGap` | utils.js:302-311 | without merging, a stay inside a longer one leads to a "free" range that the longer stay occupies |
| `Scenarios.TieOrderChangesTheResult` | utils.js:302-311 | the input order of stays that share a start changes the free ranges |

## Left out

- Network calls to the reservation database and the payloads they build are not modelled: `fetchNotionDatabase`, `addPersonToNotion`, `addReservationToNotion`, `addOksanaToNotion`, `fetchCheckInData`, `fetchListingsFromNotion`, `getRoomNames` and `getPersonNames`. The room-name dictionary that `getRoomNames` builds is a parameter of the grouping step.
- The today/tomorrow dates of `fetchCheckInData` are not modelled, because they depend on the wall clock.
- The Telegram command handlers and the booking wizard in main.js and index.js are not modelled. They are glue around network calls and replies.
- The Express routes, webhook setup and environment configuration are not modelled, including the route's "No valid date entries found" error at api/checkdate.js:22-24.
- `IsoDates.ConvertToIsoDate`: the `addHours(parsedDate, 3)` and `toISOString` step is taken to keep the calendar date. That holds only when the host's UTC offset lies between -21 and +3 hours. Other offsets shift the date by a day and are not modelled.
- `IsoDates.ParseDayMonthYear`: the date library's `parse` also accepts a one-digit day or month, a year written with fewer than four digits, and trailing whitespace. The model accepts only two digits, two digits and four digits.
- `IsoDates.ParseIsoInstant`: it reads only the `yyyy-MM-dd` calendar form. The library's `parseISO` also accepts date-times with offsets, week and ordinal dates, and extended years. That is why the engine is modelled over any parser.
- Instants are counted in days rather than in milliseconds of local time. This order-preserving change is exact for date-only strings.
- Display formatting and all console logging are not modelled, including the log line for an invalid range (utils.js:298).
- The free ranges are pairs of instants, not `Date` objects.
- `NotionEntries.ParseResult`: a relation entry without an `id` and a date value without a `start` do not occur in the database's answers. In JavaScript they would give an `undefined` room or start instead of throwing; they are not modelled.
- `RoomGrouping.GroupByRoom`: room names that clash with properties every JavaScript object inherits (`constructor`, `toString`, …) make the source's existence test misfire. They are not modelled; the model treats every name as a plain key.
- The key order of `Object.keys` is not modelled, because the report is a map.
