# Meeting-slot finder, modelled in Dafny

This project models `FindMeetingQuery`, the meeting-slot finder of the
week-5 walkthrough. The finder takes the day's calendar events and a meeting
request, and returns the free time ranges of that day that can hold a
meeting of the requested duration. It works in three steps:

- **Busy ranges** (`findBusyRanges`): keep the `when` range of every event
  whose attendee set is not disjoint from a given attendee set, then sort
  the ranges by start.
- **Free-range sweep** (`findFreeRanges`): make one left-to-right pass over
  the sorted busy ranges with a cursor that starts at `START_OF_DAY`.
  - Each gap `[cursor, busy.start)` that is at least `duration` long is emitted.
  - The cursor then moves to `max(cursor, busy.end)`, which merges
    overlapping busy ranges.
  - Finally, the rest of the day, `fromStartEnd(cursor, END_OF_DAY, true)`,
    is emitted only when `duration < END_OF_DAY - cursor`.
  - The interior test is `<=` and the day-closing test is `<`. The model
    keeps this difference.
- **Fallback policy** (`query`, `findFreeRangesAllAttendees`): compute the
  free ranges for the mandatory attendees. When there are optional
  attendees, also compute the free ranges over the mandatory and optional
  busy ranges, concatenated and sorted again. Then:
  - a non-empty all-attendee answer is returned;
  - an empty one is returned as is when there are no mandatory attendees;
  - otherwise the mandatory-only answer is returned.

Files and modules:

- `calendar.dfy`, module `Calendar`: `TimeRange`, `Event` and
  `MeetingRequest`, and the day bounds `START_OF_DAY` / `END_OF_DAY`.
  - The day bounds are constants whose values are left unspecified, so
    nothing proved depends on a particular length of day.
  - A `TimeRange` has a start, an end and an `inclusive` flag.
    - For an event's range, `start` and `end` are the values of `start()`
      and `end()`, and the range covers `[start, end)`.
    - For the day-closing range, the fields are the arguments given to
      `fromStartEnd(cursor, END_OF_DAY, true)`. `inclusive` marks that this
      range reaches past its end.
- `sorting.dfy`, module `Sorting`: ordering by start (`ORDER_BY_START`) and
  a stable insertion sort.
  - The Java library sorts used by the source are stable when the event
    collection has an iteration order, for example a `List`.
  - With zero-length busy ranges and a zero duration, the order of ranges
    with equal starts changes the sweep's output.
  - `StableSortIsUnique` shows that every stable sort by start returns
    exactly the model's sort.
- `free_ranges.dfy`, module `FreeRanges`: the sweep, written as a recursive
  function that carries the cursor. It also holds the source's loop as a
  method, and the lemmas about the sweep.
- `find_meeting_query.dfy`, module `FindMeetingQuery`: busy-range
  collection, the all-attendee computation, `query`, and the lemmas about
  the fallback policy.

In the source, both the event collection and the attendee sets are Java
collections. Events are a `seq<Event>` in iteration order, because that
order decides the order of equal-start ranges in a stable sort. Attendee
sets are `set<string>`.

The two fit tests differ:

- An interior gap is emitted when `duration <= endFreeRange - startFreeRange`
  (line 78, non-strict).
- The rest of the day is emitted only when
  `duration < END_OF_DAY - startFreeRange` (line 87, strict).
- So the only clear slot that is lost is the one that starts at the final
  cursor and ends exactly at `END_OF_DAY` (`SweepLosesFullClosingSlot`).
  A slot ending at `END_OF_DAY` that starts after the final cursor lies in
  the day-closing range (`SweepFindsEverySlot`).

## Model

| member | source | states |
|---|---|---|
| Sorting.SortByStartSorts | walkthroughs/week-5-tdd/project/src/main/java/com/google/sps/FindMeetingQuery.java:60 | the sorted busy list is non-decreasing by start and a permutation (equal multiset) of its input |
| Sorting.SortIsStable | walkthroughs/week-5-tdd/project/src/main/java/com/google/sps/FindMeetingQuery.java:60 | the sort is stable: for every start value, the ranges with that start appear in the same relative order as in the input |
| Sorting.StableSortIsUnique | walkthroughs/week-5-tdd/project/src/main/java/com/google/sps/FindMeetingQuery.java:102-103 | two start-sorted sequences that agree on the subsequence of every start value are equal |
| Sorting.LibrarySortAgrees | walkthroughs/week-5-tdd/project/src/main/java/com/google/sps/FindMeetingQuery.java:102-103 | any start-sorted, stable rearrangement of a list (such as the library's sorted copy) is exactly the model's sort of it |
| FindMeetingQuery.InvolvedRanges | walkthroughs/week-5-tdd/project/src/main/java/com/google/sps/FindMeetingQuery.java:57-59 | a range is kept iff it is the `when` of some event whose attendees are not disjoint from the given set; no attendees gives nothing |
| FindMeetingQuery.InvolvedRangesOne | walkthroughs/week-5-tdd/project/src/main/java/com/google/sps/FindMeetingQuery.java:57-59 | a single event contributes its `when` exactly once when its attendees meet the given set, and nothing otherwise |
| FindMeetingQuery.InvolvedRangesAppend | walkthroughs/week-5-tdd/project/src/main/java/com/google/sps/FindMeetingQuery.java:57-59 | the filter keeps one entry per involved event in event order: the ranges of two event lists in a row are the first list's ranges followed by the second's |
| FindMeetingQuery.FindBusyRanges | walkthroughs/week-5-tdd/project/src/main/java/com/google/sps/FindMeetingQuery.java:56-62 | the busy list is sorted by start, is a permutation of the involved events' ranges, contains a range iff some involved event has it, and is empty for an empty attendee set or no events |
| FreeRanges.FinalCursorBounds | walkthroughs/week-5-tdd/project/src/main/java/com/google/sps/FindMeetingQuery.java:71-84 | after the loop the cursor is at least its start and every busy range's end, and equals the start or one of those ends (it is their maximum) |
| FreeRanges.CursorMonotone | walkthroughs/week-5-tdd/project/src/main/java/com/google/sps/FindMeetingQuery.java:83 | the cursor never decreases from one busy range to the next, and after a busy range is processed it is at or past that range's end |
| FreeRanges.SweepFits | walkthroughs/week-5-tdd/project/src/main/java/com/google/sps/FindMeetingQuery.java:73-89 | every emitted range starts at or after the cursor, holds the duration (interior: at least `duration` long; closing: `duration < END_OF_DAY - start`), at most one more range than busy ranges, only the last may be inclusive |
| FreeRanges.FindFreeRanges | walkthroughs/week-5-tdd/project/src/main/java/com/google/sps/FindMeetingQuery.java:68-92 | every free range starts no earlier than `START_OF_DAY` and holds the requested duration |
| FreeRanges.FindFreeRangesLoop | walkthroughs/week-5-tdd/project/src/main/java/com/google/sps/FindMeetingQuery.java:68-92 | the source's loop with its list builder computes exactly the recursive sweep from `START_OF_DAY` |
| FreeRanges.SweepIsGapsThenClosing | walkthroughs/week-5-tdd/project/src/main/java/com/google/sps/FindMeetingQuery.java:73-89 | the sweep's output is, busy range by busy range, the gap before it when the meeting fits there, followed by the day-closing range from the largest busy end (or the start, if that is later) |
| FreeRanges.SweepClosesDay | walkthroughs/week-5-tdd/project/src/main/java/com/google/sps/FindMeetingQuery.java:86-89 | the day-closing range is emitted iff `duration < END_OF_DAY - cursor` for the final cursor, and it is `fromStartEnd(cursor, END_OF_DAY, true)` |
| FreeRanges.SweepInteriorRanges | walkthroughs/week-5-tdd/project/src/main/java/com/google/sps/FindMeetingQuery.java:73-84 | the non-inclusive ranges emitted are exactly the gaps `[cursor before busy i, busy[i].start)` whose length is at least `duration`, both directions |
| FreeRanges.SweepOrdered | walkthroughs/week-5-tdd/project/src/main/java/com/google/sps/FindMeetingQuery.java:68-91 | with well-formed busy ranges and `duration >= 0` the free ranges are well-formed, sorted by start and pairwise non-overlapping |
| FreeRanges.SweepAvoidsBusy | walkthroughs/week-5-tdd/project/src/main/java/com/google/sps/FindMeetingQuery.java:64-66 | given start-sorted busy ranges no free range overlaps any busy range, and the closing range starts after every busy range ends |
| FreeRanges.SweepFindsEverySlot | walkthroughs/week-5-tdd/project/src/main/java/com/google/sps/FindMeetingQuery.java:73-89 | every slot of length `duration` starting at or after the cursor and overlapping no busy range lies inside an emitted range, provided it ends before `END_OF_DAY` or starts after the final cursor (then the day-closing range holds it) |
| FreeRanges.SweepLosesFullClosingSlot | walkthroughs/week-5-tdd/project/src/main/java/com/google/sps/FindMeetingQuery.java:86-89 | with well-formed busy ranges and a positive duration, the slot from the final cursor to exactly `END_OF_DAY` lies in no emitted range, since the closing test is strict and every interior gap ends by the final cursor |
| FreeRanges.SweepMergesOverlap | walkthroughs/week-5-tdd/project/src/main/java/com/google/sps/FindMeetingQuery.java:82-83 | two busy ranges where the second starts before the first ends give the same free ranges as the one range from the first's start to the later end |
| FreeRanges.FreeRangesWithoutBusy | walkthroughs/week-5-tdd/project/src/main/java/com/google/sps/FindMeetingQuery.java:71-91 | with no busy ranges the result is the single inclusive whole-day range when `duration < END_OF_DAY - START_OF_DAY`, and empty otherwise |
| FreeRanges.SweepTooLong | walkthroughs/week-5-tdd/project/src/main/java/com/google/sps/FindMeetingQuery.java:78-88 | a duration longer than the day yields no range when no busy range starts after `END_OF_DAY` |
| FindMeetingQuery.AllBusyRanges | walkthroughs/week-5-tdd/project/src/main/java/com/google/sps/FindMeetingQuery.java:100-103 | the merged busy list is sorted by start and is a permutation of the mandatory list concatenated with the optional busy list |
| FindMeetingQuery.AllBusyRangesAreInvolved | walkthroughs/week-5-tdd/project/src/main/java/com/google/sps/FindMeetingQuery.java:99-103 | the merged busy list contains a range iff some event involving a mandatory or optional attendee has it |
| FindMeetingQuery.FindFreeRangesAllAttendees | walkthroughs/week-5-tdd/project/src/main/java/com/google/sps/FindMeetingQuery.java:99-107 | every all-attendee free range starts no earlier than `START_OF_DAY` and holds the duration |
| FindMeetingQuery.AllAttendeesFreeIsClear | walkthroughs/week-5-tdd/project/src/main/java/com/google/sps/FindMeetingQuery.java:99-106 | no all-attendee free range overlaps an event of a mandatory or an optional attendee |
| FindMeetingQuery.MandatoryFreeIsClear | walkthroughs/week-5-tdd/project/src/main/java/com/google/sps/FindMeetingQuery.java:31-32 | no mandatory-only free range overlaps an event of a mandatory attendee |
| FindMeetingQuery.Query | walkthroughs/week-5-tdd/project/src/main/java/com/google/sps/FindMeetingQuery.java:28-50 | every returned range starts no earlier than `START_OF_DAY` and holds the duration |
| FindMeetingQuery.QueryChoosesOne | walkthroughs/week-5-tdd/project/src/main/java/com/google/sps/FindMeetingQuery.java:39-49 | the answer is the empty list, the mandatory-only list or the all-attendee list |
| FindMeetingQuery.QueryIsClearForMandatory | walkthroughs/week-5-tdd/project/src/main/java/com/google/sps/FindMeetingQuery.java:28-50 | whichever list the fallback returns, no range in it overlaps an event of a mandatory attendee |
| FindMeetingQuery.QueryWithoutOptional | walkthroughs/week-5-tdd/project/src/main/java/com/google/sps/FindMeetingQuery.java:31-35 | with no optional attendees the answer is exactly the mandatory-only free ranges |
| FindMeetingQuery.QueryHonoursOptional | walkthroughs/week-5-tdd/project/src/main/java/com/google/sps/FindMeetingQuery.java:35-46 | with optional attendees and a non-empty all-attendee list, that list is returned and avoids every mandatory and optional event |
| FindMeetingQuery.QueryFallsBack | walkthroughs/week-5-tdd/project/src/main/java/com/google/sps/FindMeetingQuery.java:38-49 | with optional attendees and an empty all-attendee list the answer is empty without mandatory attendees and the mandatory-only list with them |
| FindMeetingQuery.QueryOrdered | walkthroughs/week-5-tdd/project/src/main/java/com/google/sps/FindMeetingQuery.java:28-50 | for well-formed events and `duration >= 0` the answer is sorted by start, well-formed and pairwise non-overlapping |
| FindMeetingQuery.QueryWithoutEvents | walkthroughs/week-5-tdd/project/src/main/java/com/google/sps/FindMeetingQuery.java:28-50 | with no events the answer is the inclusive whole-day range if `duration < END_OF_DAY - START_OF_DAY`, else empty |
| FindMeetingQuery.QueryTooLong | walkthroughs/week-5-tdd/project/src/main/java/com/google/sps/FindMeetingQuery.java:28-50 | a duration longer than the day gives an empty answer when no event starts after `END_OF_DAY` |
| FindMeetingQuery.QueryFindsEverySlot | walkthroughs/week-5-tdd/project/src/main/java/com/google/sps/FindMeetingQuery.java:28-50 | a slot clear of every mandatory and optional attendee's events lies inside some returned range, provided it ends before `END_OF_DAY` or starts after all those events have ended (and after `START_OF_DAY`) |
| FindMeetingQuery.QueryFallbackFindsEverySlot | walkthroughs/week-5-tdd/project/src/main/java/com/google/sps/FindMeetingQuery.java:31-49 | when there are mandatory attendees and the answer is the mandatory-only list (no optional attendees, or an empty all-attendee list), every slot clear of the mandatory attendees' events lies inside some returned range, provided it ends before `END_OF_DAY` or starts after all those events have ended (and after `START_OF_DAY`) |

## Left out

- `TimeRange`, `Event` and `MeetingRequest` are not part of this model
  beyond the fields the finder reads. Three things are not modelled:
  - how `fromStartEnd` turns the `inclusive` flag into a stored end or duration;
  - the values of `START_OF_DAY` and `END_OF_DAY`;
  - an event's title.
- FreeRanges.Fits: for the day-closing range, the property is the source's
  own test, `duration < END_OF_DAY - start`, rather than a range length.
  This is because the length of an inclusive range depends on the
  `TimeRange` class, which is not modelled.
- Java's 32-bit `int` arithmetic in `endFreeRange - startFreeRange` and
  `END_OF_DAY - startFreeRange` is not modelled. All quantities are minutes
  of one day, so they cannot wrap around.
- `ImmutableList`, streams, `Iterables.concat` and `Collections.emptyList`
  are modelled as Dafny sequences. The library sort is modelled as a stable
  insertion sort.
- FindMeetingQuery.QueryFindsEverySlot: completeness is stated for slots
  that suit every attendee. `QueryFallbackFindsEverySlot` covers slots that
  suit only the mandatory attendees when the answer is the mandatory-only
  list. For such a slot, nothing is promised when the all-attendee list is
  non-empty, because the source then returns that list.
- FindMeetingQuery.QueryFindsEverySlot, FindMeetingQuery.QueryFallbackFindsEverySlot:
  a slot ending at `END_OF_DAY` must start after every relevant event has
  ended and after `START_OF_DAY`. The excluded slot, one starting exactly at
  the final cursor, is really not returned, because the day-closing test is
  strict (`SweepLosesFullClosingSlot`).
- An event whose `when` was built inclusive is read through its `end` value
  alone, as the sweep reads `end()` at line 83. How `TimeRange` turns the
  flag into `end()` is not part of this model. The model gives such a busy
  range no extra minute.
- The event collection is a sequence, so ranges with equal starts keep their
  iteration order through the stable sort. For an unordered collection such
  as a `HashSet`, Java fixes no order among equal-start ranges; the model
  fixes one of the orders Java may produce.
- The comment servlets (`DataServlet`, `ListDataServlet`, `Comment`) and
  `script.js` are left out. They are HTTP, datastore, JSON, sentiment-scoring
  and browser code around a cloud store, with floating-point scores and no
  scheduling logic.
