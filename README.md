# Meeting-slot finder

A Dafny model of `FindMeetingQuery`. Given the events of one day and a meeting
request (a set of attendees and a duration in minutes), the finder returns the
slots of the day in which every requested attendee is free for at least that
long. It works in five steps:

1. Early exits: an empty attendee set gives the whole day, and a duration longer than a day gives nothing.
2. Filter: it keeps the events that share an attendee with the request.
3. Empty case: it returns the whole day when no event is kept.
4. Sort and merge: it sorts the busy ranges by start and merges overlapping neighbours in place.
5. Emit gaps: it adds each gap that is non-empty and long enough as a slot.
   A slot that reaches the end of the day is marked inclusive.

The object keeps the slots it has found in its field `availableTimes` and the
requested duration in `meetingDuration`. A query that gets past the early exits
appends its slots to `availableTimes` and returns that list. The list is never
cleared, so a second query on the same object returns the earlier slots
followed by the new ones.

Files:

- `calendar.dfy` (module `Calendar`): the value types `TimeRange`, `Event` and
  `MeetingRequest`. Their Java classes are not part of this model, so the
  behaviour the finder relies on is stated as assumptions:
  - minutes run from 0 to `END_OF_DAY` = 1440;
  - a range covers the minutes [start, end);
  - `overlaps` is strict half-open overlap (each range starts before the other ends);
  - `inclusive` is a flag that is carried along but not interpreted.
- `busy_times.dfy` (module `BusyTimes`): the specification of sorting and merging.
  - `SortByStart` is a stable insertion sort, as `Collections.sort` is stable.
  - `Merge` is the merge loop written as a recursive function.
  - `Cover` is the set of busy minutes.
- `free_time.dfy` (module `FreeTime`): the specification of the whole query.
  - `Blocking` is the filter.
  - `SlotsBefore` and `GapSlots` compute the gap emission.
  - `FreeSlots` is what one query adds.
  - The lemmas state what the answer promises.
- `find_meeting_query.dfy` (module `FindMeeting`): the class `FindMeetingQuery`
  with the two fields. Its methods follow the Java code loop by loop, and each
  is proved against the functions above.

## Model

| member | source | states |
|---|---|---|
| FindMeeting.FindMeetingQuery.constructor | walkthroughs/week-5-tdd/project/src/main/java/com/google/sps/FindMeetingQuery.java:25-26 | a new finder has no slots yet and duration 0 |
| FindMeeting.FindMeetingQuery.ContainsAtLeastOneAttendee | walkthroughs/week-5-tdd/project/src/main/java/com/google/sps/FindMeetingQuery.java:84-91 | the early-return loop answers true exactly when the event's attendees and the requested attendees intersect |
| FindMeeting.FindMeetingQuery.CollectUnavailable | walkthroughs/week-5-tdd/project/src/main/java/com/google/sps/FindMeetingQuery.java:38-44 | the filter loop collects, in event order, the ranges of exactly the events that block the request (the list `Blocking` describes) |
| FindMeeting.FindMeetingQuery.MergeOverlapping | walkthroughs/week-5-tdd/project/src/main/java/com/google/sps/FindMeetingQuery.java:50-66 | the in-place merge loop ends, with the result `Merge` describes; it covers the same minutes as its input; on a start-sorted list of valid ranges its result is start-sorted and valid, and no range overlaps its neighbour |
| FindMeeting.FindMeetingQuery.MergeStepCombine | walkthroughs/week-5-tdd/project/src/main/java/com/google/sps/FindMeetingQuery.java:57-62 | combining overlapping neighbours i - 1 and i shortens the list by one, keeps the ranges before i - 1, and leaves the merge of the rest unchanged |
| FindMeeting.FindMeetingQuery.MergeStepKeep | walkthroughs/week-5-tdd/project/src/main/java/com/google/sps/FindMeetingQuery.java:63-65 | when neighbours i - 1 and i do not overlap, range i - 1 is final and advancing i leaves the overall merge unchanged |
| FindMeeting.FindMeetingQuery.CreateSlot | walkthroughs/week-5-tdd/project/src/main/java/com/google/sps/FindMeetingQuery.java:93-98 | appends the gap [start, end) when it is non-empty and at least `meetingDuration` long, marked inclusive exactly when it ends at END_OF_DAY; the duration is unchanged |
| FindMeeting.FindMeetingQuery.CreateSlots | walkthroughs/week-5-tdd/project/src/main/java/com/google/sps/FindMeetingQuery.java:70-79 | the gap loop appends, in order, the slots of the gap before the first busy range, the gaps between neighbours and the gap after the last one |
| FindMeeting.FindMeetingQuery.Query | walkthroughs/week-5-tdd/project/src/main/java/com/google/sps/FindMeetingQuery.java:29-82 | empty attendees give [WHOLE_DAY], checked before the duration; a duration of more than a day gives []; no blocking event gives [WHOLE_DAY]; the early exits leave both fields unchanged; otherwise `meetingDuration` becomes the requested duration, the new slots `FreeSlots` are appended after the earlier ones, and the whole list is returned |
| BusyTimes.Insert | walkthroughs/week-5-tdd/project/src/main/java/com/google/sps/FindMeetingQuery.java:51 | inserting into a start-sorted list keeps it start-sorted, adds one element, and puts either the new range or the old head first |
| BusyTimes.InsertPermutes | walkthroughs/week-5-tdd/project/src/main/java/com/google/sps/FindMeetingQuery.java:51 | inserting adds exactly one copy of the range and loses nothing |
| BusyTimes.ConsSorted | walkthroughs/week-5-tdd/project/src/main/java/com/google/sps/FindMeetingQuery.java:51 | a range that starts no later than the head of a start-sorted list can go in front of it |
| BusyTimes.SortByStart | walkthroughs/week-5-tdd/project/src/main/java/com/google/sps/FindMeetingQuery.java:51 | the result is sorted by start and is a permutation of the input |
| BusyTimes.SortKeepsMembers | walkthroughs/week-5-tdd/project/src/main/java/com/google/sps/FindMeetingQuery.java:51 | sorting keeps exactly the ranges it was given |
| BusyTimes.Merge | walkthroughs/week-5-tdd/project/src/main/java/com/google/sps/FindMeetingQuery.java:52-66 | merging never lengthens the list and gives an empty list only from an empty one |
| BusyTimes.CombineHeadSorted | walkthroughs/week-5-tdd/project/src/main/java/com/google/sps/FindMeetingQuery.java:57-61 | replacing two neighbours by their combination keeps a list start-sorted and valid and keeps the first start |
| BusyTimes.MergeSorted | walkthroughs/week-5-tdd/project/src/main/java/com/google/sps/FindMeetingQuery.java:52-66 | merging a start-sorted list of valid ranges keeps it start-sorted and valid with the same first start |
| BusyTimes.MergeNoAdjacentOverlap | walkthroughs/week-5-tdd/project/src/main/java/com/google/sps/FindMeetingQuery.java:52-66 | after merging a start-sorted list of valid ranges, no range overlaps its successor |
| BusyTimes.MergeIdempotent | walkthroughs/week-5-tdd/project/src/main/java/com/google/sps/FindMeetingQuery.java:52-66 | a list without adjacent overlaps is left as it is |
| BusyTimes.MergeNonEmpty | walkthroughs/week-5-tdd/project/src/main/java/com/google/sps/FindMeetingQuery.java:57-61 | merging makes no empty range out of non-empty ones |
| BusyTimes.SeparatedFromAdjacent | walkthroughs/week-5-tdd/project/src/main/java/com/google/sps/FindMeetingQuery.java:52-66 | in a start-sorted list of non-empty ranges without adjacent overlaps, every range ends before any later one starts |
| BusyTimes.CoverMembers | walkthroughs/week-5-tdd/project/src/main/java/com/google/sps/FindMeetingQuery.java:39-44 | a minute is busy exactly when some range of the list contains it |
| BusyTimes.CombineMinutes | walkthroughs/week-5-tdd/project/src/main/java/com/google/sps/FindMeetingQuery.java:57-60 | the combination of two overlapping ranges covers exactly the minutes of the two |
| BusyTimes.MergeCover | walkthroughs/week-5-tdd/project/src/main/java/com/google/sps/FindMeetingQuery.java:52-66 | merging keeps the set of busy minutes unchanged |
| BusyTimes.CoverSameMembers | walkthroughs/week-5-tdd/project/src/main/java/com/google/sps/FindMeetingQuery.java:51 | lists that hold the same ranges cover the same minutes |
| Calendar.OverlapsIffSharedMinute | walkthroughs/week-5-tdd/project/src/main/java/com/google/sps/FindMeetingQuery.java:57 | for non-empty ranges, the assumed overlap test holds exactly when the two ranges share a minute |
| FreeTime.Blocking | walkthroughs/week-5-tdd/project/src/main/java/com/google/sps/FindMeetingQuery.java:38-44 | the busy list has no more ranges than there are events, and a range is in it exactly when it is the range of an event that shares an attendee with the request |
| FreeTime.SlotsBeforeMembers | walkthroughs/week-5-tdd/project/src/main/java/com/google/sps/FindMeetingQuery.java:69-79 | the slots of the first j gaps are exactly those gaps that are non-empty and at least the requested duration long |
| FreeTime.SlotsBeforeOrdered | walkthroughs/week-5-tdd/project/src/main/java/com/google/sps/FindMeetingQuery.java:69-79 | over a start-sorted list of valid busy ranges, each slot ends no later than the next one starts |
| FreeTime.GapWithinDay | walkthroughs/week-5-tdd/project/src/main/java/com/google/sps/FindMeetingQuery.java:71-77 | every gap starts and ends within the day |
| FreeTime.GapMinutesFree | walkthroughs/week-5-tdd/project/src/main/java/com/google/sps/FindMeetingQuery.java:69-79 | over separated busy ranges, no minute of a gap is busy |
| FreeTime.FreeStretchInGap | walkthroughs/week-5-tdd/project/src/main/java/com/google/sps/FindMeetingQuery.java:69-79 | over busy ranges that all last at least a minute, a stretch of the day with no busy minute lies inside a single gap |
| FreeTime.MergedBusyFacts | walkthroughs/week-5-tdd/project/src/main/java/com/google/sps/FindMeetingQuery.java:50-66 | the list the gaps are cut from is start-sorted, valid and without adjacent overlaps; it covers the blocking events' minutes; it is separated when every blocking range is non-empty |
| FreeTime.FreeSlotsValid | walkthroughs/week-5-tdd/project/src/main/java/com/google/sps/FindMeetingQuery.java:93-98 | every slot lies within [START_OF_DAY, END_OF_DAY] and is non-empty; it is inclusive exactly when it ends at END_OF_DAY; it is at least the requested duration long when attendees were named |
| FreeTime.FreeSlotsOrdered | walkthroughs/week-5-tdd/project/src/main/java/com/google/sps/FindMeetingQuery.java:69-79 | slots come in ascending order and are pairwise disjoint |
| FreeTime.FreeSlotsAvoidBusy | walkthroughs/week-5-tdd/project/src/main/java/com/google/sps/FindMeetingQuery.java:69-79 | no minute of any slot is taken by an event of a requested attendee (every blocking event is assumed to be non-empty) |
| FreeTime.GapSlotsAvoidBusy | walkthroughs/week-5-tdd/project/src/main/java/com/google/sps/FindMeetingQuery.java:69-79 | over separated busy ranges, no minute of a slot lies in any busy range that covers the same minutes |
| FreeTime.FreeSlotsComplete | walkthroughs/week-5-tdd/project/src/main/java/com/google/sps/FindMeetingQuery.java:69-79 | every stretch of the day that is free for all requested attendees and at least the requested duration long lies inside one returned slot (every blocking event is assumed to be non-empty) |
| FreeTime.GapSlotsComplete | walkthroughs/week-5-tdd/project/src/main/java/com/google/sps/FindMeetingQuery.java:69-79 | over busy ranges that all last at least a minute, a free stretch of at least the duration lies inside one slot of the gaps |
| FreeTime.ZeroLengthBusyRangeLeaks | walkthroughs/week-5-tdd/project/src/main/java/com/google/sps/FindMeetingQuery.java:51-79 | without the non-empty assumption the promise fails: a blocking event [5, 10), a zero-length event at 5 and an event [6, 8) yield a slot [5, 6) although minute 5 is busy |
| FreeTime.ZeroLengthBusyRangeSplitsStretch | walkthroughs/week-5-tdd/project/src/main/java/com/google/sps/FindMeetingQuery.java:70-79 | without the non-empty assumption completeness fails: a lone zero-length event at minute 3 leaves [0, 20) free of busy minutes, yet the only slot for a 10-minute request is [3, END_OF_DAY) |
| FreeTime.LeakingEventsBlock | walkthroughs/week-5-tdd/project/src/main/java/com/google/sps/FindMeetingQuery.java:38-44 | all three events of that example block, in input order |
| FreeTime.LeakingBusyList | walkthroughs/week-5-tdd/project/src/main/java/com/google/sps/FindMeetingQuery.java:50-66 | that example's busy list survives sorting and merging unchanged, and gap [5, 6) becomes a slot |
| FreeTime.LeakingSortStable | walkthroughs/week-5-tdd/project/src/main/java/com/google/sps/FindMeetingQuery.java:51 | the stable sort keeps that example's order, in which the first two ranges tie on start |
| FreeTime.LeakingGap | walkthroughs/week-5-tdd/project/src/main/java/com/google/sps/FindMeetingQuery.java:69-79 | gap [5, 6) of that example becomes a slot |

## Left out

- `TimeRange`, `Event` and `MeetingRequest` are not part of this model. The model assumes how they behave:
  - `overlaps` is strict half-open overlap: a zero-length range at minute m overlaps only a range that contains m strictly inside, so it is never merged with a range that starts at m;
  - `fromStartEnd` builds the range [start, end) and only records the inclusive flag;
  - no end+1 adjustment is made for inclusive ranges;
  - two ranges are equal when start, end and flag are equal;
  - `WHOLE_DAY` is [START_OF_DAY, END_OF_DAY) with the inclusive flag set, like the slot that reaches the end of the day. The clause of `FreeSlotsValid` that slots are inclusive exactly when they end at END_OF_DAY holds for the early-exit answers only because of this choice.
- FreeTime.FreeSlotsAvoidBusy: assumes every blocking event lasts at least a minute. Under the assumed `overlaps`, a zero-length range that ties on start with a longer one is not merged into it, and the gap after it can cover busy minutes (`ZeroLengthBusyRangeLeaks`).
- FreeTime.FreeSlotsComplete: assumes every blocking event lasts at least a minute, for a different reason. A zero-length blocking event that no earlier busy range strictly contains stays a busy range of its own: the code emits a gap before it and a gap after it, so it splits a free stretch around it although it takes no minute. This does not depend on the assumed `overlaps`, because a single busy range is never merged. `ZeroLengthBusyRangeSplitsStretch` shows this: a zero-length event at minute 3 and a 10-minute request give only the slot [3, END_OF_DAY), and the free stretch [0, 20) lies in no slot. So in this code a zero-duration event of a requested attendee can still block a slot of positive length.
- FindMeeting.FindMeetingQuery.MergeOverlapping: `LinkedList.remove(Object)` at line 62 removes the first range *equal* to `next`, and the model removes the range at index i.
  - The two can differ only when an equal range appears earlier in the list.
  - In a start-sorted list this needs a zero-length range between the two copies.
- `Collections.sort` is modelled as a stable insertion sort. That stability is the reason for the `LeakingSortStable` order; stability for general inputs is not stated as a separate property.
- Java `int`/`long` overflow is not modelled: minutes and durations are unbounded integers. All values of interest are small.
- Aliasing is not modelled. In Java the returned collection is the `availableTimes` field itself. The model returns a copy of the field's value at the moment of return.
- Events and attendees are sequences and sets of values. Java's `Collection` iteration order for attendees does not matter to the result and is not modelled.
- The rest of the repository is not part of this model: the servlets, the browser script, `Constants` and `Comment`. They are HTTP handlers, datastore and language-API calls, and plain data holders.
- The model follows three behaviours of the code that a reader might not expect:
  - the finder is not stateless: `availableTimes` is never cleared, so each query appends to the slots of earlier ones;
  - there is one attendee tier and no optional-attendee fallback;
  - the empty-attendee check comes before the duration check.
