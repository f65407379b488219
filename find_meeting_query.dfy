/**
 * FindMeetingQuery: finds the slots of the day in which all requested
 * attendees are free. The object keeps the slots it has found in
 * `availableTimes` and the duration of the current request in
 * `meetingDuration`; each query that gets past the early exits appends to
 * `availableTimes` and returns it.
 */
module FindMeeting {
  import opened Calendar
  import opened BusyTimes
  import opened FreeTime

  class FindMeetingQuery {
    /** Slots found so far; appended to by CreateSlot, never cleared. */
    var availableTimes: seq<TimeRange>
    /** Duration of the request being answered, read by CreateSlot. */
    var meetingDuration: int

    constructor ()
      ensures availableTimes == [] && meetingDuration == 0
    {
      availableTimes := [];
      meetingDuration := 0;
    }

    /** Whether any of `attendees` goes to `event`: walks the attendees, stopping at the first hit. */
    static method ContainsAtLeastOneAttendee(event: Event, attendees: set<string>) returns (found: bool)
      ensures found <==> event.attendees * attendees != {}
    {
      var remaining := attendees;
      while remaining != {}
        invariant remaining <= attendees
        invariant event.attendees * (attendees - remaining) == {}
        decreases remaining
      {
        var attendee :| attendee in remaining;
        if attendee in event.attendees {
          assert attendee in event.attendees * attendees;
          return true;
        }
        remaining := remaining - {attendee};
      }
      assert attendees - remaining == attendees;
      return false;
    }

    /** The ranges of the events that some requested attendee goes to, in event order. */
    static method CollectUnavailable(events: seq<Event>, attendees: set<string>) returns (unavailable: seq<TimeRange>)
      ensures unavailable == Blocking(events, attendees)
    {
      unavailable := [];
      var k := 0;
      while k < |events|
        invariant 0 <= k <= |events|
        invariant unavailable == Blocking(events[..k], attendees)
      {
        var blocks := ContainsAtLeastOneAttendee(events[k], attendees);
        assert events[..k + 1][..k] == events[..k];
        if blocks {
          unavailable := unavailable + [events[k].when];
        }
        k := k + 1;
      }
      assert events[..k] == events;
    }

    /**
     * The merge loop. Walking index i over the list, if range i - 1 overlaps
     * range i, range i - 1 becomes their combination and range i is removed;
     * otherwise i moves on. Each round either shortens the list or advances i.
     */
    static method MergeOverlapping(sorted: seq<TimeRange>) returns (merged: seq<TimeRange>)
      ensures merged == Merge(sorted)
      ensures Cover(merged) == Cover(sorted)
      ensures SortedByStart(sorted) && AllValid(sorted) ==>
                SortedByStart(merged) && AllValid(merged) && NoAdjacentOverlap(merged)
    {
      var list := sorted;
      var i := 1;
      while i < |list|
        invariant 1 <= i
        invariant list == [] <==> sorted == []
        invariant list != [] ==> i <= |list| && Merge(sorted) == list[..i - 1] + Merge(list[i - 1..])
        decreases |list| - i
      {
        var curr := list[i - 1];
        var next := list[i];
        if curr.Overlaps(next) {
          var start := Min(curr.start, next.start);
          var end := Max(curr.end, next.end);
          var overlapped := TimeRange(start, end, false);
          MergeStepCombine(list, i);
          list := list[..i - 1] + [overlapped] + list[i + 1..];
        } else {
          MergeStepKeep(list, i);
          i := i + 1;
        }
      }
      merged := list;
      if merged != [] {
        assert merged[i - 1..] == [merged[i - 1]];
        assert merged[..i - 1] + [merged[i - 1]] == merged;
      }
      MergeCover(sorted);
      if SortedByStart(sorted) && AllValid(sorted) {
        MergeSorted(sorted);
        MergeNoAdjacentOverlap(sorted);
      }
    }

    /** Combining overlapping ranges i - 1 and i leaves what is still to be merged from i - 1 on unchanged. */
    static lemma MergeStepCombine(list: seq<TimeRange>, i: int)
      requires 1 <= i < |list| && list[i - 1].Overlaps(list[i])
      ensures var next := list[..i - 1] + [Combine(list[i - 1], list[i])] + list[i + 1..];
              && |next| == |list| - 1
              && next[..i - 1] == list[..i - 1]
              && Merge(next[i - 1..]) == Merge(list[i - 1..])
    {
      var next := list[..i - 1] + [Combine(list[i - 1], list[i])] + list[i + 1..];
      assert list[i - 1..][2..] == list[i + 1..];
      assert next[i - 1..] == [Combine(list[i - 1], list[i])] + list[i + 1..];
    }

    /** When ranges i - 1 and i do not overlap, range i - 1 is final and merging goes on from i. */
    static lemma MergeStepKeep(list: seq<TimeRange>, i: int)
      requires 1 <= i < |list| && !list[i - 1].Overlaps(list[i])
      ensures list[..i - 1] + Merge(list[i - 1..]) == list[..i] + Merge(list[i..])
    {
      assert list[i - 1..] == [list[i - 1]] + list[i..];
      assert list[..i] == list[..i - 1] + [list[i - 1]];
    }

    /**
     * Appending the slot of gap j to the slots found so far (`found`, which ends
     * with the slots of gaps 0 .. j - 1) gives the slots found so far up to gap j.
     */
    static lemma AppendGap(found: seq<TimeRange>, busy: seq<TimeRange>, j: int, duration: int)
      requires 0 <= j <= |busy|
      ensures found + SlotsBefore(busy, j + 1, duration)
              == (found + SlotsBefore(busy, j, duration)) + Slot(GapStart(busy, j), GapEnd(busy, j), duration)
    {
    }

    /** Adds the gap [start, end) as a slot if it is not empty and long enough. */
    method CreateSlot(start: int, end: int)
      modifies this
      ensures meetingDuration == old(meetingDuration)
      ensures availableTimes == old(availableTimes) + Slot(start, end, meetingDuration)
    {
      if start < end && end - start >= meetingDuration {
        var inclusive := end == END_OF_DAY;
        availableTimes := availableTimes + [TimeRange(start, end, inclusive)];
      }
    }

    /**
     * The gap loop: for each busy range j, the gap before it (from the start of
     * the day, or from the end of range j - 1) and, after the last range, the
     * gap up to the end of the day, each offered to CreateSlot.
     */
    method CreateSlots(unavailableTimes: seq<TimeRange>)
      requires unavailableTimes != []
      modifies this
      ensures meetingDuration == old(meetingDuration)
      ensures availableTimes == old(availableTimes) + GapSlots(unavailableTimes, meetingDuration)
    {
      var n := |unavailableTimes|;
      var j := 0;
      while j < n
        invariant 0 <= j <= n
        invariant meetingDuration == old(meetingDuration)
        invariant availableTimes == old(availableTimes) + SlotsBefore(unavailableTimes, if j == n then n + 1 else j, meetingDuration)
      {
        if j == 0 {
          CreateSlot(START_OF_DAY, unavailableTimes[j].start);
        } else {
          CreateSlot(unavailableTimes[j - 1].end, unavailableTimes[j].start);
        }
        AppendGap(old(availableTimes), unavailableTimes, j, meetingDuration);
        if j == n - 1 {
          CreateSlot(unavailableTimes[j].end, END_OF_DAY);
          AppendGap(old(availableTimes), unavailableTimes, n, meetingDuration);
        }
        j := j + 1;
      }
    }

    /**
     * The slots in which all of `request.attendees` are free for
     * `request.duration` minutes. The early exits return a fresh answer and
     * leave the object alone; otherwise the slots are appended to
     * `availableTimes`, which is returned.
     */
    method Query(events: seq<Event>, request: MeetingRequest) returns (r: seq<TimeRange>)
      modifies this
      ensures request.attendees == {} ==> r == [WHOLE_DAY]
      ensures request.attendees != {} && request.duration >= WHOLE_DAY.Duration() + 1 ==> r == []
      ensures (&& request.attendees != {} && request.duration < WHOLE_DAY.Duration() + 1
               && forall e :: e in events ==> !Blocks(e, request.attendees)) ==> r == [WHOLE_DAY]
      ensures ReturnsEarly(events, request) ==>
                && r == FreeSlots(events, request)
                && availableTimes == old(availableTimes) && meetingDuration == old(meetingDuration)
      ensures !ReturnsEarly(events, request) ==>
                && availableTimes == old(availableTimes) + FreeSlots(events, request)
                && meetingDuration == request.duration
                && r == availableTimes
    {
      if request.attendees == {} {
        return [WHOLE_DAY];
      }
      if request.duration >= WHOLE_DAY.Duration() + 1 {
        return [];
      }

      var unavailableTimes := CollectUnavailable(events, request.attendees);
      if unavailableTimes == [] {
        return [WHOLE_DAY];
      }
      assert exists e :: e in events && Blocks(e, request.attendees) by {
        assert unavailableTimes[0] in unavailableTimes;
      }

      unavailableTimes := SortByStart(unavailableTimes);
      unavailableTimes := MergeOverlapping(unavailableTimes);

      meetingDuration := request.duration;
      CreateSlots(unavailableTimes);
      return availableTimes;
    }
  }
}
