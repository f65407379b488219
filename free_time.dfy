/**
 * What FindMeetingQuery.query computes, as functions: which events block the
 * requested attendees, the gaps between the merged busy ranges, and the slots
 * cut from the gaps that are long enough. The lemmas state what the result
 * promises: slots are valid, ordered and disjoint, free for every requested
 * attendee, and no free stretch of the requested length is missed.
 */
module FreeTime {
  import opened Calendar
  import opened BusyTimes

  // ---------------------------------------------------------------- blocking

  /** The event shares at least one attendee with the request. */
  predicate Blocks(e: Event, attendees: set<string>) {
    e.attendees * attendees != {}
  }

  /** The ranges of the blocking events, in the order the events come. */
  function Blocking(events: seq<Event>, attendees: set<string>): (busy: seq<TimeRange>)
    ensures |busy| <= |events|
    ensures forall r :: r in busy <==> exists e :: e in events && Blocks(e, attendees) && e.when == r
  {
    if events == [] then []
    else
      var last := events[|events| - 1];
      var front := events[..|events| - 1];
      assert events == front + [last];
      Blocking(front, attendees) + (if Blocks(last, attendees) then [last.when] else [])
  }

  /** Every event's range is a valid range of the day. */
  predicate EventsValid(events: seq<Event>) {
    forall e :: e in events ==> e.when.Valid()
  }

  /** Every event that blocks the attendees lasts at least a minute. */
  predicate BlockingNonEmpty(events: seq<Event>, attendees: set<string>) {
    forall e :: e in events && Blocks(e, attendees) ==> e.when.start < e.when.end
  }

  // ---------------------------------------------------------------- gaps

  /** Gap `k` starts where busy range k - 1 ends (the start of the day for k = 0). */
  function GapStart(busy: seq<TimeRange>, k: int): int
    requires 0 <= k <= |busy|
  {
    if k == 0 then START_OF_DAY else busy[k - 1].end
  }

  /** Gap `k` ends where busy range k starts (the end of the day for k = |busy|). */
  function GapEnd(busy: seq<TimeRange>, k: int): int
    requires 0 <= k <= |busy|
  {
    if k == |busy| then END_OF_DAY else busy[k].start
  }

  /** Gap `k` is not empty and lasts at least `duration` minutes. */
  predicate GapFits(busy: seq<TimeRange>, k: int, duration: int)
    requires 0 <= k <= |busy|
  {
    GapStart(busy, k) < GapEnd(busy, k) && GapEnd(busy, k) - GapStart(busy, k) >= duration
  }

  /** Gap `k` as a slot, closed when it reaches the end of the day. */
  function GapRange(busy: seq<TimeRange>, k: int): TimeRange
    requires 0 <= k <= |busy|
  {
    TimeRange(GapStart(busy, k), GapEnd(busy, k), GapEnd(busy, k) == END_OF_DAY)
  }

  /** The slot createSlot adds for the gap [start, end), if any. */
  function Slot(start: int, end: int, duration: int): seq<TimeRange> {
    if start < end && end - start >= duration then [TimeRange(start, end, end == END_OF_DAY)] else []
  }

  /** The slots of gaps 0 .. j - 1, in order. */
  function SlotsBefore(busy: seq<TimeRange>, j: int, duration: int): (slots: seq<TimeRange>)
    requires 0 <= j <= |busy| + 1
  {
    if j == 0 then []
    else SlotsBefore(busy, j - 1, duration) + Slot(GapStart(busy, j - 1), GapEnd(busy, j - 1), duration)
  }

  /** The slots of all |busy| + 1 gaps. */
  function GapSlots(busy: seq<TimeRange>, duration: int): seq<TimeRange> {
    SlotsBefore(busy, |busy| + 1, duration)
  }

  // ---------------------------------------------------------------- the query

  /** The query returns before merging: nobody to meet, too long a meeting, or nothing blocks. */
  predicate ReturnsEarly(events: seq<Event>, request: MeetingRequest) {
    || request.attendees == {}
    || request.duration >= WHOLE_DAY.Duration() + 1
    || Blocking(events, request.attendees) == []
  }

  /** The slots FindMeetingQuery.query adds for one request. */
  function FreeSlots(events: seq<Event>, request: MeetingRequest): seq<TimeRange> {
    if request.attendees == {} then [WHOLE_DAY]
    else if request.duration >= WHOLE_DAY.Duration() + 1 then []
    else
      var busy := Blocking(events, request.attendees);
      if busy == [] then [WHOLE_DAY]
      else GapSlots(Merge(SortByStart(busy)), request.duration)
  }

  // ---------------------------------------------------------------- lemmas on gaps

  /** The slots of gaps 0 .. j - 1 are exactly those gaps that fit. */
  lemma {:induction false} SlotsBeforeMembers(busy: seq<TimeRange>, j: int, duration: int)
    requires 0 <= j <= |busy| + 1
    ensures forall x :: x in SlotsBefore(busy, j, duration) <==>
              exists k :: 0 <= k < j && GapFits(busy, k, duration) && x == GapRange(busy, k)
    decreases j
  {
    if j > 0 {
      SlotsBeforeMembers(busy, j - 1, duration);
      var last := Slot(GapStart(busy, j - 1), GapEnd(busy, j - 1), duration);
      assert last == if GapFits(busy, j - 1, duration) then [GapRange(busy, j - 1)] else [];
      forall x ensures x in SlotsBefore(busy, j, duration) <==>
                 exists k :: 0 <= k < j && GapFits(busy, k, duration) && x == GapRange(busy, k)
      {
        if x in last {
          assert GapFits(busy, j - 1, duration) && x == GapRange(busy, j - 1);
        }
      }
    }
  }

  /** Over a start-sorted list of valid busy ranges, each slot ends before the next one starts. */
  lemma {:induction false} SlotsBeforeOrdered(busy: seq<TimeRange>, j: int, duration: int)
    requires 0 <= j <= |busy| + 1
    requires SortedByStart(busy) && AllValid(busy)
    ensures Separated(SlotsBefore(busy, j, duration))
    decreases j
  {
    if j > 0 {
      SlotsBeforeOrdered(busy, j - 1, duration);
      SlotsBeforeMembers(busy, j - 1, duration);
      var front := SlotsBefore(busy, j - 1, duration);
      var slots := SlotsBefore(busy, j, duration);
      forall p, q | 0 <= p < q < |slots| ensures slots[p].end <= slots[q].start {
        if q >= |front| {
          assert slots[p] == front[p];
          assert slots[p] in front;
          var k :| 0 <= k < j - 1 && GapFits(busy, k, duration) && slots[p] == GapRange(busy, k);
          assert slots == front + Slot(GapStart(busy, j - 1), GapEnd(busy, j - 1), duration);
          assert slots[q] == GapRange(busy, j - 1);
          assert busy[j - 2] in busy;
          assert slots[p].end == busy[k].start;
          assert busy[k].start <= busy[j - 2].start;
          assert slots[q].start == busy[j - 2].end;
        } else {
          assert slots[p] == front[p] && slots[q] == front[q];
          assert front[p].end <= front[q].start;
        }
      }
    }
  }

  /** Every gap and every slot cut from it lies inside the day. */
  lemma GapWithinDay(busy: seq<TimeRange>, k: int)
    requires AllValid(busy) && 0 <= k <= |busy|
    ensures START_OF_DAY <= GapStart(busy, k) && GapEnd(busy, k) <= END_OF_DAY
  {
    if k > 0 { assert busy[k - 1] in busy; }
    if k < |busy| { assert busy[k] in busy; }
  }

  /**
   * Over separated busy ranges, no minute of a gap is busy.
   */
  lemma GapMinutesFree(busy: seq<TimeRange>, k: int, m: int)
    requires SortedByStart(busy) && AllValid(busy) && Separated(busy)
    requires 0 <= k <= |busy| && GapStart(busy, k) <= m < GapEnd(busy, k)
    ensures m !in Cover(busy)
  {
    CoverMembers(busy, m);
    forall i | 0 <= i < |busy| ensures !busy[i].Contains(m) {
      if i >= k {
        assert busy[k].start <= busy[i].start;
      } else if i < k - 1 {
        assert busy[k - 1] in busy;
        assert busy[i].end <= busy[k - 1].start;
      }
    }
  }

  /**
   * A stretch [a, b) of the day with no busy minute, searched for from gap k on,
   * lies inside one gap.
   */
  lemma {:induction false} FreeStretchInGap(busy: seq<TimeRange>, a: int, b: int, k: int)
    requires AllNonEmpty(busy) && 0 <= k <= |busy|
    requires GapStart(busy, k) <= a < b <= END_OF_DAY
    requires forall m :: a <= m < b ==> m !in Cover(busy)
    ensures exists g :: k <= g <= |busy| && GapStart(busy, g) <= a && b <= GapEnd(busy, g)
    decreases |busy| - k
  {
    if k < |busy| && busy[k].start < b {
      assert busy[k] in busy;
      var m := if a <= busy[k].start then busy[k].start else a;
      CoverMembers(busy, m);
      if a < busy[k].end {
        assert busy[k].Contains(m);
        assert false;
      }
      FreeStretchInGap(busy, a, b, k + 1);
    }
  }

  // ---------------------------------------------------------------- the merged busy list

  /**
   * The busy list the query emits gaps over: start-sorted, valid, no adjacent
   * overlap, and covering the same minutes as the blocking events.
   */
  lemma MergedBusyFacts(events: seq<Event>, attendees: set<string>)
    requires EventsValid(events)
    ensures var merged := Merge(SortByStart(Blocking(events, attendees)));
            && SortedByStart(merged) && AllValid(merged) && NoAdjacentOverlap(merged)
            && Cover(merged) == Cover(Blocking(events, attendees))
            && (BlockingNonEmpty(events, attendees) ==> Separated(merged))
  {
    var busy := Blocking(events, attendees);
    var sorted := SortByStart(busy);
    SortKeepsMembers(busy);
    assert AllValid(sorted);
    MergeSorted(sorted);
    MergeNoAdjacentOverlap(sorted);
    MergeCover(sorted);
    CoverSameMembers(sorted, busy);
    if BlockingNonEmpty(events, attendees) {
      assert AllNonEmpty(sorted);
      MergeNonEmpty(sorted);
      SeparatedFromAdjacent(Merge(sorted));
    }
  }

  // ---------------------------------------------------------------- lemmas on the query

  /**
   * Every slot lies inside the day, is not empty, is closed exactly when it
   * reaches the end of the day, and (when attendees were named) lasts at least
   * the requested duration.
   */
  lemma FreeSlotsValid(events: seq<Event>, request: MeetingRequest)
    requires EventsValid(events)
    ensures forall x :: x in FreeSlots(events, request) ==>
              && START_OF_DAY <= x.start < x.end <= END_OF_DAY
              && x.inclusive == (x.end == END_OF_DAY)
              && (request.attendees != {} ==> x.Duration() >= request.duration)
  {
    if !ReturnsEarly(events, request) {
      var merged := Merge(SortByStart(Blocking(events, request.attendees)));
      MergedBusyFacts(events, request.attendees);
      SlotsBeforeMembers(merged, |merged| + 1, request.duration);
      forall x | x in FreeSlots(events, request)
        ensures START_OF_DAY <= x.start && x.end <= END_OF_DAY
      {
        var k :| 0 <= k < |merged| + 1 && GapFits(merged, k, request.duration) && x == GapRange(merged, k);
        GapWithinDay(merged, k);
      }
    }
  }

  /** Each slot ends no later than the next one starts: ascending and pairwise disjoint. */
  lemma FreeSlotsOrdered(events: seq<Event>, request: MeetingRequest)
    requires EventsValid(events)
    ensures Separated(FreeSlots(events, request))
  {
    if !ReturnsEarly(events, request) {
      var merged := Merge(SortByStart(Blocking(events, request.attendees)));
      MergedBusyFacts(events, request.attendees);
      SlotsBeforeOrdered(merged, |merged| + 1, request.duration);
      assert FreeSlots(events, request) == GapSlots(merged, request.duration);
    }
  }

  /**
   * No minute of any slot is taken by an event of a requested attendee,
   * provided every blocking event lasts at least a minute.
   */
  lemma FreeSlotsAvoidBusy(events: seq<Event>, request: MeetingRequest)
    requires EventsValid(events) && BlockingNonEmpty(events, request.attendees)
    ensures forall x, e, m ::
              x in FreeSlots(events, request) && e in events && Blocks(e, request.attendees) && x.Contains(m)
              ==> !e.when.Contains(m)
  {
    var attendees := request.attendees;
    var busy := Blocking(events, attendees);
    if !ReturnsEarly(events, request) {
      var merged := Merge(SortByStart(busy));
      MergedBusyFacts(events, attendees);
      GapSlotsAvoidBusy(merged, busy, request.duration);
      assert FreeSlots(events, request) == GapSlots(merged, request.duration);
      forall x, e, m | x in FreeSlots(events, request) && e in events && Blocks(e, attendees) && x.Contains(m)
        ensures !e.when.Contains(m)
      {
        assert e.when in busy;
      }
    } else if attendees != {} && request.duration < WHOLE_DAY.Duration() + 1 {
      forall e | e in events ensures !Blocks(e, attendees) {
        assert e.when !in busy;
      }
    }
  }

  /** No minute of a slot cut from separated busy ranges lies in any range covering the same minutes. */
  lemma GapSlotsAvoidBusy(merged: seq<TimeRange>, busy: seq<TimeRange>, duration: int)
    requires SortedByStart(merged) && AllValid(merged) && Separated(merged)
    requires Cover(merged) == Cover(busy)
    ensures forall x, r, m :: x in GapSlots(merged, duration) && r in busy && x.Contains(m) ==> !r.Contains(m)
  {
    SlotsBeforeMembers(merged, |merged| + 1, duration);
    forall x, r, m | x in GapSlots(merged, duration) && r in busy && x.Contains(m)
      ensures !r.Contains(m)
    {
      var k :| 0 <= k < |merged| + 1 && GapFits(merged, k, duration) && x == GapRange(merged, k);
      GapMinutesFree(merged, k, m);
      CoverMembers(busy, m);
    }
  }

  /**
   * Completeness: any stretch [a, b) of the day at least as long as the request
   * in which no requested attendee is busy lies inside one returned slot,
   * provided every blocking event lasts at least a minute.
   */
  lemma FreeSlotsComplete(events: seq<Event>, request: MeetingRequest, a: int, b: int)
    requires EventsValid(events) && BlockingNonEmpty(events, request.attendees)
    requires START_OF_DAY <= a < b <= END_OF_DAY && b - a >= request.duration
    requires forall e, m :: e in events && Blocks(e, request.attendees) && a <= m < b ==> !e.when.Contains(m)
    ensures exists x :: x in FreeSlots(events, request) && x.start <= a && b <= x.end
  {
    var busy := Blocking(events, request.attendees);
    if ReturnsEarly(events, request) {
      assert WHOLE_DAY in FreeSlots(events, request);
    } else {
      var sorted := SortByStart(busy);
      var merged := Merge(sorted);
      MergedBusyFacts(events, request.attendees);
      forall m | a <= m < b ensures m !in Cover(merged) {
        CoverMembers(busy, m);
      }
      SortKeepsMembers(busy);
      MergeNonEmpty(sorted);
      GapSlotsComplete(merged, request.duration, a, b);
      assert FreeSlots(events, request) == GapSlots(merged, request.duration);
    }
  }

  /** A free stretch [a, b) of at least `duration` minutes lies inside one slot of the gaps. */
  lemma GapSlotsComplete(busy: seq<TimeRange>, duration: int, a: int, b: int)
    requires AllNonEmpty(busy)
    requires START_OF_DAY <= a < b <= END_OF_DAY && b - a >= duration
    requires forall m :: a <= m < b ==> m !in Cover(busy)
    ensures exists x :: x in GapSlots(busy, duration) && x.start <= a && b <= x.end
  {
    FreeStretchInGap(busy, a, b, 0);
    var g :| 0 <= g <= |busy| && GapStart(busy, g) <= a && b <= GapEnd(busy, g);
    assert GapFits(busy, g, duration);
    SlotsBeforeMembers(busy, |busy| + 1, duration);
    assert GapRange(busy, g) in GapSlots(busy, duration);
  }

  /**
   * The positive-length proviso above is needed: a zero-length busy range that
   * shares its start with a longer one ahead of it is not merged into it (the
   * two do not overlap strictly), and the gap after it is reported free
   * although the longer range still covers its first minute.
   */
  lemma ZeroLengthBusyRangeLeaks(events: seq<Event>, request: MeetingRequest)
    requires events == [
               Event(TimeRange(5, 10, false), {"A"}),
               Event(TimeRange(5, 5, false), {"A"}),
               Event(TimeRange(6, 8, false), {"A"})]
    requires request == MeetingRequest({"A"}, 1)
    ensures Blocks(events[0], request.attendees) && events[0].when.Contains(5)
    ensures TimeRange(5, 6, false) in FreeSlots(events, request)
  {
    LeakingEventsBlock(events);
    LeakingBusyList([events[0].when, events[1].when, events[2].when]);
    assert "A" in request.attendees;
  }

  /** All three events of the example above block attendee "A", in input order. */
  lemma LeakingEventsBlock(events: seq<Event>)
    requires events == [
               Event(TimeRange(5, 10, false), {"A"}),
               Event(TimeRange(5, 5, false), {"A"}),
               Event(TimeRange(6, 8, false), {"A"})]
    ensures Blocks(events[0], {"A"})
    ensures Blocking(events, {"A"}) == [events[0].when, events[1].when, events[2].when]
  {
    assert Blocks(events[0], {"A"}) by { assert "A" in events[0].attendees * {"A"}; }
    assert Blocks(events[1], {"A"}) by { assert "A" in events[1].attendees * {"A"}; }
    assert Blocks(events[2], {"A"}) by { assert "A" in events[2].attendees * {"A"}; }
    assert events[..2][..1] == events[..1];
    assert events[..2] == events[..3][..2];
    assert Blocking(events[..1], {"A"}) == [events[0].when];
    assert Blocking(events[..2], {"A"}) == [events[0].when, events[1].when];
  }

  /** The busy list of the example above survives sorting and merging unchanged. */
  lemma LeakingBusyList(busy: seq<TimeRange>)
    requires busy == [TimeRange(5, 10, false), TimeRange(5, 5, false), TimeRange(6, 8, false)]
    ensures SortByStart(busy) == busy && Merge(busy) == busy
    ensures TimeRange(5, 6, false) in GapSlots(busy, 1)
  {
    LeakingSortStable(busy);
    // neither r0, r1 nor r1, r2 overlap strictly, so nothing is merged
    assert Merge(busy) == busy by {
      assert !busy[0].Overlaps(busy[1]) && !busy[1].Overlaps(busy[2]);
      MergeIdempotent(busy);
    }
    LeakingGap(busy);
  }

  /** The stable sort keeps the example's order: its first two ranges tie on start 5. */
  lemma LeakingSortStable(busy: seq<TimeRange>)
    requires busy == [TimeRange(5, 10, false), TimeRange(5, 5, false), TimeRange(6, 8, false)]
    ensures SortByStart(busy) == busy
  {
    var r0, r1, r2 := busy[0], busy[1], busy[2];
    assert busy[1..] == [r1, r2];
    assert [r1, r2][1..] == [r2];
    assert SortByStart([r2]) == [r2];
    assert SortByStart([r1, r2]) == [r1, r2];
  }

  /** Gap 2 of the example runs from the end of its second range (5) to the start of its third (6). */
  lemma LeakingGap(busy: seq<TimeRange>)
    requires busy == [TimeRange(5, 10, false), TimeRange(5, 5, false), TimeRange(6, 8, false)]
    ensures TimeRange(5, 6, false) in GapSlots(busy, 1)
  {
    assert GapFits(busy, 2, 1) && GapRange(busy, 2) == TimeRange(5, 6, false);
    assert SlotsBefore(busy, 3, 1) == SlotsBefore(busy, 2, 1) + [TimeRange(5, 6, false)];
    assert SlotsBefore(busy, 4, 1) == SlotsBefore(busy, 3, 1) + Slot(8, END_OF_DAY, 1);
  }

  /**
   * The positive-length proviso of FreeSlotsComplete is needed whatever
   * `overlaps` does: a zero-length blocking event at minute 3 takes no minute,
   * yet it still cuts the day into the gaps [0, 3) and [3, END_OF_DAY), so the
   * free stretch [0, 20) lies in no slot.
   */
  lemma ZeroLengthBusyRangeSplitsStretch(events: seq<Event>, request: MeetingRequest)
    requires events == [Event(TimeRange(3, 3, false), {"A"})]
    requires request == MeetingRequest({"A"}, 10)
    ensures forall e, m :: e in events && Blocks(e, request.attendees) && 0 <= m < 20 ==> !e.when.Contains(m)
    ensures FreeSlots(events, request) == [TimeRange(3, END_OF_DAY, true)]
    ensures !exists x :: x in FreeSlots(events, request) && x.start <= 0 && 20 <= x.end
  {
    var busy := [events[0].when];
    assert Blocking(events, request.attendees) == busy by {
      assert "A" in events[0].attendees * request.attendees;
      assert events[..0] == [];
    }
    assert SortByStart(busy) == busy;
    assert Merge(busy) == busy;
    assert SlotsBefore(busy, 1, 10) == [];
    assert SlotsBefore(busy, 2, 10) == [TimeRange(3, END_OF_DAY, true)];
  }
}
