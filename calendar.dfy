/**
 * The value types the meeting finder consumes: a time range over the minutes of
 * one day, an event, and a meeting request. Their Java classes are not part of
 * this model, so what is written here is the behaviour the finder relies on,
 * stated as assumptions: minutes run from 0 to 1440, ranges are half-open
 * [start, end), and two ranges overlap when each starts before the other ends.
 */
module Calendar {

  /** First minute of the day. */
  const START_OF_DAY: int := 0
  /** The minute at which the day ends (24 * 60). */
  const END_OF_DAY: int := 1440

  /**
   * A range of minutes. `inclusive` records that the range was built as closed
   * at `end` (the finder does so for the slot that reaches END_OF_DAY); it is
   * carried as reported and plays no part in the interval arithmetic.
   */
  datatype TimeRange = TimeRange(start: int, end: int, inclusive: bool) {

    function Duration(): int {
      end - start
    }

    /** Lies inside the day and does not run backwards. */
    predicate Valid() {
      START_OF_DAY <= start <= end <= END_OF_DAY
    }

    /** Minute `m` is one of the minutes [start, end). */
    predicate Contains(m: int) {
      start <= m < end
    }

    /** Strict half-open overlap: each range starts before the other ends. */
    predicate Overlaps(other: TimeRange) {
      start < other.end && other.start < end
    }
  }

  /** The whole day, built like a slot that reaches the end of the day. */
  const WHOLE_DAY: TimeRange := TimeRange(START_OF_DAY, END_OF_DAY, true)

  /** A calendar entry: when it happens and who attends it. */
  datatype Event = Event(when: TimeRange, attendees: set<string>)

  /** Who must be able to meet, and for how many minutes. */
  datatype MeetingRequest = MeetingRequest(attendees: set<string>, duration: int)

  /**
   * For ranges that are not empty, the assumed `Overlaps` means exactly that
   * the two ranges share a minute.
   */
  lemma OverlapsIffSharedMinute(a: TimeRange, b: TimeRange)
    requires a.start < a.end && b.start < b.end
    ensures a.Overlaps(b) <==> exists m :: a.Contains(m) && b.Contains(m)
  {
    if a.Overlaps(b) {
      var m := if a.start <= b.start then b.start else a.start;
      assert a.Contains(m) && b.Contains(m);
    }
  }
}
