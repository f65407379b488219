/**
 * Busy ranges: ordering them by start (Collections.sort with
 * TimeRange.ORDER_BY_START) and folding overlapping neighbours together (the
 * merge loop of FindMeetingQuery.query). The functions here are the
 * specification the merge method in FindMeeting is proved against.
 */
module BusyTimes {
  import opened Calendar

  predicate SortedByStart(s: seq<TimeRange>) {
    forall i, j :: 0 <= i < j < |s| ==> s[i].start <= s[j].start
  }

  predicate AllValid(s: seq<TimeRange>) {
    forall r :: r in s ==> r.Valid()
  }

  predicate AllNonEmpty(s: seq<TimeRange>) {
    forall r :: r in s ==> r.start < r.end
  }

  /** No range overlaps the one right after it. */
  predicate NoAdjacentOverlap(s: seq<TimeRange>) {
    forall k :: 0 < k < |s| ==> !s[k - 1].Overlaps(s[k])
  }

  /** Every range ends before any later range starts. */
  predicate Separated(s: seq<TimeRange>) {
    forall i, j :: 0 <= i < j < |s| ==> s[i].end <= s[j].start
  }

  function Min(x: int, y: int): int {
    if x <= y then x else y
  }

  function Max(x: int, y: int): int {
    if x <= y then y else x
  }

  // ---------------------------------------------------------------- sorting

  /** Places `x` before the first range that starts no earlier than it. */
  function Insert(x: TimeRange, s: seq<TimeRange>): (r: seq<TimeRange>)
    requires SortedByStart(s)
    ensures SortedByStart(r)
    ensures |r| == |s| + 1
    ensures r[0] == x || (s != [] && r[0] == s[0])
  {
    if s == [] then [x]
    else if x.start <= s[0].start then [x] + s
    else
      var rest := Insert(x, s[1..]);
      ConsSorted(s[0], rest);
      [s[0]] + rest
  }

  /** Inserting adds exactly one copy of the range and loses nothing. */
  lemma {:induction false} InsertPermutes(x: TimeRange, s: seq<TimeRange>)
    requires SortedByStart(s)
    ensures multiset(Insert(x, s)) == multiset(s) + multiset{x}
    decreases |s|
  {
    if s != [] && x.start > s[0].start {
      InsertPermutes(x, s[1..]);
      assert s == [s[0]] + s[1..];
      assert Insert(x, s) == [s[0]] + Insert(x, s[1..]);
    }
  }

  /** A range no later than the head of a start-sorted list can go in front of it. */
  lemma ConsSorted(a: TimeRange, t: seq<TimeRange>)
    requires SortedByStart(t) && (t != [] ==> a.start <= t[0].start)
    ensures SortedByStart([a] + t)
  {
    var u := [a] + t;
    forall i, j | 0 <= i < j < |u| ensures u[i].start <= u[j].start {
      if i == 0 { assert u[j] == t[j - 1]; }
      else { assert u[i] == t[i - 1] && u[j] == t[j - 1]; }
    }
  }

  /**
   * Insertion sort by start. Each range is inserted ahead of the later ranges
   * with the same start, so ties keep their input order, as with the stable
   * Collections.sort.
   */
  function SortByStart(s: seq<TimeRange>): (r: seq<TimeRange>)
    ensures SortedByStart(r)
    ensures multiset(r) == multiset(s)
  {
    if s == [] then []
    else
      assert s == [s[0]] + s[1..];
      var sorted := SortByStart(s[1..]);
      InsertPermutes(s[0], sorted);
      Insert(s[0], sorted)
  }

  /** Sorting keeps exactly the ranges it was given. */
  lemma SortKeepsMembers(s: seq<TimeRange>)
    ensures forall r :: r in SortByStart(s) <==> r in s
  {
    var t := SortByStart(s);
    forall r ensures r in t <==> r in s {
      assert r in t <==> r in multiset(t);
      assert r in s <==> r in multiset(s);
    }
  }

  // ---------------------------------------------------------------- merging

  /** The range that replaces two overlapping neighbours. */
  function Combine(a: TimeRange, b: TimeRange): TimeRange {
    TimeRange(Min(a.start, b.start), Max(a.end, b.end), false)
  }

  /**
   * The merge loop as a function: while the first two ranges overlap, replace
   * them by their combination; otherwise keep the first and go on with the rest.
   */
  function Merge(s: seq<TimeRange>): (r: seq<TimeRange>)
    ensures |r| <= |s|
    ensures r == [] <==> s == []
    decreases |s|
  {
    if |s| <= 1 then s
    else if s[0].Overlaps(s[1]) then Merge([Combine(s[0], s[1])] + s[2..])
    else [s[0]] + Merge(s[1..])
  }

  /** Replacing the first two ranges by their combination keeps a list start-sorted and valid. */
  lemma CombineHeadSorted(s: seq<TimeRange>)
    requires |s| >= 2 && SortedByStart(s) && AllValid(s)
    ensures var t := [Combine(s[0], s[1])] + s[2..];
            SortedByStart(t) && AllValid(t) && t[0].start == s[0].start
  {
    var t := [Combine(s[0], s[1])] + s[2..];
    assert t[0].Valid() by { assert s[0] in s && s[1] in s; }
    forall r | r in t ensures r.Valid() {
      if r != t[0] { assert r in s[2..]; }
    }
    forall i, j | 0 <= i < j < |t| ensures t[i].start <= t[j].start {
      if i > 0 { assert t[i] == s[i + 1] && t[j] == s[j + 1]; }
      else { assert t[j] == s[j + 1]; }
    }
  }

  /**
   * Merging a start-sorted list of valid ranges gives a start-sorted list of
   * valid ranges with the same first start; an empty first range is kept as is.
   */
  lemma {:induction false} MergeSorted(s: seq<TimeRange>)
    requires SortedByStart(s) && AllValid(s)
    ensures SortedByStart(Merge(s)) && AllValid(Merge(s))
    ensures s != [] ==> Merge(s)[0].start == s[0].start
    ensures s != [] && s[0].start == s[0].end ==> Merge(s)[0] == s[0]
    decreases |s|
  {
    if |s| <= 1 {
    } else if s[0].Overlaps(s[1]) {
      var t := [Combine(s[0], s[1])] + s[2..];
      CombineHeadSorted(s);
      MergeSorted(t);
    } else {
      var t := s[1..];
      assert AllValid(t) by { forall r | r in t ensures r.Valid() { assert r in s; } }
      MergeSorted(t);
      var m := Merge(t);
      assert Merge(s) == [s[0]] + m;
      assert s[0].Valid() by { assert s[0] in s; }
      forall i, j | 0 <= i < j < |Merge(s)| ensures Merge(s)[i].start <= Merge(s)[j].start {
        if i == 0 {
          assert m[0].start == s[1].start;
          assert m[0].start <= m[j - 1].start;
        }
      }
    }
  }

  /**
   * After merging a start-sorted list of valid ranges no range overlaps its
   * successor: no two neighbours could be merged further.
   */
  lemma {:induction false} MergeNoAdjacentOverlap(s: seq<TimeRange>)
    requires SortedByStart(s) && AllValid(s)
    ensures NoAdjacentOverlap(Merge(s))
    decreases |s|
  {
    if |s| <= 1 {
    } else if s[0].Overlaps(s[1]) {
      var t := [Combine(s[0], s[1])] + s[2..];
      CombineHeadSorted(s);
      MergeNoAdjacentOverlap(t);
    } else {
      var t := s[1..];
      assert AllValid(t) by { forall r | r in t ensures r.Valid() { assert r in s; } }
      MergeNoAdjacentOverlap(t);
      MergeSorted(t);
      var m := Merge(t);
      assert Merge(s) == [s[0]] + m;
      assert s[1].Valid() by { assert s[1] in s; }
      // m starts where s[1] starts; if s[1] is empty it is m's head itself
      assert !s[0].Overlaps(m[0]);
    }
  }

  /** Merging a list whose neighbours do not overlap changes nothing. */
  lemma {:induction false} MergeIdempotent(s: seq<TimeRange>)
    requires NoAdjacentOverlap(s)
    ensures Merge(s) == s
    decreases |s|
  {
    if |s| > 1 {
      assert !s[0].Overlaps(s[1]);
      MergeIdempotent(s[1..]);
      assert s == [s[0]] + s[1..];
    }
  }

  /** Merging never produces an empty range out of non-empty ones. */
  lemma {:induction false} MergeNonEmpty(s: seq<TimeRange>)
    requires AllNonEmpty(s)
    ensures AllNonEmpty(Merge(s))
    decreases |s|
  {
    if |s| <= 1 {
    } else if s[0].Overlaps(s[1]) {
      var t := [Combine(s[0], s[1])] + s[2..];
      assert s[0] in s;
      assert AllNonEmpty(t) by {
        forall r | r in t ensures r.start < r.end {
          if r != t[0] { assert r in s[2..]; }
        }
      }
      MergeNonEmpty(t);
    } else {
      var t := s[1..];
      assert AllNonEmpty(t) by { forall r | r in t ensures r.start < r.end { assert r in s; } }
      MergeNonEmpty(t);
      assert Merge(s) == [s[0]] + Merge(t);
      assert s[0] in s;
    }
  }

  /**
   * In a start-sorted list of non-empty ranges without adjacent overlaps,
   * every range ends before any later one starts.
   */
  lemma {:induction false} SeparatedFromAdjacent(s: seq<TimeRange>)
    requires SortedByStart(s) && NoAdjacentOverlap(s) && AllNonEmpty(s)
    ensures Separated(s)
    decreases |s|
  {
    if |s| > 1 {
      var t := s[1..];
      assert AllNonEmpty(t) by { forall r | r in t ensures r.start < r.end { assert r in s; } }
      SeparatedFromAdjacent(t);
      assert s[1] in s;
      assert !s[0].Overlaps(s[1]);
      assert s[0].end <= s[1].start;
      forall i, j | 0 <= i < j < |s| ensures s[i].end <= s[j].start {
        if i == 0 && j > 1 {
          assert t[0].end <= t[j - 1].start;
        } else if i > 0 {
          assert t[i - 1].end <= t[j - 1].start;
        }
      }
    }
  }

  // ---------------------------------------------------------------- coverage

  /**
   * The minutes a range covers. The explicit bounds only let Dafny see that the
   * set is finite; `Contains` says the same.
   */
  function Minutes(r: TimeRange): set<int> {
    set m | r.start <= m < r.end && r.Contains(m)
  }

  /** The minutes covered by any range of the list. */
  function Cover(s: seq<TimeRange>): set<int> {
    if s == [] then {} else Minutes(s[0]) + Cover(s[1..])
  }

  /** A minute is covered exactly when some range of the list contains it. */
  lemma {:induction false} CoverMembers(s: seq<TimeRange>, m: int)
    ensures m in Cover(s) <==> exists r :: r in s && r.Contains(m)
    decreases |s|
  {
    if s != [] {
      CoverMembers(s[1..], m);
      assert forall r :: r in s <==> r == s[0] || r in s[1..];
    }
  }

  /** Two overlapping ranges together cover exactly the minutes of their combination. */
  lemma CombineMinutes(a: TimeRange, b: TimeRange)
    requires a.Overlaps(b)
    ensures Minutes(Combine(a, b)) == Minutes(a) + Minutes(b)
  {
  }

  /** Merging keeps the set of busy minutes unchanged. */
  lemma {:induction false} MergeCover(s: seq<TimeRange>)
    ensures Cover(Merge(s)) == Cover(s)
    decreases |s|
  {
    if |s| <= 1 {
    } else if s[0].Overlaps(s[1]) {
      var t := [Combine(s[0], s[1])] + s[2..];
      MergeCover(t);
      CombineMinutes(s[0], s[1]);
      assert t[1..] == s[2..];
      assert s[1..][1..] == s[2..];
      assert Cover(s) == Minutes(s[0]) + (Minutes(s[1]) + Cover(s[2..]));
    } else {
      MergeCover(s[1..]);
      assert Merge(s) == [s[0]] + Merge(s[1..]);
      assert ([s[0]] + Merge(s[1..]))[1..] == Merge(s[1..]);
    }
  }

  /** Lists holding the same ranges cover the same minutes. */
  lemma CoverSameMembers(s: seq<TimeRange>, t: seq<TimeRange>)
    requires forall r :: r in s <==> r in t
    ensures Cover(s) == Cover(t)
  {
    forall m ensures m in Cover(s) <==> m in Cover(t) {
      CoverMembers(s, m);
      CoverMembers(t, m);
    }
  }
}
