/**
 * get_top_suggestions: a meeting's suggested slots ordered by available
 * count (most first), then start time (earliest first), filtered on the
 * availability percentage and cut with a Python slice [:limit].
 */
module Ranking {
  import opened Models
  import opened Store

  /** Whether a may be listed before b: more available, or as many and starting no later. */
  predicate RankedBefore(a: SuggestedSlot, b: SuggestedSlot) {
    a.availableCount > b.availableCount || (a.availableCount == b.availableCount && a.startTime <= b.startTime)
  }

  /** order_by('-available_count', 'start_time') holds along the whole sequence. */
  predicate Ranked(s: seq<SuggestedSlot>) {
    forall i, j :: 0 <= i < j < |s| ==> RankedBefore(s[i], s[j])
  }

  /** Inserts x in front of the first row it may precede. */
  function Insert(x: SuggestedSlot, s: seq<SuggestedSlot>): (r: seq<SuggestedSlot>)
    requires Ranked(s)
    ensures Ranked(r)
    ensures multiset(r) == multiset(s) + multiset{x}
  {
    if s == [] || RankedBefore(x, s[0]) then [x] + s
    else
      var rest := Insert(x, s[1..]);
      assert s == [s[0]] + s[1..];
      forall y | y in rest
        ensures RankedBefore(s[0], y)
      {
        assert y in multiset(rest);
        if y != x {
          assert y in s[1..];
        }
      }
      [s[0]] + rest
  }

  /** The rows sorted by rank; rows that tie keep their table order. */
  function Sort(s: seq<SuggestedSlot>): (r: seq<SuggestedSlot>)
    ensures Ranked(r)
    ensures multiset(r) == multiset(s)
  {
    if s == [] then []
    else
      assert s == [s[0]] + s[1..];
      Insert(s[0], Sort(s[1..]))
  }

  /** The rows whose availability percentage is at least minPct, in order. */
  function AtLeast(s: seq<SuggestedSlot>, minPct: real): (r: seq<SuggestedSlot>)
    ensures |r| <= |s|
    ensures forall x :: x in r <==> x in s && AvailabilityPercentage(x) >= minPct
  {
    if s == [] then []
    else
      var last := s[|s| - 1];
      AtLeast(s[..|s| - 1], minPct) + (if AvailabilityPercentage(last) >= minPct then [last] else [])
  }

  /** Filtering keeps the relative order, so it keeps a ranked sequence ranked. */
  lemma {:induction false} AtLeastRanked(s: seq<SuggestedSlot>, minPct: real)
    requires Ranked(s)
    ensures Ranked(AtLeast(s, minPct))
  {
    if s != [] {
      var p, last := s[..|s| - 1], s[|s| - 1];
      assert Ranked(p);
      AtLeastRanked(p, minPct);
      forall y | y in AtLeast(p, minPct)
        ensures RankedBefore(y, last)
      {
        var i :| 0 <= i < |p| && p[i] == y;
        assert s[i] == y;
      }
    }
  }

  /** Filtering distributes over concatenation. */
  lemma {:induction false} AtLeastAppend(a: seq<SuggestedSlot>, b: seq<SuggestedSlot>, minPct: real)
    ensures AtLeast(a + b, minPct) == AtLeast(a, minPct) + AtLeast(b, minPct)
  {
    if b != [] {
      var p, last := b[..|b| - 1], b[|b| - 1];
      assert (a + b)[..|a + b| - 1] == a + p;
      assert (a + b)[|a + b| - 1] == last;
      AtLeastAppend(a, p, minPct);
    } else {
      assert a + b == a;
    }
  }

  /** Reordering rows does not change how many of them pass the filter. */
  lemma {:induction false} AtLeastCountPermutation(a: seq<SuggestedSlot>, b: seq<SuggestedSlot>, minPct: real)
    requires multiset(a) == multiset(b)
    ensures |AtLeast(a, minPct)| == |AtLeast(b, minPct)|
    decreases |a|
  {
    if a != [] {
      var x := a[0];
      assert a == [x] + a[1..];
      assert x in multiset(b);
      var j :| 0 <= j < |b| && b[j] == x;
      var b' := b[..j] + b[j + 1..];
      assert b == b[..j] + [x] + b[j + 1..];
      assert multiset(b) == multiset(b[..j]) + multiset{x} + multiset(b[j + 1..]);
      assert multiset(b') == multiset(b[..j]) + multiset(b[j + 1..]);
      assert multiset(a) == multiset{x} + multiset(a[1..]);
      assert multiset(a[1..]) == multiset(a) - multiset{x};
      assert multiset(b') == multiset(b) - multiset{x};
      AtLeastCountPermutation(a[1..], b', minPct);
      AtLeastAppend([x], a[1..], minPct);
      AtLeastAppend(b[..j] + [x], b[j + 1..], minPct);
      AtLeastAppend(b[..j], [x], minPct);
      AtLeastAppend(b[..j], b[j + 1..], minPct);
      assert AtLeast([x], minPct) == AtLeast([], minPct) + (if AvailabilityPercentage(x) >= minPct then [x] else []);
    }
  }

  /** The number of rows a Python slice [:limit] keeps of n rows. */
  function SliceLength(n: nat, limit: int): (k: nat)
    ensures k <= n
  {
    if limit >= 0 then (if limit < n then limit else n)
    else if n + limit > 0 then n + limit else 0
  }

  /** A Python slice [:limit]: a negative limit drops the last |limit| rows. */
  function SliceTo(s: seq<SuggestedSlot>, limit: int): (r: seq<SuggestedSlot>)
    ensures |r| == SliceLength(|s|, limit)
    ensures forall i :: 0 <= i < |r| ==> r[i] == s[i]
  {
    s[..SliceLength(|s|, limit)]
  }

  /** The rows of meeting m that pass the percentage threshold, in table order. */
  function Qualifying(t: seq<SuggestedSlot>, m: MeetingId, minPct: real): seq<SuggestedSlot> {
    AtLeast(SlotsOf(t, m), minPct)
  }

  /** get_top_suggestions over the suggested-slot table t. */
  function GetTopSuggestions(t: seq<SuggestedSlot>, m: MeetingId, limit: int, minPct: real): seq<SuggestedSlot> {
    SliceTo(AtLeast(Sort(SlotsOf(t, m)), minPct), limit)
  }

  /** Every row of the result belongs to meeting m and reaches the threshold (inclusive), and the result is ranked. */
  lemma TopSuggestionsSound(t: seq<SuggestedSlot>, m: MeetingId, limit: int, minPct: real)
    ensures Ranked(GetTopSuggestions(t, m, limit, minPct))
    ensures forall x :: x in GetTopSuggestions(t, m, limit, minPct) ==>
      x in t && x.meeting == m && AvailabilityPercentage(x) >= minPct
  {
    var sorted := Sort(SlotsOf(t, m));
    var q := AtLeast(sorted, minPct);
    var r := GetTopSuggestions(t, m, limit, minPct);
    AtLeastRanked(sorted, minPct);
    forall x | x in r
      ensures x in t && x.meeting == m && AvailabilityPercentage(x) >= minPct
    {
      var i :| 0 <= i < |r| && r[i] == x;
      assert q[i] == x;
      assert x in sorted;
      assert x in multiset(SlotsOf(t, m));
    }
  }

  /** The result's length is what the slice [:limit] keeps of the qualifying rows. */
  lemma TopSuggestionsLength(t: seq<SuggestedSlot>, m: MeetingId, limit: int, minPct: real)
    ensures |GetTopSuggestions(t, m, limit, minPct)| == SliceLength(|Qualifying(t, m, minPct)|, limit)
  {
    AtLeastCountPermutation(Sort(SlotsOf(t, m)), SlotsOf(t, m), minPct);
  }

  /** Every qualifying row the result leaves out is ranked no earlier than any row it keeps. */
  lemma TopSuggestionsBest(t: seq<SuggestedSlot>, m: MeetingId, limit: int, minPct: real, x: SuggestedSlot, y: SuggestedSlot)
    requires x in GetTopSuggestions(t, m, limit, minPct)
    requires y in Qualifying(t, m, minPct) && y !in GetTopSuggestions(t, m, limit, minPct)
    ensures RankedBefore(x, y)
  {
    var sorted := Sort(SlotsOf(t, m));
    var q := AtLeast(sorted, minPct);
    var r := GetTopSuggestions(t, m, limit, minPct);
    AtLeastRanked(sorted, minPct);
    var i :| 0 <= i < |r| && r[i] == x;
    assert y in SlotsOf(t, m);
    assert y in multiset(sorted);
    assert y in q;
    var j :| 0 <= j < |q| && q[j] == y;
    if j < |r| {
      assert false;
    }
    assert q[i] == x;
  }

  /** When the limit is not reached, no qualifying row of meeting m is left out. */
  lemma TopSuggestionsComplete(t: seq<SuggestedSlot>, m: MeetingId, limit: int, minPct: real, x: SuggestedSlot)
    requires limit >= |Qualifying(t, m, minPct)|
    requires x in t && x.meeting == m && AvailabilityPercentage(x) >= minPct
    ensures x in GetTopSuggestions(t, m, limit, minPct)
  {
    var sorted := Sort(SlotsOf(t, m));
    var q := AtLeast(sorted, minPct);
    var r := GetTopSuggestions(t, m, limit, minPct);
    AtLeastCountPermutation(sorted, SlotsOf(t, m), minPct);
    assert SliceLength(|q|, limit) == |q|;
    assert x in SlotsOf(t, m);
    assert x in multiset(sorted);
    assert x in q;
    var j :| 0 <= j < |q| && q[j] == x;
    assert r[j] == x;
  }

  /**
   * Three slots of 100 responded participants with 49, 50 and 51 free, and
   * a threshold of 50%: the 49% slot is excluded and the result is the 51%
   * slot followed by the 50% slot.
   */
  lemma ExactThreshold(m: MeetingId, a: SuggestedSlot, b: SuggestedSlot, c: SuggestedSlot)
    requires a.meeting == m && b.meeting == m && c.meeting == m
    requires a.totalParticipants == 100 && b.totalParticipants == 100 && c.totalParticipants == 100
    requires a.availableCount == 49 && b.availableCount == 50 && c.availableCount == 51
    ensures GetTopSuggestions([a, b, c], m, 10, 50.0) == [c, b]
  {
    AllOfOneMeeting(m, a, b, c);
    SortByCount(a, b, c);
    FilterAtFifty(a, b, c);
    assert SliceTo([c, b], 10) == [c, b];
  }

  /** Three rows of meeting m are all of meeting m's rows. */
  lemma AllOfOneMeeting(m: MeetingId, a: SuggestedSlot, b: SuggestedSlot, c: SuggestedSlot)
    requires a.meeting == m && b.meeting == m && c.meeting == m
    ensures SlotsOf([a, b, c], m) == [a, b, c]
  {
    assert [a, b, c][..2] == [a, b] && [a, b][..1] == [a] && [a][..0] == [];
  }

  /** Rows with 49, 50 and 51 free participants sort as 51, 50, 49. */
  lemma SortByCount(a: SuggestedSlot, b: SuggestedSlot, c: SuggestedSlot)
    requires a.availableCount == 49 && b.availableCount == 50 && c.availableCount == 51
    ensures Sort([a, b, c]) == [c, b, a]
  {
    assert [a, b, c][1..] == [b, c];
    SortTwo(b, c);
    InsertBehindTwo(a, c, b);
  }

  /** Two rows, the second with more free participants, sort in reverse. */
  lemma SortTwo(b: SuggestedSlot, c: SuggestedSlot)
    requires b.availableCount < c.availableCount
    ensures Sort([b, c]) == [c, b]
  {
    assert [b, c][1..] == [c] && [c][1..] == [];
    assert Sort([c]) == [c];
    assert [c][1..] == [];
  }

  /** A row with fewer free participants than both rows of a ranked pair goes last. */
  lemma InsertBehindTwo(a: SuggestedSlot, c: SuggestedSlot, b: SuggestedSlot)
    requires a.availableCount < b.availableCount < c.availableCount
    ensures Ranked([c, b]) && Insert(a, [c, b]) == [c, b, a]
  {
    assert [c, b][1..] == [b] && [b][1..] == [];
    assert Insert(a, [b]) == [b, a];
  }

  /** Of 51%, 50% and 49% (of 100 participants), a 50% threshold keeps the first two. */
  lemma FilterAtFifty(a: SuggestedSlot, b: SuggestedSlot, c: SuggestedSlot)
    requires a.totalParticipants == 100 && b.totalParticipants == 100 && c.totalParticipants == 100
    requires a.availableCount == 49 && b.availableCount == 50 && c.availableCount == 51
    ensures AtLeast([c, b, a], 50.0) == [c, b]
  {
    assert AvailabilityPercentage(a) == 49.0 by {
      assert PercentageTenths(49, 100) == 490;
    }
    assert AvailabilityPercentage(b) == 50.0 by {
      assert PercentageTenths(50, 100) == 500;
    }
    assert AvailabilityPercentage(c) == 51.0 by {
      assert PercentageTenths(51, 100) == 510;
    }
    assert [c, b, a][..2] == [c, b] && [c, b][..1] == [c] && [c][..0] == [];
  }
}
