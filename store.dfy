/**
 * The database the scheduler reads and writes: one table per model, held as
 * sequences in table order, and the queries the core runs against them.
 * Suggested slots are identified by (meeting, start, end); rows of every
 * table get fresh ids from one counter.
 */
module Store {
  import opened Wrappers
  import opened Calendar
  import opened Models

  /** The lookup key of update_or_create on suggested slots. */
  datatype SlotKey = SlotKey(meeting: MeetingId, start: Instant, end: Instant)

  function KeyOf(s: SuggestedSlot): SlotKey {
    SlotKey(s.meeting, s.startTime, s.endTime)
  }

  /**
   * The suggested-slot table: ids are distinct and already issued, no two
   * rows share a key, and no row counts more free participants than
   * responded ones.
   */
  ghost predicate SlotTableValid(t: seq<SuggestedSlot>, nextId: nat) {
    && (forall i :: 0 <= i < |t| ==> t[i].id < nextId && t[i].availableCount <= t[i].totalParticipants)
    && (forall i, j :: 0 <= i < j < |t| ==> t[i].id != t[j].id && KeyOf(t[i]) != KeyOf(t[j]))
  }

  /**
   * The participant table: ids are distinct and already issued, and within
   * one meeting no two participants share a present email
   * (unique_together on meeting and email; absent emails may repeat).
   */
  ghost predicate ParticipantTableValid(ps: seq<Participant>, nextId: nat) {
    && (forall i :: 0 <= i < |ps| ==> ps[i].id < nextId)
    && (forall i, j :: 0 <= i < j < |ps| ==> ps[i].id != ps[j].id)
    && (forall i, j :: 0 <= i < j < |ps| && ps[i].meeting == ps[j].meeting && ps[i].email.Some? ==> ps[i].email != ps[j].email)
  }

  /** suggested_slots of meeting m, in table order. */
  function SlotsOf(t: seq<SuggestedSlot>, m: MeetingId): (r: seq<SuggestedSlot>)
    ensures |r| <= |t|
    ensures forall s :: s in r <==> s in t && s.meeting == m
  {
    if t == [] then []
    else
      var last := t[|t| - 1];
      SlotsOf(t[..|t| - 1], m) + (if last.meeting == m then [last] else [])
  }

  /** The table after deleting every suggested slot of meeting m. */
  function DropMeeting(t: seq<SuggestedSlot>, m: MeetingId): (r: seq<SuggestedSlot>)
    ensures |r| <= |t|
    ensures forall s :: s in r <==> s in t && s.meeting != m
  {
    if t == [] then []
    else
      var last := t[|t| - 1];
      DropMeeting(t[..|t| - 1], m) + (if last.meeting != m then [last] else [])
  }

  /** The position of the first row stored under key k, if there is one. */
  function IndexOfKey(t: seq<SuggestedSlot>, k: SlotKey): (r: Option<nat>)
    ensures r.Some? ==> r.value < |t| && KeyOf(t[r.value]) == k
    ensures r.Some? ==> forall i :: 0 <= i < r.value ==> KeyOf(t[i]) != k
    ensures r.None? <==> forall i :: 0 <= i < |t| ==> KeyOf(t[i]) != k
  {
    if t == [] then None
    else if KeyOf(t[0]) == k then Some(0)
    else match IndexOfKey(t[1..], k)
      case None => None
      case Some(i) => Some(i + 1)
  }

  /** The row stored under key k (SuggestedSlot.objects.get on the key), if any. */
  function Lookup(t: seq<SuggestedSlot>, k: SlotKey): Option<SuggestedSlot> {
    match IndexOfKey(t, k)
    case None => None
    case Some(i) => Some(t[i])
  }

  /** A lookup finds a row exactly when some row has the key, and the row it finds is stored. */
  lemma LookupMeaning(t: seq<SuggestedSlot>, k: SlotKey)
    ensures Lookup(t, k).Some? <==> exists s :: s in t && KeyOf(s) == k
    ensures Lookup(t, k).Some? ==> Lookup(t, k).value in t && KeyOf(Lookup(t, k).value) == k
  {
    if exists s :: s in t && KeyOf(s) == k {
      var s :| s in t && KeyOf(s) == k;
      var i :| 0 <= i < |t| && t[i] == s;
      assert KeyOf(t[i]) == k;
    }
  }

  /** Two tables with the same key at every position find a key at the same position. */
  lemma IndexOfKeyByKeys(t: seq<SuggestedSlot>, u: seq<SuggestedSlot>, k: SlotKey)
    requires |t| == |u|
    requires forall i :: 0 <= i < |t| ==> KeyOf(t[i]) == KeyOf(u[i])
    ensures IndexOfKey(t, k) == IndexOfKey(u, k)
  {
  }

  /** Looking a key up after appending a row: earlier rows win. */
  lemma LookupAppend(t: seq<SuggestedSlot>, x: SuggestedSlot, k: SlotKey)
    ensures Lookup(t + [x], k) == if Lookup(t, k).Some? then Lookup(t, k) else if KeyOf(x) == k then Some(x) else None
  {
    var u := t + [x];
    var a := IndexOfKey(t, k);
    if a.Some? {
      assert KeyOf(u[a.value]) == k;
    } else if KeyOf(x) == k {
      assert KeyOf(u[|t|]) == k;
    }
  }

  /** After deleting meeting m's rows, its keys find nothing and other keys find what they found before. */
  lemma {:induction false} LookupDropMeeting(t: seq<SuggestedSlot>, m: MeetingId, k: SlotKey)
    ensures Lookup(DropMeeting(t, m), k) == if k.meeting == m then None else Lookup(t, k)
  {
    if t == [] {
    } else {
      var p, last := t[..|t| - 1], t[|t| - 1];
      assert t == p + [last];
      LookupDropMeeting(p, m, k);
      if last.meeting != m {
        LookupAppend(DropMeeting(p, m), last, k);
      } else {
        assert DropMeeting(t, m) == DropMeeting(p, m);
      }
      LookupAppend(p, last, k);
    }
  }

  /** The rows before the last of a valid table form a valid table, none sharing the last row's id or key. */
  lemma LastIsDistinct(t: seq<SuggestedSlot>, n: nat)
    requires SlotTableValid(t, n) && t != []
    ensures SlotTableValid(t[..|t| - 1], n)
    ensures forall x :: x in t[..|t| - 1] ==> x.id != t[|t| - 1].id && KeyOf(x) != KeyOf(t[|t| - 1])
  {
    var p := t[..|t| - 1];
    forall x | x in p
      ensures x.id != t[|t| - 1].id && KeyOf(x) != KeyOf(t[|t| - 1])
    {
      var a :| 0 <= a < |p| && p[a] == x;
      assert t[a] == x;
    }
  }

  /** Appending a row with an issued id, consistent counts and a fresh id and key keeps a table valid. */
  lemma AppendDistinctValid(u: seq<SuggestedSlot>, n: nat, x: SuggestedSlot)
    requires SlotTableValid(u, n) && x.id < n && x.availableCount <= x.totalParticipants
    requires forall y :: y in u ==> y.id != x.id && KeyOf(y) != KeyOf(x)
    ensures SlotTableValid(u + [x], n)
  {
    var v := u + [x];
    forall i, j | 0 <= i < j < |v|
      ensures v[i].id != v[j].id && KeyOf(v[i]) != KeyOf(v[j])
    {
      assert v[i] == u[i];
      if j == |u| {
        assert v[i] in u;
      } else {
        assert v[j] == u[j];
      }
    }
  }

  /** Deleting a meeting's rows keeps the table valid. */
  lemma {:induction false} DropMeetingValid(t: seq<SuggestedSlot>, m: MeetingId, n: nat)
    requires SlotTableValid(t, n)
    ensures SlotTableValid(DropMeeting(t, m), n)
  {
    if t != [] {
      var p, last := t[..|t| - 1], t[|t| - 1];
      LastIsDistinct(t, n);
      DropMeetingValid(p, m, n);
      if last.meeting != m {
        AppendDistinctValid(DropMeeting(p, m), n, last);
      }
    }
  }

  /** Deleting meeting m's rows leaves every other meeting's rows as they were. */
  lemma {:induction false} SlotsOfDropMeeting(t: seq<SuggestedSlot>, m: MeetingId, other: MeetingId)
    requires other != m
    ensures SlotsOf(DropMeeting(t, m), other) == SlotsOf(t, other)
  {
    if t != [] {
      var p, last := t[..|t| - 1], t[|t| - 1];
      SlotsOfDropMeeting(p, m, other);
      if last.meeting != m {
        assert DropMeeting(t, m) == DropMeeting(p, m) + [last];
        SlotsOfAppend(DropMeeting(p, m), last, other);
      } else {
        assert DropMeeting(t, m) == DropMeeting(p, m);
        assert SlotsOf(t, other) == SlotsOf(p, other);
      }
    }
  }

  /** Filtering by meeting distributes over appending one row. */
  lemma SlotsOfAppend(t: seq<SuggestedSlot>, x: SuggestedSlot, m: MeetingId)
    ensures SlotsOf(t + [x], m) == SlotsOf(t, m) + (if x.meeting == m then [x] else [])
  {
    assert (t + [x])[..|t + [x]| - 1] == t;
  }

  /** The busy slots of participant p (participant.busy_slots), in table order. */
  function BusyOf(bs: seq<BusySlot>, p: ParticipantId): (r: seq<BusySlot>)
    ensures |r| <= |bs|
    ensures forall b :: b in r <==> b in bs && b.participant == p
  {
    if bs == [] then []
    else
      var last := bs[|bs| - 1];
      BusyOf(bs[..|bs| - 1], p) + (if last.participant == p then [last] else [])
  }

  /** The busy-slot table after deleting every busy slot of participant p. */
  function DropBusyOf(bs: seq<BusySlot>, p: ParticipantId): (r: seq<BusySlot>)
    ensures |r| <= |bs|
    ensures forall b :: b in r <==> b in bs && b.participant != p
  {
    if bs == [] then []
    else
      var last := bs[|bs| - 1];
      DropBusyOf(bs[..|bs| - 1], p) + (if last.participant != p then [last] else [])
  }

  /** The position of the participant with id p, if there is one. */
  function IndexOfParticipant(ps: seq<Participant>, p: ParticipantId): (r: Option<nat>)
    ensures r.Some? ==> r.value < |ps| && ps[r.value].id == p
    ensures r.None? <==> forall i :: 0 <= i < |ps| ==> ps[i].id != p
  {
    if ps == [] then None
    else if ps[|ps| - 1].id == p then Some(|ps| - 1)
    else IndexOfParticipant(ps[..|ps| - 1], p)
  }

  /** The position of meeting m's participant with the given email, if there is one. */
  function IndexOfEmail(ps: seq<Participant>, m: MeetingId, email: string): (r: Option<nat>)
    ensures r.Some? ==> r.value < |ps| && ps[r.value].meeting == m && ps[r.value].email == Some(email)
    ensures r.None? <==> forall i :: 0 <= i < |ps| ==> !(ps[i].meeting == m && ps[i].email == Some(email))
  {
    if ps == [] then None
    else if ps[|ps| - 1].meeting == m && ps[|ps| - 1].email == Some(email) then Some(|ps| - 1)
    else IndexOfEmail(ps[..|ps| - 1], m, email)
  }

  /** The position of meeting m's suggested slot with id s, if there is one. */
  function IndexOfSlot(t: seq<SuggestedSlot>, m: MeetingId, s: SlotId): (r: Option<nat>)
    ensures r.Some? ==> r.value < |t| && t[r.value].meeting == m && t[r.value].id == s
    ensures r.None? <==> forall i :: 0 <= i < |t| ==> !(t[i].meeting == m && t[i].id == s)
  {
    if t == [] then None
    else if t[|t| - 1].meeting == m && t[|t| - 1].id == s then Some(|t| - 1)
    else IndexOfSlot(t[..|t| - 1], m, s)
  }

  /** The whole database: every table is a field that the operations reassign. */
  class Database {
    var meetings: map<MeetingId, MeetingRequest>
    var participants: seq<Participant>
    var busySlots: seq<BusySlot>
    var suggested: seq<SuggestedSlot>
    var nextId: nat

    /**
     * Each meeting is stored under its own id and passed the model's field
     * validators; the participant and suggested-slot tables are valid.
     */
    ghost predicate Valid()
      reads this
    {
      && (forall id :: id in meetings ==> meetings[id].id == id && FieldErrors(meetings[id]) == {})
      && ParticipantTableValid(participants, nextId)
      && SlotTableValid(suggested, nextId)
    }

    constructor ()
      ensures Valid()
      ensures meetings == map[] && participants == [] && busySlots == [] && suggested == []
    {
      meetings := map[];
      participants := [];
      busySlots := [];
      suggested := [];
      nextId := 0;
    }
  }
}
