/**
 * generate_suggested_slots: the in-place recomputation of a meeting's
 * suggested-slot table. With force set, the meeting's rows are deleted
 * first; then every lattice slot, in order, is upserted under its
 * (meeting, start, end) key with that slot's availability counts.
 */
module Suggestions {
  import opened Wrappers
  import opened Calendar
  import opened Models
  import opened Store
  import opened TimeSlots
  import opened Availability

  /** The update_or_create key of lattice slot s of meeting mid. */
  function Key(mid: MeetingId, s: Slot): SlotKey {
    SlotKey(mid, s.start, s.end)
  }

  /** The (available, total) counts recorded for lattice slot s. */
  function CountsOf(ps: seq<Participant>, busy: seq<BusySlot>, mid: MeetingId, s: Slot): (nat, nat) {
    SlotCounts(ps, busy, mid, s.start, s.end)
  }

  /**
   * update_or_create on key k with counts c: the row found under k gets the
   * new counts in place; otherwise a new unlocked row with the next id is
   * appended. Yields the new table, the new id counter and the row.
   */
  function Upsert(t: seq<SuggestedSlot>, n: nat, k: SlotKey, c: (nat, nat)): (seq<SuggestedSlot>, nat, SuggestedSlot) {
    match IndexOfKey(t, k)
    case Some(i) =>
      var row := t[i].(availableCount := c.0, totalParticipants := c.1);
      (t[i := row], n, row)
    case None =>
      var row := SuggestedSlot(n, k.meeting, k.start, k.end, c.0, c.1, false);
      (t + [row], n + 1, row)
  }

  /** Replacing a row by one with the same key changes what that key finds and nothing else. */
  lemma LookupUpdate(t: seq<SuggestedSlot>, i: nat, row: SuggestedSlot, k: SlotKey)
    requires i < |t| && KeyOf(row) == KeyOf(t[i]) && IndexOfKey(t, KeyOf(row)) == Some(i)
    ensures Lookup(t[i := row], k) == if k == KeyOf(row) then Some(row) else Lookup(t, k)
  {
    IndexOfKeyByKeys(t, t[i := row], k);
  }

  /**
   * After an upsert on k, k finds the upserted row, which carries the new
   * counts and otherwise equals the row k found before (id, lock flag), or
   * is a new unlocked row with the next id; every other key finds what it
   * found before.
   */
  lemma UpsertLookup(t: seq<SuggestedSlot>, n: nat, k: SlotKey, c: (nat, nat), k': SlotKey)
    ensures var r := Upsert(t, n, k, c);
      Lookup(r.0, k') == if k' == k then Some(r.2) else Lookup(t, k')
    ensures var r := Upsert(t, n, k, c);
      && KeyOf(r.2) == k && r.2.availableCount == c.0 && r.2.totalParticipants == c.1
      && (Lookup(t, k).Some? ==> r.2 == Lookup(t, k).value.(availableCount := c.0, totalParticipants := c.1) && r.1 == n)
      && (Lookup(t, k).None? ==> r.2 == SuggestedSlot(n, k.meeting, k.start, k.end, c.0, c.1, false) && r.1 == n + 1)
  {
    match IndexOfKey(t, k)
    case Some(i) =>
      LookupUpdate(t, i, t[i].(availableCount := c.0, totalParticipants := c.1), k');
    case None =>
      LookupAppend(t, SuggestedSlot(n, k.meeting, k.start, k.end, c.0, c.1, false), k');
  }

  /** An upsert with consistent counts keeps the table valid and never lowers the id counter. */
  lemma UpsertValid(t: seq<SuggestedSlot>, n: nat, k: SlotKey, c: (nat, nat))
    requires SlotTableValid(t, n) && c.0 <= c.1
    ensures SlotTableValid(Upsert(t, n, k, c).0, Upsert(t, n, k, c).1)
    ensures n <= Upsert(t, n, k, c).1
  {
    match IndexOfKey(t, k)
    case Some(i) =>
      var u := t[i := t[i].(availableCount := c.0, totalParticipants := c.1)];
      assert forall j :: 0 <= j < |u| ==> u[j].id == t[j].id && KeyOf(u[j]) == KeyOf(t[j]);
    case None =>
      var u := t + [SuggestedSlot(n, k.meeting, k.start, k.end, c.0, c.1, false)];
      assert forall j :: 0 <= j < |t| ==> u[j] == t[j];
  }

  /**
   * The upsert loop over `slots`, as a function: the table, id counter and
   * upserted rows after processing every slot in order.
   */
  function UpsertAll(t: seq<SuggestedSlot>, n: nat, mid: MeetingId, slots: seq<Slot>, ps: seq<Participant>, busy: seq<BusySlot>)
    : (seq<SuggestedSlot>, nat, seq<SuggestedSlot>)
  {
    if slots == [] then (t, n, [])
    else
      var r := UpsertAll(t, n, mid, slots[..|slots| - 1], ps, busy);
      var s := slots[|slots| - 1];
      var u := Upsert(r.0, r.1, Key(mid, s), CountsOf(ps, busy, mid, s));
      (u.0, u.1, r.2 + [u.2])
  }

  /** generate_suggested_slots as a function of the table before the call. */
  function Recompute(t: seq<SuggestedSlot>, n: nat, mid: MeetingId, force: bool, lattice: seq<Slot>,
                     ps: seq<Participant>, busy: seq<BusySlot>): (seq<SuggestedSlot>, nat, seq<SuggestedSlot>)
  {
    UpsertAll(if force then DropMeeting(t, mid) else t, n, mid, lattice, ps, busy)
  }

  /** Two slots with the same key get the same counts. */
  lemma CountsByKey(ps: seq<Participant>, busy: seq<BusySlot>, mid: MeetingId, s: Slot, s': Slot)
    requires Key(mid, s) == Key(mid, s')
    ensures CountsOf(ps, busy, mid, s) == CountsOf(ps, busy, mid, s')
  {
    assert s == s';
  }

  /**
   * What every key finds after the upsert loop: a key of one of the
   * processed slots finds a row with that slot's counts, which is the row
   * it found before with new counts (same id, same lock flag) or a new
   * unlocked row with an id issued by the loop; any other key finds what it
   * found before.
   */
  lemma {:induction false} UpsertAllLookup(t: seq<SuggestedSlot>, n: nat, mid: MeetingId, slots: seq<Slot>,
                                           ps: seq<Participant>, busy: seq<BusySlot>, k: SlotKey)
    ensures n <= UpsertAll(t, n, mid, slots, ps, busy).1
    ensures !(k.meeting == mid && Slot(k.start, k.end) in slots) ==>
      Lookup(UpsertAll(t, n, mid, slots, ps, busy).0, k) == Lookup(t, k)
    ensures k.meeting == mid && Slot(k.start, k.end) in slots ==>
      var r := UpsertAll(t, n, mid, slots, ps, busy);
      var c := SlotCounts(ps, busy, mid, k.start, k.end);
      && Lookup(r.0, k).Some?
      && KeyOf(Lookup(r.0, k).value) == k
      && Lookup(r.0, k).value.availableCount == c.0 && Lookup(r.0, k).value.totalParticipants == c.1
      && (Lookup(t, k).Some? ==> Lookup(r.0, k).value == Lookup(t, k).value.(availableCount := c.0, totalParticipants := c.1))
      && (Lookup(t, k).None? ==> !Lookup(r.0, k).value.isLocked && n <= Lookup(r.0, k).value.id < r.1)
  {
    if slots != [] {
      var p, s := slots[..|slots| - 1], slots[|slots| - 1];
      assert slots == p + [s];
      UpsertAllLookup(t, n, mid, p, ps, busy, k);
      var r1 := UpsertAll(t, n, mid, p, ps, busy);
      UpsertLookup(r1.0, r1.1, Key(mid, s), CountsOf(ps, busy, mid, s), k);
      if k == Key(mid, s) {
        assert Slot(k.start, k.end) == s;
      } else if k.meeting == mid {
        assert Slot(k.start, k.end) in slots <==> Slot(k.start, k.end) in p;
      }
    }
  }

  /**
   * The loop returns one row per processed slot, in order: the row has the
   * slot's key and counts, and it is what the final table stores under that
   * key.
   */
  lemma {:induction false} UpsertAllRows(t: seq<SuggestedSlot>, n: nat, mid: MeetingId, slots: seq<Slot>,
                                         ps: seq<Participant>, busy: seq<BusySlot>)
    ensures |UpsertAll(t, n, mid, slots, ps, busy).2| == |slots|
    ensures forall i :: 0 <= i < |slots| ==>
      var r := UpsertAll(t, n, mid, slots, ps, busy);
      && KeyOf(r.2[i]) == Key(mid, slots[i])
      && (r.2[i].availableCount, r.2[i].totalParticipants) == CountsOf(ps, busy, mid, slots[i])
      && Lookup(r.0, KeyOf(r.2[i])) == Some(r.2[i])
  {
    if slots != [] {
      var p, s := slots[..|slots| - 1], slots[|slots| - 1];
      assert slots == p + [s];
      UpsertAllRows(t, n, mid, p, ps, busy);
      var r1 := UpsertAll(t, n, mid, p, ps, busy);
      UpsertRowsStep(r1.0, r1.1, r1.2, mid, p, s, ps, busy);
    }
  }

  /** One more upsert extends the row-per-slot correspondence by the new slot's row. */
  lemma UpsertRowsStep(t: seq<SuggestedSlot>, n: nat, rows: seq<SuggestedSlot>, mid: MeetingId, p: seq<Slot>, s: Slot,
                       ps: seq<Participant>, busy: seq<BusySlot>)
    requires |rows| == |p|
    requires forall i :: 0 <= i < |p| ==>
      && KeyOf(rows[i]) == Key(mid, p[i])
      && (rows[i].availableCount, rows[i].totalParticipants) == CountsOf(ps, busy, mid, p[i])
      && Lookup(t, KeyOf(rows[i])) == Some(rows[i])
    ensures var u := Upsert(t, n, Key(mid, s), CountsOf(ps, busy, mid, s));
      forall i :: 0 <= i < |p + [s]| ==>
        && KeyOf((rows + [u.2])[i]) == Key(mid, (p + [s])[i])
        && ((rows + [u.2])[i].availableCount, (rows + [u.2])[i].totalParticipants) == CountsOf(ps, busy, mid, (p + [s])[i])
        && Lookup(u.0, KeyOf((rows + [u.2])[i])) == Some((rows + [u.2])[i])
  {
    var c := CountsOf(ps, busy, mid, s);
    var u := Upsert(t, n, Key(mid, s), c);
    var rows', slots := rows + [u.2], p + [s];
    UpsertLookup(t, n, Key(mid, s), c, Key(mid, s));
    forall i | 0 <= i < |slots|
      ensures KeyOf(rows'[i]) == Key(mid, slots[i])
      ensures (rows'[i].availableCount, rows'[i].totalParticipants) == CountsOf(ps, busy, mid, slots[i])
      ensures Lookup(u.0, KeyOf(rows'[i])) == Some(rows'[i])
    {
      if i < |p| {
        assert rows'[i] == rows[i] && slots[i] == p[i];
        UpsertLookup(t, n, Key(mid, s), c, KeyOf(rows[i]));
        if KeyOf(rows[i]) == Key(mid, s) {
          CountsByKey(ps, busy, mid, p[i], s);
        }
      } else {
        assert rows'[i] == u.2 && slots[i] == s;
      }
    }
  }

  /** The upsert loop keeps the table valid and never lowers the id counter. */
  lemma {:induction false} UpsertAllValid(t: seq<SuggestedSlot>, n: nat, mid: MeetingId, slots: seq<Slot>,
                                          ps: seq<Participant>, busy: seq<BusySlot>)
    requires SlotTableValid(t, n)
    ensures SlotTableValid(UpsertAll(t, n, mid, slots, ps, busy).0, UpsertAll(t, n, mid, slots, ps, busy).1)
    ensures n <= UpsertAll(t, n, mid, slots, ps, busy).1
  {
    if slots != [] {
      var p, s := slots[..|slots| - 1], slots[|slots| - 1];
      UpsertAllValid(t, n, mid, p, ps, busy);
      var r1 := UpsertAll(t, n, mid, p, ps, busy);
      UpsertValid(r1.0, r1.1, Key(mid, s), CountsOf(ps, busy, mid, s));
    }
  }

  /** Replacing a row of another meeting by a row of another meeting leaves meeting `other`'s rows as they were. */
  lemma {:induction false} SlotsOfUpdate(t: seq<SuggestedSlot>, i: nat, row: SuggestedSlot, other: MeetingId)
    requires i < |t| && t[i].meeting != other && row.meeting != other
    ensures SlotsOf(t[i := row], other) == SlotsOf(t, other)
  {
    var p, last := t[..|t| - 1], t[|t| - 1];
    assert t == p + [last];
    SlotsOfAppend(p, last, other);
    if i == |t| - 1 {
      assert t[i := row] == p + [row];
      SlotsOfAppend(p, row, other);
    } else {
      assert t[i := row] == p[i := row] + [last];
      SlotsOfUpdate(p, i, row, other);
      SlotsOfAppend(p[i := row], last, other);
    }
  }

  /** The upsert loop for meeting mid leaves every other meeting's rows as they were, in order. */
  lemma {:induction false} UpsertAllOtherMeetings(t: seq<SuggestedSlot>, n: nat, mid: MeetingId, slots: seq<Slot>,
                                                  ps: seq<Participant>, busy: seq<BusySlot>, other: MeetingId)
    requires other != mid
    ensures SlotsOf(UpsertAll(t, n, mid, slots, ps, busy).0, other) == SlotsOf(t, other)
  {
    if slots != [] {
      var p, s := slots[..|slots| - 1], slots[|slots| - 1];
      UpsertAllOtherMeetings(t, n, mid, p, ps, busy, other);
      var r1 := UpsertAll(t, n, mid, p, ps, busy);
      var k, c := Key(mid, s), CountsOf(ps, busy, mid, s);
      match IndexOfKey(r1.0, k)
      case Some(i) =>
        SlotsOfUpdate(r1.0, i, r1.0[i].(availableCount := c.0, totalParticipants := c.1), other);
      case None =>
        SlotsOfAppend(r1.0, SuggestedSlot(r1.1, mid, s.start, s.end, c.0, c.1, false), other);
    }
  }

  /**
   * When every processed slot's key already finds a row carrying that
   * slot's counts, the upsert loop changes neither the table nor the id
   * counter.
   */
  lemma {:induction false} UpsertAllStable(t: seq<SuggestedSlot>, n: nat, mid: MeetingId, slots: seq<Slot>,
                                           ps: seq<Participant>, busy: seq<BusySlot>)
    requires forall j :: 0 <= j < |slots| ==>
      && Lookup(t, Key(mid, slots[j])).Some?
      && Lookup(t, Key(mid, slots[j])).value.availableCount == CountsOf(ps, busy, mid, slots[j]).0
      && Lookup(t, Key(mid, slots[j])).value.totalParticipants == CountsOf(ps, busy, mid, slots[j]).1
    ensures UpsertAll(t, n, mid, slots, ps, busy).0 == t
    ensures UpsertAll(t, n, mid, slots, ps, busy).1 == n
  {
    if slots != [] {
      var p, s := slots[..|slots| - 1], slots[|slots| - 1];
      assert forall j :: 0 <= j < |p| ==> p[j] == slots[j];
      UpsertAllStable(t, n, mid, p, ps, busy);
      assert Lookup(t, Key(mid, slots[|slots| - 1])).Some?;
      var i := IndexOfKey(t, Key(mid, s)).value;
      assert t[i].(availableCount := CountsOf(ps, busy, mid, s).0, totalParticipants := CountsOf(ps, busy, mid, s).1) == t[i];
      assert t[i := t[i]] == t;
    }
  }

  /** In a valid table every stored row is what its own key finds. */
  lemma LookupOfMember(t: seq<SuggestedSlot>, n: nat, s: SuggestedSlot)
    requires SlotTableValid(t, n) && s in t
    ensures Lookup(t, KeyOf(s)) == Some(s)
  {
    var j :| 0 <= j < |t| && t[j] == s;
    assert KeyOf(t[j]) == KeyOf(s);
    var i := IndexOfKey(t, KeyOf(s)).value;
    if i != j {
      assert false;
    }
  }

  /** Recomputation keeps the slot table valid and never lowers the id counter. */
  lemma RecomputeValid(t: seq<SuggestedSlot>, n: nat, mid: MeetingId, force: bool, lattice: seq<Slot>,
                       ps: seq<Participant>, busy: seq<BusySlot>)
    requires SlotTableValid(t, n)
    ensures SlotTableValid(Recompute(t, n, mid, force, lattice, ps, busy).0, Recompute(t, n, mid, force, lattice, ps, busy).1)
    ensures n <= Recompute(t, n, mid, force, lattice, ps, busy).1
  {
    if force {
      DropMeetingValid(t, mid, n);
    }
    UpsertAllValid(if force then DropMeeting(t, mid) else t, n, mid, lattice, ps, busy);
  }

  /** Recomputing meeting mid, with or without force, leaves every other meeting's rows as they were. */
  lemma RecomputeOtherMeetings(t: seq<SuggestedSlot>, n: nat, mid: MeetingId, force: bool, lattice: seq<Slot>,
                               ps: seq<Participant>, busy: seq<BusySlot>, other: MeetingId)
    requires other != mid
    ensures SlotsOf(Recompute(t, n, mid, force, lattice, ps, busy).0, other) == SlotsOf(t, other)
  {
    if force {
      SlotsOfDropMeeting(t, mid, other);
    }
    UpsertAllOtherMeetings(if force then DropMeeting(t, mid) else t, n, mid, lattice, ps, busy, other);
  }

  /**
   * The returned list has one row per lattice slot, in lattice order, each
   * with that slot's key and counts and stored under its key afterwards.
   */
  lemma RecomputeRows(t: seq<SuggestedSlot>, n: nat, mid: MeetingId, force: bool, lattice: seq<Slot>,
                      ps: seq<Participant>, busy: seq<BusySlot>)
    ensures |Recompute(t, n, mid, force, lattice, ps, busy).2| == |lattice|
    ensures forall i :: 0 <= i < |lattice| ==>
      var r := Recompute(t, n, mid, force, lattice, ps, busy);
      && r.2[i].meeting == mid && r.2[i].startTime == lattice[i].start && r.2[i].endTime == lattice[i].end
      && (r.2[i].availableCount, r.2[i].totalParticipants) == SlotCounts(ps, busy, mid, lattice[i].start, lattice[i].end)
      && r.2[i] in r.0
  {
    var r := Recompute(t, n, mid, force, lattice, ps, busy);
    UpsertAllRows(if force then DropMeeting(t, mid) else t, n, mid, lattice, ps, busy);
    forall i | 0 <= i < |lattice|
      ensures r.2[i] in r.0
    {
      LookupMeaning(r.0, KeyOf(r.2[i]));
    }
  }

  /** With force, the meeting's stored rows afterwards are exactly the returned lattice rows. */
  lemma ForceStoresExactlyLattice(t: seq<SuggestedSlot>, n: nat, mid: MeetingId, lattice: seq<Slot>,
                                  ps: seq<Participant>, busy: seq<BusySlot>)
    requires SlotTableValid(t, n)
    ensures forall s :: s in SlotsOf(Recompute(t, n, mid, true, lattice, ps, busy).0, mid) <==>
      s in Recompute(t, n, mid, true, lattice, ps, busy).2
  {
    var d := DropMeeting(t, mid);
    var r := Recompute(t, n, mid, true, lattice, ps, busy);
    RecomputeValid(t, n, mid, true, lattice, ps, busy);
    RecomputeRows(t, n, mid, true, lattice, ps, busy);
    UpsertAllRows(d, n, mid, lattice, ps, busy);
    forall s | s in r.0 && s.meeting == mid
      ensures s in r.2
    {
      LookupOfMember(r.0, r.1, s);
      var k := KeyOf(s);
      UpsertAllLookup(d, n, mid, lattice, ps, busy, k);
      LookupDropMeeting(t, mid, k);
      assert Slot(k.start, k.end) in lattice;
      var i :| 0 <= i < |lattice| && lattice[i] == Slot(k.start, k.end);
      assert KeyOf(r.2[i]) == k;
    }
  }

  /**
   * Without force, every stored row, of this meeting or another, is still
   * stored under its key afterwards with the same id and lock flag; only a
   * row whose slot is in the lattice gets new counts, and any other row is
   * stored unchanged.
   */
  lemma RecomputeKeepsRows(t: seq<SuggestedSlot>, n: nat, mid: MeetingId, lattice: seq<Slot>,
                           ps: seq<Participant>, busy: seq<BusySlot>, s: SuggestedSlot)
    requires SlotTableValid(t, n) && s in t
    ensures var r := Recompute(t, n, mid, false, lattice, ps, busy);
      && Lookup(r.0, KeyOf(s)).Some?
      && Lookup(r.0, KeyOf(s)).value.id == s.id
      && Lookup(r.0, KeyOf(s)).value.isLocked == s.isLocked
    ensures !(s.meeting == mid && Slot(s.startTime, s.endTime) in lattice) ==>
      s in Recompute(t, n, mid, false, lattice, ps, busy).0
  {
    var r := Recompute(t, n, mid, false, lattice, ps, busy);
    LookupOfMember(t, n, s);
    UpsertAllLookup(t, n, mid, lattice, ps, busy, KeyOf(s));
    LookupMeaning(r.0, KeyOf(s));
  }

  /**
   * Without force, recomputing again with the same participants and busy
   * slots changes nothing.
   */
  lemma RecomputeIdempotent(t: seq<SuggestedSlot>, n: nat, mid: MeetingId, lattice: seq<Slot>,
                            ps: seq<Participant>, busy: seq<BusySlot>)
    ensures var r := Recompute(t, n, mid, false, lattice, ps, busy);
      Recompute(r.0, r.1, mid, false, lattice, ps, busy).0 == r.0
      && Recompute(r.0, r.1, mid, false, lattice, ps, busy).1 == r.1
  {
    var r := Recompute(t, n, mid, false, lattice, ps, busy);
    forall j | 0 <= j < |lattice|
      ensures Lookup(r.0, Key(mid, lattice[j])).Some?
      ensures Lookup(r.0, Key(mid, lattice[j])).value.availableCount == CountsOf(ps, busy, mid, lattice[j]).0
      ensures Lookup(r.0, Key(mid, lattice[j])).value.totalParticipants == CountsOf(ps, busy, mid, lattice[j]).1
    {
      var k := Key(mid, lattice[j]);
      assert Slot(k.start, k.end) == lattice[j];
      UpsertAllLookup(t, n, mid, lattice, ps, busy, k);
    }
    UpsertAllStable(r.0, r.1, mid, lattice, ps, busy);
  }

  /** An upsert for meeting mid creates only unlocked rows and never sets a lock. */
  lemma {:induction false} UpsertAllKeepsUnlocked(t: seq<SuggestedSlot>, n: nat, mid: MeetingId, slots: seq<Slot>,
                                                  ps: seq<Participant>, busy: seq<BusySlot>)
    requires forall s :: s in t && s.meeting == mid ==> !s.isLocked
    ensures forall s :: s in UpsertAll(t, n, mid, slots, ps, busy).0 && s.meeting == mid ==> !s.isLocked
  {
    if slots != [] {
      var r := UpsertAll(t, n, mid, slots[..|slots| - 1], ps, busy);
      UpsertAllKeepsUnlocked(t, n, mid, slots[..|slots| - 1], ps, busy);
      var s := slots[|slots| - 1];
      var k := Key(mid, s);
      match IndexOfKey(r.0, k)
      case None =>
      case Some(i) =>
        assert r.0[i] in r.0;
    }
  }

  /** A forced recomputation leaves no locked row for the meeting. */
  lemma ForceRecomputeUnlocks(t: seq<SuggestedSlot>, n: nat, mid: MeetingId, lattice: seq<Slot>,
                              ps: seq<Participant>, busy: seq<BusySlot>)
    ensures forall s :: s in Recompute(t, n, mid, true, lattice, ps, busy).0 && s.meeting == mid ==> !s.isLocked
  {
    UpsertAllKeepsUnlocked(DropMeeting(t, mid), n, mid, lattice, ps, busy);
  }


  /**
   * A second forced recompute, on unchanged participants and busy slots,
   * stores the same rows for the meeting as the first: the same slots in the
   * same order with the same counts and no lock, ids aside. Other meetings'
   * rows are as the first recompute left them.
   */
  lemma ForcedRecomputeIdempotent(t: seq<SuggestedSlot>, n: nat, mid: MeetingId, lattice: seq<Slot>,
                                  ps: seq<Participant>, busy: seq<BusySlot>)
    requires SlotTableValid(t, n)
    ensures var r := Recompute(t, n, mid, true, lattice, ps, busy);
      var r2 := Recompute(r.0, r.1, mid, true, lattice, ps, busy);
      && |r2.2| == |r.2|
      && (forall i :: 0 <= i < |r.2| ==> r2.2[i] == r.2[i].(id := r2.2[i].id))
      && (forall s :: s in SlotsOf(r2.0, mid) <==> s in r2.2)
      && (forall s :: s in SlotsOf(r.0, mid) <==> s in r.2)
      && (forall other :: other != mid ==> SlotsOf(r2.0, other) == SlotsOf(r.0, other))
  {
    var r := Recompute(t, n, mid, true, lattice, ps, busy);
    var r2 := Recompute(r.0, r.1, mid, true, lattice, ps, busy);
    RecomputeValid(t, n, mid, true, lattice, ps, busy);
    RecomputeRows(t, n, mid, true, lattice, ps, busy);
    RecomputeRows(r.0, r.1, mid, true, lattice, ps, busy);
    ForceRecomputeUnlocks(t, n, mid, lattice, ps, busy);
    ForceRecomputeUnlocks(r.0, r.1, mid, lattice, ps, busy);
    ForceStoresExactlyLattice(t, n, mid, lattice, ps, busy);
    ForceStoresExactlyLattice(r.0, r.1, mid, lattice, ps, busy);
    forall other | other != mid
      ensures SlotsOf(r2.0, other) == SlotsOf(r.0, other)
    {
      RecomputeOtherMeetings(r.0, r.1, mid, true, lattice, ps, busy, other);
    }
  }

  /** update_or_create on the suggested-slot table. */
  method UpdateOrCreate(db: Database, k: SlotKey, available: nat, total: nat) returns (slot: SuggestedSlot)
    modifies db`suggested, db`nextId
    ensures (db.suggested, db.nextId, slot) == Upsert(old(db.suggested), old(db.nextId), k, (available, total))
  {
    match IndexOfKey(db.suggested, k) {
      case Some(i) =>
        slot := db.suggested[i].(availableCount := available, totalParticipants := total);
        db.suggested := db.suggested[i := slot];
      case None =>
        slot := SuggestedSlot(db.nextId, k.meeting, k.start, k.end, available, total, false);
        db.suggested := db.suggested + [slot];
        db.nextId := db.nextId + 1;
    }
  }

  /** One pass of the generate_suggested_slots loop: count lattice slot s and upsert its row. */
  method UpsertSlot(db: Database, mid: MeetingId, s: Slot) returns (slot: SuggestedSlot)
    modifies db`suggested, db`nextId
    ensures (db.suggested, db.nextId, slot)
            == Upsert(old(db.suggested), old(db.nextId), Key(mid, s), CountsOf(db.participants, db.busySlots, mid, s))
  {
    var available, total, ids := CalculateSlotAvailability(db.participants, db.busySlots, mid, s.start, s.end);
    slot := UpdateOrCreate(db, SlotKey(mid, s.start, s.end), available, total);
  }

  /** The generate_suggested_slots loop over the lattice, in order. */
  method UpsertSlots(db: Database, mid: MeetingId, possibleSlots: seq<Slot>) returns (suggestedSlots: seq<SuggestedSlot>)
    modifies db`suggested, db`nextId
    ensures (db.suggested, db.nextId, suggestedSlots)
            == UpsertAll(old(db.suggested), old(db.nextId), mid, possibleSlots, db.participants, db.busySlots)
  {
    ghost var t0, n0 := db.suggested, db.nextId;
    suggestedSlots := [];
    for i := 0 to |possibleSlots|
      invariant (db.suggested, db.nextId, suggestedSlots) == UpsertAll(t0, n0, mid, possibleSlots[..i], db.participants, db.busySlots)
    {
      assert possibleSlots[..i + 1][..i] == possibleSlots[..i];
      var slot := UpsertSlot(db, mid, possibleSlots[i]);
      suggestedSlots := suggestedSlots + [slot];
    }
    assert possibleSlots[..|possibleSlots|] == possibleSlots;
  }

  /**
   * generate_suggested_slots: the new table, id counter and returned rows
   * are those of Recompute on the old table with the meeting's lattice; the
   * database stays valid.
   */
  method GenerateSuggestedSlots(db: Database, m: MeetingRequest, forceRecalculate: bool, utcOf: Localizer)
    returns (suggestedSlots: seq<SuggestedSlot>)
    requires db.Valid() && m.stepSizeMinutes > 0
    modifies db`suggested, db`nextId
    ensures db.Valid()
    ensures (db.suggested, db.nextId, suggestedSlots)
            == Recompute(old(db.suggested), old(db.nextId), m.id, forceRecalculate, Lattice(m, utcOf), db.participants, db.busySlots)
  {
    ghost var t0, n0 := db.suggested, db.nextId;
    if forceRecalculate {
      db.suggested := DropMeeting(db.suggested, m.id);
    }
    var possibleSlots := GenerateTimeSlots(m, utcOf);
    suggestedSlots := UpsertSlots(db, m.id, possibleSlots);
    RecomputeValid(t0, n0, m.id, forceRecalculate, possibleSlots, db.participants, db.busySlots);
  }
}
