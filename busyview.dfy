/**
 * save_busy_slots: a participant posts its busy intervals; they replace
 * the participant's stored ones, the participant is marked as responded,
 * and the request's suggestions are recomputed with force.
 *
 * SaveBusySlotsAsWritten follows the view line by line. It deletes the old
 * intervals before it parses the new ones, so a list that fails to parse
 * loses them; and it recomputes with force even for a locked request,
 * which deletes the locked slot. SaveBusySlots is the same view with both
 * corrected: it parses first and leaves a locked request's slots alone.
 */
module BusyViews {
  import opened Wrappers
  import opened Calendar
  import opened Models
  import opened Store
  import opened TimeSlots
  import opened Suggestions
  import opened Ranking
  import opened BusyInput
  import opened LockViews
  import opened Responses

  /** The BusySlot rows created for participant p from the parsed intervals. */
  function BusyRows(p: ParticipantId, slots: seq<(Instant, Instant)>): seq<BusySlot> {
    seq(|slots|, i requires 0 <= i < |slots| => BusySlot(p, slots[i].0, slots[i].1))
  }

  /** The participant table after marking row i as responded at `now`. */
  function MarkResponded(ps: seq<Participant>, i: nat, now: Instant): seq<Participant>
    requires i < |ps|
  {
    ps[i := ps[i].(hasResponded := true, respondedAt := Some(now))]
  }

  /** Filtering by participant distributes over concatenation. */
  lemma {:induction false} BusyOfConcat(a: seq<BusySlot>, b: seq<BusySlot>, q: ParticipantId)
    ensures BusyOf(a + b, q) == BusyOf(a, q) + BusyOf(b, q)
  {
    if b == [] {
      assert a + b == a;
    } else {
      var p, last := b[..|b| - 1], b[|b| - 1];
      assert (a + b)[..|a + b| - 1] == a + p;
      assert (a + b)[|a + b| - 1] == last;
      BusyOfConcat(a, p, q);
    }
  }

  /** Filtering by participant distributes over appending one row. */
  lemma BusyOfAppend(bs: seq<BusySlot>, x: BusySlot, q: ParticipantId)
    ensures BusyOf(bs + [x], q) == BusyOf(bs, q) + (if x.participant == q then [x] else [])
  {
    assert (bs + [x])[..|bs + [x]| - 1] == bs;
  }

  /** After deleting p's busy slots, p has none and everyone else keeps theirs. */
  lemma {:induction false} BusyOfDrop(bs: seq<BusySlot>, p: ParticipantId, q: ParticipantId)
    ensures BusyOf(DropBusyOf(bs, p), q) == if q == p then [] else BusyOf(bs, q)
  {
    if bs != [] {
      var pre, last := bs[..|bs| - 1], bs[|bs| - 1];
      var d := DropBusyOf(pre, p);
      BusyOfDrop(pre, p, q);
      assert BusyOf(bs, q) == BusyOf(pre, q) + (if last.participant == q then [last] else []);
      if last.participant != p {
        assert DropBusyOf(bs, p) == d + [last];
        BusyOfAppend(d, last, q);
      } else {
        assert DropBusyOf(bs, p) == d;
      }
    }
  }

  /** Rows that all belong to p are p's and no one else's. */
  lemma {:induction false} BusyOfOwnRows(bs: seq<BusySlot>, p: ParticipantId, q: ParticipantId)
    requires forall i :: 0 <= i < |bs| ==> bs[i].participant == p
    ensures BusyOf(bs, q) == if q == p then bs else []
  {
    if bs != [] {
      var pre, last := bs[..|bs| - 1], bs[|bs| - 1];
      BusyOfOwnRows(pre, p, q);
      if q == p {
        assert pre + [last] == bs;
      }
    }
  }

  /** Rows created for p are p's and no one else's. */
  lemma BusyOfRows(p: ParticipantId, slots: seq<(Instant, Instant)>, q: ParticipantId)
    ensures BusyOf(BusyRows(p, slots), q) == if q == p then BusyRows(p, slots) else []
  {
    BusyOfOwnRows(BusyRows(p, slots), p, q);
  }

  /**
   * Deleting p's busy slots and then creating the parsed ones leaves p with
   * exactly the posted intervals, in order, and every other participant
   * with its own.
   */
  lemma ReplaceBusy(bs: seq<BusySlot>, p: ParticipantId, slots: seq<(Instant, Instant)>, q: ParticipantId)
    ensures BusyOf(DropBusyOf(bs, p) + BusyRows(p, slots), q) == if q == p then BusyRows(p, slots) else BusyOf(bs, q)
  {
    BusyOfConcat(DropBusyOf(bs, p), BusyRows(p, slots), q);
    BusyOfDrop(bs, p, q);
    BusyOfRows(p, slots, q);
  }

  /** Marking a participant as responded keeps the participant table valid. */
  lemma MarkRespondedValid(ps: seq<Participant>, n: nat, i: nat, now: Instant)
    requires ParticipantTableValid(ps, n) && i < |ps|
    ensures ParticipantTableValid(MarkResponded(ps, i, now), n)
  {
    var qs := MarkResponded(ps, i, now);
    assert forall a :: 0 <= a < |qs| ==> (qs[a].id == ps[a].id && qs[a].meeting == ps[a].meeting && qs[a].email == ps[a].email);
  }

  /** A filter for locked rows over rows none of which is locked is empty. */
  lemma NoneLocked(s: seq<SuggestedSlot>)
    requires forall x :: x in s ==> !x.isLocked
    ensures LockedOf(s) == []
  {
    if LockedOf(s) != [] {
      assert LockedOf(s)[0] in LockedOf(s);
    }
  }

  /** A locked request with no locked row shows no suggestion. */
  lemma NothingLockedNothingShown(t: seq<SuggestedSlot>, m: MeetingRequest)
    requires m.status == Locked
    requires forall s :: s in t && s.meeting == m.id ==> !s.isLocked
    ensures ShownSuggestions(t, m) == []
  {
    var sorted := Sort(SlotsOf(t, m.id));
    forall x | x in sorted
      ensures !x.isLocked
    {
      assert x in multiset(sorted);
    }
    NoneLocked(sorted);
  }

  /**
   * The locked slot is lost when a participant saves after the lock: the
   * request view shows the locked slot right after lock_slot, and shows no
   * slot at all once save_busy_slots, as written, has recomputed with force.
   */
  lemma LockedSlotLostOnResubmit(t: seq<SuggestedSlot>, n: nat, m: MeetingRequest, sid: SlotId, lattice: seq<Slot>,
                                 ps: seq<Participant>, busy: seq<BusySlot>)
    requires SlotTableValid(t, n) && IndexOfSlot(t, m.id, sid).Some? && m.status == Locked
    ensures ShownSuggestions(LockedTable(t, m.id, sid), m) != []
    ensures ShownSuggestions(Recompute(LockedTable(t, m.id, sid), n, m.id, true, lattice, ps, busy).0, m) == []
  {
    LockThenViewShowsLockedSlot(t, n, m, sid);
    ForceRecomputeUnlocks(LockedTable(t, m.id, sid), n, m.id, lattice, ps, busy);
    NothingLockedNothingShown(Recompute(LockedTable(t, m.id, sid), n, m.id, true, lattice, ps, busy).0, m);
  }

  /**
   * A posted list whose one item has an unreadable end time is refused,
   * while the participant's earlier busy slots, deleted before the parse,
   * are gone from the table: a refused save still loses them.
   */
  lemma MalformedBodyLosesBusySlots(bs: seq<BusySlot>, p: ParticipantId, tz: TimeZoneName, utcOf: Localizer,
                                    d: Date, time: TimeOfDay)
    requires BusyOf(bs, p) != []
    ensures ParseBusy([Item(Local(d, time), Malformed)], tz, utcOf) == Err(BadDatetime)
    ensures DropBusyOf(bs, p) != bs
    ensures BusyOf(DropBusyOf(bs, p), p) == []
  {
    assert ParseBusy([Item(Local(d, time), Malformed)][..0], tz, utcOf) == Ok([]);
    var b := BusyOf(bs, p)[0];
    assert b in BusyOf(bs, p);
    assert b in bs && b !in DropBusyOf(bs, p);
    BusyOfDrop(bs, p, p);
  }

  /** BusySlot.objects.create for every parsed interval, in order. */
  method CreateBusySlots(db: Database, p: ParticipantId, slots: seq<(Instant, Instant)>)
    modifies db`busySlots
    ensures db.busySlots == old(db.busySlots) + BusyRows(p, slots)
  {
    for k := 0 to |slots|
      invariant db.busySlots == old(db.busySlots) + BusyRows(p, slots[..k])
    {
      assert BusyRows(p, slots[..k + 1]) == BusyRows(p, slots[..k]) + [BusySlot(p, slots[k].0, slots[k].1)];
      db.busySlots := db.busySlots + [BusySlot(p, slots[k].0, slots[k].1)];
    }
    assert slots[..|slots|] == slots;
  }

  /**
   * save_busy_slots as written. Before any change: a missing request or
   * participant is a 404, a session without a participant and a body that
   * is not a JSON object are 400s. Then the participant's busy slots are
   * deleted; a list that fails to parse is a 400 that keeps that deletion.
   * Otherwise the parsed intervals are stored, the participant is marked as
   * responded, and the suggestions are recomputed with force.
   */
  method SaveBusySlotsAsWritten(db: Database, mid: MeetingId, session: Option<ParticipantId>,
                                body: Option<seq<RawBusy>>, now: Instant, utcOf: Localizer)
    returns (r: Result<(), ViewError>)
    requires db.Valid()
    modifies db`busySlots, db`participants, db`suggested, db`nextId
    ensures db.Valid()
    ensures mid !in db.meetings ==> r == Err(NotFound)
    ensures mid in db.meetings && session.None? ==> r == Err(NoParticipant)
    ensures mid in db.meetings && session.Some? && old(IndexOfParticipant(db.participants, session.value)).None? ==> r == Err(NotFound)
    ensures r.Err? ==> db.participants == old(db.participants) && db.suggested == old(db.suggested) && db.nextId == old(db.nextId)
    ensures r.Err? && !(r.error == BadRequest && body.Some?) ==> db.busySlots == old(db.busySlots)
    ensures r.Err? && r.error == BadRequest && body.Some? ==>
      session.Some? && db.busySlots == old(DropBusyOf(db.busySlots, session.value))
    ensures r.Ok? ==> (mid in db.meetings && session.Some? && body.Some?
      && old(IndexOfParticipant(db.participants, session.value)).Some?
      && var i := old(IndexOfParticipant(db.participants, session.value)).value;
         var tz := old(db.participants[i].timezone);
         && ParseBusy(body.value, tz, utcOf).Ok?
         && db.busySlots == old(DropBusyOf(db.busySlots, session.value)) + BusyRows(session.value, ParseBusy(body.value, tz, utcOf).value)
         && db.participants == old(MarkResponded(db.participants, i, now))
         && (db.suggested, db.nextId) ==
            (Recompute(old(db.suggested), old(db.nextId), mid, true, Lattice(db.meetings[mid], utcOf), db.participants, db.busySlots).0,
             Recompute(old(db.suggested), old(db.nextId), mid, true, Lattice(db.meetings[mid], utcOf), db.participants, db.busySlots).1))
    ensures mid in db.meetings && session.Some? && body.Some? && old(IndexOfParticipant(db.participants, session.value)).Some?
      ==> (r.Ok? <==> ParseBusy(body.value, old(db.participants[IndexOfParticipant(db.participants, session.value).value].timezone), utcOf).Ok?)
  {
    if mid !in db.meetings {
      return Err(NotFound);
    }
    var meeting := db.meetings[mid];
    if session.None? {
      return Err(NoParticipant);
    }
    var found := IndexOfParticipant(db.participants, session.value);
    if found.None? {
      return Err(NotFound);
    }
    var i := found.value;
    var participant := db.participants[i];
    if body.None? {
      return Err(BadRequest);
    }
    db.busySlots := DropBusyOf(db.busySlots, participant.id);
    var parsed := ParseBusySlotsFromJson(body.value, participant.timezone, utcOf);
    if parsed.Err? {
      return Err(BadRequest);
    }
    CreateBusySlots(db, participant.id, parsed.value);
    MarkRespondedValid(db.participants, db.nextId, i, now);
    db.participants := MarkResponded(db.participants, i, now);
    var rows := GenerateSuggestedSlots(db, meeting, true, utcOf);
    return Ok(());
  }

  /**
   * save_busy_slots corrected: a list that fails to parse is a 400 that
   * changes nothing, and a locked request's suggestions are not
   * recomputed, so its locked slot stays. Otherwise as written.
   */
  method SaveBusySlots(db: Database, mid: MeetingId, session: Option<ParticipantId>,
                       body: Option<seq<RawBusy>>, now: Instant, utcOf: Localizer)
    returns (r: Result<(), ViewError>)
    requires db.Valid()
    modifies db`busySlots, db`participants, db`suggested, db`nextId
    ensures db.Valid()
    ensures mid !in db.meetings ==> r == Err(NotFound)
    ensures mid in db.meetings && session.None? ==> r == Err(NoParticipant)
    ensures mid in db.meetings && session.Some? && old(IndexOfParticipant(db.participants, session.value)).None? ==> r == Err(NotFound)
    ensures r.Err? ==> (db.participants == old(db.participants) && db.suggested == old(db.suggested)
      && db.busySlots == old(db.busySlots) && db.nextId == old(db.nextId))
    ensures mid in db.meetings && db.meetings[mid].status == Locked ==> db.suggested == old(db.suggested) && db.nextId == old(db.nextId)
    ensures r.Ok? ==> (mid in db.meetings && session.Some? && body.Some?
      && old(IndexOfParticipant(db.participants, session.value)).Some?
      && var i := old(IndexOfParticipant(db.participants, session.value)).value;
         var tz := old(db.participants[i].timezone);
         && ParseBusy(body.value, tz, utcOf).Ok?
         && db.busySlots == old(DropBusyOf(db.busySlots, session.value)) + BusyRows(session.value, ParseBusy(body.value, tz, utcOf).value)
         && db.participants == old(MarkResponded(db.participants, i, now))
         && (db.meetings[mid].status != Locked ==> ((db.suggested, db.nextId) ==
            (Recompute(old(db.suggested), old(db.nextId), mid, true, Lattice(db.meetings[mid], utcOf), db.participants, db.busySlots).0,
             Recompute(old(db.suggested), old(db.nextId), mid, true, Lattice(db.meetings[mid], utcOf), db.participants, db.busySlots).1))))
    ensures mid in db.meetings && session.Some? && body.Some? && old(IndexOfParticipant(db.participants, session.value)).Some?
      ==> (r.Ok? <==> ParseBusy(body.value, old(db.participants[IndexOfParticipant(db.participants, session.value).value].timezone), utcOf).Ok?)
  {
    if mid !in db.meetings {
      return Err(NotFound);
    }
    var meeting := db.meetings[mid];
    if session.None? {
      return Err(NoParticipant);
    }
    var found := IndexOfParticipant(db.participants, session.value);
    if found.None? {
      return Err(NotFound);
    }
    var i := found.value;
    var participant := db.participants[i];
    if body.None? {
      return Err(BadRequest);
    }
    var parsed := ParseBusySlotsFromJson(body.value, participant.timezone, utcOf);
    if parsed.Err? {
      return Err(BadRequest);
    }
    db.busySlots := DropBusyOf(db.busySlots, participant.id);
    CreateBusySlots(db, participant.id, parsed.value);
    MarkRespondedValid(db.participants, db.nextId, i, now);
    db.participants := MarkResponded(db.participants, i, now);
    if meeting.status != Locked {
      var rows := GenerateSuggestedSlots(db, meeting, true, utcOf);
    }
    return Ok(());
  }
}
