/**
 * is_participant_available and calculate_slot_availability: who of a
 * meeting's responded participants is free during a slot.
 */
module Availability {
  import opened Calendar
  import opened Models

  /** A busy interval of participant p that overlaps the slot [start, end). */
  predicate Conflicts(b: BusySlot, p: ParticipantId, start: Instant, end: Instant) {
    b.participant == p && b.startTime < end && b.endTime > start
  }

  /**
   * is_participant_available: participant p is free iff none of its busy
   * intervals starts before the slot ends and ends after the slot starts.
   */
  function IsParticipantAvailable(busy: seq<BusySlot>, p: ParticipantId, start: Instant, end: Instant): (r: bool)
    ensures r <==> forall i :: 0 <= i < |busy| ==> !Conflicts(busy[i], p, start, end)
  {
    if busy == [] then true
    else !Conflicts(busy[|busy| - 1], p, start, end) && IsParticipantAvailable(busy[..|busy| - 1], p, start, end)
  }

  /**
   * A busy interval that only touches the slot (ends when it starts, or
   * starts when it ends) leaves the participant free, and one strictly
   * inside or around the slot does not.
   */
  lemma TouchingIsNoConflict(p: ParticipantId, start: Instant, end: Instant, other: Instant)
    requires start < end
    ensures IsParticipantAvailable([BusySlot(p, other, start)], p, start, end)
    ensures IsParticipantAvailable([BusySlot(p, end, other)], p, start, end)
    ensures !IsParticipantAvailable([BusySlot(p, start, end)], p, start, end)
  {
    assert !Conflicts(BusySlot(p, other, start), p, start, end);
    assert !Conflicts(BusySlot(p, end, other), p, start, end);
    assert Conflicts([BusySlot(p, start, end)][0], p, start, end);
  }

  /** Another participant's busy intervals never make p unavailable. */
  lemma {:induction false} OthersDoNotMatter(busy: seq<BusySlot>, extra: seq<BusySlot>, p: ParticipantId, start: Instant, end: Instant)
    requires forall i :: 0 <= i < |extra| ==> extra[i].participant != p
    ensures IsParticipantAvailable(busy + extra, p, start, end) == IsParticipantAvailable(busy, p, start, end)
  {
    if IsParticipantAvailable(busy, p, start, end) {
      forall i | 0 <= i < |busy + extra|
        ensures !Conflicts((busy + extra)[i], p, start, end)
      {
        if i >= |busy| {
          assert (busy + extra)[i] == extra[i - |busy|];
        } else {
          assert (busy + extra)[i] == busy[i];
        }
      }
    } else {
      var i :| 0 <= i < |busy| && Conflicts(busy[i], p, start, end);
      assert (busy + extra)[i] == busy[i];
    }
  }

  /** The ids of the participants in rs who are free during [start, end), in order. */
  function FreeIds(rs: seq<Participant>, busy: seq<BusySlot>, start: Instant, end: Instant): (r: seq<ParticipantId>)
    ensures |r| <= |rs|
    ensures forall x :: x in r <==> exists i :: 0 <= i < |rs| && rs[i].id == x && IsParticipantAvailable(busy, x, start, end)
  {
    if rs == [] then []
    else
      var last := rs[|rs| - 1];
      var prefix := FreeIds(rs[..|rs| - 1], busy, start, end);
      assert forall i :: 0 <= i < |rs| - 1 ==> rs[..|rs| - 1][i] == rs[i];
      prefix + (if IsParticipantAvailable(busy, last.id, start, end) then [last.id] else [])
  }

  /** The (available, total) counts a slot gets: free responded participants over responded ones. */
  function SlotCounts(ps: seq<Participant>, busy: seq<BusySlot>, m: MeetingId, start: Instant, end: Instant): (r: (nat, nat))
    ensures r.0 <= r.1
    ensures r.1 == |RespondedOf(ps, m)|
  {
    var responded := RespondedOf(ps, m);
    (|FreeIds(responded, busy, start, end)|, |responded|)
  }

  /**
   * calculate_slot_availability: the total is the number of responded
   * participants of m, the ids are exactly those of them who pass the
   * overlap test (in table order), the available count is their number,
   * and no responded participant gives (0, 0, []).
   */
  method CalculateSlotAvailability(ps: seq<Participant>, busy: seq<BusySlot>, m: MeetingId, start: Instant, end: Instant)
    returns (available: nat, total: nat, ids: seq<ParticipantId>)
    ensures total == |RespondedOf(ps, m)|
    ensures ids == FreeIds(RespondedOf(ps, m), busy, start, end)
    ensures forall x :: x in ids <==>
      exists p :: p in ps && p.meeting == m && p.hasResponded && p.id == x && IsParticipantAvailable(busy, x, start, end)
    ensures available == |ids| <= total
    ensures (available, total) == SlotCounts(ps, busy, m, start, end)
    ensures total == 0 ==> available == 0 && ids == []
  {
    var participants := RespondedOf(ps, m);
    total := |participants|;
    if total == 0 {
      return 0, 0, [];
    }
    var availableParticipants: seq<ParticipantId> := [];
    for i := 0 to |participants|
      invariant availableParticipants == FreeIds(participants[..i], busy, start, end)
    {
      assert participants[..i + 1][..i] == participants[..i];
      if IsParticipantAvailable(busy, participants[i].id, start, end) {
        availableParticipants := availableParticipants + [participants[i].id];
      }
    }
    assert participants[..|participants|] == participants;
    forall x | x in availableParticipants
      ensures exists p :: p in ps && p.meeting == m && p.hasResponded && p.id == x && IsParticipantAvailable(busy, x, start, end)
    {
      var i :| 0 <= i < |participants| && participants[i].id == x && IsParticipantAvailable(busy, x, start, end);
      assert participants[i] in participants;
    }
    forall x | exists p :: p in ps && p.meeting == m && p.hasResponded && p.id == x && IsParticipantAvailable(busy, x, start, end)
      ensures x in availableParticipants
    {
      var p :| p in ps && p.meeting == m && p.hasResponded && p.id == x && IsParticipantAvailable(busy, x, start, end);
      assert p in participants;
      var i :| 0 <= i < |participants| && participants[i] == p;
    }
    return |availableParticipants|, total, availableParticipants;
  }
}
