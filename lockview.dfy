/**
 * The leader's views of one request: lock_slot, which keeps the chosen
 * suggested slot, deletes the meeting's others and marks the request
 * locked; and view_request, which recomputes the suggestions unless the
 * request is locked and then shows either the locked slot or the top ten
 * suggestions, with the heatmap in the default zone.
 */
module LockViews {
  import opened Wrappers
  import opened Calendar
  import opened Models
  import opened Store
  import opened TimeSlots
  import opened Suggestions
  import opened Ranking
  import opened Heatmap
  import opened SortedSets
  import opened Responses

  /** The table after deleting meeting mid's rows other than the one with id sid. */
  function DeleteSiblings(t: seq<SuggestedSlot>, mid: MeetingId, sid: SlotId): (r: seq<SuggestedSlot>)
    ensures |r| <= |t|
    ensures forall s :: s in r <==> s in t && (s.meeting != mid || s.id == sid)
  {
    if t == [] then []
    else
      var last := t[|t| - 1];
      DeleteSiblings(t[..|t| - 1], mid, sid) + (if last.meeting != mid || last.id == sid then [last] else [])
  }

  /** slot.is_locked = True; slot.save(): the row of meeting mid with id sid, locked. */
  function MarkLocked(t: seq<SuggestedSlot>, mid: MeetingId, sid: SlotId): seq<SuggestedSlot> {
    match IndexOfSlot(t, mid, sid)
    case None => t
    case Some(i) => t[i := t[i].(isLocked := true)]
  }

  /** The suggested-slot table after lock_slot(mid, sid). */
  function LockedTable(t: seq<SuggestedSlot>, mid: MeetingId, sid: SlotId): seq<SuggestedSlot> {
    MarkLocked(DeleteSiblings(t, mid, sid), mid, sid)
  }

  /** Filtering by meeting distributes over concatenation. */
  lemma {:induction false} SlotsOfConcat(a: seq<SuggestedSlot>, b: seq<SuggestedSlot>, m: MeetingId)
    ensures SlotsOf(a + b, m) == SlotsOf(a, m) + SlotsOf(b, m)
  {
    if b != [] {
      var p, last := b[..|b| - 1], b[|b| - 1];
      assert b == p + [last];
      assert a + b == (a + p) + [last];
      SlotsOfConcat(a, p, m);
      SlotsOfAppend(a + p, last, m);
      SlotsOfAppend(p, last, m);
    } else {
      assert a + b == a;
    }
  }

  /** Deleting meeting mid's other rows leaves every other meeting's rows as they were. */
  lemma {:induction false} DeleteSiblingsOther(t: seq<SuggestedSlot>, mid: MeetingId, sid: SlotId, other: MeetingId)
    requires other != mid
    ensures SlotsOf(DeleteSiblings(t, mid, sid), other) == SlotsOf(t, other)
  {
    if t != [] {
      var p, last := t[..|t| - 1], t[|t| - 1];
      DeleteSiblingsOther(p, mid, sid, other);
      if last.meeting != mid || last.id == sid {
        SlotsOfAppend(DeleteSiblings(p, mid, sid), last, other);
      } else {
        assert DeleteSiblings(t, mid, sid) == DeleteSiblings(p, mid, sid);
      }
    }
  }

  /** A table none of whose rows is meeting m's has no rows of m. */
  lemma NoSlotsOf(t: seq<SuggestedSlot>, m: MeetingId)
    requires forall s :: s in t ==> s.meeting != m
    ensures SlotsOf(t, m) == []
  {
    if SlotsOf(t, m) != [] {
      assert SlotsOf(t, m)[0] in SlotsOf(t, m);
    }
  }

  /** After deleting its siblings, the chosen row is the only row of its meeting. */
  lemma {:induction false} DeleteSiblingsOwn(t: seq<SuggestedSlot>, n: nat, mid: MeetingId, sid: SlotId, i: nat)
    requires SlotTableValid(t, n) && i < |t| && t[i].meeting == mid && t[i].id == sid
    ensures SlotsOf(DeleteSiblings(t, mid, sid), mid) == [t[i]]
  {
    var p, last := t[..|t| - 1], t[|t| - 1];
    var dp := DeleteSiblings(p, mid, sid);
    if i == |t| - 1 {
      NoSiblingsBeforeLast(t, n, mid, sid);
      NoSlotsOf(dp, mid);
      SlotsOfAppend(dp, last, mid);
    } else {
      assert SlotTableValid(p, n);
      assert p[i] == t[i];
      DeleteSiblingsOwn(p, n, mid, sid, i);
      if last.meeting != mid || last.id == sid {
        assert last.meeting != mid;
        SlotsOfAppend(dp, last, mid);
      } else {
        assert DeleteSiblings(t, mid, sid) == dp;
      }
    }
  }

  /** When the chosen row is last, deleting its siblings from the rows before it leaves none of its meeting. */
  lemma NoSiblingsBeforeLast(t: seq<SuggestedSlot>, n: nat, mid: MeetingId, sid: SlotId)
    requires SlotTableValid(t, n) && |t| > 0 && t[|t| - 1].meeting == mid && t[|t| - 1].id == sid
    ensures forall s :: s in DeleteSiblings(t[..|t| - 1], mid, sid) ==> s.meeting != mid
  {
    var p := t[..|t| - 1];
    forall s | s in DeleteSiblings(p, mid, sid)
      ensures s.meeting != mid
    {
      var a :| 0 <= a < |p| && p[a] == s;
      assert t[a] == s;
    }
  }

  /** Deleting rows keeps the table valid. */
  lemma {:induction false} DeleteSiblingsValid(t: seq<SuggestedSlot>, n: nat, mid: MeetingId, sid: SlotId)
    requires SlotTableValid(t, n)
    ensures SlotTableValid(DeleteSiblings(t, mid, sid), n)
  {
    if t != [] {
      var p, last := t[..|t| - 1], t[|t| - 1];
      LastIsDistinct(t, n);
      DeleteSiblingsValid(p, n, mid, sid);
      if last.meeting != mid || last.id == sid {
        AppendDistinctValid(DeleteSiblings(p, mid, sid), n, last);
      }
    }
  }

  /** Replacing the only row of meeting m by another row of m leaves that row alone. */
  lemma SlotsOfSingleUpdate(u: seq<SuggestedSlot>, j: nat, x: SuggestedSlot, m: MeetingId)
    requires j < |u| && u[j].meeting == m && x.meeting == m && SlotsOf(u, m) == [u[j]]
    ensures SlotsOf(u[j := x], m) == [x]
  {
    var a, b := u[..j], u[j + 1..];
    assert u == a + [u[j]] + b;
    assert u[j := x] == a + [x] + b;
    SlotsOfAround(a, u[j], b, m);
    SlotsOfAround(a, x, b, m);
  }

  /** The rows of m around one row of m. */
  lemma SlotsOfAround(a: seq<SuggestedSlot>, y: SuggestedSlot, b: seq<SuggestedSlot>, m: MeetingId)
    requires y.meeting == m
    ensures SlotsOf(a + [y] + b, m) == SlotsOf(a, m) + [y] + SlotsOf(b, m)
  {
    SlotsOfConcat(a + [y], b, m);
    SlotsOfAppend(a, y, m);
  }

  /**
   * lock_slot leaves exactly one row for the meeting: the chosen row, now
   * locked, with its counts and times unchanged.
   */
  lemma LockedTableMeeting(t: seq<SuggestedSlot>, n: nat, mid: MeetingId, sid: SlotId)
    requires SlotTableValid(t, n) && IndexOfSlot(t, mid, sid).Some?
    ensures SlotsOf(LockedTable(t, mid, sid), mid) == [t[IndexOfSlot(t, mid, sid).value].(isLocked := true)]
  {
    var i := IndexOfSlot(t, mid, sid).value;
    var u := DeleteSiblings(t, mid, sid);
    DeleteSiblingsOwn(t, n, mid, sid, i);
    assert t[i] in SlotsOf(u, mid);
    var k :| 0 <= k < |u| && u[k] == t[i];
    assert IndexOfSlot(u, mid, sid).Some?;
    var j := IndexOfSlot(u, mid, sid).value;
    assert u[j] in SlotsOf(u, mid);
    SlotsOfSingleUpdate(u, j, t[i].(isLocked := true), mid);
  }

  /** lock_slot leaves every other meeting's rows as they were. */
  lemma LockedTableOthers(t: seq<SuggestedSlot>, mid: MeetingId, sid: SlotId, other: MeetingId)
    requires other != mid
    ensures SlotsOf(LockedTable(t, mid, sid), other) == SlotsOf(t, other)
  {
    var u := DeleteSiblings(t, mid, sid);
    DeleteSiblingsOther(t, mid, sid, other);
    match IndexOfSlot(u, mid, sid)
    case None =>
    case Some(j) =>
      SlotsOfUpdate(u, j, u[j].(isLocked := true), other);
  }

  /** lock_slot keeps the table valid. */
  lemma LockedTableValid(t: seq<SuggestedSlot>, n: nat, mid: MeetingId, sid: SlotId)
    requires SlotTableValid(t, n)
    ensures SlotTableValid(LockedTable(t, mid, sid), n)
  {
    var u := DeleteSiblings(t, mid, sid);
    DeleteSiblingsValid(t, n, mid, sid);
    match IndexOfSlot(u, mid, sid)
    case None =>
    case Some(j) =>
      var v := u[j := u[j].(isLocked := true)];
      assert forall a :: 0 <= a < |v| ==> (v[a].id == u[a].id && KeyOf(v[a]) == KeyOf(u[a])
        && v[a].availableCount == u[a].availableCount && v[a].totalParticipants == u[a].totalParticipants);
  }

  /**
   * lock_slot: when the request or the slot (of this request) does not
   * exist, nothing changes; otherwise the table becomes LockedTable and the
   * request's status becomes locked.
   */
  method LockSlot(db: Database, mid: MeetingId, sid: SlotId) returns (r: Result<(), ViewError>)
    requires db.Valid()
    modifies db`suggested, db`meetings
    ensures db.Valid()
    ensures r.Ok? <==> old(mid in db.meetings) && old(IndexOfSlot(db.suggested, mid, sid)).Some?
    ensures r.Err? ==> r.error == NotFound && db.suggested == old(db.suggested) && db.meetings == old(db.meetings)
    ensures r.Ok? ==> db.suggested == LockedTable(old(db.suggested), mid, sid)
    ensures r.Ok? ==> db.meetings == old(db.meetings)[mid := old(db.meetings)[mid].(status := Locked)]
  {
    if mid !in db.meetings {
      return Err(NotFound);
    }
    var meeting := db.meetings[mid];
    var found := IndexOfSlot(db.suggested, mid, sid);
    if found.None? {
      return Err(NotFound);
    }
    LockedTableValid(db.suggested, db.nextId, mid, sid);
    db.suggested := DeleteSiblings(db.suggested, mid, sid);
    db.suggested := MarkLocked(db.suggested, mid, sid);
    db.meetings := db.meetings[mid := meeting.(status := Locked)];
    return Ok(());
  }

  /** SuggestedSlot.objects.filter(is_locked=True) over some rows, in their order. */
  function LockedOf(s: seq<SuggestedSlot>): (r: seq<SuggestedSlot>)
    ensures forall x :: x in r <==> x in s && x.isLocked
  {
    if s == [] then []
    else
      var last := s[|s| - 1];
      LockedOf(s[..|s| - 1]) + (if last.isLocked then [last] else [])
  }

  /** What view_request shows. */
  datatype RequestPage = RequestPage(
    meeting: MeetingRequest,
    participants: seq<Participant>,
    responded: seq<Participant>,
    topSuggestions: seq<SuggestedSlot>,
    heatmap: HeatmapData)

  /** The suggestions view_request lists for meeting m over table t. */
  function ShownSuggestions(t: seq<SuggestedSlot>, m: MeetingRequest): seq<SuggestedSlot> {
    if m.status == Locked then LockedOf(Sort(SlotsOf(t, m.id))) else GetTopSuggestions(t, m.id, 10, 50.0)
  }

  /**
   * After a lock, the request view shows exactly the locked slot (and
   * recomputes nothing, as the request is locked).
   */
  lemma LockThenViewShowsLockedSlot(t: seq<SuggestedSlot>, n: nat, m: MeetingRequest, sid: SlotId)
    requires SlotTableValid(t, n) && IndexOfSlot(t, m.id, sid).Some? && m.status == Locked
    ensures ShownSuggestions(LockedTable(t, m.id, sid), m) == [t[IndexOfSlot(t, m.id, sid).value].(isLocked := true)]
  {
    var x := t[IndexOfSlot(t, m.id, sid).value].(isLocked := true);
    LockedTableMeeting(t, n, m.id, sid);
    var s := Sort([x]);
    assert multiset(s) == multiset{x};
    assert |s| == 1;
    assert s[0] in multiset(s);
    assert s == [x];
    assert LockedOf([x]) == LockedOf([]) + [x];
  }

  /**
   * view_request: a missing request is a 404. Otherwise, unless the
   * request is locked, its suggestions are recomputed with force; the page
   * lists the request's participants and responders, the shown suggestions
   * and the heatmap of the (possibly recomputed) table in the default zone.
   * A locked request's table is left untouched.
   */
  method ViewRequest(db: Database, mid: MeetingId, utcOf: Localizer, localOf: LocalView)
    returns (r: Result<RequestPage, ViewError>)
    requires db.Valid()
    modifies db`suggested, db`nextId
    ensures db.Valid()
    ensures r.Err? <==> mid !in db.meetings
    ensures r.Err? ==> r.error == NotFound && db.suggested == old(db.suggested) && db.nextId == old(db.nextId)
    ensures mid in db.meetings && db.meetings[mid].status == Locked ==> db.suggested == old(db.suggested) && db.nextId == old(db.nextId)
    ensures mid in db.meetings && db.meetings[mid].status != Locked ==>
      (db.suggested, db.nextId) == (Recompute(old(db.suggested), old(db.nextId), mid, true,
                                              Lattice(db.meetings[mid], utcOf), db.participants, db.busySlots).0,
                                    Recompute(old(db.suggested), old(db.nextId), mid, true,
                                              Lattice(db.meetings[mid], utcOf), db.participants, db.busySlots).1)
    ensures r.Ok? ==> var m := db.meetings[mid];
      && r.value.meeting == m
      && r.value.participants == ParticipantsOf(db.participants, mid)
      && r.value.responded == RespondedOf(db.participants, mid)
      && r.value.topSuggestions == ShownSuggestions(db.suggested, m)
      && r.value.heatmap.heatmap == GridOf(HeatmapEntries(db.suggested, m, utcOf), DefaultTimezone, localOf)
      && r.value.heatmap.timezone == DefaultTimezone
      && StrictlyIncreasing(r.value.heatmap.dates)
      && (forall d :: d in r.value.heatmap.dates <==> d in DatesOf(HeatmapEntries(db.suggested, m, utcOf), DefaultTimezone, localOf))
      && StrictlyIncreasing(r.value.heatmap.timeSlots)
      && (forall x :: x in r.value.heatmap.timeSlots <==> x in TimesOf(HeatmapEntries(db.suggested, m, utcOf), DefaultTimezone, localOf))
  {
    if mid !in db.meetings {
      return Err(NotFound);
    }
    var m := db.meetings[mid];
    var participants := ParticipantsOf(db.participants, mid);
    var responded := RespondedOf(db.participants, mid);
    if m.status != Locked {
      var rows := GenerateSuggestedSlots(db, m, true, utcOf);
    }
    var top: seq<SuggestedSlot>;
    if m.status == Locked {
      top := LockedOf(Sort(SlotsOf(db.suggested, mid)));
    } else {
      top := GetTopSuggestions(db.suggested, mid, 10, 50.0);
    }
    var heatmap := GetHeatmapData(db.suggested, m, DefaultTimezone, utcOf, localOf);
    return Ok(RequestPage(m, participants, responded, top, heatmap));
  }
}
