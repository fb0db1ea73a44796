/**
 * generate_time_slots: the candidate-slot lattice of a meeting request.
 *
 * Every date of the inclusive range is visited; with work-days-only set,
 * Saturdays and Sundays are skipped. On a visited day the working hours are
 * localized in the request's zone, and slots of the requested duration
 * start at the start of working hours and advance by the step while they
 * still end by the end of working hours. Advancing an aware datetime keeps
 * its UTC offset, so a day's slots are the localized start plus multiples of
 * the step, compared against the localized end.
 */
module TimeSlots {
  import opened Calendar
  import opened Models

  /** A candidate slot: a (start, end) pair of UTC instants. */
  datatype Slot = Slot(start: Instant, end: Instant)

  /** The slots of one day whose first slot starts at `first`. */
  function DaySlots(first: Instant, workEnd: Instant, duration: int, step: int): seq<Slot>
    requires step > 0
    decreases workEnd - duration - first
  {
    if first + duration <= workEnd then [Slot(first, first + duration)] + DaySlots(first + step, workEnd, duration, step)
    else []
  }

  /** Whether the generator visits date d at all. */
  predicate DayIncluded(m: MeetingRequest, d: Date) {
    !(m.workDaysOnly && Weekday(d) >= 5)
  }

  /** The localized start and end of working hours on date d. */
  function WorkStart(m: MeetingRequest, utcOf: Localizer, d: Date): Instant {
    utcOf(m.timezone, d, m.workHoursStart)
  }

  function WorkEnd(m: MeetingRequest, utcOf: Localizer, d: Date): Instant {
    utcOf(m.timezone, d, m.workHoursEnd)
  }

  /** The slots generated for date d when it is visited. */
  function SlotsOfDay(m: MeetingRequest, utcOf: Localizer, d: Date): seq<Slot>
    requires m.stepSizeMinutes > 0
  {
    DaySlots(WorkStart(m, utcOf, d), WorkEnd(m, utcOf, d), m.durationMinutes, m.stepSizeMinutes)
  }

  /** The slots generated from date d to the end of the range. */
  function LatticeFrom(m: MeetingRequest, utcOf: Localizer, d: Date): seq<Slot>
    requires m.stepSizeMinutes > 0
    decreases m.dateRangeEnd - d
  {
    if d > m.dateRangeEnd then []
    else (if DayIncluded(m, d) then SlotsOfDay(m, utcOf, d) else []) + LatticeFrom(m, utcOf, d + 1)
  }

  /** The whole lattice of a meeting request, in generation order. */
  function Lattice(m: MeetingRequest, utcOf: Localizer): seq<Slot>
    requires m.stepSizeMinutes > 0
  {
    LatticeFrom(m, utcOf, m.dateRangeStart)
  }

  /** generate_time_slots. */
  method GenerateTimeSlots(m: MeetingRequest, utcOf: Localizer) returns (slots: seq<Slot>)
    requires m.stepSizeMinutes > 0
    ensures slots == Lattice(m, utcOf)
  {
    slots := [];
    var currentDate := m.dateRangeStart;
    while currentDate <= m.dateRangeEnd
      invariant slots + LatticeFrom(m, utcOf, currentDate) == Lattice(m, utcOf)
      decreases m.dateRangeEnd - currentDate
    {
      ghost var before := slots;
      // with work-days-only set, Saturdays and Sundays are skipped
      if !(m.workDaysOnly && Weekday(currentDate) >= 5) {
        var workStart := utcOf(m.timezone, currentDate, m.workHoursStart);
        var workEnd := utcOf(m.timezone, currentDate, m.workHoursEnd);
        slots := AppendDaySlots(slots, workStart, workEnd, m.durationMinutes, m.stepSizeMinutes);
      }
      LatticeFromStep(m, utcOf, currentDate, before, slots);
      currentDate := currentDate + 1;
    }
  }

  /** One visited (or skipped) date moves its slots from the remaining lattice to the generated prefix. */
  lemma LatticeFromStep(m: MeetingRequest, utcOf: Localizer, d: Date, before: seq<Slot>, after: seq<Slot>)
    requires m.stepSizeMinutes > 0 && d <= m.dateRangeEnd
    requires after == before + (if DayIncluded(m, d) then SlotsOfDay(m, utcOf, d) else [])
    ensures before + LatticeFrom(m, utcOf, d) == after + LatticeFrom(m, utcOf, d + 1)
  {
  }

  /** The inner loop of generate_time_slots: appends one day's slots, stepping from the start of working hours. */
  method AppendDaySlots(slots0: seq<Slot>, workStart: Instant, workEnd: Instant, duration: int, step: int)
    returns (slots: seq<Slot>)
    requires step > 0
    ensures slots == slots0 + DaySlots(workStart, workEnd, duration, step)
  {
    slots := slots0;
    var currentSlotStart := workStart;
    while currentSlotStart + duration <= workEnd
      invariant slots + DaySlots(currentSlotStart, workEnd, duration, step) == slots0 + DaySlots(workStart, workEnd, duration, step)
      decreases workEnd - duration - currentSlotStart
    {
      var slotEnd := currentSlotStart + duration;
      assert DaySlots(currentSlotStart, workEnd, duration, step)
             == [Slot(currentSlotStart, slotEnd)] + DaySlots(currentSlotStart + step, workEnd, duration, step);
      slots := slots + [Slot(currentSlotStart, slotEnd)];
      currentSlotStart := currentSlotStart + step;
    }
  }

  /** The number of slots a day whose working hours span `window` minutes gets. */
  function DayCount(window: int, duration: int, step: int): (n: nat)
    requires step > 0
  {
    if duration <= window then (window - duration) / step + 1 else 0
  }

  /** Removing one step from a span of at least one step removes one from the quotient. */
  lemma DivStep(x: int, s: int)
    requires s > 0 && x >= s
    ensures (x - s) / s == x / s - 1
  {
    var q, r := x / s, x % s;
    assert x == q * s + r;
    assert x - s == (q - 1) * s + r;
    DivUnique(x - s, s, q - 1, r);
  }

  /** The quotient is the only q with x == q * s + r and 0 <= r < s. */
  lemma DivUnique(x: int, s: int, q: int, r: int)
    requires s > 0 && 0 <= r < s && x == q * s + r
    ensures x / s == q
  {
    var q', r' := x / s, x % s;
    assert x == q' * s + r';
    assert (q' - q) * s == r - r';
    if q' > q {
      Models.MulMonotone(1, q' - q, s);
      assert false;
    } else if q' < q {
      Models.MulMonotone(1, q - q', s);
      assert false;
    }
  }

  /**
   * The k-th slot of a day starts k steps after the first, every slot lasts
   * the duration and ends by the end of working hours, and a day gets
   * (window - duration) / step + 1 slots, or none when the duration does
   * not fit.
   */
  lemma DaySlotsShape(first: Instant, workEnd: Instant, duration: int, step: int)
    requires step > 0
    ensures |DaySlots(first, workEnd, duration, step)| == DayCount(workEnd - first, duration, step)
    ensures forall k :: 0 <= k < |DaySlots(first, workEnd, duration, step)| ==>
      DaySlots(first, workEnd, duration, step)[k] == Slot(first + k * step, first + k * step + duration)
      && first + k * step + duration <= workEnd
  {
    DaySlotsCount(first, workEnd, duration, step);
    DaySlotsAt(first, workEnd, duration, step);
  }

  /** A day gets DayCount slots. */
  lemma {:induction false} DaySlotsCount(first: Instant, workEnd: Instant, duration: int, step: int)
    requires step > 0
    ensures |DaySlots(first, workEnd, duration, step)| == DayCount(workEnd - first, duration, step)
    decreases workEnd - duration - first
  {
    if first + duration <= workEnd {
      DaySlotsCount(first + step, workEnd, duration, step);
      if workEnd - first - duration >= step {
        DivStep(workEnd - first - duration, step);
      } else {
        assert (workEnd - first - duration) / step == 0;
      }
    }
  }

  /** The k-th slot of a day starts k steps after the first and ends by the end of working hours. */
  lemma {:induction false} DaySlotsAt(first: Instant, workEnd: Instant, duration: int, step: int)
    requires step > 0
    ensures forall k :: 0 <= k < |DaySlots(first, workEnd, duration, step)| ==>
      DaySlots(first, workEnd, duration, step)[k] == Slot(first + k * step, first + k * step + duration)
      && first + k * step + duration <= workEnd
    decreases workEnd - duration - first
  {
    var r := DaySlots(first, workEnd, duration, step);
    if first + duration <= workEnd {
      var rest := DaySlots(first + step, workEnd, duration, step);
      DaySlotsAt(first + step, workEnd, duration, step);
      assert r == [Slot(first, first + duration)] + rest;
      forall k | 0 < k < |r|
        ensures r[k] == Slot(first + k * step, first + k * step + duration) && first + k * step + duration <= workEnd
      {
        assert r[k] == rest[k - 1];
        StepsAfterOne(first, k, step);
      }
    }
  }

  /** k - 1 steps after the second slot's start is k steps after the first's. */
  lemma StepsAfterOne(first: int, k: int, step: int)
    ensures (first + step) + (k - 1) * step == first + k * step
  {
  }

  /** Consecutive slots of one day start exactly one step apart. */
  lemma DaySlotsStep(first: Instant, workEnd: Instant, duration: int, step: int, k: nat)
    requires step > 0
    requires k + 1 < |DaySlots(first, workEnd, duration, step)|
    ensures DaySlots(first, workEnd, duration, step)[k + 1].start - DaySlots(first, workEnd, duration, step)[k].start == step
  {
    DaySlotsShape(first, workEnd, duration, step);
    assert first + (k + 1) * step == first + k * step + step;
  }

  /** A slot that some visited date of the range generates, with the bounds that date gives it. */
  ghost predicate FromVisitedDay(m: MeetingRequest, utcOf: Localizer, s: Slot)
    requires m.stepSizeMinutes > 0
  {
    exists d :: m.dateRangeStart <= d <= m.dateRangeEnd && DayIncluded(m, d) && s in SlotsOfDay(m, utcOf, d)
  }

  /** Every slot of a day lies within that day's working hours and lasts the duration. */
  lemma DaySlotWithin(first: Instant, workEnd: Instant, duration: int, step: int, s: Slot)
    requires step > 0
    requires s in DaySlots(first, workEnd, duration, step)
    ensures s.end - s.start == duration && first <= s.start && s.end <= workEnd
  {
    DaySlotsShape(first, workEnd, duration, step);
    var k :| 0 <= k < |DaySlots(first, workEnd, duration, step)| && DaySlots(first, workEnd, duration, step)[k] == s;
    assert k * step >= 0;
  }

  /**
   * The lattice from date d holds exactly the slots of the visited dates
   * from d to the end of the range.
   */
  lemma {:induction false} LatticeFromMembers(m: MeetingRequest, utcOf: Localizer, d: Date, s: Slot)
    requires m.stepSizeMinutes > 0
    ensures s in LatticeFrom(m, utcOf, d) <==>
      exists e :: d <= e <= m.dateRangeEnd && DayIncluded(m, e) && s in SlotsOfDay(m, utcOf, e)
    decreases m.dateRangeEnd - d
  {
    if d <= m.dateRangeEnd {
      LatticeFromMembers(m, utcOf, d + 1, s);
      var here := if DayIncluded(m, d) then SlotsOfDay(m, utcOf, d) else [];
      assert LatticeFrom(m, utcOf, d) == here + LatticeFrom(m, utcOf, d + 1);
      if s in here {
        assert DayIncluded(m, d) && s in SlotsOfDay(m, utcOf, d);
      }
    }
  }

  /**
   * Soundness and completeness of the lattice: a slot is generated iff a
   * visited date of the range (never a weekend day when work-days-only is
   * set) generates it; every generated slot lasts the duration and lies
   * within that date's working hours.
   */
  lemma LatticeMembers(m: MeetingRequest, utcOf: Localizer, s: Slot)
    requires m.stepSizeMinutes > 0
    ensures s in Lattice(m, utcOf) <==> FromVisitedDay(m, utcOf, s)
    ensures s in Lattice(m, utcOf) ==> s.end - s.start == m.durationMinutes
    ensures s in Lattice(m, utcOf) ==>
      (exists d :: m.dateRangeStart <= d <= m.dateRangeEnd
         && !(m.workDaysOnly && Weekday(d) >= 5)
         && WorkStart(m, utcOf, d) <= s.start && s.end <= WorkEnd(m, utcOf, d))
  {
    LatticeFromMembers(m, utcOf, m.dateRangeStart, s);
    if s in Lattice(m, utcOf) {
      var d :| m.dateRangeStart <= d <= m.dateRangeEnd && DayIncluded(m, d) && s in SlotsOfDay(m, utcOf, d);
      DaySlotWithin(WorkStart(m, utcOf, d), WorkEnd(m, utcOf, d), m.durationMinutes, m.stepSizeMinutes, s);
    }
  }

  /** The number of slots the visited dates from d onwards generate. */
  function CountFrom(m: MeetingRequest, utcOf: Localizer, d: Date): nat
    requires m.stepSizeMinutes > 0
    decreases m.dateRangeEnd - d
  {
    if d > m.dateRangeEnd then 0
    else (if DayIncluded(m, d) then DayCount(WorkEnd(m, utcOf, d) - WorkStart(m, utcOf, d), m.durationMinutes, m.stepSizeMinutes) else 0)
         + CountFrom(m, utcOf, d + 1)
  }

  /** The lattice's size is the closed-form per-day count summed over the visited dates. */
  lemma {:induction false} LatticeFromCount(m: MeetingRequest, utcOf: Localizer, d: Date)
    requires m.stepSizeMinutes > 0
    ensures |LatticeFrom(m, utcOf, d)| == CountFrom(m, utcOf, d)
    decreases m.dateRangeEnd - d
  {
    if d <= m.dateRangeEnd {
      LatticeFromCount(m, utcOf, d + 1);
      DaySlotsShape(WorkStart(m, utcOf, d), WorkEnd(m, utcOf, d), m.durationMinutes, m.stepSizeMinutes);
    }
  }

  /** The number of dates from d to the end of the range that the generator visits. */
  function VisitedDaysFrom(m: MeetingRequest, d: Date): nat
    decreases m.dateRangeEnd - d
  {
    if d > m.dateRangeEnd then 0
    else (if DayIncluded(m, d) then 1 else 0) + VisitedDaysFrom(m, d + 1)
  }

  /**
   * When every day's working hours span the same number of minutes (one UTC
   * offset throughout), the lattice has that day count times the number of
   * visited dates.
   */
  lemma {:induction false} LatticeCountUniform(m: MeetingRequest, utcOf: Localizer, d: Date, window: int)
    requires m.stepSizeMinutes > 0
    requires forall e :: d <= e <= m.dateRangeEnd ==> WorkEnd(m, utcOf, e) - WorkStart(m, utcOf, e) == window
    ensures |LatticeFrom(m, utcOf, d)| == VisitedDaysFrom(m, d) * DayCount(window, m.durationMinutes, m.stepSizeMinutes)
    decreases m.dateRangeEnd - d
  {
    if d <= m.dateRangeEnd {
      LatticeCountUniform(m, utcOf, d + 1, window);
      DaySlotsShape(WorkStart(m, utcOf, d), WorkEnd(m, utcOf, d), m.durationMinutes, m.stepSizeMinutes);
      var c := DayCount(window, m.durationMinutes, m.stepSizeMinutes);
      var v := VisitedDaysFrom(m, d + 1);
      assert LatticeFrom(m, utcOf, d) == (if DayIncluded(m, d) then SlotsOfDay(m, utcOf, d) else []) + LatticeFrom(m, utcOf, d + 1);
      assert (if DayIncluded(m, d) then 1 else 0) * c + v * c == ((if DayIncluded(m, d) then 1 else 0) + v) * c;
    }
  }

  /**
   * No slot is generated when the range is empty, or when the duration
   * exceeds every visited day's working hours.
   */
  lemma {:induction false} LatticeFromEmpty(m: MeetingRequest, utcOf: Localizer, d: Date)
    requires m.stepSizeMinutes > 0
    requires forall e :: d <= e <= m.dateRangeEnd ==> WorkEnd(m, utcOf, e) - WorkStart(m, utcOf, e) < m.durationMinutes
    ensures LatticeFrom(m, utcOf, d) == []
    decreases m.dateRangeEnd - d
  {
    if d <= m.dateRangeEnd {
      LatticeFromEmpty(m, utcOf, d + 1);
    }
  }

  /** A one-week range Monday 2024-01-01 to Sunday 2024-01-07 with work-days-only set visits five dates. */
  lemma WorkWeekVisitsFiveDays(m: MeetingRequest)
    requires m.dateRangeStart == Jan1st2024 && m.dateRangeEnd == Jan1st2024 + 6 && m.workDaysOnly
    ensures VisitedDaysFrom(m, m.dateRangeStart) == 5
  {
    var d := Jan1st2024;
    assert Weekday(d) == 0 && Weekday(d + 5) == 5 && Weekday(d + 6) == 6;
    assert VisitedDaysFrom(m, d + 7) == 0;
    assert VisitedDaysFrom(m, d + 6) == 0;
    assert VisitedDaysFrom(m, d + 5) == 0;
    assert VisitedDaysFrom(m, d + 4) == 1;
    assert VisitedDaysFrom(m, d + 3) == 2;
    assert VisitedDaysFrom(m, d + 2) == 3;
    assert VisitedDaysFrom(m, d + 1) == 4;
  }

  /**
   * A one-day request with working hours 09:00-17:00 in a zone without a
   * shift that day, duration 60 and step 30, yields 15 slots, the first
   * 09:00-10:00.
   */
  lemma NineToFiveHourlyEveryHalfHour(m: MeetingRequest, utcOf: Localizer)
    requires m.dateRangeStart == m.dateRangeEnd && DayIncluded(m, m.dateRangeStart)
    requires m.workHoursStart == 540 && m.workHoursEnd == 1020
    requires m.durationMinutes == 60 && m.stepSizeMinutes == 30
    requires WorkEnd(m, utcOf, m.dateRangeStart) - WorkStart(m, utcOf, m.dateRangeStart) == 480
    ensures |Lattice(m, utcOf)| == 15
    ensures Lattice(m, utcOf)[0] == Slot(WorkStart(m, utcOf, m.dateRangeStart), WorkStart(m, utcOf, m.dateRangeStart) + 60)
  {
    var d := m.dateRangeStart;
    DaySlotsShape(WorkStart(m, utcOf, d), WorkEnd(m, utcOf, d), 60, 30);
    assert LatticeFrom(m, utcOf, d + 1) == [];
    assert Lattice(m, utcOf) == SlotsOfDay(m, utcOf, d) + [];
    assert DayCount(480, 60, 30) == 15;
  }
}
