/**
 * The scheduler's entities (meeting requests, participants, busy slots and
 * suggested slots) and the quantities their model properties derive from
 * their fields: the availability percentage and heatmap level of a suggested
 * slot, whether a request is active, and its response rate.
 */
module Models {
  import opened Wrappers
  import opened Calendar

  type MeetingId = nat
  type ParticipantId = nat
  type SlotId = nat

  /** STATUS_CHOICES: draft, active, locked, cancelled. */
  datatype Status = Draft | Active | Locked | Cancelled

  /** STEP_SIZE_CHOICES: the step sizes, in minutes, a meeting may scan with. */
  const StepSizeChoices: set<int> := {15, 30, 60}
  const MinDurationMinutes := 15
  const MaxDurationMinutes := 480
  const DefaultTimezone: TimeZoneName := "Asia/Ho_Chi_Minh"

  /** A meeting request: the leader's configuration of the search. */
  datatype MeetingRequest = MeetingRequest(
    id: MeetingId,
    token: string,
    status: Status,
    durationMinutes: int,
    timezone: TimeZoneName,
    dateRangeStart: Date,
    dateRangeEnd: Date,
    workHoursStart: TimeOfDay,
    workHoursEnd: TimeOfDay,
    stepSizeMinutes: int,
    workDaysOnly: bool,
    responseDeadline: Option<Instant>)

  /** A participant of one meeting; the email, when present, is unique per meeting. */
  datatype Participant = Participant(
    id: ParticipantId,
    meeting: MeetingId,
    name: string,
    email: Option<string>,
    timezone: TimeZoneName,
    hasResponded: bool,
    respondedAt: Option<Instant>)

  /** One busy interval of a participant, in UTC. */
  datatype BusySlot = BusySlot(participant: ParticipantId, startTime: Instant, endTime: Instant)

  /** A candidate slot of a meeting with its stored availability counts. */
  datatype SuggestedSlot = SuggestedSlot(
    id: SlotId,
    meeting: MeetingId,
    startTime: Instant,
    endTime: Instant,
    availableCount: nat,
    totalParticipants: nat,
    isLocked: bool)

  /** The field validators of a meeting request that fail on its values. */
  datatype FieldError = DurationOutOfRange | StepNotAChoice

  function FieldErrors(m: MeetingRequest): (errs: set<FieldError>)
    ensures DurationOutOfRange in errs <==> m.durationMinutes < 15 || m.durationMinutes > 480
    ensures StepNotAChoice in errs <==> m.stepSizeMinutes != 15 && m.stepSizeMinutes != 30 && m.stepSizeMinutes != 60
    ensures errs == {} ==> m.stepSizeMinutes > 0 && m.durationMinutes > 0
  {
    (if MinDurationMinutes <= m.durationMinutes <= MaxDurationMinutes then {} else {DurationOutOfRange})
    + (if m.stepSizeMinutes in StepSizeChoices then {} else {StepNotAChoice})
  }

  /**
   * Python's round() applied to the exact quotient n / d: the nearest
   * integer, and the even one of the two when n / d lies halfway.
   */
  function RoundHalfEven(n: nat, d: nat): (r: nat)
    requires d > 0
    ensures 2 * r * d <= 2 * n + d && 2 * n <= 2 * r * d + d
    ensures 2 * (n % d) == d ==> r % 2 == 0
  {
    var q, rem := n / d, n % d;
    assert n == q * d + rem;
    assert (q + 1) * d == q * d + d;
    if 2 * rem < d then q
    else if 2 * rem > d then q + 1
    else if q % 2 == 0 then q
    else q + 1
  }

  /** Multiplying both sides of a <= b by a non-negative c keeps the order. */
  lemma MulMonotone(a: int, b: int, c: int)
    requires a <= b && 0 <= c
    ensures a * c <= b * c
  {
  }

  /** Rounding n / d cannot exceed k when n / d does not. */
  lemma RoundHalfEvenAtMost(n: nat, d: nat, k: nat)
    requires d > 0 && n <= k * d
    ensures RoundHalfEven(n, d) <= k
  {
    var r := RoundHalfEven(n, d);
    if r >= k + 1 {
      MulMonotone(k + 1, r, d);
      assert false;
    }
  }

  /** n / d rounds to 0 exactly when it is at most one half. */
  lemma RoundHalfEvenIsZero(n: nat, d: nat)
    requires d > 0
    ensures RoundHalfEven(n, d) == 0 <==> 2 * n <= d
  {
    var r := RoundHalfEven(n, d);
    if 2 * n <= d {
      assert n / d == 0 && n % d == n;
    } else if r == 0 {
      assert false;
    }
  }

  /**
   * availability_percentage in tenths of a percent: available / total * 100
   * rounded to one decimal, and 0 when no participant has responded.
   */
  function PercentageTenths(available: nat, total: nat): (r: nat)
    ensures total == 0 ==> r == 0
    ensures total > 0 ==> 2 * r * total <= 2000 * available + total && 2000 * available <= 2 * r * total + total
    ensures total > 0 && 2 * ((1000 * available) % total) == total ==> r % 2 == 0
    ensures available <= total ==> r <= 1000
    ensures r == 0 <==> total == 0 || 2000 * available <= total
  {
    if total == 0 then 0
    else
      RoundHalfEvenIsZero(1000 * available, total);
      if available <= total then
        MulMonotone(available, total, 1000);
        RoundHalfEvenAtMost(1000 * available, total, 1000);
        RoundHalfEven(1000 * available, total)
      else
        RoundHalfEven(1000 * available, total)
  }

  /**
   * availability_percentage of a suggested slot, in percent: 100 * available
   * / total rounded to one decimal (within 0.05, an exact tie going to the
   * even tenth), and 0 when no participant has responded.
   */
  function AvailabilityPercentage(s: SuggestedSlot): (p: real)
    ensures s.totalParticipants == 0 ==> p == 0.0
    ensures var a, t := s.availableCount as real, s.totalParticipants as real;
      s.totalParticipants > 0 ==> 20.0 * p * t <= 2000.0 * a + t && 2000.0 * a <= 20.0 * p * t + t
    ensures s.totalParticipants > 0 && 2 * ((1000 * s.availableCount) % s.totalParticipants) == s.totalParticipants ==>
      (10.0 * p).Floor % 2 == 0 && (10.0 * p).Floor as real == 10.0 * p
    ensures 0.0 <= p
    ensures s.availableCount <= s.totalParticipants ==> p <= 100.0
    ensures p == 0.0 <==> s.totalParticipants == 0 || 2000 * s.availableCount <= s.totalParticipants
  {
    var tenths := PercentageTenths(s.availableCount, s.totalParticipants);
    var p := tenths as real / 10.0;
    assert 10.0 * p == tenths as real;
    TenthsScale(tenths, s.totalParticipants, p);
    p
  }

  /** Bounds on 2 * r * t carry over to 20 * p * t when p is r tenths. */
  lemma TenthsScale(r: nat, t: nat, p: real)
    requires 10.0 * p == r as real
    ensures 20.0 * p * t as real == (2 * r * t) as real
  {
    calc {
      20.0 * p * t as real;
      2.0 * (10.0 * p) * t as real;
      2.0 * r as real * t as real;
    }
  }

  /**
   * heatmap_level: the intensity 0..5 of a percentage. Level 0 is exactly
   * "nobody", level r >= 1 covers [20(r-1), 20r) with level 1 open at 0 and
   * level 5 closed above.
   */
  function HeatmapLevel(pct: real): (r: int)
    ensures 0 <= r <= 5
    ensures r == 0 <==> pct <= 0.0
    ensures r >= 2 ==> 20.0 * (r - 1) as real <= pct
    ensures 1 <= r < 5 ==> pct < 20.0 * r as real
  {
    if pct >= 80.0 then 5
    else if pct >= 60.0 then 4
    else if pct >= 40.0 then 3
    else if pct >= 20.0 then 2
    else if pct > 0.0 then 1
    else 0
  }

  /** A higher percentage never gives a lower heatmap level. */
  lemma HeatmapLevelMonotone(p: real, q: real)
    requires p <= q
    ensures HeatmapLevel(p) <= HeatmapLevel(q)
  {
  }

  /** is_active: the request is open and its deadline, if any, has not passed. */
  predicate IsActive(m: MeetingRequest, now: Instant) {
    if m.status != Active then false
    else if m.responseDeadline.Some? && now > m.responseDeadline.value then false
    else true
  }

  /** is_active reads as: status active, and no deadline or now <= deadline. */
  lemma IsActiveMeaning(m: MeetingRequest, now: Instant)
    ensures IsActive(m, now) <==> m.status == Active && (m.responseDeadline.None? || now <= m.responseDeadline.value)
  {
  }

  /** meeting_request.participants: the participants of meeting m, in table order. */
  function ParticipantsOf(ps: seq<Participant>, m: MeetingId): (r: seq<Participant>)
    ensures |r| <= |ps|
    ensures forall p :: p in r <==> p in ps && p.meeting == m
  {
    if ps == [] then []
    else
      var last := ps[|ps| - 1];
      ParticipantsOf(ps[..|ps| - 1], m) + (if last.meeting == m then [last] else [])
  }

  /** participants.filter(has_responded=True): the responded participants of m. */
  function RespondedOf(ps: seq<Participant>, m: MeetingId): (r: seq<Participant>)
    ensures |r| <= |ps|
    ensures forall p :: p in r <==> p in ps && p.meeting == m && p.hasResponded
  {
    if ps == [] then []
    else
      var last := ps[|ps| - 1];
      RespondedOf(ps[..|ps| - 1], m) + (if last.meeting == m && last.hasResponded then [last] else [])
  }

  /** Every responded participant of m is a participant of m, so there are no more of them. */
  lemma {:induction false} RespondedAtMostParticipants(ps: seq<Participant>, m: MeetingId)
    ensures |RespondedOf(ps, m)| <= |ParticipantsOf(ps, m)|
  {
    if ps != [] {
      RespondedAtMostParticipants(ps[..|ps| - 1], m);
    }
  }

  /**
   * response_rate: the percentage of m's participants who responded, rounded
   * to the nearest integer (ties to even), and 0 when m has no participants.
   */
  function ResponseRate(ps: seq<Participant>, m: MeetingId): (r: nat)
    ensures |ParticipantsOf(ps, m)| == 0 ==> r == 0
    ensures r <= 100
    ensures var total, responded := |ParticipantsOf(ps, m)|, |RespondedOf(ps, m)|;
      total > 0 ==> 2 * r * total <= 200 * responded + total && 200 * responded <= 2 * r * total + total
    ensures var total, responded := |ParticipantsOf(ps, m)|, |RespondedOf(ps, m)|;
      total > 0 && 2 * ((100 * responded) % total) == total ==> r % 2 == 0
  {
    var total := |ParticipantsOf(ps, m)|;
    if total == 0 then 0
    else
      var responded := |RespondedOf(ps, m)|;
      RespondedAtMostParticipants(ps, m);
      MulMonotone(responded, total, 100);
      RoundHalfEvenAtMost(100 * responded, total, 100);
      RoundHalfEven(100 * responded, total)
  }

  datatype BusySlotError = EndNotAfterStart

  /** BusySlot.clean: a busy slot must end after it starts. */
  function BusySlotClean(startTime: Instant, endTime: Instant): (r: Result<(), BusySlotError>)
    ensures r.Ok? <==> startTime < endTime
  {
    if startTime >= endTime then Err(EndNotAfterStart) else Ok(())
  }
}
