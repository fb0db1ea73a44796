/**
 * The cross-field checks of the request wizard's first step
 * (MeetingRequestForm.clean) and of the manual busy-slot form
 * (BusySlotForm.clean). A field the form left empty is None and skips every
 * check that needs it; the first failing check is the error the form shows.
 */
module Forms {
  import opened Wrappers
  import opened Calendar
  import Models

  /** The longest date range the wizard accepts, in days between its ends. */
  const MaxRangeDays := 90

  /** The messages of MeetingRequestForm.clean, in the order it checks them. */
  datatype RequestFormError =
    | StartInPast
    | EndInPast
    | EndNotAfterStart
    | RangeTooLong
    | DeadlineInPast
    | WorkEndNotAfterStart

  /** The fields MeetingRequestForm.clean reads; None is a field left empty or refused earlier. */
  datatype RequestForm = RequestForm(
    start: Option<Date>,
    end: Option<Date>,
    workStart: Option<TimeOfDay>,
    workEnd: Option<TimeOfDay>,
    deadline: Option<Instant>)

  /** Each check on its own, true when the form passes it. */
  predicate StartOk(f: RequestForm, today: Date) { f.start.None? || f.start.value >= today }
  predicate EndOk(f: RequestForm, today: Date) { f.end.None? || f.end.value >= today }
  predicate OrderOk(f: RequestForm) { f.start.None? || f.end.None? || f.start.value < f.end.value }
  predicate SpanOk(f: RequestForm) { f.start.None? || f.end.None? || f.end.value - f.start.value <= MaxRangeDays }
  predicate DeadlineOk(f: RequestForm, now: Instant) { f.deadline.None? || f.deadline.value >= now }
  predicate WorkOk(f: RequestForm) { f.workStart.None? || f.workEnd.None? || f.workStart.value < f.workEnd.value }

  /**
   * MeetingRequestForm.clean, with today's date and the current instant as
   * parameters: it passes exactly when every check passes, and each error
   * names a check that fails while every check made before it passes.
   */
  function CleanRequestForm(f: RequestForm, today: Date, now: Instant): (r: Result<(), RequestFormError>)
    ensures r.Ok? <==> (StartOk(f, today) && EndOk(f, today) && OrderOk(f) && SpanOk(f)
                        && DeadlineOk(f, now) && WorkOk(f))
    ensures r == Err(StartInPast) <==> !StartOk(f, today)
    ensures r == Err(EndInPast) <==> StartOk(f, today) && !EndOk(f, today)
    ensures r == Err(EndNotAfterStart) <==> StartOk(f, today) && EndOk(f, today) && !OrderOk(f)
    ensures r == Err(RangeTooLong) <==> StartOk(f, today) && EndOk(f, today) && OrderOk(f) && !SpanOk(f)
    ensures r == Err(DeadlineInPast) <==> (StartOk(f, today) && EndOk(f, today) && OrderOk(f) && SpanOk(f)
                                           && !DeadlineOk(f, now))
    ensures r == Err(WorkEndNotAfterStart) <==> (StartOk(f, today) && EndOk(f, today) && OrderOk(f) && SpanOk(f)
                                                 && DeadlineOk(f, now) && !WorkOk(f))
  {
    if f.start.Some? && f.start.value < today then Err(StartInPast)
    else if f.end.Some? && f.end.value < today then Err(EndInPast)
    else if f.start.Some? && f.end.Some? && f.end.value <= f.start.value then Err(EndNotAfterStart)
    else if f.start.Some? && f.end.Some? && f.end.value - f.start.value > MaxRangeDays then Err(RangeTooLong)
    else if f.deadline.Some? && f.deadline.value < now then Err(DeadlineInPast)
    else if f.workStart.Some? && f.workEnd.Some? && f.workEnd.value <= f.workStart.value then Err(WorkEndNotAfterStart)
    else Ok(())
  }

  /** A form with both dates and both working hours given and no deadline. */
  function Complete(start: Date, end: Date, workStart: TimeOfDay, workEnd: TimeOfDay): RequestForm {
    RequestForm(Some(start), Some(end), Some(workStart), Some(workEnd), None)
  }

  /** A request whose range starts and ends on the same day is refused, whatever day it is. */
  lemma SameDayRangeRefused(d: Date, workStart: TimeOfDay, workEnd: TimeOfDay, today: Date, now: Instant)
    ensures CleanRequestForm(Complete(d, d, workStart, workEnd), today, now).Err?
    ensures d >= today ==> CleanRequestForm(Complete(d, d, workStart, workEnd), today, now) == Err(EndNotAfterStart)
  {
  }

  /**
   * From a start no earlier than today, a range of 90 days is the longest one
   * accepted: 90 passes (with a proper working window) and 91 does not.
   */
  lemma NinetyDaysIsTheLimit(d: Date, workStart: TimeOfDay, workEnd: TimeOfDay, today: Date, now: Instant)
    requires d >= today && workStart < workEnd
    ensures CleanRequestForm(Complete(d, d + 90, workStart, workEnd), today, now).Ok?
    ensures CleanRequestForm(Complete(d, d + 91, workStart, workEnd), today, now) == Err(RangeTooLong)
  {
  }

  /**
   * An accepted complete form describes a request whose range covers two to
   * ninety-one calendar days, none of them in the past, and whose working
   * window is not empty.
   */
  lemma AcceptedRangeBounds(f: RequestForm, today: Date, now: Instant)
    requires f.start.Some? && f.end.Some? && f.workStart.Some? && f.workEnd.Some?
    requires CleanRequestForm(f, today, now).Ok?
    ensures today <= f.start.value
    ensures 2 <= f.end.value - f.start.value + 1 <= MaxRangeDays + 1
    ensures f.workEnd.value - f.workStart.value >= 1
  {
  }

  /** Giving a deadline never turns a refused form into an accepted one. */
  lemma FillingADeadlineNeverHelps(f: RequestForm, t: Instant, today: Date, now: Instant)
    requires f.deadline.None?
    ensures CleanRequestForm(f.(deadline := Some(t)), today, now).Ok? ==> CleanRequestForm(f, today, now).Ok?
  {
  }

  /** The one message of BusySlotForm.clean. */
  datatype BusySlotFormError = EndNotAfterStartTime

  /**
   * BusySlotForm.clean: when both times are given, the end must come after
   * the start; a missing time is left to the field's own validation.
   */
  function CleanBusySlotForm(start: Option<Instant>, end: Option<Instant>): (r: Result<(), BusySlotFormError>)
    ensures r.Err? <==> start.Some? && end.Some? && end.value <= start.value
  {
    if start.Some? && end.Some? && end.value <= start.value then Err(EndNotAfterStartTime) else Ok(())
  }

  /** On two given times the form refuses exactly what BusySlot.clean refuses. */
  lemma BusySlotFormAgreesWithModel(start: Instant, end: Instant)
    ensures CleanBusySlotForm(Some(start), Some(end)).Ok? <==> Models.BusySlotClean(start, end).Ok?
  {
  }
}
