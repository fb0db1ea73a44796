/**
 * parse_busy_slots_from_json: the list of {start, end} objects a
 * participant's calendar posts, turned into UTC intervals. An item missing
 * either time (or giving an empty one) is skipped; a time without an offset
 * is read in the participant's zone, one with an offset (or "Z") is taken
 * as the instant it names. The function does not check that start precedes
 * end.
 */
module BusyInput {
  import opened Wrappers
  import opened Calendar

  /** One "start" or "end" value as datetime.fromisoformat reads it. */
  datatype TimeField =
    | Absent                        // missing, null or the empty string: falsy
    | Local(date: Date, time: TimeOfDay)  // naive: a wall-clock reading
    | Aware(instant: Instant)       // carries an offset: already an instant
    | Malformed                     // present but not an ISO datetime

  /** One element of the posted list. */
  datatype RawBusy = Item(start: TimeField, end: TimeField) | NotAnObject

  /** Why the whole list is refused: .get on a non-object, or an unparsable time. */
  datatype ParseError = NotAMapping | BadDatetime

  /** An item that the `not start_str or not end_str` guard skips. */
  predicate Skipped(x: RawBusy) {
    x.Item? && (x.start.Absent? || x.end.Absent?)
  }

  /** An item that makes the parse raise. */
  predicate Fails(x: RawBusy) {
    x.NotAnObject? || (!Skipped(x) && (x.start.Malformed? || x.end.Malformed?))
  }

  /** The UTC instant of a present, well-formed time field. */
  function ToUtc(f: TimeField, tz: TimeZoneName, utcOf: Localizer): Instant
    requires f.Local? || f.Aware?
  {
    if f.Local? then utcOf(tz, f.date, f.time) else f.instant
  }

  /** The intervals the parse returns, or the error it raises first. */
  function ParseBusy(items: seq<RawBusy>, tz: TimeZoneName, utcOf: Localizer): (r: Result<seq<(Instant, Instant)>, ParseError>)
  {
    if items == [] then Ok([])
    else
      var x := items[|items| - 1];
      match ParseBusy(items[..|items| - 1], tz, utcOf)
      case Err(e) => Err(e)
      case Ok(prefix) =>
        if x.NotAnObject? then Err(NotAMapping)
        else if Skipped(x) then Ok(prefix)
        else if x.start.Malformed? || x.end.Malformed? then Err(BadDatetime)
        else Ok(prefix + [(ToUtc(x.start, tz, utcOf), ToUtc(x.end, tz, utcOf))])
  }

  /** The items that are neither skipped nor failing, converted, in order. */
  function Kept(items: seq<RawBusy>, tz: TimeZoneName, utcOf: Localizer): seq<(Instant, Instant)>
    requires forall i :: 0 <= i < |items| ==> !Fails(items[i])
  {
    if items == [] then []
    else
      var x := items[|items| - 1];
      assert !Fails(x);
      Kept(items[..|items| - 1], tz, utcOf)
        + (if Skipped(x) then [] else [(ToUtc(x.start, tz, utcOf), ToUtc(x.end, tz, utcOf))])
  }

  /**
   * The parse succeeds exactly when no item fails, and then returns the
   * kept items converted to UTC, in their order.
   */
  lemma {:induction false} ParseBusyMeaning(items: seq<RawBusy>, tz: TimeZoneName, utcOf: Localizer)
    ensures ParseBusy(items, tz, utcOf).Ok? <==> forall i :: 0 <= i < |items| ==> !Fails(items[i])
    ensures ParseBusy(items, tz, utcOf).Ok? ==> ParseBusy(items, tz, utcOf).value == Kept(items, tz, utcOf)
  {
    if items != [] {
      var p := items[..|items| - 1];
      ParseBusyMeaning(p, tz, utcOf);
      assert forall i :: 0 <= i < |p| ==> p[i] == items[i];
      if !ParseBusy(p, tz, utcOf).Ok? {
        var i :| 0 <= i < |p| && Fails(p[i]);
        assert Fails(items[i]);
      }
    }
  }

  /** A time given with its offset does not depend on the participant's zone. */
  lemma {:induction false} AwareTimesIgnoreZone(items: seq<RawBusy>, tz: TimeZoneName, tz': TimeZoneName, utcOf: Localizer)
    requires forall i :: 0 <= i < |items| ==> items[i].Item? && !items[i].start.Local? && !items[i].end.Local?
    ensures ParseBusy(items, tz, utcOf) == ParseBusy(items, tz', utcOf)
  {
    if items != [] {
      AwareTimesIgnoreZone(items[..|items| - 1], tz, tz', utcOf);
    }
  }

  /**
   * The loop of parse_busy_slots_from_json: it stops at the first item that
   * raises, skips the items with a missing time, and otherwise appends the
   * interval converted to UTC.
   */
  method ParseBusySlotsFromJson(items: seq<RawBusy>, tz: TimeZoneName, utcOf: Localizer)
    returns (r: Result<seq<(Instant, Instant)>, ParseError>)
    ensures r == ParseBusy(items, tz, utcOf)
  {
    var slots: seq<(Instant, Instant)> := [];
    for i := 0 to |items|
      invariant ParseBusy(items[..i], tz, utcOf) == Ok(slots)
    {
      assert items[..i + 1][..i] == items[..i];
      var x := items[i];
      if x.NotAnObject? {
        ParseErrSticks(items, i + 1, tz, utcOf);
        return Err(NotAMapping);
      }
      if x.start.Absent? || x.end.Absent? {
        continue;
      }
      if x.start.Malformed? || x.end.Malformed? {
        ParseErrSticks(items, i + 1, tz, utcOf);
        return Err(BadDatetime);
      }
      var startUtc := ToUtc(x.start, tz, utcOf);
      var endUtc := ToUtc(x.end, tz, utcOf);
      slots := slots + [(startUtc, endUtc)];
    }
    assert items[..|items|] == items;
    return Ok(slots);
  }

  /** Once a prefix of the list fails, the whole list fails with the same error. */
  lemma {:induction false} ParseErrSticks(items: seq<RawBusy>, k: nat, tz: TimeZoneName, utcOf: Localizer)
    requires k <= |items| && ParseBusy(items[..k], tz, utcOf).Err?
    ensures ParseBusy(items, tz, utcOf) == ParseBusy(items[..k], tz, utcOf)
    decreases |items| - k
  {
    if k < |items| {
      assert items[..k + 1][..k] == items[..k];
      ParseErrSticks(items, k + 1, tz, utcOf);
    } else {
      assert items[..k] == items;
    }
  }
}
