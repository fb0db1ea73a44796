/**
 * The views that create participants: the bulk "Name, email" box of the
 * request wizard (one participant per line, get_or_create on the email),
 * and a participant's own response form, which updates the participant the
 * link or session names, or else finds or creates one by email.
 */
module ParticipantViews {
  import opened Wrappers
  import opened Calendar
  import opened Models
  import opened Store
  import opened PyStrings
  import opened Responses

  /** The name given to a bulk-added participant with neither name nor email. */
  const BulkAnonymousName: string := "Anonymous"
  /** The name given to a responding participant with neither name nor email ("Ẩn danh"). */
  const ResponseAnonymousName: string := "\U{1EA8}n danh"

  /** `email or None`: the empty string stands for no email. */
  function EmailOrNone(e: string): (r: Option<string>)
    ensures r.None? <==> e == []
    ensures r.Some? ==> r.value == e
  {
    if e == [] then None else Some(e)
  }

  /** A new participant row, not yet responded. */
  function NewParticipant(id: ParticipantId, mid: MeetingId, name: string, email: Option<string>, tz: TimeZoneName): Participant {
    Participant(id, mid, name, email, tz, false, None)
  }

  /** How the bulk box reads one line. */
  datatype BulkLine =
    | BlankLine                                // only whitespace: skipped
    | TooManyFields                            // more than one comma: skipped
    | Entry(name: string, email: Option<string>)

  /** Every piece of a split line, stripped. */
  function StripAll(parts: seq<string>): (r: seq<string>)
    ensures |r| == |parts|
    ensures forall i :: 0 <= i < |r| ==> r[i] == Strip(parts[i])
  {
    seq(|parts|, i requires 0 <= i < |parts| => Strip(parts[i]))
  }

  /** One line of the bulk box: "name, email", or just "email". */
  function ParseBulkLine(raw: string): BulkLine {
    var line := Strip(raw);
    if line == [] then BlankLine
    else
      var parts := StripAll(Split(line, ','));
      if |parts| == 2 then Entry(parts[0], EmailOrNone(parts[1]))
      else if |parts| == 1 then Entry([], EmailOrNone(parts[0]))
      else TooManyFields
  }

  /**
   * A line is read by its commas: a blank line is skipped; a line without
   * a comma is an email alone, with an empty name; a line with one comma is
   * a name before it and an email (possibly empty) after it, both stripped;
   * a line with more commas is skipped.
   */
  lemma ParseBulkLineByCommas(raw: string)
    ensures Strip(raw) == [] ==> ParseBulkLine(raw) == BlankLine
    ensures Strip(raw) != [] && Count(Strip(raw), ',') == 0 ==> ParseBulkLine(raw) == Entry([], Some(Strip(raw)))
    ensures Strip(raw) != [] && Count(Strip(raw), ',') == 1 ==>
      exists a, b :: (Strip(raw) == a + [','] + b && ',' !in a && ',' !in b
        && ParseBulkLine(raw) == Entry(Strip(a), EmailOrNone(Strip(b))))
    ensures Strip(raw) != [] && Count(Strip(raw), ',') >= 2 ==> ParseBulkLine(raw) == TooManyFields
  {
    var line := Strip(raw);
    if line != [] {
      SplitJoin(line, ',');
      if Count(line, ',') == 0 {
        SplitNoSeparator(line, ',');
        StripIdempotent(raw);
      } else if Count(line, ',') == 1 {
        SplitAtOneComma(line);
      }
    }
  }

  /**
   * Unicode whitespace is whitespace to the import: a no-break space after
   * the comma is stripped from the email.
   */
  lemma NoBreakSpaceStripped()
    ensures ParseBulkLine("Al,\U{00A0}a@x") == Entry("Al", Some("a@x"))
  {
    SpacedLineStripped();
    SplitNameAndSpacedEmail();
    StripKeeps("Al");
    SpacedEmailStripped();
    ParseTwoPieces("Al,\U{00A0}a@x", "Al", "\U{00A0}a@x");
  }

  /** A stripped line that splits at its one comma is read as name and email. */
  lemma ParseTwoPieces(raw: string, name: string, email: string)
    requires raw != [] && Strip(raw) == raw && Split(raw, ',') == [name, email]
    ensures ParseBulkLine(raw) == Entry(Strip(name), EmailOrNone(Strip(email)))
  {
  }

  /** "Al,<no-break space>a@x" neither starts nor ends with whitespace. */
  lemma SpacedLineStripped()
    ensures Strip("Al,\U{00A0}a@x") == "Al,\U{00A0}a@x"
  {
    StripKeeps("Al,\U{00A0}a@x");
  }

  /** The no-break space before the email is stripped. */
  lemma SpacedEmailStripped()
    ensures Strip("\U{00A0}a@x") == "a@x"
  {
    var spaced := ['\U{00A0}'] + "a@x";
    StripDropsLeading('\U{00A0}', "a@x");
    StripKeeps("a@x");
    assert spaced == "\U{00A0}a@x";
  }

  /** A line holding only an ideographic space is blank, and skipped. */
  lemma IdeographicSpaceLineBlank()
    ensures ParseBulkLine("\U{3000}") == BlankLine
  {
    assert StripLeft("\U{3000}") == [];
  }

  /** The comma of "Al,<no-break space>a@x" splits it into the name and the spaced email. */
  lemma SplitNameAndSpacedEmail()
    ensures Split("Al,\U{00A0}a@x", ',') == ["Al", "\U{00A0}a@x"]
  {
    var email := "\U{00A0}a@x";
    SplitNoSeparator(email, ',');
    var tail := [','] + email;
    assert tail[0] == ',' && tail[1..] == email;
    assert Split(tail, ',') == [[], email];
    SplitCons('l', tail, ',');
    assert ['l'] + [] == "l";
    SplitCons('A', ['l'] + tail, ',');
    assert ['A'] + "l" == "Al";
    assert ['A'] + (['l'] + tail) == "Al,\U{00A0}a@x";
  }

  /** A string with exactly one comma splits into the parts before and after it. */
  lemma SplitAtOneComma(line: string)
    requires Count(line, ',') == 1
    ensures |Split(line, ',')| == 2
    ensures line == Split(line, ',')[0] + [','] + Split(line, ',')[1]
    ensures ',' !in Split(line, ',')[0] && ',' !in Split(line, ',')[1]
  {
    var pieces := Split(line, ',');
    SplitJoin(line, ',');
    assert Join(pieces[1..], ',') == pieces[1];
  }

  /** Appending a fresh row whose email is new to its meeting keeps the table valid. */
  lemma AppendParticipantValid(ps: seq<Participant>, n: nat, x: Participant)
    requires ParticipantTableValid(ps, n) && x.id == n
    requires x.email.Some? ==> IndexOfEmail(ps, x.meeting, x.email.value).None?
    ensures ParticipantTableValid(ps + [x], n + 1)
  {
    var qs := ps + [x];
    forall i, j | 0 <= i < j < |qs| && qs[i].meeting == qs[j].meeting && qs[i].email.Some?
      ensures qs[i].email != qs[j].email
    {
      if j == |ps| {
        assert qs[i] == ps[i];
        if x.email.Some? {
          assert !(ps[i].meeting == x.meeting && ps[i].email == Some(x.email.value));
        }
      } else {
        assert qs[i] == ps[i] && qs[j] == ps[j];
      }
    }
  }

  /** In a valid table, the row IndexOfEmail finds is the only row of meeting m with email e. */
  lemma EmailOwners(ps: seq<Participant>, n: nat, m: MeetingId, e: string)
    requires ParticipantTableValid(ps, n)
    ensures forall k :: 0 <= k < |ps| && ps[k].meeting == m && ps[k].email == Some(e) ==> IndexOfEmail(ps, m, e) == Some(k)
  {
    forall k | 0 <= k < |ps| && ps[k].meeting == m && ps[k].email == Some(e)
      ensures IndexOfEmail(ps, m, e) == Some(k)
    {
      var j := IndexOfEmail(ps, m, e).value;
      assert ps[j].email == Some(e) && ps[k].email == Some(e) && ps[j].meeting == ps[k].meeting;
    }
  }

  /**
   * Rewriting row i with the same id and meeting keeps the table valid when
   * its new email, if any, is not another row's in that meeting.
   */
  lemma UpdateParticipantValid(ps: seq<Participant>, n: nat, i: nat, x: Participant)
    requires ParticipantTableValid(ps, n) && i < |ps| && x.id == ps[i].id && x.meeting == ps[i].meeting
    requires x.email.Some? ==> IndexOfEmail(ps, x.meeting, x.email.value).None? || IndexOfEmail(ps, x.meeting, x.email.value) == Some(i)
    ensures ParticipantTableValid(ps[i := x], n)
  {
    if x.email.Some? {
      EmailOwners(ps, n, x.meeting, x.email.value);
    }
    var qs := ps[i := x];
    assert forall a :: 0 <= a < |qs| && a != i ==> qs[a] == ps[a];
  }

  /**
   * Participant.objects.create: appends a new row with the next id. The
   * email, when present, must be new to the meeting (the unique constraint).
   */
  method CreateParticipant(db: Database, mid: MeetingId, name: string, email: Option<string>, tz: TimeZoneName)
    returns (pid: ParticipantId)
    requires db.Valid()
    requires email.Some? ==> IndexOfEmail(db.participants, mid, email.value).None?
    modifies db`participants, db`nextId
    ensures db.Valid()
    ensures pid == old(db.nextId) && db.nextId == old(db.nextId) + 1
    ensures db.participants == old(db.participants) + [NewParticipant(pid, mid, name, email, tz)]
  {
    pid := db.nextId;
    AppendParticipantValid(db.participants, db.nextId, NewParticipant(pid, mid, name, email, tz));
    db.participants := db.participants + [NewParticipant(pid, mid, name, email, tz)];
    db.nextId := db.nextId + 1;
  }

  /**
   * Participant.objects.get_or_create on (meeting, email): an existing row
   * is returned untouched (the defaults are not applied); otherwise a new
   * row with the default name and zone is created.
   */
  method GetOrCreateParticipant(db: Database, mid: MeetingId, email: string, name: string, tz: TimeZoneName)
    returns (pid: ParticipantId, created: bool)
    requires db.Valid()
    modifies db`participants, db`nextId
    ensures db.Valid()
    ensures created <==> old(IndexOfEmail(db.participants, mid, email)).None?
    ensures !created ==> (db.participants == old(db.participants) && db.nextId == old(db.nextId)
      && pid == db.participants[IndexOfEmail(db.participants, mid, email).value].id)
    ensures created ==> (pid == old(db.nextId) && db.nextId == old(db.nextId) + 1
      && db.participants == old(db.participants) + [NewParticipant(pid, mid, name, Some(email), tz)])
  {
    var found := IndexOfEmail(db.participants, mid, email);
    if found.Some? {
      return db.participants[found.value].id, false;
    }
    pid := CreateParticipant(db, mid, name, Some(email), tz);
    created := true;
  }

  /** The bulk box's effect on the participant table and id counter for one read line, and whether it counts. */
  function AddLine(ps: seq<Participant>, n: nat, mid: MeetingId, b: BulkLine): (seq<Participant>, nat, bool) {
    match b
    case BlankLine => (ps, n, false)
    case TooManyFields => (ps, n, false)
    case Entry(name, email) =>
      if email.Some? then
        if IndexOfEmail(ps, mid, email.value).Some? then (ps, n, true)
        else (ps + [NewParticipant(n, mid, name, email, DefaultTimezone)], n + 1, true)
      else (ps + [NewParticipant(n, mid, if name == [] then BulkAnonymousName else name, None, DefaultTimezone)], n + 1, true)
  }

  /** The (table, id counter, count) after one more read line. */
  function Extend(r: (seq<Participant>, nat, nat), mid: MeetingId, b: BulkLine): (seq<Participant>, nat, nat) {
    var s := AddLine(r.0, r.1, mid, b);
    (s.0, s.1, r.2 + if s.2 then 1 else 0)
  }

  /** Every line of the box, read. */
  function ReadLines(lines: seq<string>): (bs: seq<BulkLine>)
    ensures |bs| == |lines|
    ensures forall i :: 0 <= i < |lines| ==> bs[i] == ParseBulkLine(lines[i])
  {
    seq(|lines|, i requires 0 <= i < |lines| => ParseBulkLine(lines[i]))
  }

  /** The bulk box over its read lines, in order: table, id counter and count of accepted lines. */
  function BulkAdd(ps: seq<Participant>, n: nat, mid: MeetingId, bs: seq<BulkLine>): (seq<Participant>, nat, nat) {
    if bs == [] then (ps, n, 0)
    else Extend(BulkAdd(ps, n, mid, bs[..|bs| - 1]), mid, bs[|bs| - 1])
  }

  /** One line appends at most one fresh row and keeps the others. */
  lemma AddLineAppends(ps: seq<Participant>, n: nat, mid: MeetingId, b: BulkLine)
    ensures var s := AddLine(ps, n, mid, b);
      |ps| <= |s.0| && s.0[..|ps|] == ps && |s.0| - |ps| == s.1 - n <= (if s.2 then 1 else 0)
  {
  }

  /**
   * The bulk box only appends: the old rows stay as they were, each new row
   * takes one fresh id, and no more rows are added than lines are counted,
   * which is at most the number of lines.
   */
  lemma {:induction false} BulkAddAppends(ps: seq<Participant>, n: nat, mid: MeetingId, bs: seq<BulkLine>)
    ensures var r := BulkAdd(ps, n, mid, bs);
      |ps| <= |r.0| && r.0[..|ps|] == ps && n <= r.1 && |r.0| - |ps| == r.1 - n <= r.2 <= |bs|
  {
    if bs != [] {
      BulkAddAppends(ps, n, mid, bs[..|bs| - 1]);
      var r := BulkAdd(ps, n, mid, bs[..|bs| - 1]);
      AddLineAppends(r.0, r.1, mid, bs[|bs| - 1]);
      var s := AddLine(r.0, r.1, mid, bs[|bs| - 1]);
      assert s.0[..|ps|] == s.0[..|r.0|][..|ps|];
    }
  }

  /** The number of read lines that are entries, which the bulk box accepts. */
  function AcceptedLines(bs: seq<BulkLine>): (c: nat)
    ensures c <= |bs|
  {
    if bs == [] then 0
    else AcceptedLines(bs[..|bs| - 1]) + if bs[|bs| - 1].Entry? then 1 else 0
  }

  /**
   * The reported count is the number of entry lines, whether or not their
   * email already had a participant: blank and over-long lines are the only
   * ones not counted.
   */
  lemma {:induction false} BulkAddCountsEntries(ps: seq<Participant>, n: nat, mid: MeetingId, bs: seq<BulkLine>)
    ensures BulkAdd(ps, n, mid, bs).2 == AcceptedLines(bs)
  {
    if bs != [] {
      BulkAddCountsEntries(ps, n, mid, bs[..|bs| - 1]);
    }
  }

  /**
   * A line without an email always adds a new participant, named as given or
   * "Anonymous" when the name is empty, with no email and the default zone.
   */
  lemma LineWithoutEmailCreates(ps: seq<Participant>, n: nat, mid: MeetingId, name: string)
    ensures AddLine(ps, n, mid, Entry(name, None)) ==
      (ps + [NewParticipant(n, mid, if name == [] then BulkAnonymousName else name, None, DefaultTimezone)], n + 1, true)
  {
  }

  /** A line whose email already has a participant in the meeting is counted and adds no row. */
  lemma LineWithKnownEmailReuses(ps: seq<Participant>, n: nat, mid: MeetingId, name: string, email: string)
    requires exists k :: 0 <= k < |ps| && ps[k].meeting == mid && ps[k].email == Some(email)
    ensures AddLine(ps, n, mid, Entry(name, Some(email))) == (ps, n, true)
  {
  }

  /** After the bulk box, every email it accepted belongs to a participant of the meeting. */
  lemma {:induction false} BulkAddEmails(ps: seq<Participant>, n: nat, mid: MeetingId, bs: seq<BulkLine>)
    ensures forall i :: 0 <= i < |bs| && bs[i].Entry? && bs[i].email.Some? ==>
      IndexOfEmail(BulkAdd(ps, n, mid, bs).0, mid, bs[i].email.value).Some?
  {
    if bs != [] {
      var pre := bs[..|bs| - 1];
      BulkAddEmails(ps, n, mid, pre);
      var r := BulkAdd(ps, n, mid, pre);
      var b := bs[|bs| - 1];
      var s := AddLine(r.0, r.1, mid, b);
      AddLineAppends(r.0, r.1, mid, b);
      forall i | 0 <= i < |bs| && bs[i].Entry? && bs[i].email.Some?
        ensures IndexOfEmail(s.0, mid, bs[i].email.value).Some?
      {
        var e := bs[i].email.value;
        if i < |pre| {
          assert pre[i] == bs[i];
          var k := IndexOfEmail(r.0, mid, e).value;
          assert s.0[..|r.0|][k] == r.0[k];
        } else if IndexOfEmail(r.0, mid, e).None? {
          assert s.0[|s.0| - 1].email == Some(e);
        }
      }
    }
  }

  /** The bulk box keeps the participant table valid. */
  lemma {:induction false} BulkAddValid(ps: seq<Participant>, n: nat, mid: MeetingId, bs: seq<BulkLine>)
    requires ParticipantTableValid(ps, n)
    ensures ParticipantTableValid(BulkAdd(ps, n, mid, bs).0, BulkAdd(ps, n, mid, bs).1)
  {
    if bs != [] {
      BulkAddValid(ps, n, mid, bs[..|bs| - 1]);
      var r := BulkAdd(ps, n, mid, bs[..|bs| - 1]);
      match bs[|bs| - 1]
      case BlankLine =>
      case TooManyFields =>
      case Entry(name, email) =>
        if email.Some? {
          if IndexOfEmail(r.0, mid, email.value).None? {
            AppendParticipantValid(r.0, r.1, NewParticipant(r.1, mid, name, email, DefaultTimezone));
          }
        } else {
          AppendParticipantValid(r.0, r.1, NewParticipant(r.1, mid, if name == [] then BulkAnonymousName else name, None, DefaultTimezone));
        }
    }
  }

  /** The body of the add_bulk loop for one read line: count is the number of lines accepted so far. */
  method AddOneLine(db: Database, mid: MeetingId, b: BulkLine, count: nat) returns (count': nat)
    requires db.Valid()
    modifies db`participants, db`nextId
    ensures db.Valid()
    ensures (db.participants, db.nextId, count') == Extend((old(db.participants), old(db.nextId), count), mid, b)
  {
    match b {
      case BlankLine =>
        return count;
      case TooManyFields =>
        return count;
      case Entry(name, email) =>
        if email.Some? {
          var pid, created := GetOrCreateParticipant(db, mid, email.value, name, DefaultTimezone);
        } else {
          var pid := CreateParticipant(db, mid, if name == [] then BulkAnonymousName else name, None, DefaultTimezone);
        }
        return count + 1;
    }
  }

  /** The loop of add_bulk over the read lines of the box, in order. */
  method AddLines(db: Database, mid: MeetingId, bs: seq<BulkLine>) returns (count: nat)
    requires db.Valid()
    modifies db`participants, db`nextId
    ensures db.Valid()
    ensures (db.participants, db.nextId, count) == BulkAdd(old(db.participants), old(db.nextId), mid, bs)
  {
    ghost var ps0, n0 := db.participants, db.nextId;
    count := 0;
    for i := 0 to |bs|
      invariant db.Valid()
      invariant (db.participants, db.nextId, count) == BulkAdd(ps0, n0, mid, bs[..i])
    {
      assert bs[..i + 1][..i] == bs[..i];
      count := AddOneLine(db, mid, bs[i], count);
    }
    assert bs[..|bs|] == bs;
  }

  /**
   * The add_bulk action of the request wizard for request mid: a missing
   * request is a 404; otherwise the text is split into lines and each line
   * is added as BulkAdd describes, and the count of accepted lines is
   * returned.
   */
  method AddBulkParticipants(db: Database, mid: MeetingId, data: string) returns (r: Result<nat, ViewError>)
    requires db.Valid()
    modifies db`participants, db`nextId
    ensures db.Valid()
    ensures old(mid !in db.meetings) ==> r == Err(NotFound) && db.participants == old(db.participants) && db.nextId == old(db.nextId)
    ensures old(mid in db.meetings) ==> r.Ok? && (db.participants, db.nextId, r.value) == BulkAdd(old(db.participants), old(db.nextId), mid, ReadLines(Split(data, '\n')))
  {
    if mid !in db.meetings {
      return Err(NotFound);
    }
    var count := AddText(db, mid, data);
    return Ok(count);
  }

  /** The text of the box split into lines, each read and added in order. */
  method AddText(db: Database, mid: MeetingId, data: string) returns (count: nat)
    requires db.Valid()
    modifies db`participants, db`nextId
    ensures db.Valid()
    ensures (db.participants, db.nextId, count) == BulkAdd(old(db.participants), old(db.nextId), mid, ReadLines(Split(data, '\n')))
  {
    var lines := Split(data, '\n');
    count := AddLines(db, mid, ReadLines(lines));
  }

  /**
   * The response form's effect on the participant table once the request
   * passed its token and activity checks: the new table, id counter and
   * the participant's id, or the error of a clashing email.
   */
  function Respond(ps: seq<Participant>, n: nat, mid: MeetingId, known: Option<ParticipantId>,
                   name: string, email: string, tz: TimeZoneName): Result<(seq<Participant>, nat, ParticipantId), ViewError>
  {
    var k := if known.Some? then IndexOfParticipant(ps, known.value) else None;
    if k.Some? then
      var i := k.value;
      var e := EmailOrNone(email);
      if e.Some? && IndexOfEmail(ps, ps[i].meeting, e.value).Some? && IndexOfEmail(ps, ps[i].meeting, e.value) != Some(i) then
        Err(Conflict)
      else
        Ok((ps[i := ps[i].(name := name, email := e, timezone := tz)], n, ps[i].id))
    else if email != [] then
      match IndexOfEmail(ps, mid, email)
      case Some(j) => Ok((ps[j := ps[j].(name := name, timezone := tz)], n, ps[j].id))
      case None => Ok((ps + [NewParticipant(n, mid, name, Some(email), tz)], n + 1, n))
    else
      Ok((ps + [NewParticipant(n, mid, if name == [] then ResponseAnonymousName else name, None, tz)], n + 1, n))
  }

  /** Responding keeps the participant table valid. */
  lemma RespondValid(ps: seq<Participant>, n: nat, mid: MeetingId, known: Option<ParticipantId>,
                     name: string, email: string, tz: TimeZoneName)
    requires ParticipantTableValid(ps, n)
    ensures var r := Respond(ps, n, mid, known, name, email, tz);
      r.Ok? ==> ParticipantTableValid(r.value.0, r.value.1)
  {
    var r := Respond(ps, n, mid, known, name, email, tz);
    var k := if known.Some? then IndexOfParticipant(ps, known.value) else None;
    if k.Some? {
      var i := k.value;
      var e := EmailOrNone(email);
      if r.Ok? {
        UpdateParticipantValid(ps, n, i, ps[i].(name := name, email := e, timezone := tz));
      }
    } else if email != [] {
      match IndexOfEmail(ps, mid, email)
      case Some(j) =>
        UpdateParticipantValid(ps, n, j, ps[j].(name := name, timezone := tz));
      case None =>
        AppendParticipantValid(ps, n, NewParticipant(n, mid, name, Some(email), tz));
    } else {
      AppendParticipantValid(ps, n, NewParticipant(n, mid, if name == [] then ResponseAnonymousName else name, None, tz));
    }
  }

  /**
   * After a response the participant it names is in the table with the
   * submitted zone and name (or the anonymous name for a new row with
   * neither), and with the submitted email whenever one was given; every
   * other row is unchanged and at most one row is added. A known
   * participant is the row updated and returned; otherwise the row found or
   * created is of the request. The only error is a known participant taking
   * an email another row of its meeting has, and that always is an error.
   */
  lemma RespondOutcome(ps: seq<Participant>, n: nat, mid: MeetingId, known: Option<ParticipantId>,
                       name: string, email: string, tz: TimeZoneName)
    requires ParticipantTableValid(ps, n)
    ensures var r := Respond(ps, n, mid, known, name, email, tz);
      r.Err? ==>
        (r.error == Conflict && known.Some? && IndexOfParticipant(ps, known.value).Some? && email != []
         && exists k :: 0 <= k < |ps| && k != IndexOfParticipant(ps, known.value).value
              && ps[k].meeting == ps[IndexOfParticipant(ps, known.value).value].meeting && ps[k].email == Some(email))
    ensures known.Some? && IndexOfParticipant(ps, known.value).Some? && email != []
      && (exists k :: 0 <= k < |ps| && k != IndexOfParticipant(ps, known.value).value
            && ps[k].meeting == ps[IndexOfParticipant(ps, known.value).value].meeting && ps[k].email == Some(email))
      ==> Respond(ps, n, mid, known, name, email, tz) == Err(Conflict)
    ensures var r := Respond(ps, n, mid, known, name, email, tz);
      r.Ok? && known.Some? && IndexOfParticipant(ps, known.value).Some? ==> r.value.2 == known.value
    ensures var r := Respond(ps, n, mid, known, name, email, tz);
      r.Ok? ==> exists j :: (0 <= j < |r.value.0| && r.value.0[j].id == r.value.2 && r.value.0[j].timezone == tz
        && (known.Some? && IndexOfParticipant(ps, known.value).Some? ==> j == IndexOfParticipant(ps, known.value).value)
        && (!(known.Some? && IndexOfParticipant(ps, known.value).Some?) ==> r.value.0[j].meeting == mid)
        && (r.value.0[j].name == name || (name == [] && email == [] && r.value.0[j].name == ResponseAnonymousName))
        && (email != [] ==> r.value.0[j].email == Some(email))
        && |r.value.0| == |ps| + (if j == |ps| then 1 else 0)
        && r.value.1 == n + (if j == |ps| then 1 else 0)
        && (j == |ps| ==> r.value.2 == n)
        && forall k :: 0 <= k < |ps| && k != j ==> r.value.0[k] == ps[k])
    ensures var r := Respond(ps, n, mid, known, name, email, tz);
      r.Ok? && ((known.Some? && IndexOfParticipant(ps, known.value).Some?)
        || (email != [] && exists k :: 0 <= k < |ps| && ps[k].meeting == mid && ps[k].email == Some(email)))
      ==> |r.value.0| == |ps| && r.value.1 == n
  {
    var r := Respond(ps, n, mid, known, name, email, tz);
    var k := if known.Some? then IndexOfParticipant(ps, known.value) else None;
    if k.Some? && email != [] {
      var i := k.value;
      if r.Err? {
        var c := IndexOfEmail(ps, ps[i].meeting, email).value;
        assert ps[c].email == Some(email);
      }
      if exists c :: 0 <= c < |ps| && c != i && ps[c].meeting == ps[i].meeting && ps[c].email == Some(email) {
        var c :| 0 <= c < |ps| && c != i && ps[c].meeting == ps[i].meeting && ps[c].email == Some(email);
        EmailOwners(ps, n, ps[i].meeting, email);
        assert IndexOfEmail(ps, ps[i].meeting, email) == Some(c);
      }
    }
    if r.Ok? {
      if k.Some? {
        var i := k.value;
        assert r.value.0[i].id == r.value.2;
      } else if email != [] {
        match IndexOfEmail(ps, mid, email)
        case Some(j) =>
          assert r.value.0[j].id == r.value.2;
        case None =>
          assert r.value.0[|ps|].id == r.value.2;
      } else {
        assert r.value.0[|ps|].id == r.value.2;
      }
    }
  }

  /**
   * Responding twice with the same email and no known participant creates
   * the participant once: the second response finds it and adds no row.
   */
  lemma RespondTwiceSameEmail(ps: seq<Participant>, n: nat, mid: MeetingId, name: string, name': string,
                              email: string, tz: TimeZoneName, tz': TimeZoneName)
    requires ParticipantTableValid(ps, n) && email != []
    ensures var r := Respond(ps, n, mid, None, name, email, tz);
      r.Ok? && var r' := Respond(r.value.0, r.value.1, mid, None, name', email, tz');
      r'.Ok? && r'.value.1 == r.value.1 && |r'.value.0| == |r.value.0| && r'.value.2 == r.value.2
  {
    var r := Respond(ps, n, mid, None, name, email, tz);
    RespondValid(ps, n, mid, None, name, email, tz);
    EmailOwners(r.value.0, r.value.1, mid, email);
    match IndexOfEmail(ps, mid, email)
    case Some(j) =>
      assert r.value.0[j].meeting == mid && r.value.0[j].email == Some(email);
    case None =>
      assert r.value.0[|ps|].meeting == mid && r.value.0[|ps|].email == Some(email);
  }

  /**
   * respond_to_request on a valid form. A missing request is a 404, a wrong
   * token a 403, a request that is no longer active the closed page; none
   * of them changes anything. Otherwise the participant table becomes the
   * one Respond describes and the participant's id is returned.
   */
  method RespondToRequest(db: Database, mid: MeetingId, token: Option<string>, now: Instant,
                          known: Option<ParticipantId>, name: string, email: string, tz: TimeZoneName)
    returns (r: Result<ParticipantId, ViewError>)
    requires db.Valid()
    modifies db`participants, db`nextId
    ensures db.Valid()
    ensures mid !in db.meetings ==> r == Err(NotFound)
    ensures mid in db.meetings && token != Some(db.meetings[mid].token) ==> r == Err(Forbidden)
    ensures mid in db.meetings && token == Some(db.meetings[mid].token) && !IsActive(db.meetings[mid], now) ==> r == Err(Closed)
    ensures r.Err? ==> db.participants == old(db.participants) && db.nextId == old(db.nextId)
    ensures mid in db.meetings && token == Some(db.meetings[mid].token) && IsActive(db.meetings[mid], now) ==>
      var s := Respond(old(db.participants), old(db.nextId), mid, known, name, email, tz);
      && (s.Err? ==> r == Err(s.error))
      && (s.Ok? ==> r == Ok(s.value.2) && db.participants == s.value.0 && db.nextId == s.value.1)
  {
    if mid !in db.meetings {
      return Err(NotFound);
    }
    var meeting := db.meetings[mid];
    if token != Some(meeting.token) {
      return Err(Forbidden);
    }
    if !IsActive(meeting, now) {
      return Err(Closed);
    }
    var participant: Option<nat> := None;
    if known.Some? {
      participant := IndexOfParticipant(db.participants, known.value);
    }
    if participant.None? {
      if email != [] {
        var pid, created := GetOrCreateParticipant(db, mid, email, name, tz);
        if !created {
          var j := IndexOfEmail(db.participants, mid, email).value;
          UpdateParticipantValid(db.participants, db.nextId, j, db.participants[j].(name := name, timezone := tz));
          db.participants := db.participants[j := db.participants[j].(name := name, timezone := tz)];
        }
        return Ok(pid);
      } else {
        var pid := CreateParticipant(db, mid, if name == [] then ResponseAnonymousName else name, None, tz);
        return Ok(pid);
      }
    } else {
      var i := participant.value;
      var p := db.participants[i];
      var e := EmailOrNone(email);
      if e.Some? && IndexOfEmail(db.participants, p.meeting, e.value).Some? && IndexOfEmail(db.participants, p.meeting, e.value) != Some(i) {
        return Err(Conflict);
      }
      UpdateParticipantValid(db.participants, db.nextId, i, p.(name := name, email := e, timezone := tz));
      db.participants := db.participants[i := p.(name := name, email := e, timezone := tz)];
      return Ok(p.id);
    }
  }
}
