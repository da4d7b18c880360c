/**
 * The campaign form of the dashboard: it reads a recipient file into a list
 * of addresses, decides whether the form may be sent, and posts it to the
 * scheduling endpoint at most once at a time.
 */
module Compose {
  import opened Wrappers
  import opened JsString
  import Jobs
  import Scheduler

  /** Shown when a file yields no address. */
  const NoAddressesMessage: string := "No email addresses found in file"

  /** Shown when the scheduling request fails. */
  const SubmitFailedMessage: string := "Failed to schedule emails. Please try again."

  /** The initial values of the delay and hourly limit fields. */
  const DefaultDelaySeconds: int := 2
  const DefaultHourlyLimit: int := 100

  // ---------------------------------------------------------------------------
  // Reading the recipient file

  /** The text a file read produced; a missing result reads as the empty text. */
  function ReadResult(result: Option<string>): string
  {
    if result.Some? then result.value else []
  }

  /** Every line trimmed. */
  function TrimAll(lines: seq<string>): (r: seq<string>)
    ensures |r| == |lines|
    ensures forall k :: 0 <= k < |lines| ==> r[k] == Trim(lines[k])
  {
    seq(|lines|, k requires 0 <= k < |lines| => Trim(lines[k]))
  }

  /** The non-empty lines, in order. */
  function NonEmpty(lines: seq<string>): seq<string>
  {
    if lines == [] then []
    else (if lines[0] != [] then [lines[0]] else []) + NonEmpty(lines[1..])
  }

  /** Filtering keeps exactly the non-empty lines. */
  lemma {:induction false} NonEmptyMembers(lines: seq<string>)
    ensures |NonEmpty(lines)| <= |lines|
    ensures forall x :: x in NonEmpty(lines) <==> x in lines && x != []
  {
    if lines != [] {
      NonEmptyMembers(lines[1..]);
      assert lines == [lines[0]] + lines[1..];
    }
  }

  lemma TrimAllAppend(a: seq<string>, b: seq<string>)
    ensures TrimAll(a + b) == TrimAll(a) + TrimAll(b)
  {
  }

  lemma {:induction false} NonEmptyAppend(a: seq<string>, b: seq<string>)
    ensures NonEmpty(a + b) == NonEmpty(a) + NonEmpty(b)
  {
    if a == [] {
      assert a + b == b;
    } else {
      var ab := a + b;
      assert ab != [] && ab[0] == a[0] && ab[1..] == a[1..] + b;
      NonEmptyAppend(a[1..], b);
    }
  }

  /** Trimming a line brings in no character it did not have, and trims it for good. */
  lemma TrimmedLine(p: string)
    ensures Trim(Trim(p)) == Trim(p)
    ensures forall c :: c in Trim(p) ==> c in p
  {
    TrimIdempotent(p);
    TrimSpec(p);
  }

  /** Every parsed line is non-empty, trimmed and free of line breaks. */
  lemma ParsedLinesClean(raw: string)
    ensures |NonEmpty(TrimAll(SplitLines(raw)))| <= |Split(raw, '\n')|
    ensures forall x :: x in NonEmpty(TrimAll(SplitLines(raw))) ==>
              x != [] && Trim(x) == x && '\n' !in x
  {
    var pieces := Split(raw, '\n');
    var lines := SplitLines(raw);
    NonEmptyMembers(TrimAll(lines));
    forall x | x in NonEmpty(TrimAll(lines)) ensures x != [] && Trim(x) == x && '\n' !in x {
      var k :| 0 <= k < |lines| && TrimAll(lines)[k] == x;
      assert '\n' !in pieces[k];
      assert forall c :: c in lines[k] ==> c in pieces[k];
      TrimmedLine(lines[k]);
    }
  }

  /**
   * The addresses a file holds: its lines, split at `\n` or `\r\n`, each
   * trimmed, the empty ones dropped.
   */
  function ParseRecipients(raw: string): (r: seq<string>)
    ensures |r| <= |Split(raw, '\n')|
    ensures forall k :: 0 <= k < |r| ==> r[k] != [] && Trim(r[k]) == r[k] && '\n' !in r[k]
  {
    ParsedLinesClean(raw);
    NonEmpty(TrimAll(SplitLines(raw)))
  }

  /** A `\r` before a line break makes no difference to the addresses found. */
  lemma ParseIgnoresCR(raw: string)
    ensures ParseRecipients(raw) == NonEmpty(TrimAll(Split(raw, '\n')))
  {
    var pieces := Split(raw, '\n');
    forall k | 0 <= k < |pieces|
      ensures TrimAll(SplitLines(raw))[k] == TrimAll(pieces)[k]
    {
      TrimDropTrailingCR(pieces[k]);
    }
    assert TrimAll(SplitLines(raw)) == TrimAll(pieces);
  }

  /** Lines are read independently: the addresses of two joined texts are those of each, in order. */
  lemma ParseLineIndependence(a: string, b: string)
    ensures ParseRecipients(a + ['\n'] + b) == ParseRecipients(a) + ParseRecipients(b)
  {
    ParseIgnoresCR(a + ['\n'] + b);
    ParseIgnoresCR(a);
    ParseIgnoresCR(b);
    SplitConcat(a, b, '\n');
    TrimAllAppend(Split(a, '\n'), Split(b, '\n'));
    NonEmptyAppend(TrimAll(Split(a, '\n')), TrimAll(Split(b, '\n')));
  }

  /** A single line gives its trimmed text as the one address, or nothing when it is blank. */
  lemma ParseSingleLine(s: string)
    requires '\n' !in s
    ensures ParseRecipients(s) == if Trim(s) == [] then [] else [Trim(s)]
  {
    ParseIgnoresCR(s);
    SplitNoSeparator(s, '\n');
    assert TrimAll([s]) == [Trim(s)];
  }

  /** Only empty lines leave nothing after filtering. */
  lemma {:induction false} NonEmptyOfBlanks(lines: seq<string>)
    requires forall k :: 0 <= k < |lines| ==> lines[k] == []
    ensures NonEmpty(lines) == []
  {
    if lines != [] {
      NonEmptyOfBlanks(lines[1..]);
    }
  }

  /** A line of whitespace trims to nothing. */
  lemma BlankLine(p: string, raw: string)
    requires forall c :: c in p ==> c in raw
    requires forall i :: 0 <= i < |raw| ==> IsWhitespace(raw[i])
    ensures Trim(p) == []
  {
    forall j | 0 <= j < |p| ensures IsWhitespace(p[j]) {
      assert p[j] in raw;
    }
    TrimEmptyIffBlank(p);
  }

  /** A blank file yields no address. */
  lemma BlankGivesNothing(raw: string)
    requires forall i :: 0 <= i < |raw| ==> IsWhitespace(raw[i])
    ensures NonEmpty(TrimAll(Split(raw, '\n'))) == []
  {
    var pieces := Split(raw, '\n');
    SplitCovers(raw, '\n');
    forall k | 0 <= k < |pieces| ensures TrimAll(pieces)[k] == [] {
      BlankLine(pieces[k], raw);
    }
    NonEmptyOfBlanks(TrimAll(pieces));
  }

  /** A file with a character other than whitespace yields an address. */
  lemma NonBlankGivesSomething(raw: string, i: nat)
    requires i < |raw| && !IsWhitespace(raw[i])
    ensures NonEmpty(TrimAll(Split(raw, '\n'))) != []
  {
    var pieces := Split(raw, '\n');
    var trimmed := TrimAll(pieces);
    NonEmptyMembers(trimmed);
    SplitCovers(raw, '\n');
    assert raw[i] != '\n';
    var k :| 0 <= k < |pieces| && raw[i] in pieces[k];
    var j :| 0 <= j < |pieces[k]| && pieces[k][j] == raw[i];
    TrimEmptyIffBlank(pieces[k]);
    assert trimmed[k] != [];
    assert trimmed[k] in trimmed;
  }

  /** A file yields no address exactly when it holds nothing but whitespace. */
  lemma ParseEmptyIffBlank(raw: string)
    ensures ParseRecipients(raw) == [] <==> forall i :: 0 <= i < |raw| ==> IsWhitespace(raw[i])
  {
    ParseIgnoresCR(raw);
    if forall i :: 0 <= i < |raw| ==> IsWhitespace(raw[i]) {
      BlankGivesNothing(raw);
    } else {
      var i :| 0 <= i < |raw| && !IsWhitespace(raw[i]);
      NonBlankGivesSomething(raw, i);
    }
  }

  // ---------------------------------------------------------------------------
  // The form

  /** The file chosen in the form. */
  datatype FileRef = FileRef(name: string)

  /** The callbacks the form's owner passed in. */
  datatype Callback = OnSuccess | OnClose

  /** The fields of the multipart request the form posts. */
  datatype ScheduleForm = ScheduleForm(file: FileRef, subject: string, body: string,
                                       startTime: string, delaySeconds: int, hourlyLimit: int)

  /**
   * The form may be sent: a subject that is not blank, a file, at least one
   * address read from it, a start time, and positive delay and hourly limit.
   * A subject is not blank when it has a character other than whitespace.
   */
  predicate FormValid(subject: string, file: Option<FileRef>, emails: seq<string>,
                      startTime: string, delaySeconds: int, hourlyLimit: int)
    ensures FormValid(subject, file, emails, startTime, delaySeconds, hourlyLimit) <==>
      && (exists i :: 0 <= i < |subject| && !IsWhitespace(subject[i]))
      && file.Some? && emails != [] && startTime != []
      && delaySeconds > 0 && hourlyLimit > 0
  {
    TrimEmptyIffBlank(subject);
    && |Trim(subject)| > 0
    && file.Some?
    && |emails| > 0
    && |startTime| > 0
    && delaySeconds > 0
    && hourlyLimit > 0
  }

  /** The request the scheduling endpoint reads from a posted form. */
  function RequestOf(form: ScheduleForm): Scheduler.ScheduleRequest
  {
    Scheduler.ScheduleRequest(form.subject, form.body, form.startTime, form.delaySeconds)
  }

  /**
   * A form the page lets through is never refused by the endpoint for missing
   * parameters; only an unparsable start time can still be refused.
   */
  lemma ValidFormPassesServerGuard(form: ScheduleForm, emails: seq<string>,
                                   dateParse: string -> Option<Jobs.Timestamp>)
    requires FormValid(form.subject, Some(form.file), emails, form.startTime,
                       form.delaySeconds, form.hourlyLimit)
    ensures Scheduler.CheckParameters(RequestOf(form), dateParse).Failure? ==>
              Scheduler.CheckParameters(RequestOf(form), dateParse).error == Scheduler.InvalidStartTime
  {
    TrimSpec(form.subject);
  }

  class ComposeModal {
    var subject: string
    var body: string
    var file: Option<FileRef>
    var emails: seq<string>
    var startTime: string
    var delaySeconds: int
    var hourlyLimit: int
    var loading: bool
    var error: Option<string>

    /** The form as it first appears: empty, delay 2 s, limit 100 per hour. */
    constructor ()
      ensures subject == [] && body == [] && file == None && emails == [] && startTime == []
      ensures delaySeconds == DefaultDelaySeconds && hourlyLimit == DefaultHourlyLimit
      ensures !loading && error == None
    {
      subject := [];
      body := [];
      file := None;
      emails := [];
      startTime := [];
      delaySeconds := DefaultDelaySeconds;
      hourlyLimit := DefaultHourlyLimit;
      loading := false;
      error := None;
    }

    predicate IsValid()
      reads this
    {
      FormValid(subject, file, emails, startTime, delaySeconds, hourlyLimit)
    }

    /** A file is chosen: it becomes the form's file and any error is cleared. */
    method HandleFileChange(f: FileRef)
      modifies this
      ensures file == Some(f) && error == None
      ensures subject == old(subject) && body == old(body) && emails == old(emails)
      ensures startTime == old(startTime) && delaySeconds == old(delaySeconds)
      ensures hourlyLimit == old(hourlyLimit) && loading == old(loading)
    {
      file := Some(f);
      error := None;
    }

    /**
     * The file's text has been read: the addresses become the form's list; a
     * file without any address empties the list and sets the error.
     */
    method OnFileLoaded(result: Option<string>)
      modifies this
      ensures emails == ParseRecipients(ReadResult(result))
      ensures error == if emails == [] then Some(NoAddressesMessage) else old(error)
      ensures subject == old(subject) && body == old(body) && file == old(file)
      ensures startTime == old(startTime) && delaySeconds == old(delaySeconds)
      ensures hourlyLimit == old(hourlyLimit) && loading == old(loading)
    {
      var raw := ReadResult(result);
      var parsed := ParseRecipients(raw);
      if |parsed| == 0 {
        error := Some(NoAddressesMessage);
        emails := [];
        return;
      }
      emails := parsed;
    }

    /**
     * The submit button is pressed. An invalid form, or one already being
     * sent, is left alone and nothing is posted. Otherwise the form enters the
     * sending state with the error cleared and its fields are posted.
     */
    method BeginSubmit() returns (posted: Option<ScheduleForm>)
      modifies this
      ensures old(!IsValid() || loading) ==> posted == None && unchanged(this)
      ensures old(IsValid() && !loading) ==>
        && posted == Some(ScheduleForm(old(file).value, old(subject), old(body), old(startTime),
                                       old(delaySeconds), old(hourlyLimit)))
        && loading && error == None
        && subject == old(subject) && body == old(body) && file == old(file) && emails == old(emails)
        && startTime == old(startTime) && delaySeconds == old(delaySeconds)
        && hourlyLimit == old(hourlyLimit)
      ensures posted.Some? ==>
        FormValid(posted.value.subject, Some(posted.value.file), emails, posted.value.startTime,
                  posted.value.delaySeconds, posted.value.hourlyLimit)
    {
      if !IsValid() || loading {
        return None;
      }
      loading := true;
      error := None;
      posted := Some(ScheduleForm(file.value, subject, body, startTime, delaySeconds, hourlyLimit));
    }

    /**
     * The post has answered. On success the owner is told and the form closed;
     * on failure the error is shown. Either way the form leaves the sending state.
     */
    method CompleteSubmit(postSucceeds: bool) returns (calls: seq<Callback>)
      modifies this
      ensures !loading
      ensures postSucceeds ==> calls == [OnSuccess, OnClose] && error == old(error)
      ensures !postSucceeds ==> calls == [] && error == Some(SubmitFailedMessage)
      ensures subject == old(subject) && body == old(body) && file == old(file) && emails == old(emails)
      ensures startTime == old(startTime) && delaySeconds == old(delaySeconds)
      ensures hourlyLimit == old(hourlyLimit)
    {
      calls := [];
      if postSucceeds {
        calls := calls + [OnSuccess];
        calls := calls + [OnClose];
      } else {
        error := Some(SubmitFailedMessage);
      }
      loading := false;
    }

    /**
     * A press of the submit button whose post answers before anything else
     * happens: nothing for an invalid or busy form; otherwise one post, and the
     * callbacks or the error according to its outcome.
     */
    method HandleSubmit(postSucceeds: bool) returns (posted: Option<ScheduleForm>, calls: seq<Callback>)
      modifies this
      ensures old(!IsValid() || loading) ==> posted == None && calls == [] && unchanged(this)
      ensures old(IsValid() && !loading) ==>
        && posted == Some(ScheduleForm(old(file).value, old(subject), old(body), old(startTime),
                                       old(delaySeconds), old(hourlyLimit)))
        && !loading
        && (postSucceeds ==> calls == [OnSuccess, OnClose] && error == None)
        && (!postSucceeds ==> calls == [] && error == Some(SubmitFailedMessage))
        && subject == old(subject) && body == old(body) && file == old(file) && emails == old(emails)
        && startTime == old(startTime) && delaySeconds == old(delaySeconds)
        && hourlyLimit == old(hourlyLimit)
    {
      posted := BeginSubmit();
      if posted.None? {
        return None, [];
      }
      calls := CompleteSubmit(postSucceeds);
    }
  }
}
