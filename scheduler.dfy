/**
 * The `POST /api/schedule/csv` handler: validates the scheduling parameters,
 * collects the recipients from the first CSV column, then saves one job row
 * and adds one queue item per recipient, staggered by `delaySeconds`.
 */
module Scheduler {
  import opened Wrappers
  import opened Jobs
  import Store
  import DelayQueue

  /**
   * The text form fields of a scheduling request. A `subject` or `startTime`
   * the client did not send reads as the empty string, which the guards refuse
   * alike; `body` is taken as sent and `delaySeconds` as an integer.
   */
  datatype ScheduleRequest = ScheduleRequest(
    subject: string,
    body: string,
    startTime: string,
    delaySeconds: int)

  /** The two ways a request is refused, both answered with HTTP 400. */
  datatype ScheduleError = InvalidParameters | InvalidStartTime

  const BadRequestStatus: int := 400

  function ErrorMessage(e: ScheduleError): string
  {
    match e
    case InvalidParameters => "Invalid scheduling parameters"
    case InvalidStartTime => "Invalid start time"
  }

  /** The handler's answer: `{scheduled: n}`, or a 400 with an error. */
  datatype Response = Accepted(scheduled: nat) | BadRequest(error: ScheduleError)

  /** The status `res.json` answers with when none is set. */
  const OkStatus: int := 200

  /** The JSON body of an answer. */
  datatype JsonBody = ScheduledCount(scheduled: nat) | ErrorBody(error: string)

  /** An HTTP answer: status code and JSON body. */
  datatype Reply = Reply(status: int, body: JsonBody)

  /** What goes over the wire for each answer. */
  function Render(resp: Response): (r: Reply)
    ensures r.status == BadRequestStatus <==> resp.BadRequest?
    ensures r.status == OkStatus <==> resp.Accepted?
    ensures resp.Accepted? ==> r.body == ScheduledCount(resp.scheduled)
    ensures resp.BadRequest? ==> r.body.ErrorBody? && r.body.error == ErrorMessage(resp.error)
  {
    match resp
    case Accepted(n) => Reply(OkStatus, ScheduledCount(n))
    case BadRequest(e) => Reply(BadRequestStatus, ErrorBody(ErrorMessage(e)))
  }

  /** A client can tell every answer apart: the two refusals carry different texts. */
  lemma RenderInjective(a: Response, b: Response)
    ensures Render(a) == Render(b) ==> a == b
  {
    if a.BadRequest? && b.BadRequest? && a.error != b.error {
      assert ErrorMessage(a.error)[0] != ErrorMessage(b.error)[0] || |ErrorMessage(a.error)| != |ErrorMessage(b.error)|;
    }
  }

  /**
   * The two guards in front of the handler's work. `dateParse` stands for
   * `Date.parse`, with `None` for NaN. On success the result is the start
   * timestamp.
   */
  function CheckParameters(req: ScheduleRequest, dateParse: string -> Option<Timestamp>)
    : (r: Result<Timestamp, ScheduleError>)
    ensures r == Failure(InvalidParameters)
            <==> req.subject == [] || req.startTime == [] || req.delaySeconds <= 0
    ensures r == Failure(InvalidStartTime)
            <==> req.subject != [] && req.startTime != [] && req.delaySeconds > 0
                 && dateParse(req.startTime) == None
    ensures r.Success? <==> req.subject != [] && req.startTime != [] && req.delaySeconds > 0
                            && dateParse(req.startTime).Some?
    ensures r.Success? ==> dateParse(req.startTime) == Some(r.value)
  {
    if req.subject == [] || req.startTime == [] || req.delaySeconds <= 0 then
      Failure(InvalidParameters)
    else
      match dateParse(req.startTime)
      case None => Failure(InvalidStartTime)
      case Some(t) => Success(t)
  }

  // ---------------------------------------------------------------------------
  // Recipient collection

  /** A CSV row contributes a recipient when its first field is present and not empty. */
  predicate HasRecipient(row: seq<string>)
  {
    |row| > 0 && row[0] != []
  }

  /** The recipients of a parsed CSV: the non-empty first fields, in row order. */
  function FirstColumn(rows: seq<seq<string>>): seq<string>
  {
    if rows == [] then []
    else
      var last := rows[|rows| - 1];
      FirstColumn(rows[..|rows| - 1]) + (if HasRecipient(last) then [last[0]] else [])
  }

  /** Rows are read independently and in order: the recipients of a concatenation concatenate. */
  lemma {:induction false} FirstColumnAppend(a: seq<seq<string>>, b: seq<seq<string>>)
    ensures FirstColumn(a + b) == FirstColumn(a) + FirstColumn(b)
    decreases |b|
  {
    if b == [] {
      assert a + b == a;
    } else {
      var b' := b[..|b| - 1];
      assert (a + b)[..|a + b| - 1] == a + b';
      FirstColumnAppend(a, b');
    }
  }

  /**
   * A text is a recipient exactly when some row has it as its non-empty first
   * field; there are never more recipients than rows.
   */
  lemma {:induction false} FirstColumnMembers(rows: seq<seq<string>>)
    ensures |FirstColumn(rows)| <= |rows|
    ensures forall x :: x in FirstColumn(rows)
                        <==> exists r :: r in rows && HasRecipient(r) && r[0] == x
    ensures forall k :: 0 <= k < |FirstColumn(rows)| ==> FirstColumn(rows)[k] != []
  {
    if rows != [] {
      var init := rows[..|rows| - 1];
      var last := rows[|rows| - 1];
      FirstColumnMembers(init);
      assert rows == init + [last];
      forall x | x in FirstColumn(rows)
        ensures exists r :: r in rows && HasRecipient(r) && r[0] == x
      {
        if x in FirstColumn(init) {
          var r :| r in init && HasRecipient(r) && r[0] == x;
          assert r in rows;
        } else {
          assert r0: last in rows;
        }
      }
      forall x | exists r :: r in rows && HasRecipient(r) && r[0] == x
        ensures x in FirstColumn(rows)
      {
        var r :| r in rows && HasRecipient(r) && r[0] == x;
        if r in init {
          assert x in FirstColumn(init);
        } else {
          assert r == last;
        }
      }
    }
  }

  /** The `data` handler of the CSV stream: pushes each row's first field when it is truthy. */
  method CollectRecipients(rows: seq<seq<string>>) returns (emails: seq<string>)
    ensures emails == FirstColumn(rows)
  {
    emails := [];
    for i := 0 to |rows|
      invariant emails == FirstColumn(rows[..i])
    {
      var row := rows[i];
      assert rows[..i + 1][..i] == rows[..i];
      if |row| > 0 && row[0] != [] {
        emails := emails + [row[0]];
      }
    }
    assert rows[..|rows|] == rows;
  }

  // ---------------------------------------------------------------------------
  // The staggered campaign

  /** The validated campaign: who sends it, what, from when, and how far apart. */
  datatype Campaign = Campaign(
    sender: string,
    subject: string,
    body: string,
    start: Timestamp,
    delaySeconds: int)

  /** The send instant of the `i`-th recipient: `i` steps of `delaySeconds` seconds after the start. */
  function SendAt(c: Campaign, i: nat): Timestamp
  {
    c.start + i * (c.delaySeconds * 1000)
  }

  lemma UnionUpdate(a: map<JobId, EmailJob>, b: map<JobId, EmailJob>, k: JobId, v: EmailJob)
    ensures (a + b)[k := v] == a + b[k := v]
  {
  }

  lemma SendAtStep(c: Campaign, i: nat)
    ensures SendAt(c, i + 1) == SendAt(c, i) + c.delaySeconds * 1000
  {
  }

  /** A positive step taken at least once covers at least one step. */
  lemma {:induction false} AtLeastOneStep(m: nat, d: int)
    requires m >= 1 && d > 0
    ensures m * d >= d
  {
    if m > 1 {
      AtLeastOneStep(m - 1, d);
      assert m * d == (m - 1) * d + d;
    }
  }

  /** With a positive delay, later recipients are sent strictly later, by exact multiples of the delay. */
  lemma StaggerIncreasing(c: Campaign, i: nat, j: nat)
    requires c.delaySeconds > 0 && i < j
    ensures SendAt(c, j) - SendAt(c, i) == (j - i) * (c.delaySeconds * 1000)
    ensures SendAt(c, i) < SendAt(c, j)
  {
    var d := c.delaySeconds * 1000;
    assert j * d - i * d == (j - i) * d;
    AtLeastOneStep(j - i, d);
  }

  /** The key the `i`-th recipient's row receives when keys are handed out from `firstId` on. */
  function JobKey(firstId: JobId, i: nat): JobId
  {
    firstId + i
  }

  /** What the handler passes to `repo.create` for the `i`-th recipient. */
  function CampaignJob(c: Campaign, email: string, i: nat): NewJob
  {
    NewJob(email, c.subject, c.body, c.sender, SendAt(c, i), None, Some(i), None)
  }

  /**
   * The rows the first `n` recipients add to the table, under the keys
   * `firstId .. firstId + n - 1`; `dbNow(i)` is the insert time of the `i`-th.
   */
  function CampaignRows(c: Campaign, emails: seq<string>, firstId: JobId,
                        dbNow: nat -> Timestamp, n: nat): map<JobId, EmailJob>
    requires n <= |emails|
  {
    if n == 0 then map[]
    else
      CampaignRows(c, emails, firstId, dbNow, n - 1)[JobKey(firstId, n - 1) :=
        Persist(CampaignJob(c, emails[n - 1], n - 1), JobKey(firstId, n - 1), dbNow(n - 1))]
  }

  /**
   * The items the first `n` recipients add to the queue; `appNow(i)` is the
   * clock reading taken when the `i`-th item is added.
   */
  function CampaignItems(c: Campaign, firstId: JobId, appNow: nat -> Timestamp, n: nat)
    : seq<DelayQueue.QueueItem>
  {
    seq(n, i requires 0 <= i < n =>
      DelayQueue.QueueItem(DelayQueue.SendJobName, JobKey(firstId, i), c.sender, SendAt(c, i) - appNow(i)))
  }

  lemma CampaignItemsStep(c: Campaign, firstId: JobId, appNow: nat -> Timestamp, n: nat)
    ensures CampaignItems(c, firstId, appNow, n + 1)
            == CampaignItems(c, firstId, appNow, n)
               + [DelayQueue.QueueItem(DelayQueue.SendJobName, JobKey(firstId, n), c.sender,
                                       SendAt(c, n) - appNow(n))]
  {
  }

  /** The `i`-th recipient's row sits under key `firstId + i` and is built from the `i`-th recipient. */
  lemma {:induction false} CampaignRowAt(c: Campaign, emails: seq<string>, firstId: JobId,
                                         dbNow: nat -> Timestamp, n: nat, i: nat)
    requires i < n <= |emails|
    ensures JobKey(firstId, i) in CampaignRows(c, emails, firstId, dbNow, n)
    ensures CampaignRows(c, emails, firstId, dbNow, n)[JobKey(firstId, i)]
            == Persist(CampaignJob(c, emails[i], i), JobKey(firstId, i), dbNow(i))
  {
    if i < n - 1 {
      CampaignRowAt(c, emails, firstId, dbNow, n - 1, i);
    }
  }

  /** The first `n` recipients occupy exactly `n` keys, all in `firstId .. firstId + n - 1`. */
  lemma {:induction false} CampaignRowsKeys(c: Campaign, emails: seq<string>, firstId: JobId,
                                            dbNow: nat -> Timestamp, n: nat)
    requires n <= |emails|
    ensures |CampaignRows(c, emails, firstId, dbNow, n)| == n
    ensures forall id :: id in CampaignRows(c, emails, firstId, dbNow, n) ==> firstId <= id < firstId + n
  {
    if n > 0 {
      CampaignRowsKeys(c, emails, firstId, dbNow, n - 1);
      assert firstId + (n - 1) !in CampaignRows(c, emails, firstId, dbNow, n - 1);
    }
  }

  /**
   * One row per recipient: the `i`-th recipient's row sits under key
   * `firstId + i`, is addressed to the `i`-th recipient, carries sequence `i`,
   * the `i`-th send instant, status scheduled and no `sentAt`; there are no
   * other rows.
   */
  lemma CampaignRowsShape(c: Campaign, emails: seq<string>, firstId: JobId,
                          dbNow: nat -> Timestamp, n: nat)
    requires n <= |emails|
    ensures |CampaignRows(c, emails, firstId, dbNow, n)| == n
    ensures forall id :: id in CampaignRows(c, emails, firstId, dbNow, n) ==> firstId <= id < firstId + n
    ensures forall i :: 0 <= i < n ==>
      && JobKey(firstId, i) in CampaignRows(c, emails, firstId, dbNow, n)
      && var row := CampaignRows(c, emails, firstId, dbNow, n)[JobKey(firstId, i)];
         && row.id == firstId + i
         && row.email == emails[i]
         && row.sequence == i
         && row.sendAt == c.start + i * c.delaySeconds * 1000
         && row.status == Scheduled
         && row.sentAt == None
         && row.sender == c.sender && row.subject == c.subject && row.body == c.body
  {
    CampaignRowsKeys(c, emails, firstId, dbNow, n);
    forall i | 0 <= i < n
      ensures JobKey(firstId, i) in CampaignRows(c, emails, firstId, dbNow, n)
      ensures CampaignRows(c, emails, firstId, dbNow, n)[JobKey(firstId, i)]
              == Persist(CampaignJob(c, emails[i], i), JobKey(firstId, i), dbNow(i))
      ensures SendAt(c, i) == c.start + i * c.delaySeconds * 1000

    {
      CampaignRowAt(c, emails, firstId, dbNow, n, i);
      assert i * (c.delaySeconds * 1000) == i * c.delaySeconds * 1000;
    }
  }

  /**
   * One queue item per row: the `i`-th item refers to the `i`-th row's key,
   * carries that row's sender, and its delay is that row's send instant minus
   * the clock reading at the time it was added (no clamp at zero, so a past
   * send instant gives a negative delay). No two items refer to the same row.
   */
  lemma CampaignItemsMatchRows(c: Campaign, emails: seq<string>, firstId: JobId,
                               dbNow: nat -> Timestamp, appNow: nat -> Timestamp, n: nat)
    requires n <= |emails|
    ensures |CampaignItems(c, firstId, appNow, n)| == n
    ensures forall i :: 0 <= i < n ==>
      var item := CampaignItems(c, firstId, appNow, n)[i];
      && item.name == "send"
      && item.jobId in CampaignRows(c, emails, firstId, dbNow, n)
      && CampaignRows(c, emails, firstId, dbNow, n)[item.jobId].sequence == i
      && item.sender == CampaignRows(c, emails, firstId, dbNow, n)[item.jobId].sender
      && item.delay == CampaignRows(c, emails, firstId, dbNow, n)[item.jobId].sendAt - appNow(i)
      && (appNow(i) > SendAt(c, i) ==> item.delay < 0)
    ensures forall i, j :: 0 <= i < j < n ==>
      CampaignItems(c, firstId, appNow, n)[i].jobId != CampaignItems(c, firstId, appNow, n)[j].jobId
  {
    CampaignRowsShape(c, emails, firstId, dbNow, n);
  }

  /**
   * The handler. `sender` is the signed-in user's address, `rows` the parsed
   * CSV, `dbNow(i)` the instant the `i`-th row is inserted and `appNow(i)` the
   * clock reading when the `i`-th item is added. A refused request touches
   * neither table nor queue; otherwise every recipient gets its row and then
   * its queue item, in order, and the answer is the recipient count.
   */
  method ScheduleCsv(store: Store.Repository, queue: DelayQueue.Queue, sender: string,
                     req: ScheduleRequest, rows: seq<seq<string>>,
                     dateParse: string -> Option<Timestamp>,
                     dbNow: nat -> Timestamp, appNow: nat -> Timestamp)
    returns (resp: Response)
    requires store.Valid()
    modifies store, queue
    ensures store.Valid()
    ensures Render(resp).status == if CheckParameters(req, dateParse).Failure? then BadRequestStatus else OkStatus
    ensures CheckParameters(req, dateParse).Failure? ==>
      && resp == BadRequest(CheckParameters(req, dateParse).error)
      && store.jobs == old(store.jobs) && store.nextId == old(store.nextId)
      && queue.items == old(queue.items)
    ensures CheckParameters(req, dateParse).Success? ==>
      var c := Campaign(sender, req.subject, req.body, CheckParameters(req, dateParse).value,
                        req.delaySeconds);
      var emails := FirstColumn(rows);
      && resp == Accepted(|emails|)
      && store.jobs == old(store.jobs) + CampaignRows(c, emails, old(store.nextId), dbNow, |emails|)
      && store.nextId == old(store.nextId) + |emails|
      && queue.items == old(queue.items) + CampaignItems(c, old(store.nextId), appNow, |emails|)
  {
    var checked := CheckParameters(req, dateParse);
    if checked.Failure? {
      return BadRequest(checked.error);
    }
    var startTimestamp := checked.value;
    ghost var c := Campaign(sender, req.subject, req.body, startTimestamp, req.delaySeconds);
    ghost var firstId := store.nextId;
    ghost var jobs0 := store.jobs;
    ghost var items0 := queue.items;

    var emails := CollectRecipients(rows);

    var currentTime := startTimestamp;
    var sequence := 0;
    for k := 0 to |emails|
      invariant store.Valid()
      invariant sequence == k
      invariant currentTime == SendAt(c, k)
      invariant store.nextId == firstId + k
      invariant store.jobs == jobs0 + CampaignRows(c, emails, firstId, dbNow, k)
      invariant queue.items == items0 + CampaignItems(c, firstId, appNow, k)
    {
      var email := emails[k];
      var job := NewJob(email, req.subject, req.body, sender, currentTime, None, Some(sequence), None);
      assert job == CampaignJob(c, emails[k], k);
      sequence := sequence + 1;

      var saved := store.Insert(job, dbNow(k));
      assert saved.id == JobKey(firstId, k);

      queue.Add(DelayQueue.SendJobName, saved.id, saved.sender, currentTime - appNow(k));

      UnionUpdate(jobs0, CampaignRows(c, emails, firstId, dbNow, k), saved.id, saved);
      CampaignItemsStep(c, firstId, appNow, k);
      SendAtStep(c, k);
      currentTime := currentTime + req.delaySeconds * 1000;
    }

    resp := Accepted(|emails|);
  }

  /**
   * Recipients a, b, c with a two-second delay from `t`
   * become rows with sequence 0, 1, 2 sent at t, t + 2 s and t + 4 s.
   */
  lemma ThreeRecipientCampaign(sender: string, subject: string, body: string, t: Timestamp,
                               dbNow: nat -> Timestamp)
    ensures var c := Campaign(sender, subject, body, t, 2);
      var rows := CampaignRows(c, ["a", "b", "c"], 0, dbNow, 3);
      && rows.Keys == {0, 1, 2}
      && rows[0].email == "a" && rows[0].sequence == 0 && rows[0].sendAt == t
      && rows[1].email == "b" && rows[1].sequence == 1 && rows[1].sendAt == t + 2000
      && rows[2].email == "c" && rows[2].sequence == 2 && rows[2].sendAt == t + 4000
  {
    var c := Campaign(sender, subject, body, t, 2);
    var rows := CampaignRows(c, ["a", "b", "c"], 0, dbNow, 3);
    CampaignRowsShape(c, ["a", "b", "c"], 0, dbNow, 3);
    assert JobKey(0, 0) in rows && JobKey(0, 1) in rows && JobKey(0, 2) in rows;
  }
}
