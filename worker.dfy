/**
 * The job function of the "email-queue" worker: load the row named by the
 * item, hand a message to the mail transport, and record the outcome on the
 * row. The worker is modelled as one sequential step per queue item.
 */
module Worker {
  import opened Wrappers
  import opened Jobs
  import Store
  import DelayQueue

  /** What is handed to the mail transport. */
  datatype Message = Message(from: string, to: string, subject: string, text: string)

  /** The text sent when a row's body is empty. */
  const FallbackText: string := "Hello from ReachInbox"

  /** The `from` header: display name "ReachInbox" and the transport account's address. */
  function FromHeader(account: string): string
  {
    "\"ReachInbox\" <" + account + ">"
  }

  /**
   * The message for a row: addressed to the row's recipient with the row's
   * subject; the text is the row's body, or the fallback when the body is empty.
   */
  function BuildMessage(job: EmailJob, account: string): (m: Message)
    ensures m.to == job.email && m.subject == job.subject
    ensures m.from == FromHeader(account)
    ensures m.text != []
    ensures job.body != [] ==> m.text == job.body
    ensures job.body == [] ==> m.text == FallbackText
  {
    Message(FromHeader(account), job.email, job.subject,
            if job.body != [] then job.body else FallbackText)
  }

  /**
   * The row after one delivery attempt at instant `now`: `delivered` is the
   * transport's outcome.
   */
  function AfterAttempt(job: EmailJob, delivered: bool, now: Timestamp): EmailJob
  {
    if delivered then job.(status := Sent, sentAt := Some(now))
    else job.(status := Failed)
  }

  /**
   * A delivered message leaves the row sent at `now`; a refused one leaves it
   * failed with `sentAt` as it was. Only `status` and `sentAt` change.
   */
  lemma AttemptOutcome(job: EmailJob, delivered: bool, now: Timestamp)
    ensures var r := AfterAttempt(job, delivered, now);
      && (delivered ==> r.status == Sent && r.sentAt == Some(now))
      && (!delivered ==> r.status == Failed && r.sentAt == job.sentAt)
      && r.id == job.id && r.email == job.email && r.subject == job.subject
      && r.body == job.body && r.sender == job.sender && r.sendAt == job.sendAt
      && r.sequence == job.sequence && r.createdAt == job.createdAt
  {
  }

  /**
   * The outcome depends on the transport only, never on the row's prior
   * status: there is no guard for rows that are already sent or failed.
   */
  lemma AttemptIgnoresPriorStatus(job: EmailJob, prior: Status, delivered: bool, now: Timestamp)
    ensures AfterAttempt(job.(status := prior), delivered, now) == AfterAttempt(job, delivered, now)
    ensures AfterAttempt(job, delivered, now).status != Scheduled
  {
  }

  /**
   * A redelivered item is attempted again and overwrites the status. A row
   * sent at `t1` whose second attempt fails ends failed while still carrying
   * `sentAt = t1`; a failed row whose second attempt succeeds ends sent.
   */
  lemma RedeliveryOverwrites(job: EmailJob, t1: Timestamp, t2: Timestamp)
    ensures var twice := AfterAttempt(AfterAttempt(job, true, t1), false, t2);
      twice.status == Failed && twice.sentAt == Some(t1)
    ensures var twice := AfterAttempt(AfterAttempt(job, false, t1), true, t2);
      twice.status == Sent && twice.sentAt == Some(t2)
  {
  }

  /**
   * One run of the job function for the item naming `jobId`. `delivered` is
   * what the transport answers and `now` the clock at that moment. A missing
   * row is skipped without sending and without touching the table; otherwise
   * the message is attempted and only that row is rewritten.
   */
  method ProcessJob(store: Store.Repository, jobId: JobId, account: string,
                    delivered: bool, now: Timestamp)
    returns (attempted: Option<Message>)
    requires store.Valid()
    modifies store
    ensures store.Valid() && store.nextId == old(store.nextId)
    ensures jobId !in old(store.jobs) ==> attempted == None && store.jobs == old(store.jobs)
    ensures jobId in old(store.jobs) ==>
      && attempted == Some(BuildMessage(old(store.jobs)[jobId], account))
      && store.jobs == old(store.jobs)[jobId := AfterAttempt(old(store.jobs)[jobId], delivered, now)]
  {
    var found := store.FindOneBy(jobId);
    if found.None? {
      return None;
    }
    var emailJob := found.value;

    attempted := Some(BuildMessage(emailJob, account));
    if delivered {
      emailJob := emailJob.(status := Sent, sentAt := Some(now));
      store.Save(emailJob);
    } else {
      emailJob := emailJob.(status := Failed);
      store.Save(emailJob);
    }
  }

  // ---------------------------------------------------------------------------
  // Consuming the queue

  /** The table after the job function has run once for the row `jobId`. */
  function Step(jobs: map<JobId, EmailJob>, jobId: JobId, delivered: bool, now: Timestamp)
    : map<JobId, EmailJob>
  {
    if jobId in jobs then jobs[jobId := AfterAttempt(jobs[jobId], delivered, now)] else jobs
  }

  /**
   * The table after the items have been consumed in order; `delivered(k)` and
   * `clock(k)` are the transport outcome and the instant of the `k`-th run.
   */
  function Replay(jobs: map<JobId, EmailJob>, items: seq<DelayQueue.QueueItem>,
                  delivered: nat -> bool, clock: nat -> Timestamp): map<JobId, EmailJob>
  {
    if items == [] then jobs
    else
      var k := |items| - 1;
      Step(Replay(jobs, items[..k], delivered, clock), items[k].jobId, delivered(k), clock(k))
  }

  /** Does some item name `id`? */
  predicate Named(items: seq<DelayQueue.QueueItem>, id: JobId)
  {
    exists k :: 0 <= k < |items| && items[k].jobId == id
  }

  /** Two versions of a row that agree on everything but `status` and `sentAt`. */
  predicate SameContent(a: EmailJob, b: EmailJob)
  {
    && a.id == b.id && a.email == b.email && a.subject == b.subject && a.body == b.body
    && a.sender == b.sender && a.sendAt == b.sendAt && a.sequence == b.sequence
    && a.createdAt == b.createdAt
  }

  /**
   * Consuming items never adds or removes rows and changes nothing of a row
   * but its status and `sentAt`; every row an item named ends sent or failed;
   * every row no item named is left as it was.
   */
  lemma {:induction false} ReplayOutcome(jobs: map<JobId, EmailJob>, items: seq<DelayQueue.QueueItem>,
                                         delivered: nat -> bool, clock: nat -> Timestamp)
    ensures Replay(jobs, items, delivered, clock).Keys == jobs.Keys
    ensures forall id :: id in jobs ==> SameContent(Replay(jobs, items, delivered, clock)[id], jobs[id])
    ensures forall id :: id in jobs && Named(items, id) ==>
              Replay(jobs, items, delivered, clock)[id].status != Scheduled
    ensures forall id :: id in jobs && !Named(items, id) ==>
              Replay(jobs, items, delivered, clock)[id] == jobs[id]
  {
    if items != [] {
      var k := |items| - 1;
      var prefix := items[..k];
      ReplayOutcome(jobs, prefix, delivered, clock);
      forall id | id in jobs && Named(items, id)
        ensures Replay(jobs, items, delivered, clock)[id].status != Scheduled
      {
        if id != items[k].jobId {
          var m :| 0 <= m < |items| && items[m].jobId == id;
          assert prefix[m].jobId == id;
        }
      }
      forall id | id in jobs && !Named(items, id)
        ensures Replay(jobs, items, delivered, clock)[id] == jobs[id]
      {
        assert !Named(prefix, id) by {
          forall m | 0 <= m < |prefix| ensures prefix[m].jobId != id {
            assert prefix[m] == items[m];
          }
        }
        assert items[k].jobId != id;
      }
    }
  }

  /**
   * The messages the transport receives while `items` are consumed: one per
   * item whose row exists, built from that row, in item order.
   */
  function Outbox(jobs: map<JobId, EmailJob>, items: seq<DelayQueue.QueueItem>, account: string)
    : seq<Message>
  {
    if items == [] then []
    else
      var k := |items| - 1;
      Outbox(jobs, items[..k], account)
      + (if items[k].jobId in jobs then [BuildMessage(jobs[items[k].jobId], account)] else [])
  }

  /**
   * The worker consuming `items` one after another, `delivered(k)` and
   * `clock(k)` being the transport outcome and the instant of the `k`-th run.
   * Returns the messages handed to the transport.
   */
  method ProcessItems(store: Store.Repository, items: seq<DelayQueue.QueueItem>, account: string,
                      delivered: nat -> bool, clock: nat -> Timestamp)
    returns (messages: seq<Message>)
    requires store.Valid()
    modifies store
    ensures store.Valid() && store.nextId == old(store.nextId)
    ensures store.jobs == Replay(old(store.jobs), items, delivered, clock)
    ensures messages == Outbox(old(store.jobs), items, account)
  {
    ghost var jobs0 := store.jobs;
    messages := [];
    for k := 0 to |items|
      invariant store.Valid() && store.nextId == old(store.nextId)
      invariant store.jobs == Replay(jobs0, items[..k], delivered, clock)
      invariant messages == Outbox(jobs0, items[..k], account)
    {
      assert items[..k + 1][..k] == items[..k];
      ReplayOutcome(jobs0, items[..k], delivered, clock);
      var attempted := ProcessJob(store, items[k].jobId, account, delivered(k), clock(k));
      if attempted.Some? {
        messages := messages + [attempted.value];
      }
    }
    assert items[..|items|] == items;
  }
}
