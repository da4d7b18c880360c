/**
 * The producer and the consumer together: the rows and items one scheduling
 * call adds, followed by the worker consuming those items.
 */
module Pipeline {
  import opened Jobs
  import Scheduler
  import Worker
  import Queries

  /** Every row of the campaign is named by one of its items. */
  lemma CampaignRowsNamed(c: Scheduler.Campaign, firstId: JobId, appNow: nat -> Timestamp, n: nat)
    ensures forall i :: 0 <= i < n ==>
              Worker.Named(Scheduler.CampaignItems(c, firstId, appNow, n), Scheduler.JobKey(firstId, i))
  {
    var items := Scheduler.CampaignItems(c, firstId, appNow, n);
    forall i | 0 <= i < n ensures Worker.Named(items, Scheduler.JobKey(firstId, i)) {
      assert items[i].jobId == Scheduler.JobKey(firstId, i);
    }
  }

  /** No item of the campaign names a row older than the campaign. */
  lemma OlderRowsNotNamed(c: Scheduler.Campaign, firstId: JobId, appNow: nat -> Timestamp, n: nat)
    ensures forall id: JobId :: id < firstId ==> !Worker.Named(Scheduler.CampaignItems(c, firstId, appNow, n), id)
  {
    var items := Scheduler.CampaignItems(c, firstId, appNow, n);
    forall id: JobId | id < firstId ensures !Worker.Named(items, id) {
      forall k | 0 <= k < |items| ensures items[k].jobId != id {
        assert items[k].jobId == Scheduler.JobKey(firstId, k);
      }
    }
  }

  /** A row that is not scheduled is not listed as scheduled. */
  lemma NotListedUnlessScheduled(jobs: map<JobId, EmailJob>, sender: string, j: EmailJob)
    requires j.status != Scheduled
    ensures j !in Queries.ListScheduled(jobs, sender)
  {
  }

  /** After the campaign's items are consumed, no row of the campaign is still scheduled. */
  lemma CampaignRowsAttempted(jobs: map<JobId, EmailJob>, c: Scheduler.Campaign, emails: seq<string>,
                              firstId: JobId, dbNow: nat -> Timestamp, appNow: nat -> Timestamp,
                              delivered: nat -> bool, clock: nat -> Timestamp, i: nat)
    requires forall id :: id in jobs ==> id < firstId
    requires i < |emails|
    ensures var before := jobs + Scheduler.CampaignRows(c, emails, firstId, dbNow, |emails|);
      var after := Worker.Replay(before, Scheduler.CampaignItems(c, firstId, appNow, |emails|),
                                 delivered, clock);
      && Scheduler.JobKey(firstId, i) in after
      && after[Scheduler.JobKey(firstId, i)].status != Scheduled
      && after[Scheduler.JobKey(firstId, i)].email == emails[i]
      && after[Scheduler.JobKey(firstId, i)].sequence == i
  {
    var n := |emails|;
    var rows := Scheduler.CampaignRows(c, emails, firstId, dbNow, n);
    var before := jobs + rows;
    var items := Scheduler.CampaignItems(c, firstId, appNow, n);
    var key := Scheduler.JobKey(firstId, i);
    Worker.ReplayOutcome(before, items, delivered, clock);
    CampaignRowsNamed(c, firstId, appNow, n);
    Scheduler.CampaignRowAt(c, emails, firstId, dbNow, n, i);
    assert before[key] == rows[key];
  }

  /** Consuming the campaign's items leaves the rows that were there before it alone. */
  lemma OlderRowsKept(jobs: map<JobId, EmailJob>, c: Scheduler.Campaign, emails: seq<string>,
                      firstId: JobId, dbNow: nat -> Timestamp, appNow: nat -> Timestamp,
                      delivered: nat -> bool, clock: nat -> Timestamp)
    requires forall id :: id in jobs ==> id < firstId
    ensures var before := jobs + Scheduler.CampaignRows(c, emails, firstId, dbNow, |emails|);
      var after := Worker.Replay(before, Scheduler.CampaignItems(c, firstId, appNow, |emails|),
                                 delivered, clock);
      && after.Keys == before.Keys
      && forall id :: id in jobs ==> after[id] == jobs[id]
  {
    var n := |emails|;
    var rows := Scheduler.CampaignRows(c, emails, firstId, dbNow, n);
    var before := jobs + rows;
    var items := Scheduler.CampaignItems(c, firstId, appNow, n);
    Scheduler.CampaignRowsKeys(c, emails, firstId, dbNow, n);
    Worker.ReplayOutcome(before, items, delivered, clock);
    OlderRowsNotNamed(c, firstId, appNow, n);
    forall id | id in jobs ensures before[id] == jobs[id] {
      assert id !in rows;
    }
  }

  /**
   * Once the worker has consumed every item of a campaign, each of its rows
   * has been attempted: it is sent or failed, still addressed to its recipient
   * with its sequence number, and no longer listed as scheduled. Rows that
   * were in the table before the campaign are left as they were.
   */
  lemma CampaignDrained(jobs: map<JobId, EmailJob>, c: Scheduler.Campaign, emails: seq<string>,
                        firstId: JobId, dbNow: nat -> Timestamp, appNow: nat -> Timestamp,
                        delivered: nat -> bool, clock: nat -> Timestamp)
    requires forall id :: id in jobs ==> id < firstId
    ensures var before := jobs + Scheduler.CampaignRows(c, emails, firstId, dbNow, |emails|);
      var after := Worker.Replay(before, Scheduler.CampaignItems(c, firstId, appNow, |emails|),
                                 delivered, clock);
      && after.Keys == before.Keys
      && (forall i :: 0 <= i < |emails| ==>
            && Scheduler.JobKey(firstId, i) in after
            && after[Scheduler.JobKey(firstId, i)].status != Scheduled
            && after[Scheduler.JobKey(firstId, i)].email == emails[i]
            && after[Scheduler.JobKey(firstId, i)].sequence == i
            && after[Scheduler.JobKey(firstId, i)] !in Queries.ListScheduled(after, c.sender))
      && (forall id :: id in jobs ==> after[id] == jobs[id])
  {
    var before := jobs + Scheduler.CampaignRows(c, emails, firstId, dbNow, |emails|);
    var after := Worker.Replay(before, Scheduler.CampaignItems(c, firstId, appNow, |emails|),
                               delivered, clock);
    OlderRowsKept(jobs, c, emails, firstId, dbNow, appNow, delivered, clock);
    forall i | 0 <= i < |emails|
      ensures Scheduler.JobKey(firstId, i) in after
      ensures after[Scheduler.JobKey(firstId, i)].status != Scheduled
      ensures after[Scheduler.JobKey(firstId, i)].email == emails[i]
      ensures after[Scheduler.JobKey(firstId, i)].sequence == i
      ensures after[Scheduler.JobKey(firstId, i)] !in Queries.ListScheduled(after, c.sender)
    {
      CampaignRowsAttempted(jobs, c, emails, firstId, dbNow, appNow, delivered, clock, i);
      NotListedUnlessScheduled(after, c.sender, after[Scheduler.JobKey(firstId, i)]);
    }
  }
}
