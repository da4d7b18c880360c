/**
 * The two read endpoints, `GET /api/scheduled` and `GET /api/sent`: a
 * `repo.find` that keeps the caller's rows with one status and orders them by
 * one timestamp column.
 */
module Queries {
  import opened Wrappers
  import opened Jobs
  import Store

  /** The two orderings the endpoints ask for. */
  datatype Order = SendAtAsc | SentAtDesc

  /**
   * `a` may be listed before `b`. For `sentAt` descending a null `sentAt`
   * sorts first, as PostgreSQL orders nulls in a descending sort.
   */
  predicate Precedes(order: Order, a: EmailJob, b: EmailJob)
  {
    match order
    case SendAtAsc => a.sendAt <= b.sendAt
    case SentAtDesc => a.sentAt.None? || (b.sentAt.Some? && a.sentAt.value >= b.sentAt.value)
  }

  /** Both orderings are total preorders. */
  lemma PrecedesTotalPreorder(order: Order, a: EmailJob, b: EmailJob, c: EmailJob)
    ensures Precedes(order, a, a)
    ensures Precedes(order, a, b) || Precedes(order, b, a)
    ensures Precedes(order, a, b) && Precedes(order, b, c) ==> Precedes(order, a, c)
  {
  }

  predicate SortedBy(order: Order, s: seq<EmailJob>)
  {
    forall i, j :: 0 <= i < j < |s| ==> Precedes(order, s[i], s[j])
  }

  /** No row is listed twice. */
  predicate Distinct(s: seq<EmailJob>)
  {
    forall i, j :: 0 <= i < j < |s| ==> s[i] != s[j]
  }

  // ---------------------------------------------------------------------------
  // The table scan

  /**
   * The rows of the table in the unspecified order a scan returns them: each
   * row once, in an order the model does not fix.
   */
  ghost function Rows(jobs: map<JobId, EmailJob>): seq<EmailJob>
    decreases |jobs|
  {
    if jobs == map[] then []
    else
      var id :| id in jobs;
      assert |jobs - {id}| < |jobs| by {
        assert (jobs - {id}).Keys == jobs.Keys - {id};
      }
      [jobs[id]] + Rows(jobs - {id})
  }

  /** The first row of a non-empty scan, and the table the rest of the scan covers. */
  lemma RowsUnfold(jobs: map<JobId, EmailJob>) returns (id: JobId)
    requires jobs != map[]
    ensures id in jobs
    ensures Rows(jobs) == [jobs[id]] + Rows(jobs - {id})
    ensures (jobs - {id}).Keys == jobs.Keys - {id}
    ensures |jobs - {id}| == |jobs| - 1
  {
    id :| id in jobs && Rows(jobs) == [jobs[id]] + Rows(jobs - {id});
    assert (jobs - {id}).Keys == jobs.Keys - {id};
  }

  /** The scan returns every row of the table and nothing else. */
  lemma {:induction false} RowsOfTable(jobs: map<JobId, EmailJob>)
    ensures |Rows(jobs)| == |jobs|
    ensures forall j :: j in Rows(jobs) <==> j in jobs.Values
    decreases |jobs|
  {
    if jobs != map[] {
      var id := RowsUnfold(jobs);
      var rest := jobs - {id};
      RowsOfTable(rest);
      forall j | j in jobs.Values ensures j in Rows(jobs) {
        var k :| k in jobs && jobs[k] == j;
        if k != id {
          assert k in rest;
        }
      }
      forall j | j in Rows(jobs) ensures j in jobs.Values {
        if j != jobs[id] {
          assert j in rest.Values;
          var k :| k in rest && rest[k] == j;
          assert k in jobs;
        }
      }
    }
  }

  /** When every row sits under its own key, the scan lists no row twice. */
  lemma {:induction false} RowsDistinct(jobs: map<JobId, EmailJob>)
    requires Store.Keyed(jobs)
    ensures Distinct(Rows(jobs))
    decreases |jobs|
  {
    if jobs != map[] {
      var id := RowsUnfold(jobs);
      var rest := jobs - {id};
      RowsDistinct(rest);
      RowsOfTable(rest);
      var r := Rows(jobs);
      forall i, j | 0 <= i < j < |r| ensures r[i] != r[j] {
        if i == 0 {
          assert r[j] in Rows(rest);
          var k :| k in rest && rest[k] == r[j];
          assert r[j].id == k;
        } else {
          assert r[i] == Rows(rest)[i - 1] && r[j] == Rows(rest)[j - 1];
        }
      }
    }
  }

  // ---------------------------------------------------------------------------
  // The filter

  /**
   * The `where: {sender, status}` clause, keeping scan order. The status is
   * matched as the text stored in the column.
   */
  function Where(rows: seq<EmailJob>, sender: string, status: string): (r: seq<EmailJob>)
    ensures |r| <= |rows|
    ensures forall j :: j in r <==> j in rows && j.sender == sender && StatusName(j.status) == status
    ensures Distinct(rows) ==> Distinct(r)
  {
    if rows == [] then []
    else
      var rest := Where(rows[1..], sender, status);
      if rows[0].sender == sender && StatusName(rows[0].status) == status then
        assert forall j :: j in rest ==> j in rows[1..];
        [rows[0]] + rest
      else
        rest
  }

  // ---------------------------------------------------------------------------
  // The ordering

  /** Puts `x` in front of the first element it may precede. */
  function Insert(order: Order, x: EmailJob, s: seq<EmailJob>): seq<EmailJob>
  {
    if s == [] then [x]
    else if Precedes(order, x, s[0]) then [x] + s
    else [s[0]] + Insert(order, x, s[1..])
  }

  /** The `order` clause, as an insertion sort. */
  function Sort(order: Order, s: seq<EmailJob>): seq<EmailJob>
  {
    if s == [] then [] else Insert(order, s[0], Sort(order, s[1..]))
  }

  /** Inserting adds `x` and keeps every element already there. */
  lemma {:induction false} InsertMembers(order: Order, x: EmailJob, s: seq<EmailJob>)
    ensures multiset(Insert(order, x, s)) == multiset(s) + multiset{x}
    ensures forall y :: y in Insert(order, x, s) <==> y == x || y in s
  {
    if s != [] && !Precedes(order, x, s[0]) {
      InsertMembers(order, x, s[1..]);
      assert s == [s[0]] + s[1..];
    }
  }

  /** An element that precedes every element of a sorted sequence may be put in front of it. */
  lemma PrependSorted(order: Order, x: EmailJob, s: seq<EmailJob>)
    requires SortedBy(order, s)
    requires forall y :: y in s ==> Precedes(order, x, y)
    ensures SortedBy(order, [x] + s)
  {
    var r := [x] + s;
    forall i, j | 0 <= i < j < |r| ensures Precedes(order, r[i], r[j]) {
      if i == 0 {
        assert r[j] == s[j - 1];
      } else {
        assert r[i] == s[i - 1] && r[j] == s[j - 1];
      }
    }
  }

  /** Inserting into a sorted sequence keeps it sorted. */
  lemma {:induction false} InsertSorted(order: Order, x: EmailJob, s: seq<EmailJob>)
    requires SortedBy(order, s)
    ensures SortedBy(order, Insert(order, x, s))
  {
    if s == [] {
    } else if Precedes(order, x, s[0]) {
      forall y | y in s ensures Precedes(order, x, y) {
        var k :| 0 <= k < |s| && s[k] == y;
        if k > 0 {
          PrecedesTotalPreorder(order, x, s[0], y);
        }
      }
      PrependSorted(order, x, s);
    } else {
      var tail := s[1..];
      var rest := Insert(order, x, tail);
      assert SortedBy(order, tail);
      InsertSorted(order, x, tail);
      InsertMembers(order, x, tail);
      PrecedesTotalPreorder(order, x, s[0], x);
      forall y | y in rest ensures Precedes(order, s[0], y) {
        if y != x {
          var k :| 0 <= k < |tail| && tail[k] == y;
          assert s[k + 1] == y;
        }
      }
      PrependSorted(order, s[0], rest);
    }
  }

  /** Inserting an element that is not there yet into a sequence without repeats creates none. */
  lemma {:induction false} InsertDistinct(order: Order, x: EmailJob, s: seq<EmailJob>)
    requires Distinct(s) && x !in s
    ensures Distinct(Insert(order, x, s))
  {
    if s != [] && !Precedes(order, x, s[0]) {
      assert Distinct(s[1..]);
      InsertDistinct(order, x, s[1..]);
      InsertMembers(order, x, s[1..]);
      var r := Insert(order, x, s);
      var rest := Insert(order, x, s[1..]);
      forall i, j | 0 <= i < j < |r| ensures r[i] != r[j] {
        if i == 0 {
          assert r[j] in rest;
          assert s[0] !in s[1..];
        } else {
          assert r[i] == rest[i - 1] && r[j] == rest[j - 1];
        }
      }
    }
  }

  /** The sorted list is ordered and holds exactly the rows it was given. */
  lemma {:induction false} SortCorrect(order: Order, s: seq<EmailJob>)
    ensures SortedBy(order, Sort(order, s))
    ensures multiset(Sort(order, s)) == multiset(s)
    ensures Distinct(s) ==> Distinct(Sort(order, s))
  {
    if s != [] {
      var sorted := Sort(order, s[1..]);
      SortCorrect(order, s[1..]);
      InsertMembers(order, s[0], sorted);
      InsertSorted(order, s[0], sorted);
      assert s == [s[0]] + s[1..];
      if Distinct(s) {
        assert Distinct(s[1..]);
        assert s[0] !in s[1..];
        assert s[0] !in multiset(sorted);
        InsertDistinct(order, s[0], sorted);
      }
    }
  }

  // ---------------------------------------------------------------------------
  // The endpoints

  /**
   * `repo.find({where: {sender, status}, order})`: the scanned rows, filtered
   * and then sorted.
   */
  ghost function Find(jobs: map<JobId, EmailJob>, sender: string, status: string, order: Order)
    : seq<EmailJob>
  {
    Sort(order, Where(Rows(jobs), sender, status))
  }

  /** A find returns exactly the sender's rows with that status, ordered, each row once. */
  lemma FindCorrect(jobs: map<JobId, EmailJob>, sender: string, status: string, order: Order)
    ensures SortedBy(order, Find(jobs, sender, status, order))
    ensures forall j :: j in Find(jobs, sender, status, order)
                        <==> j in jobs.Values && j.sender == sender && StatusName(j.status) == status
    ensures Store.Keyed(jobs) ==> Distinct(Find(jobs, sender, status, order))
  {
    var scanned := Where(Rows(jobs), sender, status);
    RowsOfTable(jobs);
    SortCorrect(order, scanned);
    forall j ensures j in Find(jobs, sender, status, order) <==> j in scanned {
      assert j in multiset(Find(jobs, sender, status, order)) <==> j in multiset(scanned);
    }
    if Store.Keyed(jobs) {
      RowsDistinct(jobs);
    }
  }

  /** `GET /api/scheduled`: the caller's scheduled rows, earliest `sendAt` first. */
  ghost function ListScheduled(jobs: map<JobId, EmailJob>, sender: string): (r: seq<EmailJob>)
    ensures forall i, j :: 0 <= i < j < |r| ==> r[i].sendAt <= r[j].sendAt
    ensures forall j :: j in r <==> j in jobs.Values && j.sender == sender && j.status == Scheduled
    ensures Store.Keyed(jobs) ==> Distinct(r)
  {
    FindCorrect(jobs, sender, "scheduled", SendAtAsc);
    StatusTextMatches("scheduled");
    Find(jobs, sender, "scheduled", SendAtAsc)
  }

  /** `GET /api/sent`: the caller's sent rows, latest `sentAt` first. */
  ghost function ListSent(jobs: map<JobId, EmailJob>, sender: string): (r: seq<EmailJob>)
    ensures SortedBy(SentAtDesc, r)
    ensures forall i, j :: 0 <= i < j < |r| && r[j].sentAt.Some? ==>
              r[i].sentAt.Some? ==> r[i].sentAt.value >= r[j].sentAt.value
    ensures forall j :: j in r <==> j in jobs.Values && j.sender == sender && j.status == Sent
    ensures Store.Keyed(jobs) ==> Distinct(r)
  {
    FindCorrect(jobs, sender, "sent", SentAtDesc);
    StatusTextMatches("sent");
    Find(jobs, sender, "sent", SentAtDesc)
  }
}
