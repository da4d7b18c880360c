/**
 * The `EmailJob` repository: a table of rows keyed by a generated primary key,
 * with create, fetch-by-id and save. The list queries live in `Queries`.
 */
module Store {
  import opened Wrappers
  import opened Jobs

  /** Every row sits under its own primary key. */
  ghost predicate Keyed(jobs: map<JobId, EmailJob>)
  {
    forall id :: id in jobs ==> jobs[id].id == id
  }

  class Repository {
    /** The table, by primary key. */
    var jobs: map<JobId, EmailJob>
    /** The key the next insert receives; every key in use lies below it. */
    var nextId: JobId

    ghost predicate Valid()
      reads this
    {
      && Keyed(jobs)
      && forall id :: id in jobs ==> id < nextId
    }

    constructor ()
      ensures Valid() && jobs == map[]
    {
      jobs := map[];
      nextId := 0;
    }

    /**
     * `repo.save` of an entity built by `repo.create`: the row is inserted
     * under a freshly generated key, with the column defaults applied.
     */
    method Insert(draft: NewJob, now: Timestamp) returns (saved: EmailJob)
      requires Valid()
      modifies this
      ensures Valid()
      ensures saved.id !in old(jobs) && saved.id == old(nextId)
      ensures saved == Persist(draft, saved.id, now)
      ensures jobs == old(jobs)[saved.id := saved]
      ensures nextId == old(nextId) + 1
    {
      saved := Persist(draft, nextId, now);
      jobs := jobs[nextId := saved];
      nextId := nextId + 1;
    }

    /** `repo.save` of an entity that carries its key: that row is written, no other. */
    method Save(job: EmailJob)
      requires Valid()
      modifies this
      ensures Valid()
      ensures jobs == old(jobs)[job.id := job]
      ensures nextId == if job.id < old(nextId) then old(nextId) else job.id + 1
    {
      jobs := jobs[job.id := job];
      if nextId <= job.id {
        nextId := job.id + 1;
      }
    }

    /** `repo.findOneBy({id})`: the row under `id`, or null. */
    function FindOneBy(id: JobId): (r: Option<EmailJob>)
      reads this
      ensures r.Some? <==> id in jobs
      ensures r.Some? ==> r.value == jobs[id]
      ensures Valid() && r.Some? ==> r.value.id == id
    {
      if id in jobs then Some(jobs[id]) else None
    }
  }
}
