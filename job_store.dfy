/**
 The record store behind the `BackgroundJob` model: an auto-increment table
 of job records. Records are created and updated in place, never deleted.
 */
module JobStore {
  import opened JobRecords

  /** One entry of the store's journal: an insert, an update, or one of the
      things the command does between writes (the pre-run `sleep`, a call of
      the target in a given attempt). */
  datatype Event =
    | Created(record: JobRecord)
    | Persisted(patch: Patch)
    | Slept(seconds: int)
    | Invoked(attempt: nat)

  class Store {
    /** The table, keyed by id. */
    var jobs: map<int, JobRecord>
    /** The id the next insert receives. */
    var nextId: int
    /** Every create and update call made on the table, in order (an update
        that changes no attribute still appears, though Eloquent then sends
        no query), interleaved with the sleeps and calls of the command that
        made them. */
    ghost var log: seq<Event>

    /** Every stored id was handed out earlier, so a new id is always fresh. */
    ghost predicate Valid()
      reads this
    {
      1 <= nextId && forall id :: id in jobs ==> 1 <= id < nextId
    }

    constructor ()
      ensures Valid() && jobs == map[] && nextId == 1 && log == []
    {
      jobs := map[];
      nextId := 1;
      log := [];
    }

    /** `BackgroundJob::create`: inserts one record under a fresh id. */
    method Create(r: JobRecord) returns (id: int)
      requires Valid()
      modifies this
      ensures Valid()
      ensures id == old(nextId) && id !in old(jobs) && nextId == old(nextId) + 1
      ensures jobs == old(jobs)[id := r]
      ensures log == old(log) + [Created(r)]
    {
      id := nextId;
      jobs := jobs[id := r];
      nextId := nextId + 1;
      log := log + [Created(r)];
    }

    /** `BackgroundJob::find`: the record stored under `id`, or null. */
    method Find(id: int) returns (r: Option<JobRecord>)
      ensures r.Some? <==> id in jobs
      ensures r.Some? ==> r.value == jobs[id]
    {
      r := if id in jobs then Some(jobs[id]) else None;
    }

    /** `$job->update([...])` on a record that exists. */
    method Update(id: int, p: Patch)
      requires Valid() && id in jobs
      modifies this
      ensures Valid() && nextId == old(nextId)
      ensures jobs == old(jobs)[id := Apply(old(jobs)[id], p)]
      ensures log == old(log) + [Persisted(p)]
    {
      jobs := jobs[id := Apply(jobs[id], p)];
      log := log + [Persisted(p)];
    }
  }
}
