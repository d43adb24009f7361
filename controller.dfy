/**
 The dashboard's `cancel` and `retry` actions: guarded in-place updates of
 one record. The redirect is reduced to the flash message it carries.
 */
module BackgroundJobController {
  import opened JobRecords
  import opened JobStore
  import opened RunBackgroundJob

  /** `back()->with('status', ...)` or `back()->with('error', ...)`. */
  datatype Flash = FlashStatus(text: string) | FlashError(text: string)

  const CancelMessage: string := "Job was manually canceled."

  /** `['status' => 'failed', 'error_message' => 'Job was manually canceled.']` */
  const CancelPatch: Patch := Patch(Some(Failed), None, Some(Some(CancelMessage)))

  /** `['status' => 'running', 'attempts' => 0, 'error_message' => null]` */
  const RetryPatch: Patch := Patch(Some(Running), Some(0), Some(None))

  predicate CanCancel(jobs: map<int, JobRecord>, id: int)
  {
    id in jobs && jobs[id].status == Running
  }

  predicate CanRetry(jobs: map<int, JobRecord>, id: int)
  {
    id in jobs && jobs[id].status == Failed
  }

  /** `cancel`: a running record becomes failed with the cancel message;
      anything else (missing id, completed or failed record) is refused and
      the store is left as it was. */
  method Cancel(store: Store, id: int) returns (flash: Flash)
    requires store.Valid()
    modifies store
    ensures store.Valid() && store.nextId == old(store.nextId)
    ensures CanCancel(old(store.jobs), id) ==>
              store.jobs == old(store.jobs)[id := Apply(old(store.jobs)[id], CancelPatch)]
              && store.log == old(store.log) + [Persisted(CancelPatch)]
              && flash == FlashStatus("Job canceled successfully")
    ensures !CanCancel(old(store.jobs), id) ==>
              store.jobs == old(store.jobs) && store.log == old(store.log)
              && flash == FlashError("Job could not be canceled")
  {
    var job := store.Find(id);
    if job.Some? && job.value.status == Running {
      store.Update(id, CancelPatch);
      return FlashStatus("Job canceled successfully");
    }
    return FlashError("Job could not be canceled");
  }

  /** `retry`: a failed record is reset to running with no attempts and no
      message; the stored class is then instantiated and dispatched when it
      exists. Success is reported either way. Anything else is refused and
      the store is left as it was. */
  method Retry(store: Store, reg: Registry, id: int) returns (flash: Flash, dispatched: bool)
    requires store.Valid()
    modifies store
    ensures store.Valid() && store.nextId == old(store.nextId)
    ensures CanRetry(old(store.jobs), id) ==>
              store.jobs == old(store.jobs)[id := Apply(old(store.jobs)[id], RetryPatch)]
              && store.log == old(store.log) + [Persisted(RetryPatch)]
              && flash == FlashStatus("Job reattempted successfully")
              && dispatched == (old(store.jobs)[id].className in reg.classes)
    ensures !CanRetry(old(store.jobs), id) ==>
              store.jobs == old(store.jobs) && store.log == old(store.log)
              && flash == FlashError("Job could not be retried") && !dispatched
  {
    var job := store.Find(id);
    if job.Some? && job.value.status == Failed {
      store.Update(id, RetryPatch);
      dispatched := job.value.className in reg.classes;
      return FlashStatus("Job reattempted successfully"), dispatched;
    }
    return FlashError("Job could not be retried"), false;
  }

  /** `retry` as the allow-list evidently intends it: the same store update
      and response, but only an allow-listed class is ever instantiated. */
  method RetryAllowListed(store: Store, reg: Registry, id: int) returns (flash: Flash, dispatched: bool)
    requires store.Valid()
    modifies store
    ensures store.Valid() && store.nextId == old(store.nextId)
    ensures CanRetry(old(store.jobs), id) ==>
              store.jobs == old(store.jobs)[id := Apply(old(store.jobs)[id], RetryPatch)]
              && store.log == old(store.log) + [Persisted(RetryPatch)]
              && flash == FlashStatus("Job reattempted successfully")
              && dispatched == (old(store.jobs)[id].className in reg.classes && IsClassAllowed(old(store.jobs)[id].className))
    ensures !CanRetry(old(store.jobs), id) ==>
              store.jobs == old(store.jobs) && store.log == old(store.log)
              && flash == FlashError("Job could not be retried") && !dispatched
    ensures dispatched ==> id in old(store.jobs) && IsClassAllowed(old(store.jobs)[id].className)
  {
    var job := store.Find(id);
    if job.Some? && job.value.status == Failed {
      store.Update(id, RetryPatch);
      dispatched := job.value.className in reg.classes && IsClassAllowed(job.value.className);
      return FlashStatus("Job reattempted successfully"), dispatched;
    }
    return FlashError("Job could not be retried"), false;
  }

  /** Cancelling changes only status and message; attempts and the job's
      identity (class, method, params, priority) are kept. */
  lemma CancelChangesOnlyStatusAndMessage(r: JobRecord)
    ensures Apply(r, CancelPatch) == r.(status := Failed, errorMessage := Some("Job was manually canceled."))
  {
  }

  /** Retrying resets attempts to 0 whatever they were, clears the message,
      and keeps the job's identity. */
  lemma RetryResetsAttempts(r: JobRecord)
    ensures Apply(r, RetryPatch) == r.(status := Running, attempts := 0, errorMessage := None)
  {
  }
}
