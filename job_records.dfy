/**
 The persisted job record (the `background_jobs` table) and the partial
 updates that the command and the controller apply to it.
 */
module JobRecords {

  datatype Option<+T> = None | Some(value: T)

  /** The three values the `status` column takes. There is no queued state. */
  datatype Status = Running | Completed | Failed

  /** One argument of the invoked method. Arguments are opaque here: each is
      kept as the JSON text it was decoded from. */
  type Param = string

  /** A row of `background_jobs` without its id (the id is the store's key)
      and without the store-managed timestamps. */
  datatype JobRecord = JobRecord(
    className: string,
    methodName: string,
    params: seq<Param>,
    priority: int,
    status: Status,
    attempts: nat,
    errorMessage: Option<string>)

  /** The argument of an Eloquent `update([...])` call restricted to the keys
      the core ever writes: `None` leaves that column as it is. Setting
      `errorMessage` to `Some(None)` writes SQL null. */
  datatype Patch = Patch(
    status: Option<Status>,
    attempts: Option<nat>,
    errorMessage: Option<Option<string>>)

  /** The record after an update: the identity columns are never written. */
  function Apply(r: JobRecord, p: Patch): (r': JobRecord)
    ensures r'.className == r.className && r'.methodName == r.methodName
    ensures r'.params == r.params && r'.priority == r.priority
    ensures p.status.None? && p.attempts.None? && p.errorMessage.None? ==> r' == r
  {
    JobRecord(
      r.className, r.methodName, r.params, r.priority,
      if p.status.Some? then p.status.value else r.status,
      if p.attempts.Some? then p.attempts.value else r.attempts,
      if p.errorMessage.Some? then p.errorMessage.value else r.errorMessage)
  }

  function SetAttempts(n: nat): Patch { Patch(None, Some(n), None) }

  function SetStatus(s: Status): Patch { Patch(Some(s), None, None) }

  function SetFailedWith(message: string): Patch { Patch(Some(Failed), None, Some(Some(message))) }
}
