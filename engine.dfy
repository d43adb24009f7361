/**
 The `app:background-job` console command: the allow-list gate, record
 creation, and the bounded retry loop that drives one job record to
 `completed` or `failed`.

 What the outside world supplies is made explicit: `class_exists` and
 `method_exists` are lookups in a `Registry`; calling the target method is
 an oracle `outs` whose k-th entry is what the k-th call would do (return,
 or raise an exception with a message); `sleep` and each call of the
 target are recorded in the store's journal next to its writes.
 */
module RunBackgroundJob {
  import opened JobRecords
  import opened JobStore
  import opened CommandOptions

  const MaxRetries: nat := 3

  /** The classes the command may run, compared with `in_array`. Both sides
      are strings and the one entry is not numeric, so PHP's loose comparison
      is plain string equality here. */
  const AllowedClasses: seq<string> := [ExampleJob]

  /** The one class on the allow-list. */
  const ExampleJob: string := "App\\Jobs\\ExampleJob"

  /** What `class_exists` and `method_exists` answer. How names are matched
      (PHP class and method names are case-insensitive, autoloading) is the
      registry's business. */
  datatype Registry = Registry(classes: set<string>, methods: set<(string, string)>)

  /** What one call of the target method does: it returns, or it throws an
      `Exception` with a message, which the loop catches. A PHP `Error`
      (such as a wrong argument count) is not an `Exception` and is not
      caught; that case is outside this model. */
  datatype Outcome = Returned | Raised(message: string)

  // ---------------------------------------------------------------------
  // The allow-list gate

  /** `isClassAllowed`: exact membership in the allow-list. */
  function IsClassAllowed(className: string): bool
  {
    className in AllowedClasses
  }

  /** Exactly one name passes the gate: no prefix, suffix or wildcard match. */
  lemma AllowListIsExact(className: string, extra: string)
    requires extra != []
    ensures IsClassAllowed(className) <==> className == ExampleJob
    ensures IsClassAllowed(className) ==> !IsClassAllowed(className + extra) && !IsClassAllowed(extra + className)
  {
    if IsClassAllowed(className) {
      assert |className + extra| > |className|;
      assert |extra + className| > |className|;
    }
  }

  // ---------------------------------------------------------------------
  // Records the command creates

  /** The record `createJobRecord` inserts for an allowed class. */
  function RunningRecord(className: string, methodName: string, params: seq<Param>, priority: int): JobRecord
  {
    JobRecord(className, methodName, params, priority, Running, 0, None)
  }

  function UnauthorizedMessage(className: string): string
  {
    "Unauthorized class: " + className
  }

  /** The record `logUnauthorizedClassError` inserts for a rejected class. */
  function UnauthorizedRecord(className: string, methodName: string, params: seq<Param>, priority: int): JobRecord
  {
    JobRecord(className, methodName, params, priority, Failed, 1, Some(UnauthorizedMessage(className)))
  }

  /** `logUnauthorizedClassError`: one new record, already failed. */
  method LogUnauthorizedClassError(store: Store, className: string, methodName: string, params: seq<Param>, priority: int)
    returns (id: int)
    requires store.Valid()
    modifies store
    ensures store.Valid() && id == old(store.nextId) && id !in old(store.jobs) && store.nextId == id + 1
    ensures store.jobs == old(store.jobs)[id := UnauthorizedRecord(className, methodName, params, priority)]
    ensures store.log == old(store.log) + [Created(UnauthorizedRecord(className, methodName, params, priority))]
  {
    id := store.Create(UnauthorizedRecord(className, methodName, params, priority));
  }

  /** `createJobRecord`: one new record, running, with no attempt made. */
  method CreateJobRecord(store: Store, className: string, methodName: string, params: seq<Param>, priority: int)
    returns (id: int)
    requires store.Valid()
    modifies store
    ensures store.Valid() && id == old(store.nextId) && id !in old(store.jobs) && store.nextId == id + 1
    ensures store.jobs == old(store.jobs)[id := RunningRecord(className, methodName, params, priority)]
    ensures store.log == old(store.log) + [Created(RunningRecord(className, methodName, params, priority))]
  {
    id := store.Create(RunningRecord(className, methodName, params, priority));
  }

  // ---------------------------------------------------------------------
  // One attempt

  /** `validateClassAndMethod`: the message of the exception it throws, or
      `None` when both lookups succeed. The class is checked first. */
  function ValidateClassAndMethod(reg: Registry, className: string, methodName: string): (failure: Option<string>)
    ensures failure.None? <==> className in reg.classes && (className, methodName) in reg.methods
    ensures className !in reg.classes ==> failure == Some("Class " + className + " not found")
  {
    if className !in reg.classes then Some("Class " + className + " not found")
    else if (className, methodName) !in reg.methods then Some("Method " + methodName + " not found in " + className)
    else None
  }

  /** Both lookups succeed, so the attempt goes on to call the target. */
  predicate Resolvable(reg: Registry, className: string, methodName: string)
  {
    ValidateClassAndMethod(reg, className, methodName).None?
  }

  /** What one pass through the `try` block ends with: the validation
      exception if there is one, else what the call does. */
  function AttemptResult(reg: Registry, className: string, methodName: string, call: Outcome): (o: Outcome)
    ensures Resolvable(reg, className, methodName) ==> o == call
    ensures className !in reg.classes ==> o == Raised("Class " + className + " not found")
    ensures className in reg.classes && (className, methodName) !in reg.methods ==>
              o == Raised("Method " + methodName + " not found in " + className)
  {
    var failure := ValidateClassAndMethod(reg, className, methodName);
    if failure.Some? then Raised(failure.value) else call
  }

  /** The result of every attempt the loop could make. */
  function AttemptResults(reg: Registry, className: string, methodName: string, outs: seq<Outcome>): (rs: seq<Outcome>)
    ensures |rs| == |outs|
    ensures forall i :: 0 <= i < |outs| ==> rs[i] == AttemptResult(reg, className, methodName, outs[i])
  {
    if outs == [] then []
    else AttemptResults(reg, className, methodName, outs[..|outs| - 1])
         + [AttemptResult(reg, className, methodName, outs[|outs| - 1])]
  }

  // ---------------------------------------------------------------------
  // The retry loop, specified

  /** The index of the first attempt that returns, or |rs| if none does. */
  function FirstSuccess(rs: seq<Outcome>): (n: nat)
    ensures n <= |rs|
    ensures forall i :: 0 <= i < n ==> rs[i].Raised?
    ensures n < |rs| ==> rs[n].Returned?
  {
    if rs == [] || rs[0].Returned? then 0 else 1 + FirstSuccess(rs[1..])
  }

  /** How many attempts the loop makes. */
  function AttemptsMade(rs: seq<Outcome>): (n: nat)
    requires |rs| == MaxRetries
    ensures 1 <= n <= MaxRetries
  {
    if FirstSuccess(rs) < MaxRetries then FirstSuccess(rs) + 1 else MaxRetries
  }

  /** The record once the loop is over: completed on the first attempt that
      returns, or failed with the last message after MaxRetries attempts. */
  function Settled(r0: JobRecord, rs: seq<Outcome>): JobRecord
    requires |rs| == MaxRetries
  {
    if FirstSuccess(rs) < MaxRetries then r0.(attempts := AttemptsMade(rs), status := Completed)
    else r0.(attempts := MaxRetries, status := Failed, errorMessage := Some(rs[MaxRetries - 1].message))
  }

  /** The record after `k` attempts that all raised. */
  ghost function AfterFailures(r0: JobRecord, rs: seq<Outcome>, k: nat): JobRecord
    requires |rs| == MaxRetries && k <= MaxRetries
    requires forall i :: 0 <= i < k ==> rs[i].Raised?
  {
    if k == 0 then r0
    else if k < MaxRetries then r0.(attempts := k)
    else r0.(attempts := k, status := Failed, errorMessage := Some(rs[k - 1].message))
  }

  /** The log of attempt k: persist the count, call the target if it
      resolves, then persist `completed`, or `failed` with the message on the
      last attempt. */
  function AttemptEvents(resolvable: bool, k: nat, result: Outcome): seq<Event>
  {
    [Persisted(SetAttempts(k))]
    + (if resolvable then [Invoked(k)] else [])
    + (if result.Returned? then [Persisted(SetStatus(Completed))]
       else if k >= MaxRetries then [Persisted(SetFailedWith(result.message))]
       else [])
  }

  /** The record after attempt k with the given result: the count is k,
      and a return completes it, while a raise on the last attempt fails it
      with the message. */
  function AfterAttempt(r: JobRecord, k: nat, result: Outcome): JobRecord
  {
    if result.Returned? then r.(attempts := k, status := Completed)
    else if k >= MaxRetries then r.(attempts := k, status := Failed, errorMessage := Some(result.message))
    else r.(attempts := k)
  }

  /** The log of attempts 1 to n. */
  function LoopEvents(resolvable: bool, rs: seq<Outcome>, n: nat): seq<Event>
    requires n <= |rs|
  {
    if n == 0 then [] else LoopEvents(resolvable, rs, n - 1) + AttemptEvents(resolvable, n, rs[n - 1])
  }

  /** The log of `executeJobWithRetries`, including the update after the
      loop when no attempt returned. */
  function RunEvents(resolvable: bool, rs: seq<Outcome>): seq<Event>
    requires |rs| == MaxRetries
  {
    LoopEvents(resolvable, rs, AttemptsMade(rs))
    + (if FirstSuccess(rs) < MaxRetries then [] else [Persisted(SetStatus(Failed))])
  }

  // ---------------------------------------------------------------------
  // Reading a log back

  /** A record with the updates of a log applied in order. */
  function Replay(r: JobRecord, es: seq<Event>): JobRecord
    decreases |es|
  {
    if es == [] then r
    else Replay(if es[0].Persisted? then Apply(r, es[0].patch) else r, es[1..])
  }

  /** The `attempts` values a log persists, in order. */
  function AttemptsWritten(es: seq<Event>): seq<nat>
  {
    if es == [] then []
    else (if es[0].Persisted? && es[0].patch.attempts.Some? then [es[0].patch.attempts.value] else [])
         + AttemptsWritten(es[1..])
  }

  /** The attempts in which the target was called, in order. */
  function CallsMade(es: seq<Event>): seq<nat>
  {
    if es == [] then []
    else (if es[0].Invoked? then [es[0].attempt] else []) + CallsMade(es[1..])
  }

  /** 1, 2, ..., n. */
  function OneTo(n: nat): (s: seq<nat>)
    ensures |s| == n
    ensures forall i :: 0 <= i < n ==> s[i] == i + 1
  {
    if n == 0 then [] else OneTo(n - 1) + [n]
  }

  // ---------------------------------------------------------------------
  // The retry loop, implemented

  /** `applyDelay`: the wait itself is not modelled, only that it happens
      at this point of the run; the table is not touched. */
  method ApplyDelay(store: Store, seconds: int)
    modifies store
    ensures store.jobs == old(store.jobs) && store.nextId == old(store.nextId)
    ensures store.log == old(store.log) + [Slept(seconds)]
  {
    store.log := store.log + [Slept(seconds)];
  }

  /** `runMethod` in attempt k: the target is called, and what it does is
      the oracle's k-th entry; the table is not touched. */
  method RunMethod(store: Store, k: nat, outs: seq<Outcome>) returns (result: Outcome)
    requires 1 <= k <= |outs|
    modifies store
    ensures result == outs[k - 1]
    ensures store.jobs == old(store.jobs) && store.nextId == old(store.nextId)
    ensures store.log == old(store.log) + [Invoked(k)]
  {
    store.log := store.log + [Invoked(k)];
    result := outs[k - 1];
  }

  /** `handleExecutionError`: logs (not modelled) and, on the last attempt
      only, marks the record failed with the exception's message. */
  method HandleExecutionError(store: Store, id: int, attempt: nat, message: string)
    requires store.Valid() && id in store.jobs
    modifies store
    ensures store.Valid() && store.nextId == old(store.nextId)
    ensures attempt >= MaxRetries ==>
              store.jobs == old(store.jobs)[id := Apply(old(store.jobs)[id], SetFailedWith(message))]
              && store.log == old(store.log) + [Persisted(SetFailedWith(message))]
    ensures attempt < MaxRetries ==> store.jobs == old(store.jobs) && store.log == old(store.log)
  {
    if attempt >= MaxRetries {
      store.Update(id, SetFailedWith(message));
    }
  }

  /** `executeJobWithRetries`: attempt k persists attempts = k before it
      validates and calls; the loop stops at the first call that returns or
      after MaxRetries attempts, and only that one record is written. What
      the journal receives is exactly the run's log `RunEvents`. */
  method ExecuteJobWithRetries(store: Store, id: int, reg: Registry, className: string, methodName: string, outs: seq<Outcome>)
    requires store.Valid() && id in store.jobs
    requires |outs| == MaxRetries
    modifies store
    ensures store.Valid() && store.nextId == old(store.nextId)
    ensures store.jobs == old(store.jobs)[id := Settled(old(store.jobs)[id], AttemptResults(reg, className, methodName, outs))]
    ensures store.log == old(store.log) + RunEvents(Resolvable(reg, className, methodName), AttemptResults(reg, className, methodName, outs))
  {
    ghost var r0 := store.jobs[id];
    ghost var rs := AttemptResults(reg, className, methodName, outs);
    ghost var resolvable := Resolvable(reg, className, methodName);
    var attempt: nat := 0;
    var success := false;
    while attempt < MaxRetries && !success
      invariant store.Valid() && store.nextId == old(store.nextId)
      invariant attempt <= MaxRetries
      invariant success ==> 1 <= attempt && FirstSuccess(rs) == attempt - 1
      invariant !success ==> attempt <= FirstSuccess(rs)
      invariant store.log == old(store.log) + LoopEvents(resolvable, rs, attempt)
      invariant store.jobs == old(store.jobs)[id := if success then Settled(r0, rs) else AfterFailures(r0, rs, attempt)]
    {
      attempt := attempt + 1;
      success := TryAttempt(store, id, reg, className, methodName, outs, attempt);
      assert rs[attempt - 1] == AttemptResult(reg, className, methodName, outs[attempt - 1]);
      AttemptStep(r0, rs, attempt);
      WriteTwice(old(store.jobs), id, AfterFailures(r0, rs, attempt - 1),
                 AfterAttempt(AfterFailures(r0, rs, attempt - 1), attempt, rs[attempt - 1]));
      AppendAssociates(old(store.log), LoopEvents(resolvable, rs, attempt - 1), AttemptEvents(resolvable, attempt, rs[attempt - 1]));
    }
    LoopExit(r0, resolvable, rs, attempt, success);
    if !success {
      store.Update(id, SetStatus(Failed));
      WriteTwice(old(store.jobs), id, AfterFailures(r0, rs, MaxRetries), Apply(AfterFailures(r0, rs, MaxRetries), SetStatus(Failed)));
      AppendAssociates(old(store.log), LoopEvents(resolvable, rs, attempt), [Persisted(SetStatus(Failed))]);
    }
  }

  /** Attempt k after k - 1 failures: a return settles the record, a raise
      leaves it as after k failures. */
  lemma AttemptStep(r0: JobRecord, rs: seq<Outcome>, k: nat)
    requires |rs| == MaxRetries && 1 <= k <= MaxRetries && k - 1 <= FirstSuccess(rs)
    ensures rs[k - 1].Returned? ==> AfterAttempt(AfterFailures(r0, rs, k - 1), k, rs[k - 1]) == Settled(r0, rs)
    ensures rs[k - 1].Raised? ==> k <= FirstSuccess(rs)
                                  && AfterAttempt(AfterFailures(r0, rs, k - 1), k, rs[k - 1]) == AfterFailures(r0, rs, k)
  {
    if rs[k - 1].Returned? {
      assert FirstSuccess(rs) == k - 1;
    }
  }

  /** Where the loop stops: after AttemptsMade attempts, with `success` set
      exactly when some attempt returned; the update after the loop, made
      only when none did, completes the run's log and its settled record. */
  lemma LoopExit(r0: JobRecord, resolvable: bool, rs: seq<Outcome>, attempt: nat, success: bool)
    requires |rs| == MaxRetries && attempt <= MaxRetries
    requires !(attempt < MaxRetries && !success)
    requires success ==> 1 <= attempt && FirstSuccess(rs) == attempt - 1
    requires !success ==> attempt <= FirstSuccess(rs)
    ensures attempt == AttemptsMade(rs)
    ensures success ==> RunEvents(resolvable, rs) == LoopEvents(resolvable, rs, attempt)
    ensures !success ==> attempt == MaxRetries
                         && RunEvents(resolvable, rs) == LoopEvents(resolvable, rs, attempt) + [Persisted(SetStatus(Failed))]
                         && Settled(r0, rs) == Apply(AfterFailures(r0, rs, MaxRetries), SetStatus(Failed))
  {
    if !success {
      FinalFailureIsIdempotent(r0, rs);
    }
  }

  /** One pass of the loop body, the `try` block and its `catch`: persist
      the count, validate, call, then record the outcome. It writes the
      record once or twice and the journal receives that attempt's log. */
  method TryAttempt(store: Store, id: int, reg: Registry, className: string, methodName: string, outs: seq<Outcome>, attempt: nat)
    returns (success: bool)
    requires store.Valid() && id in store.jobs
    requires 1 <= attempt <= |outs|
    modifies store
    ensures store.Valid() && store.nextId == old(store.nextId)
    ensures success == AttemptResult(reg, className, methodName, outs[attempt - 1]).Returned?
    ensures store.jobs == old(store.jobs)[id := AfterAttempt(old(store.jobs)[id], attempt,
                                                             AttemptResult(reg, className, methodName, outs[attempt - 1]))]
    ensures store.log == old(store.log) + AttemptEvents(Resolvable(reg, className, methodName), attempt,
                                                        AttemptResult(reg, className, methodName, outs[attempt - 1]))
  {
    store.Update(id, SetAttempts(attempt));
    var failure := ValidateClassAndMethod(reg, className, methodName);
    var result: Outcome;
    if failure.Some? {
      result := Raised(failure.value);
    } else {
      result := RunMethod(store, attempt, outs);
    }
    if result.Returned? {
      store.Update(id, SetStatus(Completed));
      success := true;
    } else {
      HandleExecutionError(store, id, attempt, result.message);
      success := false;
    }
  }

  // ---------------------------------------------------------------------
  // The command as a whole

  /** The one record a run leaves behind. */
  function HandledRecord(reg: Registry, className: string, methodName: string, params: seq<Param>, priority: int, outs: seq<Outcome>): JobRecord
    requires |outs| == MaxRetries
  {
    if IsClassAllowed(className)
    then Settled(RunningRecord(className, methodName, params, priority), AttemptResults(reg, className, methodName, outs))
    else UnauthorizedRecord(className, methodName, params, priority)
  }

  /** The log of a run: the insert, then for an allowed class the optional
      sleep and the loop's writes and calls. */
  function HandledTrace(reg: Registry, className: string, methodName: string, params: seq<Param>, priority: int, delay: int, outs: seq<Outcome>): seq<Event>
    requires |outs| == MaxRetries
  {
    if !IsClassAllowed(className) then [Created(UnauthorizedRecord(className, methodName, params, priority))]
    else
      [Created(RunningRecord(className, methodName, params, priority))]
      + (if delay > 0 then [Slept(delay)] else [])
      + RunEvents(Resolvable(reg, className, methodName), AttemptResults(reg, className, methodName, outs))
  }

  /** `handle`: reads the options, gates the class, creates exactly one
      record and, for an allowed class, sleeps if asked and runs the loop.
      The journal receives exactly the run's log `HandledTrace`. */
  method Handle(store: Store, reg: Registry, className: string, methodName: string, opts: Options,
                jsonDecode: string -> seq<Param>, outs: seq<Outcome>)
    returns (id: int)
    requires store.Valid() && |outs| == MaxRetries
    modifies store
    ensures store.Valid() && id == old(store.nextId) && id !in old(store.jobs) && store.nextId == id + 1
    ensures store.jobs == old(store.jobs)[id := HandledRecord(reg, className, methodName,
                                                  GetParams(opts.params, jsonDecode), GetOptionValue(opts.priority, 1), outs)]
    ensures store.log == old(store.log) + HandledTrace(reg, className, methodName, GetParams(opts.params, jsonDecode),
                                                       GetOptionValue(opts.priority, 1), GetOptionValue(opts.delay, 0), outs)
  {
    var params := GetParams(opts.params, jsonDecode);
    var delay := GetOptionValue(opts.delay, 0);
    var priority := GetOptionValue(opts.priority, 1);

    if !IsClassAllowed(className) {
      id := LogUnauthorizedClassError(store, className, methodName, params, priority);
      return;
    }

    id := CreateJobRecord(store, className, methodName, params, priority);
    ghost var created := store.log;
    ghost var pause: seq<Event> := if delay > 0 then [Slept(delay)] else [];
    if delay > 0 {
      ApplyDelay(store, delay);
    }
    assert store.log == created + pause;
    ghost var run := RunEvents(Resolvable(reg, className, methodName), AttemptResults(reg, className, methodName, outs));
    ExecuteJobWithRetries(store, id, reg, className, methodName, outs);
    WriteTwice(old(store.jobs), id, RunningRecord(className, methodName, params, priority),
               Settled(RunningRecord(className, methodName, params, priority), AttemptResults(reg, className, methodName, outs)));
    assert store.log == created + pause + run;
    ghost var entry := [Created(RunningRecord(className, methodName, params, priority))];
    AppendAssociates(old(store.log), entry, pause);
    AppendAssociates(old(store.log), entry + pause, run);
  }

  /** Writing a record twice leaves the second value. */
  lemma WriteTwice(jobs: map<int, JobRecord>, id: int, first: JobRecord, second: JobRecord)
    ensures jobs[id := first][id := second] == jobs[id := second]
  {
  }

  /** Appending to a log in two steps appends the concatenation. */
  lemma AppendAssociates(log: seq<Event>, a: seq<Event>, b: seq<Event>)
    ensures log + a + b == log + (a + b)
  {
  }

  // ---------------------------------------------------------------------
  // What the loop guarantees

  /** If attempt n is the first one that returns, the record is completed
      with attempts = n, and nothing else about it changed. */
  lemma SucceedsOnAttempt(r0: JobRecord, rs: seq<Outcome>, n: nat)
    requires |rs| == MaxRetries && 1 <= n <= MaxRetries
    requires rs[n - 1].Returned? && forall i :: 0 <= i < n - 1 ==> rs[i].Raised?
    ensures Settled(r0, rs) == r0.(attempts := n, status := Completed)
    ensures AttemptsMade(rs) == n
  {
  }

  /** If every attempt raises, the record is failed after MaxRetries
      attempts with the last message. */
  lemma FailsAfterMaxRetries(r0: JobRecord, rs: seq<Outcome>)
    requires |rs| == MaxRetries && forall i :: 0 <= i < MaxRetries ==> rs[i].Raised?
    ensures Settled(r0, rs) == r0.(attempts := MaxRetries, status := Failed, errorMessage := Some(rs[MaxRetries - 1].message))
    ensures AttemptsMade(rs) == MaxRetries
  {
  }

  /** Every run of the loop ends in a terminal status with 1..MaxRetries
      attempts; only status, attempts and (on failure) the message change. */
  lemma SettledIsTerminal(r0: JobRecord, rs: seq<Outcome>)
    requires |rs| == MaxRetries
    ensures Settled(r0, rs).status == Completed || Settled(r0, rs).status == Failed
    ensures 1 <= Settled(r0, rs).attempts <= MaxRetries
    ensures Settled(r0, rs).status == Completed ==> Settled(r0, rs).errorMessage == r0.errorMessage
    ensures Settled(r0, rs).status == Failed ==> Settled(r0, rs).errorMessage == Some(rs[MaxRetries - 1].message)
    ensures Settled(r0, rs).(status := r0.status, attempts := r0.attempts, errorMessage := r0.errorMessage) == r0
  {
  }

  /** The update after the loop writes what the last failed attempt already
      wrote. */
  lemma FinalFailureIsIdempotent(r0: JobRecord, rs: seq<Outcome>)
    requires |rs| == MaxRetries && forall i :: 0 <= i < MaxRetries ==> rs[i].Raised?
    ensures Apply(AfterFailures(r0, rs, MaxRetries), SetStatus(Failed)) == AfterFailures(r0, rs, MaxRetries)
  {
  }

  /** A missing class fails every attempt the same way: MaxRetries attempts,
      the "not found" message, and the target is never called. The class
      check wins when both the class and the method are missing. */
  lemma MissingClassIsRetriedThenFails(reg: Registry, className: string, methodName: string, outs: seq<Outcome>, r0: JobRecord)
    requires |outs| == MaxRetries && className !in reg.classes
    ensures Settled(r0, AttemptResults(reg, className, methodName, outs))
            == r0.(attempts := MaxRetries, status := Failed, errorMessage := Some("Class " + className + " not found"))
    ensures !Resolvable(reg, className, methodName)
  {
    FailsAfterMaxRetries(r0, AttemptResults(reg, className, methodName, outs));
  }

  /** A missing method on an existing class fails every attempt with the
      method message, and the target is never called. */
  lemma MissingMethodIsRetriedThenFails(reg: Registry, className: string, methodName: string, outs: seq<Outcome>, r0: JobRecord)
    requires |outs| == MaxRetries && className in reg.classes && (className, methodName) !in reg.methods
    ensures Settled(r0, AttemptResults(reg, className, methodName, outs))
            == r0.(attempts := MaxRetries, status := Failed,
                   errorMessage := Some("Method " + methodName + " not found in " + className))
    ensures !Resolvable(reg, className, methodName)
  {
    FailsAfterMaxRetries(r0, AttemptResults(reg, className, methodName, outs));
  }

  // ---------------------------------------------------------------------
  // What the log of a run says

  lemma {:induction false} ReplayAppend(r: JobRecord, a: seq<Event>, b: seq<Event>)
    ensures Replay(r, a + b) == Replay(Replay(r, a), b)
    decreases |a|
  {
    if a == [] {
      assert a + b == b;
    } else {
      assert (a + b)[0] == a[0];
      assert (a + b)[1..] == a[1..] + b;
      ReplayAppend(if a[0].Persisted? then Apply(r, a[0].patch) else r, a[1..], b);
    }
  }

  lemma {:induction false} WrittenAppend(a: seq<Event>, b: seq<Event>)
    ensures AttemptsWritten(a + b) == AttemptsWritten(a) + AttemptsWritten(b)
    decreases |a|
  {
    if a == [] {
      assert a + b == b;
    } else {
      assert (a + b)[0] == a[0];
      assert (a + b)[1..] == a[1..] + b;
      WrittenAppend(a[1..], b);
    }
  }

  lemma {:induction false} CallsAppend(a: seq<Event>, b: seq<Event>)
    ensures CallsMade(a + b) == CallsMade(a) + CallsMade(b)
    decreases |a|
  {
    if a == [] {
      assert a + b == b;
    } else {
      assert (a + b)[0] == a[0];
      assert (a + b)[1..] == a[1..] + b;
      CallsAppend(a[1..], b);
    }
  }

  lemma ReadingAppend(a: seq<Event>, b: seq<Event>)
    ensures AttemptsWritten(a + b) == AttemptsWritten(a) + AttemptsWritten(b)
    ensures CallsMade(a + b) == CallsMade(a) + CallsMade(b)
  {
    WrittenAppend(a, b);
    CallsAppend(a, b);
  }

  /** One attempt persists its own number once and calls at most once, with
      that number. */
  lemma ReadingAttempt(resolvable: bool, k: nat, result: Outcome)
    ensures AttemptsWritten(AttemptEvents(resolvable, k, result)) == [k]
    ensures CallsMade(AttemptEvents(resolvable, k, result)) == if resolvable then [k] else []
  {
    var head := [Persisted(SetAttempts(k))];
    var call: seq<Event> := if resolvable then [Invoked(k)] else [];
    var tail: seq<Event> := if result.Returned? then [Persisted(SetStatus(Completed))]
                            else if k >= MaxRetries then [Persisted(SetFailedWith(result.message))]
                            else [];
    assert AttemptEvents(resolvable, k, result) == head + call + tail;
    ReadingAppend(head + call, tail);
    ReadingAppend(head, call);
    assert AttemptsWritten(tail) == [] && CallsMade(tail) == [] by {
      if tail != [] {
        assert tail[1..] == [];
      }
    }
  }

  /** Over attempts 1..n the persisted count goes 1, 2, ..., n, and the
      target is called in exactly those attempts (or never, when it does not
      resolve). */
  lemma {:induction false} LoopWritesInStep(resolvable: bool, rs: seq<Outcome>, n: nat)
    requires n <= |rs|
    ensures AttemptsWritten(LoopEvents(resolvable, rs, n)) == OneTo(n)
    ensures CallsMade(LoopEvents(resolvable, rs, n)) == if resolvable then OneTo(n) else []
  {
    if n > 0 {
      LoopWritesInStep(resolvable, rs, n - 1);
      ReadingAppend(LoopEvents(resolvable, rs, n - 1), AttemptEvents(resolvable, n, rs[n - 1]));
      ReadingAttempt(resolvable, n, rs[n - 1]);
    }
  }

  /** The persisted count of a run goes 1, 2, ... up to the attempts made,
      never past MaxRetries, and calls happen in those attempts only. */
  lemma RunWritesInStep(resolvable: bool, rs: seq<Outcome>)
    requires |rs| == MaxRetries
    ensures AttemptsWritten(RunEvents(resolvable, rs)) == OneTo(AttemptsMade(rs))
    ensures CallsMade(RunEvents(resolvable, rs)) == if resolvable then OneTo(AttemptsMade(rs)) else []
    ensures forall i :: 0 <= i < AttemptsMade(rs) ==> OneTo(AttemptsMade(rs))[i] <= MaxRetries
  {
    var n := AttemptsMade(rs);
    var tail: seq<Event> := if FirstSuccess(rs) < MaxRetries then [] else [Persisted(SetStatus(Failed))];
    assert RunEvents(resolvable, rs) == LoopEvents(resolvable, rs, n) + tail;
    LoopWritesInStep(resolvable, rs, n);
    ReadingAppend(LoopEvents(resolvable, rs, n), tail);
    assert AttemptsWritten(tail) == [] && CallsMade(tail) == [] by {
      if tail != [] {
        assert tail[1..] == [];
      }
    }
  }

  /** Each call in a log comes right after the write of its attempt's
      count. */
  predicate CountBeforeEachCall(es: seq<Event>)
  {
    forall i :: 0 <= i < |es| && es[i].Invoked? ==> 0 < i && es[i - 1] == Persisted(SetAttempts(es[i].attempt))
  }

  /** The loop only writes the record and calls the target: it inserts
      nothing and does not sleep. */
  lemma {:induction false} LoopOnlyWritesAndCalls(resolvable: bool, rs: seq<Outcome>, n: nat)
    requires n <= |rs|
    ensures forall i :: 0 <= i < |LoopEvents(resolvable, rs, n)| ==>
              LoopEvents(resolvable, rs, n)[i].Persisted? || LoopEvents(resolvable, rs, n)[i].Invoked?
  {
    if n > 0 {
      LoopOnlyWritesAndCalls(resolvable, rs, n - 1);
      var prev := LoopEvents(resolvable, rs, n - 1);
      var step := AttemptEvents(resolvable, n, rs[n - 1]);
      assert LoopEvents(resolvable, rs, n) == prev + step;
      assert forall i :: 0 <= i < |step| ==> step[i].Persisted? || step[i].Invoked?;
    }
  }

  /** The same for the whole of `executeJobWithRetries`. */
  lemma RunOnlyWritesAndCalls(resolvable: bool, rs: seq<Outcome>)
    requires |rs| == MaxRetries
    ensures forall i :: 0 <= i < |RunEvents(resolvable, rs)| ==>
              RunEvents(resolvable, rs)[i].Persisted? || RunEvents(resolvable, rs)[i].Invoked?
  {
    LoopOnlyWritesAndCalls(resolvable, rs, AttemptsMade(rs));
  }

  /** Every call of the target in attempts 1..n comes right after the write
      of that attempt's count. */
  lemma {:induction false} LoopPersistsCountBeforeCall(resolvable: bool, rs: seq<Outcome>, n: nat)
    requires n <= |rs|
    ensures CountBeforeEachCall(LoopEvents(resolvable, rs, n))
  {
    if n > 0 {
      LoopPersistsCountBeforeCall(resolvable, rs, n - 1);
      var prev := LoopEvents(resolvable, rs, n - 1);
      var step := AttemptEvents(resolvable, n, rs[n - 1]);
      var es := prev + step;
      assert LoopEvents(resolvable, rs, n) == es;
      forall i | 0 <= i < |es| && es[i].Invoked?
        ensures 0 < i && es[i - 1] == Persisted(SetAttempts(es[i].attempt))
      {
        if i < |prev| {
          assert es[i] == prev[i];
          assert 0 < i;
          assert es[i - 1] == prev[i - 1];
        } else {
          assert es[i] == step[i - |prev|];
          assert i - |prev| == 1 && step[1] == Invoked(n);
          assert es[i - 1] == step[0];
        }
      }
    }
  }

  /** In a run, the count of an attempt is persisted before that attempt
      validates and calls: each call comes right after the write of its
      attempt number. */
  lemma RunPersistsCountBeforeCall(resolvable: bool, rs: seq<Outcome>)
    requires |rs| == MaxRetries
    ensures CountBeforeEachCall(RunEvents(resolvable, rs))
  {
    var loop := LoopEvents(resolvable, rs, AttemptsMade(rs));
    var tail: seq<Event> := if FirstSuccess(rs) < MaxRetries then [] else [Persisted(SetStatus(Failed))];
    assert RunEvents(resolvable, rs) == loop + tail;
    LoopPersistsCountBeforeCall(resolvable, rs, AttemptsMade(rs));
    var es := loop + tail;
    forall i | 0 <= i < |es| && es[i].Invoked?
      ensures 0 < i && es[i - 1] == Persisted(SetAttempts(es[i].attempt))
    {
      if i < |loop| {
        assert es[i] == loop[i];
        assert 0 < i;
        assert es[i - 1] == loop[i - 1];
      } else {
        assert false;
      }
    }
  }

  /** After a call that returns, nothing is called or written but
      `completed`: it is the run's last entry. */
  lemma RunEndsWithCompleted(resolvable: bool, rs: seq<Outcome>)
    requires |rs| == MaxRetries && FirstSuccess(rs) < MaxRetries
    ensures RunEvents(resolvable, rs) != []
    ensures RunEvents(resolvable, rs)[|RunEvents(resolvable, rs)| - 1] == Persisted(SetStatus(Completed))
  {
    var n := AttemptsMade(rs);
    var last := AttemptEvents(resolvable, n, rs[n - 1]);
    assert RunEvents(resolvable, rs) == LoopEvents(resolvable, rs, n - 1) + last;
    assert last[|last| - 1] == Persisted(SetStatus(Completed));
  }

  lemma ReplayAttempt(r: JobRecord, resolvable: bool, k: nat, result: Outcome)
    ensures Replay(r, AttemptEvents(resolvable, k, result)) == AfterAttempt(r, k, result)
  {
    var head := [Persisted(SetAttempts(k))];
    var call: seq<Event> := if resolvable then [Invoked(k)] else [];
    var tail: seq<Event> := if result.Returned? then [Persisted(SetStatus(Completed))]
                            else if k >= MaxRetries then [Persisted(SetFailedWith(result.message))]
                            else [];
    assert AttemptEvents(resolvable, k, result) == head + call + tail;
    ReplayAppend(r, head + call, tail);
    ReplayAppend(r, head, call);
    assert head[1..] == [];
    if resolvable {
      assert call[1..] == [];
    }
    if tail != [] {
      assert tail[1..] == [];
    }
  }

  /** Replaying attempts that all raised gives the intermediate record. */
  lemma {:induction false} ReplayFailures(r0: JobRecord, resolvable: bool, rs: seq<Outcome>, k: nat)
    requires |rs| == MaxRetries && k <= MaxRetries && k <= FirstSuccess(rs)
    ensures Replay(r0, LoopEvents(resolvable, rs, k)) == AfterFailures(r0, rs, k)
  {
    if k > 0 {
      ReplayFailures(r0, resolvable, rs, k - 1);
      ReplayAppend(r0, LoopEvents(resolvable, rs, k - 1), AttemptEvents(resolvable, k, rs[k - 1]));
      ReplayAttempt(AfterFailures(r0, rs, k - 1), resolvable, k, rs[k - 1]);
    }
  }

  /** The log and the final record agree: applying the run's writes in order
      to the record it started from gives the settled record. */
  lemma ReplayIsSettled(r0: JobRecord, resolvable: bool, rs: seq<Outcome>)
    requires |rs| == MaxRetries
    ensures Replay(r0, RunEvents(resolvable, rs)) == Settled(r0, rs)
  {
    var f := FirstSuccess(rs);
    var n := AttemptsMade(rs);
    if f < MaxRetries {
      ReplayFailures(r0, resolvable, rs, f);
      ReplayAppend(r0, LoopEvents(resolvable, rs, f), AttemptEvents(resolvable, n, rs[f]));
      ReplayAttempt(AfterFailures(r0, rs, f), resolvable, n, rs[f]);
      assert RunEvents(resolvable, rs) == LoopEvents(resolvable, rs, n);
    } else {
      ReplayFailures(r0, resolvable, rs, MaxRetries);
      ReplayAppend(r0, LoopEvents(resolvable, rs, MaxRetries), [Persisted(SetStatus(Failed))]);
      assert [Persisted(SetStatus(Failed))][1..] == [];
    }
  }

  // ---------------------------------------------------------------------
  // What a run of the command guarantees

  /** A rejected class: one failed record with attempts = 1 and the
      unauthorized message, and nothing else happens: no sleep, no attempt,
      no call, no further write. */
  lemma RejectedClassNeverRuns(reg: Registry, className: string, methodName: string, params: seq<Param>, priority: int, delay: int, outs: seq<Outcome>)
    requires |outs| == MaxRetries && !IsClassAllowed(className)
    ensures HandledRecord(reg, className, methodName, params, priority, outs)
            == JobRecord(className, methodName, params, priority, Failed, 1, Some("Unauthorized class: " + className))
    ensures HandledTrace(reg, className, methodName, params, priority, delay, outs)
            == [Created(HandledRecord(reg, className, methodName, params, priority, outs))]
  {
  }

  /** Every run inserts exactly one record, first, and everything after is
      an update of that record (or a sleep or call); replaying the updates on
      the inserted record gives the record the run leaves. */
  lemma OneRecordPerRun(reg: Registry, className: string, methodName: string, params: seq<Param>, priority: int, delay: int, outs: seq<Outcome>)
    requires |outs| == MaxRetries
    ensures var t := HandledTrace(reg, className, methodName, params, priority, delay, outs);
            && t != [] && t[0].Created?
            && (forall i :: 1 <= i < |t| ==> !t[i].Created?)
            && Replay(t[0].record, t[1..]) == HandledRecord(reg, className, methodName, params, priority, outs)
  {
    var t := HandledTrace(reg, className, methodName, params, priority, delay, outs);
    if IsClassAllowed(className) {
      var r0 := RunningRecord(className, methodName, params, priority);
      var rs := AttemptResults(reg, className, methodName, outs);
      var res := Resolvable(reg, className, methodName);
      var pause: seq<Event> := if delay > 0 then [Slept(delay)] else [];
      var rest := pause + RunEvents(res, rs);
      assert t == [Created(r0)] + rest;
      assert t[1..] == rest;
      RunOnlyWritesAndCalls(res, rs);
      assert forall i :: 0 <= i < |rest| ==> !rest[i].Created?;
      ReplayAppend(r0, pause, RunEvents(res, rs));
      assert Replay(r0, pause) == r0 by {
        if delay > 0 {
          assert pause[1..] == [];
        }
      }
      ReplayIsSettled(r0, res, rs);
    } else {
      assert t == [Created(UnauthorizedRecord(className, methodName, params, priority))];
      assert t[1..] == [];
    }
  }

  /** For an allowed class the optional sleep comes right after the insert,
      before any attempt; the persisted count goes 1, 2, ... up to the
      attempts the record shows; and the target is called in those attempts
      only, or never when it does not resolve. */
  lemma AllowedRunSteps(reg: Registry, className: string, methodName: string, params: seq<Param>, priority: int, delay: int, outs: seq<Outcome>)
    requires |outs| == MaxRetries && IsClassAllowed(className)
    ensures var t := HandledTrace(reg, className, methodName, params, priority, delay, outs);
            var n := HandledRecord(reg, className, methodName, params, priority, outs).attempts;
            && t != [] && t[0].Created?
            && (forall i :: 0 <= i < |t| ==> (t[i].Slept? <==> i == 1 && delay > 0))
            && (forall i :: 0 <= i < |t| && t[i].Invoked? ==> 1 < i)
            && (delay > 0 ==> |t| > 1 && t[1] == Slept(delay))
            && AttemptsWritten(t) == OneTo(n)
            && CallsMade(t) == if Resolvable(reg, className, methodName) then OneTo(n) else []
  {
    var r0 := RunningRecord(className, methodName, params, priority);
    var rs := AttemptResults(reg, className, methodName, outs);
    var res := Resolvable(reg, className, methodName);
    RunOnlyWritesAndCalls(res, rs);
    RunWritesInStep(res, rs);
    RunPersistsCountBeforeCall(res, rs);
    InsertThenSleep(r0, delay, RunEvents(res, rs));
  }

  /** A log made of an insert, an optional sleep, and writes and calls that
      never start with a call: the insert comes first; the sleep, when there
      is one, is its second event and the only one; every call comes after
      position 1, so after the sleep; the counts written and the calls made
      are those of the writes and calls. */
  lemma InsertThenSleep(r0: JobRecord, delay: int, run: seq<Event>)
    requires forall i :: 0 <= i < |run| ==> run[i].Persisted? || run[i].Invoked?
    requires CountBeforeEachCall(run)
    ensures var t := [Created(r0)] + (if delay > 0 then [Slept(delay)] else []) + run;
            && t[0] == Created(r0)
            && (forall i :: 0 <= i < |t| ==> (t[i].Slept? <==> i == 1 && delay > 0))
            && (forall i :: 0 <= i < |t| && t[i].Invoked? ==> 1 < i)
            && (delay > 0 ==> |t| > 1 && t[1] == Slept(delay))
            && AttemptsWritten(t) == AttemptsWritten(run)
            && CallsMade(t) == CallsMade(run)
  {
    var pause: seq<Event> := if delay > 0 then [Slept(delay)] else [];
    var t := [Created(r0)] + pause + run;
    forall i | 0 <= i < |t| && t[i].Invoked?
      ensures 1 < i
    {
      if i >= 1 + |pause| {
        assert t[i] == run[i - 1 - |pause|];
      }
    }
    ReadingAppend([Created(r0)] + pause, run);
    ReadingAppend([Created(r0)], pause);
    assert AttemptsWritten([Created(r0)]) == [] && CallsMade([Created(r0)]) == [] by {
      assert [Created(r0)][1..] == [];
    }
    assert AttemptsWritten(pause) == [] && CallsMade(pause) == [] by {
      if delay > 0 {
        assert pause[1..] == [];
      }
    }
  }
}
