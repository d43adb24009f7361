/**
 The job lifecycle across the command and the dashboard: the invariant
 every record keeps, the status transitions each operation makes, and
 concrete runs of the command.
 */
module Lifecycle {
  import opened JobRecords
  import opened JobStore
  import opened CommandOptions
  import opened RunBackgroundJob
  import opened BackgroundJobController

  /** What every stored record satisfies: at most MaxRetries attempts, a
      message exactly when failed, and a completed job made an attempt. */
  predicate Consistent(r: JobRecord)
  {
    && r.attempts <= MaxRetries
    && (r.errorMessage.Some? <==> r.status == Failed)
    && (r.status == Completed ==> 1 <= r.attempts)
  }

  predicate StoreConsistent(jobs: map<int, JobRecord>)
  {
    forall id :: id in jobs ==> Consistent(jobs[id])
  }

  /** The status changes the program makes: running to a terminal status
      (the loop, `cancel`), and failed back to running (`retry`). */
  predicate AllowedTransition(before: Status, after: Status)
  {
    || (before == Running && (after == Completed || after == Failed))
    || (before == Failed && after == Running)
  }

  /** Storing a consistent record keeps the whole store consistent. */
  lemma PutKeepsStoreConsistent(jobs: map<int, JobRecord>, id: int, r: JobRecord)
    requires StoreConsistent(jobs) && Consistent(r)
    ensures StoreConsistent(jobs[id := r])
  {
  }

  /** Whatever the command is asked to run, the record it leaves is
      consistent, and an allowed class's record went from running to a
      terminal status. */
  lemma HandledRecordIsConsistent(reg: Registry, className: string, methodName: string, params: seq<Param>, priority: int, outs: seq<Outcome>)
    requires |outs| == MaxRetries
    ensures Consistent(HandledRecord(reg, className, methodName, params, priority, outs))
    ensures IsClassAllowed(className) ==>
              AllowedTransition(Running, HandledRecord(reg, className, methodName, params, priority, outs).status)
  {
    if IsClassAllowed(className) {
      SettledIsTerminal(RunningRecord(className, methodName, params, priority), AttemptResults(reg, className, methodName, outs));
    }
  }

  /** A cancel that goes through keeps the record consistent and is an
      allowed transition. */
  lemma CancelKeepsConsistent(r: JobRecord)
    requires Consistent(r) && r.status == Running
    ensures Consistent(Apply(r, CancelPatch))
    ensures AllowedTransition(r.status, Apply(r, CancelPatch).status)
  {
  }

  /** A retry that goes through keeps the record consistent and is an
      allowed transition. */
  lemma RetryKeepsConsistent(r: JobRecord)
    requires Consistent(r) && r.status == Failed
    ensures Consistent(Apply(r, RetryPatch))
    ensures AllowedTransition(r.status, Apply(r, RetryPatch).status)
  {
  }

  /** A run of the command keeps the whole table consistent: it only adds
      the record it leaves. */
  lemma HandleKeepsStoreConsistent(jobs: map<int, JobRecord>, id: int, reg: Registry, className: string, methodName: string,
                                   params: seq<Param>, priority: int, outs: seq<Outcome>)
    requires |outs| == MaxRetries && StoreConsistent(jobs)
    ensures StoreConsistent(jobs[id := HandledRecord(reg, className, methodName, params, priority, outs)])
  {
    HandledRecordIsConsistent(reg, className, methodName, params, priority, outs);
    PutKeepsStoreConsistent(jobs, id, HandledRecord(reg, className, methodName, params, priority, outs));
  }

  /** `cancel` keeps the whole table consistent, whether it goes through or
      is refused. */
  lemma CancelKeepsStoreConsistent(jobs: map<int, JobRecord>, id: int)
    requires StoreConsistent(jobs)
    ensures StoreConsistent(if CanCancel(jobs, id) then jobs[id := Apply(jobs[id], CancelPatch)] else jobs)
  {
    if CanCancel(jobs, id) {
      CancelKeepsConsistent(jobs[id]);
      PutKeepsStoreConsistent(jobs, id, Apply(jobs[id], CancelPatch));
    }
  }

  /** `retry` keeps the whole table consistent, whether it goes through or
      is refused. */
  lemma RetryKeepsStoreConsistent(jobs: map<int, JobRecord>, id: int)
    requires StoreConsistent(jobs)
    ensures StoreConsistent(if CanRetry(jobs, id) then jobs[id := Apply(jobs[id], RetryPatch)] else jobs)
  {
    if CanRetry(jobs, id) {
      RetryKeepsConsistent(jobs[id]);
      PutKeepsStoreConsistent(jobs, id, Apply(jobs[id], RetryPatch));
    }
  }

  // ---------------------------------------------------------------------
  // Concrete runs

  /** The real application: ExampleJob exists and has `handle`. */
  function AppRegistry(): Registry
  {
    Registry({ExampleJob}, {(ExampleJob, "handle")})
  }

  function DecodeGreeting(text: string): seq<Param>
  {
    ["\"hi\""]
  }

  /** The options of `--params='["hi"]'` with delay and priority omitted. */
  function GreetingOptions(): Options
  {
    Options(Some("[\"hi\"]"), Some("0"), Some("1"))
  }

  lemma OmittedDelayAndPriority()
    ensures GetOptionValue(Some("0"), 0) == 0 && GetOptionValue(Some("1"), 1) == 1
    ensures GetOptionValue(None, 0) == 0 && GetOptionValue(None, 1) == 1
  {
    IntCastReadsDecimal(0, "");
    IntCastReadsDecimal(1, "");
    assert DecimalText(0) + "" == "0";
    assert DecimalText(1) + "" == "1";
  }

  /** What the greeting run's options read as: the decoded list, priority 1
      and no delay. */
  lemma GreetingOptionValues()
    ensures GetParams(GreetingOptions().params, DecodeGreeting) == ["\"hi\""]
    ensures GetOptionValue(GreetingOptions().priority, 1) == 1 && GetOptionValue(GreetingOptions().delay, 0) == 0
  {
    var opts := GreetingOptions();
    assert opts.delay == Some("0") && opts.priority == Some("1");
    OmittedDelayAndPriority();
  }

  lemma DelayOfTwo()
    ensures GetOptionValue(Some("2"), 0) == 2
  {
    IntCastReadsDecimal(2, "");
    assert DecimalText(2) + "" == "2";
  }

  /** ExampleJob whose n-th call is the first to return: completed after n
      attempts, with counts and calls 1..n. */
  lemma ExampleJobSucceeds(params: seq<Param>, priority: int, delay: int, outs: seq<Outcome>, n: nat)
    requires |outs| == MaxRetries && 1 <= n <= MaxRetries
    requires outs[n - 1].Returned? && forall i :: 0 <= i < n - 1 ==> outs[i].Raised?
    ensures HandledRecord(AppRegistry(), ExampleJob, "handle", params, priority, outs)
            == JobRecord(ExampleJob, "handle", params, priority, Completed, n, None)
    ensures CallsMade(HandledTrace(AppRegistry(), ExampleJob, "handle", params, priority, delay, outs)) == OneTo(n)
    ensures AttemptsWritten(HandledTrace(AppRegistry(), ExampleJob, "handle", params, priority, delay, outs)) == OneTo(n)
  {
    var rs := AttemptResults(AppRegistry(), ExampleJob, "handle", outs);
    assert Resolvable(AppRegistry(), ExampleJob, "handle");
    assert rs == outs;
    SucceedsOnAttempt(RunningRecord(ExampleJob, "handle", params, priority), rs, n);
    AllowedRunSteps(AppRegistry(), ExampleJob, "handle", params, priority, delay, outs);
  }

  /** ExampleJob whose every call raises: failed after three attempts with
      the third message, and called three times. */
  lemma ExampleJobFails(params: seq<Param>, priority: int, delay: int, outs: seq<Outcome>)
    requires |outs| == MaxRetries && forall i :: 0 <= i < MaxRetries ==> outs[i].Raised?
    ensures HandledRecord(AppRegistry(), ExampleJob, "handle", params, priority, outs)
            == JobRecord(ExampleJob, "handle", params, priority, Failed, MaxRetries, Some(outs[MaxRetries - 1].message))
    ensures CallsMade(HandledTrace(AppRegistry(), ExampleJob, "handle", params, priority, delay, outs)) == OneTo(MaxRetries)
  {
    var rs := AttemptResults(AppRegistry(), ExampleJob, "handle", outs);
    assert Resolvable(AppRegistry(), ExampleJob, "handle");
    assert rs == outs;
    FailsAfterMaxRetries(RunningRecord(ExampleJob, "handle", params, priority), rs);
    AllowedRunSteps(AppRegistry(), ExampleJob, "handle", params, priority, delay, outs);
  }

  /** ExampleJob run with any options, whose first call returns: completed
      with one attempt and one call, the options' params and priority kept. */
  method SucceedsFirstTime(opts: Options, jsonDecode: string -> seq<Param>, outs: seq<Outcome>)
    returns (r: JobRecord, ghost trace: seq<Event>)
    requires |outs| == MaxRetries && outs[0].Returned?
    ensures r == JobRecord(ExampleJob, "handle", GetParams(opts.params, jsonDecode), GetOptionValue(opts.priority, 1), Completed, 1, None)
    ensures CallsMade(trace) == [1] && AttemptsWritten(trace) == [1]
  {
    var store := new Store();
    var id;
    id := Handle(store, AppRegistry(), ExampleJob, "handle", opts, jsonDecode, outs);
    r := store.jobs[id];
    trace := store.log;
    assert trace == HandledTrace(AppRegistry(), ExampleJob, "handle", GetParams(opts.params, jsonDecode),
                                 GetOptionValue(opts.priority, 1), GetOptionValue(opts.delay, 0), outs);
    ExampleJobSucceeds(GetParams(opts.params, jsonDecode), GetOptionValue(opts.priority, 1),
                       GetOptionValue(opts.delay, 0), outs, 1);
    assert OneTo(1) == [1];
  }

  /** ExampleJob run whose first two calls raise and third returns:
      completed with three attempts, counts persisted 1, 2, 3, and neither
      earlier message kept. */
  method SucceedsOnThirdAttempt(opts: Options, jsonDecode: string -> seq<Param>, outs: seq<Outcome>)
    returns (r: JobRecord, ghost trace: seq<Event>)
    requires |outs| == MaxRetries && outs[0].Raised? && outs[1].Raised? && outs[2].Returned?
    ensures r == JobRecord(ExampleJob, "handle", GetParams(opts.params, jsonDecode), GetOptionValue(opts.priority, 1), Completed, 3, None)
    ensures CallsMade(trace) == [1, 2, 3] && AttemptsWritten(trace) == [1, 2, 3]
  {
    var store := new Store();
    var id;
    id := Handle(store, AppRegistry(), ExampleJob, "handle", opts, jsonDecode, outs);
    r := store.jobs[id];
    trace := store.log;
    assert trace == HandledTrace(AppRegistry(), ExampleJob, "handle", GetParams(opts.params, jsonDecode),
                                 GetOptionValue(opts.priority, 1), GetOptionValue(opts.delay, 0), outs);
    assert forall i :: 0 <= i < 2 ==> outs[i].Raised?;
    ExampleJobSucceeds(GetParams(opts.params, jsonDecode), GetOptionValue(opts.priority, 1),
                       GetOptionValue(opts.delay, 0), outs, 3);
    assert OneTo(3) == [1, 2, 3];
  }

  /** ExampleJob run whose every call raises: failed with three attempts,
      three calls, and the third call's message. */
  method AlwaysRaises(opts: Options, jsonDecode: string -> seq<Param>, outs: seq<Outcome>)
    returns (r: JobRecord, ghost trace: seq<Event>)
    requires |outs| == MaxRetries && outs[0].Raised? && outs[1].Raised? && outs[2].Raised?
    ensures r == JobRecord(ExampleJob, "handle", GetParams(opts.params, jsonDecode), GetOptionValue(opts.priority, 1),
                           Failed, 3, Some(outs[2].message))
    ensures CallsMade(trace) == [1, 2, 3]
  {
    var store := new Store();
    var id;
    id := Handle(store, AppRegistry(), ExampleJob, "handle", opts, jsonDecode, outs);
    r := store.jobs[id];
    trace := store.log;
    assert trace == HandledTrace(AppRegistry(), ExampleJob, "handle", GetParams(opts.params, jsonDecode),
                                 GetOptionValue(opts.priority, 1), GetOptionValue(opts.delay, 0), outs);
    assert forall i :: 0 <= i < MaxRetries ==> outs[i].Raised?;
    ExampleJobFails(GetParams(opts.params, jsonDecode), GetOptionValue(opts.priority, 1),
                    GetOptionValue(opts.delay, 0), outs);
    assert OneTo(MaxRetries) == [1, 2, 3];
  }

  /** A class outside the allow-list: one failed record with attempts 1 and
      the unauthorized message, and the target is never called. */
  method RejectsUnlistedClass(className: string, opts: Options, jsonDecode: string -> seq<Param>, outs: seq<Outcome>)
    returns (r: JobRecord, ghost trace: seq<Event>)
    requires |outs| == MaxRetries && !IsClassAllowed(className)
    ensures r == JobRecord(className, "handle", GetParams(opts.params, jsonDecode), GetOptionValue(opts.priority, 1),
                           Failed, 1, Some("Unauthorized class: " + className))
    ensures trace == [Created(r)] && CallsMade(trace) == []
  {
    var store := new Store();
    var id;
    id := Handle(store, AppRegistry(), className, "handle", opts, jsonDecode, outs);
    r := store.jobs[id];
    trace := store.log;
    assert trace == HandledTrace(AppRegistry(), className, "handle", GetParams(opts.params, jsonDecode),
                                 GetOptionValue(opts.priority, 1), GetOptionValue(opts.delay, 0), outs);
    assert CallsMade(trace) == CallsMade(trace[1..]);
  }

  /** "Not.Allowed" is such a class. */
  lemma NotAllowedIsRejected()
    ensures !IsClassAllowed("Not.Allowed")
  {
    assert |"Not.Allowed"| != |AllowedClasses[0]|;
  }

  /** A positive `--delay` with a first call that returns: the sleep comes
      right after the insert and before the only call. */
  method SleepsBeforeFirstAttempt(opts: Options, jsonDecode: string -> seq<Param>, outs: seq<Outcome>)
    returns (r: JobRecord, ghost trace: seq<Event>)
    requires |outs| == MaxRetries && outs[0].Returned? && GetOptionValue(opts.delay, 0) > 0
    ensures r.status == Completed && r.attempts == 1
    ensures |trace| > 1 && trace[0].Created? && trace[1] == Slept(GetOptionValue(opts.delay, 0))
    ensures forall i :: 0 <= i < |trace| && trace[i].Invoked? ==> 1 < i
    ensures CallsMade(trace) == [1]
  {
    var store := new Store();
    var id;
    id := Handle(store, AppRegistry(), ExampleJob, "handle", opts, jsonDecode, outs);
    r := store.jobs[id];
    trace := store.log;
    assert trace == HandledTrace(AppRegistry(), ExampleJob, "handle", GetParams(opts.params, jsonDecode),
                                 GetOptionValue(opts.priority, 1), GetOptionValue(opts.delay, 0), outs);
    var params, priority, delay := GetParams(opts.params, jsonDecode), GetOptionValue(opts.priority, 1), GetOptionValue(opts.delay, 0);
    ExampleJobSucceeds(params, priority, delay, outs, 1);
    AllowedRunSteps(AppRegistry(), ExampleJob, "handle", params, priority, delay, outs);
    assert OneTo(1) == [1];
  }

  /** The allow-list is bypassed by `retry`: a class the command refused is
      instantiated and dispatched once the refused record is retried from the
      dashboard. */
  method RetryDispatchesRefusedClass() returns (className: string, dispatched: bool)
    ensures !IsClassAllowed(className) && dispatched
  {
    var store := new Store();
    var reg := Registry({ExampleJob, "App\\Jobs\\Other"}, {});
    className := "App\\Jobs\\Other";
    var id := Handle(store, reg, className, "handle", Options(None, None, None), DecodeGreeting,
                        [Returned, Returned, Returned]);
    var flash;
    flash, dispatched := Retry(store, reg, id);
  }

  /** With the allow-listed retry, the same sequence resets the record but
      dispatches nothing. */
  method RetryAllowListedRefusesClass() returns (className: string, r: JobRecord, dispatched: bool)
    ensures !IsClassAllowed(className) && !dispatched
    ensures r.status == Running && r.attempts == 0 && r.errorMessage == None
  {
    var store := new Store();
    var reg := Registry({ExampleJob, "App\\Jobs\\Other"}, {});
    className := "App\\Jobs\\Other";
    var id := Handle(store, reg, className, "handle", Options(None, None, None), DecodeGreeting,
                        [Returned, Returned, Returned]);
    var flash;
    flash, dispatched := RetryAllowListed(store, reg, id);
    r := store.jobs[id];
  }
}
