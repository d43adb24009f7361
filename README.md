# Background job runner: execution engine and dashboard actions

This project models the core of a small Laravel application that runs a
class method as a tracked background job. The core has two parts:

- The `app:background-job` console command (`RunBackgroundJob`). It reads
  its options. It checks the class against a fixed allow-list. A class the
  list refuses gets one record created directly as `failed`. An allowed
  class gets a `running` record, an optional sleep, and then at most three
  attempts. Each attempt first persists the attempt count, then checks that
  the class and method exist, then calls the method. The record ends as
  `completed` (on the first call that returns) or `failed` (with the last
  exception's message).
- The dashboard's `cancel` and `retry` actions (`BackgroundJobController`).
  These are guarded in-place updates of one record.

The Dafny modules follow the source:

- `JobRecords` (job_records.dfy) defines the record (the `background_jobs`
  row) and the partial updates `$job->update([...])` applies.
- `JobStore` (job_store.dfy) is a class holding the table as a
  `map<int, JobRecord>` plus the next auto-increment id. It also keeps a
  ghost journal `log`: every create and update call, in order, with the
  command's sleep and its calls of the target in between.
- `CommandOptions` (command_options.dfy) covers `getParams` and
  `getOptionValue`, including PHP's `(int)` cast of an option string.
- `RunBackgroundJob` (engine.dfy) is the command. The retry loop is an
  imperative method over the store, with one pass of its `try`/`catch` as
  the method `TryAttempt`. It is proved against a specification function
  for the final record (`Settled`) and one for what the journal receives
  (`RunEvents`). Lemmas relate the two: replaying the journal gives the
  final record.
- `BackgroundJobController` (controller.dfy) holds `cancel` and `retry`.
- `Lifecycle` (lifecycle.dfy) holds the invariant every stored record keeps
  and the allowed status transitions. It also holds concrete runs: success
  on the first or third attempt, a call that always fails, a refused class,
  a delayed run, and the allow-list bypass described under Findings.

Parts of the outside world are made explicit:

- `class_exists` and `method_exists` are lookups in a `Registry`.
- The target method's behaviour is an oracle `outs`. Entry k says whether
  the k-th call returns or throws an `Exception`, and with which message.
- `json_decode` is a function parameter.
- `sleep` and each call of the target are entries in the store's journal.
  The contracts of `Handle`, `ExecuteJobWithRetries` and `TryAttempt` state
  exactly what the journal receives.

Points where the code does something one might not expect:

- `retry` does not relaunch the command. It instantiates the stored class
  with the stored params and hands it to Laravel's `dispatch`. That never
  runs the retry loop, so only a manual `cancel` moves the reset record out
  of `running` (BackgroundJobController.php:51-54).
- Only `Exception` is caught (RunBackgroundJob.php:138). A PHP `Error`
  thrown by the call, such as an `ArgumentCountError` from
  `call_user_func_array` (RunBackgroundJob.php:169) when the params do not
  fit the method, escapes the `catch`. The command then stops with the
  record still `running` and attempts = k, the attempt it was in. The model
  covers calls that return or throw an `Exception`.
- With the signature `{--delay=0} {--priority=1}`, an omitted option arrives
  as the string "0" or "1", not as null. Both routes give 0 and 1.
- `in_array` is a loose comparison. Both operands are strings and the one
  allowed name is not numeric, so it is exact string equality.

## Model

| member | source | states |
|---|---|---|
| JobRecords.Apply | app/Models/BackgroundJob.php:13-15 | An update never writes class, method, params or priority; an empty update changes nothing |
| JobStore.Store.Create | app/Console/Commands/RunBackgroundJob.php:98-105 | Inserts exactly one record under a fresh id; every other record is unchanged; the journal receives the insert |
| JobStore.Store.Find | app/Http/Controllers/BackgroundJobController.php:33 | Returns the record stored under the id, or null when there is none |
| JobStore.Store.Update | app/Console/Commands/RunBackgroundJob.php:128 | Rewrites only the named record, with the patch applied; no id is handed out; the journal receives the patch |
| CommandOptions.GetParams | app/Console/Commands/RunBackgroundJob.php:52-55 | An absent, empty or "0" `--params` gives the empty list (PHP falsiness); any other value gives what `json_decode` returns for it |
| CommandOptions.GetOptionValue | app/Console/Commands/RunBackgroundJob.php:60-63 | An absent option gives the default |
| CommandOptions.SkipWhitespace | app/Console/Commands/RunBackgroundJob.php:62 | The cast skips exactly the leading whitespace run |
| CommandOptions.DigitPrefix | app/Console/Commands/RunBackgroundJob.php:62 | The cast reads the longest run of digits and stops at the first non-digit |
| CommandOptions.IntCastSignAndZero | app/Console/Commands/RunBackgroundJob.php:62 | `(int)` is negative only after a leading minus, and 0 when the first non-blank character is neither a digit nor a sign |
| CommandOptions.IntCastReadsDecimal | app/Console/Commands/RunBackgroundJob.php:62 | `(int)` of a decimal text n, followed by any non-digit text, is n ("12abc" is 12) |
| CommandOptions.IntCastReadsSignedDecimal | app/Console/Commands/RunBackgroundJob.php:62 | `(int)` of "+n..." is n and of "-n..." is -n |
| CommandOptions.IntCastSkipsWhitespace | app/Console/Commands/RunBackgroundJob.php:62 | Leading whitespace never changes the cast |
| RunBackgroundJob.AllowListIsExact | app/Console/Commands/RunBackgroundJob.php:68-71 | `isClassAllowed` passes exactly `App\Jobs\ExampleJob`; no name extended at either end passes |
| RunBackgroundJob.LogUnauthorizedClassError | app/Console/Commands/RunBackgroundJob.php:76-91 | Inserts one record: failed, attempts 1, message "Unauthorized class: " + class; the journal receives only that insert |
| RunBackgroundJob.CreateJobRecord | app/Console/Commands/RunBackgroundJob.php:96-106 | Inserts one record: running, attempts 0, no message; the journal receives only that insert |
| RunBackgroundJob.ApplyDelay | app/Console/Commands/RunBackgroundJob.php:111-115 | Touches no record; the journal notes a sleep of the given seconds |
| RunBackgroundJob.ValidateClassAndMethod | app/Console/Commands/RunBackgroundJob.php:152-161 | Throws nothing exactly when the class exists and has the method; a missing class is reported first, as "Class X not found" |
| RunBackgroundJob.RunMethod | app/Console/Commands/RunBackgroundJob.php:166-170 | Calls the target once, in attempt k: the outcome is the oracle's k-th entry, no record is touched, the journal notes the call |
| RunBackgroundJob.AttemptResult | app/Console/Commands/RunBackgroundJob.php:152-161 | A missing class raises "Class X not found" (checked first), a missing method "Method m not found in X", otherwise the call decides |
| RunBackgroundJob.FirstSuccess | app/Console/Commands/RunBackgroundJob.php:125 | Indexes the first attempt that returns; every earlier attempt raised |
| RunBackgroundJob.AttemptsMade | app/Console/Commands/RunBackgroundJob.php:122-125 | The loop makes between 1 and MaxRetries attempts |
| RunBackgroundJob.HandleExecutionError | app/Console/Commands/RunBackgroundJob.php:175-184 | On the last attempt marks the record failed with the message, and that is the one write journalled; earlier failures write nothing |
| RunBackgroundJob.TryAttempt | app/Console/Commands/RunBackgroundJob.php:126-140 | Attempt k persists the count k, calls the target only when both lookups succeed, then writes `completed` on a return or passes the exception to `handleExecutionError`; it reports success exactly when the attempt returned, and the journal receives exactly that attempt's writes and call |
| RunBackgroundJob.ExecuteJobWithRetries | app/Console/Commands/RunBackgroundJob.php:120-147 | Leaves the one record in the settled state, and the journal receives exactly the run's writes and calls, in order; no other record and no id change |
| RunBackgroundJob.AttemptStep | app/Console/Commands/RunBackgroundJob.php:125-139 | After k - 1 failures, attempt k settles the record if it returns and otherwise leaves it as after k failures |
| RunBackgroundJob.LoopExit | app/Console/Commands/RunBackgroundJob.php:125-146 | The loop stops after AttemptsMade attempts; the post-loop `failed` write happens exactly when no attempt returned, and it completes the settled record |
| RunBackgroundJob.Handle | app/Console/Commands/RunBackgroundJob.php:28-47 | Creates exactly one record under a fresh id, gated by the allow-list, leaves it as the run specifies, and the journal receives exactly the run's log |
| RunBackgroundJob.SucceedsOnAttempt | app/Console/Commands/RunBackgroundJob.php:125-137 | If attempt n is the first that returns, the record is completed with attempts n and nothing else changes |
| RunBackgroundJob.FailsAfterMaxRetries | app/Console/Commands/RunBackgroundJob.php:175-184 | If all three attempts raise, the record is failed with attempts 3 and the third message |
| RunBackgroundJob.SettledIsTerminal | app/Console/Commands/RunBackgroundJob.php:120-147 | Every run ends completed or failed with 1..3 attempts; a completed run keeps the message unset |
| RunBackgroundJob.FinalFailureIsIdempotent | app/Console/Commands/RunBackgroundJob.php:143-144 | The post-loop `failed` update rewrites what the last failed attempt wrote |
| RunBackgroundJob.MissingClassIsRetriedThenFails | app/Console/Commands/RunBackgroundJob.php:154-156 | A missing class is retried like any error: attempts 3, failed, "Class X not found", target never called |
| RunBackgroundJob.MissingMethodIsRetriedThenFails | app/Console/Commands/RunBackgroundJob.php:158-160 | A missing method is retried like any error: attempts 3, failed, "Method m not found in X" |
| RunBackgroundJob.ReadingAttempt | app/Console/Commands/RunBackgroundJob.php:127-131 | Attempt k persists the count k once and calls the target at most once |
| RunBackgroundJob.LoopWritesInStep | app/Console/Commands/RunBackgroundJob.php:122-131 | Over n attempts the persisted count goes 1, 2, ..., n; when the class and method exist, calls happen in exactly those attempts, otherwise none |
| RunBackgroundJob.RunWritesInStep | app/Console/Commands/RunBackgroundJob.php:122-146 | Over a whole run the persisted count goes 1, 2, ... up to the attempts made and never past MaxRetries; when the class and method exist, calls happen in exactly those attempts, otherwise none |
| RunBackgroundJob.LoopOnlyWritesAndCalls | app/Console/Commands/RunBackgroundJob.php:125-141 | The loop only writes to its record and calls the target: it inserts nothing and does not sleep |
| RunBackgroundJob.RunOnlyWritesAndCalls | app/Console/Commands/RunBackgroundJob.php:120-147 | The same for the loop together with the `failed` write after it |
| RunBackgroundJob.LoopPersistsCountBeforeCall | app/Console/Commands/RunBackgroundJob.php:127-131 | Every call of the target comes right after the write of its attempt's count |
| RunBackgroundJob.RunPersistsCountBeforeCall | app/Console/Commands/RunBackgroundJob.php:120-147 | The same over a whole run |
| RunBackgroundJob.RunEndsWithCompleted | app/Console/Commands/RunBackgroundJob.php:135-137 | When some call returns, the run's last journal entry is the `completed` write: nothing is called or written after it |
| RunBackgroundJob.ReplayAttempt | app/Console/Commands/RunBackgroundJob.php:127-139 | One attempt's writes set the count and, when it returns or is the last, the terminal status |
| RunBackgroundJob.ReplayFailures | app/Console/Commands/RunBackgroundJob.php:125-141 | After k failing attempts the record shows attempts k and stays running until the last |
| RunBackgroundJob.ReplayIsSettled | app/Console/Commands/RunBackgroundJob.php:120-147 | Applying the run's journalled writes in order gives exactly the settled record |
| RunBackgroundJob.RejectedClassNeverRuns | app/Console/Commands/RunBackgroundJob.php:36-38 | A refused class yields one failed record (attempts 1, unauthorized message) and nothing else: no sleep, attempt, call or write |
| RunBackgroundJob.OneRecordPerRun | app/Console/Commands/RunBackgroundJob.php:36-46 | Every run inserts exactly one record, first; all later writes go to it and replay to the final record |
| RunBackgroundJob.AllowedRunSteps | app/Console/Commands/RunBackgroundJob.php:40-46 | The insert comes first; the sleep happens only when delay > 0, right after the insert, and every call comes after it; counts go 1..n, and calls go 1..n when the class and method exist and are absent otherwise |
| BackgroundJobController.Cancel | app/Http/Controllers/BackgroundJobController.php:31-40 | A running record becomes failed with the cancel message and the journal receives that write; a missing or non-running one leaves store and journal unchanged and gets the error |
| BackgroundJobController.Retry | app/Http/Controllers/BackgroundJobController.php:42-62 | A failed record is reset (running, attempts 0, no message), success is reported whether or not the class exists, and the class is dispatched when it exists; otherwise store and journal are unchanged |
| BackgroundJobController.RetryAllowListed | app/Http/Controllers/BackgroundJobController.php:51-54 | Corrected retry: the same reset, but only an allow-listed class is ever dispatched |
| BackgroundJobController.CancelChangesOnlyStatusAndMessage | app/Http/Controllers/BackgroundJobController.php:36 | Cancel keeps attempts, class, method, params and priority |
| BackgroundJobController.RetryResetsAttempts | app/Http/Controllers/BackgroundJobController.php:48 | Retry resets attempts to 0 whatever they were and clears the message, keeping the job's identity |
| Lifecycle.PutKeepsStoreConsistent | app/Models/BackgroundJob.php:13-15 | Storing a consistent record keeps every record of the table consistent |
| Lifecycle.HandledRecordIsConsistent | app/Console/Commands/RunBackgroundJob.php:76-147 | Every record a run leaves has at most 3 attempts and a message exactly when failed; an allowed run goes from running to a terminal status |
| Lifecycle.HandleKeepsStoreConsistent | app/Console/Commands/RunBackgroundJob.php:28-47 | A run of the command keeps the whole table consistent |
| Lifecycle.CancelKeepsConsistent | app/Http/Controllers/BackgroundJobController.php:34-36 | A cancel keeps the record invariant and is a running-to-failed transition |
| Lifecycle.CancelKeepsStoreConsistent | app/Http/Controllers/BackgroundJobController.php:31-40 | `cancel` keeps the whole table consistent, whether it goes through or is refused |
| Lifecycle.RetryKeepsConsistent | app/Http/Controllers/BackgroundJobController.php:46-48 | A retry keeps the record invariant and is a failed-to-running transition |
| Lifecycle.RetryKeepsStoreConsistent | app/Http/Controllers/BackgroundJobController.php:42-62 | `retry` keeps the whole table consistent, whether it goes through or is refused |
| Lifecycle.OmittedDelayAndPriority | app/Console/Commands/RunBackgroundJob.php:33-34 | An omitted delay is 0 and an omitted priority is 1, whether it arrives as null or as the signature default |
| Lifecycle.ExampleJobSucceeds | app/Console/Commands/RunBackgroundJob.php:120-147 | For the real application, a run whose n-th call is the first to return is completed with n attempts; counts persisted and calls made are 1..n |
| Lifecycle.ExampleJobFails | app/Console/Commands/RunBackgroundJob.php:120-147 | For the real application, a run whose every call raises is failed after 3 attempts with the third message, and calls 1, 2, 3 were made |
| Lifecycle.GreetingOptionValues | app/Console/Commands/RunBackgroundJob.php:29-34 | `--params='["hi"]'` with delay and priority omitted reads as params `["hi"]`, priority 1, delay 0 |
| Lifecycle.DelayOfTwo | app/Console/Commands/RunBackgroundJob.php:33 | `--delay=2` reads as 2 |
| Lifecycle.SucceedsFirstTime | app/Console/Commands/RunBackgroundJob.php:120-147 | ExampleJob whose first call returns: completed, attempts 1, one call in the journal, with the options' params and priority |
| Lifecycle.SucceedsOnThirdAttempt | app/Console/Commands/RunBackgroundJob.php:125-139 | Two raises then a return: completed, attempts 3, counts persisted 1, 2, 3, calls 1, 2, 3, no message kept |
| Lifecycle.AlwaysRaises | app/Console/Commands/RunBackgroundJob.php:175-184 | Three raises: failed, attempts 3, three calls, the third call's message kept |
| Lifecycle.RejectsUnlistedClass | app/Console/Commands/RunBackgroundJob.php:36-38 | A class off the list: one record, failed, attempts 1, "Unauthorized class: " + the class; the journal holds only the insert |
| Lifecycle.NotAllowedIsRejected | app/Console/Commands/RunBackgroundJob.php:68-71 | "Not.Allowed" is off the list |
| Lifecycle.SleepsBeforeFirstAttempt | app/Console/Commands/RunBackgroundJob.php:42-46 | A positive delay: the journal starts with the insert, the sleep of that many seconds is next, and the only call comes after both |
| Lifecycle.RetryDispatchesRefusedClass | app/Http/Controllers/BackgroundJobController.php:51-54 | A class the command refused is dispatched once its record is retried |
| Lifecycle.RetryAllowListedRefusesClass | app/Http/Controllers/BackgroundJobController.php:46-54 | With the corrected retry the same record is reset and nothing is dispatched |

## Left out

- `sleep($delay)` and its timing. The model records only that a sleep of `delay` seconds happens before the first attempt, and only when delay > 0.
- Logging and console output (`Log::channel`, `$this->info`, `$this->error`). They leave no state behind when they succeed; a logger that throws is covered below.
- JSON decoding of `--params` is a function parameter. Its failure modes (invalid JSON gives null, and the `array` return type then throws) are not modelled.
- Reflection (`class_exists`, `method_exists`, `new $className()`, `call_user_func_array`) is replaced by a registry and a per-attempt outcome oracle.
- TryAttempt: a PHP `Error` thrown by the call is not modelled. It escapes the `catch (Exception $e)` and aborts the command, leaving the record `running` with attempts = k; the oracle only returns or throws an `Exception`.
- The journal is ghost state: it is the model's record of the create and update calls made, the sleeps and the calls of the target, not a table of the application. It records an update call even when Eloquent sends no query because no attribute changed (the `failed` update at RunBackgroundJob.php:144 after the last attempt already wrote `failed` at :181).
- Failures of the store itself are not modelled. A database error thrown by `$job->update` inside the `try` would count as a failed attempt in the source.
- Failures of the logger are not modelled. A logging exception at RunBackgroundJob.php:133 is inside the `try`: it turns a call that returned into a failed attempt, and the target is called again. One at :177 is inside the `catch`: it escapes the command and leaves the record `running`.
- ExecuteJobWithRetries: the oracle is given as exactly MaxRetries outcomes, one per possible attempt. This is the shape of the model's input, not a restriction of the source.
- IntCast: numeric strings in exponent form are not modelled ("1e3" casts to 1000 in PHP and to 1 here), and neither is clamping to the 64-bit integer range.
- `index` (filters, ordering, pagination, view rendering) is a query-builder and view concern.
- `dispatch($instance)` in `retry`, and the constructor call before it, are a queue-framework call. The model keeps only a "dispatched" flag.
- `app/helpers.php` builds a shell command and spawns a detached process. This is process I/O.
- `app/Jobs/ExampleJob.php` is a stand-in payload that only logs and echoes.
- The Blade view and `routes/web.php` are UI and routing.
- Record timestamps (`created_at`, `updated_at`) are store-managed and unused by the core.
- Races between `cancel` and a run in flight are not modelled. There is no locking, so the last write wins. Runs, cancels and retries are separate atomic operations on the store here.

## Findings

| source | as written | input that shows it | evidently intended | confidence | as-written member | corrected member |
|---|---|---|---|---|---|---|
| app/Http/Controllers/BackgroundJobController.php:51-54 | `retry` instantiates the stored class with the stored params and dispatches it whenever the class exists. It never checks the allow-list. | Run the command with `App\Jobs\Other`, an existing class that is not allow-listed. The command refuses it and stores a failed record with the message "Unauthorized class: App\Jobs\Other". The dashboard shows no Retry button for that record (resources/views/background_jobs/index.blade.php:58), but a direct `POST /background-jobs/{id}/retry` (routes/web.php:19) passes the controller's guard, which checks only the status (:46). The controller then constructs and dispatches `App\Jobs\Other`. | Only allow-listed classes are ever instantiated, as the command's gate enforces | medium, not executed | BackgroundJobController.Retry, Lifecycle.RetryDispatchesRefusedClass | BackgroundJobController.RetryAllowListed, Lifecycle.RetryAllowListedRefusesClass |
