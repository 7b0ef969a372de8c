# Report jobs, student records and enrollments: a verified model

A Dafny model of the parts of the university API where several processes meet in one database: the
lease-based queue of transcript jobs, optimistic locking of student records beside a read cache, and
enrollment requests arbitrated by table constraints. `dafny verify dfyconfig.toml` checks all of it.

## How the model is built

Shared state is a value (`Jobs.Db`, `Students.Store`, `Enrollments.Tables`). Every committed transaction
is an event with a total step function written row by row, as the SQL statement is: `RowAfter` is what one
UPDATE leaves in one row. A disabled event leaves the state alone, so *any* sequence of events is a legal
run of any number of processes, including ones that crash (they commit nothing more), that lost their
lease, or whose claim was committed although the reply was lost. Whole-run results are lemmas by
induction over such sequences, for every start state unless a lemma says otherwise.

The functions of the application are methods of a class over the same tables, statement by statement.
Before each statement the class runs whatever events a `World` supplies; the world also decides which
statements fail (and whether a failed commit had taken effect), which tokens and jitter are drawn, which
rows are locked and whether Redis answers. Each contract holds for every world and says exactly what the
method itself adds:

- `Worker.Database` keeps a record, `own`, of the transaction each of its statements commits. `Recorded()`
  says that the tables are what the transactions of others and the recorded ones have made of the start,
  in statement order. Contracts say which transactions a method may add to the record (`Mending`,
  `Tending`, `Deciding`, ...), so nothing else can have been written.
- The student and enrollment requests are short enough to give the state outright: `Met(s, others, n, k)`
  is what statement `k` meets when the request has written nothing since statement `n`, and the state
  afterwards is a function of it.

`Quiet(world)` and `Alone(others)` name the case in which nobody else is active and nothing fails; in it the
contracts give the outcome as well. Since each method's own writes are events too, the events of a world
may stand for other executions of these very methods.

The step functions themselves are held to plain statements that use none of their helpers: `Columns` for the
job protocol, `RowColumns`, `TouchesOnly` and the `...Iff` and `...Outcome` lemmas for students and
enrollments, `RetryWindow` for the backoff and `GpaByBands` for the grades.

| file | content |
|---|---|
| `Entities.dfy` | rows of the student and enrollment tables |
| `Transcripts.dfy` | grade average and transcript assembly |
| `Interleavings.dfy` | own transactions woven among those of others |
| `Jobs.dfy` | job and report tables, claim order, transactions, runs |
| `Lifecycle.dfy` | job invariant, refinement to a one-way job, bounded status changes |
| `Columns.dfy` | what each statement of the job protocol writes, column by column |
| `Fencing.dfy` | versions, ownership, attempts, lease safety |
| `Backoff.dfy` | retry delays over whole runs |
| `Selection.dfy` | which job a claim takes; no job is left behind |
| `BulkRepair.dfy` | the startup repair |
| `Executions.dfy` | what one execution may commit, answer and find |
| `Worker.dfy` | worker execution, heartbeat, retrying claim, worker loop |
| `ReportsApi.dfy` | creating and polling a job |
| `Students.dfy`, `StudentRequests.dfy` | versioned rows, read cache, the student requests |
| `Enrollments.dfy` | enrollment requests and constraints |

## Assumptions

One shared clock that does not go back; a statement may carry an older reading of it. Rows of the job and
report tables are never deleted (nothing in the application deletes them). Settings are constant and
satisfy the bounds of `app/config.py`. A statement that commits is atomic at READ COMMITTED, and
uniqueness, foreign keys and check constraints are evaluated at the commit. Time and delays are exact
reals. Worker tokens need not be unique: the fencing results rest on `job_version` alone.

## What the code does that one might not expect

- A job that is `failed` can still become `completed`: an execution that lost its lease may deliver
  (`FailedUntilReported` says exactly when).
- `job_max_attempts` bounds the claims on a job exactly when no lease runs out on the last permitted
  attempt and is taken over (`AttemptLimitHoldsIff`, with `TakeoverExceedsLimit` as the counterexample).
  A claim is beyond the limit exactly when the row it takes is abandoned with its attempts used up
  (`ExceedsLimitIff`); renewing the last permitted attempt in time is enough (`LimitHoldsIfRenewed`).
- The repository's README gives the backoff as `base * 2^attempt` and says reports are reconciled on every
  claim. The code uses exponent `attempt_count - 1` and repairs in bulk only at start; the model follows
  the code.
- `update_student` invalidates the cache after the commit, which its comment says excludes repopulation
  with the old row. A slow reader still can (`SlowReaderLeavesStaleEntry`); the entry it writes is current
  exactly when the version has not moved since its read (`FillIsFreshIff`).
- `delete_user` unlinks the student of the user, which changes the student row and its version, and does
  not invalidate the cache: with nobody else active the old row stays readable from the cache for up to
  60 seconds, exactly when it was cached (`UserRemovalCoherentIff`).
- Enrollment rows have no version column, so `update_enrollment` loses updates in two ways. A column that
  a request wants as it read it is not written, so another request's value stays (`GradeUpdateLost`);
  `RequestHoldsIff` says exactly when the request is delivered. And a column that is written replaces what
  others have committed since the reading, unseen, although both requests hold after their own commits
  (`GradeOverwritten`); `OverwritesNothingIff` says exactly when no such value is replaced, and
  `UpdatesKeptIff` says both over whole runs: requests that set no common column never disturb each other.
- With no overlapping request, the 409 "already enrolled or code duplicate" of the commit in
  `create_enrollment` is only ever caused by a check constraint (`AtomicCreateOutcome`).
- A worker that answers `completed` without a result is possible: its failure path read a job that somebody
  else had completed. The report then exists (`Answered`).

## Model

| member | source | states |
|---|---|---|
| Jobs.PrecedesOrders | app/workers/tasks.py:108-113 | the ORDER BY of the claim query is a strict total order on jobs with distinct ids |
| Jobs.NextCandidate | app/workers/tasks.py:97-117 | none exactly when every claimable job is locked; otherwise the first unlocked claimable job in that order |
| Jobs.FirstUnique | app/workers/tasks.py:105-117 | the selected job is unique |
| Jobs.RunExtends | app/workers/tasks.py:204-231 | over any run no row disappears and no report changes |
| Columns.ClaimWrites | app/workers/tasks.py:93-142 | a claim takes an unlocked row that is queued and due or in processing with its lease run out, none only if there is none, and writes exactly the claim's columns |
| Columns.RenewWrites | app/workers/tasks.py:151-164 | a renewal moves the lease of exactly the row in processing under token and version, and nothing else |
| Columns.RepairWrites | app/workers/tasks.py:62-90 | a repair completes exactly the reported rows that are not completed, clearing token, lease, retry time and error |
| Columns.PersistWrites | app/workers/tasks.py:204-231 | a result is stored exactly if the job exists and has none, and then completes the job |
| Columns.FailWrites | app/workers/tasks.py:252-274 | a failure changes exactly the row its claim owns: failed if permanent or out of attempts, otherwise queued for later, with the message |
| Columns.EnqueueWrites | app/routers/reports.py:60-69 | a new job is queued under its owner and target, free at once |
| Columns.TouchesOnly | app/workers/tasks.py:62-278 | no transaction changes a row or report other than its target's |
| Lifecycle.RequestFixed | app/models/job.py:28-51 | over any run owner, type, target and creation time of a job never change |
| Lifecycle.RunKeepsInv | app/workers/tasks.py:51-59 | in every reachable state: completed iff reported, processing iff token iff lease, retry time only when queued, last error only when queued or failed, attempts equal version, queued below the attempt limit, leases and retries within a bounded distance of the clock |
| Lifecycle.StepRefines | app/workers/tasks.py:62-278 | each transaction is a stutter of the one-way job, its creation, a delivery by an insert, or giving up by the live owner |
| Lifecycle.RunRefines | app/workers/tasks.py:62-278 | over any run and from any state a delivered result stays, unchanged, and a job given up is never pending again |
| Lifecycle.FailedUntilReported | app/workers/tasks.py:216-223 | a failed job keeps its row until a report for it is inserted, and is completed from then on |
| Lifecycle.FailureDecides | app/workers/tasks.py:252-265 | an owner's failure gives up exactly when permanent or out of attempts; otherwise the job is claimable from between 1 and 1.5 base delays on, not earlier, not later |
| Lifecycle.BoundedStatusChanges | app/workers/tasks.py:97-132 | a job changes status at most 2 * max_attempts + 2 times, however often leases are taken over |
| Fencing.VersionsIssuedOnce | app/workers/tasks.py:118-142 | over any run the claims on a job carry strictly increasing versions |
| Fencing.GrantFencesOlder | app/workers/tasks.py:118-148 | a new grant ends every older claim on the job for the rest of the run |
| Fencing.FencedForever | app/workers/tasks.py:145-148 | a claim that no longer owns its job never owns it again |
| Fencing.FencedIsHarmless | app/workers/tasks.py:151-164 | any later renewal or failure of such a claim changes nothing |
| Fencing.AttemptsCountClaims | app/workers/tasks.py:124-125 | attempts, version and number of claims agree for every job of every run |
| Fencing.AttemptLimitHoldsIff | app/workers/tasks.py:101-104 | claims are at most max_attempts plus late takeovers, and at most max_attempts exactly when there is none |
| Fencing.ExceedsLimitIff | app/workers/tasks.py:97-104 | in any reachable state a claim exceeds max_attempts exactly when the row it takes is abandoned with its attempts used up |
| Fencing.LastAttemptKept | app/workers/tasks.py:151-164 | no other claim follows a last permitted attempt that renews in time for as long as it owns the job |
| Fencing.LimitHoldsIfRenewed | app/workers/tasks.py:101-104 | the attempt limit holds in every run whose last permitted attempts renew in time, whatever the other attempts do |
| Fencing.TakeoverExceedsLimit | app/workers/tasks.py:101-104 | a concrete run in which a job is claimed more often than max_attempts |
| Fencing.LeaseSafety | app/workers/tasks.py:151-164 | while renewals stay within one lease of each other no other claim on the job is granted; it is still owned unless somebody completed it |
| Fencing.GrantedLeaseSafe | app/workers/tasks.py:118-132 | the same from the grant on, the lease counting from the clock reading of the claim |
| Fencing.LateRenewalExposes | app/workers/tasks.py:101-104 | once the clock has passed the lease of a live claim, a takeover can be granted |
| Fencing.LiveFixesAttempts | app/workers/tasks.py:242-277 | while a claim stays live the attempt number, type and target of its job do not change |
| Backoff.RetryWindow | app/workers/tasks.py:252-265 | a requeued attempt is claimable again after 1 to 1.5 times its delay, which is the base for the first attempt and doubles with each one; attempts from the limit on are not requeued |
| Backoff.LongestWaitIs | app/workers/tasks.py:118-132 | the longest wait of a job is one lease or 1.5 times the delay of the last retried attempt |
| Backoff.DelaysIncrease | app/workers/tasks.py:261-265 | a job's delays strictly increase over any run, whatever the jitter |
| Backoff.BackoffBudget | app/workers/tasks.py:261-265 | over its life a job waits for retries at most 1.5 * b * (2^(max-1) - 1): nothing, 1.5 b or 4.5 b for one, two or three attempts |
| Columns.ClaimOrder | app/workers/tasks.py:108-113 | queued before abandoned, never retried before retried, earlier retry before later, older before younger, and otherwise the smaller id |
| Selection.SkipLockedSerializes | app/workers/tasks.py:114-120 | of two overlapping claims the second takes the job it would take after the first commits |
| Selection.Drain | app/workers/tasks.py:93-142 | at a fixed clock repeated claims hand out all claimable jobs in order, each once, then none |
| Selection.NeverStuck | app/workers/tasks.py:97-104 | in every reachable state an unfinished job becomes claimable after its lease or retry time, which is boundedly near |
| Selection.EventuallyClaimed | app/workers/runner.py:63-74 | after that time a round of claims hands the job out |
| BulkRepair.BulkIsPointwise | app/workers/tasks.py:79-90 | from any state the bulk repair equals repairing all reported jobs one by one, in any order, up to updated_at |
| BulkRepair.BulkRepairs | app/workers/tasks.py:79-90 | every reported job ends completed, no other row changes, a second repair is idle |
| BulkRepair.StartupRepairIdle | app/workers/runner.py:17-28 | in runs of the present code the startup repair changes nothing |
| Worker.Database.ClaimNextJob | app/workers/tasks.py:93-142 | commits one atomic claim built from an earlier clock reading and nothing else; an error may hide the commit |
| Worker.Database.RenewLease | app/workers/tasks.py:151-164 | commits one atomic renewal and nothing else, answering whether the claim was live |
| Worker.Database.ReconcileReportedJob | app/workers/tasks.py:62-76 | read and later repair amount to one atomic repair in the state the last statement meets, or to a read that saw no report; nothing else is written |
| Worker.Database.ReconcileReportedJobs | app/workers/tasks.py:79-90 | commits one atomic bulk repair and nothing else, answering the number of jobs it changed |
| Worker.Database.PersistOrAdoptReport | app/workers/tasks.py:204-231 | inserts exactly its own report if there is none, else writes at most a repair of the job; returns the one stored report; the constraint error is re-raised only if the job does not exist |
| Worker.Database.RecordFailure | app/workers/tasks.py:234-278 | in the state its last statement meets it is one atomic step computed from the then current attempt count, with the drawn jitter, or nothing, and after an error one of the two; nothing else is written |
| Executions.FailureIsAtomic | app/workers/tasks.py:252-274 | values computed from the earlier reading are those of the atomic transition in the state the update meets |
| Worker.Database.Heartbeat | app/workers/tasks.py:167-201 | commits only renewals of the claim and repairs of its job; a set flag means a report exists; it stops early only for a report or a lost claim |
| Worker.Database.UnderLease | app/workers/tasks.py:305-332 | a set flag always finds a report, so the lost-lease error is never raised |
| Worker.Database.ProcessClaimedReport | app/workers/tasks.py:281-393 | the outcome is a run of the others' transactions woven with its own, which are repairs of the job, renewals of the claim and at most one delivery of the generated transcript or failure of the claim; a returned result is the stored report, a job reported before is answered with its result, `completed` is answered only for a reported job, and an execution that answers has let go of its job; left alone it is exactly one delivery, failure, retry or no-op, for every input |
| Executions.ExecutionWrites | app/workers/tasks.py:281-393 | what an execution left alone leaves in the row, the report and its answer, for every kind of generation |
| Executions.ReleasedStays | app/workers/tasks.py:145-148 | a claim that was handed out and let go never holds its job again |
| Executions.FirstResultWins | app/workers/tasks.py:207-213 | all results executions ever hand out for one job are the same |
| Worker.Database.ClaimWithRetry | app/workers/runner.py:31-50 | commits only claims, at most the given number, stopping at the first that succeeds and raising only if all failed; a returned claim is live and its own |
| Worker.Database.RunOnce | app/workers/runner.py:53-60 | answers no job only if its last claim was granted none, and executes every claim it was granted, which is released when the execution answers; left alone it is that claim followed by the one transaction of the execution, for every generation |
| Worker.Database.WorkerLoop | app/workers/runner.py:63-74 | renews and fails only under claims it took itself; keeps the invariant; undisturbed, leaves no job in processing under a claim of its own, executes every claimable job exactly once and no other, and completes them all if every generation succeeds; from any state completes the jobs that already had a report |
| ReportsApi.GetJobStatus | app/routers/reports.py:79-107 | writes nothing; at one of the two instants read, exactly administrators and the owner see the job's row, as completed with the stored result if there is a report and with its own status otherwise |
| ReportsApi.CompletionIsStable | app/routers/reports.py:96-107 | a result once shown is shown by every later poll |
| ReportsApi.ExportTranscript | app/routers/reports.py:43-76 | queues a claimable job under a new id exactly for students the requester may see, and writes nothing else, or nothing at all when it refuses |
| Students.RunKeepsInv | app/models/student.py:34-40 | over every transaction, also the unlinking by a deleted user: constraints hold, versions form a chain from 1, the row is its last link, the cache holds only links |
| Students.ConstraintsHold | app/models/student.py:19-32 | in every reachable state two students differ in address and linked user, and department and user exist |
| Students.InsertAcceptedIff | app/crud/student.py:29-41 | a new row is accepted exactly if its address is free and its department exists |
| Students.WriteAcceptedIff | app/models/student.py:19-40 | a guarded write is accepted exactly at its version, if what it sets is free and exists |
| Students.RowColumns | app/crud/student.py:70-77 | what each accepted transaction leaves in its row and in the cache, column by column |
| Students.TouchesOnly | app/crud/student.py:29-252 | no transaction changes a row, a version or a cache entry other than its target's |
| Students.NoLostUpdate | app/crud/student.py:50-103 | over any run the row is the fold of all successful writes, unlinking included, in commit order and the version counts them |
| Students.SameVersionSameRow | app/models/student.py:34-40 | a row still at the version a request read is the row it read |
| Students.AtomicUpdateMeaning | app/crud/student.py:61-77 | a successful update sets exactly the requested fields, from exactly the client's version, or writes nothing |
| Students.AtomicUpdateOutcome | app/crud/student.py:50-103 | it is refused exactly for a missing student, another version, an address of somebody else or a missing department, and then writes nothing |
| Students.SupersededRefused | app/crud/student.py:61-68 | a superseded version is refused now and ever after |
| Students.CachedIsCommitted | app/crud/student.py:106-153 | a cached student is a committed version not newer than the row, lives at most 60 s, and if superseded is refused as client version |
| Students.FillIsFreshIff | app/crud/student.py:138-151 | the entry a reader writes is current exactly when the version has not moved since its read |
| Students.UserRemovalCoherentIff | app/crud/user.py:139-153 | deleting a user unlinks the student without invalidating it: the cache stays coherent exactly when the student was not cached, otherwise the old row lives on for at most 60 s |
| Students.SlowReaderLeavesStaleEntry | app/crud/student.py:100-102 | a concrete run leaving the old row in the cache after the invalidation |
| StudentRequests.StudentTable.UpdateStudent | app/crud/student.py:50-103 | under any interleaving the state afterwards is exactly that of the indivisible update at its read or its commit, replacing the row it read, then published; a conflict means a taken address or a missing department; nothing else is written |
| StudentRequests.PublishedUncached | app/crud/student.py:17-26 | after a success the student is not cached, if Redis answers |
| StudentRequests.StudentTable.LinkStudentToUser | app/crud/student.py:202-252 | a link changes exactly the unlinked row it read, to an existing user no student has; every refusal names a true reason and writes nothing |
| StudentRequests.AtomicLinkOutcome | app/crud/student.py:202-230 | without overlap a link succeeds exactly if both exist and neither is linked, and each refusal has its own reason |
| StudentRequests.StudentTable.ReadStudent | app/crud/student.py:128-153 | answers a committed version, from the cache only for administrators, own row only for users; writes at most the cache entry of the row just read; without overlap the answer is the current row and the cache stays coherent |
| StudentRequests.StudentTable.DeleteStudent | app/crud/student.py:174-193 | deletes exactly the row as read unless it has enrollments, or writes nothing; keeps the cache coherent without overlap |
| StudentRequests.StudentTable.CreateStudent | app/crud/student.py:29-41 | starts a version chain under a new id, refusing exactly a taken address or a missing department, and writes nothing else |
| Enrollments.ConstraintsHold | app/models/enrollment.py:44-56 | unique pair, unique code, grade range, not(active and withdrawn) and references hold for any two rows of every reachable state |
| Enrollments.SecondRefused | app/crud/enrollment.py:50-61 | a second insert of the same pair or code is refused while the first row is there |
| Enrollments.InsertableIff | app/models/enrollment.py:44-56 | the commit accepts a row exactly when student and offering exist, grade and flags are within the checks, no row has the same student and offering, and none the same code |
| Enrollments.EnrollmentTable.CreateEnrollment | app/crud/enrollment.py:10-67 | accepts exactly when the row could be inserted in the tables the deciding statement meets and then adds that row alone; otherwise changes nothing for a reason true then; without overlap the checks answer in the order of the code |
| Enrollments.AtomicCreateOutcome | app/crud/enrollment.py:10-67 | without overlap a create succeeds exactly for an existing student and offering, a free pair, a free code and a row within the checks, and each refusal has its own reason |
| Enrollments.NetWriteColumns | app/crud/enrollment.py:83-94 | an update writes exactly the columns asked to be another value than was read |
| Enrollments.WriteAcceptedIff | app/models/enrollment.py:44-56 | a commit is refused exactly if the row it would leave breaks a constraint |
| Enrollments.RowColumns | app/crud/enrollment.py:50-98 | what each accepted transaction leaves in its row, column by column |
| Enrollments.TouchesOnly | app/crud/enrollment.py:10-168 | no transaction changes a row other than its target |
| Enrollments.EnrollmentTable.UpdateEnrollment | app/crud/enrollment.py:70-111 | in the tables the commit meets, writes exactly the columns that differed from the row as read if the constraints allow it, and otherwise nothing; a row gone before the refresh is reported |
| Enrollments.EnrollmentTable.DeleteEnrollment | app/crud/enrollment.py:150-168 | found exactly when the row is there at the read; then removes that row and nothing else from the tables the commit meets |
| Enrollments.RequestHoldsIff | app/crud/enrollment.py:83-98 | the requested values are in place exactly when the requested columns found equal are still equal at the commit |
| Enrollments.OverwritesNothingIff | app/crud/enrollment.py:83-98 | a write replaces no value committed since its reading exactly when every column it sets is still as read or already as written |
| Enrollments.RowIsFold | app/crud/enrollment.py:83-98 | over any run a surviving row is the fold of all successful writes in commit order |
| Enrollments.UpdatesKeptIff | app/crud/enrollment.py:83-98 | the same two conditions over any run between reading and write; if the writes between set no common column with the request, nothing is replaced and the request is delivered |
| Enrollments.GradeUpdateLost | app/crud/enrollment.py:83-98 | a concrete interleaving in which a requested grade is not written |
| Enrollments.GradeOverwritten | app/crud/enrollment.py:83-98 | a concrete interleaving in which a committed grade is overwritten unseen, both requests having held |
| Transcripts.CalculateGpa | app/services/reports.py:9-30 | computes the rounded mean of the banded grade points |
| Transcripts.GpaByBands | app/services/reports.py:9-30 | the average is the nearest hundredth to the mean counted by grade bands, an exact tie going to the even one |
| Transcripts.TranscriptAverage | app/services/reports.py:48-69 | the same for a transcript, over the enrollments that have a grade |
| Transcripts.GpaAccurate | app/services/reports.py:30 | the average is within 0.005 of the exact mean and at most 4.00 |
| Transcripts.GpaMonotone | app/services/reports.py:13-30 | raising grades never lowers the average |
| Transcripts.GpaIgnoresOrder | app/services/reports.py:13-30 | the order of the grades does not matter |
| Transcripts.GenerateTranscript | app/services/reports.py:33-69 | every enrollment listed once in order; ungraded ones count as courses but not towards the average |

## Left out

- HTTP routing, validation of request bodies, authentication, logging, CLI, migrations, containers: no protocol state.
- The other CRUD modules and the requests of `app/crud/user.py`: wrappers around one commit, or rules that hold only without overlap; the unlinking by `delete_user` is an event.
- Heartbeat: the thread's wake-ups are taken in one piece while the transcript is generated, which only reads; what it does after the join times out is among the events of the world.
- WorkerLoop: runs any given number of rounds of the endless loop, and sleeping between rounds is not modelled.
- CalculateGpa: exact arithmetic instead of floats, so an average exactly halfway between two hundredths may round differently.
- GenerateTranscript: the two reads of one transcript are arguments; nothing is said about them being one snapshot, which the code does not promise.
- ProcessClaimedReport: the id inside the message for a vanished student is not spelled out, and every database exception has the same text.
- RecordFailure: column widths of attempt_count and overflow of dates are not modelled.
- ClaimOrder: ids are compared character by character, not by the collation of the database.
- DeleteStudent: the flush of a delete, which first touches the enrollments, is one statement.
- UpdateStudent: database outages and values too long for their column are not modelled; a request that dies after its commit is an event without invalidation.
- CreateEnrollment: as for students, values too long for their column are not modelled.
- Deadlocks, connection pools and the internals of PostgreSQL, SQLAlchemy and Redis.
