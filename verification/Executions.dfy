/** What one execution of a job may commit, answer and find, on values
    (app/workers/tasks.py, app/workers/runner.py).

    The `World` decides what an execution cannot: which transactions of other executions commit before
    each of its statements, which statements fail (and whether their commit had already taken effect),
    what tokens and jitter are drawn and which rows are locked. */
module Executions {
  import opened Entities
  import opened Transcripts
  import opened Jobs
  import opened Lifecycle
  import opened Fencing
  import opened Selection

  datatype Fault = NoFault | BeforeCommit | AfterCommit

  datatype World = World(
    others: nat -> seq<Event>, fault: nat -> Fault, token: nat -> string, locked: nat -> set<JobId>,
    uniform: nat -> real)

  /** random.uniform(0, most) when the world would rather have `wish`: any value of the range, and no other. */
  function Drawn(wish: real, most: real): (r: real)
    ensures 0.0 <= most ==> 0.0 <= r <= most && (0.0 <= wish <= most ==> r == wish)
  {
    if wish <= 0.0 then 0.0 else if wish <= most then wish else most
  }

  /** Nobody else is active and no statement fails. */
  ghost predicate Quiet(world: World) {
    forall n :: world.others(n) == [] && world.fault(n).NoFault?
  }

  /** A statement's result, or the database exception it raised. */
  datatype Reply<+T> = Ok(value: T) | DbError | IntegrityError

  datatype WorkStatus = JobNotFound | AlreadyProcessing | JobIs(status: Status)

  datatype WorkResult = WorkResult(status: WorkStatus, result: Option<Transcript>)

  /** What generating the transcript does: a result (none if the student is gone) or an exception. */
  datatype Generation = Generated(transcript: Option<Transcript>) | Raised(text: string)

  /** How the body of the try statement ends. */
  datatype Flow =
    | Proceed
    | Returned(result: WorkResult)
    | PermanentJobError(text: string)
    | LeaseLostError
    | OtherError(text: string)

  function Unsupported(reportType: string): string {
    "PermanentJobError: Unsupported report type: " + reportType
  }

  const STUDENT_GONE := "PermanentJobError: Student no longer exists"

  /** The longest prefix that fits the column. */
  function Truncated(text: string): (r: string)
    ensures r <= text && |r| == if |text| <= 1000 then |text| else 1000
  {
    if |text| <= 1000 then text else text[..1000]
  }

  function ResultOf(generation: Generation): Option<Transcript> {
    if generation.Generated? then generation.transcript else None
  }

  // ----- the transactions an execution commits itself

  /** Statement by statement, what an execution has committed. */
  type Log = seq<Option<Event>>

  /** Since `a` nothing. */
  ghost predicate Silent(a: Log, b: Log) {
    a <= b && forall i | |a| <= i < |b| :: b[i].None?
  }

  /** Since `a` nothing but repairs of the job. */
  ghost predicate Mending(a: Log, b: Log, id: JobId) {
    a <= b && forall i | |a| <= i < |b| && b[i].Some? :: b[i].value.Repair? && b[i].value.id == id
  }

  predicate Tends(e: Event, claim: Claim) {
    (e.Repair? && e.id == claim.jobId) || (e.Renew? && e.claim == claim)
  }

  /** The transactions that settle a job: handing in the result, or recording a failure. */
  predicate Decides(e: Event, claim: Claim, result: Option<Transcript>) {
    (e.Persist? && e.id == claim.jobId && Some(e.result) == result) || (e.Fail? && e.claim == claim)
  }

  /** Since `a` nothing but repairs of the claim's job and renewals of the claim. */
  ghost predicate Tending(a: Log, b: Log, claim: Claim) {
    a <= b && forall i | |a| <= i < |b| && b[i].Some? :: Tends(b[i].value, claim)
  }

  /** Since `a` nothing but that and at most one transaction that settles the job. */
  ghost predicate Deciding(a: Log, b: Log, claim: Claim, result: Option<Transcript>) {
    && a <= b
    && (forall i | |a| <= i < |b| && b[i].Some? :: Tends(b[i].value, claim) || Decides(b[i].value, claim, result))
    && (forall i, k | |a| <= i < k < |b| && b[i].Some? && b[k].Some? ::
          Tends(b[i].value, claim) || Tends(b[k].value, claim))
  }

  /** Since `a` nothing, except that the last statement may have recorded a failure of the claim. */
  ghost predicate FailingOnce(a: Log, b: Log, claim: Claim) {
    && a <= b && |a| < |b|
    && (forall i | |a| <= i < |b| - 1 :: b[i].None?)
    && (b[|b| - 1].Some? ==> b[|b| - 1].value.Fail? && b[|b| - 1].value.claim == claim)
  }

  /** Since `a` nothing but claims. */
  ghost predicate Claiming(a: Log, b: Log) {
    a <= b && forall i | |a| <= i < |b| && b[i].Some? :: b[i].value.ClaimNext?
  }

  /** The last statement committed the claim. */
  ghost predicate JustClaimed(own: Log, claim: Claim) {
    own != [] && own[|own| - 1].Some? && own[|own| - 1].value.ClaimNext? && own[|own| - 1].value.token == claim.token
  }

  ghost predicate TakenBetween(own: Log, from: nat, to: nat, token: string) {
    exists i | from <= i < to <= |own| :: own[i].Some? && own[i].value.ClaimNext? && own[i].value.token == token
  }

  /** Since `a` jobs were neither created nor the clock moved, and every renewal and failure was made under
      a token of an earlier claim, taken since `a` as well. */
  ghost predicate UnderOwnClaims(a: Log, b: Log) {
    && a <= b
    && forall i | |a| <= i < |b| && b[i].Some? ::
         && !b[i].value.Enqueue? && !b[i].value.Tick?
         && (b[i].value.Renew? || b[i].value.Fail? ==> TakenBetween(b, |a|, i, b[i].value.claim.token))
  }

  lemma RoundUnderOwnClaims(
    a: Log, b: Log, c: Log, d: Log, claim: Option<Claim>, result: Option<Transcript>)
    requires UnderOwnClaims(a, b) && Claiming(b, c)
    requires if claim.None? then d == c
             else |b| < |c| && JustClaimed(c, claim.value) && Deciding(c, d, claim.value, result)
    ensures UnderOwnClaims(a, d)
  {
    forall i | |a| <= i < |d| && d[i].Some?
      ensures !d[i].value.Enqueue? && !d[i].value.Tick?
      ensures d[i].value.Renew? || d[i].value.Fail? ==> TakenBetween(d, |a|, i, d[i].value.claim.token)
    {
      if i < |b| && (d[i].value.Renew? || d[i].value.Fail?) {
        assert TakenBetween(b, |a|, i, b[i].value.claim.token);
        var k :| |a| <= k < i && b[k].Some? && b[k].value.ClaimNext? && b[k].value.token == b[i].value.claim.token;
        assert d[k] == b[k];
      } else if |c| <= i {
        assert d[|c| - 1] == c[|c| - 1];
      }
    }
  }

  /** Every one of the statements fails. */
  ghost predicate AllFail(world: World, from: nat, to: nat) {
    forall n: nat | from <= n < to :: !world.fault(n).NoFault?
  }

  lemma FailingLast(a: Log, x: Option<Event>, claim: Claim)
    requires x.Some? ==> x.value.Fail? && x.value.claim == claim
    ensures FailingOnce(a, a + [x], claim)
  {
  }

  lemma FailingLater(a: Log, b: Log, claim: Claim)
    requires FailingOnce(a + [None], b, claim)
    ensures FailingOnce(a, b, claim)
  {
    assert forall i | |a| < i < |b| - 1 :: b[i].None?;
  }

  lemma MendingIsTending(a: Log, b: Log, c: Log, claim: Claim)
    requires Tending(a, b, claim) && Mending(b, c, claim.jobId)
    ensures Tending(a, c, claim)
  {
  }

  lemma TendingOn(a: Log, b: Log, c: Log, claim: Claim)
    requires Tending(a, b, claim) && Tending(b, c, claim)
    ensures Tending(a, c, claim)
  {
  }

  lemma DecidingOn(a: Log, b: Log, c: Log, claim: Claim, result: Option<Transcript>)
    requires Tending(a, b, claim)
    requires Deciding(b, c, claim, result) || FailingOnce(b, c, claim)
    ensures Deciding(a, c, claim, result)
  {
  }

  lemma TendsOrDecides(a: Log, b: Log, c: Log, claim: Claim, result: Option<Transcript>)
    requires Tending(a, b, claim)
    requires Tending(b, c, claim) || Deciding(b, c, claim, result)
    ensures if Tending(b, c, claim) then Tending(a, c, claim) else Deciding(a, c, claim, result)
  {
  }

  lemma RecoveredLog(a: Log, b: Log, c: Log, claim: Claim, result: Option<Transcript>)
    requires || (Tending(a, b, claim) && Deciding(b, c, claim, result))
             || (Deciding(a, b, claim, result) && Tending(b, c, claim))
    ensures Deciding(a, c, claim, result)
  {
  }

  function Unfinished(db: Db): set<JobId> {
    set id | id in db.jobs && !db.jobs[id].status.Completed? && id in db.reports
  }

  /** The rows a bulk repair changes. */
  lemma UnfinishedChange(cfg: Settings, db: Db, e: Event)
    requires e.RepairAll? && Timely(db, e)
    ensures Unfinished(db) == set id | id in db.jobs && RowAfter(cfg, db, e, id).status != db.jobs[id].status
    ensures Step(cfg, db, e)
            == db.(jobs := map id | id in db.jobs ::
                     if id in Unfinished(db) then Completing(db.jobs[id], e.now) else db.jobs[id])
  {
  }

  /** The one thing that happened is the repair of the job. */
  ghost predicate Repairs(cfg: Settings, at: Db, after: Db, id: JobId) {
    exists now :: after == Step(cfg, at, Repair(id, now))
  }

  // ----- what an execution answers

  /** Nobody else is active and the claim owns its unreported job. */
  ghost predicate QuietlyOwned(world: World, db: Db, claim: Claim) {
    && Quiet(world)
    && claim.jobId in db.jobs && claim.jobId !in db.reports && Live(db.jobs[claim.jobId], claim)
  }

  ghost predicate SameOrRenewed(cfg: Settings, a: Db, b: Db, claim: Claim) {
    b == a || b == Step(cfg, a, Renew(claim, a.clock, a.clock))
  }

  /** What an execution that looked at the job at some time between `before` and `after` may answer. */
  ghost predicate Answered(cfg: Settings, before: Db, after: Db, id: JobId, w: WorkResult) {
    && (w.result.Some? ==> w.status == JobIs(Completed) && id in after.reports && after.reports[id] == w.result.value)
    && (w.status.JobNotFound? ==> id !in before.jobs)
    && (w.status == JobIs(Completed) && Inv(cfg, before) ==> id in after.reports)
    && (id in before.jobs && id in before.reports ==> w.result.Some?)
  }

  /** The transition a failing execution applies when left alone. */
  ghost predicate FailureOutcome(
    cfg: Settings, db: Db, claim: Claim, permanent: bool, text: string, w: WorkResult, e: Event)
    requires claim.jobId in db.jobs
  {
    var attempts := db.jobs[claim.jobId].attempts;
    && e.Fail? && e.claim == claim && e.permanent == permanent && e.message == Truncated(text) && e.now == db.clock
    && JitterInRange(cfg, attempts, e.jitter)
    && w == WorkResult(JobIs(if GivesUp(cfg, attempts, permanent) then Failed else Queued), None)
  }

  /** The answer of the checks before any work is done; none if the execution goes on. */
  function EntryResult(db: Db, claim: Claim): Option<WorkResult> {
    if claim.jobId !in db.jobs then Some(WorkResult(JobNotFound, None))
    else if claim.jobId in db.reports then Some(WorkResult(JobIs(Completed), Some(db.reports[claim.jobId])))
    else
      var job := db.jobs[claim.jobId];
      if !job.status.Processing? then Some(WorkResult(JobIs(job.status), None))
      else if !OwnsJob(job, claim) then Some(WorkResult(AlreadyProcessing, None))
      else None
  }

  /** What an execution left alone does, in every case: its answer and the one transaction it amounts to. */
  ghost predicate Expected(cfg: Settings, db: Db, claim: Claim, generation: Generation, w: WorkResult, e: Event) {
    var id := claim.jobId;
    match EntryResult(db, claim)
    case Some(result) => w == result && e == Repair(id, db.clock)
    case None =>
      if db.jobs[id].reportType != "transcript" then
        FailureOutcome(cfg, db, claim, true, Unsupported(db.jobs[id].reportType), w, e)
      else match generation
        case Generated(Some(t)) => e == Persist(id, t, db.clock) && w == WorkResult(JobIs(Completed), Some(t))
        case Generated(None) => FailureOutcome(cfg, db, claim, true, STUDENT_GONE, w, e)
        case Raised(text) => FailureOutcome(cfg, db, claim, false, text, w, e)
  }

  /** How the try statement ends when left alone. */
  ghost predicate Produced(
    cfg: Settings, db: Db, after: Db, claim: Claim, reportType: string, generation: Generation, f: Flow)
  {
    if reportType != "transcript" then
      f == PermanentJobError(Unsupported(reportType)) && SameOrRenewed(cfg, db, after, claim)
    else match generation
    case Raised(text) => f == OtherError(text) && SameOrRenewed(cfg, db, after, claim)
    case Generated(None) => f == PermanentJobError(STUDENT_GONE) && SameOrRenewed(cfg, db, after, claim)
    case Generated(Some(t)) =>
      && f == Returned(WorkResult(JobIs(Completed), Some(t)))
      && after == Step(cfg, db, Persist(claim.jobId, t, db.clock))
  }

  lemma RepairOfUnreported(cfg: Settings, db: Db, e: Event)
    requires e.Repair?
    ensures e.id !in db.reports ==> Step(cfg, db, e) == db
  {
    if e.id !in db.reports {
      StepLeavesRows(cfg, db, e);
    }
  }

  lemma RenewAgain(cfg: Settings, db: Db, claim: Claim)
    ensures var e := Renew(claim, db.clock, db.clock);
            Step(cfg, Step(cfg, db, e), e) == Step(cfg, db, e)
  {
    var e := Renew(claim, db.clock, db.clock);
    assert Step(cfg, Step(cfg, db, e), e).jobs == Step(cfg, db, e).jobs;
  }

  lemma PersistAfterRenew(cfg: Settings, start: Db, at: Db, claim: Claim, t: Transcript)
    requires claim.jobId in start.jobs && claim.jobId !in start.reports && Live(start.jobs[claim.jobId], claim)
    requires SameOrRenewed(cfg, start, at, claim)
    ensures claim.jobId in at.jobs && claim.jobId !in at.reports && at.clock == start.clock
    ensures Step(cfg, at, Persist(claim.jobId, t, start.clock))
            == Step(cfg, start, Persist(claim.jobId, t, start.clock))
  {
    var e := Persist(claim.jobId, t, start.clock);
    assert Step(cfg, at, e).jobs == Step(cfg, start, e).jobs;
  }

  lemma FailAfterRenew(cfg: Settings, start: Db, at: Db, claim: Claim, e: Event)
    requires claim.jobId in start.jobs && Live(start.jobs[claim.jobId], claim)
    requires SameOrRenewed(cfg, start, at, claim) && e.Fail? && e.claim == claim
    requires JitterInRange(cfg, start.jobs[claim.jobId].attempts, e.jitter) && e.now <= start.clock
    ensures Step(cfg, at, e) == Step(cfg, start, e)
  {
    StepWritesRow(cfg, start, e, claim.jobId);
    StepWritesRow(cfg, at, e, claim.jobId);
    if at != start {
      StepWritesRow(cfg, start, Renew(claim, start.clock, start.clock), claim.jobId);
    }
  }

  /** `after` and `status` are what the atomic failure transition makes of state `at`. */
  ghost predicate FailsAtomically(
    cfg: Settings, at: Db, after: Db, e: Event, claim: Claim, permanent: bool, status: WorkStatus)
  {
    var id := claim.jobId;
    if id !in at.jobs then status.JobNotFound? && after == at
    else
      var row := at.jobs[id];
      if Live(row, claim) then
        && e.Fail? && e.claim == claim && e.permanent == permanent && Timely(at, e)
        && JitterInRange(cfg, row.attempts, e.jitter)
        && after == Step(cfg, at, e)
        && status == JobIs(if GivesUp(cfg, row.attempts, permanent) then Failed else Queued)
      else
        && after == at
        && (status == AlreadyProcessing || (!row.status.Processing? && status == JobIs(row.status)))
  }

  lemma OwnedAfterRenew(cfg: Settings, a: Db, b: Db, claim: Claim)
    requires claim.jobId in a.jobs && claim.jobId !in a.reports && Live(a.jobs[claim.jobId], claim)
    requires SameOrRenewed(cfg, a, b, claim)
    ensures claim.jobId in b.jobs && claim.jobId !in b.reports && Live(b.jobs[claim.jobId], claim)
    ensures b.clock == a.clock
    ensures Step(cfg, b, Renew(claim, b.clock, b.clock)) == Step(cfg, a, Renew(claim, a.clock, a.clock))
  {
    RenewAgain(cfg, a, claim);
  }

  /** What the checks answer about the job as read, if no report has turned up since. */
  lemma EntryAnswered(cfg: Settings, before: Db, read: Db, after: Db, claim: Claim)
    requires Reaches(cfg, before, read) && Reaches(cfg, read, after)
    requires claim.jobId in read.jobs
    ensures claim.jobId !in after.reports ==>
              && Answered(cfg, before, after, claim.jobId, WorkResult(JobIs(read.jobs[claim.jobId].status), None))
              && Answered(cfg, before, after, claim.jobId, WorkResult(AlreadyProcessing, None))
    ensures claim.jobId in after.jobs
  {
    ReachExtends(cfg, before, read);
    ReachExtends(cfg, read, after);
    if Inv(cfg, before) {
      ReachKeepsInv(cfg, before, read);
      assert RowInv(cfg, read, claim.jobId);
    }
  }

  /** Why an execution does not record a failure; none if it owns the job. */
  function Refusal(db: Db, claim: Claim): Option<WorkStatus> {
    if claim.jobId !in db.jobs then Some(JobNotFound)
    else if !db.jobs[claim.jobId].status.Processing? then Some(JobIs(db.jobs[claim.jobId].status))
    else if !OwnsJob(db.jobs[claim.jobId], claim) then Some(AlreadyProcessing)
    else None
  }

  lemma RefusedIsAtomic(cfg: Settings, at: Db, claim: Claim, e: Event, permanent: bool)
    requires Refusal(at, claim).Some?
    ensures FailsAtomically(cfg, at, at, e, claim, permanent, Refusal(at, claim).value)
  {
  }

  function FailureWritten(at: Db, claim: Claim, failed: bool, retryAt: Option<Time>, message: string, now: Time): Db {
    if claim.jobId in at.jobs && Live(at.jobs[claim.jobId], claim) then
      at.(jobs := at.jobs[claim.jobId := at.jobs[claim.jobId].(
        status := if failed then Failed else Queued, token := None, leaseUntil := None,
        retryAt := retryAt, lastError := Some(message), updatedAt := now)])
    else at
  }

  lemma AttemptsUnchanged(cfg: Settings, read: Db, at: Db, claim: Claim)
    requires Reaches(cfg, read, at)
    requires claim.jobId in read.jobs && Live(read.jobs[claim.jobId], claim)
    ensures claim.jobId in at.jobs
    ensures Live(at.jobs[claim.jobId], claim) ==> at.jobs[claim.jobId].attempts == read.jobs[claim.jobId].attempts
  {
    var es :| Run(cfg, read, es) == at;
    LiveFixesAttempts(cfg, read, es, claim);
  }

  /** Values computed from an earlier reading of a job the claim owned are the values of the atomic
      transition in the state the update finds, or the update finds nothing to do. */
  lemma FailureIsAtomic(
    cfg: Settings, read: Db, at: Db, claim: Claim, e: Event, failed: bool, retryAt: Option<Time>)
    returns (status: WorkStatus)
    requires Reaches(cfg, read, at)
    requires claim.jobId in read.jobs && Live(read.jobs[claim.jobId], claim)
    requires e.Fail? && e.claim == claim && e.now <= at.clock
    requires JitterInRange(cfg, read.jobs[claim.jobId].attempts, e.jitter)
    requires failed == GivesUp(cfg, read.jobs[claim.jobId].attempts, e.permanent)
    requires retryAt == if failed then None
                        else Some(e.now + BaseDelay(cfg, read.jobs[claim.jobId].attempts) + e.jitter)
    ensures claim.jobId in at.jobs
    ensures status == if !Live(at.jobs[claim.jobId], claim) then AlreadyProcessing
                      else JobIs(if failed then Failed else Queued)
    ensures var after := FailureWritten(at, claim, failed, retryAt, e.message, e.now);
            && after == Step(cfg, at, e) && Reaches(cfg, read, after)
            && FailsAtomically(cfg, at, after, e, claim, e.permanent, status)
  {
    AttemptsUnchanged(cfg, read, at, claim);
    ReachesStep(cfg, read, at, e);
    if Live(at.jobs[claim.jobId], claim) {
      StepWritesRow(cfg, at, e, claim.jobId);
      status := JobIs(if failed then Failed else Queued);
    } else {
      StepLeavesRows(cfg, at, e);
      status := AlreadyProcessing;
    }
  }

  lemma SettledStatus(
    cfg: Settings, start: Db, before: Db, at: Db, after: Db, e: Event, claim: Claim, permanent: bool,
    status: WorkStatus)
    requires Reaches(cfg, start, before) && Reaches(cfg, before, at) && Reaches(cfg, before, after)
    requires FailsAtomically(cfg, at, after, e, claim, permanent, status) && claim.jobId !in start.reports
    ensures Answered(cfg, start, after, claim.jobId, WorkResult(status, None))
  {
    ReachesThrough(cfg);
    ReachExtends(cfg, start, at);
    if Inv(cfg, start) {
      ReachKeepsInv(cfg, start, at);
      if claim.jobId in at.jobs {
        assert RowInv(cfg, at, claim.jobId);
      }
    }
  }

  lemma SettledAlone(
    cfg: Settings, start: Db, at: Db, after: Db, e: Event, claim: Claim, permanent: bool, text: string,
    status: WorkStatus)
    requires claim.jobId in start.jobs && Live(start.jobs[claim.jobId], claim)
    requires SameOrRenewed(cfg, start, at, claim)
    requires FailsAtomically(cfg, at, after, e, claim, permanent, status)
    requires e.Fail? ==> e.message == Truncated(text) && e.now == at.clock
    ensures after == Step(cfg, start, e)
    ensures FailureOutcome(cfg, start, claim, permanent, text, WorkResult(status, None), e)
  {
    var row := at.jobs[claim.jobId];
    assert Live(row, claim) && row.attempts == start.jobs[claim.jobId].attempts && at.clock == start.clock;
    FailAfterRenew(cfg, start, at, claim, e);
  }

  /** What a recorded failure amounts to, from the state `start` in which the execution began. */
  lemma Settled(
    world: World, cfg: Settings, start: Db, before: Db, at: Db, after: Db, e: Event, claim: Claim,
    permanent: bool, text: string, status: WorkStatus)
    requires Reaches(cfg, start, before) && Reaches(cfg, before, at) && Reaches(cfg, before, after)
    requires claim.jobId !in before.reports
    requires FailsAtomically(cfg, at, after, e, claim, permanent, status)
    requires e.Fail? ==> e.message == Truncated(text)
    requires Quiet(world) ==> at == before && (e.Fail? ==> e.now == before.clock)
    ensures Answered(cfg, start, after, claim.jobId, WorkResult(status, None))
    ensures QuietlyOwned(world, start, claim) && SameOrRenewed(cfg, start, before, claim) ==>
              && after == Step(cfg, start, e)
              && FailureOutcome(cfg, start, claim, permanent, text, WorkResult(status, None), e)
  {
    ReachExtends(cfg, start, before);
    SettledStatus(cfg, start, before, at, after, e, claim, permanent, status);
    if QuietlyOwned(world, start, claim) && SameOrRenewed(cfg, start, before, claim) {
      SettledAlone(cfg, start, at, after, e, claim, permanent, text, status);
    }
  }

  /** First writer wins: whoever the executions are, and whenever they end, all results they hand out for
      one job are the same. */
  lemma FirstResultWins(
    cfg: Settings, start1: Db, end1: Db, start2: Db, end2: Db, id: JobId, v: WorkResult, w: WorkResult)
    requires Answered(cfg, start1, end1, id, v) && Answered(cfg, start2, end2, id, w)
    requires v.result.Some? && w.result.Some? && Reaches(cfg, end1, end2)
    ensures v == w
  {
    ReachExtends(cfg, end1, end2);
  }

  /** The jitter of a failure is the one drawn at statement `n`, for the attempt the job was in. */
  ghost predicate DrawnAt(world: World, cfg: Settings, at: Db, e: Event, claim: Claim, n: nat) {
    e.Fail? && claim.jobId in at.jobs && Live(at.jobs[claim.jobId], claim) ==>
      e.jitter == Drawn(world.uniform(n), BaseDelay(cfg, at.jobs[claim.jobId].attempts) / 2.0)
  }

  // ----- letting go of a job

  /** The claim has been handed out. */
  predicate Issued(db: Db, claim: Claim) {
    claim.jobId in db.jobs && claim.version <= db.jobs[claim.jobId].version
  }

  /** The job is not, or no longer, being processed under the claim. */
  predicate Released(db: Db, claim: Claim) {
    claim.jobId in db.jobs ==>
      var row := db.jobs[claim.jobId];
      !(row.status.Processing? && row.token == Some(claim.token) && row.version == claim.version)
  }

  /** A claim that was handed out and has been released stays so. */
  lemma ReleasedStays(cfg: Settings, start: Db, a: Db, b: Db, claim: Claim)
    requires Issued(start, claim) && Reaches(cfg, start, a) && Reaches(cfg, a, b)
    ensures Issued(a, claim) && Issued(b, claim)
    ensures Released(a, claim) ==> Released(b, claim)
  {
    var es :| Run(cfg, start, es) == a;
    var fs :| Run(cfg, a, fs) == b;
    VersionCountsClaims(cfg, start, es, claim.jobId);
    VersionCountsClaims(cfg, a, fs, claim.jobId);
    ReachExtends(cfg, start, a);
    ReachExtends(cfg, a, b);
    if Released(a, claim) {
      FencedForever(cfg, a, fs, claim);
    }
  }

  /** However recording a failure ends, the claim has been released. */
  lemma FailureReleases(
    cfg: Settings, at: Db, after: Db, e: Event, claim: Claim, permanent: bool, status: WorkStatus)
    requires FailsAtomically(cfg, at, after, e, claim, permanent, status)
    ensures Released(after, claim)
  {
  }

  // ----- one round, left alone

  /** A round: one claim, and if it was granted the execution, which amounts to `e` and answers `w`. */
  ghost predicate RoundAlone(
    world: World, cfg: Settings, before: Db, after: Db, n: nat, generation: Generation, r: Reply<bool>,
    claim: Option<Claim>, w: WorkResult, e: Event)
  {
    var take := ClaimNext(before.clock, world.token(n), world.locked(n));
    var claimed := Step(cfg, before, take);
    && claim == Granted(cfg, before, take)
    && match claim
       case None => r == Ok(false) && after == before
       case Some(c) =>
         && r == Ok(true) && after == Step(cfg, claimed, e)
         && Expected(cfg, claimed, c, generation, w, e)
  }

  predicate Succeeds(generation: Generation) {
    generation.Generated? && generation.transcript.Some?
  }

  /** The job was claimed once more and that attempt has ended: delivered, given up, or to be retried later. */
  ghost predicate Handled(before: Job, db: Db, id: JobId, delivered: bool)
    requires id in db.jobs
  {
    var row := db.jobs[id];
    && row.attempts == before.attempts + 1 && row.version == before.version + 1
    && row.token.None? && row.leaseUntil.None?
    && if id in db.reports then row.status.Completed?
       else
         && !delivered && row.lastError.Some?
         && (row.status.Failed? || (row.status.Queued? && row.retryAt.Some? && row.retryAt.value > db.clock))
  }

  /** One job has been handled, and no other row or report has changed. */
  ghost predicate RoundDone(before: Db, after: Db, id: JobId, delivered: bool) {
    && after.clock == before.clock && after.jobs.Keys == before.jobs.Keys
    && id in before.jobs && Handled(before.jobs[id], after, id, delivered)
    && (forall other | other in before.jobs && other != id :: after.jobs[other] == before.jobs[other])
    && (forall other | other != id ::
          (other in after.reports <==> other in before.reports)
          && (other in before.reports ==> after.reports[other] == before.reports[other]))
  }

  /** What the transaction of an execution left alone leaves in its row and its report. */
  lemma ExecutionWrites(
    cfg: Settings, db: Db, after: Db, claim: Claim, generation: Generation, w: WorkResult, e: Event)
    requires claim.jobId in db.jobs && Live(db.jobs[claim.jobId], claim)
    requires Expected(cfg, db, claim, generation, w, e) && after == Step(cfg, db, e)
    ensures var id, was := claim.jobId, db.jobs[claim.jobId];
            && after.jobs.Keys == db.jobs.Keys && after.clock == db.clock
            && (forall other | other in db.jobs && other != id :: after.jobs[other] == db.jobs[other])
            && (forall other | other != id ::
                  (other in after.reports <==> other in db.reports)
                  && (other in db.reports ==> after.reports[other] == db.reports[other]))
            && var row := after.jobs[id];
               var text := if was.reportType != "transcript"
                           then "PermanentJobError: Unsupported report type: " + was.reportType
                           else if generation.Raised? then generation.text
                           else "PermanentJobError: Student no longer exists";
               var final := was.reportType != "transcript" || generation.Generated? || was.attempts >= cfg.maxAttempts;
               && row.token.None? && row.leaseUntil.None? && row.updatedAt == db.clock
               && row.attempts == was.attempts && row.version == was.version && row.createdAt == was.createdAt
               && if id in db.reports then
                    && row.status.Completed? && row.retryAt.None? && row.lastError.None?
                    && after.reports == db.reports && w == WorkResult(JobIs(Completed), Some(db.reports[id]))
                  else if was.reportType == "transcript" && Succeeds(generation) then
                    && row.status.Completed? && row.retryAt.None? && row.lastError.None?
                    && after.reports == db.reports[id := generation.transcript.value]
                    && w == WorkResult(JobIs(Completed), generation.transcript)
                  else
                    && after.reports == db.reports
                    && row.lastError == Some(if |text| <= 1000 then text else text[..1000])
                    && (if final then row.status.Failed? && row.retryAt.None?
                        else row.status.Queued? && row.retryAt.Some? && row.retryAt.value > db.clock)
                    && w == WorkResult(JobIs(row.status), None)
  {
    DelayDoubles(cfg, db.jobs[claim.jobId].attempts);
  }

  /** A round that is left alone handles the job it claims, and no other. */
  lemma RoundHandles(
    world: World, cfg: Settings, before: Db, after: Db, n: nat, generation: Generation, r: Reply<bool>,
    claim: Option<Claim>, w: WorkResult, e: Event)
    requires RoundAlone(world, cfg, before, after, n, generation, r, claim, w, e) && claim.Some?
    requires Inv(cfg, before)
    ensures RoundDone(before, after, claim.value.jobId, Succeeds(generation))
  {
    var take := ClaimNext(before.clock, world.token(n), world.locked(n));
    var claimed := Step(cfg, before, take);
    assert RowInv(cfg, before, claim.value.jobId);
    GrantTakesOne(cfg, before, before.clock, world.token(n), world.locked(n), claim.value.jobId);
    ExecutionWrites(cfg, claimed, after, claim.value, generation, w, e);
  }

  // ----- the worker loop, left alone

  /** No job is being processed except those that were all along, under the claims of others. */
  ghost predicate NoneLeft(start: Db, db: Db) {
    forall id | id in db.jobs && db.jobs[id].status.Processing? :: id in start.jobs && db.jobs[id] == start.jobs[id]
  }

  lemma RoundLeavesNone(
    world: World, cfg: Settings, start: Db, before: Db, after: Db, n: nat, generation: Generation, r: Reply<bool>,
    claim: Option<Claim>, w: WorkResult, e: Event)
    requires RoundAlone(world, cfg, before, after, n, generation, r, claim, w, e) && NoneLeft(start, before)
    ensures NoneLeft(start, after)
  {
    if claim.Some? {
      var claimed := Step(cfg, before, ClaimNext(before.clock, world.token(n), world.locked(n)));
      GrantTakesOne(cfg, before, before.clock, world.token(n), world.locked(n), claim.value.jobId);
      ExecutionWrites(cfg, claimed, after, claim.value, generation, w, e);
      forall id | id in after.jobs && after.jobs[id].status.Processing?
        ensures id in start.jobs && after.jobs[id] == start.jobs[id]
      {
        assert id != claim.value.jobId && after.jobs[id] == before.jobs[id];
      }
    }
  }

  /** Nobody else is active, no row is locked, and a round claims at all. */
  ghost predicate Undisturbed(world: World, attempts: nat) {
    Quiet(world) && attempts >= 1 && forall n :: world.locked(n) == {}
  }

  /** Of the jobs `todo` those not claimable any more have been handled; no other row has changed. */
  ghost predicate Emptied(start: Db, db: Db, todo: set<JobId>, delivered: bool) {
    && db.clock == start.clock && db.jobs.Keys == start.jobs.Keys
    && ClaimableJobs(db, db.clock) <= todo
    && (forall id | id in todo :: id in db.jobs)
    && (forall id | id in todo && id !in ClaimableJobs(db, db.clock) :: Handled(start.jobs[id], db, id, delivered))
    && (forall id | id in start.jobs && (id !in todo || id in ClaimableJobs(db, db.clock)) ::
          db.jobs[id] == start.jobs[id])
  }

  predicate AllCompleted(ids: set<JobId>, db: Db) {
    forall id | id in ids :: id in db.jobs && db.jobs[id].status.Completed?
  }

  lemma CompletedStay(cfg: Settings, a: Db, b: Db, ids: set<JobId>)
    requires Reaches(cfg, a, b)
    ensures AllCompleted(ids, a) ==> AllCompleted(ids, b)
  {
    var es :| Run(cfg, a, es) == b;
    if AllCompleted(ids, a) {
      forall id | id in ids ensures id in b.jobs && b.jobs[id].status.Completed? {
        CompletedForGood(cfg, a, es, id);
      }
    }
  }

  lemma OneFewer(start: Db, before: Db, after: Db, todo: set<JobId>, delivered: bool, id: JobId)
    requires Emptied(start, before, todo, delivered) && RoundDone(before, after, id, delivered)
    requires id in ClaimableJobs(before, before.clock)
    ensures Emptied(start, after, todo, delivered)
    ensures |ClaimableJobs(after, after.clock)| == |ClaimableJobs(before, before.clock)| - 1
  {
    assert ClaimableJobs(after, after.clock) == ClaimableJobs(before, before.clock) - {id};
  }

  ghost predicate AfterRounds(cfg: Settings, start: Db, db: Db, todo: set<JobId>, delivered: bool, round: nat) {
    && Inv(cfg, db) && Emptied(start, db, todo, delivered)
    && |ClaimableJobs(db, db.clock)| <= if round < |todo| then |todo| - round else 0
  }

  /** A round that finds a claimable job handles it; otherwise there is none left. */
  lemma OneRoundMore(
    world: World, cfg: Settings, start: Db, before: Db, after: Db, todo: set<JobId>, delivered: bool, round: nat,
    n: nat, generation: Generation, r: Reply<bool>, claim: Option<Claim>, w: WorkResult, e: Event)
    requires AfterRounds(cfg, start, before, todo, delivered, round) && Reaches(cfg, before, after)
    requires RoundAlone(world, cfg, before, after, n, generation, r, claim, w, e) && world.locked(n) == {}
    requires delivered ==> Succeeds(generation)
    ensures AfterRounds(cfg, start, after, todo, delivered, round + 1)
  {
    ReachKeepsInv(cfg, before, after);
    if claim.None? {
      assert ClaimableJobs(before, before.clock) <= {};
    } else {
      RoundHandles(world, cfg, before, after, n, generation, r, claim, w, e);
      OneFewer(start, before, after, todo, delivered, claim.value.jobId);
    }
  }

  ghost predicate AllSucceed(generation: nat -> Generation) {
    forall k :: Succeeds(generation(k))
  }

  /** What holds of the tables after some rounds of the loop that began with `start`. */
  ghost predicate InLoop(
    world: World, cfg: Settings, start: Db, db: Db, attempts: nat, generation: nat -> Generation, round: nat)
  {
    && (Quiet(world) ==> AllCompleted(start.reports.Keys * start.jobs.Keys, db) && NoneLeft(start, db))
    && (Undisturbed(world, attempts) && Inv(cfg, start) ==>
          AfterRounds(cfg, start, db, ClaimableJobs(start, start.clock), AllSucceed(generation), round))
  }

  lemma InLoopFirst(
    world: World, cfg: Settings, start: Db, db: Db, attempts: nat, generation: nat -> Generation)
    requires Quiet(world) ==> db == Step(cfg, start, RepairAll(start.clock))
    ensures InLoop(world, cfg, start, db, attempts, generation, 0)
  {
    if Quiet(world) && Inv(cfg, start) {
      NothingToRepair(cfg, start, RepairAll(start.clock));
    }
  }

  lemma InLoopNext(
    world: World, cfg: Settings, start: Db, before: Db, after: Db, attempts: nat, generation: nat -> Generation,
    round: nat, n: nat, r: Reply<bool>, claim: Option<Claim>, w: WorkResult, e: Event)
    requires InLoop(world, cfg, start, before, attempts, generation, round) && Reaches(cfg, before, after)
    requires Quiet(world) ==>
               if attempts == 0 then after == before
               else RoundAlone(world, cfg, before, after, n, generation(round), r, claim, w, e)
    ensures InLoop(world, cfg, start, after, attempts, generation, round + 1)
  {
    CompletedStay(cfg, before, after, start.reports.Keys * start.jobs.Keys);
    if Quiet(world) && attempts > 0 {
      RoundLeavesNone(world, cfg, start, before, after, n, generation(round), r, claim, w, e);
      if Undisturbed(world, attempts) && Inv(cfg, start) {
        OneRoundMore(world, cfg, start, before, after, ClaimableJobs(start, start.clock), AllSucceed(generation),
                     round, n, generation(round), r, claim, w, e);
      }
    }
  }
}
