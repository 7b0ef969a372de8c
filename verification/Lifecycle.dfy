/** What every transaction keeps, and the life of one job seen from outside. */
module Lifecycle {
  import opened Entities
  import opened Transcripts
  import opened Jobs

  // ----- backoff arithmetic

  lemma {:induction false} PowTwoGrows(n: int)
    ensures PowTwo(n) > 0.0
    ensures PowTwo(n + 1) == 2.0 * PowTwo(n)
    decreases if n < 0 then -n else n
  {
    if n > 0 {
      PowTwoGrows(n - 1);
    } else if n < 0 {
      PowTwoGrows(n + 1);
    }
  }

  lemma DelayDoubles(cfg: Settings, attempt: int)
    ensures BaseDelay(cfg, attempt) > 0.0
    ensures BaseDelay(cfg, attempt + 1) == 2.0 * BaseDelay(cfg, attempt)
  {
    PowTwoGrows(attempt - 1);
    var base, p := cfg.retryBaseSeconds as real, PowTwo(attempt - 1);
    assert base * (2.0 * p) == 2.0 * (base * p);
  }

  lemma {:induction false} DelayMonotone(cfg: Settings, a: int, b: int)
    requires a <= b
    ensures BaseDelay(cfg, a) <= BaseDelay(cfg, b)
    decreases b - a
  {
    DelayDoubles(cfg, a);
    if a < b {
      DelayMonotone(cfg, a + 1, b);
    }
  }

  // ----- the invariant

  /** No reachable job waits longer than this from the present clock. */
  function LongestWait(cfg: Settings): Time {
    var lease, backoff := cfg.leaseSeconds as Time, 1.5 * BaseDelay(cfg, cfg.maxAttempts - 1);
    if lease <= backoff then backoff else lease
  }

  ghost predicate RowInv(cfg: Settings, db: Db, id: JobId)
    requires id in db.jobs
  {
    var row := db.jobs[id];
    && (row.status.Completed? <==> id in db.reports)
    && (row.status.Processing? <==> row.token.Some?)
    && (row.status.Processing? <==> row.leaseUntil.Some?)
    && (row.retryAt.Some? ==> row.status.Queued?)
    && (row.lastError.Some? ==> row.status.Queued? || row.status.Failed?)
    && row.attempts == row.version && row.reportType == "transcript"
    && (row.status.Queued? ==> row.attempts < cfg.maxAttempts)
    && (!row.status.Queued? && !row.status.Completed? ==> row.attempts >= 1)
    && row.createdAt <= db.clock && row.updatedAt <= db.clock
    && (row.leaseUntil.Some? ==> row.leaseUntil.value <= db.clock + cfg.leaseSeconds as Time)
    && (row.retryAt.Some? ==> row.retryAt.value <= db.clock + LongestWait(cfg))
  }

  ghost predicate Inv(cfg: Settings, db: Db) {
    && db.reports.Keys <= db.jobs.Keys
    && forall id | id in db.jobs :: RowInv(cfg, db, id)
  }

  lemma RetryWithinWait(cfg: Settings, attempts: nat, jitter: real)
    requires attempts < cfg.maxAttempts && JitterInRange(cfg, attempts, jitter)
    ensures BaseDelay(cfg, attempts) + jitter <= LongestWait(cfg)
  {
    DelayMonotone(cfg, attempts, cfg.maxAttempts - 1);
  }

  lemma RowKeepsInv(cfg: Settings, db: Db, e: Event, id: JobId)
    requires id in db.jobs && RowInv(cfg, db, id)
    ensures RowInv(cfg, Step(cfg, db, e), id)
  {
    var row := db.jobs[id];
    DelayDoubles(cfg, cfg.maxAttempts - 1);
    if e.Fail? && JitterInRange(cfg, row.attempts, e.jitter) && row.attempts < cfg.maxAttempts {
      RetryWithinWait(cfg, row.attempts, e.jitter);
    }
  }

  lemma StepKeepsInv(cfg: Settings, db: Db, e: Event)
    requires Inv(cfg, db)
    ensures Inv(cfg, Step(cfg, db, e))
  {
    var after := Step(cfg, db, e);
    forall id | id in after.jobs ensures RowInv(cfg, after, id) {
      if id in db.jobs {
        RowKeepsInv(cfg, db, e, id);
      }
    }
  }

  /** The invariant holds in every state any number of executions can reach. */
  lemma {:induction false} RunKeepsInv(cfg: Settings, db: Db, es: seq<Event>)
    requires Inv(cfg, db)
    ensures Inv(cfg, Run(cfg, db, es))
    decreases |es|
  {
    if es != [] {
      StepKeepsInv(cfg, db, es[0]);
      RunKeepsInv(cfg, Step(cfg, db, es[0]), es[1..]);
    }
  }

  lemma ReachKeepsInv(cfg: Settings, a: Db, b: Db)
    requires Reaches(cfg, a, b) && Inv(cfg, a)
    ensures Inv(cfg, b)
  {
    var es :| Run(cfg, a, es) == b;
    RunKeepsInv(cfg, a, es);
  }

  /** Under the invariant a repair finds nothing to do. */
  lemma NothingToRepair(cfg: Settings, db: Db, e: Event)
    requires Inv(cfg, db) && (e.Repair? || e.RepairAll?)
    ensures Step(cfg, db, e) == db
  {
    forall id | id in db.jobs ensures RowAfter(cfg, db, e, id) == db.jobs[id] {
      assert RowInv(cfg, db, id);
    }
    StepLeavesRows(cfg, db, e);
  }

  /** What was requested, by whom and when never changes; the claim order goes by the latter. */
  lemma {:induction false} RequestFixed(cfg: Settings, db: Db, es: seq<Event>, id: JobId)
    requires id in db.jobs
    ensures var after := Run(cfg, db, es);
            && id in after.jobs
            && after.jobs[id].ownerId == db.jobs[id].ownerId
            && after.jobs[id].reportType == db.jobs[id].reportType
            && after.jobs[id].targetId == db.jobs[id].targetId
            && after.jobs[id].createdAt == db.jobs[id].createdAt
    decreases |es|
  {
    if es != [] {
      RequestFixed(cfg, Step(cfg, db, es[0]), es[1..], id);
    }
  }

  // ----- refinement of the one-way job

  /** A job as a client should see it.  `failed` is not final: an execution that lost its lease may
      still deliver the report. */
  datatype Outcome = Absent | Pending | GaveUp | Done(result: Transcript)

  function OutcomeOf(db: Db, id: JobId): Outcome {
    if id !in db.jobs then Absent
    else if id in db.reports then Done(db.reports[id])
    else if db.jobs[id].status.Failed? then GaveUp
    else Pending
  }

  /** The only moves a job may make. */
  predicate Advances(a: Outcome, b: Outcome) {
    match (a, b)
    case (Absent, _) => true
    case (Pending, Absent) => false
    case (Pending, _) => true
    case (GaveUp, Done(_)) => true
    case (GaveUp, GaveUp) => true
    case (Done(r), Done(q)) => r == q
    case _ => false
  }

  /** One transaction enqueues the job, delivers its report, gives up on it, or is a stutter;
      only a persist delivers and only a failure gives up. */
  lemma StepRefines(cfg: Settings, db: Db, e: Event, id: JobId)
    requires db.reports.Keys <= db.jobs.Keys
    ensures var a, b := OutcomeOf(db, id), OutcomeOf(Step(cfg, db, e), id);
            || b == a
            || (a.Absent? && b.Pending? && e.Enqueue? && e.newId == id)
            || (a.Pending? && b.GaveUp? && e.Fail? && e.claim.jobId == id && Live(db.jobs[id], e.claim))
            || ((a.Pending? || a.GaveUp?) && e.Persist? && e.id == id && b == Done(e.result))
  {
  }

  /** Over any run: a delivered report stays, unchanged; a job given up never becomes pending again. */
  lemma {:induction false} RunRefines(cfg: Settings, db: Db, es: seq<Event>, id: JobId)
    requires db.reports.Keys <= db.jobs.Keys
    ensures Advances(OutcomeOf(db, id), OutcomeOf(Run(cfg, db, es), id))
    ensures var after := Run(cfg, db, es);
            && (id in db.jobs ==> id in after.jobs)
            && (id in db.reports ==> id in after.reports && after.reports[id] == db.reports[id])
            && (id in db.jobs && db.jobs[id].status.Failed? && id !in after.reports ==> after.jobs[id].status.Failed?)
    decreases |es|
  {
    if es != [] {
      var next := Step(cfg, db, es[0]);
      StepRefines(cfg, db, es[0], id);
      RunRefines(cfg, next, es[1..], id);
    }
  }

  lemma FailedStays(cfg: Settings, db: Db, e: Event, id: JobId)
    requires id in db.jobs && db.jobs[id].status.Failed? && id !in Step(cfg, db, e).reports
    ensures id in Step(cfg, db, e).jobs && Step(cfg, db, e).jobs[id] == db.jobs[id]
  {
  }

  /** `failed` is left exactly when a report arrives: the job ends `failed` only if no persist for it
      commits afterwards. */
  lemma {:induction false} FailedUntilReported(cfg: Settings, db: Db, es: seq<Event>, id: JobId)
    requires Inv(cfg, db) && id in db.jobs && db.jobs[id].status.Failed?
    ensures var after := Run(cfg, db, es);
            && id in after.jobs
            && (id in after.reports ==> after.jobs[id].status.Completed?)
            && (id !in after.reports ==> after.jobs[id] == db.jobs[id])
    decreases |es|
  {
    RunKeepsInv(cfg, db, es);
    RunExtends(cfg, db, es);
    assert RowInv(cfg, Run(cfg, db, es), id);
    if es != [] && id !in Step(cfg, db, es[0]).reports {
      assert RowInv(cfg, db, id);
      StepKeepsInv(cfg, db, es[0]);
      FailedStays(cfg, db, es[0], id);
      FailedUntilReported(cfg, Step(cfg, db, es[0]), es[1..], id);
    } else if es != [] {
      RunExtends(cfg, Step(cfg, db, es[0]), es[1..]);
    }
  }

  /** A failure recorded by the owner gives up exactly when it is permanent or used the last attempt;
      otherwise the job is offered again, not before its base delay and at the latest after one and a half
      times that delay. */
  lemma FailureDecides(cfg: Settings, db: Db, e: Event)
    requires Inv(cfg, db) && e.Fail? && Timely(db, e)
    requires e.claim.jobId in db.jobs && Live(db.jobs[e.claim.jobId], e.claim)
    requires JitterInRange(cfg, db.jobs[e.claim.jobId].attempts, e.jitter)
    ensures var id, attempts := e.claim.jobId, db.jobs[e.claim.jobId].attempts;
            var next, row := Step(cfg, db, e), Step(cfg, db, e).jobs[e.claim.jobId];
            && (OutcomeOf(next, id).GaveUp? <==> e.permanent || attempts >= cfg.maxAttempts)
            && (OutcomeOf(next, id).Pending? ==>
              && (forall t: Time | t < e.now + BaseDelay(cfg, attempts) :: !Claimable(row, t))
              && (forall t: Time | t >= e.now + 1.5 * BaseDelay(cfg, attempts) :: Claimable(row, t)))
            && (OutcomeOf(next, id).GaveUp? ==> forall t: Time :: !Claimable(row, t))
            && row.lastError == Some(e.message)
  {
    assert RowInv(cfg, db, e.claim.jobId);
  }

  // ----- every job makes a bounded number of moves

  /** A measure that every status change lowers and no takeover raises. */
  function Moves(cfg: Settings, db: Db, id: JobId): nat {
    if id !in db.jobs then 2 * cfg.maxAttempts + 2
    else
      var row := db.jobs[id];
      var left := if row.attempts < cfg.maxAttempts then cfg.maxAttempts - row.attempts else 0;
      match row.status
      case Queued => 2 * left + 1
      case Processing => 2 * left + 2
      case Failed => 1
      case Completed => 0
  }

  function StatusOf(db: Db, id: JobId): Option<Status> {
    if id in db.jobs then Some(db.jobs[id].status) else None
  }

  function StatusChanges(cfg: Settings, db: Db, es: seq<Event>, id: JobId): nat
    decreases |es|
  {
    if es == [] then 0
    else
      var next := Step(cfg, db, es[0]);
      (if StatusOf(db, id) != StatusOf(next, id) then 1 else 0) + StatusChanges(cfg, next, es[1..], id)
  }

  lemma StepSpendsMoves(cfg: Settings, db: Db, e: Event, id: JobId)
    requires Inv(cfg, db)
    ensures var next := Step(cfg, db, e);
            && Moves(cfg, next, id) <= Moves(cfg, db, id)
            && (StatusOf(db, id) != StatusOf(next, id) ==> Moves(cfg, next, id) < Moves(cfg, db, id))
  {
    if id in db.jobs {
      assert RowInv(cfg, db, id);
    }
  }

  /** However often workers crash and leases are taken over, a job changes status at most
      2 * max_attempts + 2 times in all, counting its creation. */
  lemma {:induction false} BoundedStatusChanges(cfg: Settings, db: Db, es: seq<Event>, id: JobId)
    requires Inv(cfg, db)
    ensures StatusChanges(cfg, db, es, id) + Moves(cfg, Run(cfg, db, es), id) <= Moves(cfg, db, id)
    ensures StatusChanges(cfg, db, es, id) <= 2 * cfg.maxAttempts + 2
    decreases |es|
  {
    if es != [] {
      var next := Step(cfg, db, es[0]);
      StepKeepsInv(cfg, db, es[0]);
      StepSpendsMoves(cfg, db, es[0], id);
      BoundedStatusChanges(cfg, next, es[1..], id);
    }
  }
}
