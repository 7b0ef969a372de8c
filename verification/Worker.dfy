/** One worker execution, statement by statement, among any number of others
    (app/workers/tasks.py, app/workers/runner.py).  Every contract holds for every world: `own` records
    what the execution itself commits, and each method says what it may add to it. */
module Worker {
  import opened Entities
  import opened Interleavings
  import opened Transcripts
  import opened Jobs
  import opened Lifecycle
  import opened Fencing
  import opened Executions

  class Database {
    const cfg: Settings
    const world: World
    var jobs: map<JobId, Job>
    var reports: map<JobId, Transcript>
    var clock: Time
    var statement: nat  // how many statements this execution has issued
    ghost const start: Db
    ghost var own: Log

    function State(): Db
      reads this
    {
      Db(jobs, reports, clock)
    }

    /** The tables are exactly what the transactions of others and the recorded ones have made of the
        start, in the order of the statements. */
    ghost predicate Recorded()
      reads this
    {
      |own| == statement && State() == Played(cfg, start, world.others, own)
    }

    constructor (cfg: Settings, world: World, db: Db)
      ensures this.cfg == cfg && this.world == world && State() == db && statement == 0
      ensures Recorded() && start == db && own == []
    {
      this.cfg, this.world, start, own := cfg, world, db, [];
      jobs, reports, clock, statement := db.jobs, db.reports, db.clock, 0;
    }

    /** Others run, then this execution's next statement reaches the database. */
    method Enter() returns (fault: Fault)
      requires Recorded()
      modifies this
      ensures Recorded() && own == old(own) + [None]
      ensures statement == old(statement) + 1
      ensures State() == Run(cfg, old(State()), world.others(old(statement)))
      ensures fault == world.fault(old(statement))
      ensures Reaches(cfg, old(State()), State()) && Extends(old(State()), State())
      ensures Quiet(world) ==> State() == old(State()) && fault.NoFault?
    {
      var next := Run(cfg, State(), world.others(statement));
      RunExtends(cfg, State(), world.others(statement));
      PlayedLast(cfg, start, world.others, own, None);
      fault := world.fault(statement);
      jobs, reports, clock, statement := next.jobs, next.reports, next.clock, statement + 1;
      own := own + [None];
    }

    /** What the present statement has just done to the tables is the transaction `e`. */
    ghost method Record(e: Event)
      requires own != [] && own[|own| - 1].None? && |own| == statement
      requires State() == Step(cfg, Played(cfg, start, world.others, own), e)
      modifies this`own
      ensures Recorded() && own == old(own)[..|old(own)| - 1] + [Some(e)]
    {
      PlayedCommit(cfg, start, world.others, own, e);
      own := own[..|own| - 1] + [Some(e)];
    }

    /** Every state lies ahead of every earlier point of the record. */
    lemma Since(before: Log)
      requires Recorded() && before <= own
      ensures Reaches(cfg, Played(cfg, start, world.others, before), State())
      ensures Extends(Played(cfg, start, world.others, before), State())
    {
      PlayedReaches(cfg, start, world.others, before, own);
    }

    /** The claim when nobody else is active. */
    ghost predicate ClaimedAlone(before: Db, after: Db, n: nat, r: Reply<Option<Claim>>) {
      var e := ClaimNext(before.clock, world.token(n), world.locked(n));
      after == Step(cfg, before, e) && r == Ok(Granted(cfg, before, e))
    }

    /** The last statement of the record committed a claim, and `granted` is what it was granted in the state
        it met. */
    ghost predicate LastClaim(log: Log, granted: Option<Claim>) {
      && log != [] && log[|log| - 1].Some? && log[|log| - 1].value.ClaimNext?
      && var n := |log| - 1;
         granted == Granted(cfg, Run(cfg, Played(cfg, start, world.others, log[..n]), world.others(n)), log[n].value)
    }

    /** The UPDATE of the present statement, which takes the next job. */
    method TakeNext(now: Time, token: string, locked: set<JobId>) returns (granted: Option<Claim>)
      requires Recorded() && own != [] && own[|own| - 1].None? && now <= clock
      modifies this`jobs, this`own
      ensures Recorded() && own == old(own)[..|old(own)| - 1] + [Some(ClaimNext(now, token, locked))]
      ensures State() == Step(cfg, old(State()), ClaimNext(now, token, locked))
      ensures granted == Granted(cfg, old(State()), ClaimNext(now, token, locked))
    {
      ghost var db, e := State(), ClaimNext(now, token, locked);
      var candidate := NextCandidate(State(), now, locked);
      granted := None;
      match candidate {
        case None =>
          StepLeavesRows(cfg, db, e);
        case Some(id) =>
          StepWritesRow(cfg, db, e, id);
          jobs := jobs[id := Granting(cfg, jobs[id], token, now)];
          granted := Some(Claim(id, token, jobs[id].version));
      }
      Record(e);
    }

    /** Exactly one atomic claim, built from an earlier clock reading; an error may hide a commit. */
    method ClaimNextJob() returns (r: Reply<Option<Claim>>)
      requires Recorded()
      modifies this
      ensures Recorded()
      ensures var n := old(statement);
              var db := Run(cfg, old(State()), world.others(n));
              var e := ClaimNext(old(clock), world.token(n), world.locked(n));
              && Timely(db, e)
              && own == old(own) + [if world.fault(n).BeforeCommit? then None else Some(e)]
              && (State() == if world.fault(n).BeforeCommit? then db else Step(cfg, db, e))
              && (r == if world.fault(n).NoFault? then Ok(Granted(cfg, db, e)) else DbError)
      ensures statement == old(statement) + 1 && (r.Ok? ==> LastClaim(own, r.value))
      ensures r.Ok? && r.value.Some? ==>
                && r.value.value.jobId in jobs && Live(jobs[r.value.value.jobId], r.value.value)
                && JustClaimed(own, r.value.value)
      ensures !r.IntegrityError? && (r.Ok? <==> world.fault(old(statement)).NoFault?)
      ensures Quiet(world) ==> ClaimedAlone(old(State()), State(), old(statement), r)
    {
      var now, token, locked := clock, world.token(statement), world.locked(statement);
      var fault := Enter();
      if fault.BeforeCommit? {
        r := DbError;
      } else {
        ghost var log, db, e := own[..|own| - 1], State(), ClaimNext(now, token, locked);
        var granted := TakeNext(now, token, locked);
        assert own[..|own| - 1] == log;
        GrantMovesVersion(cfg, db, e, "");
        r := if fault.AfterCommit? then DbError else Ok(granted);
      }
    }

    /** Exactly one atomic renewal, reporting whether the claim was live. */
    method RenewLease(claim: Claim) returns (r: Reply<bool>)
      requires Recorded()
      modifies this
      ensures Recorded()
      ensures var n := old(statement);
              var db := Run(cfg, old(State()), world.others(n));
              var e := Renew(claim, old(clock), old(clock));
              && Timely(db, e)
              && own == old(own) + [if world.fault(n).BeforeCommit? then None else Some(e)]
              && (State() == if world.fault(n).BeforeCommit? then db else Step(cfg, db, e))
              && (r == if world.fault(n).NoFault?
                       then Ok(claim.jobId in db.jobs && Live(db.jobs[claim.jobId], claim)) else DbError)
      ensures statement == old(statement) + 1
    {
      var now, stamp := clock, clock;
      var fault := Enter();
      ghost var db, e := State(), Renew(claim, now, stamp);
      if fault.BeforeCommit? {
        r := DbError;
      } else {
        var matched := claim.jobId in jobs && Live(jobs[claim.jobId], claim);
        if matched {
          StepWritesRow(cfg, db, e, claim.jobId);
          jobs := jobs[claim.jobId := Renewing(cfg, jobs[claim.jobId], now, stamp)];
        } else {
          StepLeavesRows(cfg, db, e);
        }
        Record(e);
        r := if fault.AfterCommit? then DbError else Ok(matched);
      }
    }

    /** The repair of one job with an earlier reading of the clock, a statement of its own. */
    method RepairLater(id: JobId, now: Time) returns (fault: Fault, ghost at: Db)
      requires Recorded() && id in reports && now <= clock
      modifies this
      ensures Recorded() && statement == old(statement) + 1 && fault == world.fault(old(statement))
      ensures own == old(own) + [if fault.BeforeCommit? then None else Some(Repair(id, now))]
      ensures at == Run(cfg, old(State()), world.others(old(statement)))
      ensures State() == if fault.BeforeCommit? then at else Step(cfg, at, Repair(id, now))
      ensures id in reports && reports[id] == old(reports[id])
      ensures !fault.BeforeCommit? ==> Repairs(cfg, at, State(), id) && (id in jobs ==> jobs[id].status.Completed?)
      ensures Quiet(world) ==> at == old(State()) && fault.NoFault?
    {
      fault := Enter();
      at := State();
      if !fault.BeforeCommit? {
        ghost var e := Repair(id, now);
        if id in jobs && !jobs[id].status.Completed? {
          StepWritesRow(cfg, at, e, id);
          jobs := jobs[id := Completing(jobs[id], now)];
        } else {
          StepLeavesRows(cfg, at, e);
        }
        Record(e);
      }
    }

    /** Reads the report and then, in a second statement, repairs the job.  Whatever happens in between,
        the call amounts to one atomic repair in the state `at` its last statement meets, or to a read that
        saw no report. */
    method ReconcileReportedJob(id: JobId) returns (r: Reply<Option<Transcript>>, ghost at: Db)
      requires Recorded()
      modifies this
      ensures Recorded() && Mending(old(own), own, id)
      ensures old(statement) < statement <= old(statement) + 2
      ensures at == Met(cfg, old(State()), world.others, old(statement), statement - 1)
      ensures State() == at || Repairs(cfg, at, State(), id)
      ensures r.Ok? && r.value.Some? ==>
                && Repairs(cfg, at, State(), id)
                && id in reports && reports[id] == r.value.value
                && (id in jobs ==> jobs[id].status.Completed?)
      ensures r.Ok? && r.value.None? ==> State() == at && id !in at.reports && id !in old(reports)
      ensures !r.IntegrityError?
      ensures Quiet(world) ==>
                && r == Ok(if id in old(reports) then Some(old(reports[id])) else None)
                && State() == Step(cfg, old(State()), Repair(id, old(clock)))
    {
      var fault := Enter();
      at := State();
      if !fault.NoFault? {
        r := DbError;
      } else if id !in reports {
        StepLeavesRows(cfg, at, Repair(id, clock));
        r := Ok(None);
      } else {
        var report := reports[id];
        fault, at := RepairLater(id, clock);
        r := if fault.NoFault? then Ok(Some(report)) else DbError;
      }
    }

    /** Exactly one atomic bulk repair, reporting how many rows it changed. */
    method ReconcileReportedJobs() returns (r: Reply<nat>)
      requires Recorded()
      modifies this
      ensures Recorded()
      ensures var n := old(statement);
              var db := Run(cfg, old(State()), world.others(n));
              var e := RepairAll(old(clock));
              && Timely(db, e)
              && own == old(own) + [if world.fault(n).BeforeCommit? then None else Some(e)]
              && (State() == if world.fault(n).BeforeCommit? then db else Step(cfg, db, e))
              && (r == if world.fault(n).NoFault?
                       then Ok(|set id | id in db.jobs && RowAfter(cfg, db, e, id).status != db.jobs[id].status|)
                       else DbError)
    {
      var now := clock;
      var fault := Enter();
      ghost var db, e := State(), RepairAll(now);
      if fault.BeforeCommit? {
        r := DbError;
      } else {
        var unfinished := Unfinished(State());
        UnfinishedChange(cfg, db, e);
        jobs := map id | id in jobs :: if id in unfinished then Completing(jobs[id], now) else jobs[id];
        Record(e);
        r := if fault.AfterCommit? then DbError else Ok(|unfinished|);
      }
    }

    /** The INSERT and the UPDATE of the present statement. */
    method InsertReport(id: JobId, result: Transcript)
      requires Recorded() && own != [] && own[|own| - 1].None?
      requires id in jobs && id !in reports
      modifies this`jobs, this`reports, this`own
      ensures Recorded() && own == old(own)[..|old(own)| - 1] + [Some(Persist(id, result, clock))]
      ensures State() == Step(cfg, old(State()), Persist(id, result, clock))
      ensures id in jobs && jobs[id].status.Completed? && id in reports && reports[id] == result
    {
      ghost var at, e := State(), Persist(id, result, clock);
      StepWritesRow(cfg, at, e, id);
      reports := reports[id := result];
      jobs := jobs[id := Repaired(jobs[id], clock)];
      Record(e);
    }

    /** The first execution to insert the report wins; a later one adopts the winner's.  The constraint
        error is passed on only if the job row does not exist. */
    method PersistOrAdoptReport(id: JobId, result: Transcript) returns (r: Reply<Transcript>, ghost at: Db)
      requires Recorded()
      modifies this
      ensures Recorded() && at == Met(cfg, old(State()), world.others, old(statement), old(statement))
      ensures var n := old(statement);
              if world.fault(n).BeforeCommit? then State() == at && own == old(own) + [None] && r.DbError?
              else if id in at.jobs && id !in at.reports then
                && State() == Step(cfg, at, Persist(id, result, at.clock))
                && own == old(own) + [Some(Persist(id, result, at.clock))]
                && r == if world.fault(n).NoFault? then Ok(result) else DbError
              else Mending(old(own), own, id)
      ensures r.Ok? ==>
                && id in reports && reports[id] == r.value
                && (id in jobs ==> jobs[id].status.Completed?)
      ensures r.IntegrityError? ==> id !in old(jobs)
      ensures Quiet(world) && id in old(jobs) ==> r == Ok(if id in old(reports) then old(reports[id]) else result)
    {
      var fault := Enter();
      at := State();
      if fault.BeforeCommit? {
        r := DbError;
      } else if id in jobs && id !in reports {
        InsertReport(id, result);
        r := if fault.AfterCommit? then DbError else Ok(result);
      } else {
        var winner, _ := ReconcileReportedJob(id);
        match winner {
          case Ok(Some(report)) => r := Ok(report);
          case Ok(None) => r := IntegrityError;
          case _ => r := DbError;
        }
      }
    }

    /** random.uniform(0, delay / 2) */
    method DrawJitter(attempts: nat) returns (jitter: real)
      ensures JitterInRange(cfg, attempts, jitter)
      ensures jitter == Drawn(world.uniform(statement), BaseDelay(cfg, attempts) / 2.0)
    {
      DelayDoubles(cfg, attempts);
      jitter := Drawn(world.uniform(statement), BaseDelay(cfg, attempts) / 2.0);
    }

    /** The guarded UPDATE of a failure, with the values computed beforehand from the state `read`; it is
        the atomic transition `e`. */
    method UpdateFailed(
      claim: Claim, failed: bool, retryAt: Option<Time>, message: string, now: Time, ghost e: Event, ghost read: Db)
      returns (r: Reply<WorkStatus>, ghost at: Db)
      requires Recorded() && Reaches(cfg, read, State())
      requires claim.jobId in read.jobs && Live(read.jobs[claim.jobId], claim)
      requires e.Fail? && e.claim == claim && e.now == now <= clock && e.message == message
      requires JitterInRange(cfg, read.jobs[claim.jobId].attempts, e.jitter)
      requires failed == GivesUp(cfg, read.jobs[claim.jobId].attempts, e.permanent)
      requires retryAt == if failed then None
                          else Some(now + BaseDelay(cfg, read.jobs[claim.jobId].attempts) + e.jitter)
      modifies this
      ensures Recorded() && statement == old(statement) + 1
      ensures own == old(own) + [if world.fault(old(statement)).BeforeCommit? then None else Some(e)]
      ensures at == Run(cfg, old(State()), world.others(old(statement)))
      ensures Reaches(cfg, old(State()), at) && Reaches(cfg, old(State()), State())
      ensures State() == if world.fault(old(statement)).BeforeCommit? then at else Step(cfg, at, e)
      ensures exists s :: FailsAtomically(cfg, at, Step(cfg, at, e), e, claim, e.permanent, s)
      ensures r.Ok? ==> FailsAtomically(cfg, at, State(), e, claim, e.permanent, r.value)
      ensures !r.IntegrityError?
      ensures Quiet(world) ==> r.Ok? && at == old(State()) && !r.value.JobNotFound?
      ensures Quiet(world) && old(State()) == read ==> r != Ok(AlreadyProcessing)
    {
      var fault := Enter();
      at := State();
      ReachesVia(cfg, read, old(State()), at);
      ghost var status := FailureIsAtomic(cfg, read, at, claim, e, failed, retryAt);
      if fault.BeforeCommit? {
        r := DbError;
      } else {
        var matched := claim.jobId in jobs && Live(jobs[claim.jobId], claim);
        if matched {
          jobs := jobs[claim.jobId := jobs[claim.jobId].(
            status := if failed then Failed else Queued, token := None, leaseUntil := None,
            retryAt := retryAt, lastError := Some(message), updatedAt := now)];
        }
        assert State() == FailureWritten(at, claim, failed, retryAt, message, now);
        Record(e);
        ReachesStep(cfg, old(State()), at, e);
        r := if fault.AfterCommit? then DbError
             else Ok(if !matched then AlreadyProcessing else JobIs(if failed then Failed else Queued));
      }
    }

    /** A failure from the reading on; `attempts` was read while the claim owned the job. */
    method FailOwned(claim: Claim, attempts: nat, message: string, permanent: bool)
      returns (r: Reply<WorkStatus>, ghost at: Db, ghost e: Event)
      requires Recorded()
      requires claim.jobId in jobs && Live(jobs[claim.jobId], claim) && attempts == jobs[claim.jobId].attempts
      modifies this
      ensures Recorded() && statement == old(statement) + 2
      ensures FailingOnce(old(own), own, claim)
      ensures at == Run(cfg, Run(cfg, old(State()), world.others(old(statement))), world.others(old(statement) + 1))
      ensures Reaches(cfg, old(State()), at) && Reaches(cfg, old(State()), State())
      ensures e.Fail? && e.claim == claim && e.message == message
      ensures DrawnAt(world, cfg, at, e, claim, old(statement) + 1)
      ensures r.Ok? ==> FailsAtomically(cfg, at, State(), e, claim, permanent, r.value)
      ensures !r.Ok? ==> State() == at || exists s :: FailsAtomically(cfg, at, State(), e, claim, permanent, s)
      ensures !r.IntegrityError?
      ensures Quiet(world) ==> r.Ok? && at == old(State()) && e.now == old(clock) && r != Ok(AlreadyProcessing)
    {
      ghost var read := State();
      ghost var log := own;
      var _ := Enter();
      ghost var middle := State();
      var now, failed, delay := clock, GivesUp(cfg, attempts, permanent), BaseDelay(cfg, attempts);
      var jitter := DrawJitter(attempts);
      e := Fail(claim, permanent, now, jitter, message);
      var retryAt := if failed then None else Some(now + delay + jitter);
      r, at := UpdateFailed(claim, failed, retryAt, message, now, e, read);
      ReachesVia(cfg, read, middle, at);
      AttemptsUnchanged(cfg, read, at, claim);
      ReachesVia(cfg, read, middle, State());
      FailingLast(log + [None], own[|own| - 1], claim);
      FailingLater(log, own, claim);
    }

    /** Reads the job, computes the transition from what it read, and updates in a later statement.
        Whatever others commit in between, the call is one atomic step taken in the state `at` its last
        statement meets: it either leaves the database alone or applies the transition computed from the
        attempt count then current; an error leaves open which. */
    method RecordFailure(claim: Claim, text: string, permanent: bool)
      returns (r: Reply<WorkStatus>, ghost at: Db, ghost e: Event)
      requires Recorded()
      modifies this
      ensures Recorded() && FailingOnce(old(own), own, claim)
      ensures old(statement) < statement
      ensures at == Met(cfg, old(State()), world.others, old(statement), statement - 1)
      ensures r.Ok? ==> FailsAtomically(cfg, at, State(), e, claim, permanent, r.value)
      ensures e.Fail? ==> e.message == Truncated(text)
      ensures DrawnAt(world, cfg, at, e, claim, old(statement) + 2)
      ensures !r.Ok? ==> State() == at || exists s :: FailsAtomically(cfg, at, State(), e, claim, permanent, s)
      ensures !r.IntegrityError?
      ensures Quiet(world) ==> r.Ok? && at == old(State()) && (e.Fail? ==> e.now == old(clock))
      ensures Quiet(world) && r == Ok(AlreadyProcessing) ==> old(jobs[claim.jobId]).status.Processing?
    {
      var fault := Enter();
      at, e := State(), Tick(clock);
      if !fault.NoFault? {
        r := DbError;
      } else if Refusal(State(), claim).Some? {
        r := Ok(Refusal(State(), claim).value);
        RefusedIsAtomic(cfg, at, claim, e, permanent);
      } else {
        ghost var n := statement;
        r, at, e := FailOwned(claim, jobs[claim.jobId].attempts, Truncated(text), permanent);
        FailingLater(old(own), own, claim);
        MetTwice(cfg, old(State()), world.others, n - 1);
      }
    }

    /** A result that was handed out is the stored report. */
    ghost predicate Delivered(id: JobId, w: WorkResult)
      reads this
    {
      w.result.Some? ==> w.status == JobIs(Completed) && id in reports && reports[id] == w.result.value
    }

    /** If the job has a report, the execution ends with it. */
    method Adopt(id: JobId) returns (f: Flow)
      requires Recorded()
      modifies this
      ensures Recorded() && Mending(old(own), own, id)
      ensures f.Returned? || f.Proceed? || f.OtherError?
      ensures f.Returned? ==> f.result.result.Some? && Delivered(id, f.result)
      ensures f.Returned? ==> (id in jobs ==> jobs[id].status.Completed?)
      ensures f.Proceed? ==> id !in reports
      ensures Quiet(world) ==>
                && State() == Step(cfg, old(State()), Repair(id, old(clock)))
                && f == if id !in old(reports) then Proceed
                        else Returned(WorkResult(JobIs(Completed), Some(old(reports[id]))))
      ensures Quiet(world) && f.Proceed? ==> State() == old(State())
    {
      RepairOfUnreported(cfg, State(), Repair(id, clock));
      var existing, _ := ReconcileReportedJob(id);
      match existing {
        case Ok(Some(report)) => f := Returned(WorkResult(JobIs(Completed), Some(report)));
        case Ok(None) => f := Proceed;
        case _ => f := OtherError("OperationalError");
      }
    }

    /** One turn of the heartbeat thread: look for a report, then renew. */
    method Beat(claim: Claim) returns (reportFound: bool, lost: bool)
      requires Recorded()
      modifies this
      ensures Recorded() && Tending(old(own), own, claim) && statement > old(statement)
      ensures reportFound ==> claim.jobId in reports && !lost
      ensures lost ==> !(claim.jobId in jobs && Live(jobs[claim.jobId], claim))
      ensures QuietlyOwned(world, old(State()), claim) ==>
                && !reportFound && !lost
                && State() == Step(cfg, old(State()), Renew(claim, old(clock), old(clock)))
      ensures Quiet(world) && claim.jobId in old(reports) ==> reportFound
    {
      reportFound, lost := false, false;
      RepairOfUnreported(cfg, State(), Repair(claim.jobId, clock));
      var existing, _ := ReconcileReportedJob(claim.jobId);
      if existing.Ok? && existing.value.Some? {
        reportFound := true;
      } else if existing.Ok? {
        var renewed := RenewLease(claim);
        lost := renewed == Ok(false);
      }
    }

    /** Renews the lease until told to stop; true if it saw a report of somebody else.  Database errors
        do not end it: it stops before its last beat only if there is a report or the claim is no longer
        live.  The thread runs beside the generation, which only reads, so its steps are taken here in one
        piece; `beats` is how often it wakes up and `done` how often it got through. */
    method Heartbeat(claim: Claim, beats: nat) returns (reportFound: bool, ghost done: nat)
      requires Recorded()
      modifies this
      ensures Recorded() && Tending(old(own), own, claim)
      ensures statement >= old(statement) + done
      ensures reportFound || done == beats || !(claim.jobId in jobs && Live(jobs[claim.jobId], claim))
      ensures reportFound ==> claim.jobId in reports
      ensures QuietlyOwned(world, old(State()), claim) ==>
                && !reportFound
                && State() == if beats == 0 then old(State())
                              else Step(cfg, old(State()), Renew(claim, old(clock), old(clock)))
      ensures Quiet(world) && beats > 0 && claim.jobId in old(reports) ==> reportFound
    {
      var beat, lost := 0, false;
      reportFound := false;
      while beat < beats && !reportFound && !lost
        invariant Recorded() && Tending(old(own), own, claim)
        invariant beat <= beats && statement >= old(statement) + beat
        invariant reportFound ==> claim.jobId in reports
        invariant lost ==> !(claim.jobId in jobs && Live(jobs[claim.jobId], claim))
        invariant beat == 0 && !reportFound && !lost ==> State() == old(State())
        invariant QuietlyOwned(world, old(State()), claim) ==>
                    && !reportFound && !lost
                    && State() == if beat == 0 then old(State())
                                  else Step(cfg, old(State()), Renew(claim, old(clock), old(clock)))
        invariant Quiet(world) && claim.jobId in old(reports) ==> beat == 0 && !lost
        decreases beats - beat, !reportFound && !lost
      {
        ghost var before := own;
        if QuietlyOwned(world, old(State()), claim) {
          OwnedAfterRenew(cfg, old(State()), State(), claim);
        }
        reportFound, lost := Beat(claim);
        TendingOn(old(own), before, own, claim);
        if !reportFound && !lost {
          beat := beat + 1;
        }
      }
      done := beat;
    }

    /** db.get(Job), the first look for a report, and the checks that this execution may go on. */
    method Inspect(claim: Claim) returns (f: Flow, job: Option<Job>)
      requires Recorded()
      modifies this
      ensures Recorded() && Tending(old(own), own, claim)
      ensures !f.LeaseLostError? && !f.PermanentJobError?
      ensures f.Returned? ==> Answered(cfg, old(State()), State(), claim.jobId, f.result)
      ensures f.Returned? && Issued(old(State()), claim) ==> Released(State(), claim)
      ensures f.Proceed? ==> job.Some? && claim.jobId in jobs && Live(job.value, claim)
      ensures Quiet(world) ==>
                && State() == Step(cfg, old(State()), Repair(claim.jobId, old(clock)))
                && match EntryResult(old(State()), claim)
                   case Some(w) => f == Returned(w)
                   case None => f.Proceed? && State() == old(State()) && job == Some(old(jobs[claim.jobId]))
    {
      var fault := Enter();
      ghost var read, log := State(), own;
      job := None;
      if !fault.NoFault? {
        f := OtherError("OperationalError");
      } else if claim.jobId !in jobs {
        f := Returned(WorkResult(JobNotFound, None));
        StepLeavesRows(cfg, read, Repair(claim.jobId, clock));
      } else {
        job := Some(jobs[claim.jobId]);
        f := Adopt(claim.jobId);
        Since(log);
        EntryAnswered(cfg, old(State()), read, State(), claim);
        if Issued(old(State()), claim) {
          ReleasedStays(cfg, old(State()), read, State(), claim);
        }
        if f.Proceed? {
          if !job.value.status.Processing? {
            f := Returned(WorkResult(JobIs(job.value.status), None));
          } else if !OwnsJob(job.value, claim) {
            f := Returned(WorkResult(AlreadyProcessing, None));
          }
        }
      }
    }

    /** The block that runs under the heartbeat.  A set flag means a report exists, so the second look
        finds it and the lease is never reported lost. */
    method UnderLease(claim: Claim, reportType: string, generation: Generation, beats: nat) returns (f: Flow)
      requires Recorded()
      modifies this
      ensures Recorded() && Tending(old(own), own, claim)
      ensures !f.LeaseLostError?
      ensures f.PermanentJobError? ==> claim.jobId !in reports
      ensures f.Returned? ==> f.result.result.Some? && Delivered(claim.jobId, f.result) && Released(State(), claim)
      ensures f.Proceed? ==> generation.Generated? && reportType == "transcript"
      ensures QuietlyOwned(world, old(State()), claim) ==>
                && f == (if reportType != "transcript" then PermanentJobError(Unsupported(reportType))
                         else if generation.Raised? then OtherError(generation.text) else Proceed)
                && SameOrRenewed(cfg, old(State()), State(), claim)
    {
      f := Adopt(claim.jobId);
      if f.Proceed? {
        if reportType != "transcript" {
          f := PermanentJobError(Unsupported(reportType));
        } else {
          ghost var log := own;
          var reportFound, _ := Heartbeat(claim, beats);
          TendingOn(old(own), log, own, claim);
          if generation.Raised? {
            f := OtherError(generation.text);
          } else if reportFound {
            log := own;
            f := Adopt(claim.jobId);
            MendingIsTending(old(own), log, own, claim);
            Since(log);
            if f.Proceed? {
              f := LeaseLostError;
            }
          }
        }
      }
    }

    /** The last step: hand in the transcript. */
    method Deliver(claim: Claim, transcript: Option<Transcript>) returns (f: Flow)
      requires Recorded()
      modifies this
      ensures Recorded()
      ensures Tending(old(own), own, claim)
              || (Deciding(old(own), own, claim, transcript) && claim.jobId in reports)
      ensures f.Returned? || f.PermanentJobError? || f.OtherError?
      ensures f.Returned? ==> f.result.result.Some? && Delivered(claim.jobId, f.result) && Released(State(), claim)
      ensures f.PermanentJobError? ==> transcript.None? && f.text == STUDENT_GONE
      ensures transcript.None? ==> f.PermanentJobError? && State() == old(State())
      ensures Quiet(world) && transcript.Some? && claim.jobId in old(jobs) && claim.jobId !in old(reports) ==>
                && f == Returned(WorkResult(JobIs(Completed), transcript))
                && State() == Step(cfg, old(State()), Persist(claim.jobId, transcript.value, old(clock)))
    {
      if transcript.None? {
        f := PermanentJobError(STUDENT_GONE);
      } else {
        var report, _ := PersistOrAdoptReport(claim.jobId, transcript.value);
        match report {
          case Ok(t) => f := Returned(WorkResult(JobIs(Completed), Some(t)));
          case IntegrityError => f := OtherError("IntegrityError");
          case DbError => f := OtherError("OperationalError");
        }
      }
    }

    /** From taking up the heartbeat to handing in the report. */
    method Produce(claim: Claim, reportType: string, generation: Generation, beats: nat) returns (f: Flow)
      requires Recorded()
      modifies this
      ensures Recorded()
      ensures Tending(old(own), own, claim)
              || (Deciding(old(own), own, claim, ResultOf(generation)) && claim.jobId in reports)
      ensures !f.LeaseLostError? && !f.Proceed?
      ensures f.PermanentJobError? ==> claim.jobId !in reports
      ensures f.Returned? ==> f.result.result.Some? && Delivered(claim.jobId, f.result) && Released(State(), claim)
      ensures QuietlyOwned(world, old(State()), claim) ==>
                Produced(cfg, old(State()), State(), claim, reportType, generation, f)
    {
      f := UnderLease(claim, reportType, generation, beats);
      ghost var renewed, log := State(), own;
      if f.Proceed? {
        f := Adopt(claim.jobId);
        MendingIsTending(old(own), log, own, claim);
        if f.Proceed? {
          log := own;
          f := Deliver(claim, generation.transcript);
          TendsOrDecides(old(own), log, own, claim, ResultOf(generation));
          if QuietlyOwned(world, old(State()), claim) && reportType == "transcript" && generation.transcript.Some? {
            PersistAfterRenew(cfg, old(State()), renewed, claim, generation.transcript.value);
          }
        }
      }
    }

    /** The body of the try statement. */
    method TryReport(claim: Claim, generation: Generation, beats: nat) returns (f: Flow)
      requires Recorded()
      modifies this
      ensures Recorded()
      ensures Tending(old(own), own, claim)
              || (Deciding(old(own), own, claim, ResultOf(generation)) && claim.jobId in reports)
      ensures !f.LeaseLostError? && !f.Proceed?
      ensures f.PermanentJobError? ==> claim.jobId !in reports
      ensures f.Returned? ==> Answered(cfg, old(State()), State(), claim.jobId, f.result)
      ensures f.Returned? && Issued(old(State()), claim) ==> Released(State(), claim)
      ensures Quiet(world) ==>
                match EntryResult(old(State()), claim)
                case Some(w) => f == Returned(w) && State() == Step(cfg, old(State()), Repair(claim.jobId, old(clock)))
                case None =>
                  Produced(cfg, old(State()), State(), claim, old(jobs[claim.jobId]).reportType, generation, f)
    {
      var row;
      f, row := Inspect(claim);
      ghost var log := own;
      if f.Proceed? {
        f := Produce(claim, row.value.reportType, generation, beats);
        Since(old(own));
        TendsOrDecides(old(own), log, own, claim, ResultOf(generation));
      }
    }

    /** Records the failure and answers with the resulting status. */
    method Settle(claim: Claim, text: string, permanent: bool, ghost before: Db)
      returns (o: Reply<WorkResult>, ghost e: Event)
      requires Recorded()
      requires Reaches(cfg, before, State()) && claim.jobId !in reports
      modifies this
      ensures Recorded() && FailingOnce(old(own), own, claim)
      ensures o.Ok? ==> Answered(cfg, before, State(), claim.jobId, o.value)
      ensures o.Ok? ==> Released(State(), claim)
      ensures !o.IntegrityError?
      ensures QuietlyOwned(world, before, claim) && SameOrRenewed(cfg, before, old(State()), claim) ==>
                && o.Ok? && State() == Step(cfg, before, e)
                && FailureOutcome(cfg, before, claim, permanent, text, o.value, e)
    {
      ghost var first := State();
      var status;
      ghost var at;
      status, at, e := RecordFailure(claim, text, permanent);
      Since(old(own));
      MetReaches(cfg, first, world.others, old(statement), statement - 1);
      if status.Ok? {
        FailureReleases(cfg, at, State(), e, claim, permanent, status.value);
        Settled(world, cfg, before, first, at, State(), e, claim, permanent, text, status.value);
        o := Ok(WorkResult(status.value, None));
      } else {
        o := DbError;
      }
    }

    /** What follows an unforeseen exception: adopt a report if there is one, or record a failure. */
    method Recover(claim: Claim, text: string, ghost before: Db, ghost result: Option<Transcript>)
      returns (o: Reply<WorkResult>, ghost e: Event)
      requires Recorded() && Reaches(cfg, before, State())
      modifies this
      ensures Recorded()
      ensures if claim.jobId in old(reports) then Tending(old(own), own, claim)
              else Deciding(old(own), own, claim, result)
      ensures o.Ok? ==> Answered(cfg, before, State(), claim.jobId, o.value)
      ensures o.Ok? ==> Released(State(), claim)
      ensures !o.IntegrityError?
      ensures QuietlyOwned(world, before, claim) && SameOrRenewed(cfg, before, old(State()), claim) ==>
                && o.Ok? && State() == Step(cfg, before, e)
                && FailureOutcome(cfg, before, claim, false, text, o.value, e)
    {
      e := Tick(clock);
      var f := Adopt(claim.jobId);
      ghost var log := own;
      Since(old(own));
      ReachesVia(cfg, before, old(State()), State());
      ReachExtends(cfg, before, State());
      match f {
        case Returned(result) => o := Ok(result);
        case Proceed =>
          o, e := Settle(claim, text, false, before);
          DecidingOn(old(own), log, own, claim, result);
        case _ => o := DbError;
      }
    }

    /** The except clauses: how the execution ends after the try statement has. */
    method Conclude(claim: Claim, f: Flow, ghost before: Db, ghost result: Option<Transcript>)
      returns (o: Reply<WorkResult>, ghost e: Event)
      requires Recorded() && Reaches(cfg, before, State())
      requires !f.LeaseLostError? && !f.Proceed? && (f.PermanentJobError? ==> claim.jobId !in reports)
      requires f.Returned? ==> Answered(cfg, before, State(), claim.jobId, f.result)
      requires f.Returned? && Issued(before, claim) ==> Released(State(), claim)
      modifies this
      ensures Recorded()
      ensures if claim.jobId in old(reports) then Tending(old(own), own, claim)
              else Deciding(old(own), own, claim, result)
      ensures o.Ok? ==> Answered(cfg, before, State(), claim.jobId, o.value)
      ensures o.Ok? && Issued(before, claim) ==> Released(State(), claim)
      ensures !o.IntegrityError?
      ensures f.Returned? ==> o == Ok(f.result) && State() == old(State())
      ensures !f.Returned? && QuietlyOwned(world, before, claim) && SameOrRenewed(cfg, before, old(State()), claim) ==>
                && o.Ok? && State() == Step(cfg, before, e)
                && FailureOutcome(cfg, before, claim, f.PermanentJobError?, f.text, o.value, e)
    {
      e := Tick(clock);
      match f {
        case Returned(w) =>
          o := Ok(w);
        case PermanentJobError(text) =>
          o, e := Settle(claim, text, true, before);
          DecidingOn(old(own), old(own), own, claim, result);
        case OtherError(text) =>
          o, e := Recover(claim, text, before, result);
      }
    }

    /** A whole execution.  Whatever other executions do, a result that comes back is the one stored
        report, `completed` is answered only for a reported job, and the error paths for a lost lease and
        a vanished winner are never taken.  What it commits among the transactions of others are repairs of
        its job, renewals of its claim, and at most one delivery of the generated transcript or failure of
        its claim.  Left alone, it amounts to exactly one transaction `e` on the job it owns: delivery,
        permanent failure, or retry or exhaustion. */
    method ProcessClaimedReport(claim: Claim, generation: Generation, beats: nat)
      returns (o: Reply<WorkResult>, ghost e: Event)
      requires Recorded()
      modifies this
      ensures Recorded() && Deciding(old(own), own, claim, ResultOf(generation))
      ensures State() == Run(cfg, old(State()), Woven(world.others, old(statement), own[old(statement)..]))
      ensures Reaches(cfg, old(State()), State()) && Extends(old(State()), State())
      ensures o.Ok? ==> Answered(cfg, old(State()), State(), claim.jobId, o.value)
      ensures o.Ok? && Issued(old(State()), claim) ==> Released(State(), claim)
      ensures !o.IntegrityError?
      ensures Quiet(world) ==>
                && o.Ok? && State() == Step(cfg, old(State()), e)
                && Expected(cfg, old(State()), claim, generation, o.value, e)
    {
      ghost var db := State();
      var f := TryReport(claim, generation, beats);
      ghost var log := own;
      Since(old(own));
      o, e := Conclude(claim, f, db, ResultOf(generation));
      RecoveredLog(old(own), log, own, claim, ResultOf(generation));
      if f.Returned? {
        e := if EntryResult(db, claim).None? && ResultOf(generation).Some?
             then Persist(claim.jobId, ResultOf(generation).value, db.clock) else Repair(claim.jobId, db.clock);
      }
      Since(old(own));
      PlayedSince(cfg, start, world.others, old(own), own);
    }

    /** Claims the next job, trying again after database errors.  An error may hide a committed claim,
        whose job is then left to its lease. */
    method ClaimWithRetry(attempts: nat) returns (r: Reply<Option<Claim>>)
      requires Recorded()
      modifies this
      ensures Recorded() && Claiming(old(own), own)
      ensures r.Ok? && r.value.Some? ==>
                && r.value.value.jobId in jobs && Live(jobs[r.value.value.jobId], r.value.value)
                && JustClaimed(own, r.value.value)
      ensures !r.IntegrityError? && (attempts == 0 ==> r == Ok(None) && own == old(own))
      ensures r.Ok? && attempts > 0 ==> LastClaim(own, r.value)
      ensures old(statement) <= statement <= old(statement) + attempts
      ensures r.Ok? && attempts > 0 ==> statement > old(statement) && world.fault(statement - 1).NoFault?
      ensures r.DbError? ==> statement == old(statement) + attempts && AllFail(world, old(statement), statement)
      ensures statement > old(statement) ==> AllFail(world, old(statement), statement - 1)
      ensures Quiet(world) && attempts >= 1 ==> ClaimedAlone(old(State()), State(), old(statement), r)
    {
      r := Ok(None);
      var attempt := 0;
      while attempt < attempts && (attempt == 0 || r.DbError?)
        invariant Recorded() && Claiming(old(own), own)
        invariant attempt <= attempts && statement == old(statement) + attempt
        invariant attempt == 0 ==> r == Ok(None) && State() == old(State()) && own == old(own)
        invariant attempt > 0 && r.Ok? ==> LastClaim(own, r.value)
        invariant attempt > 0 ==> !r.IntegrityError? && (r.Ok? <==> world.fault(statement - 1).NoFault?)
        invariant AllFail(world, old(statement), if attempt == 0 then statement else statement - 1)
        invariant r.Ok? && r.value.Some? ==>
                    && r.value.value.jobId in jobs && Live(jobs[r.value.value.jobId], r.value.value)
                    && JustClaimed(own, r.value.value)
        invariant Quiet(world) && attempt > 0 ==> ClaimedAlone(old(State()), State(), old(statement), r)
      {
        r := ClaimNextJob();
        attempt := attempt + 1;
      }
    }

    /** Claims and executes at most one job; the answer says whether there was one.  What it commits are
        claims, `claims` being the record up to the last of them, and then the execution of the job claimed,
        `claim`, which answers `w`; when it returns, the claim has been released. */
    method RunOnce(attempts: nat, generation: Generation, beats: nat)
      returns (r: Reply<bool>, ghost claims: Log, ghost claim: Option<Claim>, ghost w: WorkResult, ghost e: Event)
      requires Recorded()
      modifies this
      ensures Recorded() && Claiming(old(own), claims) && !r.IntegrityError?
      ensures attempts == 0 ==> r == Ok(false) && claim.None? && claims == old(own)
      ensures attempts > 0 ==>
                && |old(own)| < |claims| && AllFail(world, old(statement), |claims| - 1)
                && if world.fault(|claims| - 1).NoFault? then LastClaim(claims, claim) else claim.None? && r.DbError?
      ensures claim.None? ==> own == claims && !(r == Ok(true)) && (r.Ok? && attempts > 0 ==> LastClaim(claims, None))
      ensures claim.Some? ==>
                && JustClaimed(claims, claim.value) && r != Ok(false)
                && Deciding(claims, own, claim.value, ResultOf(generation))
                && (r.Ok? ==> Released(State(), claim.value)
                              && Answered(cfg, Played(cfg, start, world.others, claims), State(), claim.value.jobId, w))
      ensures Quiet(world) && attempts > 0 ==>
                RoundAlone(world, cfg, old(State()), State(), old(statement), generation, r, claim, w, e)
    {
      var granted := ClaimWithRetry(attempts);
      claims, claim, w, e := own, None, WorkResult(JobNotFound, None), Tick(clock);
      match granted {
        case Ok(None) =>
          r := Ok(false);
          ghost var take := ClaimNext(old(clock), world.token(old(statement)), world.locked(old(statement)));
          if Quiet(world) && attempts > 0 {
            StepLeavesRows(cfg, old(State()), take);
          }
        case Ok(Some(c)) =>
          claim := Some(c);
          var o;
          o, e := ProcessClaimedReport(c, generation, beats);
          r := if o.Ok? then Ok(true) else DbError;
          w := if o.Ok? then o.value else w;
        case _ => r := DbError;
      }
    }

    /** The worker process for any number of rounds of its endless loop.  Whatever others do, it renews and
        fails only under claims it has taken itself.  Left alone it leaves no job in processing under a claim
        of its own, and completes the jobs that already had a report; with enough rounds and free rows each
        job that was claimable has been executed once, and no other: it is completed, given up or waits for
        its retry, and completed if every generation succeeds. */
    method WorkerLoop(rounds: nat, attempts: nat, generation: nat -> Generation, beats: nat)
      requires Recorded()
      modifies this
      ensures Recorded() && UnderOwnClaims(old(own), own)
      ensures attempts > 0 ==> statement > old(statement) + rounds
      ensures Inv(cfg, old(State())) ==> Inv(cfg, State())
      ensures Quiet(world) ==> AllCompleted(old(State()).reports.Keys * old(State()).jobs.Keys, State())
      ensures Quiet(world) ==> NoneLeft(old(State()), State())
      ensures Undisturbed(world, attempts) && Inv(cfg, old(State()))
              && rounds >= |ClaimableJobs(old(State()), old(clock))| ==>
                && ClaimableJobs(State(), clock) == {}
                && Emptied(old(State()), State(), ClaimableJobs(old(State()), old(clock)),
                           AllSucceed(generation))
    {
      ghost var db := old(State());
      assert Quiet(world) ==> Run(cfg, State(), world.others(statement)) == State();
      var _ := ReconcileReportedJobs();
      InLoopFirst(world, cfg, db, State(), attempts, generation);
      for round := 0 to rounds
        invariant Recorded() && UnderOwnClaims(old(own), own)
        invariant attempts > 0 ==> statement > old(statement) + round
        invariant InLoop(world, cfg, db, State(), attempts, generation, round)
      {
        ghost var before, log, n := State(), own, statement;
        ghost var claims, claim, w, e;
        var claimed;
        claimed, claims, claim, w, e := RunOnce(attempts, generation(round), beats);
        RoundUnderOwnClaims(old(own), log, claims, own, claim, ResultOf(generation(round)));
        Since(log);
        InLoopNext(world, cfg, db, before, State(), attempts, generation, round, n, claimed, claim, w, e);
      }
      Since(old(own));
      if Inv(cfg, db) {
        ReachKeepsInv(cfg, db, State());
      }
    }
  }
}
