/** What every statement of the job protocol leaves in the tables, column by column and with its WHERE clause
    written out (app/workers/tasks.py, app/routers/reports.py): the reference the step function is held to. */
module Columns {
  import opened Entities
  import opened Transcripts
  import opened Jobs
  import opened Lifecycle
  import opened Fencing

  /** Which rows and reports a transaction can touch at all. */
  lemma TouchesOnly(cfg: Settings, db: Db, e: Event, other: JobId)
    requires match e
             case Enqueue(id, _, _, _) => other != id
             case ClaimNext(_, _, locked) => other in locked
             case Renew(claim, _, _) => other != claim.jobId
             case Repair(id, _) => other != id || other !in db.reports
             case RepairAll(_) => other !in db.reports
             case Persist(id, _, _) => other != id || other in db.reports
             case Fail(claim, _, _, _, _) => other != claim.jobId
             case Tick(_) => true
    ensures var next := Step(cfg, db, e);
            && (other in next.jobs <==> other in db.jobs) && (other in db.jobs ==> next.jobs[other] == db.jobs[other])
            && (other in next.reports <==> other in db.reports)
            && (other in db.reports ==> next.reports[other] == db.reports[other])
  {
  }

  /** The UPDATE of a claim takes a row that nobody has locked and that is queued with its retry time reached,
      or in processing with its lease run out; it takes none only if there is no such row. */
  lemma ClaimWrites(cfg: Settings, db: Db, now: Time, token: string, locked: set<JobId>, other: JobId)
    requires now <= db.clock
    ensures var take := ClaimNext(now, token, locked);
            var next, granted := Step(cfg, db, take), Granted(cfg, db, take);
            match granted
            case None =>
              && next == db
              && (other in db.jobs && other !in locked ==>
                    var row := db.jobs[other];
                    && !(row.status.Queued? && (row.retryAt.None? || row.retryAt.value <= now))
                    && !(row.status.Processing? && (row.leaseUntil.None? || row.leaseUntil.value < now)))
            case Some(c) =>
              && c.jobId in db.jobs && c.jobId !in locked && c.jobId in next.jobs
              && var was, row := db.jobs[c.jobId], next.jobs[c.jobId];
                 && ((was.status.Queued? && (was.retryAt.None? || was.retryAt.value <= now))
                     || (was.status.Processing? && (was.leaseUntil.None? || was.leaseUntil.value < now)))
                 && c.token == token && c.version == was.version + 1
                 && row.status.Processing? && row.token == Some(token)
                 && row.version == was.version + 1 && row.attempts == was.attempts + 1
                 && row.leaseUntil == Some(now + cfg.leaseSeconds as Time)
                 && row.retryAt.None? && row.lastError.None? && row.updatedAt == now
                 && row.createdAt == was.createdAt && row.ownerId == was.ownerId
                 && row.reportType == was.reportType && row.targetId == was.targetId
                 && next.reports == db.reports && next.clock == db.clock
                 && (other in db.jobs && other != c.jobId ==> other in next.jobs && next.jobs[other] == db.jobs[other])
  {
    match NextCandidate(db, now, locked) {
      case None =>
        StepLeavesRows(cfg, db, ClaimNext(now, token, locked));
        assert other in db.jobs && other !in locked ==> other !in ClaimableJobs(db, now);
      case Some(id) =>
        assert id in ClaimableJobs(db, now);
    }
  }

  /** What comes lexicographically first is, where the two differ first, at an end or smaller. */
  lemma {:induction false} SmallerAt(a: string, b: string, i: nat)
    requires LexLess(a, b) && i <= |a| && i <= |b| && a[..i] == b[..i]
    ensures i < |b| && (i < |a| ==> a[i] <= b[i])
    decreases i
  {
    if i > 0 {
      assert a[0] == a[..i][0] == b[..i][0] == b[0];
      assert a[1..][..i - 1] == a[..i][1..] == b[..i][1..] == b[1..][..i - 1];
      SmallerAt(a[1..], b[1..], i - 1);
    }
  }

  /** Of two rows a claim may take: queued first, then without a retry time, then the earlier retry time, then
      the older row, then the lexicographically smaller id. */
  lemma ClaimOrder(db: Db, now: Time, locked: set<JobId>, other: JobId, i: nat)
    requires NextCandidate(db, now, locked).Some?
    requires other in ClaimableJobs(db, now) && other !in locked && other != NextCandidate(db, now, locked).value
    ensures var first := NextCandidate(db, now, locked).value;
            var x, y := db.jobs[first], db.jobs[other];
            && (y.status.Queued? ==> x.status.Queued?)
            && (x.status == y.status && y.retryAt.None? ==> x.retryAt.None?)
            && (x.status == y.status && x.retryAt.Some? ==> y.retryAt.Some? && x.retryAt.value <= y.retryAt.value)
            && (x.status == y.status && x.retryAt == y.retryAt ==> x.createdAt <= y.createdAt)
            && (x.status == y.status && x.retryAt == y.retryAt && x.createdAt == y.createdAt
                && i <= |other| && i <= |first| && other[..i] == first[..i] ==>
                  i < |other| && (i < |first| ==> first[i] <= other[i]))
  {
    var first := NextCandidate(db, now, locked).value;
    assert Precedes(first, db.jobs[first], other, db.jobs[other]);
    assert !(db.jobs[first].status.Queued?) ==> db.jobs[first].status.Processing?;
    if LexLess(first, other) && i <= |other| && i <= |first| && other[..i] == first[..i] {
      SmallerAt(first, other, i);
    }
  }

  /** The guarded UPDATE of a renewal moves the lease and nothing else, of exactly the row in processing under
      the token and the version of the claim. */
  lemma RenewWrites(cfg: Settings, db: Db, claim: Claim, now: Time, stamp: Time)
    requires now <= stamp <= db.clock && claim.jobId in db.jobs
    ensures var next, was := Step(cfg, db, Renew(claim, now, stamp)), db.jobs[claim.jobId];
            && claim.jobId in next.jobs
            && next.jobs[claim.jobId] ==
               if was.status.Processing? && was.token == Some(claim.token) && was.version == claim.version
               then was.(leaseUntil := Some(now + cfg.leaseSeconds as Time), updatedAt := stamp) else was
  {
  }

  /** A repair, one or all, completes exactly the reported rows that are not completed. */
  lemma RepairWrites(cfg: Settings, db: Db, e: Event, id: JobId)
    requires (e.Repair? && e.id == id) || e.RepairAll?
    requires e.now <= db.clock && id in db.jobs
    ensures var next, was := Step(cfg, db, e), db.jobs[id];
            && next.reports == db.reports && id in next.jobs
            && next.jobs[id] ==
               if id in db.reports && !was.status.Completed?
               then was.(status := Completed, token := None, leaseUntil := None, retryAt := None, lastError := None,
                         updatedAt := e.now)
               else was
  {
  }

  /** Handing in a result stores it exactly if the job exists and has none, and then completes the job. */
  lemma PersistWrites(cfg: Settings, db: Db, id: JobId, result: Transcript, now: Time)
    requires now <= db.clock
    ensures var next := Step(cfg, db, Persist(id, result, now));
            && next.reports == (if id in db.jobs && id !in db.reports then db.reports[id := result] else db.reports)
            && (id in db.jobs ==>
                  var was := db.jobs[id];
                  && id in next.jobs
                  && next.jobs[id] ==
                     if id !in db.reports && !was.status.Completed?
                     then was.(status := Completed, token := None, leaseUntil := None, retryAt := None,
                               lastError := None, updatedAt := now)
                     else was)
  {
  }

  /** The guarded UPDATE of a failure, apart from the length of the delay: `failed` if permanent or if the
      attempts are used up, otherwise queued for a later time. */
  lemma FailWrites(cfg: Settings, db: Db, claim: Claim, permanent: bool, now: Time, jitter: real, message: string)
    requires now <= db.clock && claim.jobId in db.jobs && JitterInRange(cfg, db.jobs[claim.jobId].attempts, jitter)
    ensures var next, was := Step(cfg, db, Fail(claim, permanent, now, jitter, message)), db.jobs[claim.jobId];
            && next.reports == db.reports && claim.jobId in next.jobs
            && var row := next.jobs[claim.jobId];
               if was.status.Processing? && was.token == Some(claim.token) && was.version == claim.version then
                 && row.status == (if permanent || was.attempts >= cfg.maxAttempts then Failed else Queued)
                 && (row.status.Failed? ==> row.retryAt.None?)
                 && (row.status.Queued? ==> row.retryAt.Some? && row.retryAt.value > now)
                 && row.token.None? && row.leaseUntil.None? && row.lastError == Some(message) && row.updatedAt == now
                 && row.version == was.version && row.attempts == was.attempts && row.createdAt == was.createdAt
                 && row.ownerId == was.ownerId && row.reportType == was.reportType && row.targetId == was.targetId
               else row == was
  {
    DelayDoubles(cfg, db.jobs[claim.jobId].attempts);
  }

  /** A new job is queued and free at once. */
  lemma EnqueueWrites(cfg: Settings, db: Db, id: JobId, ownerId: int, targetId: int, created: Time)
    requires created <= db.clock
    ensures var next := Step(cfg, db, Enqueue(id, ownerId, targetId, created));
            && id in next.jobs && next.reports == db.reports
            && next.jobs[id] ==
               if id in db.jobs then db.jobs[id]
               else Job(Queued, 0, 0, None, None, None, None, created, created, ownerId, "transcript", targetId)
  {
  }
}
