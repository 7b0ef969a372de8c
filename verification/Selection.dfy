/** Which job a claim takes, and why no job is left behind. */
module Selection {
  import opened Entities
  import opened Jobs
  import opened Lifecycle
  import opened Fencing

  /** A claim removes exactly the job it takes from the claimable ones. */
  lemma GrantTakesOne(cfg: Settings, db: Db, now: Time, token: string, locked: set<JobId>, id: JobId)
    requires now <= db.clock && NextCandidate(db, now, locked) == Some(id)
    ensures var next := Step(cfg, db, ClaimNext(now, token, locked));
            && next.jobs.Keys == db.jobs.Keys
            && (forall other | other in db.jobs && other != id :: next.jobs[other] == db.jobs[other])
            && ClaimableJobs(next, now) == ClaimableJobs(db, now) - {id}
  {
  }

  /** Two overlapping claims: the second, skipping the row the first one holds locked, takes exactly the
      job it would have taken had it run after the first one committed. */
  lemma SkipLockedSerializes(cfg: Settings, db: Db, now: Time, token: string, locked: set<JobId>, first: JobId)
    requires now <= db.clock && NextCandidate(db, now, locked) == Some(first)
    ensures var second := NextCandidate(db, now, locked + {first});
            && second != Some(first)
            && second == NextCandidate(Step(cfg, db, ClaimNext(now, token, locked)), now, locked)
  {
    var next := Step(cfg, db, ClaimNext(now, token, locked));
    GrantTakesOne(cfg, db, now, token, locked, first);
    var rest := ClaimableJobs(db, now) - (locked + {first});
    assert rest == ClaimableJobs(next, now) - locked;
    FirstUnique(db.jobs, rest);
    var second := NextCandidate(next, now, locked);
    if second.Some? {
      assert IsFirst(next.jobs, rest, second.value);
      assert IsFirst(db.jobs, rest, second.value);
    }
  }

  function ClaimRound(now: Time, tokens: seq<string>): seq<Event> {
    if tokens == [] then [] else [ClaimNext(now, tokens[0], {})] + ClaimRound(now, tokens[1..])
  }

  function JobsOf(gs: seq<Claim>): set<JobId> {
    set g | g in gs :: g.jobId
  }

  /** Successive claims follow the claim order of the rows as they were in `jobs`. */
  predicate InOrder(jobs: map<JobId, Job>, gs: seq<Claim>) {
    && (forall g | g in gs :: g.jobId in jobs)
    && forall i, k | 0 <= i < k < |gs| :: Precedes(gs[i].jobId, jobs[gs[i].jobId], gs[k].jobId, jobs[gs[k].jobId])
  }

  /** `gs` are the claims `n` attempts hand out at `now`, and `left` is what is then still claimable. */
  predicate Drained(db: Db, now: Time, n: nat, gs: seq<Claim>, left: set<JobId>) {
    var todo := ClaimableJobs(db, now);
    && InOrder(db.jobs, gs)
    && |gs| == (if n < |todo| then n else |todo|)
    && JobsOf(gs) <= todo
    && left == todo - JobsOf(gs)
    && (|todo| <= n ==> JobsOf(gs) == todo)
  }

  lemma FirstOfAll(db: Db, now: Time, id: JobId)
    requires NextCandidate(db, now, {}) == Some(id)
    ensures IsFirst(db.jobs, ClaimableJobs(db, now), id)
  {
    assert ClaimableJobs(db, now) - {} == ClaimableJobs(db, now);
  }

  lemma DrainIdle(db: Db, now: Time, n: nat, tail: seq<Claim>, left: set<JobId>)
    requires ClaimableJobs(db, now) <= {} && Drained(db, now, n, tail, left)
    ensures Drained(db, now, n + 1, tail, left)
  {
    assert ClaimableJobs(db, now) == {};
  }

  lemma FirstThenOrdered(db: Db, next: Db, now: Time, c: Claim, tail: seq<Claim>)
    requires IsFirst(db.jobs, ClaimableJobs(db, now), c.jobId)
    requires next.jobs.Keys == db.jobs.Keys
    requires forall other | other in db.jobs && other != c.jobId :: next.jobs[other] == db.jobs[other]
    requires InOrder(next.jobs, tail) && JobsOf(tail) <= ClaimableJobs(db, now) - {c.jobId}
    ensures InOrder(db.jobs, [c] + tail)
  {
    var gs := [c] + tail;
    assert forall g | g in tail :: g.jobId in JobsOf(tail);
    assert forall k | 0 < k < |gs| :: gs[k] == tail[k - 1] && gs[k] in tail;
    forall i, k | 0 <= i < k < |gs|
      ensures Precedes(gs[i].jobId, db.jobs[gs[i].jobId], gs[k].jobId, db.jobs[gs[k].jobId])
    {
      if i > 0 {
        assert gs[i] == tail[i - 1] && gs[k] == tail[k - 1];
      }
    }
  }

  lemma DrainMore(db: Db, next: Db, now: Time, n: nat, c: Claim, tail: seq<Claim>, left: set<JobId>)
    requires IsFirst(db.jobs, ClaimableJobs(db, now), c.jobId)
    requires next.jobs.Keys == db.jobs.Keys
    requires forall other | other in db.jobs && other != c.jobId :: next.jobs[other] == db.jobs[other]
    requires ClaimableJobs(next, now) == ClaimableJobs(db, now) - {c.jobId}
    requires Drained(next, now, n, tail, left)
    ensures Drained(db, now, n + 1, [c] + tail, left)
  {
    assert JobsOf([c] + tail) == {c.jobId} + JobsOf(tail) by {
      assert forall g :: g in [c] + tail <==> g == c || g in tail;
    }
    FirstThenOrdered(db, next, now, c, tail);
  }

  lemma DrainStep(cfg: Settings, db: Db, now: Time, token: string, n: nat, tail: seq<Claim>, left: set<JobId>)
    requires now <= db.clock && Drained(Step(cfg, db, ClaimNext(now, token, {})), now, n, tail, left)
    ensures var g := Granted(cfg, db, ClaimNext(now, token, {}));
            Drained(db, now, n + 1, if g.Some? then [g.value] + tail else tail, left)
  {
    match NextCandidate(db, now, {}) {
      case None =>
        StepLeavesRows(cfg, db, ClaimNext(now, token, {}));
        DrainIdle(db, now, n, tail, left);
      case Some(id) =>
        var next := Step(cfg, db, ClaimNext(now, token, {}));
        GrantTakesOne(cfg, db, now, token, {}, id);
        FirstOfAll(db, now, id);
        DrainMore(db, next, now, n, Claim(id, token, db.jobs[id].version + 1), tail, left);
    }
  }

  /** At a fixed clock with nobody else active, repeated claims hand out the claimable jobs in order, each
      once, and then none. */
  lemma {:induction false} Drain(cfg: Settings, db: Db, now: Time, tokens: seq<string>)
    requires now <= db.clock
    ensures var round := ClaimRound(now, tokens);
            Drained(db, now, |tokens|, Grants(cfg, db, round), ClaimableJobs(Run(cfg, db, round), now))
    decreases |tokens|
  {
    if tokens != [] {
      var e := ClaimNext(now, tokens[0], {});
      var next, rest := Step(cfg, db, e), ClaimRound(now, tokens[1..]);
      assert ClaimRound(now, tokens)[1..] == rest;
      Drain(cfg, next, now, tokens[1..]);
      var left := ClaimableJobs(Run(cfg, next, rest), now);
      DrainStep(cfg, db, now, tokens[0], |tokens| - 1, Grants(cfg, next, rest), left);
    }
  }

  /** When an unfinished job, left alone, becomes free to claim. */
  function Deadline(row: Job, otherwise: Time): Time {
    if row.status.Processing? && row.leaseUntil.Some? then row.leaseUntil.value
    else if row.retryAt.Some? then row.retryAt.value
    else otherwise
  }

  /** In every reachable state (so also after a crash at any step, or a claim whose reply was lost) each
      job that is neither completed nor failed becomes claimable after its lease or retry time, which is
      never further away than `LongestWait`. */
  lemma NeverStuck(cfg: Settings, start: Time, es: seq<Event>, id: JobId, t: Time)
    requires var db := Run(cfg, EmptyDb(start), es);
             && id in db.jobs && (db.jobs[id].status.Queued? || db.jobs[id].status.Processing?)
    ensures var db := Run(cfg, EmptyDb(start), es);
            && Deadline(db.jobs[id], db.clock) <= db.clock + LongestWait(cfg)
            && (t > Deadline(db.jobs[id], db.clock) ==> Claimable(db.jobs[id], t))
  {
    var db := Run(cfg, EmptyDb(start), es);
    RunKeepsInv(cfg, EmptyDb(start), es);
    assert RowInv(cfg, db, id);
  }

  /** Progress: once that time has passed, a round of as many claims as there are claimable jobs hands
      the job to a worker, whatever happened before. */
  lemma EventuallyClaimed(cfg: Settings, start: Time, es: seq<Event>, id: JobId, t: Time, tokens: seq<string>)
    requires var db := Run(cfg, EmptyDb(start), es);
             && id in db.jobs && (db.jobs[id].status.Queued? || db.jobs[id].status.Processing?)
             && t > db.clock + LongestWait(cfg)
             && |tokens| >= |ClaimableJobs(Step(cfg, db, Tick(t)), t)|
    ensures var late := Step(cfg, Run(cfg, EmptyDb(start), es), Tick(t));
            id in JobsOf(Grants(cfg, late, ClaimRound(t, tokens)))
  {
    var db := Run(cfg, EmptyDb(start), es);
    NeverStuck(cfg, start, es, id, t);
    DelayDoubles(cfg, cfg.maxAttempts - 1);
    assert id in ClaimableJobs(Step(cfg, db, Tick(t)), t);
    Drain(cfg, Step(cfg, db, Tick(t)), t, tokens);
  }
}
