/** Claims over whole runs: fencing by job version, attempt accounting, lease safety and backoff. */
module Fencing {
  import opened Entities
  import opened Jobs
  import opened Lifecycle

  /** The claim a transaction hands out. */
  function Granted(cfg: Settings, db: Db, e: Event): Option<Claim> {
    if e.ClaimNext? && Timely(db, e) then
      match NextCandidate(db, e.now, e.locked)
      case None => None
      case Some(id) => Some(Claim(id, e.token, db.jobs[id].version + 1))
    else None
  }

  /** Every claim handed out during a run, in order. */
  function Grants(cfg: Settings, db: Db, es: seq<Event>): seq<Claim>
    decreases |es|
  {
    if es == [] then []
    else
      var rest := Grants(cfg, Step(cfg, db, es[0]), es[1..]);
      match Granted(cfg, db, es[0])
      case None => rest
      case Some(c) => [c] + rest
  }

  function VersionOf(db: Db, id: JobId): int {
    if id in db.jobs then db.jobs[id].version else 0
  }

  /** A grant makes the claim live and is the only transaction that moves the version. */
  lemma GrantMovesVersion(cfg: Settings, db: Db, e: Event, id: JobId)
    ensures var next := Step(cfg, db, e);
            match Granted(cfg, db, e)
            case None => VersionOf(next, id) == VersionOf(db, id)
            case Some(c) =>
              && c.jobId in next.jobs && Live(next.jobs[c.jobId], c)
              && VersionOf(next, id) == VersionOf(db, id) + (if c.jobId == id then 1 else 0)
  {
  }

  lemma {:induction false} GrantsExceed(cfg: Settings, db: Db, es: seq<Event>)
    ensures forall g | g in Grants(cfg, db, es) :: g.version > VersionOf(db, g.jobId)
    decreases |es|
  {
    if es != [] {
      var next := Step(cfg, db, es[0]);
      GrantsExceed(cfg, next, es[1..]);
      forall g | g in Grants(cfg, db, es) ensures g.version > VersionOf(db, g.jobId) {
        GrantMovesVersion(cfg, db, es[0], g.jobId);
      }
    }
  }

  predicate VersionsIncrease(gs: seq<Claim>) {
    forall i, k | 0 <= i < k < |gs| && gs[i].jobId == gs[k].jobId :: gs[i].version < gs[k].version
  }

  lemma VersionsPrepend(c: Claim, rest: seq<Claim>)
    requires forall g | g in rest && g.jobId == c.jobId :: c.version < g.version
    requires VersionsIncrease(rest)
    ensures VersionsIncrease([c] + rest)
  {
    var gs := [c] + rest;
    forall i, k | 0 <= i < k < |gs| && gs[i].jobId == gs[k].jobId ensures gs[i].version < gs[k].version {
      assert gs[k] == rest[k - 1] && rest[k - 1] in rest;
      if i > 0 {
        assert gs[i] == rest[i - 1];
      }
    }
  }

  /** Claims on one job carry strictly increasing versions, so no (job, version) pair is issued twice;
      this needs no assumption on how tokens are drawn. */
  lemma {:induction false} VersionsIssuedOnce(cfg: Settings, db: Db, es: seq<Event>)
    ensures VersionsIncrease(Grants(cfg, db, es))
    decreases |es|
  {
    if es != [] {
      var next := Step(cfg, db, es[0]);
      var rest := Grants(cfg, next, es[1..]);
      VersionsIssuedOnce(cfg, next, es[1..]);
      GrantsExceed(cfg, next, es[1..]);
      if Granted(cfg, db, es[0]).Some? {
        var c := Granted(cfg, db, es[0]).value;
        GrantMovesVersion(cfg, db, es[0], c.jobId);
        VersionsPrepend(c, rest);
      }
    }
  }

  /** The claim was issued at some time and owns its job no longer. */
  predicate Fenced(db: Db, claim: Claim) {
    && claim.jobId in db.jobs
    && claim.version <= db.jobs[claim.jobId].version
    && !Live(db.jobs[claim.jobId], claim)
  }

  /** Ownership once lost is never regained. */
  lemma {:induction false} FencedForever(cfg: Settings, db: Db, es: seq<Event>, claim: Claim)
    requires Fenced(db, claim)
    ensures Fenced(Run(cfg, db, es), claim)
    decreases |es|
  {
    if es != [] {
      FencedForever(cfg, Step(cfg, db, es[0]), es[1..], claim);
    }
  }

  /** Once a job is granted anew, every older claim on it is out for the rest of the run. */
  lemma GrantFencesOlder(cfg: Settings, db: Db, e: Event, es: seq<Event>, older: Claim)
    requires Granted(cfg, db, e).Some? && Granted(cfg, db, e).value.jobId == older.jobId
    requires older.version < Granted(cfg, db, e).value.version
    ensures Fenced(Run(cfg, Step(cfg, db, e), es), older)
  {
    GrantMovesVersion(cfg, db, e, older.jobId);
    FencedForever(cfg, Step(cfg, db, e), es, older);
  }

  /** Whatever a fenced execution still renews or fails, at any later point of any run, changes nothing. */
  lemma FencedIsHarmless(cfg: Settings, db: Db, es: seq<Event>, claim: Claim, e: Event)
    requires Fenced(db, claim)
    requires (e.Renew? || e.Fail?) && e.claim == claim
    ensures var later := Run(cfg, db, es); Step(cfg, later, e) == later
  {
    FencedForever(cfg, db, es, claim);
    StepLeavesRows(cfg, Run(cfg, db, es), e);
  }

  /** While a claim stays live, the attempt number it works under does not change: what an execution
      read before other transactions ran is still right if its guarded update succeeds. */
  lemma {:induction false} LiveFixesAttempts(cfg: Settings, db: Db, es: seq<Event>, claim: Claim)
    requires claim.jobId in db.jobs && Live(db.jobs[claim.jobId], claim)
    ensures var after := Run(cfg, db, es);
            && claim.jobId in after.jobs
            && (Live(after.jobs[claim.jobId], claim) ==>
              && after.jobs[claim.jobId].attempts == db.jobs[claim.jobId].attempts
              && after.jobs[claim.jobId].reportType == db.jobs[claim.jobId].reportType
              && after.jobs[claim.jobId].targetId == db.jobs[claim.jobId].targetId)
    decreases |es|
  {
    if es != [] {
      var next := Step(cfg, db, es[0]);
      if Live(next.jobs[claim.jobId], claim) {
        LiveFixesAttempts(cfg, next, es[1..], claim);
      } else {
        FencedForever(cfg, next, es[1..], claim);
      }
    }
  }

  // ----- attempt accounting

  function Count(claims: seq<Claim>, id: JobId): nat {
    if claims == [] then 0 else (if claims[0].jobId == id then 1 else 0) + Count(claims[1..], id)
  }

  /** Claims that take a job over from a worker whose lease ran out after the last permitted attempt. */
  function LateTakeovers(cfg: Settings, db: Db, es: seq<Event>, id: JobId): nat
    decreases |es|
  {
    if es == [] then 0
    else
      var g := Granted(cfg, db, es[0]);
      var late := g.Some? && g.value.jobId == id && Abandoned(db.jobs[id], es[0].now)
                  && db.jobs[id].attempts >= cfg.maxAttempts;
      (if late then 1 else 0) + LateTakeovers(cfg, Step(cfg, db, es[0]), es[1..], id)
  }

  /** Claims on the job beyond the attempt limit. */
  function Excess(cfg: Settings, db: Db, id: JobId): nat {
    if VersionOf(db, id) > cfg.maxAttempts then VersionOf(db, id) - cfg.maxAttempts else 0
  }

  /** The job version counts the claims. */
  lemma {:induction false} VersionCountsClaims(cfg: Settings, db: Db, es: seq<Event>, id: JobId)
    ensures VersionOf(Run(cfg, db, es), id) == VersionOf(db, id) + Count(Grants(cfg, db, es), id)
    decreases |es|
  {
    if es != [] {
      var next := Step(cfg, db, es[0]);
      GrantMovesVersion(cfg, db, es[0], id);
      VersionCountsClaims(cfg, next, es[1..], id);
      if Granted(cfg, db, es[0]).Some? {
        assert Grants(cfg, db, es)[1..] == Grants(cfg, next, es[1..]);
      }
    }
  }

  /** From an empty database: attempts, version and claims agree, for every job of every run. */
  lemma AttemptsCountClaims(cfg: Settings, start: Time, es: seq<Event>, id: JobId)
    requires id in Run(cfg, EmptyDb(start), es).jobs
    ensures var row := Run(cfg, EmptyDb(start), es).jobs[id];
            row.attempts == row.version == Count(Grants(cfg, EmptyDb(start), es), id)
  {
    VersionCountsClaims(cfg, EmptyDb(start), es, id);
    RunKeepsInv(cfg, EmptyDb(start), es);
    assert RowInv(cfg, Run(cfg, EmptyDb(start), es), id);
  }

  /** Claims beyond max_attempts are exactly the late takeovers. */
  lemma {:induction false} ExcessIsLateTakeovers(cfg: Settings, db: Db, es: seq<Event>, id: JobId)
    requires Inv(cfg, db)
    ensures Excess(cfg, Run(cfg, db, es), id) == Excess(cfg, db, id) + LateTakeovers(cfg, db, es, id)
    decreases |es|
  {
    if es != [] {
      var next := Step(cfg, db, es[0]);
      StepKeepsInv(cfg, db, es[0]);
      GrantMovesVersion(cfg, db, es[0], id);
      ExcessIsLateTakeovers(cfg, next, es[1..], id);
      if Granted(cfg, db, es[0]).Some? {
        assert RowInv(cfg, db, Granted(cfg, db, es[0]).value.jobId);
      }
    }
  }

  /** The attempt limit bounds the claims on a job exactly when no lease runs out on its last permitted
      attempt and is taken over. */
  lemma AttemptLimitHoldsIff(cfg: Settings, start: Time, es: seq<Event>, id: JobId)
    ensures var claims, late := Count(Grants(cfg, EmptyDb(start), es), id), LateTakeovers(cfg, EmptyDb(start), es, id);
            && claims <= cfg.maxAttempts + late
            && (claims <= cfg.maxAttempts <==> late == 0)
  {
    ExcessIsLateTakeovers(cfg, EmptyDb(start), es, id);
    VersionCountsClaims(cfg, EmptyDb(start), es, id);
  }

  /** Which claims go beyond the limit, told from the row a claim takes: exactly those that take over a job
      whose lease has run out and whose attempts are used up.  A queued job never is such a one. */
  lemma ExceedsLimitIff(cfg: Settings, db: Db, e: Event)
    requires Inv(cfg, db) && Granted(cfg, db, e).Some?
    ensures var c := Granted(cfg, db, e).value;
            c.version > cfg.maxAttempts
            <==> Abandoned(db.jobs[c.jobId], e.now) && db.jobs[c.jobId].attempts >= cfg.maxAttempts
  {
    assert RowInv(cfg, db, Granted(cfg, db, e).value.jobId);
  }

  lemma RunFour(cfg: Settings, db: Db, e0: Event, e1: Event, e2: Event, e3: Event)
    ensures Run(cfg, db, [e0, e1, e2, e3]) == Step(cfg, Step(cfg, Step(cfg, Step(cfg, db, e0), e1), e2), e3)
  {
    var d1 := Step(cfg, db, e0);
    var d2 := Step(cfg, d1, e1);
    assert [e0, e1, e2, e3][1..] == [e1, e2, e3];
    assert [e1, e2, e3][1..] == [e2, e3];
    assert [e2, e3][1..] == [e3] && [e3][1..] == [];
    assert Run(cfg, d2, [e2, e3]) == Run(cfg, Step(cfg, d2, e2), [e3]) == Step(cfg, Step(cfg, d2, e2), e3);
  }

  /** The attempt limit alone does not bound the claims: with max_attempts = 1 a crashed worker's job
      is claimed a second time. */
  lemma TakeoverExceedsLimit(cfg: Settings)
    requires cfg == RawSettings(120, 1, 5)
    ensures exists es :: Count(Grants(cfg, EmptyDb(0.0), es), "j") > cfg.maxAttempts
  {
    var e0, e1, e2, e3 := Enqueue("j", 1, 1, 0.0), ClaimNext(0.0, "a", {}), Tick(121.0), ClaimNext(121.0, "b", {});
    var d0 := EmptyDb(0.0);
    var d1 := Step(cfg, d0, e0);
    assert d1.jobs.Keys == {"j"} && "j" in ClaimableJobs(d1, 0.0);
    var d3 := Step(cfg, Step(cfg, d1, e1), e2);
    assert d3.jobs.Keys == {"j"} && d3.jobs["j"] == Granting(cfg, d1.jobs["j"], "a", 0.0);
    assert "j" in ClaimableJobs(d3, 121.0);
    var d4 := Step(cfg, d3, e3);
    RunFour(cfg, d0, e0, e1, e2, e3);
    VersionCountsClaims(cfg, d0, [e0, e1, e2, e3], "j");
  }

  // ----- lease safety

  /** Along the whole run the clock stays within one lease of the claim's latest renewal reading
      (`last` at the start of the run). */
  ghost predicate RenewedInTime(cfg: Settings, db: Db, es: seq<Event>, claim: Claim, last: Time)
    decreases |es|
  {
    && db.clock <= last + cfg.leaseSeconds as Time
    && (es != [] ==>
      var renewal := if es[0].Renew? && es[0].claim == claim && Timely(db, es[0]) then es[0].now else last;
      RenewedInTime(cfg, Step(cfg, db, es[0]), es[1..], claim, renewal))
  }

  lemma {:induction false} CompletedForGood(cfg: Settings, db: Db, es: seq<Event>, id: JobId)
    requires id in db.jobs && db.jobs[id].status.Completed?
    ensures id in Run(cfg, db, es).jobs && Run(cfg, db, es).jobs[id] == db.jobs[id]
    decreases |es|
  {
    if es != [] {
      CompletedForGood(cfg, Step(cfg, db, es[0]), es[1..], id);
    }
  }

  lemma {:induction false} SettledUnclaimed(cfg: Settings, db: Db, es: seq<Event>, id: JobId)
    requires id in db.jobs && (db.jobs[id].status.Completed? || db.jobs[id].status.Failed?)
    ensures Count(Grants(cfg, db, es), id) == 0
    decreases |es|
  {
    if es != [] {
      var next := Step(cfg, db, es[0]);
      SettledUnclaimed(cfg, next, es[1..], id);
      if Granted(cfg, db, es[0]).Some? {
        assert Grants(cfg, db, es)[1..] == Grants(cfg, next, es[1..]);
      }
    }
  }

  /** A worker that renews in time and does not fail the job itself keeps it: no other claim on the job
      is granted, and the job is still its own unless somebody (perhaps a stale worker) completed it. */
  lemma {:induction false} LeaseSafety(cfg: Settings, db: Db, es: seq<Event>, claim: Claim, last: Time)
    requires claim.jobId in db.jobs && Live(db.jobs[claim.jobId], claim)
    requires db.jobs[claim.jobId].leaseUntil == Some(last + cfg.leaseSeconds as Time)
    requires RenewedInTime(cfg, db, es, claim, last)
    requires forall i | 0 <= i < |es| :: es[i].Fail? ==> es[i].claim != claim
    ensures Count(Grants(cfg, db, es), claim.jobId) == 0
    ensures var after := Run(cfg, db, es);
            && claim.jobId in after.jobs
            && (Live(after.jobs[claim.jobId], claim) || after.jobs[claim.jobId].status.Completed?)
    decreases |es|
  {
    if es != [] {
      var e, id := es[0], claim.jobId;
      var next := Step(cfg, db, e);
      assert forall i | 0 <= i < |es[1..]| :: es[1..][i] == es[i + 1];
      assert Granted(cfg, db, e) == None || Granted(cfg, db, e).value.jobId != id;
      if next.jobs[id].status.Completed? {
        CompletedForGood(cfg, next, es[1..], id);
        SettledUnclaimed(cfg, next, es[1..], id);
      } else {
        var renewal := if e.Renew? && e.claim == claim && Timely(db, e) then e.now else last;
        LeaseSafety(cfg, next, es[1..], claim, renewal);
      }
      if Granted(cfg, db, e).Some? {
        assert Grants(cfg, db, es)[1..] == Grants(cfg, next, es[1..]);
      }
    }
  }

  /** From the grant on: the lease a claim is given counts from the clock reading it was built with, and
      renewing it in time keeps every other claim away. */
  lemma GrantedLeaseSafe(cfg: Settings, db: Db, e: Event, es: seq<Event>, claim: Claim)
    requires Granted(cfg, db, e) == Some(claim)
    requires RenewedInTime(cfg, Step(cfg, db, e), es, claim, e.now)
    requires forall i | 0 <= i < |es| :: es[i].Fail? ==> es[i].claim != claim
    ensures var after := Run(cfg, Step(cfg, db, e), es);
            && Count(Grants(cfg, Step(cfg, db, e), es), claim.jobId) == 0
            && claim.jobId in after.jobs
            && (Live(after.jobs[claim.jobId], claim) || after.jobs[claim.jobId].status.Completed?)
  {
    GrantMovesVersion(cfg, db, e, claim.jobId);
    LeaseSafety(cfg, Step(cfg, db, e), es, claim, e.now);
  }

  /** The condition is tight: as soon as the clock passes the lease of a live claim, some claim can take
      the job over. */
  lemma LateRenewalExposes(cfg: Settings, db: Db, claim: Claim, token: string)
    requires claim.jobId in db.jobs && Live(db.jobs[claim.jobId], claim)
    requires db.jobs[claim.jobId].leaseUntil.Some? && db.jobs[claim.jobId].leaseUntil.value < db.clock
    ensures exists locked :: Granted(cfg, db, ClaimNext(db.clock, token, locked))
                             == Some(Claim(claim.jobId, token, claim.version + 1))
  {
    var locked := db.jobs.Keys - {claim.jobId};
    assert claim.jobId in ClaimableJobs(db, db.clock) - locked;
    assert NextCandidate(db, db.clock, locked) == Some(claim.jobId);
    assert Granted(cfg, db, ClaimNext(db.clock, token, locked)) == Some(Claim(claim.jobId, token, claim.version + 1));
  }

  // ----- leases and the attempt limit

  /** Like `RenewedInTime`, but only for as long as the claim owns its job. */
  ghost predicate RenewedWhileLive(cfg: Settings, db: Db, es: seq<Event>, claim: Claim, last: Time)
    decreases |es|
  {
    claim.jobId in db.jobs && Live(db.jobs[claim.jobId], claim) ==>
      && db.clock <= last + cfg.leaseSeconds as Time
      && (es != [] ==>
        var renewal := if es[0].Renew? && es[0].claim == claim && Timely(db, es[0]) then es[0].now else last;
        RenewedWhileLive(cfg, Step(cfg, db, es[0]), es[1..], claim, renewal))
  }

  lemma LastAttemptStep(cfg: Settings, db: Db, e: Event, claim: Claim, last: Time)
    requires Inv(cfg, db) && claim.version >= cfg.maxAttempts
    requires claim.jobId in db.jobs && Live(db.jobs[claim.jobId], claim)
    requires db.jobs[claim.jobId].leaseUntil == Some(last + cfg.leaseSeconds as Time)
    requires db.clock <= last + cfg.leaseSeconds as Time
    ensures Granted(cfg, db, e) == None || Granted(cfg, db, e).value.jobId != claim.jobId
    ensures var row := Step(cfg, db, e).jobs[claim.jobId];
            if Live(row, claim) then
              var renewal := if e.Renew? && e.claim == claim && Timely(db, e) then e.now else last;
              row.leaseUntil == Some(renewal + cfg.leaseSeconds as Time)
            else row.status.Completed? || row.status.Failed?
  {
    assert RowInv(cfg, db, claim.jobId);
  }

  /** A last permitted attempt whose lease is renewed for as long as it owns the job is followed by no
      other claim, whichever way it ends. */
  lemma {:induction false} LastAttemptKept(cfg: Settings, db: Db, es: seq<Event>, claim: Claim, last: Time)
    requires Inv(cfg, db) && claim.version >= cfg.maxAttempts
    requires claim.jobId in db.jobs && Live(db.jobs[claim.jobId], claim)
    requires db.jobs[claim.jobId].leaseUntil == Some(last + cfg.leaseSeconds as Time)
    requires RenewedWhileLive(cfg, db, es, claim, last)
    ensures Count(Grants(cfg, db, es), claim.jobId) == 0
    decreases |es|
  {
    if es != [] {
      var e, id := es[0], claim.jobId;
      var next := Step(cfg, db, e);
      StepKeepsInv(cfg, db, e);
      LastAttemptStep(cfg, db, e, claim, last);
      if Live(next.jobs[id], claim) {
        var renewal := if e.Renew? && e.claim == claim && Timely(db, e) then e.now else last;
        LastAttemptKept(cfg, next, es[1..], claim, renewal);
      } else {
        SettledUnclaimed(cfg, next, es[1..], id);
      }
      if Granted(cfg, db, e).Some? {
        assert Grants(cfg, db, es)[1..] == Grants(cfg, next, es[1..]);
      }
    }
  }

  /** Whoever is granted a last permitted attempt on the job renews it while owning the job. */
  ghost predicate LastAttemptsRenewed(cfg: Settings, db: Db, es: seq<Event>, id: JobId)
    decreases |es|
  {
    es != [] ==>
      var g, next := Granted(cfg, db, es[0]), Step(cfg, db, es[0]);
      && (g.Some? && g.value.jobId == id && g.value.version == cfg.maxAttempts ==>
            RenewedWhileLive(cfg, next, es[1..], g.value, es[0].now))
      && LastAttemptsRenewed(cfg, next, es[1..], id)
  }

  lemma {:induction false} RenewalKeepsLimit(cfg: Settings, db: Db, es: seq<Event>, id: JobId)
    requires Inv(cfg, db) && VersionOf(db, id) < cfg.maxAttempts && LastAttemptsRenewed(cfg, db, es, id)
    ensures VersionOf(Run(cfg, db, es), id) <= cfg.maxAttempts
    decreases |es|
  {
    if es != [] {
      var g, next := Granted(cfg, db, es[0]), Step(cfg, db, es[0]);
      StepKeepsInv(cfg, db, es[0]);
      GrantMovesVersion(cfg, db, es[0], id);
      if VersionOf(next, id) < cfg.maxAttempts {
        RenewalKeepsLimit(cfg, next, es[1..], id);
      } else {
        LastAttemptKept(cfg, next, es[1..], g.value, es[0].now);
        VersionCountsClaims(cfg, next, es[1..], id);
      }
    }
  }

  /** So the attempt limit holds in every run in which the last permitted attempts renew in time; other
      attempts may lose their lease. */
  lemma LimitHoldsIfRenewed(cfg: Settings, start: Time, es: seq<Event>, id: JobId)
    requires LastAttemptsRenewed(cfg, EmptyDb(start), es, id)
    ensures Count(Grants(cfg, EmptyDb(start), es), id) <= cfg.maxAttempts
  {
    RenewalKeepsLimit(cfg, EmptyDb(start), es, id);
    VersionCountsClaims(cfg, EmptyDb(start), es, id);
  }
}
