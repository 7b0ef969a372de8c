/** Retry delays over whole runs (app/workers/tasks.py, `_record_failure`). */
module Backoff {
  import opened Entities
  import opened Jobs
  import opened Lifecycle

  /** The delay a requeueing transaction gives the job: retry_at minus the time stamped on the row. */
  function DelayGiven(cfg: Settings, db: Db, e: Event, id: JobId): Option<real> {
    if id !in db.jobs then None
    else
      var row := Step(cfg, db, e).jobs[id];
      if db.jobs[id].status.Processing? && row.status.Queued? && row.retryAt.Some?
      then Some(row.retryAt.value - row.updatedAt)
      else None
  }

  function Delays(cfg: Settings, db: Db, es: seq<Event>, id: JobId): seq<real>
    decreases |es|
  {
    if es == [] then []
    else
      var rest := Delays(cfg, Step(cfg, db, es[0]), es[1..], id);
      match DelayGiven(cfg, db, es[0], id)
      case None => rest
      case Some(d) => [d] + rest
  }

  function Total(ds: seq<real>): real {
    if ds == [] then 0.0 else ds[0] + Total(ds[1..])
  }

  predicate Increasing(ds: seq<real>) {
    forall i, k | 0 <= i < k < |ds| :: ds[i] < ds[k]
  }

  /** The number of the next attempt that can fail. */
  function NextAttempt(db: Db, id: JobId): nat {
    if id !in db.jobs then 1
    else if db.jobs[id].status.Processing? then db.jobs[id].attempts
    else db.jobs[id].attempts + 1
  }

  /** The delay after attempt k lies in [b * 2^(k-1), 1.5 * b * 2^(k-1)], and only attempts below the
      limit are given one. */
  lemma DelayBounds(cfg: Settings, db: Db, e: Event, id: JobId)
    requires Inv(cfg, db) && DelayGiven(cfg, db, e, id).Some?
    ensures var k, d := db.jobs[id].attempts, DelayGiven(cfg, db, e, id).value;
            && 1 <= k < cfg.maxAttempts
            && BaseDelay(cfg, k) <= d <= 1.5 * BaseDelay(cfg, k)
            && NextAttempt(db, id) == k && NextAttempt(Step(cfg, db, e), id) == k + 1
  {
    assert RowInv(cfg, db, id);
  }

  /** The delays the code aims at, one for each attempt: the base first, then always twice the one before. */
  ghost predicate Doubling(cfg: Settings, ds: seq<real>) {
    && (ds != [] ==> ds[0] == cfg.retryBaseSeconds as real)
    && forall i | 0 <= i && i + 1 < |ds| :: ds[i + 1] == 2.0 * ds[i]
  }

  lemma {:induction false} DoublingIsDelay(cfg: Settings, ds: seq<real>, k: nat)
    requires Doubling(cfg, ds) && 1 <= k <= |ds|
    ensures BaseDelay(cfg, k) == ds[k - 1]
    decreases k
  {
    if k == 1 {
      assert PowTwo(0) == 1.0;
    } else {
      DoublingIsDelay(cfg, ds, k - 1);
      DelayDoubles(cfg, k - 1);
      assert ds[k - 2 + 1] == 2.0 * ds[k - 2];
    }
  }

  /** There is exactly one such sequence of any length. */
  lemma {:induction false} DoublingExists(cfg: Settings, n: nat) returns (ds: seq<real>)
    ensures |ds| == n && Doubling(cfg, ds)
    ensures forall k | 1 <= k <= n :: ds[k - 1] == BaseDelay(cfg, k)
  {
    ds := seq(n, i requires 0 <= i < n => BaseDelay(cfg, i + 1));
    if n > 0 {
      assert ds[0] == cfg.retryBaseSeconds as real * PowTwo(0);
    }
    forall i | 0 <= i && i + 1 < |ds| ensures ds[i + 1] == 2.0 * ds[i] {
      DelayDoubles(cfg, i + 1);
    }
  }

  /** A transaction that puts a job from processing back into the queue makes it claimable again after a delay
      between once and one and a half times that of its attempt, counted from the stamp on the row: between b
      and 1.5 b after the first attempt, and twice as long after each further one. */
  lemma RetryWindow(cfg: Settings, db: Db, e: Event, id: JobId, ds: seq<real>)
    requires Inv(cfg, db) && id in db.jobs && db.jobs[id].status.Processing?
    requires Step(cfg, db, e).jobs[id].status.Queued?
    requires Doubling(cfg, ds) && |ds| >= db.jobs[id].attempts
    ensures var k, row := db.jobs[id].attempts, Step(cfg, db, e).jobs[id];
            && 1 <= k < cfg.maxAttempts && row.attempts == k && e.Fail? && row.updatedAt == e.now
            && row.retryAt.Some? && ds[k - 1] <= row.retryAt.value - row.updatedAt <= 1.5 * ds[k - 1]
            && var b, d := cfg.retryBaseSeconds as real, row.retryAt.value - row.updatedAt;
               && (k == 1 ==> b <= d <= 1.5 * b)
               && (k == 2 ==> 2.0 * b <= d <= 3.0 * b)
               && (k == 3 ==> 4.0 * b <= d <= 6.0 * b)
  {
    assert RowInv(cfg, db, id);
    var k := db.jobs[id].attempts;
    DoublingIsDelay(cfg, ds, k);
    assert k > 1 ==> ds[0 + 1] == 2.0 * ds[0];
    assert k > 2 ==> ds[1 + 1] == 2.0 * ds[1];
  }

  /** The longest wait in plain terms: one lease, or one and a half times the delay of the last attempt that is
      retried if that is longer. */
  lemma LongestWaitIs(cfg: Settings, ds: seq<real>)
    requires Doubling(cfg, ds) && |ds| >= cfg.maxAttempts - 1 >= 1
    ensures var lease, backoff := cfg.leaseSeconds as real, 1.5 * ds[cfg.maxAttempts - 2];
            LongestWait(cfg) == if backoff < lease then lease else backoff
  {
    DoublingIsDelay(cfg, ds, cfg.maxAttempts - 1);
  }

  lemma AttemptsOnlyGrow(cfg: Settings, db: Db, e: Event, id: JobId)
    ensures NextAttempt(db, id) <= NextAttempt(Step(cfg, db, e), id)
  {
  }

  /** Over any run, whatever the jitter, a job's delays strictly increase and stay within the bounds. */
  lemma {:induction false} DelaysIncrease(cfg: Settings, db: Db, es: seq<Event>, id: JobId)
    requires Inv(cfg, db)
    ensures Increasing(Delays(cfg, db, es, id))
    ensures forall d | d in Delays(cfg, db, es, id) ::
              BaseDelay(cfg, NextAttempt(db, id)) <= d <= 0.75 * BaseDelay(cfg, cfg.maxAttempts)
    decreases |es|
  {
    if es != [] {
      var next := Step(cfg, db, es[0]);
      var a, b := NextAttempt(db, id), NextAttempt(next, id);
      StepKeepsInv(cfg, db, es[0]);
      DelaysIncrease(cfg, next, es[1..], id);
      AttemptsOnlyGrow(cfg, db, es[0], id);
      DelayMonotone(cfg, a, b);
      if DelayGiven(cfg, db, es[0], id).Some? {
        DelayBounds(cfg, db, es[0], id);
        DelayDoubles(cfg, a);
        DelayMonotone(cfg, a + 1, cfg.maxAttempts);
        var d, rest := DelayGiven(cfg, db, es[0], id).value, Delays(cfg, next, es[1..], id);
        assert forall i | 0 <= i < |rest| :: rest[i] in rest;
        assert Delays(cfg, db, es, id) == [d] + rest;
      }
    }
  }

  /** 1.5 * (b * 2^(max-1) - b * 2^(k-1)) for the next attempt k, and nothing from the last one on. */
  function DelayBudget(cfg: Settings, k: nat): real {
    if k < cfg.maxAttempts then 1.5 * (BaseDelay(cfg, cfg.maxAttempts) - BaseDelay(cfg, k)) else 0.0
  }

  lemma BudgetShrinks(cfg: Settings, a: nat, b: nat)
    requires a <= b
    ensures 0.0 <= DelayBudget(cfg, b) <= DelayBudget(cfg, a)
  {
    DelayMonotone(cfg, a, b);
    if a < cfg.maxAttempts {
      DelayMonotone(cfg, a, cfg.maxAttempts);
    }
    if b < cfg.maxAttempts {
      DelayMonotone(cfg, b, cfg.maxAttempts);
    }
  }

  lemma BudgetPaysDelay(cfg: Settings, k: nat)
    requires k < cfg.maxAttempts
    ensures DelayBudget(cfg, k + 1) + 1.5 * BaseDelay(cfg, k) <= DelayBudget(cfg, k)
  {
    DelayDoubles(cfg, k);
  }

  /** The delays a job can still be given sum to at most the budget of its next attempt. */
  lemma {:induction false} TotalDelayBounded(cfg: Settings, db: Db, es: seq<Event>, id: JobId)
    requires Inv(cfg, db)
    ensures Total(Delays(cfg, db, es, id)) <= DelayBudget(cfg, NextAttempt(db, id))
    decreases |es|
  {
    var a := NextAttempt(db, id);
    if es == [] {
      BudgetShrinks(cfg, a, a);
    } else {
      var next := Step(cfg, db, es[0]);
      StepKeepsInv(cfg, db, es[0]);
      TotalDelayBounded(cfg, next, es[1..], id);
      AttemptsOnlyGrow(cfg, db, es[0], id);
      BudgetShrinks(cfg, a, NextAttempt(next, id));
      if DelayGiven(cfg, db, es[0], id).Some? {
        DelayBounds(cfg, db, es[0], id);
        BudgetPaysDelay(cfg, a);
        assert Delays(cfg, db, es, id)[1..] == Delays(cfg, next, es[1..], id);
      }
    }
  }

  /** Over its whole life a job waits for retries at most 1.5 times the delays of all attempts but the last,
      which is 1.5 * b * (2^(max-1) - 1) in all: nothing, 1.5 b or 4.5 b for one, two or three attempts. */
  lemma BackoffBudget(cfg: Settings, start: Time, es: seq<Event>, id: JobId, ds: seq<real>)
    requires Doubling(cfg, ds) && |ds| == cfg.maxAttempts
    ensures var b, total := cfg.retryBaseSeconds as real, Total(Delays(cfg, EmptyDb(start), es, id));
            && total <= 1.5 * (ds[cfg.maxAttempts - 1] - b)
            && total <= 1.5 * (b * (PowTwo(cfg.maxAttempts - 1) - 1.0))
            && (cfg.maxAttempts == 1 ==> total <= 0.0)
            && (cfg.maxAttempts == 2 ==> total <= 1.5 * b)
            && (cfg.maxAttempts == 3 ==> total <= 4.5 * b)
  {
    var b, p := cfg.retryBaseSeconds as real, PowTwo(cfg.maxAttempts - 1);
    TotalDelayBounded(cfg, EmptyDb(start), es, id);
    DoublingIsDelay(cfg, ds, 1);
    DoublingIsDelay(cfg, ds, cfg.maxAttempts);
    assert b * (p - 1.0) == b * p - b;
    assert cfg.maxAttempts > 1 ==> ds[0 + 1] == 2.0 * ds[0];
    assert cfg.maxAttempts > 2 ==> ds[1 + 1] == 2.0 * ds[1];
  }
}
