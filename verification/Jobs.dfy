/** The job and report tables and every transaction that changes them (app/workers/tasks.py).
    Each transaction is one UPDATE or INSERT, so its effect is given row by row: `RowAfter` says what
    the statement leaves in one job row. */
module Jobs {
  import opened Entities
  import opened Interleavings
  import opened Transcripts

  type Time = real
  type JobId = string

  datatype RawSettings = RawSettings(leaseSeconds: int, maxAttempts: int, retryBaseSeconds: int)

  type Settings = s: RawSettings | s.leaseSeconds >= 5 && s.maxAttempts >= 1 && s.retryBaseSeconds >= 1
    witness RawSettings(120, 3, 5)

  datatype Status = Queued | Processing | Completed | Failed

  datatype Job = Job(
    status: Status, version: nat, attempts: nat, token: Option<string>,
    leaseUntil: Option<Time>, retryAt: Option<Time>, lastError: Option<string>,
    createdAt: Time, updatedAt: Time,
    ownerId: int, reportType: string, targetId: int)

  datatype Claim = Claim(jobId: JobId, token: string, version: nat)

  /** `clock` is the shared clock; no row is ever deleted. */
  datatype Db = Db(jobs: map<JobId, Job>, reports: map<JobId, Transcript>, clock: Time)

  // ----- the rows a claim may take, and in which order

  predicate Ready(job: Job, now: Time) {
    job.status.Queued? && (job.retryAt.None? || job.retryAt.value <= now)
  }

  predicate Abandoned(job: Job, now: Time) {
    job.status.Processing? && (job.leaseUntil.None? || job.leaseUntil.value < now)
  }

  predicate Claimable(job: Job, now: Time) {
    Ready(job, now) || Abandoned(job, now)
  }

  predicate LexLess(a: string, b: string) {
    b != [] && (a == [] || a[0] < b[0] || (a[0] == b[0] && LexLess(a[1..], b[1..])))
  }

  /** ORDER BY queued first, retry_at with nulls first, created_at, job_id. */
  predicate Precedes(a: JobId, x: Job, b: JobId, y: Job) {
    if x.status.Queued? != y.status.Queued? then x.status.Queued?
    else if x.retryAt != y.retryAt then
      x.retryAt.None? || (y.retryAt.Some? && x.retryAt.value < y.retryAt.value)
    else if x.createdAt != y.createdAt then x.createdAt < y.createdAt
    else LexLess(a, b)
  }

  function ClaimableJobs(db: Db, now: Time): set<JobId> {
    set id | id in db.jobs && Claimable(db.jobs[id], now)
  }

  predicate IsFirst(jobs: map<JobId, Job>, ids: set<JobId>, first: JobId)
    requires ids <= jobs.Keys
  {
    first in ids && forall id | id in ids && id != first :: Precedes(first, jobs[first], id, jobs[id])
  }

  lemma {:induction false} LexLessOrders(a: string, b: string, c: string)
    ensures !(LexLess(a, b) && LexLess(b, a))
    ensures a == b || LexLess(a, b) || LexLess(b, a)
    ensures LexLess(a, b) && LexLess(b, c) ==> LexLess(a, c)
    decreases |a| + |b| + |c|
  {
    if a != [] && b != [] {
      LexLessOrders(a[1..], b[1..], if c == [] then c else c[1..]);
      if a[0] == b[0] && a[1..] == b[1..] {
        assert a == [a[0]] + a[1..] == b;
      }
    }
  }

  /** The claim order is a strict total order on rows with distinct ids. */
  lemma PrecedesOrders(a: JobId, x: Job, b: JobId, y: Job, c: JobId, z: Job)
    ensures !(Precedes(a, x, b, y) && Precedes(b, y, a, x))
    ensures a != b ==> Precedes(a, x, b, y) || Precedes(b, y, a, x)
    ensures Precedes(a, x, b, y) && Precedes(b, y, c, z) ==> Precedes(a, x, c, z)
  {
    LexLessOrders(a, b, c);
  }

  lemma {:induction false} FirstExists(jobs: map<JobId, Job>, ids: set<JobId>)
    requires ids <= jobs.Keys && ids != {}
    ensures exists id :: IsFirst(jobs, ids, id)
    decreases |ids|
  {
    var some :| some in ids;
    var rest := ids - {some};
    if rest == {} {
      assert ids == {some};
      assert IsFirst(jobs, ids, some);
    } else {
      FirstExists(jobs, rest);
      var f :| IsFirst(jobs, rest, f);
      PrecedesOrders(some, jobs[some], f, jobs[f], f, jobs[f]);
      var first := if Precedes(some, jobs[some], f, jobs[f]) then some else f;
      forall id | id in ids && id != first ensures Precedes(first, jobs[first], id, jobs[id]) {
        if id != some {
          PrecedesOrders(some, jobs[some], f, jobs[f], id, jobs[id]);
        }
      }
      assert IsFirst(jobs, ids, first);
    }
  }

  lemma FirstUnique(jobs: map<JobId, Job>, ids: set<JobId>)
    requires ids <= jobs.Keys
    ensures forall a, b | IsFirst(jobs, ids, a) && IsFirst(jobs, ids, b) :: a == b
  {
    forall a, b | IsFirst(jobs, ids, a) && IsFirst(jobs, ids, b) ensures a == b {
      if a != b {
        PrecedesOrders(a, jobs[a], b, jobs[b], b, jobs[b]);
      }
    }
  }

  /** The row the claim query selects while other transactions hold locks on `locked`. */
  function NextCandidate(db: Db, now: Time, locked: set<JobId>): (r: Option<JobId>)
    ensures r.None? <==> ClaimableJobs(db, now) <= locked
    ensures r.Some? ==> IsFirst(db.jobs, ClaimableJobs(db, now) - locked, r.value)
  {
    var ids := ClaimableJobs(db, now) - locked;
    if ids == {} then
      assert forall id | id in ClaimableJobs(db, now) && id !in locked :: id in ids;
      None
    else
      FirstExists(db.jobs, ids);
      FirstUnique(db.jobs, ids);
      var id :| IsFirst(db.jobs, ids, id);
      Some(id)
  }

  // ----- what the statements write into a row

  function NewJob(ownerId: int, targetId: int, created: Time): Job {
    Job(Queued, 0, 0, None, None, None, None, created, created, ownerId, "transcript", targetId)
  }

  function Completing(job: Job, now: Time): Job {
    job.(status := Completed, token := None, leaseUntil := None, retryAt := None, lastError := None, updatedAt := now)
  }

  function Repaired(job: Job, now: Time): Job {
    if job.status.Completed? then job else Completing(job, now)
  }

  function Granting(cfg: Settings, job: Job, token: string, now: Time): Job {
    job.(status := Processing, token := Some(token), version := job.version + 1, attempts := job.attempts + 1,
    leaseUntil := Some(now + cfg.leaseSeconds as Time), retryAt := None, lastError := None, updatedAt := now)
  }

  function Renewing(cfg: Settings, job: Job, now: Time, stamp: Time): Job {
    job.(leaseUntil := Some(now + cfg.leaseSeconds as Time), updatedAt := stamp)
  }

  predicate OwnsJob(job: Job, claim: Claim) {
    job.token == Some(claim.token) && job.version == claim.version
  }

  /** The WHERE clause of the guarded updates. */
  predicate Live(job: Job, claim: Claim) {
    job.status.Processing? && OwnsJob(job, claim)
  }

  function PowTwo(n: int): real
    decreases if n < 0 then -n else n
  {
    if n == 0 then 1.0 else if n > 0 then 2.0 * PowTwo(n - 1) else PowTwo(n + 1) / 2.0
  }

  /** The backoff after attempt number `attempt`, before jitter. */
  function BaseDelay(cfg: Settings, attempt: int): real {
    cfg.retryBaseSeconds as real * PowTwo(attempt - 1)
  }

  predicate GivesUp(cfg: Settings, attempts: nat, permanent: bool) {
    permanent || attempts >= cfg.maxAttempts
  }

  function Failing(cfg: Settings, job: Job, permanent: bool, now: Time, jitter: real, message: string): Job {
    var failed := GivesUp(cfg, job.attempts, permanent);
    job.(status := if failed then Failed else Queued, token := None, leaseUntil := None,
    retryAt := if failed then None else Some(now + BaseDelay(cfg, job.attempts) + jitter),
    lastError := Some(message), updatedAt := now)
  }

  // ----- committed transactions

  /** `now` is the reading of the clock a statement was built with; it may be older than the commit. */
  datatype Event =
    | Enqueue(newId: JobId, ownerId: int, targetId: int, created: Time)
    | ClaimNext(now: Time, token: string, locked: set<JobId>)
    | Renew(claim: Claim, now: Time, stamp: Time)
    | Repair(id: JobId, now: Time)
    | RepairAll(now: Time)
    | Persist(id: JobId, result: Transcript, now: Time)
    | Fail(claim: Claim, permanent: bool, now: Time, jitter: real, message: string)
    | Tick(to: Time)

  /** A statement cannot carry a reading from the future. */
  predicate Timely(db: Db, e: Event) {
    match e
    case Enqueue(_, _, _, created) => created <= db.clock
    case Renew(_, now, stamp) => now <= stamp <= db.clock
    case Tick(to) => db.clock <= to
    case _ => e.now <= db.clock
  }

  predicate JitterInRange(cfg: Settings, attempts: nat, jitter: real) {
    0.0 <= jitter <= BaseDelay(cfg, attempts) / 2.0
  }

  /** What the committed statement leaves in row `id`. */
  function RowAfter(cfg: Settings, db: Db, e: Event, id: JobId): Job
    requires id in db.jobs
  {
    var row := db.jobs[id];
    if !Timely(db, e) then row
    else match e
      case Enqueue(_, _, _, _) => row
      case ClaimNext(now, token, locked) =>
        if NextCandidate(db, now, locked) == Some(id) then Granting(cfg, row, token, now) else row
      case Renew(claim, now, stamp) =>
        if id == claim.jobId && Live(row, claim) then Renewing(cfg, row, now, stamp) else row
      case Repair(target, now) =>
        if id == target && id in db.reports then Repaired(row, now) else row
      case RepairAll(now) =>
        if id in db.reports then Repaired(row, now) else row
      case Persist(target, _, now) =>
        if id == target && id !in db.reports then Repaired(row, now) else row
      case Fail(claim, permanent, now, jitter, message) =>
        if id == claim.jobId && Live(row, claim) && JitterInRange(cfg, row.attempts, jitter)
        then Failing(cfg, row, permanent, now, jitter, message) else row
      case Tick(_) => row
  }

  /** The primary key and UNIQUE(report.job_id) make the two inserts conditional. */
  function Step(cfg: Settings, db: Db, e: Event): Db {
    var rows := map id | id in db.jobs :: RowAfter(cfg, db, e, id);
    Db(if e.Enqueue? && Timely(db, e) && e.newId !in db.jobs
       then rows[e.newId := NewJob(e.ownerId, e.targetId, e.created)] else rows,
       if e.Persist? && Timely(db, e) && e.id in db.jobs && e.id !in db.reports
       then db.reports[e.id := e.result] else db.reports,
       if e.Tick? && Timely(db, e) then e.to else db.clock)
  }

  /** Any interleaving of any number of executions is one sequence of committed transactions. */
  function Run(cfg: Settings, db: Db, es: seq<Event>): Db
    decreases |es|
  {
    if es == [] then db else Run(cfg, Step(cfg, db, es[0]), es[1..])
  }

  function EmptyDb(clock: Time): Db {
    Db(map[], map[], clock)
  }

  ghost predicate Reaches(cfg: Settings, before: Db, after: Db) {
    exists es :: Run(cfg, before, es) == after
  }

  lemma {:induction false} RunAppend(cfg: Settings, db: Db, es: seq<Event>, fs: seq<Event>)
    ensures Run(cfg, db, es + fs) == Run(cfg, Run(cfg, db, es), fs)
    decreases |es|
  {
    if es == [] {
      assert es + fs == fs;
    } else {
      assert (es + fs)[1..] == es[1..] + fs;
      RunAppend(cfg, Step(cfg, db, es[0]), es[1..], fs);
    }
  }

  lemma ReachesSelf(cfg: Settings, db: Db)
    ensures Reaches(cfg, db, db)
  {
    assert Run(cfg, db, []) == db;
  }

  lemma ReachesRun(cfg: Settings, a: Db, b: Db, es: seq<Event>)
    requires Reaches(cfg, a, b)
    ensures Reaches(cfg, a, Run(cfg, b, es))
  {
    var first :| Run(cfg, a, first) == b;
    RunAppend(cfg, a, first, es);
  }

  lemma ReachesStep(cfg: Settings, a: Db, b: Db, e: Event)
    requires Reaches(cfg, a, b)
    ensures Reaches(cfg, a, Step(cfg, b, e))
  {
    assert Run(cfg, Step(cfg, b, e), []) == Step(cfg, b, e);
    assert Run(cfg, b, [e]) == Step(cfg, b, e);
    ReachesRun(cfg, a, b, [e]);
  }

  lemma ReachesVia(cfg: Settings, a: Db, b: Db, c: Db)
    requires Reaches(cfg, a, b) && Reaches(cfg, b, c)
    ensures Reaches(cfg, a, c)
  {
    var second :| Run(cfg, b, second) == c;
    ReachesRun(cfg, a, b, second);
  }

  lemma ReachesThrough(cfg: Settings)
    ensures forall a, b, c | Reaches(cfg, a, b) && Reaches(cfg, b, c) :: Reaches(cfg, a, c)
  {
    forall a, b, c | Reaches(cfg, a, b) && Reaches(cfg, b, c) ensures Reaches(cfg, a, c) {
      ReachesVia(cfg, a, b, c);
    }
  }

  // ----- an execution's own transactions among those of others

  /** The state after the statements whose own transactions are `own`. */
  function Played(cfg: Settings, start: Db, others: nat -> seq<Event>, own: seq<Option<Event>>): Db {
    Run(cfg, start, Woven(others, 0, own))
  }

  /** One more statement: first the others, then its own transaction if it commits one. */
  lemma PlayedLast(cfg: Settings, start: Db, others: nat -> seq<Event>, own: seq<Option<Event>>, x: Option<Event>)
    ensures var met := Run(cfg, Played(cfg, start, others, own), others(|own|));
            Played(cfg, start, others, own + [x]) == if x.Some? then Step(cfg, met, x.value) else met
  {
    var before, met := Played(cfg, start, others, own), Run(cfg, Played(cfg, start, others, own), others(|own|));
    WovenLast(others, 0, own, x);
    RunAppend(cfg, start, Woven(others, 0, own), others(|own|) + AsSeq(x));
    RunAppend(cfg, before, others(|own|), AsSeq(x));
    if x.Some? {
      assert [x.value][1..] == [];
      assert Run(cfg, met, [x.value]) == Run(cfg, Step(cfg, met, x.value), []);
    }
  }

  /** What a statement committed is decided after the others have run. */
  lemma PlayedCommit(cfg: Settings, start: Db, others: nat -> seq<Event>, own: seq<Option<Event>>, e: Event)
    requires own != [] && own[|own| - 1].None?
    ensures Played(cfg, start, others, own[..|own| - 1] + [Some(e)]) == Step(cfg, Played(cfg, start, others, own), e)
  {
    var earlier := own[..|own| - 1];
    assert own == earlier + [None];
    PlayedLast(cfg, start, others, earlier, None);
    PlayedLast(cfg, start, others, earlier, Some(e));
  }

  /** The statements since some point act on the state at that point alone: the outcome is a run of an
      interleaving of the others' transactions with the execution's own. */
  lemma PlayedSince(
    cfg: Settings, start: Db, others: nat -> seq<Event>, before: seq<Option<Event>>, after: seq<Option<Event>>)
    requires before <= after
    ensures Played(cfg, start, others, after)
            == Run(cfg, Played(cfg, start, others, before), Woven(others, |before|, after[|before|..]))
  {
    var own := after[|before|..];
    assert after == before + own;
    WovenAppend(others, 0, before, own);
    RunAppend(cfg, start, Woven(others, 0, before), Woven(others, |before|, own));
  }

  /** The state that statement `m` of an execution meets, if the execution has committed nothing since
      `db`, before its statement `n`. */
  function Met(cfg: Settings, db: Db, others: nat -> seq<Event>, n: nat, m: nat): Db
    requires n <= m
    decreases m
  {
    Run(cfg, if n == m then db else Met(cfg, db, others, n, m - 1), others(m))
  }

  lemma {:induction false} MetReaches(cfg: Settings, db: Db, others: nat -> seq<Event>, n: nat, m: nat)
    requires n <= m
    ensures Reaches(cfg, db, Met(cfg, db, others, n, m))
    decreases m
  {
    if n == m {
      ReachesSelf(cfg, db);
      ReachesRun(cfg, db, db, others(m));
    } else {
      MetReaches(cfg, db, others, n, m - 1);
      ReachesRun(cfg, db, Met(cfg, db, others, n, m - 1), others(m));
    }
  }

  /** Two statements further on. */
  lemma MetTwice(cfg: Settings, db: Db, others: nat -> seq<Event>, n: nat)
    ensures Met(cfg, db, others, n, n) == Run(cfg, db, others(n))
    ensures Met(cfg, db, others, n, n + 2)
            == Run(cfg, Run(cfg, Met(cfg, db, others, n, n), others(n + 1)), others(n + 2))
  {
    assert Met(cfg, db, others, n, n + 1) == Run(cfg, Met(cfg, db, others, n, n), others(n + 1));
  }

  // ----- rows and reports are never lost

  /** No row is deleted, no report is changed and the clock does not go back. */
  ghost predicate Extends(a: Db, b: Db) {
    && a.jobs.Keys <= b.jobs.Keys
    && a.reports.Keys <= b.reports.Keys
    && (forall id | id in a.reports :: b.reports[id] == a.reports[id])
    && a.clock <= b.clock
  }

  lemma {:induction false} RunExtends(cfg: Settings, db: Db, es: seq<Event>)
    ensures Extends(db, Run(cfg, db, es))
    decreases |es|
  {
    if es != [] {
      RunExtends(cfg, Step(cfg, db, es[0]), es[1..]);
    }
  }

  lemma ReachExtends(cfg: Settings, a: Db, b: Db)
    requires Reaches(cfg, a, b)
    ensures Extends(a, b)
  {
    var es :| Run(cfg, a, es) == b;
    RunExtends(cfg, a, es);
  }

  /** An execution only ever moves forward from any earlier point of its record. */
  lemma PlayedReaches(
    cfg: Settings, start: Db, others: nat -> seq<Event>, before: seq<Option<Event>>, after: seq<Option<Event>>)
    requires before <= after
    ensures Reaches(cfg, Played(cfg, start, others, before), Played(cfg, start, others, after))
    ensures Extends(Played(cfg, start, others, before), Played(cfg, start, others, after))
  {
    PlayedSince(cfg, start, others, before, after);
    ReachExtends(cfg, Played(cfg, start, others, before), Played(cfg, start, others, after));
  }

  // ----- statements that touch one row, or none

  lemma StepLeavesRows(cfg: Settings, db: Db, e: Event)
    requires !e.Enqueue? && !e.Persist? && !e.Tick?
    requires forall id | id in db.jobs :: RowAfter(cfg, db, e, id) == db.jobs[id]
    ensures Step(cfg, db, e) == db
  {
    assert (map id | id in db.jobs :: RowAfter(cfg, db, e, id)) == db.jobs;
  }

  lemma StepWritesRow(cfg: Settings, db: Db, e: Event, id: JobId)
    requires !e.Enqueue? && id in db.jobs
    requires forall other | other in db.jobs && other != id :: RowAfter(cfg, db, e, other) == db.jobs[other]
    ensures Step(cfg, db, e).jobs == db.jobs[id := RowAfter(cfg, db, e, id)]
  {
  }
}
