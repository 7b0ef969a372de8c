/** The startup repair (`reconcile_reported_jobs`) against the repair of one job, from any state. */
module BulkRepair {
  import opened Jobs
  import opened Lifecycle

  function Unstamped(row: Job): Job {
    row.(updatedAt := 0.0)
  }

  /** Equal except for updated_at. */
  ghost predicate Alike(a: Db, b: Db) {
    && a.jobs.Keys == b.jobs.Keys && a.reports == b.reports && a.clock == b.clock
    && forall id | id in a.jobs :: Unstamped(a.jobs[id]) == Unstamped(b.jobs[id])
  }

  /** One repair per job, each with its own reading of the clock. */
  function Repairs(order: seq<(JobId, Time)>): seq<Event> {
    if order == [] then [] else [Repair(order[0].0, order[0].1)] + Repairs(order[1..])
  }

  predicate Covers(order: seq<(JobId, Time)>, id: JobId) {
    exists i :: 0 <= i < |order| && order[i].0 == id
  }

  lemma {:induction false} RepairsKeepRest(cfg: Settings, db: Db, order: seq<(JobId, Time)>)
    ensures var after := Run(cfg, db, Repairs(order));
            after.jobs.Keys == db.jobs.Keys && after.reports == db.reports && after.clock == db.clock
    decreases |order|
  {
    if order != [] {
      assert Repairs(order)[1..] == Repairs(order[1..]);
      RepairsKeepRest(cfg, Step(cfg, db, Repair(order[0].0, order[0].1)), order[1..]);
    }
  }

  lemma CoversMore(order: seq<(JobId, Time)>, id: JobId)
    requires order != []
    ensures Covers(order, id) <==> order[0].0 == id || Covers(order[1..], id)
  {
    if Covers(order, id) {
      var i :| 0 <= i < |order| && order[i].0 == id;
      assert i > 0 ==> order[1..][i - 1].0 == id;
    }
  }

  lemma {:induction false} RepairsRow(cfg: Settings, db: Db, order: seq<(JobId, Time)>, id: JobId)
    requires id in db.jobs && forall i | 0 <= i < |order| :: order[i].1 <= db.clock
    ensures id in Run(cfg, db, Repairs(order)).jobs
    ensures Unstamped(Run(cfg, db, Repairs(order)).jobs[id]) ==
            if Covers(order, id) && id in db.reports then Unstamped(Repaired(db.jobs[id], 0.0))
            else Unstamped(db.jobs[id])
    decreases |order|
  {
    if order != [] {
      assert Repairs(order)[1..] == Repairs(order[1..]);
      CoversMore(order, id);
      RepairsRow(cfg, Step(cfg, db, Repair(order[0].0, order[0].1)), order[1..], id);
    }
  }

  /** The bulk statement does what repairing every reported job one by one does, in any order, with
      repetitions and at any clock readings. */
  lemma {:induction false} BulkIsPointwise(cfg: Settings, db: Db, order: seq<(JobId, Time)>, now: Time)
    requires now <= db.clock && forall i | 0 <= i < |order| :: order[i].1 <= db.clock
    requires forall id | id in db.reports && id in db.jobs :: Covers(order, id)
    ensures Alike(Run(cfg, db, Repairs(order)), Step(cfg, db, RepairAll(now)))
  {
    var one, bulk := Run(cfg, db, Repairs(order)), Step(cfg, db, RepairAll(now));
    RepairsKeepRest(cfg, db, order);
    forall id | id in one.jobs ensures Unstamped(one.jobs[id]) == Unstamped(bulk.jobs[id]) {
      RepairsRow(cfg, db, order, id);
    }
  }

  /** Every reported job ends completed, every other row is untouched, and a second repair is idle. */
  lemma BulkRepairs(cfg: Settings, db: Db, now: Time, again: Time)
    requires now <= db.clock && again <= db.clock
    ensures var after := Step(cfg, db, RepairAll(now));
            && after.jobs.Keys == db.jobs.Keys && after.reports == db.reports
            && (forall id | id in db.jobs && id in db.reports :: after.jobs[id].status.Completed?)
            && (forall id | id in db.jobs && (id !in db.reports || db.jobs[id].status.Completed?) ::
                  after.jobs[id] == db.jobs[id])
            && Step(cfg, after, RepairAll(again)) == after
  {
    StepLeavesRows(cfg, Step(cfg, db, RepairAll(now)), RepairAll(again));
  }

  /** Every report still finds its job completed in a run of the present code, so the startup repair
      changes no row; it serves rows written before. */
  lemma StartupRepairIdle(cfg: Settings, start: Time, es: seq<Event>, now: Time)
    ensures var db := Run(cfg, EmptyDb(start), es);
            && Step(cfg, db, RepairAll(now)) == db
            && forall id | id in db.reports :: id in db.jobs && db.jobs[id].status.Completed?
  {
    var db := Run(cfg, EmptyDb(start), es);
    RunKeepsInv(cfg, EmptyDb(start), es);
    NothingToRepair(cfg, db, RepairAll(now));
    assert forall id | id in db.jobs :: RowInv(cfg, db, id);
  }
}
