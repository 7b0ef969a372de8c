/** The HTTP side of the job protocol (app/routers/reports.py): creating a job and polling it. */
module ReportsApi {
  import opened Entities
  import opened Transcripts
  import opened Jobs
  import opened Lifecycle
  import opened Executions
  import opened Worker

  datatype Viewer = Viewer(id: int, isAdmin: bool)

  datatype JobView = JobView(
    status: Status, ownerId: int, reportType: string, targetId: int, result: Option<Transcript>)

  predicate MaySee(viewer: Viewer, job: Job) {
    viewer.isAdmin || viewer.id == job.ownerId
  }

  /** What a poll shows if the job and its report are read at one instant; none stands for a 404. */
  function ViewOf(db: Db, id: JobId, viewer: Viewer): Option<JobView> {
    if id !in db.jobs || !MaySee(viewer, db.jobs[id]) then None
    else
      var job := db.jobs[id];
      if id in db.reports
      then Some(JobView(Completed, job.ownerId, job.reportType, job.targetId, Some(db.reports[id])))
      else Some(JobView(job.status, job.ownerId, job.reportType, job.targetId, None))
  }

  /** If the second read finds a report the answer is the view then, otherwise the view at the first. */
  lemma ReadInstant(cfg: Settings, start: Db, first: Db, second: Db, id: JobId, viewer: Viewer)
    requires Reaches(cfg, start, first) && Reaches(cfg, first, second)
    requires id in first.jobs && MaySee(viewer, first.jobs[id])
    ensures var job, found := first.jobs[id], id in second.reports;
            && ViewOf(if found then second else first, id, viewer) == Some(JobView(
              if found then Completed else job.status, job.ownerId, job.reportType, job.targetId,
              if found then Some(second.reports[id]) else None))
            && (Inv(cfg, start) ==> found || !job.status.Completed?)
  {
    var es :| Run(cfg, first, es) == second;
    RequestFixed(cfg, first, es, id);
    ReachExtends(cfg, first, second);
    if Inv(cfg, start) {
      ReachKeepsInv(cfg, start, first);
      assert RowInv(cfg, first, id);
    }
  }

  /** Who sees what. */
  lemma ViewMeans(db: Db, id: JobId, viewer: Viewer)
    ensures var v := ViewOf(db, id, viewer);
            && (v.Some? <==> id in db.jobs && (viewer.isAdmin || viewer.id == db.jobs[id].ownerId))
            && (v.Some? ==>
                  var row, view := db.jobs[id], v.value;
                  && view.ownerId == row.ownerId && view.reportType == row.reportType && view.targetId == row.targetId
                  && (id in db.reports ==> view.status.Completed? && view.result == Some(db.reports[id]))
                  && (id !in db.reports ==> view.status == row.status && view.result.None?))
  {
  }

  /** A poll reads the job and then, later, the report, and writes nothing.  It is nevertheless atomic:
      the answer is the view at one of the two instants, `at`.  An administrator or the owner of the job sees
      its row there, as completed if there is a report, which is then shown; everybody else sees nothing. */
  method GetJobStatus(db: Database, id: JobId, viewer: Viewer) returns (r: Reply<Option<JobView>>, ghost at: Db)
    requires db.Recorded()
    modifies db
    ensures db.Recorded() && Silent(old(db.own), db.own)
    ensures old(db.statement) < db.statement <= old(db.statement) + 2
    ensures db.State() == Met(db.cfg, old(db.State()), db.world.others, old(db.statement), db.statement - 1)
    ensures at == Met(db.cfg, old(db.State()), db.world.others, old(db.statement), old(db.statement))
            || at == db.State()
    ensures r.Ok? ==> r.value == ViewOf(at, id, viewer)
    ensures r.Ok? ==> (r.value.Some? <==> id in at.jobs && (viewer.isAdmin || viewer.id == at.jobs[id].ownerId))
    ensures r.Ok? && r.value.Some? ==>
              var row, view := at.jobs[id], r.value.value;
              && view.ownerId == row.ownerId && view.reportType == row.reportType && view.targetId == row.targetId
              && (id in at.reports ==> view.status.Completed? && view.result == Some(at.reports[id]))
              && (id !in at.reports ==> view.status == row.status && view.result.None?)
    ensures r.Ok? && r.value.Some? && Inv(db.cfg, old(db.State())) ==>
              (r.value.value.status.Completed? <==> r.value.value.result.Some?)
    ensures r.Ok? && r.value.Some? && r.value.value.result.Some? ==>
              id in db.reports && r.value.value.result == Some(db.reports[id])
    ensures Quiet(db.world) ==> r == Ok(ViewOf(old(db.State()), id, viewer)) && db.State() == old(db.State())
  {
    var fault := db.Enter();
    at := db.State();
    if fault != NoFault {
      r := DbError;
    } else if id !in db.jobs || !MaySee(viewer, db.jobs[id]) {
      r := Ok(None);
    } else {
      var job := db.jobs[id];
      ghost var first := at;
      fault := db.Enter();
      if fault != NoFault {
        r := DbError;
      } else {
        var result := if id in db.reports then Some(db.reports[id]) else None;
        var status := if result.Some? then Completed else job.status;
        r := Ok(Some(JobView(status, job.ownerId, job.reportType, job.targetId, result)));
        at := if result.Some? then db.State() else first;
        ReadInstant(db.cfg, old(db.State()), first, db.State(), id, viewer);
      }
    }
    ViewMeans(at, id, viewer);
  }

  /** Once a poll has shown the result, every later poll by the same viewer shows it again. */
  lemma CompletionIsStable(cfg: Settings, a: Db, b: Db, id: JobId, viewer: Viewer)
    requires Reaches(cfg, a, b)
    requires ViewOf(a, id, viewer).Some? && ViewOf(a, id, viewer).value.result.Some?
    ensures ViewOf(b, id, viewer) == ViewOf(a, id, viewer)
  {
    var es :| Run(cfg, a, es) == b;
    RequestFixed(cfg, a, es, id);
    ReachExtends(cfg, a, b);
  }

  lemma EnqueueAdds(cfg: Settings, db: Db, e: Event)
    requires e.Enqueue? && Timely(db, e) && e.newId !in db.jobs
    ensures Step(cfg, db, e) == db.(jobs := db.jobs[e.newId := NewJob(e.ownerId, e.targetId, e.created)])
  {
    assert (map id | id in db.jobs :: RowAfter(cfg, db, e, id)) == db.jobs;
  }

  /** Queues a transcript job under a new id, for an existing student the requester may see; otherwise, or
      if the statement fails, it writes nothing. */
  method ExportTranscript(db: Database, newId: JobId, student: Option<Student>, studentId: int, requester: Viewer)
    returns (r: Reply<Option<JobId>>)
    requires db.Recorded()
    modifies db
    ensures db.Recorded()
    ensures var allowed := student.Some? && (requester.isAdmin || student.value.userId == Some(requester.id));
            var n := old(db.statement);
            var at := Met(db.cfg, old(db.State()), db.world.others, n, n);
            var e := Enqueue(newId, requester.id, studentId, at.clock);
            if !allowed then r == Ok(None) && db.State() == old(db.State()) && db.own == old(db.own)
            else if db.world.fault(n).BeforeCommit? || newId in at.jobs then
              && db.State() == at && db.own == old(db.own) + [None]
              && r == if db.world.fault(n).BeforeCommit? then DbError else IntegrityError
            else
              && db.State() == Step(db.cfg, at, e) && db.own == old(db.own) + [Some(e)]
              && r == if db.world.fault(n).AfterCommit? then DbError else Ok(Some(newId))
    ensures r.Ok? && r.value.Some? ==>
              && newId !in old(db.jobs) && newId in db.jobs
              && db.jobs[newId].status.Queued? && db.jobs[newId].attempts == 0 && db.jobs[newId].version == 0
              && db.jobs[newId].ownerId == requester.id && db.jobs[newId].targetId == studentId
              && db.jobs[newId].reportType == "transcript" && db.jobs[newId].createdAt == db.clock
              && db.jobs[newId].retryAt.None? && db.jobs[newId].lastError.None?
              && Claimable(db.jobs[newId], db.clock)
    ensures Quiet(db.world) && newId !in old(db.jobs) ==> r.Ok?
  {
    if student.None? || (!requester.isAdmin && student.value.userId != Some(requester.id)) {
      r := Ok(None);
    } else {
      var fault := db.Enter();
      if fault.BeforeCommit? {
        r := DbError;
      } else if newId in db.jobs {
        r := IntegrityError;
      } else {
        ghost var at, e := db.State(), Enqueue(newId, requester.id, studentId, db.clock);
        db.jobs := db.jobs[newId := NewJob(requester.id, studentId, db.clock)];
        EnqueueAdds(db.cfg, at, e);
        db.Record(e);
        r := if fault.AfterCommit? then DbError else Ok(Some(newId));
      }
    }
  }
}
