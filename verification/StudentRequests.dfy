/** The student endpoints, statement by statement (app/crud/student.py).  Other requests may commit
    anything before each statement, and any Redis call may fail. */
module StudentRequests {
  import opened Entities
  import opened Students

  datatype World = World(others: nat -> seq<Event>, redisUp: nat -> bool)

  /** Requests do not overlap and Redis is up. */
  ghost predicate Quiet(world: World) {
    forall n :: world.others(n) == [] && world.redisUp(n)
  }

  datatype Role = Admin | User | Guest

  datatype Account = Account(id: int, role: Role)

  datatype ReadReply = Found(row: Student) | Forbidden | Missing

  /** In all outcomes, `...Vanished` is a success whose row is gone when it is read again. */
  datatype CreateOutcome = Created | CreateVanished | CreateConflict

  datatype LinkOutcome =
    | Linked | NoStudent | NoUser | StudentTaken | UserTaken | LinkStale | LinkConflict | LinkVanished

  datatype DeleteOutcome = Deleted | DeleteMissing | DeleteStale | DeleteConflict

  datatype CommitResult = Committed | StaleData | IntegrityError

  // ----- what follows a commit

  /** Statement `n` deletes the cache entry; a Redis failure is swallowed. */
  function Invalidated(world: World, s: Store, n: nat, id: int): Store {
    var met := Run(s, world.others(n));
    if world.redisUp(n) then Step(met, DropCache(id)) else met
  }

  /** From statement `n` on the written row is read again and then its cache entry is deleted; if the row
      is gone the request ends before the invalidation. */
  function Published(world: World, s: Store, n: nat, id: int): Store {
    var met := Run(s, world.others(n));
    if id in met.rows then Invalidated(world, met, n + 1, id) else met
  }

  /** Both are there when they are read again after a link. */
  predicate LinkFound(world: World, s: Store, n: nat, id: int, userId: int) {
    var first := Run(s, world.others(n));
    id in first.rows && userId in Run(first, world.others(n + 1)).users
  }

  /** The same for a link, which also reads the user again. */
  function LinkPublished(world: World, s: Store, n: nat, id: int, userId: int): Store {
    var first := Run(s, world.others(n));
    var second := Run(first, world.others(n + 1));
    if id !in first.rows then first
    else if LinkFound(world, s, n, id, userId) then Invalidated(world, second, n + 2, id)
    else second
  }

  /** If Redis answers, a published row is not cached afterwards. */
  lemma PublishedUncached(world: World, s: Store, n: nat, id: int, userId: int)
    ensures world.redisUp(n) ==> id !in Invalidated(world, s, n, id).cache
    ensures id in Run(s, world.others(n)).rows && world.redisUp(n + 1) ==> id !in Published(world, s, n, id).cache
    ensures LinkFound(world, s, n, id, userId) && world.redisUp(n + 2) ==>
              id !in LinkPublished(world, s, n, id, userId).cache
  {
  }

  /** Statement `n` writes the row into the cache. */
  function Filled(world: World, s: Store, n: nat, id: int, row: Student): Store {
    var met := Run(s, world.others(n));
    if world.redisUp(n) then Step(met, FillCache(id, row)) else met
  }

  lemma FillAccepted(read: Store, now: Store, id: int)
    requires Reaches(read, now) && Inv(read) && id in read.rows
    ensures Accepts(now, FillCache(id, read.rows[id]))
  {
    ReachKeepsInv(read, now);
    assert RowInv(read, id);
    assert read.rows[id] == now.past[id][|read.past[id]| - 1];
  }

  lemma QuietSteps(world: World, s: Store, n: nat, id: int)
    requires Quiet(world)
    ensures Invalidated(world, s, n, id) == Step(s, DropCache(id))
    ensures Published(world, s, n, id) == if id in s.rows then Step(s, DropCache(id)) else s
    ensures Run(s, world.others(n)) == s
  {
  }

  /** A change of one row followed by the invalidation of its cache entry keeps the cache coherent. */
  lemma DropKeepsCoherent(s: Store, t: Store, id: int)
    requires Coherent(s) && t.cache == s.cache
    requires forall other | other in s.rows && other != id :: other in t.rows && t.rows[other] == s.rows[other]
    ensures Coherent(Step(t, DropCache(id)))
  {
  }

  /** What the INSERT of a new student does. */
  lemma InsertStarts(at: Store, row: Student)
    requires Inv(at) && row.version == 1 && row.userId.None?
    ensures var id := at.nextId;
            var after := Step(at, Insert(id, row));
            && id !in at.past && id !in at.cache && Inv(after) && (Coherent(at) ==> Coherent(after))
            && after == (if Consistent(at.rows[id := row], at.departments, at.users)
                         then at.(rows := at.rows[id := row], past := at.past[id := [row]], nextId := id + 1) else at)
            && (Consistent(at.rows[id := row], at.departments, at.users) <==>
                  && row.departmentId in at.departments
                  && forall other | other in at.rows :: at.rows[other].email != row.email)
  {
    StepKeepsInv(at, Insert(at.nextId, row));
    InsertAcceptedIff(at, row);
    assert [] + [row] == [row];
    assert at.nextId in at.past ==> RowInv(at, at.nextId);
  }

  /** What the DELETE of a student does, and the invalidation after it. */
  lemma DeleteEnds(world: World, at: Store, id: int, version: nat, n: nat)
    requires Inv(at) && Accepts(at, Remove(id, version))
    ensures var done := Step(at, Remove(id, version));
            && done == at.(rows := at.rows - {id}) && Inv(done)
            && id !in Invalidated(world, done, n, id).rows
            && (Quiet(world) && Coherent(at) ==> Coherent(Invalidated(world, done, n, id)))
  {
    var done := Step(at, Remove(id, version));
    assert RowInv(at, id);
    StepKeepsInv(at, Remove(id, version));
    RunKeepsInv(done, world.others(n));
    if Quiet(world) && Coherent(at) {
      QuietSteps(world, done, n, id);
      DropKeepsCoherent(at, done, id);
    }
  }

  // ----- what the requests do

  /** The effect is that of the indivisible update in `read` or in `at`, done with in `done`; after that
      the row is published if it was written or found as wanted. */
  ghost predicate UpdateDone(
    world: World, read: Store, at: Store, done: Store, after: Store, k: nat, id: int, req: Request, r: Outcome)
  {
    && (match r
        case NotFound => AtomicUpdate(read, id, req) == (done, NotFound) && at == read
        case VersionMismatch => AtomicUpdate(read, id, req) == (done, VersionMismatch) && at == read
        case Conflict => AtomicUpdate(at, id, req) == (done, Conflict)
        case Stale =>
          done == at && id in read.rows && (id in at.rows ==> at.rows[id].version > read.rows[id].version)
        case _ =>
          && AtomicUpdate(at, id, req) == (done, Updated)
          && id in read.rows && id in at.rows && at.rows[id] == read.rows[id])
    && if r.Updated? || r.Vanished? then
         && after == Published(world, done, k + 1, id)
         && (r.Updated? <==> id in Run(done, world.others(k + 1)).rows)
       else after == done
  }

  lemma RefusedUpdate(world: World, read: Store, k: nat, id: int, req: Request)
    requires id in read.rows ==> req.version.Some? && req.version.value != read.rows[id].version
    ensures UpdateDone(world, read, read, read, read, k, id, req,
                       if id in read.rows then VersionMismatch else NotFound)
  {
  }

  /** The constraints behind the outcome. */
  lemma UpdateMeans(at: Store, id: int, req: Request)
    requires Inv(at)
    ensures var (done, r) := AtomicUpdate(at, id, req);
            && (r.Conflict? ==>
                  || (req.departmentId.Some? && req.departmentId.value !in at.departments)
                  || (req.email.Some? && exists other :: other in at.rows && other != id
                                                         && at.rows[other].email == req.email.value))
            && (r.Updated? ==>
                  && id in done.rows && (req.departmentId.Some? ==> req.departmentId.value in at.departments)
                  && (req.email.Some? ==>
                        && done.rows[id].email == req.email.value
                        && forall other | other in done.rows && other != id ::
                             done.rows[other].email != req.email.value))
  {
    AtomicUpdateOutcome(at, id, req);
    if AtomicUpdate(at, id, req).1.Updated? {
      AtomicUpdateMeaning(at, id, req);
    }
  }

  lemma QuietUpdate(world: World, s: Store, done: Store, after: Store, k: nat, id: int, req: Request, r: Outcome)
    requires Quiet(world) && UpdateDone(world, s, s, done, after, k, id, req, r)
    ensures r == AtomicUpdate(s, id, req).1
    ensures after == if r.Updated? then Step(AtomicUpdate(s, id, req).0, DropCache(id)) else s
    ensures Coherent(s) ==> Coherent(after)
  {
    QuietSteps(world, done, k + 1, id);
    if Coherent(s) && r.Updated? {
      DropKeepsCoherent(s, done, id);
    }
  }

  /** The rows with student `id` linked to the user. */
  function LinkedRows(at: Store, id: int, userId: int): map<int, Student>
    requires id in at.rows
  {
    at.rows[id := at.rows[id].(userId := Some(userId), version := at.rows[id].version + 1)]
  }

  predicate HasStudent(s: Store, userId: int) {
    exists other :: other in s.rows && s.rows[other].userId == Some(userId)
  }

  /** The link request with nothing in between. */
  function AtomicLink(s: Store, id: int, userId: int): LinkOutcome {
    if id !in s.rows then NoStudent
    else if userId !in s.users then NoUser
    else if s.rows[id].userId.Some? then StudentTaken
    else if HasStudent(s, userId) then UserTaken
    else Linked
  }

  /** Every refusal names something that was so when the request stopped, in state `at`. */
  predicate LinkReason(r: LinkOutcome, read: Store, at: Store, id: int, userId: int) {
    match r
    case NoStudent => id !in read.rows
    case NoUser => userId !in at.users
    case StudentTaken => id in read.rows && read.rows[id].userId.Some?
    case UserTaken => HasStudent(at, userId)
    case LinkStale => id in read.rows && (id in at.rows ==> at.rows[id].version > read.rows[id].version)
    case LinkConflict => id in at.rows && !Consistent(LinkedRows(at, id, userId), at.departments, at.users)
    case _ => true
  }

  /** The one change a link makes, to an existing user no other student has. */
  ghost predicate LinksRow(at: Store, done: Store, id: int, userId: int)
    requires id in at.rows
  {
    && done == Commit(at, id, LinkedRows(at, id, userId)[id])
    && userId in at.users
    && (forall other | other in at.rows && other != id :: at.rows[other].userId != Some(userId))
  }

  /** A link to an existing user no student has breaks no constraint. */
  lemma LinkKeepsConstraints(s: Store, id: int, userId: int)
    requires Inv(s) && id in s.rows && userId in s.users && !HasStudent(s, userId)
    ensures Consistent(LinkedRows(s, id, userId), s.departments, s.users)
  {
  }

  /** What the guarded UPDATE of a link does. */
  lemma LinkIsWrite(at: Store, id: int, userId: int, version: nat)
    requires Inv(at)
    ensures var e := Write(id, version, NO_CHANGE.(userId := Some(Some(userId))));
            && (Accepts(at, e) ==> id in at.rows && LinksRow(at, Step(at, e), id, userId)
                                   && (Coherent(at) ==> Coherent(Step(Step(at, e), DropCache(id)))))
            && (!Accepts(at, e) ==> Step(at, e) == at)
            && (id in at.rows && at.rows[id].version == version && !Accepts(at, e) ==>
                  !Consistent(LinkedRows(at, id, userId), at.departments, at.users))
  {
    var e := Write(id, version, NO_CHANGE.(userId := Some(Some(userId))));
    if id in at.rows && at.rows[id].version == version {
      var row := LinkedRows(at, id, userId)[id];
      assert Patched(at.rows[id], e.patch) == row;
      assert at.rows[id := row][id] == row;
      if Accepts(at, e) {
        forall other | other in at.rows && other != id ensures at.rows[other].userId != Some(userId) {
          assert at.rows[id := row][other] == at.rows[other];
        }
      }
    }
  }

  /** A success made the one change of a link to the unlinked row it had read; a refusal wrote nothing and
      names a true reason. */
  ghost predicate LinkDone(
    world: World, read: Store, at: Store, done: Store, after: Store, k: nat, id: int, userId: int, r: LinkOutcome)
  {
    && LinkReason(r, read, at, id, userId)
    && if r.Linked? || r.LinkVanished? then
         && id in read.rows && read.rows[id].userId.None?
         && id in at.rows && at.rows[id] == read.rows[id] && LinksRow(at, done, id, userId)
         && after == LinkPublished(world, done, k + 1, id, userId)
         && (r.Linked? <==> LinkFound(world, done, k + 1, id, userId))
       else after == done == at
  }

  /** What the outcome says about the rows: who has the user, and what a success has written. */
  ghost predicate LinkMeaning(at: Store, done: Store, id: int, userId: int, r: LinkOutcome) {
    && (r.UserTaken? ==> exists other :: other in at.rows && at.rows[other].userId == Some(userId))
    && (r.LinkConflict? ==>
          || userId !in at.users
          || exists other :: other in at.rows && other != id && at.rows[other].userId == Some(userId))
    && (r.Linked? || r.LinkVanished? ==>
          && id in at.rows && at.rows[id].userId.None? && userId in at.users
          && (forall other | other in at.rows :: at.rows[other].userId != Some(userId))
          && done.rows == at.rows[id := at.rows[id].(userId := Some(userId), version := at.rows[id].version + 1)]
          && done.cache == at.cache)
  }

  lemma LinkMeans(
    world: World, read: Store, at: Store, done: Store, after: Store, k: nat, id: int, userId: int, r: LinkOutcome)
    requires Inv(at) && LinkDone(world, read, at, done, after, k, id, userId, r)
    ensures LinkMeaning(at, done, id, userId, r)
  {
    if r.LinkConflict? {
      WriteConsistentIf(at, id, LinkedRows(at, id, userId)[id]);
    }
  }

  lemma QuietLink(world: World, s: Store, done: Store, after: Store, k: nat, id: int, userId: int, r: LinkOutcome)
    requires Quiet(world) && Inv(s) && LinkDone(world, s, s, done, after, k, id, userId, r)
    requires r == AtomicLink(s, id, userId)
             || ((r.LinkStale? || r.LinkConflict? || r.LinkVanished?) && AtomicLink(s, id, userId).Linked?)
    ensures r == AtomicLink(s, id, userId)
    ensures after == if r.Linked? then Step(done, DropCache(id)) else s
    ensures Coherent(s) ==> Coherent(after)
  {
    if AtomicLink(s, id, userId).Linked? {
      LinkKeepsConstraints(s, id, userId);
    }
    if r.Linked? && Coherent(s) {
      DropKeepsCoherent(s, done, id);
    }
  }

  /** Without overlap: when a link succeeds, and what each refusal means. */
  lemma AtomicLinkOutcome(s: Store, id: int, userId: int)
    ensures AtomicLink(s, id, userId).NoStudent? <==> id !in s.rows
    ensures AtomicLink(s, id, userId).NoUser? <==> id in s.rows && userId !in s.users
    ensures AtomicLink(s, id, userId).StudentTaken? <==>
              id in s.rows && userId in s.users && s.rows[id].userId.Some?
    ensures AtomicLink(s, id, userId).UserTaken? <==>
              && id in s.rows && userId in s.users && s.rows[id].userId.None?
              && exists other :: other in s.rows && s.rows[other].userId == Some(userId)
    ensures AtomicLink(s, id, userId).Linked? <==>
              && id in s.rows && userId in s.users && s.rows[id].userId.None?
              && forall other | other in s.rows :: s.rows[other].userId != Some(userId)
  {
  }

  lemma LinkRefused(world: World, read: Store, at: Store, k: nat, id: int, userId: int, r: LinkOutcome)
    requires LinkReason(r, read, at, id, userId) && !r.Linked? && !r.LinkVanished?
    ensures LinkDone(world, read, at, at, at, k, id, userId, r)
  {
  }

  lemma LinkEnds(
    world: World, read: Store, at: Store, done: Store, after: Store, k: nat, id: int, userId: int, r: LinkOutcome)
    requires Reaches(read, at) && Inv(read)
    requires id in read.rows && read.rows[id].userId.None?
    requires if r.Linked? || r.LinkVanished? then
               && id in at.rows && at.rows[id].version == read.rows[id].version && LinksRow(at, done, id, userId)
               && after == LinkPublished(world, done, k + 1, id, userId)
               && (r.Linked? <==> LinkFound(world, done, k + 1, id, userId))
             else after == done == at
    requires r.Linked? || r.LinkVanished? || r.LinkStale? || r.LinkConflict?
    requires r.LinkStale? <==> id !in at.rows || at.rows[id].version != read.rows[id].version
    requires r.LinkConflict? ==> id in at.rows && !Consistent(LinkedRows(at, id, userId), at.departments, at.users)
    ensures LinkDone(world, read, at, done, after, k, id, userId, r)
  {
    if id in at.rows {
      SameVersionSameRow(read, at, id);
    }
  }

  class StudentTable {
    const world: World
    var rows: map<int, Student>
    var past: map<int, seq<Student>>
    var departments: set<int>
    var users: set<int>
    var enrolled: set<int>
    var nextId: int
    var cache: map<int, Cached>
    var clock: Time
    var statement: nat

    function State(): Store
      reads this
    {
      Store(rows, past, departments, users, enrolled, nextId, cache, clock)
    }

    constructor (world: World, s: Store)
      requires Inv(s)
      ensures this.world == world && State() == s && statement == 0
    {
      this.world, statement := world, 0;
      rows, past, departments, users, enrolled := s.rows, s.past, s.departments, s.users, s.enrolled;
      nextId, cache, clock := s.nextId, s.cache, s.clock;
    }

    /** Other requests run, then this request's next statement is executed. */
    method Enter()
      requires Inv(State())
      modifies this
      ensures Inv(State()) && Extends(old(State()), State())
      ensures statement == old(statement) + 1
      ensures State() == Run(old(State()), world.others(old(statement))) && Reaches(old(State()), State())
      ensures Quiet(world) ==> State() == old(State())
    {
      var next := Run(State(), world.others(statement));
      RunKeepsInv(State(), world.others(statement));
      rows, past, departments, users, enrolled := next.rows, next.past, next.departments, next.users, next.enrolled;
      nextId, cache, clock, statement := next.nextId, next.cache, next.clock, statement + 1;
    }

    /** Best effort: a Redis failure is swallowed. */
    method InvalidateCache(id: int)
      requires Inv(State())
      modifies this
      ensures Inv(State()) && statement == old(statement) + 1
      ensures State() == Invalidated(world, old(State()), old(statement), id)
    {
      var up := world.redisUp(statement);
      Enter();
      if up {
        ghost var before, e := State(), DropCache(id);
        cache := cache - {id};
        assert State() == Step(before, e);
        StepKeepsInv(before, e);
      }
    }

    /** db.commit() of an UPDATE guarded by the version read earlier. */
    method CommitWrite(id: int, version: nat, patch: Patch) returns (r: CommitResult, ghost at: Store)
      requires patch != NO_CHANGE
      requires Inv(State())
      modifies this
      ensures Inv(State()) && Inv(at) && statement == old(statement) + 1
      ensures at == Run(old(State()), world.others(old(statement))) && Reaches(old(State()), at)
      ensures State() == Step(at, Write(id, version, patch))
      ensures r.Committed? <==> Accepts(at, Write(id, version, patch))
      ensures r.StaleData? <==> id !in at.rows || at.rows[id].version != version
    {
      Enter();
      at := State();
      StepKeepsInv(at, Write(id, version, patch));
      if id !in rows || rows[id].version != version {
        r := StaleData;
      } else {
        var row := Patched(rows[id], patch);
        if Consistent(rows[id := row], departments, users) {
          rows, past := rows[id := row], past[id := (if id in past then past[id] else []) + [row]];
          r := Committed;
        } else {
          r := IntegrityError;
        }
      }
    }

    /** db.refresh() of the written row and the invalidation of its cache entry. */
    method RefreshAndInvalidate(id: int) returns (found: bool)
      requires Inv(State())
      modifies this
      ensures Inv(State())
      ensures State() == Published(world, old(State()), old(statement), id)
      ensures found <==> id in Run(old(State()), world.others(old(statement))).rows
    {
      Enter();
      found := id in rows;
      if found {
        InvalidateCache(id);
      }
    }

    /** db.commit() of an update whose row was read in state `read`. */
    method CommitUpdate(id: int, patch: Patch, ghost read: Store, ghost req: Request)
      returns (r: Outcome, ghost at: Store)
      requires Inv(State()) && read == State() && id in rows && patch != NO_CHANGE
      requires patch == NetChange(rows[id], req) && (req.version.Some? ==> rows[id].version == req.version.value)
      modifies this
      ensures Inv(State()) && Inv(at) && statement == old(statement) + 1
      ensures at == Run(read, world.others(old(statement)))
      ensures match r
                case Updated =>
                  && AtomicUpdate(at, id, req) == (State(), Updated)
                  && id in at.rows && at.rows[id] == read.rows[id]
                case Conflict => AtomicUpdate(at, id, req) == (State(), Conflict)
                case Stale => State() == at && (id in at.rows ==> at.rows[id].version > read.rows[id].version)
                case _ => false
    {
      var version := rows[id].version;
      var commit;
      commit, at := CommitWrite(id, version, patch);
      if id in at.rows {
        SameVersionSameRow(read, at, id);
      }
      r := match commit
           case Committed => Updated
           case StaleData => Stale
           case IntegrityError => Conflict;
    }

    /** The commit of the changed fields, if there are any, and what follows it. */
    method Apply(id: int, req: Request) returns (r: Outcome, ghost at: Store, ghost done: Store, ghost k: nat)
      requires Inv(State()) && statement > 0
      requires id in rows && (req.version.Some? ==> rows[id].version == req.version.value)
      modifies this
      ensures Inv(State()) && Inv(at)
      ensures old(statement) - 1 <= k <= old(statement)
      ensures at == if k < old(statement) then old(State()) else Run(old(State()), world.others(k))
      ensures UpdateDone(world, old(State()), at, done, State(), k, id, req, r)
    {
      ghost var read := State();
      var patch := NetChange(rows[id], req);
      r, at, done, k := Updated, read, read, statement - 1;
      if patch != NO_CHANGE {
        k := statement;
        r, at := CommitUpdate(id, patch, read, req);
        done := State();
      }
      if r.Updated? {
        var found := RefreshAndInvalidate(id);
        r := if found then Updated else Vanished;
      }
    }

    /** The request reads in state `read` and stops or commits in the state `at` that its statement `k`
        meets.  Whatever happens in between, its effect is that of the indivisible update in one of the two
        states, and a version conflict at the commit leaves no trace.  It writes nothing else but the cache
        entry it deletes after a success. */
    method UpdateStudent(id: int, req: Request)
      returns (r: Outcome, ghost read: Store, ghost at: Store, ghost done: Store, ghost k: nat)
      requires Inv(State())
      modifies this
      ensures Inv(State())
      ensures read == Met(old(State()), world.others, old(statement), old(statement))
      ensures old(statement) <= k <= old(statement) + 1 && at == Met(old(State()), world.others, old(statement), k)
      ensures Inv(read) && Inv(at) && UpdateDone(world, read, at, done, State(), k, id, req, r)
      ensures r.Conflict? ==>
                || (req.departmentId.Some? && req.departmentId.value !in at.departments)
                || (req.email.Some? && exists other :: other in at.rows && other != id
                                                       && at.rows[other].email == req.email.value)
      ensures r.Updated? || r.Vanished? ==>
                && id in done.rows && (req.departmentId.Some? ==> req.departmentId.value in at.departments)
                && (req.email.Some? ==>
                      && done.rows[id].email == req.email.value
                      && forall other | other in done.rows && other != id :: done.rows[other].email != req.email.value)
      ensures Quiet(world) ==>
                && r == AtomicUpdate(old(State()), id, req).1
                && (r.Updated? ==> State() == Step(AtomicUpdate(old(State()), id, req).0, DropCache(id)))
                && (!r.Updated? ==> State() == old(State()))
      ensures Quiet(world) && Coherent(old(State())) ==> Coherent(State())
    {
      ghost var s, n := State(), statement;
      Enter();
      read, at, done, k := State(), State(), State(), n;
      if id !in rows {
        r := NotFound;
        RefusedUpdate(world, read, k, id, req);
      } else if req.version.Some? && rows[id].version != req.version.value {
        r := VersionMismatch;
        RefusedUpdate(world, read, k, id, req);
      } else {
        r, at, done, k := Apply(id, req);
      }
      UpdateMeans(at, id, req);
      if Quiet(world) {
        QuietUpdate(world, s, done, State(), k, id, req, r);
      }
    }

    /** The user and the student it has, read after the student. */
    method CheckUser(link: Option<int>, userId: int) returns (r: LinkOutcome, ghost k: nat)
      requires Inv(State())
      modifies this
      ensures Inv(State()) && Reaches(old(State()), State())
      ensures old(statement) <= k <= old(statement) + 1 && statement == k + 1
      ensures State() == Met(old(State()), world.others, old(statement), k)
      ensures match r
              case NoUser => userId !in users
              case StudentTaken => link.Some?
              case UserTaken => HasStudent(State(), userId)
              case Linked => link.None?
              case _ => false
      ensures Quiet(world) ==>
                && State() == old(State())
                && r == if userId !in users then NoUser
                        else if link.Some? then StudentTaken
                        else if HasStudent(State(), userId) then UserTaken
                        else Linked
    {
      ghost var s := State();
      Enter();
      k := statement - 1;
      if userId !in users {
        r := NoUser;
      } else if link.Some? {
        r := StudentTaken;
      } else {
        ghost var first := State();
        Enter();
        ReachesVia(s, first, State());
        k := statement - 1;
        r := if HasStudent(State(), userId) then UserTaken else Linked;
      }
    }

    /** The reads and checks before a link; `Linked` stands for nothing found against it. */
    method CheckLink(id: int, userId: int) returns (r: LinkOutcome, version: nat, ghost read: Store, ghost k: nat)
      requires Inv(State())
      modifies this
      ensures Inv(State()) && Inv(read) && Reaches(read, State())
      ensures read == Met(old(State()), world.others, old(statement), old(statement))
      ensures old(statement) <= k <= old(statement) + 2 && statement == k + 1
      ensures State() == Met(old(State()), world.others, old(statement), k)
      ensures r.Linked? || r.NoStudent? || r.NoUser? || r.StudentTaken? || r.UserTaken?
      ensures r.Linked? ==> id in read.rows && read.rows[id].userId.None? && read.rows[id].version == version
      ensures !r.Linked? ==> LinkReason(r, read, State(), id, userId)
      ensures Quiet(world) ==> State() == old(State()) == read && r == AtomicLink(old(State()), id, userId)
    {
      version := 0;
      ghost var s, n := State(), statement;
      Enter();
      read, k := State(), n;
      if id !in rows {
        ReachesSelf(read);
        r := NoStudent;
      } else {
        version := rows[id].version;
        r, k := CheckUser(rows[id].userId, userId);
        MetFrom(s, world.others, n, n, k);
      }
    }

    /** db.refresh() of the student, then of the user, then the invalidation. */
    method RefreshBoth(id: int, userId: int) returns (found: bool)
      requires Inv(State())
      modifies this
      ensures Inv(State())
      ensures State() == LinkPublished(world, old(State()), old(statement), id, userId)
      ensures found <==> LinkFound(world, old(State()), old(statement), id, userId)
    {
      Enter();
      found := id in rows;
      if found {
        Enter();
        found := userId in users;
        if found {
          InvalidateCache(id);
        }
      }
    }

    method CommitLink(id: int, userId: int, version: nat) returns (r: LinkOutcome, ghost at: Store, ghost done: Store)
      requires Inv(State())
      modifies this
      ensures Inv(State())
      ensures Inv(at) && at == Run(old(State()), world.others(old(statement))) && Reaches(old(State()), at)
      ensures r.Linked? || r.LinkVanished? || r.LinkStale? || r.LinkConflict?
      ensures if r.Linked? || r.LinkVanished? then
                && id in at.rows && at.rows[id].version == version && LinksRow(at, done, id, userId)
                && State() == LinkPublished(world, done, old(statement) + 1, id, userId)
                && (r.Linked? <==> LinkFound(world, done, old(statement) + 1, id, userId))
              else State() == done == at
      ensures r.LinkStale? <==> id !in at.rows || at.rows[id].version != version
      ensures r.LinkConflict? ==> id in at.rows && !Consistent(LinkedRows(at, id, userId), at.departments, at.users)
    {
      var patch, commit := NO_CHANGE.(userId := Some(Some(userId))), Committed;
      commit, at := CommitWrite(id, version, patch);
      done := State();
      LinkIsWrite(at, id, userId, version);
      match commit {
        case Committed =>
          var found := RefreshBoth(id, userId);
          r := if found then Linked else LinkVanished;
        case StaleData => r := LinkStale;
        case IntegrityError => r := LinkConflict;
      }
    }

    /** A successful link was made to an unlinked student, as read, and to a user no student had.  Nothing
        else is written but the cache entry deleted afterwards. */
    method LinkStudentToUser(id: int, userId: int)
      returns (r: LinkOutcome, ghost read: Store, ghost at: Store, ghost done: Store, ghost k: nat)
      requires Inv(State())
      modifies this
      ensures Inv(State())
      ensures read == Met(old(State()), world.others, old(statement), old(statement))
      ensures old(statement) <= k <= old(statement) + 3 && at == Met(old(State()), world.others, old(statement), k)
      ensures Inv(read) && Inv(at) && LinkDone(world, read, at, done, State(), k, id, userId, r)
      ensures LinkMeaning(at, done, id, userId, r)
      ensures Quiet(world) ==> r == AtomicLink(old(State()), id, userId)
      ensures Quiet(world) && !r.Linked? ==> State() == old(State())
      ensures Quiet(world) && r.Linked? ==> at == old(State()) && State() == Step(done, DropCache(id))
      ensures Quiet(world) && Coherent(old(State())) ==> Coherent(State())
    {
      ghost var s, n := State(), statement;
      var version;
      r, version, read, k := CheckLink(id, userId);
      at, done := State(), State();
      if r.Linked? {
        ghost var checked := State();
        r, at, done := CommitLink(id, userId, version);
        k := k + 1;
        assert at == Met(s, world.others, n, k);
        ReachesVia(read, checked, at);
        LinkEnds(world, read, at, done, State(), k, id, userId, r);
      } else {
        LinkRefused(world, read, at, k, id, userId, r);
      }
      LinkMeans(world, read, at, done, State(), k, id, userId, r);
      if Quiet(world) {
        QuietLink(world, s, done, State(), k, id, userId, r);
      }
    }

    /** A new row starts the version chain, under an id no row ever had. */
    method CreateStudent(row: Student) returns (id: int, r: CreateOutcome, ghost at: Store)
      requires Inv(State()) && row.version == 1 && row.userId.None?
      modifies this
      ensures Inv(State())
      ensures at == Met(old(State()), world.others, old(statement), old(statement)) && id == at.nextId
      ensures Inv(at)
      ensures r.CreateConflict? <==>
                row.departmentId !in at.departments
                || exists other :: other in at.rows && at.rows[other].email == row.email
      ensures if r.CreateConflict? then State() == at
              else
                && State() == Run(Step(at, Insert(id, row)), world.others(old(statement) + 1))
                && id !in at.past
                && Step(at, Insert(id, row)) == at.(rows := at.rows[id := row], past := at.past[id := [row]],
                                                    nextId := id + 1)
                && (r.Created? <==> id in rows)
      ensures Quiet(world) && Coherent(old(State())) ==> Coherent(State())
    {
      Enter();
      at := State();
      id := nextId;
      InsertStarts(at, row);
      if Consistent(rows[id := row], departments, users) {
        var s := Commit(State(), id, row);
        rows, past, nextId := s.rows, s.past, id + 1;
        assert State() == Step(at, Insert(id, row));
        Enter();
        r := if id in rows then Created else CreateVanished;
      } else {
        r := CreateConflict;
      }
    }

    /** db.commit() of a DELETE guarded by the version read earlier, and the invalidation. */
    method CommitDelete(id: int, version: nat) returns (r: DeleteOutcome, ghost at: Store)
      requires Inv(State())
      modifies this
      ensures Inv(State()) && Inv(at)
      ensures at == Run(old(State()), world.others(old(statement))) && Reaches(old(State()), at)
      ensures r == if id in at.enrolled then DeleteConflict
                   else if id !in at.rows || at.rows[id].version != version then DeleteStale
                   else Deleted
      ensures State() == if r.Deleted?
                         then Invalidated(world, Step(at, Remove(id, version)), old(statement) + 1, id) else at
      ensures r.Deleted? ==> id !in rows
      ensures Quiet(world) && Coherent(old(State())) ==> Coherent(State())
    {
      Enter();
      at := State();
      if id in enrolled {
        r := DeleteConflict;
      } else if id !in rows || rows[id].version != version {
        r := DeleteStale;
      } else {
        rows := rows - {id};
        DeleteEnds(world, at, id, version, statement);
        InvalidateCache(id);
        r := Deleted;
      }
    }

    /** Deletes the row as read and its cache entry, or nothing.  A student with enrollments is not
        deleted. */
    method DeleteStudent(id: int) returns (r: DeleteOutcome, ghost read: Store, ghost at: Store)
      requires Inv(State())
      modifies this
      ensures Inv(State()) && Inv(read) && Inv(at)
      ensures read == Met(old(State()), world.others, old(statement), old(statement))
      ensures r.DeleteMissing? <==> id !in read.rows
      ensures r.DeleteMissing? ==> State() == at == read
      ensures !r.DeleteMissing? ==>
                && at == Met(old(State()), world.others, old(statement), old(statement) + 1)
                && (r.DeleteConflict? <==> id in at.enrolled)
                && (r.Deleted? <==> id !in at.enrolled && id in at.rows && at.rows[id] == read.rows[id])
                && (r.DeleteStale? ==> id in at.rows ==> at.rows[id].version > read.rows[id].version)
                && var removed := Step(at, Remove(id, read.rows[id].version));
                   State() == if r.Deleted? then Invalidated(world, removed, old(statement) + 2, id) else at
      ensures r.Deleted? ==> id !in rows
      ensures Quiet(world) && Coherent(old(State())) ==> Coherent(State())
    {
      Enter();
      read, at := State(), State();
      if id !in rows {
        r := DeleteMissing;
      } else {
        r, at := CommitDelete(id, rows[id].version);
        if id in at.rows {
          SameVersionSameRow(read, at, id);
        }
      }
    }

    /** redis.get: an expired entry is not there. */
    method LookUp(id: int) returns (cached: Option<Student>)
      requires Inv(State())
      modifies this
      ensures Inv(State()) && statement == old(statement) + 1
      ensures State() == Run(old(State()), world.others(old(statement)))
      ensures cached.Some? ==> id in cache && clock < cache[id].expires && cached.value == cache[id].row
      ensures Quiet(world) ==>
                State() == old(State()) && (cached.Some? <==> id in cache && clock < cache[id].expires)
    {
      var up := world.redisUp(statement);
      Enter();
      cached := if up && id in cache && clock < cache[id].expires then Some(cache[id].row) else None;
    }

    method ReadRow(id: int, account: Account) returns (r: ReadReply)
      requires Inv(State())
      modifies this
      ensures Inv(State()) && statement == old(statement) + 1
      ensures State() == Run(old(State()), world.others(old(statement)))
      ensures r.Found? <==> id in rows && (account.role.User? ==> rows[id].userId == Some(account.id))
      ensures r.Found? ==> r.row == rows[id]
      ensures !r.Forbidden?
      ensures Quiet(world) ==> State() == old(State())
    {
      Enter();
      var visible := id in rows && (account.role.User? ==> rows[id].userId == Some(account.id));
      r := if visible then Found(rows[id]) else Missing;
    }

    /** redis.set(..., ex=60) with the row just read. */
    method FillFrom(id: int, row: Student)
      requires Inv(State()) && id in rows && row == rows[id]
      modifies this
      ensures Inv(State())
      ensures State() == Filled(world, old(State()), old(statement), id, row)
    {
      ghost var read := State();
      var up := world.redisUp(statement);
      Enter();
      if up {
        ghost var before, e := State(), FillCache(id, row);
        FillAccepted(read, before, id);
        cache := cache[id := Cached(row, clock + CACHE_SECONDS)];
        assert State() == Step(before, e);
        StepKeepsInv(before, e);
      }
    }

    /** Only an administrator's read uses the cache.  An answer is always a committed version; one that
        comes from the table is the current row, and a plain user sees only a row linked to them.  Nothing is
        written but the cache entry of a row just read from the table. */
    method ReadStudent(id: int, account: Account) returns (r: ReadReply, ghost at: Store, ghost k: nat)
      requires Inv(State())
      modifies this
      ensures Inv(State())
      ensures r.Forbidden? <==> account.role.Guest?
      ensures r.Forbidden? ==> State() == at == old(State())
      ensures !r.Forbidden? ==>
                old(statement) <= k <= old(statement) + 1 && at == Met(old(State()), world.others, old(statement), k)
      ensures r.Found? ==> id in at.past && r.row in at.past[id]
      ensures r.Found? ==>
                || (id in at.rows && r.row == at.rows[id]
                    && (account.role.User? ==> r.row.userId == Some(account.id))
                    && State() == if account.role.Admin? && world.redisUp(old(statement))
                                  then Filled(world, at, k + 1, id, r.row) else at)
                || (account.role.Admin? && id in at.cache && at.clock < at.cache[id].expires
                    && r.row == at.cache[id].row && State() == at)
      ensures r.Missing? ==>
                && (id !in at.rows || (account.role.User? && at.rows[id].userId != Some(account.id)))
                && State() == at
      ensures Quiet(world) && Coherent(old(State())) ==>
                && Coherent(State()) && State().rows == old(rows)
                && (r.Found? ==> id in rows && r.row == rows[id])
      ensures Quiet(world) && account.role.Admin? ==>
                var s := old(State());
                if id in s.cache && s.clock < s.cache[id].expires then r == Found(s.cache[id].row) && State() == s
                else if id in s.rows then r == Found(s.rows[id]) && State() == Step(s, FillCache(id, s.rows[id]))
                else r == Missing && State() == s
    {
      at, k, r := State(), statement, Forbidden;
      if !account.role.Guest? {
        var redis := world.redisUp(statement);
        var cached := None;
        if account.role.Admin? && redis {
          cached := LookUp(id);
          at := State();
        }
        if cached.Some? {
          assert RowInv(at, id);
          r := Found(cached.value);
        } else {
          k := statement;
          r := ReadRow(id, account);
          at := State();
          assert id in at.rows ==> RowInv(at, id);
          if r.Found? && account.role.Admin? && redis {
            FillFrom(id, r.row);
          }
        }
      }
    }
  }
}
