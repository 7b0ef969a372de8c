/** The student table with its version column, and the read cache beside it
    (app/crud/student.py, app/models/student.py).  A transaction is one event; a request is a sequence of
    events with those of other requests in between. */
module Students {
  import opened Entities

  type Time = real

  datatype Cached = Cached(row: Student, expires: Time)

  /** `past` keeps every committed version of every row, in order; ids come from a sequence; `enrolled` are
      the students that enrollments refer to. */
  datatype Store = Store(
    rows: map<int, Student>, past: map<int, seq<Student>>, departments: set<int>, users: set<int>,
    enrolled: set<int>, nextId: int, cache: map<int, Cached>, clock: Time)

  /** The columns an UPDATE sets. */
  datatype Patch = Patch(
    name: Option<string>, departmentId: Option<int>, age: Option<int>, email: Option<string>,
    userId: Option<Option<int>>)

  const NO_CHANGE := Patch(None, None, None, None, None)

  const UNLINKED := NO_CHANGE.(userId := Some(None))

  /** The body of an update request. */
  datatype Request = Request(
    name: Option<string>, departmentId: Option<int>, age: Option<int>, email: Option<string>, version: Option<nat>)

  /** The row as the UPDATE leaves it, its version one higher. */
  function Patched(row: Student, p: Patch): Student {
    Student(OrKeep(p.name, row.name), if p.age.Some? then p.age else row.age, OrKeep(p.email, row.email),
            OrKeep(p.departmentId, row.departmentId), OrKeep(p.userId, row.userId), row.version + 1)
  }

  /** Only columns whose value changes are written. */
  function NetChange(row: Student, req: Request): Patch {
    Patch(Changed(req.name, Some(row.name)), Changed(req.departmentId, Some(row.departmentId)),
          Changed(req.age, row.age), Changed(req.email, Some(row.email)), None)
  }

  /** UNIQUE(email), UNIQUE(user_id) and the two foreign keys. */
  predicate Consistent(rows: map<int, Student>, departments: set<int>, users: set<int>) {
    && (forall a, b | a in rows && b in rows && a != b ::
          rows[a].email != rows[b].email && (rows[a].userId.Some? ==> rows[a].userId != rows[b].userId))
    && (forall a | a in rows ::
          rows[a].departmentId in departments && (rows[a].userId.Some? ==> rows[a].userId.value in users))
  }

  datatype Event =
    | Insert(id: int, row: Student)
    | Write(id: int, version: nat, patch: Patch)
    | Remove(id: int, version: nat)
    | RemoveUser(userId: int, id: int, version: nat)  // deletes the user, and before that unlinks its student
    | FillCache(id: int, row: Student)
    | DropCache(id: int)
    | Elsewhere(departments: set<int>, users: set<int>, enrolled: set<int>)  // other tables change
    | Pass(to: Time)

  /** The constraints and the version guard, evaluated when the statement commits. */
  predicate Accepts(s: Store, e: Event) {
    match e
    case Insert(id, row) =>
      && id >= s.nextId && row.version == 1 && row.userId.None?
      && Consistent(s.rows[id := row], s.departments, s.users)
    case Write(id, version, p) =>
      && id in s.rows && s.rows[id].version == version && p != NO_CHANGE
      && Consistent(s.rows[id := Patched(s.rows[id], p)], s.departments, s.users)
    case Remove(id, version) => id in s.rows && s.rows[id].version == version && id !in s.enrolled
    case RemoveUser(userId, id, version) =>
      && id in s.rows && s.rows[id].version == version && s.rows[id].userId == Some(userId)
      && Consistent(s.rows[id := Patched(s.rows[id], UNLINKED)], s.departments, s.users - {userId})
    case FillCache(id, row) => id in s.past && row in s.past[id]
    case DropCache(_) => true
    case Elsewhere(departments, users, enrolled) =>
      Consistent(s.rows, departments, users) && enrolled <= s.rows.Keys
    case Pass(to) => s.clock <= to
  }

  const CACHE_SECONDS: Time := 60.0

  function Commit(s: Store, id: int, row: Student): Store {
    s.(rows := s.rows[id := row], past := s.past[id := (if id in s.past then s.past[id] else []) + [row]])
  }

  function Step(s: Store, e: Event): Store {
    if !Accepts(s, e) then s
    else match e
      case Insert(id, row) => Commit(s, id, row).(nextId := id + 1)
      case Write(id, _, p) => Commit(s, id, Patched(s.rows[id], p))
      case Remove(id, _) => s.(rows := s.rows - {id})
      case RemoveUser(userId, id, _) => Commit(s, id, Patched(s.rows[id], UNLINKED)).(users := s.users - {userId})
      case FillCache(id, row) => s.(cache := s.cache[id := Cached(row, s.clock + CACHE_SECONDS)])
      case DropCache(id) => s.(cache := s.cache - {id})
      case Elsewhere(departments, users, enrolled) =>
        s.(departments := departments, users := users, enrolled := enrolled)
      case Pass(to) => s.(clock := to)
  }

  function Run(s: Store, es: seq<Event>): Store
    decreases |es|
  {
    if es == [] then s else Run(Step(s, es[0]), es[1..])
  }

  /** The store that statement `m` of a request meets, if the request has done nothing since `s`, before
      its statement `n`. */
  function Met(s: Store, others: nat -> seq<Event>, n: nat, m: nat): Store
    requires n <= m
    decreases m
  {
    Run(if n == m then s else Met(s, others, n, m - 1), others(m))
  }

  lemma {:induction false} MetFrom(s: Store, others: nat -> seq<Event>, n: nat, m: nat, k: nat)
    requires n <= m < k
    ensures Met(Met(s, others, n, m), others, m + 1, k) == Met(s, others, n, k)
    decreases k
  {
    if m + 1 < k {
      MetFrom(s, others, n, m, k - 1);
    }
  }

  ghost predicate Reaches(a: Store, b: Store) {
    exists es :: Run(a, es) == b
  }

  lemma {:induction false} RunAppend(s: Store, es: seq<Event>, fs: seq<Event>)
    ensures Run(s, es + fs) == Run(Run(s, es), fs)
    decreases |es|
  {
    if es == [] {
      assert es + fs == fs;
    } else {
      assert (es + fs)[1..] == es[1..] + fs;
      RunAppend(Step(s, es[0]), es[1..], fs);
    }
  }

  lemma ReachesSelf(s: Store)
    ensures Reaches(s, s)
  {
    assert Run(s, []) == s;
  }

  lemma ReachesStep(s: Store, e: Event)
    ensures Reaches(s, Step(s, e))
  {
    assert Run(Step(s, e), []) == Step(s, e);
    assert Run(s, [e]) == Step(s, e);
  }

  lemma ReachesVia(a: Store, b: Store, c: Store)
    requires Reaches(a, b) && Reaches(b, c)
    ensures Reaches(a, c)
  {
    var first :| Run(a, first) == b;
    var second :| Run(b, second) == c;
    RunAppend(a, first, second);
  }

  // ----- what every transaction keeps

  ghost predicate RowInv(s: Store, id: int) {
    && (id in s.past ==>
          && id < s.nextId && s.past[id] != []
          && forall k | 0 <= k < |s.past[id]| :: s.past[id][k].version == k + 1)
    && (id in s.rows ==> id in s.past && s.rows[id] == s.past[id][|s.past[id]| - 1])
    && (id in s.cache ==>
          && id in s.past && s.cache[id].row in s.past[id]
          && s.cache[id].expires <= s.clock + CACHE_SECONDS)
  }

  /** Versions form a chain from 1, the row is its last link, and the cache holds only links. */
  ghost predicate Inv(s: Store) {
    && Consistent(s.rows, s.departments, s.users) && s.enrolled <= s.rows.Keys
    && (forall id | id in s.past || id in s.rows || id in s.cache :: id in s.past && s.past[id] != [] && RowInv(s, id))
  }

  /** History only grows, and a removed row does not come back. */
  ghost predicate Extends(a: Store, b: Store) {
    && a.clock <= b.clock
    && (forall id | id in a.past :: id in b.past && a.past[id] <= b.past[id])
    && (forall id | id in a.past && id in b.rows :: id in a.rows)
  }

  lemma RowKeepsInv(s: Store, e: Event, id: int)
    requires Inv(s)
    requires id in Step(s, e).past || id in Step(s, e).rows || id in Step(s, e).cache
    ensures id in Step(s, e).past && Step(s, e).past[id] != [] && RowInv(Step(s, e), id)
  {
    assert id in s.past || id in s.rows || id in s.cache ==> RowInv(s, id);
  }

  lemma StepExtends(s: Store, e: Event)
    requires Inv(s)
    ensures Extends(s, Step(s, e))
  {
    assert forall id | id in s.past :: RowInv(s, id);
  }

  lemma StepKeepsInv(s: Store, e: Event)
    requires Inv(s)
    ensures Inv(Step(s, e)) && Extends(s, Step(s, e))
  {
    var t := Step(s, e);
    forall id | id in t.past || id in t.rows || id in t.cache
      ensures id in t.past && t.past[id] != [] && RowInv(t, id)
    {
      RowKeepsInv(s, e, id);
    }
    StepExtends(s, e);
  }

  lemma {:induction false} RunKeepsInv(s: Store, es: seq<Event>)
    requires Inv(s)
    ensures Inv(Run(s, es)) && Extends(s, Run(s, es))
    decreases |es|
  {
    if es != [] {
      var t := Step(s, es[0]);
      StepKeepsInv(s, es[0]);
      RunKeepsInv(t, es[1..]);
    }
  }

  lemma ReachKeepsInv(a: Store, b: Store)
    requires Reaches(a, b) && Inv(a)
    ensures Inv(b) && Extends(a, b)
  {
    var es :| Run(a, es) == b;
    RunKeepsInv(a, es);
  }

  /** The table constraints, spelled out for any two students of any reachable state. */
  lemma ConstraintsHold(s: Store, es: seq<Event>, a: int, b: int)
    requires Inv(s) && a in Run(s, es).rows && b in Run(s, es).rows && a != b
    ensures var t := Run(s, es);
            var x, y := t.rows[a], t.rows[b];
            && x.email != y.email && (x.userId.None? || x.userId != y.userId)
            && x.departmentId in t.departments && (x.userId.None? || x.userId.value in t.users)
  {
    RunKeepsInv(s, es);
  }

  /** A new row can be inserted exactly if its address is free and its department exists. */
  lemma InsertAcceptedIff(s: Store, row: Student)
    requires Inv(s) && row.version == 1 && row.userId.None?
    ensures Accepts(s, Insert(s.nextId, row)) <==>
              && row.departmentId in s.departments
              && forall other | other in s.rows :: s.rows[other].email != row.email
  {
    var id, rows := s.nextId, s.rows[s.nextId := row];
    assert id in s.rows ==> RowInv(s, id);
    assert rows[id] == row && forall other | other in s.rows :: other in rows && rows[other] == s.rows[other];
  }

  lemma WriteConsistentIf(s: Store, id: int, row: Student)
    requires Inv(s) && id in s.rows
    ensures Consistent(s.rows[id := row], s.departments, s.users) <==>
              && row.departmentId in s.departments && (row.userId.Some? ==> row.userId.value in s.users)
              && (forall other | other in s.rows && other != id ::
                    s.rows[other].email != row.email && (row.userId.Some? ==> s.rows[other].userId != row.userId))
  {
    var rows := s.rows[id := row];
    assert rows[id] == row;
    assert forall other | other in s.rows && other != id :: other in rows && rows[other] == s.rows[other];
  }

  /** A guarded write is accepted exactly if it sets something, the version still is the one given, and what
      it sets is free and exists. */
  lemma WriteAcceptedIff(s: Store, id: int, version: nat, p: Patch)
    requires Inv(s)
    ensures Accepts(s, Write(id, version, p)) <==>
              && id in s.rows && s.rows[id].version == version
              && (p.name.Some? || p.departmentId.Some? || p.age.Some? || p.email.Some? || p.userId.Some?)
              && (p.email.Some? ==>
                    forall other | other in s.rows && other != id :: s.rows[other].email != p.email.value)
              && (p.departmentId.Some? ==> p.departmentId.value in s.departments)
              && (p.userId.Some? && p.userId.value.Some? ==>
                    && p.userId.value.value in s.users
                    && forall other | other in s.rows && other != id :: s.rows[other].userId != p.userId.value)
  {
    if id in s.rows {
      var row := Patched(s.rows[id], p);
      var rows := s.rows[id := row];
      assert rows[id] == row;
      assert forall other | other in s.rows && other != id :: other in rows && rows[other] == s.rows[other];
      assert forall other | other in rows && other != id :: other in s.rows;
      WriteConsistentIf(s, id, row);
    }
  }

  /** Which rows, versions and cache entries a transaction can touch at all. */
  lemma TouchesOnly(s: Store, e: Event, other: int)
    requires match e
             case Insert(id, _) => other != id
             case Write(id, _, _) => other != id
             case Remove(id, _) => other != id
             case RemoveUser(_, id, _) => other != id
             case FillCache(id, _) => other != id
             case DropCache(id) => other != id
             case _ => true
    ensures var t := Step(s, e);
            && (other in t.rows <==> other in s.rows) && (other in s.rows ==> t.rows[other] == s.rows[other])
            && (other in t.past <==> other in s.past) && (other in s.past ==> t.past[other] == s.past[other])
            && (other in t.cache <==> other in s.cache) && (other in s.cache ==> t.cache[other] == s.cache[other])
  {
  }

  /** What an accepted transaction leaves in the row it touches, column by column. */
  lemma RowColumns(s: Store, e: Event)
    requires Accepts(s, e)
    ensures var t := Step(s, e);
            match e
            case Insert(id, row) => id in t.rows && t.rows[id] == row && t.cache == s.cache && t.nextId == id + 1
            case Write(id, _, p) =>
              && id in t.rows && t.cache == s.cache
              && t.rows[id].version == s.rows[id].version + 1
              && t.rows[id].name == (if p.name.Some? then p.name.value else s.rows[id].name)
              && t.rows[id].departmentId ==
                 (if p.departmentId.Some? then p.departmentId.value else s.rows[id].departmentId)
              && t.rows[id].age == (if p.age.Some? then p.age else s.rows[id].age)
              && t.rows[id].email == (if p.email.Some? then p.email.value else s.rows[id].email)
              && t.rows[id].userId == (if p.userId.Some? then p.userId.value else s.rows[id].userId)
            case Remove(id, _) => id !in t.rows && t.cache == s.cache
            case RemoveUser(userId, id, _) =>
              && id in t.rows && t.users == s.users - {userId} && t.cache == s.cache
              && t.rows[id] == s.rows[id].(userId := None, version := s.rows[id].version + 1)
            case FillCache(id, row) =>
              && t.rows == s.rows && id in t.cache
              && t.cache[id].row == row && t.cache[id].expires == s.clock + 60.0
            case DropCache(id) => t.rows == s.rows && id !in t.cache
            case Elsewhere(_, _, _) => t.rows == s.rows && t.cache == s.cache
            case Pass(to) => t.rows == s.rows && t.cache == s.cache && t.clock == to
  {
  }

  // ----- no lost update

  /** The version identifies the contents: a row still at the version a request read is the row it read. */
  lemma SameVersionSameRow(a: Store, b: Store, id: int)
    requires Reaches(a, b) && Inv(a) && id in a.rows && id in b.rows
    ensures a.rows[id].version <= b.rows[id].version
    ensures a.rows[id].version == b.rows[id].version ==> a.rows[id] == b.rows[id]
  {
    ReachKeepsInv(a, b);
    assert RowInv(a, id) && RowInv(b, id);
  }

  /** What a transaction writes to the row, if it takes effect. */
  function Effect(s: Store, e: Event, id: int): Option<Patch> {
    if !Accepts(s, e) then None
    else match e
      case Write(target, _, patch) => if target == id then Some(patch) else None
      case RemoveUser(_, target, _) => if target == id then Some(UNLINKED) else None
      case _ => None
  }

  /** The writes that took effect on the row, in commit order. */
  function Writes(s: Store, es: seq<Event>, id: int): seq<Patch>
    decreases |es|
  {
    if es == [] then []
    else
      var rest := Writes(Step(s, es[0]), es[1..], id);
      match Effect(s, es[0], id)
      case None => rest
      case Some(p) => [p] + rest
  }

  function PatchedBy(row: Student, ps: seq<Patch>): Student
    decreases |ps|
  {
    if ps == [] then row else PatchedBy(Patched(row, ps[0]), ps[1..])
  }

  lemma RowAfterStep(s: Store, e: Event, id: int)
    requires Inv(s) && id in s.rows
    ensures id in Step(s, e).rows ==>
              Step(s, e).rows[id] == match Effect(s, e, id)
                                     case None => s.rows[id]
                                     case Some(p) => Patched(s.rows[id], p)
    ensures id in Step(s, e).past
  {
    assert RowInv(s, id);
  }

  /** The final row is every successful write applied in commit order, each to the version its writer had
      read, and the version counts them. */
  lemma {:induction false} NoLostUpdate(s: Store, es: seq<Event>, id: int)
    requires Inv(s) && id in s.rows && id in Run(s, es).rows
    ensures Run(s, es).rows[id] == PatchedBy(s.rows[id], Writes(s, es, id))
    ensures Run(s, es).rows[id].version == s.rows[id].version + |Writes(s, es, id)|
    decreases |es|
  {
    if es != [] {
      var t := Step(s, es[0]);
      StepKeepsInv(s, es[0]);
      RunKeepsInv(t, es[1..]);
      RowAfterStep(s, es[0], id);
      NoLostUpdate(t, es[1..], id);
      if Effect(s, es[0], id).Some? {
        assert Writes(s, es, id)[1..] == Writes(t, es[1..], id);
      }
    }
  }

  // ----- the update as one indivisible operation

  datatype Outcome = Updated | NotFound | VersionMismatch | Stale | Conflict | Vanished

  /** Reading, checking and committing with nothing in between. */
  function AtomicUpdate(s: Store, id: int, req: Request): (Store, Outcome) {
    if id !in s.rows then (s, NotFound)
    else if req.version.Some? && req.version.value != s.rows[id].version then (s, VersionMismatch)
    else
      var e := Write(id, s.rows[id].version, NetChange(s.rows[id], req));
      if e.patch == NO_CHANGE then (s, Updated)
      else if Accepts(s, e) then (Step(s, e), Updated)
      else (s, Conflict)
  }

  /** A successful update sets what the client asked for and nothing else, moving the version by one; a
      client version must be the one replaced; an update without effect writes nothing. */
  lemma AtomicUpdateMeaning(s: Store, id: int, req: Request)
    requires AtomicUpdate(s, id, req).1.Updated?
    ensures var after := AtomicUpdate(s, id, req).0;
            && id in s.rows && after.rows.Keys == s.rows.Keys
            && after.rows[id].name == (if req.name.Some? then req.name.value else s.rows[id].name)
            && after.rows[id].departmentId ==
               (if req.departmentId.Some? then req.departmentId.value else s.rows[id].departmentId)
            && after.rows[id].age == (if req.age.Some? then req.age else s.rows[id].age)
            && after.rows[id].email == (if req.email.Some? then req.email.value else s.rows[id].email)
            && after.rows[id].userId == s.rows[id].userId
            && (req.version.Some? ==> s.rows[id].version == req.version.value)
            && (after.rows[id].version == s.rows[id].version + 1 || after == s)
            && (after == s <==> after.rows[id] == s.rows[id])
            && after.cache == s.cache && after.departments == s.departments && after.users == s.users
            && (forall other | other in s.rows && other != id :: after.rows[other] == s.rows[other])
  {
  }

  /** When it succeeds, and what each refusal means; a refusal writes nothing. */
  lemma AtomicUpdateOutcome(s: Store, id: int, req: Request)
    requires Inv(s)
    ensures var (after, r) := AtomicUpdate(s, id, req);
            var current := id in s.rows && (req.version.Some? ==> req.version.value == s.rows[id].version);
            var taken := req.email.Some? && exists other :: other in s.rows && other != id
                                                            && s.rows[other].email == req.email.value;
            var missing := req.departmentId.Some? && req.departmentId.value !in s.departments;
            && (r.NotFound? <==> id !in s.rows)
            && (r.VersionMismatch? <==> id in s.rows && !current)
            && (r.Conflict? <==> current && (taken || missing))
            && (r.Updated? <==> current && !taken && !missing)
            && (!r.Updated? ==> after == s)
  {
    if id in s.rows {
      assert RowInv(s, id);
      WriteAcceptedIff(s, id, s.rows[id].version, NetChange(s.rows[id], req));
    }
  }

  /** A version that has been superseded is refused now and ever after. */
  lemma SupersededRefused(a: Store, b: Store, id: int, req: Request)
    requires Reaches(a, b) && Inv(a) && id in a.rows
    requires req.version.Some? && req.version.value < a.rows[id].version
    ensures AtomicUpdate(b, id, req) == (b, if id in b.rows then VersionMismatch else NotFound)
  {
    if id in b.rows {
      SameVersionSameRow(a, b, id);
    }
  }

  // ----- the cache

  /** Every cached student is the current row. */
  ghost predicate Coherent(s: Store) {
    forall id | id in s.cache :: id in s.rows && s.cache[id].row == s.rows[id]
  }

  /** In every reachable state a cached student is a committed version, no newer than the row, with at
      most sixty seconds to live; if it is not the current row, an update sent with its version is refused. */
  lemma CachedIsCommitted(s: Store, es: seq<Event>, id: int, req: Request)
    requires Inv(s) && id in Run(s, es).cache
    ensures var t := Run(s, es);
            && id in t.past && t.cache[id].row in t.past[id]
            && t.cache[id].expires <= t.clock + 60.0
            && (id in t.rows ==> t.cache[id].row.version <= t.rows[id].version)
            && (id in t.rows && t.cache[id].row != t.rows[id] && req.version == Some(t.cache[id].row.version) ==>
                  AtomicUpdate(t, id, req) == (t, VersionMismatch))
  {
    var t := Run(s, es);
    RunKeepsInv(s, es);
    assert RowInv(t, id);
    var k :| 0 <= k < |t.past[id]| && t.past[id][k] == t.cache[id].row;
  }

  /** Deleting a user changes the student row of that user without invalidating its cache entry: even with
      no other request under way, the cache stays coherent exactly when the student was not cached. */
  lemma UserRemovalCoherentIff(s: Store, userId: int, id: int, version: nat)
    requires Inv(s) && Coherent(s) && Accepts(s, RemoveUser(userId, id, version))
    ensures var t := Step(s, RemoveUser(userId, id, version));
            && userId !in t.users && id in t.rows && t.rows[id] == s.rows[id].(userId := None, version := version + 1)
            && (Coherent(t) <==> id !in s.cache)
            && (id in s.cache ==> t.cache[id].row.userId == Some(userId) && t.cache[id].expires <= t.clock + 60.0)
  {
    var t := Step(s, RemoveUser(userId, id, version));
    assert t.rows[id].version != s.rows[id].version;
    assert id in s.cache ==> RowInv(s, id);
  }

  /** A reader fills the cache with the row it read earlier.  The entry is the current row exactly when
      the version has not moved since: invalidating after the commit does not exclude a slow reader. */
  lemma FillIsFreshIff(read: Store, now: Store, id: int)
    requires Reaches(read, now) && Inv(read) && id in read.rows
    ensures var after := Step(now, FillCache(id, read.rows[id]));
            && id in after.cache && after.cache[id].row == read.rows[id]
            && after.cache[id].expires == now.clock + 60.0
            && (id in after.rows && after.cache[id].row == after.rows[id]
                <==> id in now.rows && now.rows[id].version == read.rows[id].version)
  {
    ReachKeepsInv(read, now);
    assert RowInv(read, id);
    assert read.past[id] <= now.past[id];
    assert read.rows[id] == now.past[id][|read.past[id]| - 1];
    if id in now.rows {
      SameVersionSameRow(read, now, id);
    }
  }

  /** The slow reader: it reads, another request updates the row and invalidates the cache, and then it
      fills the cache with the old row. */
  lemma SlowReaderLeavesStaleEntry()
    ensures exists s: Store, es :: Inv(s) && 1 in s.rows &&
              var t := Step(Run(s, es), FillCache(1, s.rows[1]));
              1 in t.rows && 1 in t.cache && t.cache[1].row != t.rows[1]
  {
    var row := Student("Ann", None, "a@x", 1, None, 1);
    var s := Store(map[1 := row], map[1 := [row]], {1}, {}, {}, 2, map[], 0.0);
    assert RowInv(s, 1);
    var p := NO_CHANGE.(name := Some("Bob"));
    var w, d := Write(1, 1, p), DropCache(1);
    var after := Patched(row, p);
    assert Step(s, w) == Commit(s, 1, after);
    assert Step(Step(s, w), d) == Commit(s, 1, after);
    assert [w, d][1..] == [d] && [d][1..] == [];
    assert Run(s, [w, d]) == Run(Step(s, w), [d]) == Step(Step(s, w), d);
    assert row in Commit(s, 1, after).past[1];
  }
}
