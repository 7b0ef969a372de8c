/** Enrollment requests against the table constraints (app/crud/enrollment.py, app/models/enrollment.py):
    checks in separate statements first, the constraints at the commit as the final arbiter. */
module Enrollments {
  import opened Entities

  datatype Tables = Tables(rows: map<int, Enrollment>, students: set<int>, offerings: set<int>, nextId: int)

  predicate SamePair(a: Enrollment, b: Enrollment) {
    a.studentId == b.studentId && a.offeringId == b.offeringId
  }

  predicate RowAllowed(row: Enrollment, students: set<int>, offerings: set<int>) {
    && row.studentId in students && row.offeringId in offerings
    && (row.grade.Some? ==> 0 <= row.grade.value <= 100)
    && !(row.isActive && row.isWithdrawn)
  }

  /** Foreign keys, check constraints, UNIQUE(student, offering) and UNIQUE(code). */
  predicate Allowed(rows: map<int, Enrollment>, students: set<int>, offerings: set<int>) {
    && (forall a | a in rows :: RowAllowed(rows[a], students, offerings))
    && (forall a, b | a in rows && b in rows && a != b :: !SamePair(rows[a], rows[b]) && rows[a].code != rows[b].code)
  }

  /** The columns an UPDATE sets. */
  datatype Patch = Patch(
    studentId: Option<int>, offeringId: Option<int>, code: Option<string>, grade: Option<int>,
    isActive: Option<bool>, isWithdrawn: Option<bool>)

  const NO_COLUMNS := Patch(None, None, None, None, None, None)

  function Patched(row: Enrollment, p: Patch): Enrollment {
    Enrollment(OrKeep(p.studentId, row.studentId), OrKeep(p.offeringId, row.offeringId), OrKeep(p.code, row.code),
               if p.grade.Some? then p.grade else row.grade,
               OrKeep(p.isActive, row.isActive), OrKeep(p.isWithdrawn, row.isWithdrawn))
  }

  /** Only columns whose value changes are written; a request has the form of a patch. */
  function NetChange(row: Enrollment, req: Patch): Patch {
    Patch(Changed(req.studentId, Some(row.studentId)), Changed(req.offeringId, Some(row.offeringId)),
          Changed(req.code, Some(row.code)), Changed(req.grade, row.grade),
          Changed(req.isActive, Some(row.isActive)), Changed(req.isWithdrawn, Some(row.isWithdrawn)))
  }

  datatype Event =
    | Insert(id: int, row: Enrollment)
    | Write(id: int, patch: Patch)
    | Remove(id: int)
    | Elsewhere(students: set<int>, offerings: set<int>)  // the referenced tables change

  predicate Accepts(t: Tables, e: Event) {
    match e
    case Insert(id, row) => id >= t.nextId && Allowed(t.rows[id := row], t.students, t.offerings)
    case Write(id, p) => id in t.rows && Allowed(t.rows[id := Patched(t.rows[id], p)], t.students, t.offerings)
    case Remove(id) => true
    case Elsewhere(students, offerings) => Allowed(t.rows, students, offerings)
  }

  function Step(t: Tables, e: Event): Tables {
    if !Accepts(t, e) then t
    else match e
      case Insert(id, row) => t.(rows := t.rows[id := row], nextId := id + 1)
      case Write(id, p) => t.(rows := t.rows[id := Patched(t.rows[id], p)])
      case Remove(id) => t.(rows := t.rows - {id})
      case Elsewhere(students, offerings) => t.(students := students, offerings := offerings)
  }

  function Run(t: Tables, es: seq<Event>): Tables
    decreases |es|
  {
    if es == [] then t else Run(Step(t, es[0]), es[1..])
  }

  /** The tables that statement `m` of a request meets, if the request has written nothing since `t`,
      before its statement `n`. */
  function Met(t: Tables, others: nat -> seq<Event>, n: nat, m: nat): Tables
    requires n <= m
    decreases m
  {
    Run(if n == m then t else Met(t, others, n, m - 1), others(m))
  }

  /** Nobody else is active. */
  ghost predicate Alone(others: nat -> seq<Event>) {
    forall n :: others(n) == []
  }

  lemma {:induction false} MetAlone(t: Tables, others: nat -> seq<Event>, n: nat, m: nat)
    requires n <= m && Alone(others)
    ensures Met(t, others, n, m) == t
    decreases m
  {
    if n < m {
      MetAlone(t, others, n, m - 1);
    }
  }

  lemma {:induction false} MetFrom(t: Tables, others: nat -> seq<Event>, n: nat, m: nat, k: nat)
    requires n <= m < k
    ensures Met(Met(t, others, n, m), others, m + 1, k) == Met(t, others, n, k)
    decreases k
  {
    if m + 1 < k {
      MetFrom(t, others, n, m, k - 1);
    }
  }

  ghost predicate Inv(t: Tables) {
    && Allowed(t.rows, t.students, t.offerings)
    && forall id | id in t.rows :: id < t.nextId
  }

  /** Uniqueness, references, grade range and not(active and withdrawn) hold in every reachable state. */
  lemma {:induction false} RunKeepsInv(t: Tables, es: seq<Event>)
    requires Inv(t)
    ensures Inv(Run(t, es)) && t.nextId <= Run(t, es).nextId
    decreases |es|
  {
    if es != [] {
      RunKeepsInv(Step(t, es[0]), es[1..]);
    }
  }

  /** The same, spelled out for any two rows of any reachable state. */
  lemma ConstraintsHold(t: Tables, es: seq<Event>, a: int, b: int)
    requires Inv(t) && a in Run(t, es).rows && b in Run(t, es).rows && a != b
    ensures var u := Run(t, es);
            var x, y := u.rows[a], u.rows[b];
            && x.code != y.code && (x.studentId != y.studentId || x.offeringId != y.offeringId)
            && x.studentId in u.students && x.offeringId in u.offerings
            && (x.grade.None? || 0 <= x.grade.value <= 100) && !(x.isActive && x.isWithdrawn)
  {
    RunKeepsInv(t, es);
    assert !SamePair(Run(t, es).rows[a], Run(t, es).rows[b]);
  }

  /** Putting `row` at `id` is allowed exactly when the row is by itself and no other row has its pair or
      its code. */
  lemma AllowedWith(t: Tables, id: int, row: Enrollment)
    requires Inv(t)
    ensures Allowed(t.rows[id := row], t.students, t.offerings) <==>
              && row.studentId in t.students && row.offeringId in t.offerings
              && (row.grade.None? || 0 <= row.grade.value <= 100) && !(row.isActive && row.isWithdrawn)
              && (forall other | other in t.rows && other != id ::
                    && (t.rows[other].studentId != row.studentId || t.rows[other].offeringId != row.offeringId)
                    && t.rows[other].code != row.code)
  {
    var rows := t.rows[id := row];
    assert rows[id] == row;
    assert forall other | other in t.rows && other != id :: other in rows && rows[other] == t.rows[other];
    if Allowed(rows, t.students, t.offerings) {
      forall other | other in t.rows && other != id
        ensures t.rows[other].studentId != row.studentId || t.rows[other].offeringId != row.offeringId
        ensures t.rows[other].code != row.code
      {
        assert !SamePair(rows[other], rows[id]) && rows[other].code != rows[id].code;
      }
    }
  }

  /** Which rows a transaction can touch at all. */
  lemma TouchesOnly(t: Tables, e: Event, other: int)
    requires !e.Elsewhere? ==> e.id != other
    ensures var u := Step(t, e);
            (other in u.rows <==> other in t.rows) && (other in t.rows ==> u.rows[other] == t.rows[other])
  {
  }

  /** What an accepted transaction leaves in the row it touches, column by column. */
  lemma RowColumns(t: Tables, e: Event)
    requires Accepts(t, e)
    ensures var u := Step(t, e);
            match e
            case Insert(id, row) => id in u.rows && u.rows[id] == row && u.nextId == id + 1
            case Write(id, p) =>
              && id in u.rows
              && u.rows[id].studentId == (if p.studentId.Some? then p.studentId.value else t.rows[id].studentId)
              && u.rows[id].offeringId == (if p.offeringId.Some? then p.offeringId.value else t.rows[id].offeringId)
              && u.rows[id].code == (if p.code.Some? then p.code.value else t.rows[id].code)
              && u.rows[id].grade == (if p.grade.Some? then p.grade else t.rows[id].grade)
              && u.rows[id].isActive == (if p.isActive.Some? then p.isActive.value else t.rows[id].isActive)
              && u.rows[id].isWithdrawn == (if p.isWithdrawn.Some? then p.isWithdrawn.value else t.rows[id].isWithdrawn)
            case Remove(id) => id !in u.rows
            case Elsewhere(students, offerings) => u == t.(students := students, offerings := offerings)
  {
  }

  /** Of two requests for the same student and offering, or with the same code, the second is refused as
      long as the row of the first is there, whatever it has become otherwise. */
  lemma {:induction false} SecondRefused(t: Tables, es: seq<Event>, first: int, id: int, row: Enrollment)
    requires Inv(t)
    requires var u := Run(t, es);
             && first in u.rows
             && (u.rows[first].code == row.code
                 || (u.rows[first].studentId == row.studentId && u.rows[first].offeringId == row.offeringId))
    ensures !Accepts(Run(t, es), Insert(id, row))
  {
    var u := Run(t, es);
    RunKeepsInv(t, es);
    if id >= u.nextId {
      AllowedWith(u, id, row);
    }
  }

  /** `Created` and `CreatedThenGone` differ in what the refresh after the commit finds. */
  datatype CreateOutcome =
    | Created(id: int) | CreatedThenGone(id: int)
    | NoStudent | NoOffering | AlreadyEnrolled | CodeDuplicate | IntegrityConflict

  /** `Stale` is a row deleted before the commit, `UpdatedThenGone` one deleted before the refresh. */
  datatype UpdateOutcome = Updated | UpdatedThenGone | UpdateMissing | UpdateConflict | UpdateStale

  predicate PairTaken(t: Tables, row: Enrollment) {
    exists id :: id in t.rows && SamePair(t.rows[id], row)
  }

  predicate CodeTaken(t: Tables, row: Enrollment) {
    exists id :: id in t.rows && t.rows[id].code == row.code
  }

  /** The row can be inserted at this instant. */
  predicate Insertable(t: Tables, row: Enrollment) {
    Allowed(t.rows[t.nextId := row], t.students, t.offerings)
  }

  /** The commit accepts a row exactly when the row is allowed by itself and its pair and its code are free. */
  lemma InsertableIff(t: Tables, row: Enrollment)
    requires Inv(t)
    ensures Insertable(t, row) <==>
              && row.studentId in t.students && row.offeringId in t.offerings
              && (row.grade.None? || 0 <= row.grade.value <= 100) && !(row.isActive && row.isWithdrawn)
              && (forall id | id in t.rows ::
                    && (t.rows[id].studentId != row.studentId || t.rows[id].offeringId != row.offeringId)
                    && t.rows[id].code != row.code)
    ensures Insertable(t, row) <==>
              RowAllowed(row, t.students, t.offerings) && !PairTaken(t, row) && !CodeTaken(t, row)
  {
    AllowedWith(t, t.nextId, row);
    assert t.nextId !in t.rows;
  }

  /** What the answer says about the tables. */
  predicate Reason(r: CreateOutcome, t: Tables, row: Enrollment) {
    match r
    case Created(_) => Insertable(t, row)
    case CreatedThenGone(_) => Insertable(t, row)
    case NoStudent => row.studentId !in t.students
    case NoOffering => row.offeringId !in t.offerings
    case AlreadyEnrolled =>
      exists id :: id in t.rows && t.rows[id].studentId == row.studentId && t.rows[id].offeringId == row.offeringId
    case CodeDuplicate => exists id :: id in t.rows && t.rows[id].code == row.code
    case IntegrityConflict => !Insertable(t, row)
  }

  /** The checks before the insert can only answer these. */
  predicate Refuses(r: CreateOutcome) {
    r.NoStudent? || r.NoOffering? || r.AlreadyEnrolled? || r.CodeDuplicate?
  }

  lemma ReasonRefuses(r: CreateOutcome, t: Tables, row: Enrollment)
    requires Inv(t) && Refuses(r) && Reason(r, t, row)
    ensures !Insertable(t, row)
  {
    InsertableIff(t, row);
  }

  /** The row was added to the tables `at`, nothing else was, and then the others ran once more. */
  ghost predicate Inserted(at: Tables, row: Enrollment, id: int, later: seq<Event>, after: Tables) {
    && id == at.nextId && Step(at, Insert(id, row)).rows == at.rows[id := row]
    && after == Run(Step(at, Insert(id, row)), later)
  }

  /** What a commit of `patch` to row `id` makes of the tables `at`, and what is answered after the
      refresh, before which the others ran once more. */
  ghost predicate Writing(at: Tables, id: int, patch: Patch, later: seq<Event>, after: Tables, r: UpdateOutcome) {
    if id !in at.rows then r.UpdateStale? && after == at
    else if !Accepts(at, Write(id, patch)) then r.UpdateConflict? && after == at
    else
      && after == Run(Step(at, Write(id, patch)), later)
      && r == if id in after.rows then Updated else UpdatedThenGone
  }

  /** The request read the tables `read` in its statement `n`, committed in `at` and left `after`. */
  ghost predicate UpdateDone(
    others: nat -> seq<Event>, n: nat, read: Tables, at: Tables, after: Tables, id: int, req: Patch, r: UpdateOutcome)
  {
    if id !in read.rows then r.UpdateMissing? && after == at == read
    else
      var patch := NetChange(read.rows[id], req);
      if patch == NO_COLUMNS then
        && at == read && after == Run(at, others(n + 1))
        && r == if id in after.rows then Updated else UpdatedThenGone
      else
        at == Run(read, others(n + 1)) && Writing(at, id, patch, others(n + 2), after, r)
  }

  /** With nobody else active everything requested is in place after a success. */
  lemma UpdatedAlone(
    others: nat -> seq<Event>, n: nat, read: Tables, at: Tables, after: Tables, id: int, req: Patch)
    requires Alone(others) && UpdateDone(others, n, read, at, after, id, req, Updated)
    ensures id in read.rows && id in after.rows && after.rows[id] == Patched(read.rows[id], req)
    ensures var row := after.rows[id];
            && (req.studentId.Some? ==> row.studentId == req.studentId.value)
            && (req.offeringId.Some? ==> row.offeringId == req.offeringId.value)
            && (req.code.Some? ==> row.code == req.code.value)
            && (req.grade.Some? ==> row.grade == req.grade)
            && (req.isActive.Some? ==> row.isActive == req.isActive.value)
            && (req.isWithdrawn.Some? ==> row.isWithdrawn == req.isWithdrawn.value)
  {
  }

  /** The create request with nothing in between. */
  function AtomicCreate(t: Tables, row: Enrollment): CreateOutcome {
    if row.studentId !in t.students then NoStudent
    else if row.offeringId !in t.offerings then NoOffering
    else if PairTaken(t, row) then AlreadyEnrolled
    else if CodeTaken(t, row) then CodeDuplicate
    else if Insertable(t, row) then Created(t.nextId)
    else IntegrityConflict
  }

  /** Without overlap: when a create succeeds, and what each refusal means.  The commit itself refuses a row
      only for a check constraint. */
  lemma AtomicCreateOutcome(t: Tables, row: Enrollment)
    requires Inv(t)
    ensures var r := AtomicCreate(t, row);
            var found := row.studentId in t.students && row.offeringId in t.offerings;
            var pair := exists id :: id in t.rows && t.rows[id].studentId == row.studentId
                                     && t.rows[id].offeringId == row.offeringId;
            var code := exists id :: id in t.rows && t.rows[id].code == row.code;
            var checks := (row.grade.None? || 0 <= row.grade.value <= 100) && !(row.isActive && row.isWithdrawn);
            && (r.NoStudent? <==> row.studentId !in t.students)
            && (r.NoOffering? <==> row.studentId in t.students && row.offeringId !in t.offerings)
            && (r.AlreadyEnrolled? <==> found && pair)
            && (r.CodeDuplicate? <==> found && !pair && code)
            && (r.IntegrityConflict? <==> found && !pair && !code && !checks)
            && (r == Created(t.nextId) <==> found && !pair && !code && checks)
  {
    InsertableIff(t, row);
    assert PairTaken(t, row) <==>
             exists id :: id in t.rows && t.rows[id].studentId == row.studentId
                          && t.rows[id].offeringId == row.offeringId;
  }

  /** What an update writes: a column it was asked to set to another value than it read, and no other. */
  lemma NetWriteColumns(read: Enrollment, now: Enrollment, req: Patch)
    ensures var row := Patched(now, NetChange(read, req));
            && row.studentId == (if req.studentId.Some? && req.studentId.value != read.studentId
                                 then req.studentId.value else now.studentId)
            && row.offeringId == (if req.offeringId.Some? && req.offeringId.value != read.offeringId
                                  then req.offeringId.value else now.offeringId)
            && row.code == (if req.code.Some? && req.code.value != read.code then req.code.value else now.code)
            && row.grade == (if req.grade.Some? && req.grade != read.grade then req.grade else now.grade)
            && row.isActive == (if req.isActive.Some? && req.isActive.value != read.isActive
                                then req.isActive.value else now.isActive)
            && row.isWithdrawn == (if req.isWithdrawn.Some? && req.isWithdrawn.value != read.isWithdrawn
                                   then req.isWithdrawn.value else now.isWithdrawn)
    ensures NetChange(read, req) == NO_COLUMNS <==>
              && (req.studentId.None? || req.studentId.value == read.studentId)
              && (req.offeringId.None? || req.offeringId.value == read.offeringId)
              && (req.code.None? || req.code.value == read.code)
              && (req.grade.None? || req.grade == read.grade)
              && (req.isActive.None? || req.isActive.value == read.isActive)
              && (req.isWithdrawn.None? || req.isWithdrawn.value == read.isWithdrawn)
  {
  }

  /** A commit that reaches the row is refused exactly if the row it would leave breaks a constraint. */
  lemma WriteAcceptedIff(t: Tables, id: int, p: Patch)
    requires Inv(t) && id in t.rows
    ensures var row := Patched(t.rows[id], p);
            Accepts(t, Write(id, p)) <==>
              && row.studentId in t.students && row.offeringId in t.offerings
              && (row.grade.None? || 0 <= row.grade.value <= 100) && !(row.isActive && row.isWithdrawn)
              && (forall other | other in t.rows && other != id ::
                    && (t.rows[other].studentId != row.studentId || t.rows[other].offeringId != row.offeringId)
                    && t.rows[other].code != row.code)
  {
    AllowedWith(t, id, Patched(t.rows[id], p));
  }

  class EnrollmentTable {
    const others: nat -> seq<Event>
    var rows: map<int, Enrollment>
    var students: set<int>
    var offerings: set<int>
    var nextId: int
    var statement: nat

    function State(): Tables
      reads this
    {
      Tables(rows, students, offerings, nextId)
    }

    constructor (others: nat -> seq<Event>, t: Tables)
      requires Inv(t)
      ensures this.others == others && State() == t
    {
      this.others, statement := others, 0;
      rows, students, offerings, nextId := t.rows, t.students, t.offerings, t.nextId;
    }

    /** Other requests run, then this request's next statement is executed. */
    method Enter()
      requires Inv(State())
      modifies this
      ensures Inv(State()) && statement == old(statement) + 1
      ensures State() == Run(old(State()), others(old(statement)))
    {
      RunKeepsInv(State(), others(statement));
      var next := Run(State(), others(statement));
      rows, students, offerings, nextId := next.rows, next.students, next.offerings, next.nextId;
      statement := statement + 1;
    }

    /** The check of the pair, and then of the code. */
    method CheckUnique(row: Enrollment) returns (r: Option<CreateOutcome>, ghost at: Tables, ghost k: nat)
      requires Inv(State())
      modifies this
      ensures Inv(State()) && State() == at
      ensures old(statement) <= k <= old(statement) + 1 && at == Met(old(State()), others, old(statement), k)
      ensures statement == k + 1
      ensures r.None? ==> k == old(statement) + 1
      ensures r.Some? ==> Refuses(r.value) && Reason(r.value, at, row)
      ensures Alone(others) ==>
                && at == old(State())
                && r == if PairTaken(at, row) then Some(AlreadyEnrolled)
                        else if CodeTaken(at, row) then Some(CodeDuplicate)
                        else None
    {
      r := None;
      Enter();
      at, k := State(), statement - 1;
      if exists id :: id in rows && SamePair(rows[id], row) {
        r := Some(AlreadyEnrolled);
      } else {
        Enter();
        at, k := State(), statement - 1;
        if exists id :: id in rows && rows[id].code == row.code {
          r := Some(CodeDuplicate);
        }
      }
    }

    /** The four checks before the insert, one statement each; none if all pass. */
    method CheckCreate(row: Enrollment) returns (r: Option<CreateOutcome>, ghost at: Tables, ghost k: nat)
      requires Inv(State())
      modifies this
      ensures Inv(State()) && State() == at
      ensures old(statement) <= k <= old(statement) + 3 && at == Met(old(State()), others, old(statement), k)
      ensures statement == k + 1
      ensures r.None? ==> k == old(statement) + 3
      ensures r.Some? ==> Refuses(r.value) && Reason(r.value, at, row)
      ensures Alone(others) && r.Some? ==> r.value == AtomicCreate(old(State()), row)
      ensures Alone(others) && r.None? ==> !Refuses(AtomicCreate(old(State()), row))
    {
      ghost var t, n := State(), statement;
      Enter();
      at, k := State(), n;
      if row.studentId !in students {
        r := Some(NoStudent);
      } else {
        Enter();
        at, k := State(), n + 1;
        if row.offeringId !in offerings {
          r := Some(NoOffering);
        } else {
          assert at == Met(t, others, n, n + 1);
          r, at, k := CheckUnique(row);
          MetFrom(t, others, n, n + 1, k);
        }
      }
    }

    /** db.commit() of the new row and the refresh. */
    method CommitInsert(row: Enrollment) returns (r: CreateOutcome, ghost at: Tables)
      requires Inv(State())
      modifies this
      ensures Inv(State()) && Inv(at) && at == Run(old(State()), others(old(statement)))
      ensures r.Created? || r.CreatedThenGone? || r.IntegrityConflict?
      ensures r.Created? || r.CreatedThenGone? ==>
                && Insertable(at, row) && Inserted(at, row, r.id, others(old(statement) + 1), State())
                && (r.Created? <==> r.id in rows)
      ensures r.IntegrityConflict? ==> !Insertable(at, row) && State() == at
      ensures r.IntegrityConflict? <==>
                !RowAllowed(row, at.students, at.offerings) || PairTaken(at, row) || CodeTaken(at, row)
      ensures Alone(others) ==> !r.CreatedThenGone?
    {
      Enter();
      at := State();
      InsertableIff(at, row);
      if Allowed(rows[nextId := row], students, offerings) {
        var id := nextId;
        rows, nextId := rows[id := row], id + 1;
        assert State() == Step(at, Insert(id, row));
        Enter();
        r := if id in rows then Created(id) else CreatedThenGone(id);
      } else {
        r := IntegrityConflict;
      }
    }

    /** Under any interleaving: statement `k` decides, on the tables `at` it meets, and the answer is yes
        exactly when the row can be inserted there.  Then the request has added its row and nothing else;
        otherwise it has written nothing at all, and its reason was true at that statement. */
    method CreateEnrollment(row: Enrollment) returns (r: CreateOutcome, ghost at: Tables, ghost k: nat)
      requires Inv(State())
      modifies this
      ensures Inv(State()) && Inv(at)
      ensures old(statement) <= k <= old(statement) + 4 && at == Met(old(State()), others, old(statement), k)
      ensures Reason(r, at, row) && (r.Created? || r.CreatedThenGone? <==> Insertable(at, row))
      ensures r.Created? || r.CreatedThenGone? ==> Inserted(at, row, r.id, others(k + 1), State())
                                                   && (r.Created? <==> r.id in rows)
      ensures !(r.Created? || r.CreatedThenGone?) ==> State() == at
      ensures Alone(others) ==> at == old(State()) && r == AtomicCreate(at, row)
    {
      ghost var t, n := State(), statement;
      var refusal;
      refusal, at, k := CheckCreate(row);
      if Alone(others) {
        MetAlone(t, others, n, k);
      }
      if refusal.Some? {
        r := refusal.value;
        ReasonRefuses(r, at, row);
      } else {
        InsertableIff(at, row);
        r, at := CommitInsert(row);
        k := k + 1;
      }
    }

    /** db.commit() of the changed columns and the refresh. */
    method CommitUpdate(id: int, patch: Patch) returns (r: UpdateOutcome, ghost at: Tables)
      requires Inv(State())
      modifies this
      ensures Inv(State()) && !r.UpdateMissing?
      ensures at == Run(old(State()), others(old(statement)))
      ensures Writing(at, id, patch, others(old(statement) + 1), State(), r)
      ensures Alone(others) && r.Updated? ==>
                id in rows && id in old(rows) && rows[id] == Patched(old(rows)[id], patch)
    {
      Enter();
      at := State();
      if id !in rows {
        r := UpdateStale;
      } else if !Allowed(rows[id := Patched(rows[id], patch)], students, offerings) {
        r := UpdateConflict;
      } else {
        rows := rows[id := Patched(rows[id], patch)];
        assert State() == Step(at, Write(id, patch));
        Enter();
        r := if id in rows then Updated else UpdatedThenGone;
      }
    }

    /** Reads the row, and at the commit sets the columns that differ from it as read; nothing else of the
        table is written, whatever the answer.  There is no version guard. */
    method UpdateEnrollment(id: int, req: Patch) returns (r: UpdateOutcome, ghost read: Tables, ghost at: Tables)
      requires Inv(State())
      modifies this
      ensures Inv(State())
      ensures read == Met(old(State()), others, old(statement), old(statement))
      ensures UpdateDone(others, old(statement), read, at, State(), id, req, r)
      ensures Alone(others) && r.Updated? ==>
                id in rows && id in old(rows) && rows[id] == Patched(old(rows)[id], req)
    {
      ghost var n := statement;
      Enter();
      read, at := State(), State();
      if id !in rows {
        r := UpdateMissing;
      } else {
        var patch := NetChange(rows[id], req);
        if patch == NO_COLUMNS {
          Enter();
          r := if id in rows then Updated else UpdatedThenGone;
        } else {
          r, at := CommitUpdate(id, patch);
        }
      }
      if Alone(others) && r.Updated? {
        UpdatedAlone(others, n, read, at, State(), id, req);
      }
    }

    /** Removes the row and nothing else; one that is gone at the commit already is no error. */
    method DeleteEnrollment(id: int) returns (found: bool, ghost read: Tables, ghost at: Tables)
      requires Inv(State())
      modifies this
      ensures Inv(State())
      ensures read == Met(old(State()), others, old(statement), old(statement))
      ensures found <==> id in read.rows
      ensures !found ==> State() == at == read
      ensures found ==> at == Run(read, others(old(statement) + 1)) && State() == Step(at, Remove(id))
      ensures id !in rows
    {
      Enter();
      read, at := State(), State();
      found := id in rows;
      if found {
        Enter();
        at := State();
        rows := rows - {id};
      }
    }
  }

  // ----- what the missing version guard costs

  /** All requested values are in the row. */
  predicate Holds(row: Enrollment, req: Patch) {
    Patched(row, req) == row
  }

  /** The part of a request that asks for what its reading has found. */
  function AlreadyThere(read: Enrollment, req: Patch): Patch {
    Patch(if req.studentId == Some(read.studentId) then req.studentId else None,
          if req.offeringId == Some(read.offeringId) then req.offeringId else None,
          if req.code == Some(read.code) then req.code else None,
          if req.grade == read.grade then req.grade else None,
          if req.isActive == Some(read.isActive) then req.isActive else None,
          if req.isWithdrawn == Some(read.isWithdrawn) then req.isWithdrawn else None)
  }

  /** Writing only the net change of an earlier reading delivers the request exactly when the requested
      columns it found equal are still equal in the row it writes to. */
  lemma RequestHoldsIff(read: Enrollment, now: Enrollment, req: Patch)
    ensures Holds(Patched(now, NetChange(read, req)), req) <==> Holds(now, AlreadyThere(read, req))
  {
  }

  /** No value others gave the row since the reading is replaced by the write. */
  predicate OthersSurvive(read: Enrollment, now: Enrollment, after: Enrollment) {
    && (now.studentId != read.studentId ==> after.studentId == now.studentId)
    && (now.offeringId != read.offeringId ==> after.offeringId == now.offeringId)
    && (now.code != read.code ==> after.code == now.code)
    && (now.grade != read.grade ==> after.grade == now.grade)
    && (now.isActive != read.isActive ==> after.isActive == now.isActive)
    && (now.isWithdrawn != read.isWithdrawn ==> after.isWithdrawn == now.isWithdrawn)
  }

  /** Every column the patch sets has in `now` the value it was read with, or already the new one. */
  predicate SetsOnlySeen(p: Patch, read: Enrollment, now: Enrollment) {
    && (p.studentId.Some? ==> now.studentId == read.studentId || p.studentId == Some(now.studentId))
    && (p.offeringId.Some? ==> now.offeringId == read.offeringId || p.offeringId == Some(now.offeringId))
    && (p.code.Some? ==> now.code == read.code || p.code == Some(now.code))
    && (p.grade.Some? ==> now.grade == read.grade || p.grade == now.grade)
    && (p.isActive.Some? ==> now.isActive == read.isActive || p.isActive == Some(now.isActive))
    && (p.isWithdrawn.Some? ==> now.isWithdrawn == read.isWithdrawn || p.isWithdrawn == Some(now.isWithdrawn))
  }

  /** A commit replaces no committed value its request had not read exactly when no column of its net
      change has moved since the reading (other than to the very value it writes). */
  lemma OverwritesNothingIff(read: Enrollment, now: Enrollment, req: Patch)
    ensures OthersSurvive(read, now, Patched(now, NetChange(read, req)))
            <==> SetsOnlySeen(NetChange(read, req), read, now)
  {
  }

  /** The writes that took effect on the row, in commit order. */
  function Writes(t: Tables, es: seq<Event>, id: int): seq<Patch>
    decreases |es|
  {
    if es == [] then []
    else
      var rest := Writes(Step(t, es[0]), es[1..], id);
      if es[0].Write? && es[0].id == id && Accepts(t, es[0]) then [es[0].patch] + rest else rest
  }

  function PatchedBy(row: Enrollment, ps: seq<Patch>): Enrollment
    decreases |ps|
  {
    if ps == [] then row else PatchedBy(Patched(row, ps[0]), ps[1..])
  }

  lemma RowAfterStep(t: Tables, e: Event, id: int)
    requires Inv(t) && id in t.rows
    ensures Inv(Step(t, e))
    ensures id in Step(t, e).rows ==>
              Step(t, e).rows[id] == if e.Write? && e.id == id && Accepts(t, e) then Patched(t.rows[id], e.patch)
                                     else t.rows[id]
  {
  }

  lemma {:induction false} GoneForGood(t: Tables, es: seq<Event>, id: int)
    requires Inv(t) && id !in t.rows && id < t.nextId
    ensures id !in Run(t, es).rows
    decreases |es|
  {
    if es != [] {
      RunKeepsInv(t, [es[0]]);
      assert [es[0]][1..] == [] && Run(t, [es[0]]) == Step(t, es[0]);
      GoneForGood(Step(t, es[0]), es[1..], id);
    }
  }

  /** Over any run a surviving row is every write in commit order; no write disappears from that order. */
  lemma {:induction false} RowIsFold(t: Tables, es: seq<Event>, id: int)
    requires Inv(t) && id in t.rows && id in Run(t, es).rows
    ensures Run(t, es).rows[id] == PatchedBy(t.rows[id], Writes(t, es, id))
    decreases |es|
  {
    if es != [] {
      var u := Step(t, es[0]);
      RowAfterStep(t, es[0], id);
      if id !in u.rows {
        GoneForGood(u, es[1..], id);
      } else {
        RowIsFold(u, es[1..], id);
        if es[0].Write? && es[0].id == id && Accepts(t, es[0]) {
          assert Writes(t, es, id)[1..] == Writes(u, es[1..], id);
        }
      }
    }
  }

  /** The patches set no common column. */
  predicate Apart(p: Patch, q: Patch) {
    && (p.studentId.None? || q.studentId.None?) && (p.offeringId.None? || q.offeringId.None?)
    && (p.code.None? || q.code.None?) && (p.grade.None? || q.grade.None?)
    && (p.isActive.None? || q.isActive.None?) && (p.isWithdrawn.None? || q.isWithdrawn.None?)
  }

  predicate SameWhereSet(p: Patch, a: Enrollment, b: Enrollment) {
    && (p.studentId.Some? ==> a.studentId == b.studentId) && (p.offeringId.Some? ==> a.offeringId == b.offeringId)
    && (p.code.Some? ==> a.code == b.code) && (p.grade.Some? ==> a.grade == b.grade)
    && (p.isActive.Some? ==> a.isActive == b.isActive) && (p.isWithdrawn.Some? ==> a.isWithdrawn == b.isWithdrawn)
  }

  lemma {:induction false} ApartLeavesColumns(p: Patch, row: Enrollment, ps: seq<Patch>)
    requires forall q | q in ps :: Apart(p, q)
    ensures SetsOnlySeen(p, row, PatchedBy(row, ps)) && SameWhereSet(p, row, PatchedBy(row, ps))
    decreases |ps|
  {
    if ps != [] {
      assert ps[0] in ps && forall q | q in ps[1..] :: q in ps;
      ApartLeavesColumns(p, Patched(row, ps[0]), ps[1..]);
    }
  }

  /** Over runs: whatever others commit between the reading and the write, the request is delivered exactly
      when what it found equal still is, and their values survive it exactly when it sets only columns as
      read; with writes that set no common column both always hold. */
  lemma UpdatesKeptIff(t: Tables, es: seq<Event>, id: int, req: Patch)
    requires Inv(t) && id in t.rows && id in Run(t, es).rows
    ensures var read, now := t.rows[id], Run(t, es).rows[id];
            var after := Patched(now, NetChange(read, req));
            && now == PatchedBy(read, Writes(t, es, id))
            && (Holds(after, req) <==> Holds(now, AlreadyThere(read, req)))
            && (OthersSurvive(read, now, after) <==> SetsOnlySeen(NetChange(read, req), read, now))
            && ((forall q | q in Writes(t, es, id) :: Apart(req, q)) ==>
                  OthersSurvive(read, now, after) && Holds(after, req))
  {
    var read := t.rows[id];
    RowIsFold(t, es, id);
    OverwritesNothingIff(read, Run(t, es).rows[id], req);
    RequestHoldsIff(read, Run(t, es).rows[id], req);
    if forall q | q in Writes(t, es, id) :: Apart(req, q) {
      ApartLeavesColumns(req, read, Writes(t, es, id));
    }
  }

  /** First way to lose an update: a request that sets a grade to the value it reads is answered with
      success, and yet another request's grade stays. */
  lemma GradeUpdateLost()
    ensures exists t: Tables, other: Event, req: Patch :: Inv(t) && 1 in t.rows && Accepts(t, other) &&
              var now := Step(t, other);
              1 in now.rows && Accepts(now, Write(1, NetChange(t.rows[1], req)))
              && !Holds(Step(now, Write(1, NetChange(t.rows[1], req))).rows[1], req)
  {
    var row := Enrollment(1, 1, "E", Some(50), true, false);
    var t := Tables(map[1 := row], {1}, {1}, 2);
    var req := NO_COLUMNS.(grade := Some(50));
    var other := Write(1, req.(grade := Some(70)));
    var now := Step(t, other);
    assert now.rows[1].grade == Some(70);
    assert Step(now, Write(1, NetChange(row, req))).rows[1].grade == Some(70);
  }

  /** Second way: two requests read the same grade and both set it; both are answered with success and
      hold right after their own commit, and the first one's grade is gone, unseen by the second. */
  lemma GradeOverwritten()
    ensures exists t: Tables, a: Patch, b: Patch :: Inv(t) && 1 in t.rows &&
              var read := t.rows[1];
              var first := Write(1, NetChange(read, a));
              Accepts(t, first) && 1 in Step(t, first).rows && Holds(Step(t, first).rows[1], a) &&
              var now := Step(t, first);
              var second := Write(1, NetChange(read, b));
              Accepts(now, second) && 1 in Step(now, second).rows && Holds(Step(now, second).rows[1], b)
              && !Holds(Step(now, second).rows[1], a) && !OthersSurvive(read, now.rows[1], Step(now, second).rows[1])
  {
    var row := Enrollment(1, 1, "E", Some(50), true, false);
    var t := Tables(map[1 := row], {1}, {1}, 2);
    var a, b := NO_COLUMNS.(grade := Some(60)), NO_COLUMNS.(grade := Some(70));
    assert NetChange(row, a) == a && NetChange(row, b) == b;
    var now := Step(t, Write(1, a));
    assert now.rows[1] == row.(grade := Some(60));
    assert Step(now, Write(1, b)).rows[1] == row.(grade := Some(70));
    assert Holds(now.rows[1], a) && Holds(Step(now, Write(1, b)).rows[1], b);
  }
}
