/**
 The two generations of the session table (`session` = V1, `session_v2` = V2) and the shadow
 table `_devhatch_session_lineage`, which six triggers and one reconciliation pass keep.
 */
module Lineage {
  import opened Prelude
  import ForeignKeys

  type Id = string

  datatype Generation = V1 | V2

  /** One row of either session table; the id is the table's key. `body` holds the other columns,
      which only foreign keys of other tables may inspect. */
  datatype SessionRow = SessionRow(created: int, updated: int, parent: Option<Id>,
                                   archived: Option<int>, body: ForeignKeys.Row)

  /** One row of the lineage table. `None` is SQL NULL; the three flags are CHECKed 0/1 columns. */
  datatype LineageRow = LineageRow(v1Created: Option<int>, v1Updated: Option<int>,
                                   v2Created: Option<int>, v2Updated: Option<int>,
                                   v1Present: bool, v2Present: bool, v2Deleted: bool)

  type Sessions = map<Id, SessionRow>
  type LineageTable = map<Id, LineageRow>

  datatype Tables = Tables(v1: Sessions, v2: Sessions, lineage: LineageTable) {
    function Of(generation: Generation): Sessions {
      if generation == V1 then v1 else v2
    }

    function With(generation: Generation, rows: Sessions): Tables {
      if generation == V1 then this.(v1 := rows) else this.(v2 := rows)
    }
  }

  // ----- SQL comparisons: a NULL operand makes them unknown, which CASE sends to ELSE -----

  predicate SqlEqual(a: Option<int>, b: Option<int>) {
    a.Some? && b.Some? && a.value == b.value
  }

  predicate SqlAtMost(a: Option<int>, b: Option<int>) {
    a.Some? && b.Some? && a.value <= b.value
  }

  // ----- What each trigger does to the lineage row of one id -----

  /** DELETE ... WHERE v1_present = 0 AND v2_present = 0 AND v2_deleted = 0. */
  function Kept(row: LineageRow): Option<LineageRow> {
    if !row.v1Present && !row.v2Present && !row.v2Deleted then None else Some(row)
  }

  function KeptIfAny(row: Option<LineageRow>): Option<LineageRow> {
    if row.Some? then Kept(row.value) else None
  }

  function V1Written(row: Option<LineageRow>, s: SessionRow): LineageRow {
    match row
    case None => LineageRow(Some(s.created), Some(s.updated), None, None, true, false, false)
    case Some(r) =>
      r.(v1Created := Some(s.created), v1Updated := Some(s.updated), v1Present := true,
         v2Deleted := r.v2Deleted && SqlEqual(r.v1Created, Some(s.created))
                      && SqlAtMost(Some(s.updated), r.v2Updated))
  }

  function V1Removed(row: Option<LineageRow>): Option<LineageRow> {
    if row.Some? then Kept(row.value.(v1Present := false)) else None
  }

  function V2Written(row: Option<LineageRow>, s: SessionRow): LineageRow {
    match row
    case None => LineageRow(None, None, Some(s.created), Some(s.updated), false, true, false)
    case Some(r) =>
      r.(v2Created := Some(s.created), v2Updated := Some(s.updated), v2Present := true,
         v2Deleted := false)
  }

  function V2Removed(row: Option<LineageRow>, s: SessionRow): Option<LineageRow> {
    match row
    case None => None
    case Some(r) =>
      Kept(r.(v2Created := Some(s.created), v2Updated := Some(s.updated), v2Present := false,
              v2Deleted := r.v1Present && SqlEqual(r.v1Created, Some(s.created))
                           && SqlAtMost(r.v1Updated, Some(s.updated))))
  }

  function Written(generation: Generation, row: Option<LineageRow>, s: SessionRow): LineageRow {
    if generation == V1 then V1Written(row, s) else V2Written(row, s)
  }

  function Removed(generation: Generation, row: Option<LineageRow>, s: SessionRow): Option<LineageRow> {
    if generation == V1 then V1Removed(row) else V2Removed(row, s)
  }

  // ----- Statements and what they do to the three tables -----

  datatype Statement =
    | Insert(generation: Generation, id: Id, row: SessionRow)
    | Replace(generation: Generation, id: Id, row: SessionRow)
    | Update(generation: Generation, id: Id, newId: Id, row: SessionRow)
    | Edit(generation: Generation, id: Id, parent: Option<Id>, archived: Option<int>, body: ForeignKeys.Row)
    | Delete(generation: Generation, id: Id)

  /** What the first two statements of an update trigger leave of the old id's lineage row. */
  function Departed(generation: Generation, row: Option<LineageRow>, gone: SessionRow,
                    renamed: bool): Option<LineageRow> {
    if generation == V2 then V2Removed(row, gone)
    else if renamed then V1Removed(row)
    else KeptIfAny(row)
  }

  /** The tables after one statement. A primary-key conflict leaves them unchanged. */
  function Step(db: Tables, s: Statement): Tables {
    var g := s.generation;
    var rows := db.Of(g);
    match s
    case Insert(_, id, row) =>
      if id in rows then db else
        db.With(g, rows[id := row]).(lineage := db.lineage[id := Written(g, Get(db.lineage, id), row)])
    case Replace(_, id, row) =>
      db.With(g, rows[id := row]).(lineage := db.lineage[id := Written(g, Get(db.lineage, id), row)])
    case Update(_, id, newId, row) =>
      if id !in rows || (newId != id && newId in rows) then db else
        var left := Put(db.lineage, id, Departed(g, Get(db.lineage, id), rows[id], id != newId));
        db.With(g, (rows - {id})[newId := row])
          .(lineage := left[newId := Written(g, Get(left, newId), row)])
    case Edit(_, id, parent, archived, body) =>
      if id !in rows then db else
        db.With(g, rows[id := rows[id].(parent := parent, archived := archived, body := body)])
    case Delete(_, id) =>
      if id !in rows then db else
        db.With(g, rows - {id}).(lineage := Put(db.lineage, id, Removed(g, Get(db.lineage, id), rows[id])))
  }

  function Run(db: Tables, statements: seq<Statement>): Tables
    decreases |statements|
  {
    if statements == [] then db
    else Step(Run(db, statements[..|statements| - 1]), statements[|statements| - 1])
  }

  // ----- The database object: statements and trigger bodies, executed in order -----

  class Database {
    var session: Sessions
    var sessionV2: Sessions
    var lineage: LineageTable

    function State(): Tables
      reads this
    {
      Tables(session, sessionV2, lineage)
    }

    constructor (tables: Tables)
      ensures State() == tables
    {
      session, sessionV2, lineage := tables.v1, tables.v2, tables.lineage;
    }

    /** INSERT ... ON CONFLICT(session_id) DO UPDATE, as both V1 triggers end. */
    method UpsertV1(id: Id, s: SessionRow)
      modifies this`lineage
      ensures lineage == old(lineage)[id := V1Written(Get(old(lineage), id), s)]
    {
      if id !in lineage {
        lineage := lineage[id := LineageRow(Some(s.created), Some(s.updated), None, None, true, false, false)];
      } else {
        var r := lineage[id];
        var tombstone := if r.v2Deleted && SqlEqual(r.v1Created, Some(s.created))
                            && SqlAtMost(Some(s.updated), r.v2Updated) then true else false;
        lineage := lineage[id := r.(v1Created := Some(s.created), v1Updated := Some(s.updated),
                                    v1Present := true, v2Deleted := tombstone)];
      }
    }

    /** INSERT ... ON CONFLICT(session_id) DO UPDATE, as both V2 triggers end. */
    method UpsertV2(id: Id, s: SessionRow)
      modifies this`lineage
      ensures lineage == old(lineage)[id := V2Written(Get(old(lineage), id), s)]
    {
      if id !in lineage {
        lineage := lineage[id := LineageRow(None, None, Some(s.created), Some(s.updated), false, true, false)];
      } else {
        lineage := lineage[id := lineage[id].(v2Created := Some(s.created), v2Updated := Some(s.updated),
                                              v2Present := true, v2Deleted := false)];
      }
    }

    method DropIfEmpty(id: Id)
      modifies this`lineage
      ensures lineage == Put(old(lineage), id, KeptIfAny(Get(old(lineage), id)))
    {
      if id in lineage && !lineage[id].v1Present && !lineage[id].v2Present && !lineage[id].v2Deleted {
        lineage := lineage - {id};
      }
    }

    method ClearV1(id: Id)
      modifies this`lineage
      ensures lineage == Put(old(lineage), id, V1Removed(Get(old(lineage), id)))
    {
      if id in lineage {
        lineage := lineage[id := lineage[id].(v1Present := false)];
      }
      DropIfEmpty(id);
    }

    method ClearV2(id: Id, s: SessionRow)
      modifies this`lineage
      ensures lineage == Put(old(lineage), id, V2Removed(Get(old(lineage), id), s))
    {
      if id in lineage {
        var r := lineage[id];
        var tombstone := if r.v1Present && SqlEqual(r.v1Created, Some(s.created))
                            && SqlAtMost(r.v1Updated, Some(s.updated)) then true else false;
        lineage := lineage[id := r.(v2Created := Some(s.created), v2Updated := Some(s.updated),
                                    v2Present := false, v2Deleted := tombstone)];
      }
      DropIfEmpty(id);
    }

    method FireInsert(g: Generation, id: Id, s: SessionRow)
      modifies this`lineage
      ensures lineage == old(lineage)[id := Written(g, Get(old(lineage), id), s)]
    {
      if g == V1 { UpsertV1(id, s); } else { UpsertV2(id, s); }
    }

    method FireUpdate(g: Generation, id: Id, oldRow: SessionRow, newId: Id, s: SessionRow)
      modifies this`lineage
      ensures var left := Put(old(lineage), id, Departed(g, Get(old(lineage), id), oldRow, id != newId));
              lineage == left[newId := Written(g, Get(left, newId), s)]
    {
      if g == V2 {
        ClearV2(id, oldRow);
      } else if id != newId {
        ClearV1(id);
      } else {
        DropIfEmpty(id);
      }
      FireInsert(g, newId, s);
    }

    method FireDelete(g: Generation, id: Id, s: SessionRow)
      modifies this`lineage
      ensures lineage == Put(old(lineage), id, Removed(g, Get(old(lineage), id), s))
    {
      if g == V1 { ClearV1(id); } else { ClearV2(id, s); }
    }

    method Store(g: Generation, rows: Sessions)
      modifies this`session, this`sessionV2
      ensures State() == old(State()).With(g, rows)
    {
      if g == V1 { session := rows; } else { sessionV2 := rows; }
    }

    /** Executes one statement with the triggers it fires; `ok` is false on a key conflict. */
    method Execute(s: Statement) returns (ok: bool)
      modifies this
      ensures State() == Step(old(State()), s)
      ensures !ok ==> State() == old(State())
      ensures var rows := old(State()).Of(s.generation);
              !ok <==> (s.Insert? && s.id in rows)
                       || (s.Update? && s.id in rows && s.newId != s.id && s.newId in rows)
    {
      var g := s.generation;
      var rows := State().Of(g);
      ok := true;
      match s
      case Insert(_, id, row) =>
        if id in rows { return false; }
        Store(g, rows[id := row]);
        FireInsert(g, id, row);
      case Replace(_, id, row) =>
        // The displaced row goes without its delete trigger: recursive triggers are off.
        Store(g, rows[id := row]);
        FireInsert(g, id, row);
      case Update(_, id, newId, row) =>
        if id !in rows { return; }
        if newId != id && newId in rows { return false; }
        Store(g, (rows - {id})[newId := row]);
        FireUpdate(g, id, rows[id], newId, row);
      case Edit(_, id, parent, archived, body) =>
        // Sets none of id, time_created, time_updated, so no trigger fires.
        if id !in rows { return; }
        Store(g, rows[id := rows[id].(parent := parent, archived := archived, body := body)]);
      case Delete(_, id) =>
        if id !in rows { return; }
        Store(g, rows - {id});
        FireDelete(g, id, rows[id]);
    }

    /** INSERT ... SELECT ... FROM session ... ON CONFLICT DO UPDATE. */
    method AdoptV1()
      modifies this`lineage
      ensures forall id :: Get(lineage, id) == AdoptedV1(Get(old(lineage), id), Get(session, id))
    {
      lineage := map id | id in lineage.Keys + session.Keys ::
        if id in session then V1Written(Get(lineage, id), session[id]) else lineage[id];
    }

    /** INSERT ... SELECT ... FROM session_v2 ... ON CONFLICT DO UPDATE. */
    method AdoptV2()
      modifies this`lineage
      ensures forall id :: Get(lineage, id) == AdoptedV2(Get(old(lineage), id), Get(sessionV2, id))
    {
      lineage := map id | id in lineage.Keys + sessionV2.Keys ::
        if id in sessionV2 then V2Written(Get(lineage, id), sessionV2[id]) else lineage[id];
    }

    /** UPDATE ... SET v1_present = 0 WHERE the row's V1 copy is not in `session`. */
    method ForgetV1()
      modifies this`lineage
      ensures forall id :: Get(lineage, id) == ForgottenV1(Get(old(lineage), id), Get(session, id))
    {
      lineage := map id | id in lineage ::
        if lineage[id].v1Present && !(id in session && SqlEqual(Some(session[id].created), lineage[id].v1Created))
        then lineage[id].(v1Present := false) else lineage[id];
    }

    /** UPDATE ... SET v2_present = 0, v2_deleted = ... WHERE the V2 copy is not in `session_v2`. */
    method ForgetV2()
      modifies this`lineage
      ensures forall id :: Get(lineage, id) == ForgottenV2(Get(old(lineage), id), Get(sessionV2, id))
    {
      lineage := map id | id in lineage ::
        if lineage[id].v2Present && !(id in sessionV2 && SqlEqual(Some(sessionV2[id].created), lineage[id].v2Created))
        then lineage[id].(v2Present := false,
                          v2Deleted := lineage[id].v1Present
                                       && SqlEqual(lineage[id].v1Created, lineage[id].v2Created)
                                       && SqlAtMost(lineage[id].v1Updated, lineage[id].v2Updated))
        else lineage[id];
    }

    /** DELETE ... WHERE all three flags are 0. */
    method DropEmpty()
      modifies this`lineage
      ensures forall id :: Get(lineage, id) == KeptIfAny(Get(old(lineage), id))
    {
      lineage := map id | id in lineage && Kept(lineage[id]).Some? :: lineage[id];
    }

    /** The five table-wide statements of one reconciliation pass. */
    method Reconcile()
      modifies this`lineage
      ensures State() == Reconciled(old(State()))
    {
      AdoptV1();
      AdoptV2();
      ForgetV1();
      ForgetV2();
      DropEmpty();
      RowsAgree(lineage, old(State()));
    }
  }

  // ----- The reconciliation pass, row by row -----

  function ForgottenV1(row: Option<LineageRow>, s: Option<SessionRow>): (r: Option<LineageRow>)
    ensures r.Some? == row.Some?
  {
    if row.Some? && row.value.v1Present && !(s.Some? && SqlEqual(Some(s.value.created), row.value.v1Created))
    then Some(row.value.(v1Present := false)) else row
  }

  function ForgottenV2(row: Option<LineageRow>, s: Option<SessionRow>): (r: Option<LineageRow>)
    ensures r.Some? == row.Some?
  {
    if row.Some? && row.value.v2Present && !(s.Some? && SqlEqual(Some(s.value.created), row.value.v2Created))
    then Some(row.value.(v2Present := false,
                         v2Deleted := row.value.v1Present && SqlEqual(row.value.v1Created, row.value.v2Created)
                                      && SqlAtMost(row.value.v1Updated, row.value.v2Updated)))
    else row
  }

  function AdoptedV1(row: Option<LineageRow>, s: Option<SessionRow>): Option<LineageRow> {
    if s.Some? then Some(V1Written(row, s.value)) else row
  }

  function AdoptedV2(row: Option<LineageRow>, s: Option<SessionRow>): Option<LineageRow> {
    if s.Some? then Some(V2Written(row, s.value)) else row
  }

  /** One id's lineage row after the five statements. */
  function ReconciledRow(s1: Option<SessionRow>, s2: Option<SessionRow>, row: Option<LineageRow>): Option<LineageRow> {
    KeptIfAny(ForgottenV2(ForgottenV1(AdoptedV2(AdoptedV1(row, s1), s2), s1), s2))
  }

  function Reconciled(db: Tables): (r: Tables)
    ensures r.v1 == db.v1 && r.v2 == db.v2
    ensures forall id :: Get(r.lineage, id) == ReconciledRow(Get(db.v1, id), Get(db.v2, id), Get(db.lineage, id))
  {
    db.(lineage := map id | id in db.lineage.Keys + db.v1.Keys + db.v2.Keys
                         && ReconciledRow(Get(db.v1, id), Get(db.v2, id), Get(db.lineage, id)).Some?
                   :: ReconciledRow(Get(db.v1, id), Get(db.v2, id), Get(db.lineage, id)).value)
  }

  /** A lineage table whose every row is the reconciled one is the reconciled table. */
  lemma RowsAgree(lineage: LineageTable, db: Tables)
    requires forall id :: Get(lineage, id) == ReconciledRow(Get(db.v1, id), Get(db.v2, id), Get(db.lineage, id))
    ensures lineage == Reconciled(db).lineage
  {
    MapsEqual(lineage, Reconciled(db).lineage);
  }

  lemma MapsEqual<V>(a: map<Id, V>, b: map<Id, V>)
    requires forall id :: Get(a, id) == Get(b, id)
    ensures a == b
  {
    forall id ensures id in a <==> id in b { assert Get(a, id) == Get(b, id); }
    forall id | id in a ensures a[id] == b[id] { assert Get(a, id) == Get(b, id); }
  }

  // ----- The lineage invariant -----

  /** What the lineage row of an id says agrees with the two session tables. */
  predicate PresenceAgrees(s1: Option<SessionRow>, s2: Option<SessionRow>, row: Option<LineageRow>) {
    && (s1.Some? <==> row.Some? && row.value.v1Present)
    && (s2.Some? <==> row.Some? && row.value.v2Present)
    && (s1.Some? ==> row.value.v1Created == Some(s1.value.created) && row.value.v1Updated == Some(s1.value.updated))
    && (s2.Some? ==> row.value.v2Created == Some(s2.value.created) && row.value.v2Updated == Some(s2.value.updated))
    && (row.Some? ==> Kept(row.value).Some?)
  }

  /** A tombstone records a V2 removal over an older or equal V1 copy. The V2 creation time may
      still be NULL on a row that the schema upgrade brought in. */
  predicate TombstoneSound(row: LineageRow) {
    row.v2Deleted ==>
      && !row.v2Present
      && SqlAtMost(row.v1Updated, row.v2Updated)
      && row.v1Created.Some?
      && (row.v2Created == row.v1Created || row.v2Created == None)
  }

  predicate CellConsistent(s1: Option<SessionRow>, s2: Option<SessionRow>, row: Option<LineageRow>) {
    PresenceAgrees(s1, s2, row) && (row.Some? ==> TombstoneSound(row.value))
  }

  predicate ConsistentAt(db: Tables, id: Id) {
    CellConsistent(Get(db.v1, id), Get(db.v2, id), Get(db.lineage, id))
  }

  ghost predicate Consistent(db: Tables) {
    forall id :: ConsistentAt(db, id)
  }

  /** A statement's effect on one id, read off the row automaton. */
  ghost predicate StepAt(db: Tables, s: Statement, id: Id) {
    var db' := Step(db, s);
    var g := s.generation;
    var here, row := Get(db.Of(g), id), Get(db.lineage, id);
    var here', row' := Get(db'.Of(g), id), Get(db'.lineage, id);
    && Get(db'.Of(if g == V1 then V2 else V1), id) == Get(db.Of(if g == V1 then V2 else V1), id)
    && (|| (here'.Some? && row' == Some(Written(g, row, here'.value)))
        || (here.Some? && here'.None? && row' == Removed(g, row, here.value))
        || (here.Some? && here'.Some?
            && row' == Some(Written(g, Departed(g, row, here.value, false), here'.value)))
        || (row' == row && (here' == here
                            || (here.Some? && here'.Some? && here'.value.created == here.value.created
                                && here'.value.updated == here.value.updated))))
  }

  lemma StepEffect(db: Tables, s: Statement, id: Id)
    ensures StepAt(db, s, id)
  {
  }

  lemma CellStepConsistent(g: Generation, s1: Option<SessionRow>, s2: Option<SessionRow>, row: Option<LineageRow>)
    requires CellConsistent(s1, s2, row)
    ensures forall s :: g == V1 ==> CellConsistent(Some(s), s2, Some(V1Written(row, s)))
    ensures forall s :: g == V2 ==> CellConsistent(s1, Some(s), Some(V2Written(row, s)))
    ensures s1.Some? ==> CellConsistent(None, s2, V1Removed(row))
    ensures s2.Some? ==> CellConsistent(s1, None, V2Removed(row, s2.value))
  {
  }

  lemma StepKeepsConsistent(db: Tables, s: Statement)
    requires Consistent(db)
    ensures Consistent(Step(db, s))
  {
    forall id ensures ConsistentAt(Step(db, s), id) {
      assert ConsistentAt(db, id);
      var s1, s2, row := Get(db.v1, id), Get(db.v2, id), Get(db.lineage, id);
      StepEffect(db, s, id);
      CellStepConsistent(s.generation, s1, s2, row);
      if s.generation == V2 && s2.Some? {
        CellStepConsistent(V2, s1, None, V2Removed(row, s2.value));
      }
    }
  }

  lemma {:induction false} RunKeepsConsistent(db: Tables, statements: seq<Statement>)
    requires Consistent(db)
    ensures Consistent(Run(db, statements))
    decreases |statements|
  {
    if statements != [] {
      RunKeepsConsistent(db, statements[..|statements| - 1]);
      StepKeepsConsistent(Run(db, statements[..|statements| - 1]), statements[|statements| - 1]);
    }
  }
}
