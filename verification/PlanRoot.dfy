/**
 The root that a deletion is planned from is the copy that resuming finds in the same database, and
 when a plan can be made.
 */
module PlanRoot {
  import opened Prelude
  import opened ForeignKeys
  import opened Lineage
  import opened Merge
  import opened SessionTrees
  import opened Deletion
  import CascadeWalk
  import CascadeGraph

  // ----- The same database as a reader finds it -----

  /** The rows, in any order, are the cells of the table's rows. */
  ghost predicate RowsAre(rows: seq<Row>, sessions: Sessions) {
    Keyed(rows) && forall row :: row in rows <==> exists id :: id in sessions && row == SessionCells(id, sessions[id])
  }

  ghost predicate ObjectIs(o: Option<Object>, shape: Shape, sessions: Sessions) {
    match shape
    case Missing => o.None? || !o.value.isTable
    case Unfit => o.Some? && o.value.isTable && !(REQUIRED_COLUMNS <= o.value.all)
    case Fit => o.Some? && o.value.isTable && REQUIRED_COLUMNS <= o.value.all && RowsAre(o.value.rows, sessions)
  }

  /** What a reader finds in the database of the snapshot. */
  ghost predicate HistoryOf(h: History, s: Snapshot) {
    && ObjectIs(h.v2, s.schema.v2, s.tables.v2) && ObjectIs(h.v1, s.schema.v1, s.tables.v1)
    && h.tombstones == TombstonesOf(s.tables.lineage)
  }

  /** A row with its cells beside it. */
  function WithCells(id: Id, row: Option<SessionRow>): Option<SessionRow> {
    match row case None => None case Some(r) => Some(r.(body := SessionCells(id, r)))
  }

  lemma FoundCells(rows: seq<Row>, sessions: Sessions, id: Id)
    requires RowsAre(rows, sessions)
    ensures BrokenAt(rows, id) <==> id in sessions && !Decodes(sessions[id])
    ensures !BrokenAt(rows, id) ==> Find(DecodedRows(rows), id) == WithCells(id, Get(sessions, id))
  {
    LookedUp(rows, id);
    RowAtIs(rows, id);
    hide DecodedRows, Find, RowAt, BrokenAt, Decoded, Decodes;
    forall x | x in sessions ensures CellOf(SessionCells(x, sessions[x]), IdColumn) == Text(x) {}
    if id in sessions {
      assert SessionCells(id, sessions[id]) in rows;
      CellsDecode(id, sessions[id]);
    }
    if RowAt(rows, id).Some? {
      var x :| x in sessions && RowAt(rows, id).value == SessionCells(x, sessions[x]);
      assert x == id;
    }
  }

  lemma CopiesOf(o: Option<Object>, shape: Shape, sessions: Sessions, id: Id)
    requires ObjectIs(o, shape, sessions) && !shape.Unfit? && (shape.Missing? ==> sessions == map[])
    ensures !Lacking(o) && (Readable(o) <==> shape.Fit?)
    ensures Readable(o) ==> (BrokenAt(o.value.rows, id) <==> id in sessions && !Decodes(sessions[id]))
    ensures !(Readable(o) && BrokenAt(o.value.rows, id)) ==>
              Find(ResumeRows(o), id) == WithCells(id, Get(sessions, id))
  {
    if shape.Fit? { FoundCells(o.value.rows, sessions, id); }
  }

  lemma MergedWithCells(v2: Option<SessionRow>, v1: Option<SessionRow>, hidden: Option<int>, id: Id)
    ensures var m := Merged(v2, v1, hidden);
            Merged(WithCells(id, v2), WithCells(id, v1), hidden) ==
            match m case None => None
                    case Some(t) => Some(Selection(t.table, t.row.(body := SessionCells(id, t.row))))
  {
  }

  /** Planning looks for its root as resuming does: it fails on the same databases, and finds the
      same copy. */
  lemma RootIsFound(s: Snapshot, h: History, id: Id, r: Result<Option<Selection>, ()>)
    requires WellFormed(s) && HistoryOf(h, s) && ResumeResult(h, id, r)
    ensures r.Err? <==> Unreadable(s, id)
    ensures r.Ok? ==> (r.value.Some? <==> RootFor(s, id).Some?)
    ensures r.Ok? && r.value.Some? ==>
              var root := RootFor(s, id).value;
              && root.table == r.value.value.table && root.id == id
              && root.row.(body := SessionCells(id, root.row)) == r.value.value.row
  {
    assert s.schema.v1.Missing? ==> s.tables.v1 == map[];
    assert s.schema.v2.Missing? ==> s.tables.v2 == map[];
    hide WellFormed, RowsAre, DecodedRows, Find, BrokenAt, TombstonesOf, ResumeRows, REQUIRED_COLUMNS;
    if !s.schema.v1.Unfit? { CopiesOf(h.v1, s.schema.v1, s.tables.v1, id); }
    if !s.schema.v2.Unfit? { CopiesOf(h.v2, s.schema.v2, s.tables.v2, id); }
    if r.Ok? { RootOf(s, h, id, r.value); }
  }

  lemma RootOf(s: Snapshot, h: History, id: Id, r: Option<Selection>)
    requires ResumeOf(ResumeRows(h.v2), ResumeRows(h.v1), TombstonesOf(s.tables.lineage), id, r)
    requires Find(ResumeRows(h.v2), id) == WithCells(id, Get(s.tables.v2, id))
    requires Find(ResumeRows(h.v1), id) == WithCells(id, Get(s.tables.v1, id))
    ensures r.Some? <==> RootFor(s, id).Some?
    ensures r.Some? ==>
              var root := RootFor(s, id).value;
              && root.table == r.value.table && root.id == id
              && root.row.(body := SessionCells(id, root.row)) == r.value.row
  {
    hide ResumeRows, Find, TombstonesOf, SessionCells;
    var hidden := HiddenCreation(TombstonesOf(s.tables.lineage), id);
    var v2, v1 := ResumeRows(h.v2), ResumeRows(h.v1);
    MergedWithCells(Get(s.tables.v2, id), Get(s.tables.v1, id), hidden, id);
    var m := Merged(Find(v2, id), Find(v1, id), hidden);
    if m.Some? { MergedIsChosen(v2, v1, hidden, id, m.value); }
    if r.Some? { MergedIsChosen(v2, v1, hidden, id, r.value); }
  }

  // ----- When a plan can be made -----

  /** Some planned selection is of the table. */
  ghost predicate Has(q: seq<CascadeWalk.Selection>, t: Table) {
    exists k :: 0 <= k < |q| && q[k].table == t
  }

  lemma HasSum(a: seq<CascadeWalk.Selection>, b: seq<CascadeWalk.Selection>, t: Table)
    ensures Has(a + b, t) <==> Has(a, t) || Has(b, t)
  {
    if k :| 0 <= k < |a| && a[k].table == t { assert (a + b)[k].table == t; }
    if k :| 0 <= k < |b| && b[k].table == t { assert (a + b)[|a| + k].table == t; }
  }

  lemma SessionHas(g: Generation, ids: set<Id>, t: Table)
    ensures Has(SessionSelection(g, ids), t) <==> t == TableOf(g) && ids != {}
  {
    HasOne(SessionSelection(g, ids), t);
  }

  lemma AuxiliaryHas(present: bool, own: Table, column: Column, ids: set<Id>, t: Table)
    requires CascadeWalk.IsAuxiliary(own)
    ensures Has(AuxiliarySelection(present, own, column, ids), t) <==> t == own && present
  {
    HasOne(AuxiliarySelection(present, own, column, ids), t);
  }

  lemma QueueTables(first: Generation, firstIds: set<Id>, second: Generation, secondIds: set<Id>, ids: set<Id>,
                    schema: Schema, t: Table)
    ensures Has(InitialQueue(first, firstIds, second, secondIds, ids, schema), t) <==>
            || (t == TableOf(first) && firstIds != {}) || (t == TableOf(second) && secondIds != {})
            || (t == Event && schema.events.Fit?) || (t == EventSequence && schema.sequences.Fit?)
            || (t == LineageShadow && schema.hasLineage)
  {
    var a, b := SessionSelection(first, firstIds), SessionSelection(second, secondIds);
    var c := AuxiliarySelection(schema.events.Fit?, Event, AggregateColumn, ids);
    var d := AuxiliarySelection(schema.sequences.Fit?, EventSequence, AggregateColumn, ids);
    var e := AuxiliarySelection(schema.hasLineage, LineageShadow, SessionColumn, ids);
    hide Has, SessionSelection, AuxiliarySelection, TableOf;
    HasSum(a + b + c + d, e, t);
    HasSum(a + b + c, d, t);
    HasSum(a + b, c, t);
    HasSum(a, b, t);
    SessionHas(first, firstIds, t);
    SessionHas(second, secondIds, t);
    AuxiliaryHas(schema.events.Fit?, Event, AggregateColumn, ids, t);
    AuxiliaryHas(schema.sequences.Fit?, EventSequence, AggregateColumn, ids, t);
    AuxiliaryHas(schema.hasLineage, LineageShadow, SessionColumn, ids, t);
  }

  lemma HasOne(q: seq<CascadeWalk.Selection>, t: Table)
    requires |q| <= 1
    ensures Has(q, t) <==> q != [] && q[0].table == t
  {
  }

  /** The tables that the walk starts from: a session table with rows of the family, and the three
      tables deleted from by id that are there. */
  lemma PlannedTables(s: Snapshot, root: Item, t: Table)
    ensures Has(InitialFor(s, root), t) <==>
            || (t == Session && exists id :: id in s.tables.v1 && id in Family(s.tables, root.id))
            || (t == SessionV2 && exists id :: id in s.tables.v2 && id in Family(s.tables, root.id))
            || (t == Event && s.schema.events.Fit?) || (t == EventSequence && s.schema.sequences.Fit?)
            || (t == LineageShadow && s.schema.hasLineage)
  {
    hide Family;
    var family := Family(s.tables, root.id);
    var first := Other(root.table);
    QueueTables(first, family * s.tables.Of(first).Keys, root.table, family * s.tables.Of(root.table).Keys,
                family * (s.tables.v1.Keys + s.tables.v2.Keys), s.schema, t);
    HasCommon(family, s.tables.v1);
    HasCommon(family, s.tables.v2);
  }

  lemma HasCommon(family: set<Id>, rows: Sessions)
    ensures family * rows.Keys != {} <==> exists id :: id in rows && id in family
  {
    if id :| id in rows && id in family { assert id in family * rows.Keys; }
  }

  /** A plan can be made exactly when the triggers are safe, no object that the deletion names is
      unfit, all foreign keys are known, every row of the family has a directory, and along the
      cascading keys from the planned tables no key rewrites rows, none leads back into a session
      table but the tree's own, no table reaches itself, and there are at most 256 chains. */
  lemma PlansExactly(s: Snapshot, root: Item)
    ensures CanPlan(s, root) <==>
            && s.schema.safeTriggers && s.schema.keys.Some?
            && s.schema.events != Unfit && s.schema.sequences != Unfit && s.schema.shares != Unfit
            && (forall g, id :: id in s.tables.Of(g) && id in Family(s.tables, root.id) ==>
                  DirectoryColumn in s.tables.Of(g)[id].body && s.tables.Of(g)[id].body[DirectoryColumn].Text?)
            && CascadeGraph.OnlyRemoves(InitialFor(s, root), s.schema.keys.value)
            && CascadeGraph.LeavesSessions(InitialFor(s, root), s.schema.keys.value)
            && CascadeGraph.NoCycle(InitialFor(s, root), s.schema.keys.value)
            && CascadeGraph.ChainsWithin(InitialFor(s, root), s.schema.keys.value, 256)
  {
    if s.schema.keys.Some? { CascadeGraph.WalkableExactly(InitialFor(s, root), s.schema.keys.value); }
    hide Family, InitialFor, CascadeWalk.Walkable, CascadeGraph.OnlyRemoves, CascadeGraph.LeavesSessions,
      CascadeGraph.NoCycle, CascadeGraph.ChainsWithin;
  }
}
