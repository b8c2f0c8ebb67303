/**
 The database that a planned deletion runs on: DELETE statements with the triggers they fire, the
 rows that ON DELETE CASCADE takes along and the keys that refuse.
 */
module DeleteStore {
  import opened Prelude
  import opened ForeignKeys
  import opened Lineage
  import opened Deletion
  import CascadeWalk

  /** The rows that a DELETE of one session row takes from its own and the lineage table, its
      trigger included. */
  function StatementRows(s: Snapshot, g: Generation, id: Id): Rows {
    TableView(s.tables) - TableView(Step(s.tables, Delete(g, id)))
  }

  /** The column by which planned rows of the five tables are deleted. */
  function KeyColumn(t: Table): Column {
    if CascadeWalk.IsSessionTable(t) then IdColumn else if t == LineageShadow then SessionColumn else AggregateColumn
  }

  predicate KeyedBy(e: Entry, ids: set<Id>) {
    && CascadeWalk.IsNamed(e.table)
    && CellOf(e.row, KeyColumn(e.table)).Text? && CellOf(e.row, KeyColumn(e.table)).text in ids
  }

  /** DELETE FROM an auxiliary table WHERE its key column = id. */
  function AuxiliaryRows(db: Rows, t: Table, id: Id): Rows {
    set e | e in db && e.table == t && KeyedBy(e, {id})
  }

  function RowsIn(gone: Rows, t: Table): set<Row> {
    set e | e in gone && e.table == t :: e.row
  }

  /** The snapshot without these rows. */
  ghost predicate Without(before: Snapshot, after: Snapshot, gone: Rows) {
    after.schema == before.schema && WellFormed(after) && View(after) == View(before) - gone
  }

  // ----- Which rows a view holds -----

  lemma ViewEntries(s: Snapshot)
    requires WellFormed(s)
    ensures forall e :: e in View(s) && e.table == Event <==> e.table == Event && e.row in s.events
    ensures forall e :: e in View(s) && e.table == EventSequence <==> e.table == EventSequence && e.row in s.sequences
    ensures forall e :: e in View(s) && e.table == LineageShadow <==>
              e.table == LineageShadow && exists id :: id in s.tables.lineage && e == LineageEntry(id)
    ensures forall e :: e in View(s) && !CascadeWalk.IsSessionTable(e.table) && !CascadeWalk.IsAuxiliary(e.table) <==>
            e in s.others
    ensures forall e :: e in View(s) && CascadeWalk.IsSessionTable(e.table) ==> e in TableView(s.tables)
  {
  }

  lemma SessionRowOf(tables: Tables, e: Entry)
    requires e in TableView(tables) && CascadeWalk.IsSessionTable(e.table)
    ensures exists g, id :: id in tables.Of(g) && e == SessionEntry(g, id, tables.Of(g)[id])
  {
    if id :| id in tables.v1 && e == SessionEntry(V1, id, tables.v1[id]) {
      assert id in tables.Of(V1) && e == SessionEntry(V1, id, tables.Of(V1)[id]);
    } else {
      var id :| id in tables.v2 && e == SessionEntry(V2, id, tables.v2[id]);
      assert id in tables.Of(V2) && e == SessionEntry(V2, id, tables.Of(V2)[id]);
    }
  }

  lemma SessionRowIn(tables: Tables, g: Generation, id: Id)
    requires id in tables.Of(g)
    ensures SessionEntry(g, id, tables.Of(g)[id]) in TableView(tables)
  {
  }

  lemma CellsTell(g: Generation, id: Id, row: SessionRow, h: Generation, id': Id, row': SessionRow)
    requires SessionEntry(g, id, row) == SessionEntry(h, id', row')
    ensures g == h && id == id'
  {
    assert SessionCells(id, row)[IdColumn] == Text(id) && SessionCells(id', row')[IdColumn] == Text(id');
  }

  lemma ViewShrinks(tables: Tables, g: Generation, id: Id)
    ensures TableView(Step(tables, Delete(g, id))) <= TableView(tables)
  {
    var after := Step(tables, Delete(g, id));
    forall e | e in TableView(after) ensures e in TableView(tables) {
      if CascadeWalk.IsSessionTable(e.table) {
        SessionRowOf(after, e);
        var h, x :| x in after.Of(h) && e == SessionEntry(h, x, after.Of(h)[x]);
        SessionRowIn(tables, h, x);
      }
    }
  }

  lemma OwnRowGoes(tables: Tables, g: Generation, id: Id)
    requires id in tables.Of(g)
    ensures SessionEntry(g, id, tables.Of(g)[id]) in TableView(tables) - TableView(Step(tables, Delete(g, id)))
  {
    var after, own := Step(tables, Delete(g, id)), SessionEntry(g, id, tables.Of(g)[id]);
    SessionRowIn(tables, g, id);
    if own in TableView(after) {
      SessionRowOf(after, own);
      var h, x :| x in after.Of(h) && own == SessionEntry(h, x, after.Of(h)[x]);
      CellsTell(g, id, tables.Of(g)[id], h, x, after.Of(h)[x]);
    }
  }

  /** Deleting a row takes away its own entry and perhaps the lineage entry of its id. */
  lemma StatementRowsAre(s: Snapshot, g: Generation, id: Id)
    requires id in s.tables.Of(g)
    ensures TableView(Step(s.tables, Delete(g, id))) <= TableView(s.tables)
    ensures SessionEntry(g, id, s.tables.Of(g)[id]) in StatementRows(s, g, id)
    ensures forall e :: e in StatementRows(s, g, id) ==>
            e == SessionEntry(g, id, s.tables.Of(g)[id]) || e == LineageEntry(id)
  {
    ViewShrinks(s.tables, g, id);
    OwnRowGoes(s.tables, g, id);
    var before, after := s.tables, Step(s.tables, Delete(g, id));
    forall e | e in StatementRows(s, g, id)
      ensures e == SessionEntry(g, id, before.Of(g)[id]) || e == LineageEntry(id)
    {
      if CascadeWalk.IsSessionTable(e.table) {
        SessionRowOf(before, e);
        var h, x :| x in before.Of(h) && e == SessionEntry(h, x, before.Of(h)[x]);
        if h != g || x != id { SessionRowIn(after, h, x); }
      }
    }
  }

  /** No cascade reaches the lineage table, which declares no foreign key. */
  lemma LineageIsNoChild(db: Rows, keys: seq<ForeignKey>, named: Rows, e: Entry)
    requires named <= db && forall key :: key in keys ==> key.child != LineageShadow
    requires e in Cascaded(db, keys, named) && e.table == LineageShadow
    ensures e in named
  {
    var closed := set x | x in Cascaded(db, keys, named) && (x.table != LineageShadow || x in named);
    CascadedClosed(db, keys, named);
    CascadedLeast(db, keys, named, closed);
  }

  lemma ErasedView(before: Snapshot, after: Snapshot, gone: Rows)
    requires WellFormed(before) && after.schema == before.schema
    requires TableView(after.tables) == TableView(before.tables) - gone
    requires after.events == before.events - RowsIn(gone, Event)
    requires after.sequences == before.sequences - RowsIn(gone, EventSequence)
    requires after.others == before.others - gone
    requires before.tables.v1 == map[] ==> after.tables.v1 == map[]
    requires before.tables.v2 == map[] ==> after.tables.v2 == map[]
    requires after.tables.lineage.Keys <= before.tables.lineage.Keys
    ensures Without(before, after, gone)
  {
    forall e ensures e in View(after) <==> e in View(before) - gone {
      if e in gone && e.table == Event { assert e.row in RowsIn(gone, Event); }
      if e in gone && e.table == EventSequence { assert e.row in RowsIn(gone, EventSequence); }
    }
    if before.tables.lineage == map[] { assert after.tables.lineage.Keys == {}; }
  }

  /** No other session row goes with this one. */
  predicate TakesNoOtherSession(s: Snapshot, g: Generation, id: Id) {
    forall e :: e in Cascaded(View(s), KeysOf(s.schema), StatementRows(s, g, id)) ==>
      CascadeWalk.IsSessionTable(e.table) ==> e in StatementRows(s, g, id)
  }

  lemma TablesViewed(s: Snapshot)
    ensures TableView(s.tables) <= View(s)
    ensures forall e :: e in TableView(s.tables) ==> CascadeWalk.IsSessionTable(e.table) || e.table == LineageShadow
  {
  }

  lemma LineageShrinks(tables: Tables, g: Generation, id: Id)
    ensures Step(tables, Delete(g, id)).lineage.Keys <= tables.lineage.Keys
  {
  }

  lemma StatementView(s: Snapshot, g: Generation, id: Id, gone: Rows)
    requires WellFormed(s) && id in s.tables.Of(g) && TakesNoOtherSession(s, g, id)
    requires gone == Cascaded(View(s), KeysOf(s.schema), StatementRows(s, g, id))
    ensures var after := Step(s.tables, Delete(g, id));
            TableView(after) == TableView(s.tables) - gone && after.lineage.Keys <= s.tables.lineage.Keys
  {
    hide View, TableView, Step;
    StatementRowsAre(s, g, id);
    TablesViewed(s);
    LineageShrinks(s.tables, g, id);
    forall e | e in gone && e in TableView(s.tables) ensures e in StatementRows(s, g, id) {
      if e.table == LineageShadow { LineageIsNoChild(View(s), KeysOf(s.schema), StatementRows(s, g, id), e); }
    }
  }

  class Store {
    const db: Database
    var schema: Schema
    var events: set<Row>
    var sequences: set<Row>
    var others: Rows

    function State(): Snapshot
      reads this, db
    {
      Snapshot(schema, db.State(), events, sequences, others)
    }

    constructor (s: Snapshot)
      ensures State() == s && fresh(db)
    {
      db := new Database(s.tables);
      schema, events, sequences, others := s.schema, s.events, s.sequences, s.others;
    }

    /** ROLLBACK. */
    method Rollback(s: Snapshot)
      modifies this, db
      ensures State() == s
    {
      db.session, db.sessionV2, db.lineage := s.tables.v1, s.tables.v2, s.tables.lineage;
      schema, events, sequences, others := s.schema, s.events, s.sequences, s.others;
    }

    /** Removes rows from the tables other than the session and lineage tables. */
    method Erase(gone: Rows)
      modifies this`events, this`sequences, this`others
      ensures events == old(events) - RowsIn(gone, Event)
      ensures sequences == old(sequences) - RowsIn(gone, EventSequence)
      ensures others == old(others) - gone
    {
      events := events - RowsIn(gone, Event);
      sequences := sequences - RowsIn(gone, EventSequence);
      others := others - gone;
    }

    /** DELETE FROM session or session_v2 WHERE id = ?. None: a row that stays refers to one that
        goes by an immediate restricting key, and the statement is undone. */
    method DeleteSession(g: Generation, id: Id) returns (affected: Option<nat>)
      requires WellFormed(State())
      requires TakesNoOtherSession(State(), g, id)
      modifies this`events, this`sequences, this`others, db
      ensures var s := old(State());
              var gone := Cascaded(View(s), KeysOf(s.schema), StatementRows(s, g, id));
              && (affected == Some(0) <==> id !in s.tables.Of(g))
              && (affected.None? <==> id in s.tables.Of(g) && Held(View(s), KeysOf(s.schema), gone))
              && (affected.Some? ==> affected.value <= 1)
              && (affected != Some(1) ==> State() == s)
              && (affected == Some(1) ==> db.State() == Step(s.tables, Delete(g, id)) && Without(s, State(), gone))
    {
      hide View, WellFormed, Cascaded, Held;
      var s := State();
      if id !in s.tables.Of(g) { return Some(0); }
      var gone := Cascaded(View(s), KeysOf(schema), StatementRows(s, g, id));
      if Held(View(s), KeysOf(schema), gone) { return None; }
      StatementView(s, g, id, gone);
      var _ := db.Execute(Delete(g, id));
      Erase(gone);
      ErasedView(s, State(), gone);
      return Some(1);
    }

    /** DELETE FROM event, event_sequence or the lineage table WHERE its key column = ?. */
    method DeleteAuxiliary(t: Table, id: Id) returns (ok: bool)
      requires WellFormed(State()) && CascadeWalk.IsAuxiliary(t)
      requires forall e :: e in Cascaded(View(State()), KeysOf(schema), AuxiliaryRows(View(State()), t, id)) ==>
                 !CascadeWalk.IsSessionTable(e.table)
      modifies this`events, this`sequences, this`others, db`lineage
      ensures var s := old(State());
              var gone := Cascaded(View(s), KeysOf(s.schema), AuxiliaryRows(View(s), t, id));
              && (ok <==> !Held(View(s), KeysOf(s.schema), gone))
              && (!ok ==> State() == s)
              && (ok ==> Without(s, State(), gone))
              && (ok ==> db.lineage == if t == LineageShadow then s.tables.lineage - {id} else s.tables.lineage)
    {
      var s := State();
      var named := AuxiliaryRows(View(s), t, id);
      var gone := Cascaded(View(s), KeysOf(schema), named);
      if Held(View(s), KeysOf(schema), gone) { return false; }
      forall e | e in gone && e.table == LineageShadow ensures e in named {
        LineageIsNoChild(View(s), KeysOf(schema), named, e);
      }
      if t == LineageShadow { db.lineage := db.lineage - {id}; }
      Erase(gone);
      LineageViewWithout(s, db.State(), t, id, gone);
      ErasedView(s, State(), gone);
      return true;
    }

    /** The same, where the schema has such a table. */
    method CleanTable(t: Table, id: Id) returns (ok: bool)
      requires WellFormed(State()) && CascadeWalk.IsAuxiliary(t) && !schema.events.Unfit? && !schema.sequences.Unfit?
      requires forall e :: e in Cascaded(View(State()), KeysOf(schema), AuxiliaryRows(View(State()), t, id)) ==>
                 !CascadeWalk.IsSessionTable(e.table)
      modifies this`events, this`sequences, this`others, db`lineage
      ensures var s := old(State());
              var gone := Cascaded(View(s), KeysOf(s.schema), AuxiliaryRows(View(s), t, id));
              && (ok <==> !Held(View(s), KeysOf(s.schema), gone))
              && (!ok ==> State() == s)
              && (ok ==> Without(s, State(), gone))
              && (ok ==> db.lineage == if t == LineageShadow then s.tables.lineage - {id} else s.tables.lineage)
    {
      if (t == Event && schema.events.Fit?) || (t == EventSequence && schema.sequences.Fit?)
         || (t == LineageShadow && schema.hasLineage) {
        ok := DeleteAuxiliary(t, id);
      } else {
        ViewEntries(State());
        assert AuxiliaryRows(View(State()), t, id) == {};
        NothingNamed(View(State()), KeysOf(schema));
        ok := true;
      }
    }
  }

  lemma LineageViewWithout(s: Snapshot, after: Tables, t: Table, id: Id, gone: Rows)
    requires WellFormed(s) && CascadeWalk.IsAuxiliary(t) && AuxiliaryRows(View(s), t, id) <= gone
    requires forall e :: e in gone ==> !CascadeWalk.IsSessionTable(e.table)
    requires forall e :: e in gone && e.table == LineageShadow ==> e in AuxiliaryRows(View(s), t, id)
    requires after.v1 == s.tables.v1 && after.v2 == s.tables.v2
    requires after.lineage == if t == LineageShadow then s.tables.lineage - {id} else s.tables.lineage
    ensures TableView(after) == TableView(s.tables) - gone
  {
    hide View, KeyedBy;
    forall x | x in s.tables.lineage ensures LineageEntry(x) in gone <==> t == LineageShadow && x == id {
      LineageNamed(s, t, id, x);
    }
    TableViewWithout(s.tables, after, gone);
  }

  lemma LineageNamed(s: Snapshot, t: Table, id: Id, x: Id)
    requires WellFormed(s) && x in s.tables.lineage
    ensures LineageEntry(x) in AuxiliaryRows(View(s), t, id) <==> t == LineageShadow && x == id
  {
    assert LineageEntry(x) in View(s);
    assert CellOf(LineageEntry(x).row, SessionColumn) == Text(x);
  }

  lemma TableViewWithout(before: Tables, after: Tables, gone: Rows)
    requires after.v1 == before.v1 && after.v2 == before.v2
    requires forall e :: e in gone ==> !CascadeWalk.IsSessionTable(e.table)
    requires after.lineage.Keys <= before.lineage.Keys
    requires forall x :: x in before.lineage ==> (x in after.lineage <==> LineageEntry(x) !in gone)
    ensures TableView(after) == TableView(before) - gone
  {
    forall e ensures e in TableView(after) <==> e in TableView(before) - gone {
      if e in TableView(before) && e.table == LineageShadow {
        var x :| x in before.lineage && e == LineageEntry(x);
      }
      if e in TableView(after) && e.table == LineageShadow {
        var x :| x in after.lineage && e == LineageEntry(x);
      }
    }
  }
}
