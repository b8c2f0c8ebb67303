/**
 The transaction that executes a plan: delete loop, clean-up, final check, and commit or rollback.
 */
module Transaction {
  import opened Prelude
  import opened ForeignKeys
  import opened Lineage
  import opened Sorting
  import opened SessionTrees
  import opened Deletion
  import opened DeleteStore
  import opened DeleteLoop
  import opened DeleteStages
  import CascadeWalk

  datatype DeleteError = Stale | Shared | Failed

  // ----- The delete loop -----

  lemma RowStillThere(plan: Plan, s: Snapshot, order: seq<Item>, k: nat)
    requires Prepared(plan, s) && Ordered(plan, order) && k < |order|
    ensures order[k].id in TablesAt(s, order, k).Of(order[k].table)
  {
    LoopPrunes(s, order, k);
    OrderedItem(plan, s, order, k);
    ItemsDistinct(plan, s);
    SameDistinct(order, AllItems(plan));
    if Gone(order, k, order[k].table, order[k].id) {
      var i :| 0 <= i < k && order[i].table == order[k].table && order[i].id == order[k].id;
      OrderedItem(plan, s, order, i);
    }
    assert Get(TablesAt(s, order, k).Of(order[k].table), order[k].id) == Get(s.tables.Of(order[k].table), order[k].id);
  }

  lemma ItemsDistinct(plan: Plan, s: Snapshot)
    requires Built(plan, s)
    ensures Distinct(AllItems(plan))
  {
    var a, b := plan.targets[0].generations, plan.targets[1].generations;
    assert plan.targets[0] in plan.targets && plan.targets[1] in plan.targets;
    forall x, y | x in a && y in b ensures x != y { assert x.table != y.table; }
    forall i, j | 0 <= i < j < |a + b| ensures (a + b)[i] != (a + b)[j] {
      if i < |a| <= j { assert a[i] in a && b[j - |a|] in b; }
    }
  }

  lemma SameDistinct<T>(a: seq<T>, b: seq<T>)
    requires multiset(a) == multiset(b) && Distinct(b)
    ensures Distinct(a)
  {
    forall x ensures multiset(a)[x] <= 1 { DistinctCount(b, x); }
    CountDistinct(a);
  }

  /** The next statement of the loop names the next rows of the script, and no other session goes. */
  lemma LoopStage(plan: Plan, s: Snapshot, order: seq<Item>, ids: seq<Id>, k: nat, now: Snapshot)
    requires Running(plan, s, order, ids) && k < |order| && now.schema == s.schema && WellFormed(now)
    requires now.tables == TablesAt(s, order, k)
    requires View(now) == View(s) - Cascaded(View(s), KeysOf(s.schema), LoopRows(s, order, k))
    ensures StatementRows(now, order[k].table, order[k].id) == LoopRows(s, order, k + 1) * View(now)
  {
    LoopRowsGrow(s, order, k);
    NextTables(s, order, k);
    LoopRowsWithin(s, order, k);
    var gone := Cascaded(View(s), KeysOf(s.schema), LoopRows(s, order, k));
    NewRows(TableView(s.tables), TableView(now.tables), TableView(TablesAt(s, order, k + 1)), View(s), View(now), gone);
  }

  lemma NewRows(first: Rows, last: Rows, next: Rows, db: Rows, now: Rows, gone: Rows)
    requires next <= last <= first <= db && now == db - gone && first - last <= gone && last <= now
    ensures last - next == (first - next) * now
  {
  }

  lemma NoOtherSession(now: Rows, keys: seq<ForeignKey>, named: Rows, limit: Rows, all: Rows)
    requires named <= now && named == limit * now && Cascaded(now, keys, named) <= all
    requires forall e :: e in all && CascadeWalk.IsSessionTable(e.table) ==> e in limit
    ensures forall e :: e in Cascaded(now, keys, named) && CascadeWalk.IsSessionTable(e.table) ==> e in named
  {
  }

  /** The script of a plan being run, and the database after its first k statements. */
  ghost predicate RunTo(plan: Plan, s: Snapshot, order: seq<Item>, ids: seq<Id>, k: nat, now: Snapshot) {
    var script := ScriptOf(s, order, ids);
    && Running(plan, s, order, ids) && k < |script| && Script(View(s), script)
    && WellFormed(now) && now.schema == s.schema && Reached(View(s), KeysOf(s.schema), script, k, View(now))
  }

  /** Statement k is refused. */
  ghost predicate Refused(s: Snapshot, order: seq<Item>, ids: seq<Id>, k: nat)
    requires k <= |order| + 3 * |ids| && Script(View(s), ScriptOf(s, order, ids))
  {
    RefusedAt(View(s), KeysOf(s.schema), ScriptOf(s, order, ids), k)
  }

  lemma LoopGoes(plan: Plan, s: Snapshot, order: seq<Item>, ids: seq<Id>, k: nat, now: Snapshot)
    requires RunTo(plan, s, order, ids, k, now) && k < |order| && now.tables == TablesAt(s, order, k)
    ensures var keys, script := KeysOf(s.schema), ScriptOf(s, order, ids);
            var named := StatementRows(now, order[k].table, order[k].id);
            && named == script[k + 1] * View(now) && TakesNoOtherSession(now, order[k].table, order[k].id)
            && (Held(View(now), keys, Cascaded(View(now), keys, named)) <==> RefusedAt(View(s), keys, script, k + 1))
            && (!RefusedAt(View(s), keys, script, k + 1) ==>
                  Reached(View(s), keys, script, k + 1, View(now) - Cascaded(View(now), keys, named)))
  {
    hide View, WellFormed, Ordered, Prepared, StatementRows, Held, TablesAt, LoopRows;
    var keys, named := KeysOf(s.schema), StatementRows(now, order[k].table, order[k].id);
    var script := ScriptOf(s, order, ids);
    LoopStage(plan, s, order, ids, k, now);
    Advance(View(s), keys, script, k, View(now), named);
    ScriptSessions(plan, s, order, ids, k + 1);
    NoOtherSession(View(now), keys, named, script[k + 1], Cascaded(View(s), keys, script[k + 1]));
  }

  /** What DeleteSession will do at this point of the loop. */
  lemma LoopReady(plan: Plan, s: Snapshot, order: seq<Item>, ids: seq<Id>, k: nat, now: Snapshot)
    requires RunTo(plan, s, order, ids, k, now) && k < |order| && now.tables == TablesAt(s, order, k)
    ensures var named := StatementRows(now, order[k].table, order[k].id);
            && WellFormed(now) && now.schema == s.schema && TakesNoOtherSession(now, order[k].table, order[k].id)
            && order[k].id in now.tables.Of(order[k].table)
            && Script(View(s), ScriptOf(s, order, ids))
            && (Held(View(now), KeysOf(now.schema), Cascaded(View(now), KeysOf(now.schema), named)) <==>
                Refused(s, order, ids, k + 1))
  {
    hide View, WellFormed, Ordered;
    LoopGoes(plan, s, order, ids, k, now);
    RowStillThere(plan, s, order, k);
  }

  lemma LoopAdvances(plan: Plan, s: Snapshot, order: seq<Item>, ids: seq<Id>, k: nat, now: Snapshot, next: Snapshot)
    requires RunTo(plan, s, order, ids, k, now) && k < |order| && now.tables == TablesAt(s, order, k)
    requires var gone := Cascaded(View(now), KeysOf(now.schema), StatementRows(now, order[k].table, order[k].id));
             && !Held(View(now), KeysOf(now.schema), gone) && Without(now, next, gone)
    requires next.tables == Step(now.tables, Delete(order[k].table, order[k].id))
    ensures RunTo(plan, s, order, ids, k + 1, next) && next.tables == TablesAt(s, order, k + 1)
  {
    hide View, WellFormed, Ordered;
    LoopGoes(plan, s, order, ids, k, now);
    NextTables(s, order, k);
  }

  /** The child-first loop: one DELETE per planned row, each of which must affect one row. */
  method DeleteRows(store: Store, plan: Plan, ghost s: Snapshot, order: seq<Item>, ghost ids: seq<Id>)
    returns (e: Option<DeleteError>)
    requires store.State() == s && RunTo(plan, s, order, ids, 0, s)
    modifies store`events, store`sequences, store`others, store.db
    ensures e == None || (e == Some(Failed) && exists k :: 0 <= k <= |order| && Refused(s, order, ids, k))
    ensures e == None ==> RunTo(plan, s, order, ids, |order|, store.State())
                          && store.db.State() == TablesAt(s, order, |order|)
  {
    hide RunTo, Refused, View, WellFormed, Ordered, TablesAt, Cascaded, Held, TakesNoOtherSession, StatementRows, Step;
    LoopStarts(s, order);
    for k := 0 to |order|
      invariant RunTo(plan, s, order, ids, k, store.State()) && store.db.State() == TablesAt(s, order, k)
    {
      ghost var now := store.State();
      LoopReady(plan, s, order, ids, k, now);
      var affected := store.DeleteSession(order[k].table, order[k].id);
      if affected.None? { return Some(Failed); }
      if affected != Some(1) { return Some(Stale); }
      LoopAdvances(plan, s, order, ids, k, now, store.State());
    }
    return None;
  }

  lemma LoopStarts(s: Snapshot, order: seq<Item>)
    ensures TablesAt(s, order, 0) == s.tables
  {
    assert Deletes(order)[..0] == [];
  }

  // ----- The clean-up -----

  lemma CleanStage(s: Snapshot, order: seq<Item>, ids: seq<Id>, m: nat, now: Snapshot, gone: Rows)
    requires m < 3 * |ids| && View(now) == View(s) - gone
    requires NamedBy(s, order, ids, |order| + m) <= gone
    ensures AuxiliaryRows(View(now), CleanedTable(m), ids[m / 3]) == NamedBy(s, order, ids, |order| + m + 1) * View(now)
  {
  }

  lemma AuxiliaryNotSession(db: Rows, t: Table, id: Id)
    requires CascadeWalk.IsAuxiliary(t)
    ensures AuxiliaryRows(db, t, id) <= db
    ensures forall e :: e in AuxiliaryRows(db, t, id) ==> !CascadeWalk.IsSessionTable(e.table)
  {
  }

  lemma NoSession(now: Rows, keys: seq<ForeignKey>, named: Rows)
    requires named <= now && forall e :: e in named ==> !CascadeWalk.IsSessionTable(e.table)
    requires forall e :: e in Cascaded(now, keys, named) && CascadeWalk.IsSessionTable(e.table) ==> e in named
    ensures forall e :: e in Cascaded(now, keys, named) ==> !CascadeWalk.IsSessionTable(e.table)
  {
  }

  /** What the next statement of the clean-up will do. */
  lemma CleanReady(plan: Plan, s: Snapshot, order: seq<Item>, ids: seq<Id>, m: nat, now: Snapshot, named: Rows)
    requires m < 3 * |ids| && RunTo(plan, s, order, ids, |order| + m, now)
    requires named == AuxiliaryRows(View(now), CleanedTable(m), ids[m / 3])
    ensures named <= View(now) && Script(View(s), ScriptOf(s, order, ids))
    ensures var keys, script, k := KeysOf(s.schema), ScriptOf(s, order, ids), |order| + m + 1;
            && (forall e :: e in Cascaded(View(now), keys, named) ==> !CascadeWalk.IsSessionTable(e.table))
            && (Held(View(now), keys, Cascaded(View(now), keys, named)) <==> RefusedAt(View(s), keys, script, k))
            && (!RefusedAt(View(s), keys, script, k) ==>
                  Reached(View(s), keys, script, k, View(now) - Cascaded(View(now), keys, named)))
  {
    hide View, WellFormed, Prepared, Ordered, AuxiliaryRows, KeyedBy, NamedBy, Held, Cascaded;
    var keys, script := KeysOf(s.schema), ScriptOf(s, order, ids);
    CleanStage(s, order, ids, m, now, Cascaded(View(s), keys, script[|order| + m]));
    AuxiliaryNotSession(View(now), CleanedTable(m), ids[m / 3]);
    Advance(View(s), keys, script, |order| + m, View(now), named);
    ScriptSessions(plan, s, order, ids, |order| + m + 1);
    NoOtherSession(View(now), keys, named, script[|order| + m + 1], Cascaded(View(s), keys, script[|order| + m + 1]));
    NoSession(View(now), keys, named);
  }

  function IdSet(ids: seq<Id>): set<Id> {
    set id | id in ids
  }

  /** One statement of the clean-up. */
  method CleanStatement(store: Store, plan: Plan, ghost s: Snapshot, ghost order: seq<Item>, ids: seq<Id>, m: nat)
    returns (ok: bool)
    requires m < 3 * |ids| && RunTo(plan, s, order, ids, |order| + m, store.State())
    requires store.db.session == TablesAt(s, order, |order|).v1 && store.db.sessionV2 == TablesAt(s, order, |order|).v2
    modifies store`events, store`sequences, store`others, store.db`lineage
    ensures ok <==> !Refused(s, order, ids, |order| + m + 1)
    ensures ok ==> RunTo(plan, s, order, ids, |order| + m + 1, store.State())
    ensures ok ==> store.db.lineage ==
                   if m % 3 == 2 then old(store.db.lineage) - {ids[m / 3]} else old(store.db.lineage)
  {
    hide View, WellFormed, Cascaded, Held, RefusedAt, AuxiliaryRows, Ordered, TablesAt, ScriptOf, Built, Reached;
    CleanReady(plan, s, order, ids, m, store.State(), AuxiliaryRows(View(store.State()), CleanedTable(m), ids[m / 3]));
    ok := store.CleanTable(CleanedTable(m), ids[m / 3]);
  }

  /** The three statements for one id. */
  method CleanId(store: Store, plan: Plan, ghost s: Snapshot, ghost order: seq<Item>, ids: seq<Id>, i: nat)
    returns (ok: bool)
    requires i < |ids| && RunTo(plan, s, order, ids, |order| + 3 * i, store.State())
    requires store.db.session == TablesAt(s, order, |order|).v1 && store.db.sessionV2 == TablesAt(s, order, |order|).v2
    modifies store`events, store`sequences, store`others, store.db`lineage
    ensures ok ==> RunTo(plan, s, order, ids, |order| + 3 * i + 3, store.State())
    ensures ok ==> store.db.lineage == old(store.db.lineage) - {ids[i]}
    ensures !ok ==> exists k :: |order| < k <= |order| + 3 * |ids| && Refused(s, order, ids, k)
  {
    hide RunTo, Refused, TablesAt, View, ScriptOf, Script, Running;
    ScriptGrows(s, order, ids);
    ok := CleanStatement(store, plan, s, order, ids, 3 * i);
    if !ok { return; }
    ok := CleanStatement(store, plan, s, order, ids, 3 * i + 1);
    if !ok { return; }
    ok := CleanStatement(store, plan, s, order, ids, 3 * i + 2);
  }

  /** What remains is removed id by id, for ids that are in neither table any more. */
  method CleanUp(store: Store, plan: Plan, ghost s: Snapshot, ghost order: seq<Item>, ids: seq<Id>) returns (ok: bool)
    requires RunTo(plan, s, order, ids, |order|, store.State()) && store.db.State() == TablesAt(s, order, |order|)
    modifies store`events, store`sequences, store`others, store.db`lineage
    ensures ok ==> RunTo(plan, s, order, ids, |order| + 3 * |ids|, store.State())
                   && store.db.lineage == TablesAt(s, order, |order|).lineage - IdSet(ids)
    ensures !ok ==> exists k :: |order| < k <= |order| + 3 * |ids| && Refused(s, order, ids, k)
  {
    hide RunTo, Refused, TablesAt;
    ghost var now := TablesAt(s, order, |order|);
    for i := 0 to |ids|
      invariant RunTo(plan, s, order, ids, |order| + 3 * i, store.State())
      invariant store.db.lineage == now.lineage - IdSet(ids[..i])
      invariant store.db.session == now.v1 && store.db.sessionV2 == now.v2
    {
      var id := ids[i];
      PlannedGone(plan, s, order, ids, i, |order| + 3 * i, store.State());
      var stillPresent := id in store.db.sessionV2 || id in store.db.session;
      if !stillPresent {
        ok := CleanId(store, plan, s, order, ids, i);
        if !ok { return; }
        assert IdSet(ids[..i + 1]) == IdSet(ids[..i]) + {id};
      }
    }
    assert ids[..|ids|] == ids;
    ok := true;
  }

  lemma PlannedGone(plan: Plan, s: Snapshot, order: seq<Item>, ids: seq<Id>, i: nat, k: nat, now: Snapshot)
    requires RunTo(plan, s, order, ids, k, now) && i < |ids|
    ensures ids[i] !in TablesAt(s, order, |order|).v1 && ids[i] !in TablesAt(s, order, |order|).v2
  {
    assert ids[i] in ids;
    AllPruned(plan, s, order);
  }

  lemma AllPruned(plan: Plan, s: Snapshot, order: seq<Item>)
    requires Prepared(plan, s) && Ordered(plan, order)
    ensures TablesAt(s, order, |order|).v1 == s.tables.v1 - PlanIds(plan)
    ensures TablesAt(s, order, |order|).v2 == s.tables.v2 - PlanIds(plan)
  {
    var now := TablesAt(s, order, |order|);
    LoopPrunes(s, order, |order|);
    forall g, id ensures Get(now.Of(g), id) == Get(s.tables.Of(g) - PlanIds(plan), id) {
      if id in PlanIds(plan) && id in s.tables.Of(g) {
        InOrder(plan, s, order, g, id);
        assert Gone(order, |order|, g, id);
      }
      if Gone(order, |order|, g, id) {
        var i :| 0 <= i < |order| && order[i].table == g && order[i].id == id;
        OrderedItem(plan, s, order, i);
      }
    }
    MapsEqual(now.Of(V1), s.tables.v1 - PlanIds(plan));
    MapsEqual(now.Of(V2), s.tables.v2 - PlanIds(plan));
  }

  // ----- The end of the transaction -----

  /** Everything that goes with the planned rows. */
  ghost function GoneWith(s: Snapshot, ids: set<Id>): Rows {
    Cascaded(View(s), KeysOf(s.schema), PlannedRows(s, ids))
  }

  /** The snapshot without the sessions, in every table. */
  ghost function After(s: Snapshot, ids: set<Id>): Snapshot {
    Snapshot(s.schema, Tables(s.tables.v1 - ids, s.tables.v2 - ids, s.tables.lineage - ids),
             s.events - RowsIn(GoneWith(s, ids), Event), s.sequences - RowsIn(GoneWith(s, ids), EventSequence),
             s.others - GoneWith(s, ids))
  }

  lemma {:induction false} CleanContains(s: Snapshot, ids: seq<Id>, i: nat, m: nat)
    requires i < m <= 3 * |ids|
    ensures AuxiliaryRows(View(s), CleanedTable(i), ids[i / 3]) <= CleanRows(s, ids, m)
    decreases m
  {
    hide View, AuxiliaryRows;
    if i < m - 1 { CleanContains(s, ids, i, m - 1); }
  }

  lemma AuxiliaryCleaned(s: Snapshot, ids: seq<Id>, e: Entry)
    requires e in View(s) && CascadeWalk.IsAuxiliary(e.table) && KeyedBy(e, IdSet(ids))
    ensures e in CleanRows(s, ids, 3 * |ids|)
  {
    hide View;
    var id := CellOf(e.row, KeyColumn(e.table)).text;
    assert id in ids;
    var j :| 0 <= j < |ids| && ids[j] == id;
    var i := if e.table == Event then 3 * j else if e.table == EventSequence then 3 * j + 1 else 3 * j + 2;
    assert CleanedTable(i) == e.table && ids[i / 3] == id;
    assert e in AuxiliaryRows(View(s), CleanedTable(i), ids[i / 3]);
    CleanContains(s, ids, i, 3 * |ids|);
  }

  lemma SessionDeleted(plan: Plan, s: Snapshot, order: seq<Item>, e: Entry)
    requires Prepared(plan, s) && Ordered(plan, order)
    requires e in View(s) && CascadeWalk.IsSessionTable(e.table) && KeyedBy(e, PlanIds(plan))
    ensures e in LoopRows(s, order, |order|)
  {
    hide View, Ordered, LoopRows;
    var g, id := Located(s, e);
    InOrder(plan, s, order, g, id);
    var i :| 0 <= i < |order| && order[i] == Item(g, id, s.tables.Of(g)[id]);
    LoopSessionRows(plan, s, order, |order|, e);
  }

  /** By its end the script has named every planned row. */
  lemma AllNamed(plan: Plan, s: Snapshot, order: seq<Item>, ids: seq<Id>)
    requires Running(plan, s, order, ids)
    ensures NamedBy(s, order, ids, |order| + 3 * |ids|) == PlannedRows(s, PlanIds(plan))
  {
    hide View, LoopRows, Ordered;
    NamedByPlanned(plan, s, order, ids, |order| + 3 * |ids|);
    assert IdSet(ids) == PlanIds(plan);
    forall e | e in PlannedRows(s, PlanIds(plan)) ensures e in NamedBy(s, order, ids, |order| + 3 * |ids|) {
      if CascadeWalk.IsSessionTable(e.table) {
        SessionDeleted(plan, s, order, e);
      } else {
        AuxiliaryCleaned(s, ids, e);
        assert ids != [];
      }
    }
  }

  lemma ViewTells(before: Snapshot, after: Snapshot, gone: Rows)
    requires WellFormed(before) && WellFormed(after) && View(after) == View(before) - gone
    ensures after.events == before.events - RowsIn(gone, Event)
    ensures after.sequences == before.sequences - RowsIn(gone, EventSequence)
    ensures after.others == before.others - gone
  {
    ViewEntries(before);
    ViewEntries(after);
    hide View, WellFormed;
    forall row ensures row in after.events <==> row in before.events && row !in RowsIn(gone, Event) {
      assert row in after.events <==> Entry(Event, row) in View(after);
    }
    forall row ensures row in after.sequences <==> row in before.sequences && row !in RowsIn(gone, EventSequence) {
      assert row in after.sequences <==> Entry(EventSequence, row) in View(after);
    }
  }

  /** A run that reaches the end leaves the database without the sessions. */
  lemma Finished(plan: Plan, s: Snapshot, order: seq<Item>, ids: seq<Id>, end: Snapshot)
    requires RunTo(plan, s, order, ids, |order| + 3 * |ids|, end)
    requires var now := TablesAt(s, order, |order|);
             end.tables == Tables(now.v1, now.v2, now.lineage - IdSet(ids))
    ensures end == After(s, PlanIds(plan)) && View(end) == View(s) - GoneWith(s, PlanIds(plan))
  {
    hide View, WellFormed, Ordered;
    AllNamed(plan, s, order, ids);
    AllPruned(plan, s, order);
    ViewTells(s, end, GoneWith(s, PlanIds(plan)));
    assert IdSet(ids) == PlanIds(plan);
    LineageCleaned(plan, s, order);
  }

  lemma LineageCleaned(plan: Plan, s: Snapshot, order: seq<Item>)
    requires Prepared(plan, s) && Ordered(plan, order)
    ensures TablesAt(s, order, |order|).lineage - PlanIds(plan) == s.tables.lineage - PlanIds(plan)
  {
    hide RankOrdered, ChildFirst;
    SameSize(order, AllItems(plan));
    LoopKeepsOutside(s, order, |order|, PlanIds(plan));
    var now := TablesAt(s, order, |order|).lineage;
    forall id ensures Get(now - PlanIds(plan), id) == Get(s.tables.lineage - PlanIds(plan), id) {
      assert id !in PlanIds(plan) ==> Get(now, id) == Get(s.tables.lineage, id);
    }
    MapsEqual(now - PlanIds(plan), s.tables.lineage - PlanIds(plan));
  }

  /** The id is left nowhere: not as a row, a parent, or a key of an auxiliary table. */
  predicate NothingLeft(s: Snapshot, id: Id) {
    && (forall child :: child in s.tables.v2 ==> child != id && s.tables.v2[child].parent != Some(id))
    && (forall child :: child in s.tables.v1 ==> child != id && s.tables.v1[child].parent != Some(id))
    && (s.schema.events.Fit? ==> forall row :: row in s.events ==> !BelongsTo(row, {id}))
    && (s.schema.sequences.Fit? ==> forall row :: row in s.sequences ==> !BelongsTo(row, {id}))
    && (s.schema.hasLineage ==> id !in s.tables.lineage)
  }

  /** Whether any planned id is left anywhere. */
  method PostconditionsHold(s: Snapshot, plan: Plan) returns (hold: bool)
    requires |plan.targets| == 2
    ensures hold <==> forall id :: id in PlanIds(plan) ==> NothingLeft(s, id)
  {
    var rest := PlanIds(plan);
    while rest != {}
      invariant rest <= PlanIds(plan)
      invariant forall id :: id in PlanIds(plan) - rest ==> NothingLeft(s, id)
      decreases rest
    {
      var id :| id in rest;
      rest := rest - {id};
      if !NothingLeft(s, id) { return false; }
    }
    return true;
  }

  lemma NoRowsLeft(s: Snapshot, family: set<Id>)
    requires WellFormed(s)
    ensures forall row :: row in After(s, family).events ==> !BelongsTo(row, family)
    ensures forall row :: row in After(s, family).sequences ==> !BelongsTo(row, family)
  {
    var gone := GoneWith(s, family);
    forall row | row in s.events && BelongsTo(row, family) ensures row in RowsIn(gone, Event) {
      assert Entry(Event, row) in PlannedRows(s, family);
    }
    forall row | row in s.sequences && BelongsTo(row, family) ensures row in RowsIn(gone, EventSequence) {
      assert Entry(EventSequence, row) in PlannedRows(s, family);
    }
  }

  /** The final check never fails: no id of the family is left as a row, a parent or a key. */
  lemma FamilyLeavesNothing(s: Snapshot, root: Id)
    requires WellFormed(s)
    ensures forall id :: id in Family(s.tables, root) ==> NothingLeft(After(s, Family(s.tables, root)), id)
  {
    hide View, GoneWith, Family;
    var family := Family(s.tables, root);
    NoRowsLeft(s, family);
    forall id, child | id in family && child !in family ensures !ChildOf(s.tables, child, id) {
      if ChildOf(s.tables, child, id) { FamilyClosed(s.tables, root, child, id); }
    }
    forall id | id in family ensures NothingLeft(After(s, family), id) {
      assert forall row :: BelongsTo(row, {id}) ==> BelongsTo(row, family);
    }
  }

  lemma AfterKeepsConsistent(s: Snapshot, ids: set<Id>)
    requires Consistent(s.tables)
    ensures Consistent(After(s, ids).tables)
  {
    forall id ensures ConsistentAt(After(s, ids).tables, id) {
      assert ConsistentAt(s.tables, id);
    }
  }

  // ----- The whole deletion -----

  /** A shared generation is refused: a share URL on its row or a row in `session_share`. */
  ghost predicate AnyShared(plan: Plan, shared: set<(Generation, Id)>)
    requires |plan.targets| == 2
  {
    exists item :: item in AllItems(plan) && (item.table, item.id) in shared
  }

  /** The comparison of the locked database with the plan, in the order the code makes it. */
  method Compare(s: Snapshot, plan: Plan, shared: set<(Generation, Id)>) returns (e: Option<DeleteError>)
    requires |plan.targets| == 2 && Plannable(plan.schema) && AllDecode(AllItems(plan))
    ensures e.None? <==> Matches(plan, s) && !AnyShared(plan, shared)
    ensures e == Some(DeleteError.Shared) ==> AnyShared(plan, shared)
    ensures e != Some(Failed)
  {
    hide View;
    if s.schema != plan.schema || !s.schema.safeTriggers { return Some(Stale); }
    if LineageOf(s.tables.lineage, PlanIds(plan)) != plan.lineage { return Some(Stale); }
    for i := 0 to 2
      invariant forall j :: 0 <= j < i ==>
        Lists(plan.targets[j].generations, plan.targets[j].table, s.tables.Of(plan.targets[j].table),
              Family(s.tables, plan.root.id))
      invariant forall j, item :: 0 <= j < i && item in plan.targets[j].generations ==> (item.table, item.id) !in shared
    {
      var same := CompareTarget(s, plan, plan.targets[i]);
      if !same {
        assert plan.targets[i] in plan.targets;
        return Some(Stale);
      }
      if exists item :: item in plan.targets[i].generations && (item.table, item.id) in shared {
        var item :| item in plan.targets[i].generations && (item.table, item.id) in shared;
        assert item in AllItems(plan);
        return Some(DeleteError.Shared);
      }
    }
    if s.schema.sequences.Fit? != plan.sequences.Some? || s.schema.events.Fit? != plan.events.Some? {
      return Some(Stale);
    }
    if s.schema.events.Fit? && RowsFor(s.events, PlanIds(plan)) != plan.events.value { return Some(Stale); }
    if s.schema.sequences.Fit? && RowsFor(s.sequences, PlanIds(plan)) != plan.sequences.value { return Some(Stale); }
    if !DependentsMatch(plan, s) { return Some(Stale); }
    return None;
  }

  method CompareTarget(s: Snapshot, plan: Plan, target: Target) returns (same: bool)
    requires AllDecode(target.generations)
    ensures same <==> Lists(target.generations, target.table, s.tables.Of(target.table), Family(s.tables, plan.root.id))
  {
    var family := DescendantIds(s.tables, plan.root.id);
    var actual := SelectGenerations(target.table, s.tables.Of(target.table), family);
    same := actual == Some(target.generations);
    if Lists(target.generations, target.table, s.tables.Of(target.table), family) {
      forall id | id in s.tables.Of(target.table) && id in family ensures Decodes(s.tables.Of(target.table)[id]) {
        assert Item(target.table, id, s.tables.Of(target.table)[id]) in target.generations;
      }
      ListsUnique(actual.value, target.generations, target.table, s.tables.Of(target.table), family);
    }
  }

  /** No statement is refused. */
  ghost predicate NeverRefused(s: Snapshot, order: seq<Item>, ids: seq<Id>) {
    && Script(View(s), ScriptOf(s, order, ids))
    && forall k :: 0 <= k <= |order| + 3 * |ids| ==> !Refused(s, order, ids, k)
  }

  /** A hash set's iteration: its elements in some order. */
  method Drain(all: set<Id>) returns (ids: seq<Id>)
    ensures Enumerates(ids, all)
  {
    ids := [];
    var rest := all;
    while rest != {}
      invariant rest <= all && Distinct(ids) && forall id :: id in ids <==> id in all && id !in rest
      decreases rest
    {
      var id :| id in rest;
      ids, rest := ids + [id], rest - {id};
    }
  }

  /** The statements of the transaction: delete loop, clean-up, final check. */
  method Execute(store: Store, plan: Plan, ghost s: Snapshot, order: seq<Item>,
                 ids: seq<Id>) returns (e: Option<DeleteError>)
    requires store.State() == s && Running(plan, s, order, ids) && PlanIds(plan) == Family(s.tables, plan.root.id)
    modifies store`events, store`sequences, store`others, store.db
    ensures e == None <==> NeverRefused(s, order, ids)
    ensures e == None || e == Some(Failed)
    ensures e == None ==> store.State() == After(s, PlanIds(plan))
                          && View(store.State()) == View(s) - GoneWith(s, PlanIds(plan))
  {
    hide View, WellFormed, Ordered, TablesAt, After, Refused, NothingLeft;
    BeforeFirst(plan, s, order, ids);
    e := DeleteRows(store, plan, s, order, ids);
    if e != None { return; }
    var ok := CleanUp(store, plan, s, order, ids);
    if !ok { return Some(Failed); }
    AtEnd(plan, s, order, ids, store.State());
    Finished(plan, s, order, ids, store.State());
    FamilyLeavesNothing(s, plan.root.id);
    var hold := PostconditionsHold(store.State(), plan);
    if !hold { return Some(Stale); }
  }

  lemma BeforeFirst(plan: Plan, s: Snapshot, order: seq<Item>, ids: seq<Id>)
    requires Running(plan, s, order, ids)
    ensures RunTo(plan, s, order, ids, 0, s) && Script(View(s), ScriptOf(s, order, ids)) && WellFormed(s)
  {
    hide View, Ordered;
    ScriptGrows(s, order, ids);
    ReachedStart(View(s), KeysOf(s.schema), ScriptOf(s, order, ids));
  }

  lemma AtEnd(plan: Plan, s: Snapshot, order: seq<Item>, ids: seq<Id>, end: Snapshot)
    requires RunTo(plan, s, order, ids, |order| + 3 * |ids|, end)
    ensures NeverRefused(s, order, ids)
  {
    hide View, Ordered;
  }

  /** A row that stays refers by a deferred key to one that goes. */
  ghost predicate LeftDangling(s: Snapshot, ids: set<Id>) {
    Dangling(View(s), KeysOf(s.schema), GoneWith(s, ids))
  }

  /** COMMIT checks the deferred keys; `accepted` is whatever else decides it. */
  method Commit(start: Snapshot, end: Snapshot, accepted: bool) returns (ok: bool)
    ensures ok <==> accepted && !Dangling(View(start), KeysOf(start.schema), View(start) - View(end))
  {
    ok := accepted && !Dangling(View(start), KeysOf(start.schema), View(start) - View(end));
  }

  lemma GoneWithWithin(s: Snapshot, ids: set<Id>)
    ensures View(s) - (View(s) - GoneWith(s, ids)) == GoneWith(s, ids)
  {
  }

  /** Runs a plan made on an earlier snapshot. It succeeds exactly when the locked database still
      matches, nothing is shared, the copies of each id agree on the parent, no statement is refused
      by an immediate restricting key, no row is left dangling by a deferred one, and COMMIT is
      accepted otherwise; then the sessions, and what goes with them, are
      gone from all tables. On any other outcome the store is as before. */
  method DeleteGenerations(store: Store, plan: Plan, ghost planned: Snapshot, shared: set<(Generation, Id)>,
                           commits: bool)
    returns (r: Result<(), DeleteError>, ghost order: seq<Item>, ghost ids: seq<Id>)
    requires PlanFor(plan, planned) && WellFormed(store.State())
    modifies store, store.db
    ensures Comparable(plan, old(store.State()), shared) ==> Ordered(plan, order) && Enumerates(ids, PlanIds(plan))
    ensures r.Ok? <==> Comparable(plan, old(store.State()), shared)
                       && GoesThrough(old(store.State()), PlanIds(plan), order, ids) && commits
    ensures r == Err(Failed) <==> Comparable(plan, old(store.State()), shared)
                                  && !(GoesThrough(old(store.State()), PlanIds(plan), order, ids) && commits)
    ensures r == Err(DeleteError.Shared) ==> AnyShared(plan, shared)
    ensures r.Err? ==> store.State() == old(store.State())
    ensures r.Ok? ==> store.State() == After(old(store.State()), Family(old(store.State()).tables, plan.root.id))
    ensures Consistent(old(store.State()).tables) ==> Consistent(store.State().tables)
  {
    hide View, WellFormed, NeverRefused, After, TablesAt, Lists, RootFor, DependentsMatch, Dangling, GoneWith;
    ghost var s := store.State();
    var start := store.State();
    order, ids := [], [];
    var mismatch := Compare(start, plan, shared);
    if mismatch.Some? { return Err(mismatch.value), order, ids; }
    ReadyIsPrepared(plan, planned, s);
    BuiltPlanOrderable(plan, s);
    var ordered := ChildFirstGenerations(plan);
    if ordered.None? { return Err(Stale), order, ids; }
    var drained := Drain(PlanIds(plan));
    order, ids := ordered.value, drained;
    FamilyIsPlanned(plan, s);
    var e := Execute(store, plan, s, ordered.value, drained);
    if e.Some? {
      store.Rollback(start);
      return Err(e.value), order, ids;
    }
    GoneWithWithin(s, PlanIds(plan));
    var committed := Commit(start, store.State(), commits);
    if !committed {
      store.Rollback(start);
      return Err(Failed), order, ids;
    }
    if Consistent(s.tables) { AfterKeepsConsistent(s, PlanIds(plan)); }
    return Ok(()), order, ids;
  }

  /** No foreign key makes a statement or COMMIT fail. */
  ghost predicate GoesThrough(s: Snapshot, planned: set<Id>, order: seq<Item>, ids: seq<Id>) {
    NeverRefused(s, order, ids) && !LeftDangling(s, planned)
  }

  /** The locked database still matches, nothing is shared, and the copies agree on the parent. */
  ghost predicate Comparable(plan: Plan, s: Snapshot, shared: set<(Generation, Id)>)
    requires |plan.targets| == 2
  {
    Matches(plan, s) && !AnyShared(plan, shared) && ParentsAgree(AllItems(plan))
  }
}
