/**
 Executing a planned deletion: comparison under the lock, the child-first delete loop, the clean-up
 of events and lineage, and the final check.
 */
module DeleteLoop {
  import opened Prelude
  import opened ForeignKeys
  import opened Lineage
  import opened Merge
  import opened Sorting
  import opened SessionTrees
  import opened Deletion
  import opened DeleteStore
  import CascadeWalk

  // ----- Built plans are always orderable once parents agree -----

  ghost predicate Built(plan: Plan, s: Snapshot) {
    && TargetsMatch(plan, s)
    && plan.targets[1].table == plan.root.table && plan.targets[0].table == Other(plan.root.table)
  }

  lemma {:induction false} FamilyWalks(plan: Plan, s: Snapshot, parents: Parents, id: Id, n: nat)
    requires Built(plan, s) && ParentsOf(parents, AllItems(plan))
    requires DescendsBy(s.tables, plan.root.id, id, n)
    ensures exists m: nat :: WalkReaches(parents, plan.root.id, id, m)
    decreases n
  {
    var root := plan.root.id;
    if id == root {
      assert WalkReaches(parents, root, id, 0);
    } else {
      var p :| ChildOf(s.tables, id, p) && DescendsBy(s.tables, root, p, n - 1);
      FamilyWalks(plan, s, parents, p, n - 1);
      var m: nat :| WalkReaches(parents, root, p, m);
      assert id in Family(s.tables, root) by { assert DescendsBy(s.tables, root, id, n); }
      var g := if id in s.tables.v1 && s.tables.v1[id].parent == Some(p) then V1 else V2;
      PlannedRow(plan, s, g, id);
      assert WalkReaches(parents, root, id, m + 1);
    }
  }

  lemma PlannedRow(plan: Plan, s: Snapshot, g: Generation, id: Id)
    requires Built(plan, s) && id in s.tables.Of(g) && id in Family(s.tables, plan.root.id)
    ensures Item(g, id, s.tables.Of(g)[id]) in AllItems(plan)
  {
    var t := if plan.targets[0].table == g then plan.targets[0] else plan.targets[1];
    assert t in plan.targets && t.table == g;
    assert Item(g, id, s.tables.Of(g)[id]) in t.generations;
  }

  lemma PlannedItem(plan: Plan, s: Snapshot, item: Item)
    requires TargetsMatch(plan, s) && item in AllItems(plan)
    ensures item.id in Family(s.tables, plan.root.id)
    ensures item.id in s.tables.Of(item.table) && s.tables.Of(item.table)[item.id] == item.row
  {
    var t := if item in plan.targets[0].generations then plan.targets[0] else plan.targets[1];
    assert t in plan.targets && item in t.generations;
  }

  /** A built plan can be ordered unless two copies of an id name different parents: the
      ordering's cycle and missing-parent exits are never reached. */
  lemma BuiltPlanOrderable(plan: Plan, s: Snapshot)
    requires Built(plan, s)
    ensures ParentsAgree(AllItems(plan)) ==> Reachable(AllItems(plan), plan.root.id)
  {
    if ParentsAgree(AllItems(plan)) {
      AgreeingParentsExist(AllItems(plan));
      var parents :| ParentsOf(parents, AllItems(plan));
      forall item | item in AllItems(plan) ensures exists m: nat :: WalkReaches(parents, plan.root.id, item.id, m) {
        PlannedItem(plan, s, item);
        var n: nat :| DescendsBy(s.tables, plan.root.id, item.id, n);
        FamilyWalks(plan, s, parents, item.id, n);
      }
    }
  }

  lemma AgreeingParentsExist(items: seq<Item>)
    requires ParentsAgree(items)
    ensures exists parents :: ParentsOf(parents, items)
  {
    if items == [] {
      assert ParentsOf(map[], items);
    } else {
      var front, last := items[..|items| - 1], items[|items| - 1];
      assert items == front + [last];
      AgreeingParentsExist(front);
      var p :| ParentsOf(p, front);
      var q := p[last.id := last.row.parent];
      forall item | item in items ensures item.id in q && q[item.id] == item.row.parent { }
      forall id | id in q ensures exists item :: item in items && item.id == id {
        if id == last.id { assert last in items; }
        else { var item :| item in front && item.id == id; assert item in items; }
      }
      assert ParentsOf(q, items);
    }
  }

  // ----- A matching plan, and what child-first ordering returns for it -----

  /** A plan made of an earlier snapshot that the locked database still matches. */
  ghost predicate Ready(plan: Plan, planned: Snapshot, s: Snapshot) {
    PlanFor(plan, planned) && WellFormed(s) && Matches(plan, s)
  }

  /** What the loop needs of such a plan, apart from the walk. */
  ghost predicate Prepared(plan: Plan, s: Snapshot) {
    && Built(plan, s) && WellFormed(s) && Plannable(s.schema)
    && plan.root in AllItems(plan) && plan.root.row.parent.None?
  }

  lemma ReadyIsPrepared(plan: Plan, planned: Snapshot, s: Snapshot)
    requires Ready(plan, planned, s)
    ensures Prepared(plan, s) && CascadeWalk.Unblocked(InitialOf(plan), KeysOf(s.schema))
  {
    RootPlanned(plan, planned);
  }

  lemma RootIsRow(s: Snapshot, root: Item)
    requires RootFor(s, root.id) == Some(root)
    ensures root.id in s.tables.Of(root.table) && s.tables.Of(root.table)[root.id] == root.row && root.row.parent.None?
  {
  }

  lemma RootPlanned(plan: Plan, planned: Snapshot)
    requires PlanFor(plan, planned)
    ensures plan.root in AllItems(plan) && plan.root.row.parent.None?
  {
    hide View, WellFormed, TombstonesOf, Merged, Unreadable, AllDecode, Lists;
    RootInFamily(planned.tables, plan.root.id);
    RootIsRow(planned, plan.root);
    PlannedRow(plan, planned, plan.root.table, plan.root.id);
  }

  ghost predicate Ordered(plan: Plan, order: seq<Item>)
    requires |plan.targets| == 2
  {
    && ParentsAgree(AllItems(plan)) && multiset(order) == multiset(AllItems(plan))
    && RankOrdered(plan, order) && ChildFirst(order, plan.root.id)
  }

  lemma FamilyIsPlanned(plan: Plan, s: Snapshot)
    requires Prepared(plan, s)
    ensures PlanIds(plan) == Family(s.tables, plan.root.id)
  {
    forall id | id in PlanIds(plan) ensures id in Family(s.tables, plan.root.id) {
      var item :| item in AllItems(plan) && item.id == id;
      PlannedItem(plan, s, item);
    }
    forall id | id in Family(s.tables, plan.root.id) ensures id in PlanIds(plan) {
      if id != plan.root.id {
        var n: nat :| DescendsBy(s.tables, plan.root.id, id, n);
        PlannedRow(plan, s, if id in s.tables.v1 then V1 else V2, id);
      }
    }
  }

  lemma InOrder(plan: Plan, s: Snapshot, order: seq<Item>, g: Generation, id: Id)
    requires Prepared(plan, s) && Ordered(plan, order)
    requires id in s.tables.Of(g) && id in PlanIds(plan)
    ensures exists i :: 0 <= i < |order| && order[i] == Item(g, id, s.tables.Of(g)[id])
  {
    FamilyIsPlanned(plan, s);
    PlannedRow(plan, s, g, id);
    SameSize(order, AllItems(plan));
    assert Item(g, id, s.tables.Of(g)[id]) in order;
  }

  lemma OrderedItem(plan: Plan, s: Snapshot, order: seq<Item>, i: nat)
    requires TargetsMatch(plan, s) && Ordered(plan, order) && i < |order|
    ensures order[i] in AllItems(plan) && order[i].id in PlanIds(plan)
    ensures order[i].id in s.tables.Of(order[i].table) && s.tables.Of(order[i].table)[order[i].id] == order[i].row
  {
    SameSize(order, AllItems(plan));
    assert order[i] in order;
    PlannedItem(plan, s, order[i]);
  }

  // ----- The session tables during the loop -----

  function Deletes(order: seq<Item>): (r: seq<Statement>)
    ensures |r| == |order| && forall i :: 0 <= i < |order| ==> r[i] == Delete(order[i].table, order[i].id)
  {
    seq(|order|, (i: nat) requires i < |order| => Delete(order[i].table, order[i].id))
  }

  /** The session and lineage tables after the first k statements. */
  function TablesAt(s: Snapshot, order: seq<Item>, k: nat): Tables
    requires k <= |order|
  {
    Run(s.tables, Deletes(order)[..k])
  }

  lemma NextTables(s: Snapshot, order: seq<Item>, k: nat)
    requires k < |order|
    ensures TablesAt(s, order, k + 1) == Step(TablesAt(s, order, k), Delete(order[k].table, order[k].id))
  {
    assert Deletes(order)[..k + 1][..k] == Deletes(order)[..k];
  }

  ghost predicate Gone(order: seq<Item>, k: nat, g: Generation, id: Id)
    requires k <= |order|
  {
    exists i :: 0 <= i < k && order[i].table == g && order[i].id == id
  }

  /** The session tables lack exactly the first k rows of the order. */
  ghost predicate Pruned(start: Tables, now: Tables, order: seq<Item>, k: nat)
    requires k <= |order|
  {
    forall g, id :: Get(now.Of(g), id) == if Gone(order, k, g, id) then None else Get(start.Of(g), id)
  }

  lemma {:induction false} LoopPrunes(s: Snapshot, order: seq<Item>, k: nat)
    requires k <= |order|
    ensures Pruned(s.tables, TablesAt(s, order, k), order, k)
    decreases k
  {
    if k > 0 {
      LoopPrunes(s, order, k - 1);
      NextTables(s, order, k - 1);
      var now, next, item := TablesAt(s, order, k - 1), TablesAt(s, order, k), order[k - 1];
      forall g, id ensures Get(next.Of(g), id) == if Gone(order, k, g, id) then None else Get(s.tables.Of(g), id) {
        assert Gone(order, k, g, id) <==> Gone(order, k - 1, g, id) || (g == item.table && id == item.id);
      }
    }
  }

  /** The lineage table keeps its rows outside the planned ids and gains none. */
  ghost predicate OutsideKept(start: LineageTable, now: LineageTable, ids: set<Id>) {
    (forall id :: id !in ids ==> Get(now, id) == Get(start, id)) && now.Keys <= start.Keys
  }

  lemma {:induction false} LoopKeepsOutside(s: Snapshot, order: seq<Item>, k: nat, ids: set<Id>)
    requires k <= |order| && forall item :: item in order ==> item.id in ids
    ensures OutsideKept(s.tables.lineage, TablesAt(s, order, k).lineage, ids)
    decreases k
  {
    if k > 0 {
      LoopKeepsOutside(s, order, k - 1, ids);
      NextTables(s, order, k - 1);
      assert order[k - 1] in order;
    }
  }

  /** At no point of the loop does a remaining row, in either table, name a parent that is already
      deleted, nor the row about to go. */
  lemma NoOrphans(plan: Plan, s: Snapshot, order: seq<Item>, k: nat, i: nat, g: Generation, id: Id)
    requires Prepared(plan, s) && Ordered(plan, order)
    requires i <= k <= |order| && i < |order| && id in TablesAt(s, order, k).Of(g)
    ensures TablesAt(s, order, k).Of(g)[id].parent != Some(order[i].id)
  {
    LoopPrunes(s, order, k);
    var now := TablesAt(s, order, k);
    assert Get(now.Of(g), id) == Get(s.tables.Of(g), id) && !Gone(order, k, g, id);
    if now.Of(g)[id].parent == Some(order[i].id) {
      var m := ChildBefore(plan, s, order, i, g, id);
    }
  }

  /** A child of a planned row is planned, and comes earlier. */
  lemma ChildBefore(plan: Plan, s: Snapshot, order: seq<Item>, i: nat, g: Generation, id: Id) returns (m: nat)
    requires Prepared(plan, s) && Ordered(plan, order) && i < |order|
    requires id in s.tables.Of(g) && s.tables.Of(g)[id].parent == Some(order[i].id)
    ensures m < i && order[m].table == g && order[m].id == id
  {
    OrderedItem(plan, s, order, i);
    FamilyIsPlanned(plan, s);
    FamilyClosed(s.tables, plan.root.id, id, order[i].id);
    InOrder(plan, s, order, g, id);
    m :| 0 <= m < |order| && order[m] == Item(g, id, s.tables.Of(g)[id]);
    OrderedItem(plan, s, order, m);
  }

  /** All planned rows of the five tables. */
  function PlannedRows(s: Snapshot, ids: set<Id>): Rows {
    set e | e in View(s) && KeyedBy(e, ids)
  }

  /** They are the rows that the foreign-key walk starts from. */
  lemma NamedIsPlanned(plan: Plan, s: Snapshot)
    requires Prepared(plan, s)
    ensures CascadeWalk.Named(View(s), InitialOf(plan)) == PlannedRows(s, PlanIds(plan))
  {
    var initial, ids := InitialOf(plan), PlanIds(plan);
    ViewEntries(s);
    forall e | e in View(s) ensures e in CascadeWalk.Named(View(s), initial) <==> KeyedBy(e, ids) {
      if CascadeWalk.IsSessionTable(e.table) {
        NamedSession(plan, s, e);
      } else {
        NamedAuxiliary(plan, s, e);
      }
    }
  }

  lemma NamedSession(plan: Plan, s: Snapshot, e: Entry)
    requires Prepared(plan, s) && e in View(s) && CascadeWalk.IsSessionTable(e.table)
    ensures e in CascadeWalk.Named(View(s), InitialOf(plan)) <==> KeyedBy(e, PlanIds(plan))
  {
    hide View, Lists, PlannedRows, ParentsAgree, Family, InitialOf;
    ViewEntries(s);
    SessionRowOf(s.tables, e);
    var g, id :| id in s.tables.Of(g) && e == SessionEntry(g, id, s.tables.Of(g)[id]);
    assert CellOf(e.row, IdColumn) == Text(id);
    var t := if plan.targets[0].table == g then plan.targets[0] else plan.targets[1];
    TargetIds(plan, s, t, id);
    OwnSelection(plan, t, e, id);
  }

  lemma TargetIds(plan: Plan, s: Snapshot, t: Target, id: Id)
    requires Prepared(plan, s) && t in plan.targets && id in s.tables.Of(t.table)
    ensures id in IdsOf(t.generations) <==> id in PlanIds(plan)
  {
    ListedIds(t.generations, t.table, s.tables.Of(t.table), Family(s.tables, plan.root.id));
    FamilyIsPlanned(plan, s);
  }

  /** A session row is selected by its own table's selection or by none. */
  lemma OwnSelection(plan: Plan, t: Target, e: Entry, id: Id)
    requires |plan.targets| == 2 && t in plan.targets && plan.targets[0].table != plan.targets[1].table
    requires e.table == TableOf(t.table) && CellOf(e.row, IdColumn) == Text(id)
    ensures forall db :: e in db ==>
              ((exists s :: s in InitialOf(plan) && CascadeWalk.Selects(db, s, e)) <==> id in IdsOf(t.generations))
  {
    var own := CascadeWalk.Selection(TableOf(t.table), CascadeWalk.KeyIn(IdColumn, IdsOf(t.generations)),
                                     [TableOf(t.table)]);
    if id in IdsOf(t.generations) {
      assert own in SessionSelection(t.table, IdsOf(t.generations));
      assert own in InitialOf(plan);
    }
    forall db, s | e in db && s in InitialOf(plan) && CascadeWalk.Selects(db, s, e) ensures id in IdsOf(t.generations) {
      assert s.table == TableOf(t.table);
    }
  }

  lemma NamedAuxiliary(plan: Plan, s: Snapshot, e: Entry)
    requires Prepared(plan, s) && e in View(s) && !CascadeWalk.IsSessionTable(e.table)
    ensures e in CascadeWalk.Named(View(s), InitialOf(plan)) <==> KeyedBy(e, PlanIds(plan))
  {
    hide View, Lists, PlannedRows, ParentsAgree;
    var initial, ids := InitialOf(plan), PlanIds(plan);
    ViewEntries(s);
    if KeyedBy(e, ids) {
      var own := CascadeWalk.Selection(e.table, CascadeWalk.KeyIn(KeyColumn(e.table), ids), [e.table]);
      assert own in AuxiliarySelection(true, e.table, KeyColumn(e.table), ids);
      assert own in initial && CascadeWalk.Selects(View(s), own, e);
    }
  }
}
