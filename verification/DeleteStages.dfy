/**
 The statements of a deletion, one after the other, in terms of the database they start from: which
 rows are named so far, what goes with them, and which statement is refused.
 */
module DeleteStages {
  import opened Prelude
  import opened ForeignKeys
  import opened Lineage
  import opened Merge
  import opened Sorting
  import opened SessionTrees
  import opened Deletion
  import opened DeleteStore
  import opened DeleteLoop
  import CascadeWalk

  /** The session and lineage rows that the first k statements of the loop take, triggers included. */
  function LoopRows(s: Snapshot, order: seq<Item>, k: nat): Rows
    requires k <= |order|
  {
    TableView(s.tables) - TableView(TablesAt(s, order, k))
  }

  /** The clean-up deletes from three tables for each id. */
  function CleanedTable(m: nat): Table {
    if m % 3 == 0 then Event else if m % 3 == 1 then EventSequence else LineageShadow
  }

  ghost function CleanRows(s: Snapshot, ids: seq<Id>, m: nat): Rows
    requires m <= 3 * |ids|
  {
    if m == 0 then {} else CleanRows(s, ids, m - 1) + AuxiliaryRows(View(s), CleanedTable(m - 1), ids[(m - 1) / 3])
  }

  /** The rows of the five tables that the first k statements name. */
  ghost function NamedBy(s: Snapshot, order: seq<Item>, ids: seq<Id>, k: nat): Rows
    requires k <= |order| + 3 * |ids|
  {
    if k <= |order| then LoopRows(s, order, k)
    else LoopRows(s, order, |order|) + CleanRows(s, ids, k - |order|)
  }

  /** The named rows, statement by statement. */
  ghost function ScriptOf(s: Snapshot, order: seq<Item>, ids: seq<Id>): (script: seq<Rows>)
    ensures |script| == |order| + 3 * |ids| + 1
    ensures forall k :: 0 <= k < |script| ==> script[k] == NamedBy(s, order, ids, k)
  {
    seq(|order| + 3 * |ids| + 1, k requires 0 <= k <= |order| + 3 * |ids| => NamedBy(s, order, ids, k))
  }

  /** The ids in the order in which the program's hash set yields them. */
  ghost predicate Enumerates(ids: seq<Id>, all: set<Id>) {
    Distinct(ids) && forall id :: id in ids <==> id in all
  }

  // ----- The rows of the loop -----

  lemma LoopRowsGrow(s: Snapshot, order: seq<Item>, k: nat)
    requires k < |order|
    ensures TableView(TablesAt(s, order, k + 1)) <= TableView(TablesAt(s, order, k)) <= TableView(s.tables)
    decreases k
  {
    if k > 0 { LoopRowsGrow(s, order, k - 1); } else { assert Deletes(order)[..0] == []; }
    NextTables(s, order, k);
    var item, now := order[k], s.(tables := TablesAt(s, order, k));
    if item.id in now.tables.Of(item.table) { StatementRowsAre(now, item.table, item.id); }
  }

  lemma LoopSessionRows(plan: Plan, s: Snapshot, order: seq<Item>, k: nat, e: Entry)
    requires Prepared(plan, s) && Ordered(plan, order) && k <= |order|
    requires CascadeWalk.IsSessionTable(e.table)
    ensures e in LoopRows(s, order, k) <==>
              exists i :: 0 <= i < k && e == SessionEntry(order[i].table, order[i].id, order[i].row)
  {
    LoopPrunes(s, order, k);
    var now := TablesAt(s, order, k);
    if e in LoopRows(s, order, k) {
      SessionRowOf(s.tables, e);
      var g, id :| id in s.tables.Of(g) && e == SessionEntry(g, id, s.tables.Of(g)[id]);
      if !Gone(order, k, g, id) {
        assert Get(now.Of(g), id) == Get(s.tables.Of(g), id);
        SessionRowIn(now, g, id);
      }
      var i :| 0 <= i < k && order[i].table == g && order[i].id == id;
      OrderedItem(plan, s, order, i);
    }
    if i :| 0 <= i < k && e == SessionEntry(order[i].table, order[i].id, order[i].row) {
      OrderedItem(plan, s, order, i);
      SessionRowIn(s.tables, order[i].table, order[i].id);
      if e in TableView(now) {
        SessionRowOf(now, e);
        var g, id :| id in now.Of(g) && e == SessionEntry(g, id, now.Of(g)[id]);
        CellsTell(order[i].table, order[i].id, order[i].row, g, id, now.Of(g)[id]);
        assert Gone(order, k, g, id) && Get(now.Of(g), id) == None;
      }
    }
  }

  lemma LoopRowsPlanned(plan: Plan, s: Snapshot, order: seq<Item>, k: nat)
    requires Prepared(plan, s) && Ordered(plan, order) && k <= |order|
    ensures LoopRows(s, order, k) <= PlannedRows(s, PlanIds(plan))
  {
    SameSize(order, AllItems(plan));
    LoopKeepsOutside(s, order, k, PlanIds(plan));
    forall e | e in LoopRows(s, order, k) ensures e in PlannedRows(s, PlanIds(plan)) {
      if CascadeWalk.IsSessionTable(e.table) {
        LoopSessionRows(plan, s, order, k, e);
        var i :| 0 <= i < k && e == SessionEntry(order[i].table, order[i].id, order[i].row);
        OrderedItem(plan, s, order, i);
        PlannedEntry(s, order[i].table, order[i].id, PlanIds(plan));
      } else {
        DroppedLineage(s, TablesAt(s, order, k), PlanIds(plan), e);
      }
    }
  }

  lemma PlannedEntry(s: Snapshot, g: Generation, id: Id, ids: set<Id>)
    requires id in s.tables.Of(g) && id in ids
    ensures SessionEntry(g, id, s.tables.Of(g)[id]) in PlannedRows(s, ids)
  {
    SessionRowIn(s.tables, g, id);
    assert CellOf(SessionEntry(g, id, s.tables.Of(g)[id]).row, IdColumn) == Text(id);
  }

  lemma DroppedLineage(s: Snapshot, now: Tables, ids: set<Id>, e: Entry)
    requires OutsideKept(s.tables.lineage, now.lineage, ids)
    requires e in TableView(s.tables) - TableView(now) && !CascadeWalk.IsSessionTable(e.table)
    ensures e in PlannedRows(s, ids)
  {
    var id :| id in s.tables.lineage && e == LineageEntry(id);
    assert id !in ids ==> Get(now.lineage, id) == Get(s.tables.lineage, id);
  }

  // ----- No session row goes but those named -----

  /** With a named session row, its children in its own table are named. */
  ghost predicate ChildrenNamed(s: Snapshot, named: Rows) {
    forall p, c :: p in named && c in View(s) && TreeChild(p, c) ==> c in named
  }

  predicate TreeChild(p: Entry, c: Entry) {
    CascadeWalk.IsSessionTable(p.table) && c.table == p.table && CellOf(c.row, ParentColumn) == CellOf(p.row, IdColumn)
  }

  lemma Located(s: Snapshot, e: Entry) returns (g: Generation, id: Id)
    requires WellFormed(s) && e in View(s) && CascadeWalk.IsSessionTable(e.table)
    ensures id in s.tables.Of(g) && e == SessionEntry(g, id, s.tables.Of(g)[id])
    ensures CellOf(e.row, IdColumn) == Text(id)
    ensures forall parent :: CellOf(e.row, ParentColumn) == Text(parent) <==> s.tables.Of(g)[id].parent == Some(parent)
  {
    hide View, WellFormed, TableView;
    ViewEntries(s);
    SessionRowOf(s.tables, e);
    g, id :| id in s.tables.Of(g) && e == SessionEntry(g, id, s.tables.Of(g)[id]);
  }

  lemma FamilyTreeClosed(plan: Plan, s: Snapshot)
    requires Prepared(plan, s)
    ensures CascadeWalk.TreeClosed(View(s), InitialOf(plan))
  {
    forall sel, e | sel in InitialOf(plan) && CascadeWalk.IsSessionTable(sel.table) && e in View(s)
      && e.table == sel.table
      ensures CascadeWalk.ChildPlanned(View(s), sel, e.row)
    {
      ChildOfPlanned(plan, s, sel, e);
    }
  }

  lemma ChildOfPlanned(plan: Plan, s: Snapshot, sel: CascadeWalk.Selection, e: Entry)
    requires Prepared(plan, s) && sel in InitialOf(plan) && CascadeWalk.IsSessionTable(sel.table)
    requires e in View(s) && e.table == sel.table
    ensures CascadeWalk.ChildPlanned(View(s), sel, e.row)
  {
    var g, id := Located(s, e);
    var t := if plan.targets[0].table == g then plan.targets[0] else plan.targets[1];
    SelectionIds(plan, t, sel);
    var parent := s.tables.Of(g)[id].parent;
    if parent.Some? && parent.value in IdsOf(t.generations) { ParentInFamily(plan, s, t, id, parent.value); }
  }

  lemma SelectionIds(plan: Plan, t: Target, sel: CascadeWalk.Selection)
    requires |plan.targets| == 2 && t in plan.targets && plan.targets[0].table != plan.targets[1].table
    requires sel in InitialOf(plan) && sel.table == TableOf(t.table)
    ensures sel.filter == CascadeWalk.KeyIn(IdColumn, IdsOf(t.generations))
  {
  }

  lemma ParentInFamily(plan: Plan, s: Snapshot, t: Target, id: Id, parent: Id)
    requires Prepared(plan, s) && t in plan.targets && id in s.tables.Of(t.table)
    requires s.tables.Of(t.table)[id].parent == Some(parent) && parent in IdsOf(t.generations)
    ensures id in IdsOf(t.generations)
  {
    var family := Family(s.tables, plan.root.id);
    ListedIds(t.generations, t.table, s.tables.Of(t.table), family);
    FamilyClosed(s.tables, plan.root.id, id, parent);
  }

  lemma GoesFromPlanned(plan: Plan, s: Snapshot, named: Rows, e: Entry)
    requires Prepared(plan, s) && named <= PlannedRows(s, PlanIds(plan))
    requires e in Cascaded(View(s), KeysOf(s.schema), named)
    ensures Goes(View(s), KeysOf(s.schema), CascadeWalk.Named(View(s), InitialOf(plan)), e)
  {
    NamedIsPlanned(plan, s);
    CascadedMonotone(View(s), KeysOf(s.schema), named, PlannedRows(s, PlanIds(plan)));
    CascadedExactly(View(s), KeysOf(s.schema), PlannedRows(s, PlanIds(plan)), e);
  }

  lemma NoFurtherSessions(plan: Plan, s: Snapshot, named: Rows)
    requires Prepared(plan, s) && CascadeWalk.Unblocked(InitialOf(plan), KeysOf(s.schema))
    requires named <= PlannedRows(s, PlanIds(plan)) && ChildrenNamed(s, named)
    ensures forall e :: e in Cascaded(View(s), KeysOf(s.schema), named) && CascadeWalk.IsSessionTable(e.table) ==>
            e in named
  {
    var db, keys := View(s), KeysOf(s.schema);
    var gone := Cascaded(db, keys, named);
    forall p, c | p in gone && c in db && Follows(keys, p, c) && CascadeWalk.IsSessionTable(c.table)
      ensures TreeChild(p, c)
    {
      SessionFollowsTree(plan, s, named, p, c);
    }
    SessionsStayNamed(db, keys, named);
  }

  lemma SessionsStayNamed(db: Rows, keys: seq<ForeignKey>, named: Rows)
    requires named <= db
    requires forall p, c {:trigger Follows(keys, p, c)} ::
               p in Cascaded(db, keys, named) && c in db && Follows(keys, p, c) ==>
                 !CascadeWalk.IsSessionTable(c.table) || TreeChild(p, c)
    requires forall p, c :: p in named && c in db && TreeChild(p, c) ==> c in named
    ensures forall e :: e in Cascaded(db, keys, named) && CascadeWalk.IsSessionTable(e.table) ==> e in named
  {
    var closed := set e | e in Cascaded(db, keys, named) && (CascadeWalk.IsSessionTable(e.table) ==> e in named);
    CascadedClosed(db, keys, named);
    CascadedLeast(db, keys, named, closed);
  }

  /** A session row follows a row that goes only as a child in the same session table. */
  lemma SessionFollowsTree(plan: Plan, s: Snapshot, named: Rows, p: Entry, c: Entry)
    requires Prepared(plan, s) && CascadeWalk.Unblocked(InitialOf(plan), KeysOf(s.schema))
    requires named <= PlannedRows(s, PlanIds(plan)) && p in Cascaded(View(s), KeysOf(s.schema), named)
    requires CascadeWalk.IsSessionTable(c.table) && Follows(KeysOf(s.schema), p, c)
    ensures TreeChild(p, c)
  {
    var keys := KeysOf(s.schema);
    var key :| key in keys && key.onDelete == Cascade && References(key, p, c);
    FamilyTreeClosed(plan, s);
    GoesFromPlanned(plan, s, named, p);
    CascadeWalk.OnlyTreeKeys(View(s), keys, InitialOf(plan), p, key);
    assert (ParentColumn, IdColumn) in key.columns;
  }

  lemma LoopChildrenNamed(plan: Plan, s: Snapshot, order: seq<Item>, k: nat)
    requires Prepared(plan, s) && Ordered(plan, order) && k <= |order|
    ensures ChildrenNamed(s, LoopRows(s, order, k))
  {
    var named := LoopRows(s, order, k);
    forall p, c | p in named && c in View(s) && TreeChild(p, c) ensures c in named {
      LoopChildNamed(plan, s, order, k, p, c);
    }
  }

  lemma LoopChildNamed(plan: Plan, s: Snapshot, order: seq<Item>, k: nat, p: Entry, c: Entry)
    requires Prepared(plan, s) && Ordered(plan, order) && k <= |order|
    requires p in LoopRows(s, order, k) && c in View(s) && TreeChild(p, c)
    ensures c in LoopRows(s, order, k)
  {
    hide View, LoopRows, Ordered, WellFormed;
    LoopSessionRows(plan, s, order, k, p);
    var i :| 0 <= i < k && p == SessionEntry(order[i].table, order[i].id, order[i].row);
    assert CellOf(p.row, IdColumn) == Text(order[i].id);
    var g, id := Located(s, c);
    var m := ChildBefore(plan, s, order, i, g, id);
    OrderedItem(plan, s, order, m);
    LoopSessionRows(plan, s, order, k, c);
    assert c == SessionEntry(order[m].table, order[m].id, order[m].row);
  }

  // ----- The script of a whole deletion -----

  /** What the methods that run a plan assume of it. */
  ghost predicate Running(plan: Plan, s: Snapshot, order: seq<Item>, ids: seq<Id>) {
    && Prepared(plan, s) && CascadeWalk.Unblocked(InitialOf(plan), KeysOf(s.schema))
    && Ordered(plan, order) && Enumerates(ids, PlanIds(plan))
  }

  lemma LoopRowsWithin(s: Snapshot, order: seq<Item>, k: nat)
    requires k <= |order|
    ensures LoopRows(s, order, k) <= View(s)
    ensures k < |order| ==> LoopRows(s, order, k) <= LoopRows(s, order, k + 1)
  {
    if k < |order| { LoopRowsGrow(s, order, k); }
  }

  lemma {:induction false} CleanRowsWithin(s: Snapshot, ids: seq<Id>, m: nat)
    requires m <= 3 * |ids|
    ensures CleanRows(s, ids, m) <= View(s)
    ensures forall e :: e in CleanRows(s, ids, m) ==> !CascadeWalk.IsSessionTable(e.table)
    ensures forall e :: e in CleanRows(s, ids, m) ==> exists id :: id in ids && KeyedBy(e, {id})
  {
    hide View;
    if m > 0 {
      CleanRowsWithin(s, ids, m - 1);
      assert ids[(m - 1) / 3] in ids;
      forall e | e in AuxiliaryRows(View(s), CleanedTable(m - 1), ids[(m - 1) / 3])
        ensures !CascadeWalk.IsSessionTable(e.table) && KeyedBy(e, {ids[(m - 1) / 3]})
      {
      }
    }
  }

  lemma StageWithin(s: Snapshot, order: seq<Item>, ids: seq<Id>, k: nat)
    requires k <= |order| + 3 * |ids|
    ensures NamedBy(s, order, ids, k) <= View(s)
    ensures k > 0 ==> NamedBy(s, order, ids, k - 1) <= NamedBy(s, order, ids, k)
  {
    hide View, LoopRows, AuxiliaryRows;
    LoopRowsWithin(s, order, if k <= |order| then k else |order|);
    if 0 < k <= |order| { LoopRowsWithin(s, order, k - 1); }
    if k > |order| { CleanRowsWithin(s, ids, k - |order|); }
  }

  lemma {:induction false} StagesGrow(s: Snapshot, order: seq<Item>, ids: seq<Id>, j: nat, k: nat)
    requires j <= k <= |order| + 3 * |ids|
    ensures NamedBy(s, order, ids, j) <= NamedBy(s, order, ids, k)
    decreases k
  {
    hide NamedBy, View;
    if j < k {
      StagesGrow(s, order, ids, j, k - 1);
      StageWithin(s, order, ids, k);
    }
  }

  lemma ScriptGrows(s: Snapshot, order: seq<Item>, ids: seq<Id>)
    ensures Script(View(s), ScriptOf(s, order, ids))
  {
    var script := ScriptOf(s, order, ids);
    assert TablesAt(s, order, 0) == s.tables by { assert Deletes(order)[..0] == []; }
    forall k | 0 <= k < |script| ensures script[k] <= View(s) { StageWithin(s, order, ids, k); }
    forall j, k | 0 <= j < k < |script| ensures script[j] <= script[k] { StagesGrow(s, order, ids, j, k); }
  }

  lemma CleanRowsPlanned(plan: Plan, s: Snapshot, ids: seq<Id>, m: nat)
    requires Prepared(plan, s) && Enumerates(ids, PlanIds(plan)) && m <= 3 * |ids|
    ensures CleanRows(s, ids, m) <= PlannedRows(s, PlanIds(plan))
  {
    CleanRowsWithin(s, ids, m);
    forall e | e in CleanRows(s, ids, m) ensures KeyedBy(e, PlanIds(plan)) {
      var id :| id in ids && KeyedBy(e, {id});
    }
  }

  lemma MoreNamed(s: Snapshot, a: Rows, b: Rows)
    requires ChildrenNamed(s, a) && forall e :: e in b ==> !CascadeWalk.IsSessionTable(e.table)
    ensures ChildrenNamed(s, a + b)
  {
  }

  lemma NamedByPlanned(plan: Plan, s: Snapshot, order: seq<Item>, ids: seq<Id>, k: nat)
    requires Running(plan, s, order, ids) && k <= |order| + 3 * |ids|
    ensures NamedBy(s, order, ids, k) <= PlannedRows(s, PlanIds(plan)) && ChildrenNamed(s, NamedBy(s, order, ids, k))
  {
    hide View, LoopRows, CleanRows, PlannedRows, ChildrenNamed, Ordered, WellFormed;
    var n := if k <= |order| then k else |order|;
    LoopRowsPlanned(plan, s, order, n);
    LoopChildrenNamed(plan, s, order, n);
    if k > |order| {
      CleanRowsPlanned(plan, s, ids, k - |order|);
      CleanRowsWithin(s, ids, k - |order|);
      MoreNamed(s, LoopRows(s, order, n), CleanRows(s, ids, k - |order|));
    }
  }

  /** At every stage only the session rows named so far are gone. */
  lemma ScriptSessions(plan: Plan, s: Snapshot, order: seq<Item>, ids: seq<Id>, k: nat)
    requires Running(plan, s, order, ids) && k <= |order| + 3 * |ids|
    ensures NamedBy(s, order, ids, k) <= View(s)
    ensures var named := NamedBy(s, order, ids, k);
            forall e :: e in Cascaded(View(s), KeysOf(s.schema), named) && CascadeWalk.IsSessionTable(e.table) ==>
              e in named
  {
    NamedByPlanned(plan, s, order, ids, k);
    NoFurtherSessions(plan, s, NamedBy(s, order, ids, k));
  }
}
