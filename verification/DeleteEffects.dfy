/**
 What a deletion takes from the tables it does not name, and which rows can make it fail.
 */
module DeleteEffects {
  import opened Prelude
  import opened ForeignKeys
  import opened Lineage
  import opened Merge
  import opened Sorting
  import opened SessionTrees
  import opened Deletion
  import opened DeleteStore
  import opened DeleteLoop
  import opened DeleteStages
  import opened Transaction
  import CascadeWalk

  // ----- Rows of other tables -----

  /** From every other table go exactly the rows that the plan recorded of it. */
  lemma DependentsExactly(plan: Plan, planned: Snapshot, s: Snapshot, e: Entry)
    requires Ready(plan, planned, s)
    requires !CascadeWalk.IsSessionTable(e.table) && !CascadeWalk.IsAuxiliary(e.table)
    ensures e in GoneWith(s, PlanIds(plan)) <==> e.table in plan.dependents && e.row in plan.dependents[e.table].rows
  {
    hide View, WellFormed;
    ReadyIsPrepared(plan, planned, s);
    NamedIsPlanned(plan, s);
    FamilyTreeClosed(plan, s);
    var db, keys, initial := View(s), KeysOf(s.schema), InitialOf(plan);
    var paths :| CascadeWalk.PathsOf(initial, keys, paths) && plan.dependents == DependentsFor(View(planned), paths);
    CascadedExactly(db, keys, PlannedRows(s, PlanIds(plan)), e);
    if e in db {
      CascadeWalk.WalkIsExact(db, keys, initial, paths, e);
      if e.table in paths { SelectedRow(db, paths, e); }
    }
    if e.table in plan.dependents {
      assert Selected(db, e.table, plan.dependents[e.table].filters) == plan.dependents[e.table].rows;
      SelectedFromDb(db, e, plan.dependents[e.table].filters);
    }
  }

  lemma SelectedRow(db: Rows, paths: CascadeWalk.Paths, e: Entry)
    requires e in db && e.table in paths
    ensures e.row in Selected(db, e.table, paths[e.table]) <==>
              exists f :: f in paths[e.table] && CascadeWalk.Satisfies(db, f, e.row)
  {
    if e.row in Selected(db, e.table, paths[e.table]) {
      var x :| x in db && x.table == e.table && x.row == e.row
               && exists f :: f in paths[e.table] && CascadeWalk.Satisfies(db, f, x.row);
      assert x == e;
    }
  }

  lemma SelectedFromDb(db: Rows, e: Entry, filters: seq<CascadeWalk.Predicate>)
    ensures e.row in Selected(db, e.table, filters) ==> e in db
  {
    if e.row in Selected(db, e.table, filters) {
      var x :| x in db && x.table == e.table && x.row == e.row;
      assert x == e;
    }
  }

  // ----- Event rows -----

  /** Whatever cascades into `event` or `event_sequence` does so by the session's id. */
  predicate ByAggregate(keys: seq<ForeignKey>) {
    forall key :: key in keys && key.onDelete == Cascade && (key.child == Event || key.child == EventSequence) ==>
      && CascadeWalk.IsNamed(key.parent)
      && (AggregateColumn, KeyColumn(key.parent)) in key.columns
  }

  /** Then exactly the family's event and sequence rows go. */
  lemma EventsExactly(plan: Plan, planned: Snapshot, s: Snapshot)
    requires Ready(plan, planned, s) && ByAggregate(KeysOf(s.schema))
    ensures RowsIn(GoneWith(s, PlanIds(plan)), Event) == RowsFor(s.events, PlanIds(plan))
    ensures RowsIn(GoneWith(s, PlanIds(plan)), EventSequence) == RowsFor(s.sequences, PlanIds(plan))
  {
    hide View, WellFormed, PlanFor, Matches, GoneWith, KeyedBy;
    ReadyIsPrepared(plan, planned, s);
    KeyedRowsGo(plan, s, Event, s.events);
    KeyedRowsGo(plan, s, EventSequence, s.sequences);
  }

  lemma KeyedRowsGo(plan: Plan, s: Snapshot, t: Table, rows: set<Row>)
    requires Prepared(plan, s) && CascadeWalk.Unblocked(InitialOf(plan), KeysOf(s.schema))
    requires ByAggregate(KeysOf(s.schema))
    requires (t == Event && rows == s.events) || (t == EventSequence && rows == s.sequences)
    ensures RowsIn(GoneWith(s, PlanIds(plan)), t) == RowsFor(rows, PlanIds(plan))
  {
    hide View, WellFormed, Ordered, GoneWith;
    var gone, ids := GoneWith(s, PlanIds(plan)), PlanIds(plan);
    OnlyKeyedGo(plan, s);
    ViewEntries(s);
    PlannedGo(s, ids);
    forall row ensures row in RowsIn(gone, t) <==> row in RowsFor(rows, ids) {
      assert row in RowsIn(gone, t) <==> Entry(t, row) in gone;
      assert KeyedBy(Entry(t, row), ids) <==> BelongsTo(row, ids);
    }
  }

  lemma PlannedGo(s: Snapshot, ids: set<Id>)
    ensures GoneWith(s, ids) <= View(s)
    ensures forall e :: e in View(s) && KeyedBy(e, ids) ==> e in GoneWith(s, ids)
  {
  }

  lemma OnlyKeyedGo(plan: Plan, s: Snapshot)
    requires Prepared(plan, s) && CascadeWalk.Unblocked(InitialOf(plan), KeysOf(s.schema))
    requires ByAggregate(KeysOf(s.schema))
    ensures forall e :: e in GoneWith(s, PlanIds(plan)) && CascadeWalk.IsNamed(e.table) ==> KeyedBy(e, PlanIds(plan))
  {
    hide View, Ordered;
    var db, keys, named := View(s), KeysOf(s.schema), PlannedRows(s, PlanIds(plan));
    AllChildrenNamed(plan, s);
    NoFurtherSessions(plan, s, named);
    KeyedClosed(db, keys, named, PlanIds(plan));
  }

  lemma AllChildrenNamed(plan: Plan, s: Snapshot)
    requires Prepared(plan, s)
    ensures ChildrenNamed(s, PlannedRows(s, PlanIds(plan)))
  {
    forall p, c | p in PlannedRows(s, PlanIds(plan)) && c in View(s) && TreeChild(p, c)
      ensures KeyedBy(c, PlanIds(plan))
    {
      ChildIsPlanned(plan, s, p, c);
    }
  }

  lemma ChildIsPlanned(plan: Plan, s: Snapshot, p: Entry, c: Entry)
    requires Prepared(plan, s) && p in View(s) && KeyedBy(p, PlanIds(plan)) && c in View(s) && TreeChild(p, c)
    ensures KeyedBy(c, PlanIds(plan))
  {
    hide View;
    var g, id := Located(s, p);
    var h, child := Located(s, c);
    FamilyIsPlanned(plan, s);
    FamilyClosed(s.tables, plan.root.id, child, id);
  }

  lemma KeyedClosed(db: Rows, keys: seq<ForeignKey>, named: Rows, ids: set<Id>)
    requires named <= db && (forall e :: e in named ==> KeyedBy(e, ids)) && ByAggregate(keys)
    requires forall key :: key in keys ==> key.child != LineageShadow
    requires forall e :: e in Cascaded(db, keys, named) && CascadeWalk.IsSessionTable(e.table) ==> e in named
    ensures forall e :: e in Cascaded(db, keys, named) && CascadeWalk.IsNamed(e.table) ==> KeyedBy(e, ids)
  {
    var gone := Cascaded(db, keys, named);
    var closed := set e | e in gone && (CascadeWalk.IsAuxiliary(e.table) ==> KeyedBy(e, ids));
    CascadedClosed(db, keys, named);
    forall p, c | p in closed && c in db && Follows(keys, p, c) ensures c in closed {
      if CascadeWalk.IsAuxiliary(c.table) {
        var key :| key in keys && key.onDelete == Cascade && References(key, p, c);
        assert (AggregateColumn, KeyColumn(key.parent)) in key.columns;
      }
    }
    CascadedLeast(db, keys, named, closed);
  }

  // ----- The order -----

  /** The plan determines the child-first order. */
  lemma OrderDetermined(plan: Plan, s: Snapshot, a: seq<Item>, b: seq<Item>)
    requires Prepared(plan, s) && Ordered(plan, a) && Ordered(plan, b)
    ensures a == b
  {
    hide View, WellFormed, Ordered, RanksOf, Lists, Sorted;
    var parents, ra := RanksOfOrder(plan, a);
    var p, rb := RanksOfOrder(plan, b);
    ParentsOfUnique(parents, p, AllItems(plan));
    ItemsDistinct(plan, s);
    RanksDistinct(plan, ra, a);
    RanksDistinct(plan, rb, b);
    forall x ensures x in ra <==> x in rb {
      if x in ra { SameRank(plan, parents, ra, rb, b, x); }
      if x in rb { SameRank(plan, parents, rb, ra, a, x); }
    }
    DistinctMultiset(ra, rb);
    RanksTotal(plan, s, parents, ra);
    RankedOrder();
    SortedIsUnique(RankedBefore, ra, rb);
  }

  /** The order in terms of the tables: a row that is further below the root comes first; of equally
      deep ones those outside the root's table; of those in one table that with the smaller id. */
  lemma DeepestFirst(plan: Plan, s: Snapshot, order: seq<Item>, i: nat, j: nat, m: nat, n: nat)
    requires Prepared(plan, s) && Ordered(plan, order) && i < j < |order|
    requires DescendsBy(s.tables, plan.root.id, order[i].id, m)
    requires DescendsBy(s.tables, plan.root.id, order[j].id, n)
    ensures m >= n
    ensures m == n && order[i].table != order[j].table ==> order[j].table == plan.root.table
    ensures m == n && order[i].table == order[j].table ==> StringLess(order[i].id, order[j].id)
  {
    hide View, WellFormed, RanksOf, Lists, Sorted, RankOrdered, ChildFirst;
    var parents, ranked := RanksOfSorted(plan, order);
    DepthIs(plan, s, order, parents, ranked, i, m);
    DepthIs(plan, s, order, parents, ranked, j, n);
    ItemsDistinct(plan, s);
    SameDistinct(order, AllItems(plan));
    SortedAt(plan, s, order, ranked, i, j);
  }

  lemma RanksOfSorted(plan: Plan, order: seq<Item>) returns (parents: Parents, ranked: seq<Ranked>)
    requires |plan.targets| == 2 && Ordered(plan, order)
    ensures ParentsOf(parents, AllItems(plan)) && RanksOf(ranked, plan, parents) && Sorted(RankedBefore, ranked)
    ensures |ranked| == |order| && forall k :: 0 <= k < |order| ==> ranked[k].item == order[k]
  {
    parents, ranked := RanksOfOrder(plan, order);
  }

  lemma DepthIs(plan: Plan, s: Snapshot, order: seq<Item>, parents: Parents, ranked: seq<Ranked>, k: nat, n: nat)
    requires Prepared(plan, s) && ParentsOf(parents, AllItems(plan)) && RanksOf(ranked, plan, parents)
    requires k < |ranked| == |order| && ranked[k].item == order[k]
    requires DescendsBy(s.tables, plan.root.id, order[k].id, n)
    ensures ranked[k].depth == n && (ranked[k].last <==> order[k].table == plan.root.table)
  {
    assert ranked[k] in ranked;
    DescendsAsWalked(plan, s, parents, order[k].id, n);
    WalkUnique(parents, plan.root.id, order[k].id, n, ranked[k].depth);
  }

  lemma {:induction false} DescendsAsWalked(plan: Plan, s: Snapshot, parents: Parents, id: Id, n: nat)
    requires Prepared(plan, s) && ParentsOf(parents, AllItems(plan)) && DescendsBy(s.tables, plan.root.id, id, n)
    ensures WalkReaches(parents, plan.root.id, id, n)
    decreases n
  {
    if n > 0 {
      var root := plan.root.id;
      var p :| ChildOf(s.tables, id, p) && DescendsBy(s.tables, root, p, n - 1);
      DescendsAsWalked(plan, s, parents, p, n - 1);
      assert DescendsBy(s.tables, root, id, n);
      assert id in Family(s.tables, root);
      var g := if id in s.tables.v1 && s.tables.v1[id].parent == Some(p) then V1 else V2;
      PlannedRow(plan, s, g, id);
      assert parents[root] == plan.root.row.parent;
    }
  }

  lemma SortedAt(plan: Plan, s: Snapshot, order: seq<Item>, ranked: seq<Ranked>, i: nat, j: nat)
    requires i < j < |order| == |ranked| && Sorted(RankedBefore, ranked) && Distinct(order)
    requires TargetsMatch(plan, s) && Ordered(plan, order)
    requires ranked[i].item == order[i] && ranked[j].item == order[j]
    ensures ranked[i].depth >= ranked[j].depth
    ensures ranked[i].depth == ranked[j].depth ==>
              && (ranked[i].last ==> ranked[j].last)
              && (ranked[i].last == ranked[j].last && order[i].table == order[j].table ==>
                    StringLess(order[i].id, order[j].id))
  {
    StringOrder();
    OrderedItem(plan, s, order, i);
    OrderedItem(plan, s, order, j);
  }

  lemma RanksOfOrder(plan: Plan, order: seq<Item>) returns (parents: Parents, ranked: seq<Ranked>)
    requires |plan.targets| == 2 && Ordered(plan, order)
    ensures ParentsOf(parents, AllItems(plan)) && RanksOf(ranked, plan, parents) && Sorted(RankedBefore, ranked)
    ensures Stripped(ranked) == order && multiset(order) == multiset(AllItems(plan))
  {
    hide ChildFirst, ParentsAgree;
    parents, ranked :| ParentsOf(parents, AllItems(plan)) && RanksOf(ranked, plan, parents)
                       && Sorted(RankedBefore, ranked) && Stripped(ranked) == order;
  }

  lemma RanksDistinct(plan: Plan, ranked: seq<Ranked>, order: seq<Item>)
    requires |plan.targets| == 2 && Distinct(AllItems(plan)) && multiset(order) == multiset(AllItems(plan))
    requires Stripped(ranked) == order
    ensures Distinct(ranked)
  {
    SameDistinct(order, AllItems(plan));
  }

  lemma SameRank(plan: Plan, parents: Parents, ra: seq<Ranked>, rb: seq<Ranked>, b: seq<Item>, x: Ranked)
    requires |plan.targets| == 2 && RanksOf(ra, plan, parents) && RanksOf(rb, plan, parents) && x in ra
    requires Stripped(rb) == b && multiset(b) == multiset(AllItems(plan))
    ensures x in rb
  {
    SameSize(b, AllItems(plan));
    assert x.item in b;
    var j :| 0 <= j < |b| && b[j] == x.item;
    assert rb[j] in rb;
    WalkUnique(parents, plan.root.id, x.item.id, x.depth, rb[j].depth);
  }

  lemma RanksTotal(plan: Plan, s: Snapshot, parents: Parents, ranked: seq<Ranked>)
    requires Built(plan, s) && RanksOf(ranked, plan, parents)
    ensures TotalOn(RankedBefore, ranked)
  {
    StringOrder();
    forall x, y | x in ranked && y in ranked && x != y ensures RankedBefore(x, y) || RankedBefore(y, x) {
      PlannedItem(plan, s, x.item);
      PlannedItem(plan, s, y.item);
      if x.item.id == y.item.id && x.item.table == y.item.table {
        WalkUnique(parents, plan.root.id, x.item.id, x.depth, y.depth);
      }
    }
  }

  // ----- Rows that make it fail -----

  /** The restricting keys other than the session tree's own. */
  predicate Holding(key: ForeignKey) {
    (Immediate(key) || Deferred(key)) && !CascadeWalk.SupportedTreeKey(key)
  }

  /** A row that stays refers by an immediate key to one that would go. */
  ghost predicate HeldForGood(s: Snapshot, ids: set<Id>) {
    Held(View(s), KeysOf(s.schema), GoneWith(s, ids))
  }

  /** Any row at all, even one that would go as well, so refers to one that would go. */
  ghost predicate Referenced(s: Snapshot, ids: set<Id>) {
    exists key, p, c {:trigger References(key, p, c)} ::
      key in KeysOf(s.schema) && Holding(key) && p in GoneWith(s, ids) && c in View(s) && References(key, p, c)
  }

  /** A row that stays and so refers to one that would go makes the deletion fail, in whatever order
      the ids are cleaned up. */
  lemma HeldForGoodFails(plan: Plan, s: Snapshot, order: seq<Item>, ids: seq<Id>)
    requires Running(plan, s, order, ids) && (HeldForGood(s, PlanIds(plan)) || LeftDangling(s, PlanIds(plan)))
    ensures !GoesThrough(s, PlanIds(plan), order, ids)
  {
    hide View, Ordered;
    AllNamed(plan, s, order, ids);
    BeforeFirst(plan, s, order, ids);
    if HeldForGood(s, PlanIds(plan)) { assert Refused(s, order, ids, |order| + 3 * |ids|); }
  }

  /** Without any such row nothing is refused, whatever the session tree's own key does. */
  lemma UnreferencedSucceeds(plan: Plan, s: Snapshot, order: seq<Item>, ids: seq<Id>)
    requires Running(plan, s, order, ids) && !Referenced(s, PlanIds(plan))
    ensures GoesThrough(s, PlanIds(plan), order, ids)
  {
    hide View, Ordered, Dangling, NamedBy, Refused, ScriptOf, PlannedRows, Referenced, Prepared;
    BeforeFirst(plan, s, order, ids);
    forall k | 0 <= k <= |order| + 3 * |ids| ensures !Refused(s, order, ids, k) {
      NotRefused(plan, s, order, ids, k);
    }
    NotRefused(plan, s, order, ids, |order| + 3 * |ids|);
    AllNamed(plan, s, order, ids);
  }

  lemma NotRefused(plan: Plan, s: Snapshot, order: seq<Item>, ids: seq<Id>, k: nat)
    requires Running(plan, s, order, ids) && !Referenced(s, PlanIds(plan))
    requires k <= |order| + 3 * |ids| && Script(View(s), ScriptOf(s, order, ids))
    ensures !Refused(s, order, ids, k)
    ensures !Dangling(View(s), KeysOf(s.schema), Cascaded(View(s), KeysOf(s.schema), NamedBy(s, order, ids, k)))
  {
    hide View, Ordered;
    var db, keys, named := View(s), KeysOf(s.schema), NamedBy(s, order, ids, k);
    NamedByPlanned(plan, s, order, ids, k);
    ScriptSessions(plan, s, order, ids, k);
    CascadedMonotone(db, keys, named, PlannedRows(s, PlanIds(plan)));
    forall key, p, c | key in keys && p in Cascaded(db, keys, named) && c in db && References(key, p, c)
                       && (Immediate(key) || Deferred(key))
      ensures c in Cascaded(db, keys, named)
    {
      assert CascadeWalk.SupportedTreeKey(key);
      assert (ParentColumn, IdColumn) in key.columns;
      assert TreeChild(p, c);
    }
  }

  // ----- Inputs on which the deletion fails -----

  /** Keys that neither cascade nor rewrite never stop the walk. */
  lemma InertWalkable(initial: seq<CascadeWalk.Selection>, keys: seq<ForeignKey>)
    requires |initial| <= 5
    requires forall key :: key in keys ==> key.onDelete == NoAction || key.onDelete == Restrict
    ensures CascadeWalk.Walkable(initial, keys)
  {
    var all := seq(|initial|, (k: nat) => CascadeWalk.KeyPath(k, []));
    assert forall i :: 0 <= i < |keys| ==> keys[i] in keys;
    forall p | CascadeWalk.IsPath(initial, keys, p) ensures p in all {
      assert all[p.start] == p;
    }
  }

  const NOTED := Entry(OtherTable("note"), map[SessionColumn := Text("a")])
  const SESSION_A := SessionRow(1, 2, None, None, map[DirectoryColumn := Text("/")])

  /** A plain key, immediate or deferred. */
  function Note(deferred: bool): ForeignKey {
    ForeignKey(OtherTable("note"), SessionV2, NoAction, [(SessionColumn, IdColumn)], deferred)
  }

  /** One V2 session "a", and a note that refers to it. */
  function Noted(deferred: bool): Snapshot {
    Snapshot(Schema(1, "", Missing, Fit, Missing, Missing, Missing, false, true, Some([Note(deferred)])),
             Tables(map[], map["a" := SESSION_A], map[]), {}, {}, {NOTED})
  }

  lemma NotedHeld(deferred: bool)
    ensures WellFormed(Noted(deferred))
    ensures if deferred then LeftDangling(Noted(deferred), {"a"}) else HeldForGood(Noted(deferred), {"a"})
  {
    var s := Noted(deferred);
    var own := SessionEntry(V2, "a", SESSION_A);
    SessionRowIn(s.tables, V2, "a");
    assert CellOf(own.row, IdColumn) == Text("a") && own in PlannedRows(s, {"a"});
    CascadedLeast(View(s), [Note(deferred)], PlannedRows(s, {"a"}), PlannedRows(s, {"a"}));
    assert References(Note(deferred), own, NOTED) && NOTED in View(s);
  }

  lemma NotedReads(deferred: bool)
    ensures var root := Item(V2, "a", SESSION_A);
            && RootFor(Noted(deferred), "a") == Some(root)
            && !Unreadable(Noted(deferred), "a") && FamilyDecodes(Noted(deferred), "a")
  {
    hide TombstonesOf, Family;
    TombstoneRead(Noted(deferred).tables.lineage, "a");
    assert Decodes(SESSION_A);
  }

  /** The plan can be made and still matches, and yet a statement or COMMIT fails. */
  method RefusedByNote(deferred: bool) returns (r: Result<(), DeleteError>)
    ensures r == Err(Failed)
  {
    hide View, GoesThrough, HeldForGood, LeftDangling, After, DependentsFor, Lists, RootFor, Unreadable, FamilyDecodes;
    var s := Noted(deferred);
    NotedHeld(deferred);
    var store := new Store(s);
    var root := Item(V2, "a", SESSION_A);
    NotedReads(deferred);
    InertWalkable(InitialFor(s, root), [Note(deferred)]);
    var built := BuildPlan(s, "a");
    var plan := built.value.value;
    FreshPlanMatches(plan, s);
    NotedIds(plan, deferred);
    ghost var order, ids;
    r, order, ids := DeleteGenerations(store, plan, s, {}, true);
    ReadyIsPrepared(plan, s, s);
    HeldForGoodFails(plan, s, order, ids);
  }

  lemma FreshPlanMatches(plan: Plan, s: Snapshot)
    requires PlanFor(plan, s)
    ensures Matches(plan, s)
  {
  }

  lemma NotedIds(plan: Plan, deferred: bool)
    requires PlanFor(plan, Noted(deferred)) && plan.root.id == "a" && WellFormed(Noted(deferred))
    ensures PlanIds(plan) == {"a"} && ParentsAgree(AllItems(plan))
  {
    hide View, WellFormed, TombstonesOf, Merged, Unreadable, RootFor, AllDecode, DependentsFor, Lists;
    var s := Noted(deferred);
    RootPlanned(plan, s);
    assert "a" in PlanIds(plan);
    forall item | item in AllItems(plan) ensures item == Item(V2, "a", SESSION_A) { PlannedItem(plan, s, item); }
  }
}
