/**
 Which changes between planning and locking are noticed: exactly those to the family's own rows, to
 their lineage, event and sequence rows, and to the rows that would go along from other tables.
 */
module PlanChanges {
  import opened Prelude
  import opened ForeignKeys
  import opened Lineage
  import opened Merge
  import opened Sorting
  import opened SessionTrees
  import opened Deletion
  import opened DeleteStore
  import opened DeleteLoop
  import opened DeleteStages
  import opened Transaction
  import opened DeleteEffects
  import CascadeWalk

  // ----- The family's rows -----

  /** Every id of the family, as it was or as it is, has the same row in each table. */
  ghost predicate SameSessions(before: Tables, now: Tables, root: Id) {
    forall g, id :: id in Family(before, root) || id in Family(now, root) ==>
      Get(now.Of(g), id) == Get(before.Of(g), id)
  }

  lemma {:induction false} StillDescends(before: Tables, now: Tables, root: Id, id: Id, n: nat)
    requires SameSessions(before, now, root) && DescendsBy(before, root, id, n)
    ensures DescendsBy(now, root, id, n)
    decreases n
  {
    if n > 0 {
      var p :| ChildOf(before, id, p) && DescendsBy(before, root, p, n - 1);
      StillDescends(before, now, root, p, n - 1);
      assert DescendsBy(before, root, id, n);
      assert id in Family(before, root);
      assert Get(now.Of(V1), id) == Get(before.Of(V1), id) && Get(now.Of(V2), id) == Get(before.Of(V2), id);
      assert ChildOf(now, id, p);
    }
  }

  lemma FamilyStays(before: Tables, now: Tables, root: Id)
    requires SameSessions(before, now, root)
    ensures Family(before, root) <= Family(now, root)
  {
    forall id | id in Family(before, root) ensures id in Family(now, root) {
      var n: nat :| DescendsBy(before, root, id, n);
      StillDescends(before, now, root, id, n);
      if id != root {
        assert Get(now.Of(V1), id) == Get(before.Of(V1), id) && Get(now.Of(V2), id) == Get(before.Of(V2), id);
      }
    }
  }

  lemma SameFamily(before: Tables, now: Tables, root: Id)
    requires SameSessions(before, now, root)
    ensures Family(before, root) == Family(now, root)
  {
    FamilyStays(before, now, root);
    FamilyStays(now, before, root);
  }

  /** The planned rows of each table are still those of the family. */
  ghost predicate StillListed(plan: Plan, s: Snapshot)
    requires |plan.targets| == 2
  {
    forall t :: t in plan.targets ==>
      Lists(t.generations, t.table, s.tables.Of(t.table), Family(s.tables, plan.root.id))
  }

  lemma ListedIsSame(plan: Plan, planned: Snapshot, s: Snapshot)
    requires PlanFor(plan, planned)
    ensures StillListed(plan, s) <==> SameSessions(planned.tables, s.tables, plan.root.id)
  {
    hide View, Plannable, Unreadable, RootFor, CascadeWalk.Walkable, AllDecode;
    if StillListed(plan, s) {
      forall g, id | id in Family(planned.tables, plan.root.id) || id in Family(s.tables, plan.root.id)
        ensures Get(s.tables.Of(g), id) == Get(planned.tables.Of(g), id)
      {
        ListedRow(plan, planned, s, g, id);
      }
    }
    if SameSessions(planned.tables, s.tables, plan.root.id) {
      SameFamily(planned.tables, s.tables, plan.root.id);
      forall t | t in plan.targets
        ensures Lists(t.generations, t.table, s.tables.Of(t.table), Family(s.tables, plan.root.id))
      {
        SameList(t, planned, s, plan.root.id);
      }
    }
  }

  lemma SameList(t: Target, planned: Snapshot, s: Snapshot, root: Id)
    requires SameSessions(planned.tables, s.tables, root) && Family(planned.tables, root) == Family(s.tables, root)
    requires Lists(t.generations, t.table, planned.tables.Of(t.table), Family(planned.tables, root))
    ensures Lists(t.generations, t.table, s.tables.Of(t.table), Family(s.tables, root))
  {
    hide Sorted, Family;
    forall item ensures item in t.generations <==>
      item.table == t.table && item.id in Family(s.tables, root) && item.id in s.tables.Of(t.table)
      && s.tables.Of(t.table)[item.id] == item.row
    {
      if item.id in Family(s.tables, root) {
        assert Get(s.tables.Of(t.table), item.id) == Get(planned.tables.Of(t.table), item.id);
      }
    }
  }

  /** A member of the family has a row, but for the root. */
  lemma MemberHasRow(db: Tables, root: Id, id: Id)
    requires id in Family(db, root)
    ensures id == root || exists g: Generation :: id in db.Of(g)
  {
    if id in db.v1 { assert id in db.Of(V1); }
    if id in db.v2 { assert id in db.Of(V2); }
  }

  lemma RowOf(t: Target, planned: Sessions, family: set<Id>, rows: Sessions, other: set<Id>, id: Id)
    requires Lists(t.generations, t.table, planned, family) && Lists(t.generations, t.table, rows, other)
    ensures id in family && id in planned ==> id in other && id in rows && rows[id] == planned[id]
    ensures id in other && id in rows ==> id in family && id in planned && rows[id] == planned[id]
  {
    hide Sorted;
    if id in planned { assert Item(t.table, id, planned[id]) in t.generations <==> id in family; }
    if id in rows { assert Item(t.table, id, rows[id]) in t.generations <==> id in other; }
  }

  lemma ListedRow(plan: Plan, planned: Snapshot, s: Snapshot, g: Generation, id: Id)
    requires PlanFor(plan, planned) && StillListed(plan, s)
    requires id in Family(planned.tables, plan.root.id) || id in Family(s.tables, plan.root.id)
    ensures Get(s.tables.Of(g), id) == Get(planned.tables.Of(g), id)
  {
    hide View, Plannable, Unreadable, RootFor, CascadeWalk.Walkable, AllDecode, Lists;
    var root := plan.root.id;
    var before, now := Family(planned.tables, root), Family(s.tables, root);
    forall h
      ensures id in before && id in planned.tables.Of(h) ==>
                id in now && id in s.tables.Of(h) && s.tables.Of(h)[id] == planned.tables.Of(h)[id]
      ensures id in now && id in s.tables.Of(h) ==>
                id in before && id in planned.tables.Of(h) && s.tables.Of(h)[id] == planned.tables.Of(h)[id]
    {
      var t := if plan.targets[0].table == h then plan.targets[0] else plan.targets[1];
      assert t in plan.targets && t.table == h;
      RowOf(t, planned.tables.Of(h), before, s.tables.Of(h), now, id);
    }
    RootInFamily(planned.tables, root);
    RootInFamily(s.tables, root);
    if id in before { MemberHasRow(planned.tables, root, id); }
    if id in now { MemberHasRow(s.tables, root, id); }
    hide Family, PlanFor;
    assert id in before && id in now;
  }

  // ----- Lineage, event and sequence rows -----

  lemma SameLineage(plan: Plan, planned: Snapshot, s: Snapshot)
    requires |plan.targets| == 2 && plan.lineage == LineageOf(planned.tables.lineage, PlanIds(plan))
    ensures plan.lineage == LineageOf(s.tables.lineage, PlanIds(plan)) <==>
            forall id :: id in PlanIds(plan) ==> Get(s.tables.lineage, id) == Get(planned.tables.lineage, id)
  {
    hide PlanIds;
    var ids, now := PlanIds(plan), LineageOf(s.tables.lineage, PlanIds(plan));
    assert forall id :: id in ids ==> Get(plan.lineage, id) == Get(planned.tables.lineage, id);
    assert forall id :: id in ids ==> Get(now, id) == Get(s.tables.lineage, id);
    if forall id :: id in ids ==> Get(s.tables.lineage, id) == Get(planned.tables.lineage, id) {
      forall id ensures Get(now, id) == Get(plan.lineage, id) {}
      MapsEqual(now, plan.lineage);
    }
  }

  /** The rows of `event` or `event_sequence` whose aggregate is one of the ids. */
  ghost predicate SameKeyed(before: set<Row>, now: set<Row>, ids: set<Id>) {
    forall row :: CellOf(row, AggregateColumn).Text? && CellOf(row, AggregateColumn).text in ids ==>
      (row in now <==> row in before)
  }

  lemma SameRowsFor(before: set<Row>, now: set<Row>, ids: set<Id>)
    ensures RowsFor(now, ids) == RowsFor(before, ids) <==> SameKeyed(before, now, ids)
  {
    if RowsFor(now, ids) == RowsFor(before, ids) {
      forall row | CellOf(row, AggregateColumn).Text? && CellOf(row, AggregateColumn).text in ids
        ensures row in now <==> row in before
      {
        assert row in RowsFor(now, ids) <==> row in now;
        assert row in RowsFor(before, ids) <==> row in before;
      }
    }
  }

  // ----- Rows of other tables -----

  /** The rows that would go along from the tables that the deletion does not name. */
  ghost predicate SameDependents(planned: Snapshot, s: Snapshot, ids: set<Id>) {
    forall e: Entry :: !CascadeWalk.IsNamed(e.table) ==> (e in GoneWith(s, ids) <==> e in GoneWith(planned, ids))
  }

  lemma GoesAsSelected(plan: Plan, s: Snapshot, paths: CascadeWalk.Paths, e: Entry)
    requires Prepared(plan, s) && CascadeWalk.Unblocked(InitialOf(plan), KeysOf(s.schema))
    requires CascadeWalk.PathsOf(InitialOf(plan), KeysOf(s.schema), paths)
    requires !CascadeWalk.IsNamed(e.table)
    ensures e in GoneWith(s, PlanIds(plan)) <==> e.table in paths && e.row in Selected(View(s), e.table, paths[e.table])
  {
    hide View, WellFormed;
    NamedIsPlanned(plan, s);
    FamilyTreeClosed(plan, s);
    var db, keys, initial := View(s), KeysOf(s.schema), InitialOf(plan);
    CascadedExactly(db, keys, PlannedRows(s, PlanIds(plan)), e);
    if e in db {
      CascadeWalk.WalkIsExact(db, keys, initial, paths, e);
      if e.table in paths { SelectedRow(db, paths, e); }
    }
    if e.table in paths { SelectedFromDb(db, e, paths[e.table]); }
  }

  /** No path ends in a session table. */
  lemma NoSessionPath(initial: seq<CascadeWalk.Selection>, keys: seq<ForeignKey>, paths: CascadeWalk.Paths, t: Table)
    requires CascadeWalk.PathsOf(initial, keys, paths) && t in paths && CascadeWalk.IsSessionTable(t)
    ensures forall db :: Selected(db, t, paths[t]) == {}
  {
    forall p, f ensures !CascadeWalk.EndsAt(initial, keys, p, t, f) {}
    forall f ensures f !in paths[t] { assert f in paths[t] <==> CascadeWalk.InPaths(paths, t, f); }
  }

  lemma GoneAsSelected(plan: Plan, s: Snapshot, paths: CascadeWalk.Paths)
    requires Prepared(plan, s) && CascadeWalk.Unblocked(InitialOf(plan), KeysOf(s.schema))
    requires CascadeWalk.PathsOf(InitialOf(plan), KeysOf(s.schema), paths)
    ensures forall e: Entry :: !CascadeWalk.IsNamed(e.table) ==>
              (e in GoneWith(s, PlanIds(plan)) <==>
               e.table in paths && e.row in Selected(View(s), e.table, paths[e.table]))
  {
    assert |plan.targets| == 2;
    hide View, WellFormed, GoneWith, Prepared, Selected, CascadeWalk.Unblocked, CascadeWalk.PathsOf, InitialOf, PlanIds,
      KeysOf;
    forall e: Entry | !CascadeWalk.IsNamed(e.table)
      ensures e in GoneWith(s, PlanIds(plan)) <==>
              e.table in paths && e.row in Selected(View(s), e.table, paths[e.table])
    {
      GoesAsSelected(plan, s, paths, e);
    }
  }

  lemma SameSelected(plan: Plan, planned: Snapshot, s: Snapshot, paths: CascadeWalk.Paths)
    requires Prepared(plan, planned) && Prepared(plan, s) && s.schema == planned.schema
    requires CascadeWalk.Unblocked(InitialOf(plan), KeysOf(s.schema))
    requires CascadeWalk.PathsOf(InitialOf(plan), KeysOf(s.schema), paths)
    requires plan.dependents == DependentsFor(View(planned), paths)
    ensures DependentsMatch(plan, s) <==> SameDependents(planned, s, PlanIds(plan))
  {
    assert |plan.targets| == 2;
    hide View, WellFormed, GoneWith, Prepared, Selected, CascadeWalk.Unblocked, CascadeWalk.PathsOf, InitialOf, PlanIds,
      KeysOf;
    GoneAsSelected(plan, s, paths);
    GoneAsSelected(plan, planned, paths);
    if DependentsMatch(plan, s) {
      forall e: Entry | !CascadeWalk.IsNamed(e.table)
        ensures e in GoneWith(s, PlanIds(plan)) <==> e in GoneWith(planned, PlanIds(plan))
      {
        if e.table in paths {
          assert e.table in plan.dependents && plan.dependents[e.table].filters == paths[e.table];
        }
      }
    }
    if SameDependents(planned, s, PlanIds(plan)) {
      forall t | t in plan.dependents
        ensures Selected(View(s), t, plan.dependents[t].filters) == plan.dependents[t].rows
      {
        if CascadeWalk.IsSessionTable(t) {
          NoSessionPath(InitialOf(plan), KeysOf(s.schema), paths, t);
        } else {
          forall row ensures row in Selected(View(s), t, paths[t]) <==> row in Selected(View(planned), t, paths[t]) {
            assert Entry(t, row) in GoneWith(s, PlanIds(plan)) <==> Entry(t, row) in GoneWith(planned, PlanIds(plan));
          }
        }
      }
    }
  }

  // ----- The comparison -----

  lemma StillPrepared(plan: Plan, planned: Snapshot, s: Snapshot)
    requires PlanFor(plan, planned) && WellFormed(s) && TargetsMatch(plan, s)
    ensures Prepared(plan, s) && CascadeWalk.Unblocked(InitialOf(plan), KeysOf(s.schema))
    ensures PlanIds(plan) == Family(s.tables, plan.root.id)
  {
    hide View, WellFormed;
    RootPlanned(plan, planned);
    FamilyIsPlanned(plan, s);
  }

  /** Nothing that the deletion would take, or that decides what it would take, has changed. */
  ghost predicate Unchanged(planned: Snapshot, s: Snapshot, root: Id) {
    var family := Family(planned.tables, root);
    && s.schema == planned.schema
    && SameSessions(planned.tables, s.tables, root)
    && (forall id :: id in family ==> Get(s.tables.lineage, id) == Get(planned.tables.lineage, id))
    && (s.schema.events.Fit? ==> SameKeyed(planned.events, s.events, family))
    && (s.schema.sequences.Fit? ==> SameKeyed(planned.sequences, s.sequences, family))
    && SameDependents(planned, s, family)
  }

  lemma TargetsParts(plan: Plan, planned: Snapshot, s: Snapshot)
    requires TargetsMatch(plan, planned)
    ensures var ids := PlanIds(plan);
            TargetsMatch(plan, s) <==>
            && s.schema == planned.schema && StillListed(plan, s)
            && plan.lineage == LineageOf(s.tables.lineage, ids)
            && (s.schema.events.Fit? ==> RowsFor(s.events, ids) == RowsFor(planned.events, ids))
            && (s.schema.sequences.Fit? ==> RowsFor(s.sequences, ids) == RowsFor(planned.sequences, ids))
  {
    hide Lists, LineageOf, RowsFor, Family, PlanIds;
  }

  lemma TargetsUnchanged(plan: Plan, planned: Snapshot, s: Snapshot)
    requires PlanFor(plan, planned) && PlanIds(plan) == Family(planned.tables, plan.root.id)
    ensures var family := Family(planned.tables, plan.root.id);
            TargetsMatch(plan, s) <==>
            && s.schema == planned.schema
            && SameSessions(planned.tables, s.tables, plan.root.id)
            && (forall id :: id in family ==> Get(s.tables.lineage, id) == Get(planned.tables.lineage, id))
            && (s.schema.events.Fit? ==> SameKeyed(planned.events, s.events, family))
            && (s.schema.sequences.Fit? ==> SameKeyed(planned.sequences, s.sequences, family))
  {
    hide View, WellFormed, Unreadable, RootFor, CascadeWalk.Walkable, AllDecode, Lists, LineageOf, RowsFor, SameKeyed,
      SameSessions, StillListed, Family, PlanIds, Plannable;
    TargetsParts(plan, planned, s);
    ListedIsSame(plan, planned, s);
    SameLineage(plan, planned, s);
    SameRowsFor(planned.events, s.events, PlanIds(plan));
    SameRowsFor(planned.sequences, s.sequences, PlanIds(plan));
  }

  /** The plan of a snapshot still matches a later one exactly when nothing has changed. */
  lemma NoticesExactly(plan: Plan, planned: Snapshot, s: Snapshot)
    requires PlanFor(plan, planned) && WellFormed(planned) && WellFormed(s)
    ensures Matches(plan, s) <==> Unchanged(planned, s, plan.root.id)
  {
    FreshPlanMatches(plan, planned);
    StillPrepared(plan, planned, planned);
    TargetsUnchanged(plan, planned, s);
    if TargetsMatch(plan, s) {
      StillPrepared(plan, planned, s);
      Dependents(plan, planned, s);
    }
    hide View, PlanFor, WellFormed, DependentsMatch, SameDependents, TargetsMatch;
  }

  lemma Dependents(plan: Plan, planned: Snapshot, s: Snapshot)
    requires PlanFor(plan, planned) && Prepared(plan, planned) && Prepared(plan, s) && s.schema == planned.schema
    requires CascadeWalk.Unblocked(InitialOf(plan), KeysOf(s.schema))
    ensures DependentsMatch(plan, s) <==> SameDependents(planned, s, PlanIds(plan))
  {
    var paths :| CascadeWalk.PathsOf(InitialOf(plan), planned.schema.keys.value, paths)
                 && plan.dependents == DependentsFor(View(planned), paths);
    hide View, WellFormed, PlanFor, DependentsMatch, SameDependents, InitialOf, DependentsFor;
    SameSelected(plan, planned, s, paths);
  }

  /** The comparison under the lock passes exactly when nothing has changed and no row of the family
      is shared. */
  lemma ComparesExactly(plan: Plan, planned: Snapshot, s: Snapshot, shared: set<(Generation, Id)>,
                        e: Option<DeleteError>)
    requires PlanFor(plan, planned) && WellFormed(planned) && WellFormed(s)
    requires e.None? <==> Matches(plan, s) && !AnyShared(plan, shared)
    ensures e.None? <==>
            Unchanged(planned, s, plan.root.id)
            && forall g, id :: id in Family(planned.tables, plan.root.id) && id in planned.tables.Of(g) ==>
                 (g, id) !in shared
  {
    NoticesExactly(plan, planned, s);
    hide View, WellFormed, Unreadable, RootFor, CascadeWalk.Walkable, AllDecode, Lists, Unchanged, Family;
    forall g, id | id in Family(planned.tables, plan.root.id) && id in planned.tables.Of(g)
      ensures Item(g, id, planned.tables.Of(g)[id]) in AllItems(plan)
    {
      PlannedRow(plan, planned, g, id);
    }
    forall item | item in AllItems(plan)
      ensures item.id in Family(planned.tables, plan.root.id) && item.id in planned.tables.Of(item.table)
    {
      PlannedItem(plan, planned, item);
    }
  }

  // ----- A session that was copied and removed again in between -----

  /** Only V1 has the session, and no key refers to it. */
  function OneV1(lineage: LineageRow): Snapshot {
    Snapshot(Schema(1, "", Fit, Fit, Missing, Missing, Missing, true, true, Some([])),
             Tables(map["a" := SESSION_A], map[], map["a" := lineage]), {}, {}, {})
  }

  const ADOPTED := LineageRow(Some(1), Some(2), None, None, true, false, false)
  const REMOVED_AGAIN := LineageRow(Some(1), Some(2), Some(1), Some(3), true, false, true)

  /** The later copy comes and goes; the session tables are as before. */
  lemma ComesAndGoes()
    ensures Run(OneV1(ADOPTED).tables, [Insert(V2, "a", SESSION_A.(updated := 3)), Delete(V2, "a")])
            == OneV1(REMOVED_AGAIN).tables
  {
    var ss := [Insert(V2, "a", SESSION_A.(updated := 3)), Delete(V2, "a")];
    assert ss[..1] == [Insert(V2, "a", SESSION_A.(updated := 3))] && ss[..1][..0] == [];
    var mid := Tables(map["a" := SESSION_A], map["a" := SESSION_A.(updated := 3)],
                      map["a" := LineageRow(Some(1), Some(2), Some(1), Some(3), true, true, false)]);
    assert Run(OneV1(ADOPTED).tables, ss[..1]) == mid;
    var end := Step(mid, Delete(V2, "a"));
    assert end.v2 == map[] && end.lineage == map["a" := REMOVED_AGAIN];
  }

  lemma OneV1Reads()
    ensures RootFor(OneV1(ADOPTED), "a") == Some(Item(V1, "a", SESSION_A))
    ensures !Unreadable(OneV1(ADOPTED), "a") && FamilyDecodes(OneV1(ADOPTED), "a")
    ensures WellFormed(OneV1(ADOPTED)) && WellFormed(OneV1(REMOVED_AGAIN))
  {
    hide TombstonesOf, Family;
    TombstoneRead(OneV1(ADOPTED).tables.lineage, "a");
    assert Decodes(SESSION_A);
  }

  method PlanOneV1() returns (plan: Plan)
    ensures PlanFor(plan, OneV1(ADOPTED)) && plan.root.id == "a"
  {
    hide View, DependentsFor, Lists, RootFor, Unreadable, FamilyDecodes, WellFormed;
    OneV1Reads();
    var planned := OneV1(ADOPTED);
    InertWalkable(InitialFor(planned, Item(V1, "a", SESSION_A)), []);
    var built := BuildPlan(planned, "a");
    plan := built.value.value;
  }

  /** A plan that does not match is refused as stale when nothing is shared. */
  method RunPlan(plan: Plan, ghost planned: Snapshot, later: Snapshot) returns (r: Result<(), DeleteError>)
    requires PlanFor(plan, planned) && WellFormed(later) && |plan.targets| == 2
    requires !Comparable(plan, later, {}) && !AnyShared(plan, {})
    ensures r == Err(Stale)
  {
    hide *;
    var store := new Store(later);
    assert store.State() == later;
    ghost var order, ids;
    r, order, ids := DeleteGenerations(store, plan, planned, {}, true);
    assert r.Err? && r.error != Failed && r.error != DeleteError.Shared;
  }

  /** The plan is refused as stale although both session tables are as they were. */
  method StaleByTombstone() returns (r: Result<(), DeleteError>)
    ensures r == Err(Stale)
  {
    hide Comparable, PlanFor, OneV1, WellFormed, AnyShared;
    OneV1Reads();
    var plan := PlanOneV1();
    LineageChanged(plan);
    r := RunPlan(plan, OneV1(ADOPTED), OneV1(REMOVED_AGAIN));
  }

  lemma LineageChanged(plan: Plan)
    requires PlanFor(plan, OneV1(ADOPTED)) && plan.root.id == "a"
    ensures |plan.targets| == 2 && !Comparable(plan, OneV1(REMOVED_AGAIN), {}) && !AnyShared(plan, {})
  {
    hide View;
    OneV1Reads();
    NoticesExactly(plan, OneV1(ADOPTED), OneV1(REMOVED_AGAIN));
    RootInFamily(OneV1(ADOPTED).tables, "a");
    assert Get(OneV1(ADOPTED).tables.lineage, "a") != Get(OneV1(REMOVED_AGAIN).tables.lineage, "a");
  }
}
