/**
 Planning a deletion in a database with known contents, keys that cascade over two tables included.
 */
module PlanRuns {
  import opened Prelude
  import opened ForeignKeys
  import opened Lineage
  import opened Merge
  import opened Sorting
  import opened SessionTrees
  import opened Deletion
  import opened DeleteStore
  import opened DeleteLoop
  import opened DeleteStages
  import opened Transaction
  import opened DeleteEffects
  import CascadeWalk
  import CascadeGraph

  // ----- dependent.session_id -> session_v2.id and attachment.dependent_id -> dependent.id -----

  const DEPENDENT := OtherTable("dependent")
  const ATTACHMENT := OtherTable("attachment")

  /** The session table's own key, and two keys in a row. */
  const CHAIN: seq<ForeignKey> := [
    ForeignKey(SessionV2, SessionV2, Cascade, [(ParentColumn, IdColumn)], false),
    ForeignKey(DEPENDENT, SessionV2, Cascade, [(SessionColumn, IdColumn)], false),
    ForeignKey(ATTACHMENT, DEPENDENT, Cascade, [(OtherColumn("dependent_id"), IdColumn)], false)]

  /** The chains of keys that start at the only planned selection. */
  lemma ChainLeads(steps: seq<nat>, u: Table)
    requires CascadeGraph.Leads(CHAIN, SessionV2, steps, u)
    ensures steps in [[], [1], [1, 2]]
    ensures u == if steps == [] then SessionV2 else if steps == [1] then DEPENDENT else ATTACHMENT
    decreases |steps|
  {
    if steps != [] {
      var front, j := steps[..|steps| - 1], steps[|steps| - 1];
      ChainLeads(front, CHAIN[j].parent);
      assert steps == front + [j];
      assert [] + [j] == [j] && [1] + [j] == [1, j];
    }
  }

  /** A single selection, of rows of `session_v2`. */
  ghost predicate FromSessions(initial: seq<CascadeWalk.Selection>) {
    CascadeWalk.PlannedRows(initial) && |initial| == 1 && initial[0].table == SessionV2
  }

  lemma ChainLeaves(initial: seq<CascadeWalk.Selection>)
    requires FromSessions(initial)
    ensures CascadeGraph.OnlyRemoves(initial, CHAIN) && CascadeGraph.LeavesSessions(initial, CHAIN)
  {
  }

  lemma ChainEnds(initial: seq<CascadeWalk.Selection>)
    requires FromSessions(initial)
    ensures CascadeGraph.NoCycle(initial, CHAIN)
  {
    hide CHAIN;
    forall t, steps | CascadeGraph.Reached(initial, CHAIN, t) && CascadeGraph.Leads(CHAIN, t, steps, t)
      ensures steps == []
    {
      var k, before :| 0 <= k < |initial| && CascadeGraph.Leads(CHAIN, initial[k].table, before, t);
      CascadeGraph.LeadsOn(CHAIN, SessionV2, before, t, steps, t);
      ChainLeads(before, t);
      ChainLeads(before + steps, t);
    }
  }

  lemma ChainsCounted(initial: seq<CascadeWalk.Selection>)
    requires FromSessions(initial)
    ensures CascadeGraph.ChainsWithin(initial, CHAIN, 256)
  {
    hide CHAIN, CascadeGraph.Leads;
    var chains: seq<seq<nat>> := [[], [1], [1, 2]];
    var all: seq<(nat, seq<nat>)> := seq(3, i requires 0 <= i < 3 => (0, chains[i]));
    forall k, steps, t | 0 <= k < |initial| && CascadeGraph.Leads(CHAIN, initial[k].table, steps, t)
      ensures (k, steps) in all
    {
      ChainLeads(steps, t);
      var i :| 0 <= i < 3 && chains[i] == steps;
      assert all[i] == (k, steps);
    }
  }

  lemma ChainWalkable(initial: seq<CascadeWalk.Selection>)
    requires FromSessions(initial)
    ensures CascadeWalk.Walkable(initial, CHAIN)
  {
    ChainLeaves(initial);
    ChainEnds(initial);
    ChainsCounted(initial);
    hide *;
    CascadeGraph.WalkableExactly(initial, CHAIN);
  }

  const OWN := SessionEntry(V2, "a", SESSION_A)
  const DEPENDENT_ROW: Row := map[IdColumn := Text("d"), SessionColumn := Text("a")]
  const ATTACHMENT_ROW: Row := map[IdColumn := Text("t"), OtherColumn("dependent_id") := Text("d")]
  const UNRELATED_ROW: Row := map[IdColumn := Text("e"), SessionColumn := Text("b")]

  /** One session with a dependent that has an attachment, and a dependent of something else. */
  function Chained(): Snapshot {
    Snapshot(Schema(1, "", Missing, Fit, Missing, Missing, Missing, false, true, Some(CHAIN)),
             Tables(map[], map["a" := SESSION_A], map[]), {}, {},
             {Entry(DEPENDENT, DEPENDENT_ROW), Entry(ATTACHMENT, ATTACHMENT_ROW), Entry(DEPENDENT, UNRELATED_ROW)})
  }

  lemma ChainedTables()
    ensures TableView(Chained().tables) == {OWN}
  {
    SessionRowIn(Chained().tables, V2, "a");
  }

  lemma ChainedView()
    ensures View(Chained()) == {OWN, Entry(DEPENDENT, DEPENDENT_ROW), Entry(ATTACHMENT, ATTACHMENT_ROW),
                                Entry(DEPENDENT, UNRELATED_ROW)}
  {
    var s := Chained();
    ChainedTables();
    assert EntriesOf(Event, s.events) == {} && EntriesOf(EventSequence, s.sequences) == {};
    hide OWN, TableView, EntriesOf, DEPENDENT_ROW, ATTACHMENT_ROW, UNRELATED_ROW, CHAIN;
  }

  lemma ChainedPlanned()
    ensures PlannedRows(Chained(), {"a"}) == {OWN}
  {
    ChainedView();
    OwnCells();
    hide OWN, View, Chained, DEPENDENT_ROW, ATTACHMENT_ROW, UNRELATED_ROW;
  }

  lemma ChainedFits()
    ensures WellFormed(Chained()) && KeysOf(Chained().schema) == CHAIN
  {
    hide DEPENDENT_ROW, ATTACHMENT_ROW, UNRELATED_ROW, SESSION_A;
  }

  /** The dependent goes with the session, and the attachment with the dependent. */
  lemma ChainedGone()
    ensures GoneWith(Chained(), {"a"}) == {OWN, Entry(DEPENDENT, DEPENDENT_ROW), Entry(ATTACHMENT, ATTACHMENT_ROW)}
  {
    ChainedView();
    ChainedPlanned();
    ChainedFits();
    var db := View(Chained());
    var gone := {OWN, Entry(DEPENDENT, DEPENDENT_ROW), Entry(ATTACHMENT, ATTACHMENT_ROW)};
    OwnCells();
    hide View, PlannedRows, CHAIN, Follows, OWN, Chained;
    ChainFollows(OWN, OWN);
    ChainFollows(OWN, Entry(DEPENDENT, DEPENDENT_ROW));
    ChainFollows(OWN, Entry(ATTACHMENT, ATTACHMENT_ROW));
    CascadedClosed(db, CHAIN, {OWN});
    CascadedLeast(db, CHAIN, {OWN}, gone);
  }

  lemma OneOfThree(p: Entry, c: Entry)
    ensures Follows(CHAIN, p, c) <==>
            References(CHAIN[0], p, c) || References(CHAIN[1], p, c) || References(CHAIN[2], p, c)
  {
    assert CHAIN[0] in CHAIN && CHAIN[1] in CHAIN && CHAIN[2] in CHAIN;
    hide References;
  }

  lemma ChainFollows(own: Entry, p: Entry)
    requires own.table == SessionV2 && CellOf(own.row, IdColumn) == Text("a") && CellOf(own.row, ParentColumn) == Null
    requires p in {own, Entry(DEPENDENT, DEPENDENT_ROW), Entry(ATTACHMENT, ATTACHMENT_ROW)}
    ensures Follows(CHAIN, p, Entry(DEPENDENT, DEPENDENT_ROW)) <==> p == own
    ensures Follows(CHAIN, p, Entry(ATTACHMENT, ATTACHMENT_ROW)) <==> p == Entry(DEPENDENT, DEPENDENT_ROW)
    ensures !Follows(CHAIN, p, Entry(DEPENDENT, UNRELATED_ROW)) && !Follows(CHAIN, p, own)
  {
    OneOfThree(p, own);
    OneOfThree(p, Entry(DEPENDENT, DEPENDENT_ROW));
    OneOfThree(p, Entry(ATTACHMENT, ATTACHMENT_ROW));
    OneOfThree(p, Entry(DEPENDENT, UNRELATED_ROW));
    hide Follows;
  }

  lemma OwnCells()
    ensures OWN.table == SessionV2 && CellOf(OWN.row, IdColumn) == Text("a") && CellOf(OWN.row, ParentColumn) == Null
  {
  }

  const ROOT := Item(V2, "a", SESSION_A)

  lemma ChainedFamily()
    ensures Family(Chained().tables, "a") == {"a"}
    ensures FromSessions(InitialFor(Chained(), ROOT))
  {
    var tables := Chained().tables;
    RootInFamily(tables, "a");
    assert {"a"} * tables.Of(V1).Keys == {} && {"a"} * tables.Of(V2).Keys == {"a"};
    assert SessionSelection(V1, {}) == [] && |SessionSelection(V2, {"a"})| == 1;
  }

  lemma ChainedReads()
    ensures RootFor(Chained(), "a") == Some(ROOT)
    ensures !Unreadable(Chained(), "a") && FamilyDecodes(Chained(), "a") && Plannable(Chained().schema)
  {
    hide TombstonesOf, Family, CHAIN;
    TombstoneRead(Chained().tables.lineage, "a");
    assert Decodes(SESSION_A);
  }

  lemma ChainedDependents(plan: Plan, t: Table, row: Row)
    requires PlanFor(plan, Chained()) && plan.root.id == "a" && t in {DEPENDENT, ATTACHMENT}
    requires Entry(t, row) in GoneWith(Chained(), {"a"})
    requires forall e :: e in GoneWith(Chained(), {"a"}) && e.table == t ==> e.row == row
    ensures t in plan.dependents && plan.dependents[t].rows == {row}
  {
    hide View, PlanFor, WellFormed, GoneWith, Chained;
    ChainedFits();
    ChainedFamily();
    FreshPlanMatches(plan, Chained());
    ReadyIsPrepared(plan, Chained(), Chained());
    FamilyIsPlanned(plan, Chained());
    hide Matches, Prepared;
    DependentsExactly(plan, Chained(), Chained(), Entry(t, row));
    forall x ensures x in plan.dependents[t].rows <==> x == row {
      DependentsExactly(plan, Chained(), Chained(), Entry(t, x));
    }
  }

  method BuildChain() returns (plan: Plan)
    ensures PlanFor(plan, Chained()) && plan.root.id == "a"
  {
    ChainedFits();
    ChainedReads();
    ChainedFamily();
    ChainWalkable(InitialFor(Chained(), ROOT));
    hide View, DependentsFor, Lists, RootFor, Unreadable, FamilyDecodes, WellFormed, CHAIN, InitialFor;
    var built := BuildPlan(Chained(), "a");
    plan := built.value.value;
  }

  /** The plan can be made, and records the rows of both tables that would go along. */
  method PlansChain() returns (plan: Plan)
    ensures PlanFor(plan, Chained()) && plan.root.id == "a"
    ensures DEPENDENT in plan.dependents && plan.dependents[DEPENDENT].rows == {DEPENDENT_ROW}
    ensures ATTACHMENT in plan.dependents && plan.dependents[ATTACHMENT].rows == {ATTACHMENT_ROW}
  {
    plan := BuildChain();
    ChainedGone();
    OwnCells();
    hide View, PlanFor, GoneWith, OWN, Chained, DEPENDENT_ROW, ATTACHMENT_ROW;
    ChainedDependents(plan, DEPENDENT, DEPENDENT_ROW);
    ChainedDependents(plan, ATTACHMENT, ATTACHMENT_ROW);
  }

  lemma ChainedReady(plan: Plan)
    requires PlanFor(plan, Chained()) && plan.root.id == "a"
    ensures Matches(plan, Chained()) && Prepared(plan, Chained()) && PlanIds(plan) == {"a"}
    ensures CascadeWalk.Unblocked(InitialOf(plan), KeysOf(Chained().schema))
  {
    hide View, WellFormed, GoneWith, Lists, RootFor, Unreadable, CHAIN, Family, CascadeWalk.Unblocked, DependentsMatch;
    ChainedFits();
    ChainedFamily();
    FreshPlanMatches(plan, Chained());
    ReadyIsPrepared(plan, Chained(), Chained());
    FamilyIsPlanned(plan, Chained());
  }

  lemma ChainedComparable(plan: Plan)
    requires PlanFor(plan, Chained()) && plan.root.id == "a"
    ensures |plan.targets| == 2 && Comparable(plan, Chained(), {}) && PlanIds(plan) == {"a"}
  {
    ChainedReady(plan);
    OnlyRoot(plan);
    assert |plan.targets| == 2;
    hide *;
    AllAgree(plan);
  }

  lemma AllAgree(plan: Plan)
    requires |plan.targets| == 2 && Matches(plan, Chained()) && forall item :: item in AllItems(plan) ==> item == ROOT
    ensures Comparable(plan, Chained(), {})
  {
    hide Matches, AllItems, ROOT, Chained;
  }

  lemma ChainedRunning(plan: Plan, order: seq<Item>, ids: seq<Id>)
    requires PlanFor(plan, Chained()) && plan.root.id == "a" && |plan.targets| == 2
    requires Ordered(plan, order) && Enumerates(ids, {"a"})
    ensures Running(plan, Chained(), order, ids)
  {
    ChainedReady(plan);
    hide PlanFor, Matches, Prepared, Ordered, Chained, CascadeWalk.Unblocked, PlanIds, InitialOf;
  }

  lemma OnlyRoot(plan: Plan)
    requires Matches(plan, Chained())
    ensures forall item :: item in AllItems(plan) ==> item == ROOT
  {
    hide View, Lists, Family, DependentsMatch;
    forall item | item in AllItems(plan) ensures item == ROOT {
      PlannedItem(plan, Chained(), item);
      assert item.table == V2 && item.id == "a" && item.row == SESSION_A;
    }
  }

  lemma ChainedUnreferenced()
    ensures !Referenced(Chained(), {"a"})
  {
    hide View, GoneWith;
  }

  lemma ChainedAfter()
    ensures After(Chained(), {"a"}) ==
            Chained().(tables := Tables(map[], map[], map[]), others := {Entry(DEPENDENT, UNRELATED_ROW)})
  {
    ChainedGone();
    OwnCells();
    var s := Chained();
    assert UNRELATED_ROW[IdColumn] != DEPENDENT_ROW[IdColumn];
    hide GoneWith, OWN, CHAIN, DEPENDENT_ROW, ATTACHMENT_ROW, UNRELATED_ROW, SESSION_A;
    LastRemains(OWN, Entry(DEPENDENT, DEPENDENT_ROW), Entry(ATTACHMENT, ATTACHMENT_ROW),
                Entry(DEPENDENT, UNRELATED_ROW));
    assert s.others - GoneWith(s, {"a"}) == {Entry(DEPENDENT, UNRELATED_ROW)};
    assert s.tables.v1 - {"a"} == map[] && s.tables.v2 - {"a"} == map[] && s.tables.lineage - {"a"} == map[];
    hide RowsIn;
    assert s.events - RowsIn(GoneWith(s, {"a"}), Event) == {};
    assert s.sequences - RowsIn(GoneWith(s, {"a"}), EventSequence) == {};
  }

  lemma LastRemains(own: Entry, a: Entry, b: Entry, c: Entry)
    requires c !in {own, a, b}
    ensures {a, b, c} - {own, a, b} == {c}
  {
  }

  /** The session goes with its dependent and that one's attachment; the other dependent stays. */
  method DeletesChain() returns (r: Result<(), DeleteError>, store: Store)
    ensures fresh(store) && r.Ok?
    ensures store.State() ==
            Chained().(tables := Tables(map[], map[], map[]), others := {Entry(DEPENDENT, UNRELATED_ROW)})
  {
    hide View, WellFormed, PlanFor, GoesThrough, Chained, Comparable, Prepared, Ordered, Referenced, After, Running;
    var plan := PlansChain();
    ChainedFits();
    ChainedComparable(plan);
    ChainedUnreferenced();
    ChainedAfter();
    store := new Store(Chained());
    assert store.State() == Chained();
    ghost var order, ids;
    r, order, ids := DeleteGenerations(store, plan, Chained(), {}, true);
    ChainedRunning(plan, order, ids);
    UnreferencedSucceeds(plan, Chained(), order, ids);
    ChainedFamily();
  }
}
