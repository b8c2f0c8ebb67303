/**
 Planning the deletion of a session tree from both tables: what the plan records, and the
 child-first order of its rows.
 */
module Deletion {
  import opened Prelude
  import opened ForeignKeys
  import opened Lineage
  import opened Merge
  import opened Sorting
  import opened SessionTrees
  import CascadeWalk

  /** A row to delete, in the table it is in. */
  datatype Item = Item(table: Generation, id: Id, row: SessionRow)

  datatype Target = Target(table: Generation, generations: seq<Item>)

  /** `Unfit` is an object of that name that lacks a required column or is not a plain table. */
  datatype Shape = Missing | Unfit | Fit

  /** What `sqlite_master` says: the schema objects, and what the code derives from them. `keys` is
      None when some foreign key names no table or cannot be matched to its parent's columns. */
  datatype Schema = Schema(version: int, objects: string, v1: Shape, v2: Shape,
                           events: Shape, sequences: Shape, shares: Shape, hasLineage: bool,
                           safeTriggers: bool, keys: Option<seq<ForeignKey>>)

  /** The whole database: the five tables the deletion names, and the rows of all others. */
  datatype Snapshot = Snapshot(schema: Schema, tables: Tables, events: set<Row>, sequences: set<Row>, others: Rows)

  /** What a plan records of another table: the predicates of the paths into it, and their rows. */
  datatype Dependent = Dependent(filters: seq<CascadeWalk.Predicate>, rows: set<Row>)

  datatype Plan = Plan(root: Item, schema: Schema, targets: seq<Target>, lineage: LineageTable,
                       events: Option<set<Row>>, sequences: Option<set<Row>>, dependents: map<Table, Dependent>)

  // ----- All tables as rows of cells -----

  function TableOf(g: Generation): Table {
    if g == V1 then Session else SessionV2
  }

  function NumberCell(n: Option<int>): Cell {
    match n case None => Null case Some(i) => Number(i)
  }

  function SessionCells(id: Id, row: SessionRow): Row {
    row.body[IdColumn := Text(id)][ParentColumn := match row.parent case None => Null case Some(p) => Text(p)]
      [CreatedColumn := Number(row.created)][UpdatedColumn := Number(row.updated)]
      [ArchivedColumn := NumberCell(row.archived)]
  }

  function SessionEntry(g: Generation, id: Id, row: SessionRow): Entry {
    Entry(TableOf(g), SessionCells(id, row))
  }

  /** Other tables can refer to a lineage row only by its key. */
  function LineageEntry(id: Id): Entry {
    Entry(LineageShadow, map[SessionColumn := Text(id)])
  }

  /** The rows of the session tables and the lineage table. */
  function TableView(tables: Tables): Rows {
    (set id | id in tables.v1 :: SessionEntry(V1, id, tables.v1[id]))
    + (set id | id in tables.v2 :: SessionEntry(V2, id, tables.v2[id]))
    + (set id | id in tables.lineage :: LineageEntry(id))
  }

  function EntriesOf(t: Table, rows: set<Row>): Rows {
    set row | row in rows :: Entry(t, row)
  }

  function View(s: Snapshot): Rows {
    TableView(s.tables) + EntriesOf(Event, s.events) + EntriesOf(EventSequence, s.sequences) + s.others
  }

  function KeysOf(schema: Schema): seq<ForeignKey> {
    if schema.keys.Some? then schema.keys.value else []
  }

  /** Tables that the schema lacks hold nothing, and the lineage table declares no foreign key. */
  predicate WellFormed(s: Snapshot) {
    && (s.schema.v1.Missing? ==> s.tables.v1 == map[]) && (s.schema.v2.Missing? ==> s.tables.v2 == map[])
    && (s.schema.events.Missing? ==> s.events == {}) && (s.schema.sequences.Missing? ==> s.sequences == {})
    && (!s.schema.hasLineage ==> s.tables.lineage == map[])
    && (forall e :: e in s.others ==> !CascadeWalk.IsSessionTable(e.table) && !CascadeWalk.IsAuxiliary(e.table))
    && (forall key :: key in KeysOf(s.schema) ==> key.child != LineageShadow)
  }

  /** The other columns that the readers decode. */
  predicate Decodes(row: SessionRow) {
    CellOf(row.body, DirectoryColumn).Text?
  }

  /** A typed row is one that the readers decode from its cells, but for its directory. */
  lemma CellsDecode(id: Id, row: SessionRow)
    ensures Decoded(SessionCells(id, row)) ==
            if Decodes(row) then Some(Listed(id, row.(body := SessionCells(id, row)))) else None
  {
  }

  // ----- Plans -----

  predicate ItemBefore(a: Item, b: Item) {
    StringLess(a.id, b.id)
  }

  /** ORDER BY row.id over the table's rows whose id is in the family. */
  ghost predicate Lists(items: seq<Item>, table: Generation, rows: Sessions, family: set<Id>) {
    && Sorted(ItemBefore, items) && Distinct(items)
    && forall item :: item in items <==>
         item.table == table && item.id in family && item.id in rows && rows[item.id] == item.row
  }

  lemma ListsUnique(a: seq<Item>, b: seq<Item>, table: Generation, rows: Sessions, family: set<Id>)
    requires Lists(a, table, rows, family) && Lists(b, table, rows, family)
    ensures a == b
  {
    StringOrder();
    assert StrictOrder(ItemBefore);
    DistinctMultiset(a, b);
    SortedIsUnique(ItemBefore, a, b);
  }

  predicate AllDecode(items: seq<Item>) {
    forall item :: item in items ==> Decodes(item.row)
  }

  /** The rows of one table, or None when one of them does not decode. */
  method SelectGenerations(table: Generation, rows: Sessions, ids: set<Id>) returns (selected: Option<seq<Item>>)
    ensures selected.Some? <==> forall id :: id in rows && id in ids ==> Decodes(rows[id])
    ensures selected.Some? ==> Lists(selected.value, table, rows, ids) && AllDecode(selected.value)
  {
    var items: seq<Item> := [];
    var rest := rows.Keys * ids;
    while rest != {}
      invariant rest <= rows.Keys * ids
      invariant Distinct(items) && AllDecode(items)
      invariant forall item :: item in items <==>
                  item.table == table && item.id in ids && item.id !in rest && item.id in rows
                    && rows[item.id] == item.row
      decreases rest
    {
      var id :| id in rest;
      rest := rest - {id};
      if !Decodes(rows[id]) { return None; }
      items := items + [Item(table, id, rows[id])];
    }
    StringOrder();
    assert StrictOrder(ItemBefore);
    SortSorted(ItemBefore, items);
    SortKeepsElements(ItemBefore, items);
    items := Sort(ItemBefore, items);
    forall id | id in rows && id in ids ensures Decodes(rows[id]) {
      assert Item(table, id, rows[id]) in items;
    }
    return Some(items);
  }

  function AllItems(plan: Plan): seq<Item>
    requires |plan.targets| == 2
  {
    plan.targets[0].generations + plan.targets[1].generations
  }

  function IdsOf(items: seq<Item>): set<Id> {
    set item | item in items :: item.id
  }

  function PlanIds(plan: Plan): set<Id>
    requires |plan.targets| == 2
  {
    IdsOf(AllItems(plan))
  }

  function LineageOf(lineage: LineageTable, ids: set<Id>): LineageTable {
    map id | id in lineage && id in ids :: lineage[id]
  }

  /** The row of `event` or `event_sequence` belongs to one of the sessions. */
  predicate BelongsTo(row: Row, ids: set<Id>) {
    CellOf(row, AggregateColumn).Text? && CellOf(row, AggregateColumn).text in ids
  }

  function RowsFor(rows: set<Row>, ids: set<Id>): set<Row> {
    set row | row in rows && BelongsTo(row, ids)
  }

  // ----- The selections that the foreign-key walk starts from -----

  function SessionSelection(g: Generation, ids: set<Id>): (q: seq<CascadeWalk.Selection>)
    ensures CascadeWalk.PlannedRows(q) && |q| <= 1
  {
    if ids == {} then [] else [CascadeWalk.Selection(TableOf(g), CascadeWalk.KeyIn(IdColumn, ids), [TableOf(g)])]
  }

  function AuxiliarySelection(present: bool, t: Table, column: Column, ids: set<Id>): (q: seq<CascadeWalk.Selection>)
    requires CascadeWalk.IsAuxiliary(t)
    ensures CascadeWalk.PlannedRows(q) && |q| <= 1
  {
    if present then [CascadeWalk.Selection(t, CascadeWalk.KeyIn(column, ids), [t])] else []
  }

  /** The queue at first: the planned rows of each table, then the rows deleted by id. The program
      keeps the last three in a hash map; any order of them gives the same paths. */
  function InitialQueue(first: Generation, firstIds: set<Id>, second: Generation, secondIds: set<Id>,
                        ids: set<Id>, schema: Schema): (q: seq<CascadeWalk.Selection>)
    ensures CascadeWalk.PlannedRows(q) && |q| <= 5
  {
    SessionSelection(first, firstIds) + SessionSelection(second, secondIds)
    + AuxiliarySelection(schema.events.Fit?, Event, AggregateColumn, ids)
    + AuxiliarySelection(schema.sequences.Fit?, EventSequence, AggregateColumn, ids)
    + AuxiliarySelection(schema.hasLineage, LineageShadow, SessionColumn, ids)
  }

  function InitialOf(plan: Plan): (q: seq<CascadeWalk.Selection>)
    requires |plan.targets| == 2
    ensures CascadeWalk.PlannedRows(q) && |q| <= 5
  {
    InitialQueue(plan.targets[0].table, IdsOf(plan.targets[0].generations),
                 plan.targets[1].table, IdsOf(plan.targets[1].generations), PlanIds(plan), plan.schema)
  }

  /** The same selections in terms of the family of a root. */
  ghost function InitialFor(s: Snapshot, root: Item): (q: seq<CascadeWalk.Selection>) {
    var family := Family(s.tables, root.id);
    var first := Other(root.table);
    InitialQueue(first, family * s.tables.Of(first).Keys, root.table, family * s.tables.Of(root.table).Keys,
                 family * (s.tables.v1.Keys + s.tables.v2.Keys), s.schema)
  }

  function Other(g: Generation): Generation {
    if g == V1 then V2 else V1
  }

  /** SELECT ... WHERE one of the path predicates holds. */
  function Selected(db: Rows, t: Table, filters: seq<CascadeWalk.Predicate>): set<Row> {
    set e | e in db && e.table == t && (exists f :: f in filters && CascadeWalk.Satisfies(db, f, e.row)) :: e.row
  }

  function DependentsFor(db: Rows, paths: CascadeWalk.Paths): map<Table, Dependent> {
    map t | t in paths && !CascadeWalk.IsAuxiliary(t) :: Dependent(paths[t], Selected(db, t, paths[t]))
  }

  /** The targets are the family's rows and the auxiliary rows those of the family's ids. */
  ghost predicate TargetsMatch(plan: Plan, s: Snapshot) {
    && |plan.targets| == 2
    && plan.schema == s.schema && s.schema.safeTriggers
    && (forall t :: t in plan.targets ==>
        Lists(t.generations, t.table, s.tables.Of(t.table), Family(s.tables, plan.root.id)))
    && plan.lineage == LineageOf(s.tables.lineage, PlanIds(plan))
    && plan.events == (if s.schema.events.Fit? then Some(RowsFor(s.events, PlanIds(plan))) else None)
    && plan.sequences == (if s.schema.sequences.Fit? then Some(RowsFor(s.sequences, PlanIds(plan))) else None)
  }

  predicate DependentsMatch(plan: Plan, s: Snapshot) {
    forall t :: t in plan.dependents ==> Selected(View(s), t, plan.dependents[t].filters) == plan.dependents[t].rows
  }

  /** Everything the locked database is compared with still holds in this snapshot. */
  ghost predicate Matches(plan: Plan, s: Snapshot) {
    TargetsMatch(plan, s) && DependentsMatch(plan, s)
  }

  /** The copy of the id that resuming would pick, if any. */
  function RootFor(s: Snapshot, id: Id): Option<Item> {
    match Merged(Get(s.tables.v2, id), Get(s.tables.v1, id), HiddenCreation(TombstonesOf(s.tables.lineage), id))
    case None => None
    case Some(selected) => if Resumable(selected.row) then Some(Item(selected.table, id, selected.row)) else None
  }

  predicate Unreadable(s: Snapshot, id: Id) {
    || s.schema.v1.Unfit? || s.schema.v2.Unfit? || (s.schema.v1.Missing? && s.schema.v2.Missing?)
    || Undecodable(TombstonesOf(s.tables.lineage), id)
    || (id in s.tables.v2 && !Decodes(s.tables.v2[id])) || (id in s.tables.v1 && !Decodes(s.tables.v1[id]))
  }

  /** The schema objects that planning relies on are as it expects them. */
  predicate Plannable(schema: Schema) {
    && schema.safeTriggers && !schema.events.Unfit? && !schema.sequences.Unfit? && !schema.shares.Unfit?
    && schema.keys.Some?
  }

  /** Every row of the family decodes. */
  ghost predicate FamilyDecodes(s: Snapshot, root: Id) {
    forall g, id :: id in s.tables.Of(g) && id in Family(s.tables, root) ==> Decodes(s.tables.Of(g)[id])
  }

  ghost predicate CanPlan(s: Snapshot, root: Item) {
    Plannable(s.schema) && FamilyDecodes(s, root.id) && CascadeWalk.Walkable(InitialFor(s, root), s.schema.keys.value)
  }

  /** The plan that planning makes of a snapshot. */
  ghost predicate PlanFor(plan: Plan, s: Snapshot) {
    && TargetsMatch(plan, s)
    && Plannable(s.schema) && !Unreadable(s, plan.root.id) && AllDecode(AllItems(plan))
    && plan.targets[1].table == plan.root.table && plan.targets[0].table == Other(plan.root.table)
    && RootFor(s, plan.root.id) == Some(plan.root)
    && CascadeWalk.Walkable(InitialOf(plan), s.schema.keys.value)
    && exists paths :: CascadeWalk.PathsOf(InitialOf(plan), s.schema.keys.value, paths)
                       && plan.dependents == DependentsFor(View(s), paths)
  }

  lemma ListedIds(items: seq<Item>, table: Generation, rows: Sessions, family: set<Id>)
    requires Lists(items, table, rows, family)
    ensures IdsOf(items) == family * rows.Keys
  {
    forall id | id in family * rows.Keys ensures id in IdsOf(items) {
      assert Item(table, id, rows[id]) in items;
    }
  }

  lemma RootHasId(s: Snapshot, id: Id)
    ensures RootFor(s, id).Some? ==> RootFor(s, id).value.id == id
  {
  }

  /** The root of a deletion is the copy that resuming picks. */
  lemma RootIsResumed(s: Snapshot, v2: seq<Listed>, v1: seq<Listed>, id: Id, r: Option<Selection>)
    requires Find(v2, id) == Get(s.tables.v2, id) && Find(v1, id) == Get(s.tables.v1, id)
    requires ResumeOf(v2, v1, TombstonesOf(s.tables.lineage), id, r)
    ensures RootFor(s, id) == match r case None => None case Some(t) => Some(Item(t.table, id, t.row))
  {
    hide TombstonesOf, Find;
    var hidden := HiddenCreation(TombstonesOf(s.tables.lineage), id);
    var m := Merged(Find(v2, id), Find(v1, id), hidden);
    if m.Some? { MergedIsChosen(v2, v1, hidden, id, m.value); }
    if r.Some? { MergedIsChosen(v2, v1, hidden, id, r.value); }
  }

  lemma NotDecoding(s: Snapshot, root: Id, g: Generation)
    requires exists id :: id in s.tables.Of(g) && id in Family(s.tables, root) && !Decodes(s.tables.Of(g)[id])
    ensures !FamilyDecodes(s, root)
  {
  }

  /** Any plan that matches starts the walk from the family's rows. */
  lemma InitialMatches(plan: Plan, s: Snapshot)
    requires TargetsMatch(plan, s)
    requires plan.targets[1].table == plan.root.table && plan.targets[0].table == Other(plan.root.table)
    ensures InitialOf(plan) == InitialFor(s, plan.root)
    ensures PlanIds(plan) == Family(s.tables, plan.root.id) * (s.tables.v1.Keys + s.tables.v2.Keys)
  {
    var family := Family(s.tables, plan.root.id);
    var t0, t1 := plan.targets[0], plan.targets[1];
    assert t0 in plan.targets && t1 in plan.targets;
    ListedIds(t0.generations, t0.table, s.tables.Of(t0.table), family);
    ListedIds(t1.generations, t1.table, s.tables.Of(t1.table), family);
    assert PlanIds(plan) == IdsOf(t0.generations) + IdsOf(t1.generations);
    assert PlanIds(plan) == family * (s.tables.v1.Keys + s.tables.v2.Keys);
  }

  /** Plans a deletion. It fails exactly when the root's lookup does, or, when there is something to
      delete, over a schema it does not know, a row of the family that does not decode, or a
      foreign-key walk that gives up. */
  method BuildPlan(s: Snapshot, id: Id) returns (r: Result<Option<Plan>, ()>)
    requires WellFormed(s)
    ensures r.Err? <==> Unreadable(s, id) || (RootFor(s, id).Some? && !CanPlan(s, RootFor(s, id).value))
    ensures r == Ok(None) <==> !Unreadable(s, id) && RootFor(s, id).None?
    ensures r.Ok? && r.value.Some? ==> PlanFor(r.value.value, s) && r.value.value.root.id == id
  {
    hide View, Decodes, TombstonesOf, Merged, DependentsFor, Unreadable, Lists, WellFormed, InitialQueue;
    RootHasId(s, id);
    if Unreadable(s, id) { return Err(()); }
    var selected := RootFor(s, id);
    if selected.None? { return Ok(None); }
    if !s.schema.safeTriggers { return Err(()); }
    if s.schema.events.Unfit? || s.schema.sequences.Unfit? || s.schema.shares.Unfit? { return Err(()); }
    var root := selected.value;
    var family := DescendantIds(s.tables, id);
    var items2 := SelectGenerations(V2, s.tables.v2, family);
    if items2.None? { NotDecoding(s, id, V2); return Err(()); }
    var items1 := SelectGenerations(V1, s.tables.v1, family);
    if items1.None? { NotDecoding(s, id, V1); return Err(()); }
    // A stable sort on `table == root.table` puts the root's table last.
    var targets := if root.table == V2 then [Target(V1, items1.value), Target(V2, items2.value)]
                   else [Target(V2, items2.value), Target(V1, items1.value)];
    var plan := Plan(root, s.schema, targets, map[], None, None, map[]);
    var ids := PlanIds(plan);
    plan := plan.(lineage := LineageOf(s.tables.lineage, ids),
                  events := if s.schema.events.Fit? then Some(RowsFor(s.events, ids)) else None,
                  sequences := if s.schema.sequences.Fit? then Some(RowsFor(s.sequences, ids)) else None);
    assert PlanIds(plan) == ids;
    InitialMatches(plan, s);
    if s.schema.keys.None? { return Err(()); }
    var walked := CascadeWalk.Walk(InitialOf(plan), s.schema.keys.value);
    if walked.Err? { return Err(()); }
    ghost var initial := InitialOf(plan);
    plan := plan.(dependents := DependentsFor(View(s), walked.value));
    assert InitialOf(plan) == initial && PlanIds(plan) == ids;
    return Ok(Some(plan));
  }

  // ----- Child-first order -----

  datatype Ranked = Ranked(depth: nat, last: bool, item: Item)

  /** Deepest first; then the table that is not the root's; then by id. */
  predicate RankedBefore(a: Ranked, b: Ranked) {
    || a.depth > b.depth
    || (a.depth == b.depth && ((!a.last && b.last) || (a.last == b.last && StringLess(a.item.id, b.item.id))))
  }

  ghost predicate ParentsAgree(items: seq<Item>) {
    forall a, b :: a in items && b in items && a.id == b.id ==> a.row.parent == b.row.parent
  }

  ghost predicate ParentsOf(parents: Parents, items: seq<Item>) {
    && (forall item :: item in items ==> item.id in parents && parents[item.id] == item.row.parent)
    && (forall id :: id in parents ==> exists item :: item in items && item.id == id)
  }

  method CollectParents(items: seq<Item>) returns (r: Option<Parents>)
    ensures r.Some? <==> ParentsAgree(items)
    ensures r.Some? ==> ParentsOf(r.value, items)
  {
    var parents: Parents := map[];
    for i := 0 to |items|
      invariant ParentsOf(parents, items[..i])
    {
      var item := items[i];
      var known := Get(parents, item.id);
      if known.Some? && known.value != item.row.parent {
        var other :| other in items[..i] && other.id == item.id;
        assert other in items && item in items;
        return None;
      }
      parents := parents[item.id := item.row.parent];
      assert items[..i + 1] == items[..i] + [item];
      forall id | id in parents ensures exists x :: x in items[..i + 1] && x.id == id {
        if id == item.id { assert item in items[..i + 1]; }
        else { var x :| x in items[..i] && x.id == id; assert x in items[..i + 1]; }
      }
    }
    assert items[..|items|] == items;
    return Some(parents);
  }

  /** Every row comes before every copy of its parent. */
  ghost predicate ChildFirst(order: seq<Item>, root: Id) {
    forall i, j :: 0 <= i < |order| && 0 <= j < |order| ==>
      (order[i].id != root && order[i].row.parent == Some(order[j].id) ==> i < j)
  }

  ghost predicate Reachable(items: seq<Item>, root: Id) {
    exists parents :: ParentsOf(parents, items)
      && forall item :: item in items ==> exists n: nat :: WalkReaches(parents, root, item.id, n)
  }

  lemma ParentsOfUnique(p: Parents, q: Parents, items: seq<Item>)
    requires ParentsOf(p, items) && ParentsOf(q, items)
    ensures p == q
  {
  }

  /** The planned rows with their depths, known as the code ranks them. */
  ghost predicate RanksOf(ranked: seq<Ranked>, plan: Plan, parents: Parents)
    requires |plan.targets| == 2
  {
    forall x :: x in ranked ==>
      && x.item in AllItems(plan) && WalkReaches(parents, plan.root.id, x.item.id, x.depth)
      && (x.last <==> x.item.table == plan.root.table)
  }

  /** The order is by depth below the root, deepest first, then table, then id. */
  ghost predicate RankOrdered(plan: Plan, order: seq<Item>)
    requires |plan.targets| == 2
  {
    exists parents, sorted ::
      ParentsOf(parents, AllItems(plan)) && RanksOf(sorted, plan, parents) && Sorted(RankedBefore, sorted)
        && Stripped(sorted) == order
  }

  method ChildFirstGenerations(plan: Plan) returns (r: Option<seq<Item>>)
    requires |plan.targets| == 2
    ensures r.Some? <==> ParentsAgree(AllItems(plan)) && Reachable(AllItems(plan), plan.root.id)
    ensures r.Some? ==> multiset(r.value) == multiset(AllItems(plan)) && RankOrdered(plan, r.value)
                        && ChildFirst(r.value, plan.root.id)
  {
    var parents := CollectParents(AllItems(plan));
    if parents.None? { return None; }
    var ranked := RankAll(plan, parents.value);
    if ranked.None? { return None; }
    SortedRanks(plan, parents.value, ranked.value);
    return Some(Stripped(Sort(RankedBefore, ranked.value)));
  }

  /** Ranks every planned row; None when some row's parents do not lead to the root. */
  method RankAll(plan: Plan, parents: Parents) returns (r: Option<seq<Ranked>>)
    requires |plan.targets| == 2 && ParentsOf(parents, AllItems(plan))
    ensures r.Some? <==> Reachable(AllItems(plan), plan.root.id)
    ensures r.Some? ==> RanksOf(r.value, plan, parents) && Stripped(r.value) == AllItems(plan)
  {
    var items := AllItems(plan);
    var ranked: seq<Ranked> := [];
    for i := 0 to |items|
      invariant |ranked| == i && RanksOf(ranked, plan, parents)
      invariant forall j :: 0 <= j < i ==> ranked[j].item == items[j]
    {
      assert items[i] in items;
      var depth := Depth(parents, plan.root.id, items[i].id);
      if depth.None? {
        Unranked(items, plan.root.id, parents, items[i]);
        return None;
      }
      ranked := ranked + [Ranked(depth.value, items[i].table == plan.root.table, items[i])];
    }
    AllRanked(plan, parents, ranked);
    return Some(ranked);
  }

  lemma Unranked(items: seq<Item>, root: Id, parents: Parents, item: Item)
    requires ParentsOf(parents, items) && item in items && forall n: nat :: !WalkReaches(parents, root, item.id, n)
    ensures !Reachable(items, root)
  {
    forall p | ParentsOf(p, items) ensures p == parents { ParentsOfUnique(p, parents, items); }
  }

  lemma SortedRanks(plan: Plan, parents: Parents, ranked: seq<Ranked>)
    requires |plan.targets| == 2 && ParentsOf(parents, AllItems(plan)) && RanksOf(ranked, plan, parents)
    requires Stripped(ranked) == AllItems(plan)
    ensures var order := Stripped(Sort(RankedBefore, ranked));
            multiset(order) == multiset(AllItems(plan)) && RankOrdered(plan, order) && ChildFirst(order, plan.root.id)
  {
    StrippedSort(ranked);
    var sorted := Sort(RankedBefore, ranked);
    SortRanks(plan, parents, ranked, sorted);
    RanksChildFirst(plan, parents, sorted);
  }

  lemma SortRanks(plan: Plan, parents: Parents, ranked: seq<Ranked>, sorted: seq<Ranked>)
    requires |plan.targets| == 2 && ParentsOf(parents, AllItems(plan)) && RanksOf(ranked, plan, parents)
    requires sorted == Sort(RankedBefore, ranked)
    ensures RanksOf(sorted, plan, parents) && Sorted(RankedBefore, sorted) && RankOrdered(plan, Stripped(sorted))
  {
    RankedOrder();
    SortSorted(RankedBefore, ranked);
    SortKeepsElements(RankedBefore, ranked);
  }

  lemma AllRanked(plan: Plan, parents: Parents, ranked: seq<Ranked>)
    requires |plan.targets| == 2 && ParentsOf(parents, AllItems(plan)) && RanksOf(ranked, plan, parents)
    requires |ranked| == |AllItems(plan)| && forall j :: 0 <= j < |ranked| ==> ranked[j].item == AllItems(plan)[j]
    ensures Stripped(ranked) == AllItems(plan) && Reachable(AllItems(plan), plan.root.id)
  {
    forall item | item in AllItems(plan) ensures exists n: nat :: WalkReaches(parents, plan.root.id, item.id, n) {
      var j :| 0 <= j < |ranked| && AllItems(plan)[j] == item;
      assert ranked[j] in ranked && WalkReaches(parents, plan.root.id, item.id, ranked[j].depth);
    }
  }

  function Stripped(ranked: seq<Ranked>): (items: seq<Item>)
    ensures |items| == |ranked|
    ensures forall i :: 0 <= i < |items| ==> items[i] == ranked[i].item
  {
    if ranked == [] then [] else [ranked[0].item] + Stripped(ranked[1..])
  }

  lemma StrippedCons(x: Ranked, s: seq<Ranked>)
    ensures multiset(Stripped([x] + s)) == multiset{x.item} + multiset(Stripped(s))
  {
    assert ([x] + s)[1..] == s;
    assert Stripped([x] + s) == [x.item] + Stripped(s);
  }

  lemma {:induction false} StrippedInsert(x: Ranked, s: seq<Ranked>)
    ensures multiset(Stripped(Sorting.Insert(RankedBefore, x, s))) == multiset{x.item} + multiset(Stripped(s))
  {
    hide Stripped, RankedBefore;
    if s == [] || !RankedBefore(s[0], x) {
      StrippedCons(x, s);
    } else {
      StrippedInsert(x, s[1..]);
      StrippedCons(s[0], Sorting.Insert(RankedBefore, x, s[1..]));
      StrippedCons(s[0], s[1..]);
      assert s == [s[0]] + s[1..];
    }
  }

  lemma StrippedFirst(s: seq<Ranked>)
    requires s != []
    ensures multiset(Stripped(s)) == multiset{s[0].item} + multiset(Stripped(s[1..]))
  {
    assert s == [s[0]] + s[1..];
    StrippedCons(s[0], s[1..]);
  }

  lemma {:induction false} StrippedSort(s: seq<Ranked>)
    ensures multiset(Stripped(Sort(RankedBefore, s))) == multiset(Stripped(s))
  {
    if s != [] {
      StrippedFirst(s);
      StrippedSort(s[1..]);
      StrippedInsert(s[0], Sort(RankedBefore, s[1..]));
    }
  }

  lemma RankedOrder()
    ensures StrictOrder(RankedBefore)
  {
    StringOrder();
  }

  lemma ParentIsShallower(child: Ranked, parent: Ranked, parents: Parents, root: Id)
    requires WalkReaches(parents, root, child.item.id, child.depth)
    requires WalkReaches(parents, root, parent.item.id, parent.depth)
    requires child.item.id != root && child.item.id in parents && parents[child.item.id] == Some(parent.item.id)
    ensures child.depth == parent.depth + 1
  {
    WalkUnique(parents, root, parent.item.id, parent.depth, child.depth - 1);
  }

  lemma RanksChildFirst(plan: Plan, parents: Parents, sorted: seq<Ranked>)
    requires |plan.targets| == 2 && ParentsOf(parents, AllItems(plan)) && RanksOf(sorted, plan, parents)
    requires Sorted(RankedBefore, sorted)
    ensures ChildFirst(Stripped(sorted), plan.root.id)
  {
    RankedOrder();
    forall i, j | 0 <= i < |sorted| && 0 <= j < |sorted| && sorted[i].item.id != plan.root.id
                  && sorted[i].item.row.parent == Some(sorted[j].item.id)
      ensures i < j
    {
      assert sorted[i] in sorted && sorted[j] in sorted;
      ParentIsShallower(sorted[i], sorted[j], parents, plan.root.id);
      assert RankedBefore(sorted[i], sorted[j]) && !RankedBefore(sorted[i], sorted[i]);
    }
  }
}
