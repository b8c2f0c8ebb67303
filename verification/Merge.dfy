/**
 Choosing one copy of each session: the history listing scans both tables into a hash map,
 resuming looks one id up in both tables. Both must choose the same copy.
 */
module Merge {
  import opened Prelude
  import opened ForeignKeys
  import opened Lineage
  import opened LineageRuns
  import opened Sorting

  // ----- What a reader finds in the database -----

  /** A table or view: `isTable` when `sqlite_master` has it as a table under exactly its name,
      `plain` and `all` the columns of PRAGMA table_info and table_xinfo, of which only the latter
      has generated columns, and the rows in the order a query happens to return them. */
  datatype Object = Object(isTable: bool, plain: set<Column>, all: set<Column>, rows: seq<Row>)

  /** The ids of tombstones and their V1 creation times; empty when the lineage table lacks a column. */
  type Tombstones = map<Cell, Cell>

  /** `projects` is None when there is no `project` with the three columns that the listing joins. */
  datatype History = History(v2: Option<Object>, v1: Option<Object>, projects: Option<set<Row>>, tombstones: Tombstones)

  const REQUIRED_COLUMNS: set<Column> :=
    {IdColumn, ProjectColumn, ParentColumn, DirectoryColumn, TitleColumn, CreatedColumn, UpdatedColumn, ArchivedColumn}

  /** The listing reads it. */
  predicate Listable(o: Option<Object>) {
    o.Some? && REQUIRED_COLUMNS <= o.value.plain
  }

  /** Resuming reads it. */
  predicate Readable(o: Option<Object>) {
    o.Some? && o.value.isTable && REQUIRED_COLUMNS <= o.value.all
  }

  /** Resuming gives up over it. */
  predicate Lacking(o: Option<Object>) {
    o.Some? && o.value.isTable && !(REQUIRED_COLUMNS <= o.value.all)
  }

  /** No two rows have the same text as their id. */
  ghost predicate Keyed(rows: seq<Row>) {
    forall i, j :: 0 <= i < j < |rows| && CellOf(rows[i], IdColumn).Text? ==>
      CellOf(rows[i], IdColumn) != CellOf(rows[j], IdColumn)
  }

  ghost predicate WellKeyed(h: History) {
    (h.v2.Some? ==> Keyed(h.v2.value.rows)) && (h.v1.Some? ==> Keyed(h.v1.value.rows))
  }

  // ----- Decoding rows -----

  /** A session row as a reader decodes it, with its id. */
  datatype Listed = Listed(id: Id, row: SessionRow)

  predicate OptionalText(c: Cell) {
    c.Null? || c.Text?
  }

  predicate OptionalNumber(c: Cell) {
    c.Null? || c.Number?
  }

  /** What both readers decode of a row. */
  function Decoded(row: Row): Option<Listed> {
    var id, parent, archived := CellOf(row, IdColumn), CellOf(row, ParentColumn), CellOf(row, ArchivedColumn);
    var created, updated := CellOf(row, CreatedColumn), CellOf(row, UpdatedColumn);
    if id.Text? && OptionalText(parent) && CellOf(row, DirectoryColumn).Text? && created.Number? && updated.Number?
       && OptionalNumber(archived)
    then Some(Listed(id.text, SessionRow(created.n, updated.n, if parent.Text? then Some(parent.text) else None,
                                         if archived.Number? then Some(archived.n) else None, row)))
    else None
  }

  /** ON p.id = s.project_id. */
  predicate Joins(project: Row, row: Row) {
    CellOf(row, ProjectColumn) != Null && CellOf(project, IdColumn) == CellOf(row, ProjectColumn)
  }

  /** The listing decodes the title and project id as well, and a name and a worktree of every
      project that the row is joined with. */
  predicate ListingDecodes(row: Row, projects: set<Row>) {
    && Decoded(row).Some? && OptionalText(CellOf(row, TitleColumn)) && OptionalText(CellOf(row, ProjectColumn))
    && forall p :: p in projects && Joins(p, row) ==>
         OptionalText(CellOf(p, NameColumn)) && OptionalText(CellOf(p, WorktreeColumn))
  }

  function DecodedRows(rows: seq<Row>): seq<Listed> {
    if rows == [] then []
    else
      var last := Decoded(rows[|rows| - 1]);
      DecodedRows(rows[..|rows| - 1]) + (if last.Some? then [last.value] else [])
  }

  lemma {:induction false} DecodedMember(rows: seq<Row>, l: Listed)
    ensures l in DecodedRows(rows) <==> exists row :: row in rows && Decoded(row) == Some(l)
    decreases |rows|
  {
    if rows != [] {
      DecodedMember(rows[..|rows| - 1], l);
      assert rows == rows[..|rows| - 1] + [rows[|rows| - 1]];
    }
  }

  /** One row for each id. */
  ghost predicate Functional(rows: seq<Listed>) {
    forall a, b :: a in rows && b in rows && a.id == b.id ==> a == b
  }

  lemma DecodedFunctional(rows: seq<Row>)
    requires Keyed(rows)
    ensures Functional(DecodedRows(rows))
  {
    forall a, b | a in DecodedRows(rows) && b in DecodedRows(rows) && a.id == b.id ensures a == b {
      DecodedMember(rows, a);
      DecodedMember(rows, b);
      var i :| 0 <= i < |rows| && Decoded(rows[i]) == Some(a);
      var j :| 0 <= j < |rows| && Decoded(rows[j]) == Some(b);
      assert i == j;
    }
  }

  function Find(rows: seq<Listed>, id: Id): Option<SessionRow> {
    if rows == [] then None
    else if rows[|rows| - 1].id == id then Some(rows[|rows| - 1].row)
    else Find(rows[..|rows| - 1], id)
  }

  lemma {:induction false} FoundRow(rows: seq<Listed>, id: Id)
    ensures Find(rows, id).Some? ==> Listed(id, Find(rows, id).value) in rows
    ensures Find(rows, id).None? ==> forall l :: l in rows ==> l.id != id
    decreases |rows|
  {
    if rows != [] {
      FoundRow(rows[..|rows| - 1], id);
      assert rows == rows[..|rows| - 1] + [rows[|rows| - 1]];
    }
  }

  lemma FindIgnoresOrder(a: seq<Listed>, b: seq<Listed>, id: Id)
    requires Functional(b) && forall l :: l in a <==> l in b
    ensures Find(a, id) == Find(b, id)
  {
    FoundRow(a, id);
    FoundRow(b, id);
  }

  /** The rows of the tables that the listing reads, and of those that resuming reads. */
  function ListingRows(o: Option<Object>): seq<Listed> {
    if Listable(o) then DecodedRows(o.value.rows) else []
  }

  function ResumeRows(o: Option<Object>): seq<Listed> {
    if Readable(o) then DecodedRows(o.value.rows) else []
  }

  // ----- Tombstones -----

  /** The creation time under which an id's V1 copy is hidden. */
  function HiddenCreation(tombstones: Tombstones, id: Id): Option<int> {
    if Text(id) in tombstones && tombstones[Text(id)].Number? then Some(tombstones[Text(id)].n) else None
  }

  /** A tombstone whose V1 creation time is NULL, say, cannot be decoded as an integer. */
  predicate Undecodable(tombstones: Tombstones, id: Id) {
    Text(id) in tombstones && !tombstones[Text(id)].Number?
  }

  predicate SomeUndecodable(tombstones: Tombstones) {
    exists c :: c in tombstones && !(c.Text? && tombstones[c].Number?)
  }

  predicate IsTombstone(r: LineageRow) {
    r.v1Present && !r.v2Present && r.v2Deleted
  }

  /** SELECT session_id, v1_time_created ... WHERE v1_present = 1 AND v2_present = 0 AND v2_deleted = 1. */
  function TombstonesOf(lineage: LineageTable): Tombstones {
    map id | id in lineage && IsTombstone(lineage[id]) ::
      Text(id) := match lineage[id].v1Created case None => Null case Some(n) => Number(n)
  }

  /** A tombstone read back: its creation time, which is undecodable when it is NULL. */
  lemma TombstoneRead(lineage: LineageTable, id: Id)
    ensures var t := id in lineage && IsTombstone(lineage[id]);
            && HiddenCreation(TombstonesOf(lineage), id) == (if t then lineage[id].v1Created else None)
            && (Undecodable(TombstonesOf(lineage), id) <==> t && lineage[id].v1Created.None?)
    ensures forall c :: c in TombstonesOf(lineage) ==> c.Text?
  {
    if id in lineage && IsTombstone(lineage[id]) { assert Text(id) in TombstonesOf(lineage); }
  }

  // ----- The rule both readers must follow -----

  datatype Selection = Selection(table: Generation, row: SessionRow)

  predicate Visible(v2: seq<Listed>, v1: seq<Listed>, hidden: Option<int>, id: Id, s: Selection) {
    if s.table == V2 then Find(v2, id) == Some(s.row)
    else Find(v1, id) == Some(s.row) && hidden != Some(s.row.created)
  }

  /** The later visible copy is chosen, the V2 copy when both are equally late. */
  ghost predicate Chosen(v2: seq<Listed>, v1: seq<Listed>, hidden: Option<int>, id: Id, s: Selection) {
    && Visible(v2, v1, hidden, id, s)
    && forall other :: Visible(v2, v1, hidden, id, other) && other != s ==>
         s.row.updated > other.row.updated || (s.row.updated == other.row.updated && s.table == V2)
  }

  predicate Resumable(row: SessionRow) {
    row.parent.None? && row.archived.None?
  }

  /** The copy chosen so far against one more candidate, as both loops decide it. */
  predicate Replaces(current: Option<Selection>, table: Generation, row: SessionRow) {
    current.None? || row.updated > current.value.row.updated
    || (row.updated == current.value.row.updated && table == V2 && current.value.table == V1)
  }

  function Merged(v2: Option<SessionRow>, v1: Option<SessionRow>, hidden: Option<int>): Option<Selection> {
    var first := if v2.Some? then Some(Selection(V2, v2.value)) else None;
    if v1.Some? && hidden != Some(v1.value.created) && Replaces(first, V1, v1.value)
    then Some(Selection(V1, v1.value)) else first
  }

  lemma MergedIsChosen(v2: seq<Listed>, v1: seq<Listed>, hidden: Option<int>, id: Id, s: Selection)
    ensures Merged(Find(v2, id), Find(v1, id), hidden) == Some(s) <==> Chosen(v2, v1, hidden, id, s)
  {
    var m := Merged(Find(v2, id), Find(v1, id), hidden);
    assert m == Some(s) ==> Visible(v2, v1, hidden, id, s);
    if Chosen(v2, v1, hidden, id, s) && m.Some? {
      assert Visible(v2, v1, hidden, id, m.value);
    }
  }

  /** Newest first; equal times by descending id. */
  predicate ListedBefore(a: Listed, b: Listed) {
    a.row.updated > b.row.updated || (a.row.updated == b.row.updated && StringLess(b.id, a.id))
  }

  /** The rows the listing must contain, by the rule above. */
  ghost predicate Belongs(v2: seq<Listed>, v1: seq<Listed>, tombstones: Tombstones, l: Listed) {
    && Resumable(l.row)
    && exists table :: Chosen(v2, v1, HiddenCreation(tombstones, l.id), l.id, Selection(table, l.row))
  }

  /** What the contracts of the two readers say of the rows and copies they return. */
  ghost predicate ListingOf(v2: seq<Listed>, v1: seq<Listed>, tombstones: Tombstones, rows: seq<Listed>) {
    && (forall l :: l in rows <==> Belongs(v2, v1, tombstones, l))
    && Sorted(ListedBefore, rows) && Distinct(rows)
  }

  ghost predicate ResumeOf(v2: seq<Listed>, v1: seq<Listed>, tombstones: Tombstones, id: Id, s: Option<Selection>) {
    forall t :: s == Some(t) <==> Chosen(v2, v1, HiddenCreation(tombstones, id), id, t) && Resumable(t.row)
  }

  // ----- Resuming: one id, two lookups -----

  /** SELECT ... WHERE id = ?. */
  function RowAt(rows: seq<Row>, id: Id): Option<Row> {
    if rows == [] then None
    else if CellOf(rows[0], IdColumn) == Text(id) then Some(rows[0])
    else RowAt(rows[1..], id)
  }

  /** The id's row cannot be decoded. */
  predicate BrokenAt(rows: seq<Row>, id: Id) {
    exists row :: row in rows && CellOf(row, IdColumn) == Text(id) && Decoded(row).None?
  }

  lemma {:induction false} RowAtIs(rows: seq<Row>, id: Id)
    ensures RowAt(rows, id).Some? ==>
              RowAt(rows, id).value in rows && CellOf(RowAt(rows, id).value, IdColumn) == Text(id)
    ensures RowAt(rows, id).None? ==> forall row :: row in rows ==> CellOf(row, IdColumn) != Text(id)
  {
    if rows != [] {
      RowAtIs(rows[1..], id);
      assert rows == [rows[0]] + rows[1..];
    }
  }

  /** The lookup finds the id's decoded row, or one that cannot be decoded. */
  lemma LookedUp(rows: seq<Row>, id: Id)
    requires Keyed(rows)
    ensures BrokenAt(rows, id) <==> RowAt(rows, id).Some? && Decoded(RowAt(rows, id).value).None?
    ensures !BrokenAt(rows, id) ==>
              Find(DecodedRows(rows), id) ==
              if RowAt(rows, id).Some? then Some(Decoded(RowAt(rows, id).value).value.row) else None
  {
    RowAtIs(rows, id);
    FoundRow(DecodedRows(rows), id);
    if Find(DecodedRows(rows), id).Some? {
      DecodedMember(rows, Listed(id, Find(DecodedRows(rows), id).value));
    }
    if RowAt(rows, id).Some? {
      var row := RowAt(rows, id).value;
      assert forall other :: other in rows && CellOf(other, IdColumn) == Text(id) ==> other == row;
      if Decoded(row).Some? { DecodedMember(rows, Decoded(row).value); }
    }
  }

  /** A required column is missing, there is no table, the id's tombstone or one of its rows does
      not decode. */
  predicate ResumeRefused(h: History, id: Id) {
    || Lacking(h.v2) || Lacking(h.v1) || (!Readable(h.v2) && !Readable(h.v1)) || Undecodable(h.tombstones, id)
    || (Readable(h.v2) && BrokenAt(h.v2.value.rows, id)) || (Readable(h.v1) && BrokenAt(h.v1.value.rows, id))
  }

  method ResumableSession(h: History, id: Id) returns (r: Result<Option<Selection>, ()>)
    requires WellKeyed(h)
    ensures r.Err? <==> ResumeRefused(h, id)
    ensures r.Ok? ==> ResumeOf(ResumeRows(h.v2), ResumeRows(h.v1), h.tombstones, id, r.value)
  {
    hide Decoded, BrokenAt, DecodedRows, Find, RowAt, Chosen;
    if Lacking(h.v2) || Lacking(h.v1) || (!Readable(h.v2) && !Readable(h.v1)) { return Err(()); }
    if Undecodable(h.tombstones, id) { return Err(()); }
    var hidden := HiddenCreation(h.tombstones, id);
    var v2, v1 := ResumeRows(h.v2), ResumeRows(h.v1);
    var selected: Option<Selection> := None;
    var tables := [(V2, h.v2), (V1, h.v1)];
    NothingFound(id);
    for i := 0 to 2
      invariant i == 0 ==> selected == None
      invariant i == 1 ==> selected == Merged(Find(v2, id), None, hidden)
      invariant i == 2 ==> selected == Merged(Find(v2, id), Find(v1, id), hidden)
      invariant i > 0 && Readable(h.v2) ==> !BrokenAt(h.v2.value.rows, id)
      invariant i > 1 && Readable(h.v1) ==> !BrokenAt(h.v1.value.rows, id)
    {
      var (table, source) := tables[i];
      if !Readable(source) { continue; }
      LookedUp(source.value.rows, id);
      var found := RowAt(source.value.rows, id);
      if found.None? { continue; }
      var generation := Decoded(found.value);
      if generation.None? { return Err(()); }
      if table == V1 && hidden == Some(generation.value.row.created) { continue; }
      if Replaces(selected, table, generation.value.row) {
        selected := Some(Selection(table, generation.value.row));
      }
    }
    forall s ensures selected == Some(s) <==> Chosen(v2, v1, hidden, id, s) {
      MergedIsChosen(v2, v1, hidden, id, s);
    }
    return Ok(if selected.Some? && Resumable(selected.value.row) then selected else None);
  }

  lemma NothingFound(id: Id)
    ensures Find([], id) == None
  {
  }

  // ----- Listing: both tables scanned into a map -----

  lemma ListedOrder()
    ensures StrictOrder(ListedBefore)
  {
    StringOrder();
  }

  /** SELECT ... FROM a session table LEFT JOIN project: a row once for each project it is joined
      with, or once. None when a row does not decode. */
  method SelectJoined(rows: seq<Row>, projects: set<Row>) returns (joined: Option<seq<Listed>>)
    ensures joined.None? <==> exists row :: row in rows && !ListingDecodes(row, projects)
    ensures joined.Some? ==> forall l :: l in joined.value <==> l in DecodedRows(rows)
  {
    hide Decoded, DecodedRows;
    var listed: seq<Listed> := [];
    for i := 0 to |rows|
      invariant forall row :: row in rows[..i] ==> ListingDecodes(row, projects)
      invariant forall l :: l in listed <==> exists row :: row in rows[..i] && Decoded(row) == Some(l)
    {
      var row := rows[i];
      assert row in rows && rows[..i + 1] == rows[..i] + [row];
      var l := Decoded(row);
      if l.None? { return None; }
      if !OptionalText(CellOf(row, TitleColumn)) || !OptionalText(CellOf(row, ProjectColumn)) { return None; }
      listed := listed + [l.value];
      var rest := set p | p in projects && Joins(p, row);
      ghost var matching := rest;
      while rest != {}
        invariant rest <= matching
        invariant forall p :: p in matching - rest ==>
                    OptionalText(CellOf(p, NameColumn)) && OptionalText(CellOf(p, WorktreeColumn))
        invariant forall x :: x in listed <==> x == l.value || exists r :: r in rows[..i] && Decoded(r) == Some(x)
        decreases rest
      {
        var p :| p in rest;
        if !OptionalText(CellOf(p, NameColumn)) || !OptionalText(CellOf(p, WorktreeColumn)) { return None; }
        rest := rest - {p};
        if rest != {} { listed := listed + [l.value]; }
      }
    }
    assert rows[..|rows|] == rows;
    forall l ensures l in listed <==> l in DecodedRows(rows) { DecodedMember(rows, l); }
    return Some(listed);
  }

  method ScanTable(table: Generation, rows: seq<Listed>, tombstones: map<Id, int>,
                   start: map<Id, Selection>) returns (selected: map<Id, Selection>)
    requires Functional(rows)
    ensures forall id :: Get(selected, id) == Scanned(Get(start, id), table, Find(rows, id), Get(tombstones, id))
  {
    selected := start;
    for i := 0 to |rows|
      invariant forall id ::
                  Get(selected, id) == Scanned(Get(start, id), table, Find(rows[..i], id), Get(tombstones, id))
    {
      var Listed(id, row) := rows[i];
      assert rows[..i + 1][..i] == rows[..i];
      FoundBefore(rows, i);
      if table == V1 && Get(tombstones, id) == Some(row.created) { continue; }
      if Replaces(Get(selected, id), table, row) {
        selected := selected[id := Selection(table, row)];
      }
    }
    assert rows[..|rows|] == rows;
  }

  function Scanned(current: Option<Selection>, table: Generation, found: Option<SessionRow>,
                   hidden: Option<int>): Option<Selection> {
    if found.Some? && !(table == V1 && hidden == Some(found.value.created)) && Replaces(current, table, found.value)
    then Some(Selection(table, found.value)) else current
  }

  /** A row's id was not found before, or with the same row. */
  lemma FoundBefore(rows: seq<Listed>, i: nat)
    requires Functional(rows) && i < |rows|
    ensures Find(rows[..i], rows[i].id) in {None, Some(rows[i].row)}
  {
    FoundRow(rows[..i], rows[i].id);
    assert rows[i] in rows && forall l :: l in rows[..i] ==> l in rows;
  }

  /** `into_values().filter(...)`: the map's entries in no particular order. */
  method Collect(selected: map<Id, Selection>) returns (listed: seq<Listed>)
    ensures Distinct(listed)
    ensures forall l :: l in listed <==> l.id in selected && selected[l.id].row == l.row && Resumable(l.row)
  {
    listed := [];
    var rest := selected.Keys;
    while rest != {}
      invariant rest <= selected.Keys
      invariant Distinct(listed)
      invariant forall l :: l in listed <==>
                l.id in selected && l.id !in rest && selected[l.id].row == l.row && Resumable(l.row)
      decreases |rest|
    {
      var id :| id in rest;
      rest := rest - {id};
      if Resumable(selected[id].row) { listed := listed + [Listed(id, selected[id].row)]; }
    }
  }

  /** The tombstones collected into a map; None if a row does not decode. */
  method ReadTombstones(rows: Tombstones) returns (tombstones: Option<map<Id, int>>)
    ensures tombstones.None? <==> SomeUndecodable(rows)
    ensures tombstones.Some? ==> forall id :: Get(tombstones.value, id) == HiddenCreation(rows, id)
  {
    var collected: map<Id, int> := map[];
    var rest := rows.Keys;
    while rest != {}
      invariant rest <= rows.Keys
      invariant forall c :: c in rows.Keys - rest ==> c.Text? && rows[c].Number?
      invariant forall id :: Get(collected, id) == if Text(id) in rest then None else HiddenCreation(rows, id)
      decreases rest
    {
      var c :| c in rest;
      if !c.Text? || !rows[c].Number? { return None; }
      rest := rest - {c};
      collected := collected[c.text := rows[c].n];
    }
    return Some(collected);
  }

  lemma CollectedBelong(v2: seq<Listed>, v1: seq<Listed>, tombstones: Tombstones, selected: map<Id, Selection>,
                        listed: seq<Listed>)
    requires forall id :: Get(selected, id) == Merged(Find(v2, id), Find(v1, id), HiddenCreation(tombstones, id))
    requires forall l :: l in listed <==> l.id in selected && selected[l.id].row == l.row && Resumable(l.row)
    ensures forall l :: l in listed <==> Belongs(v2, v1, tombstones, l)
  {
    forall l ensures l in listed <==> Belongs(v2, v1, tombstones, l) {
      assert Get(selected, l.id) == Merged(Find(v2, l.id), Find(v1, l.id), HiddenCreation(tombstones, l.id));
      forall table {
        MergedIsChosen(v2, v1, HiddenCreation(tombstones, l.id), l.id, Selection(table, l.row));
      }
    }
  }

  /** Some row of the object does not decode as the listing decodes it. */
  predicate BrokenListing(o: Option<Object>, projects: set<Row>) {
    Listable(o) && exists row :: row in o.value.rows && !ListingDecodes(row, projects)
  }

  /** A tombstone or a row does not decode, or there is no `project` to join. */
  predicate QueryRefused(h: History) {
    SomeUndecodable(h.tombstones) || h.projects.None?
    || BrokenListing(h.v2, h.projects.value) || BrokenListing(h.v1, h.projects.value)
  }

  predicate ListingRefused(h: History) {
    (!Listable(h.v2) && !Listable(h.v1)) || QueryRefused(h)
  }

  datatype Reason = SchemaUnsupported | QueryFailed

  method HistoryRows(h: History) returns (r: Result<seq<Listed>, Reason>)
    requires WellKeyed(h)
    ensures r == Err(SchemaUnsupported) <==> !Listable(h.v2) && !Listable(h.v1)
    ensures r == Err(QueryFailed) <==> (Listable(h.v2) || Listable(h.v1)) && QueryRefused(h)
    ensures r.Ok? ==> ListingOf(ListingRows(h.v2), ListingRows(h.v1), h.tombstones, r.value)
  {
    hide ListingDecodes, DecodedRows, Chosen, SomeUndecodable;
    if !Listable(h.v2) && !Listable(h.v1) { return Err(SchemaUnsupported); }
    var tombstones := ReadTombstones(h.tombstones);
    if tombstones.None? { return Err(QueryFailed); }
    if h.projects.None? { return Err(QueryFailed); }
    var selected: map<Id, Selection> := map[];
    var listed2 := ScanObject(V2, h.v2, h.projects.value, tombstones.value, selected);
    if listed2.None? { return Err(QueryFailed); }
    var listed1 := ScanObject(V1, h.v1, h.projects.value, tombstones.value, listed2.value);
    if listed1.None? { return Err(QueryFailed); }
    var listed := Collect(listed1.value);
    CollectedBelong(ListingRows(h.v2), ListingRows(h.v1), h.tombstones, listed1.value, listed);
    ListedOrder();
    SortSorted(ListedBefore, listed);
    SortKeepsElements(ListedBefore, listed);
    return Ok(Sort(ListedBefore, listed));
  }

  /** One table's part of the listing loop; None when the query fails. */
  method ScanObject(table: Generation, o: Option<Object>, projects: set<Row>, tombstones: map<Id, int>,
                    start: map<Id, Selection>) returns (selected: Option<map<Id, Selection>>)
    requires o.Some? ==> Keyed(o.value.rows)
    ensures selected.None? <==> BrokenListing(o, projects)
    ensures selected.Some? ==> forall id ::
              Get(selected.value, id) == Scanned(Get(start, id), table, Find(ListingRows(o), id), Get(tombstones, id))
  {
    hide ListingDecodes, DecodedRows, Find;
    forall id { NothingFound(id); }
    if !Listable(o) { return Some(start); }
    var joined := SelectJoined(o.value.rows, projects);
    if joined.None? { return None; }
    DecodedFunctional(o.value.rows);
    forall id { FindIgnoresOrder(joined.value, DecodedRows(o.value.rows), id); }
    var scanned := ScanTable(table, joined.value, tombstones, start);
    return Some(scanned);
  }

  // ----- Agreement -----

  lemma ChosenOnce(v2: seq<Listed>, v1: seq<Listed>, hidden: Option<int>, id: Id, s: Selection, t: Selection)
    requires Chosen(v2, v1, hidden, id, s) && Chosen(v2, v1, hidden, id, t)
    ensures s == t
  {
  }

  lemma BelongsOnce(v2: seq<Listed>, v1: seq<Listed>, tombstones: Tombstones, a: Listed, b: Listed)
    requires Belongs(v2, v1, tombstones, a) && Belongs(v2, v1, tombstones, b) && a.id == b.id
    ensures a == b
  {
    var hidden := HiddenCreation(tombstones, a.id);
    var ta :| Chosen(v2, v1, hidden, a.id, Selection(ta, a.row));
    var tb :| Chosen(v2, v1, hidden, a.id, Selection(tb, b.row));
    ChosenOnce(v2, v1, hidden, a.id, Selection(ta, a.row), Selection(tb, b.row));
  }

  /** Where both readers succeed on the same rows, an id is listed exactly when it can be resumed,
      with the row that resuming picks, and once. */
  lemma ListingAgreesWithResume(v2: seq<Listed>, v1: seq<Listed>, tombstones: Tombstones, rows: seq<Listed>,
                                id: Id, s: Option<Selection>)
    requires ListingOf(v2, v1, tombstones, rows) && ResumeOf(v2, v1, tombstones, id, s)
    ensures s.Some? <==> exists i :: 0 <= i < |rows| && rows[i].id == id
    ensures s.Some? ==> Listed(id, s.value.row) in rows
    ensures forall i, j :: 0 <= i < |rows| && 0 <= j < |rows| && rows[i].id == rows[j].id ==> i == j
  {
    if s.Some? {
      assert s == Some(s.value);
      assert Belongs(v2, v1, tombstones, Listed(id, s.value.row)) by {
        assert s.value == Selection(s.value.table, s.value.row);
      }
    }
    forall i | 0 <= i < |rows| && rows[i].id == id ensures s.Some? {
      assert rows[i] in rows && Belongs(v2, v1, tombstones, rows[i]);
      var table :| Chosen(v2, v1, HiddenCreation(tombstones, id), id, Selection(table, rows[i].row));
      assert s == Some(Selection(table, rows[i].row));
    }
    forall i, j | 0 <= i < |rows| && 0 <= j < |rows| && rows[i].id == rows[j].id ensures i == j {
      assert rows[i] in rows && rows[j] in rows;
      BelongsOnce(v2, v1, tombstones, rows[i], rows[j]);
    }
  }

  // ----- When the two readers agree -----

  /** The listing succeeded and shows the id. */
  predicate Shows(listed: Result<seq<Listed>, Reason>, id: Id) {
    listed.Ok? && exists i :: 0 <= i < |listed.value| && listed.value[i].id == id
  }

  /** Resuming succeeded and found a copy. */
  predicate Resumes(resumed: Result<Option<Selection>, ()>) {
    resumed.Ok? && resumed.value.Some?
  }

  /** The contract of HistoryRows. */
  ghost predicate ListingResult(h: History, r: Result<seq<Listed>, Reason>) {
    && (r == Err(SchemaUnsupported) <==> !Listable(h.v2) && !Listable(h.v1))
    && (r == Err(QueryFailed) <==> (Listable(h.v2) || Listable(h.v1)) && QueryRefused(h))
    && (r.Ok? ==> ListingOf(ListingRows(h.v2), ListingRows(h.v1), h.tombstones, r.value))
  }

  /** The contract of ResumableSession. */
  ghost predicate ResumeResult(h: History, id: Id, r: Result<Option<Selection>, ()>) {
    && (r.Err? <==> ResumeRefused(h, id))
    && (r.Ok? ==> ResumeOf(ResumeRows(h.v2), ResumeRows(h.v1), h.tombstones, id, r.value))
  }

  /** The rows hold a copy of the id that is visible and neither a child nor archived. */
  ghost predicate HasCopy(v2: seq<Listed>, v1: seq<Listed>, tombstones: Tombstones, id: Id) {
    exists s :: Chosen(v2, v1, HiddenCreation(tombstones, id), id, s) && Resumable(s.row)
  }

  ghost predicate ListingHasCopy(h: History, id: Id) {
    HasCopy(ListingRows(h.v2), ListingRows(h.v1), h.tombstones, id)
  }

  ghost predicate ResumeHasCopy(h: History, id: Id) {
    HasCopy(ResumeRows(h.v2), ResumeRows(h.v1), h.tombstones, id)
  }

  /** Both readers read the same tables: no view, and no generated column that is required. */
  predicate SameTables(h: History) {
    (Listable(h.v2) <==> Readable(h.v2)) && (Listable(h.v1) <==> Readable(h.v1))
  }

  /** One reader is refused and the other has a copy, or only one of them has a copy. */
  ghost predicate Splits(h: History, id: Id) {
    if ListingRefused(h) then !ResumeRefused(h, id) && ResumeHasCopy(h, id)
    else if ResumeRefused(h, id) then ListingHasCopy(h, id)
    else ListingHasCopy(h, id) != ResumeHasCopy(h, id)
  }

  /** Whatever the database holds, an id is listed exactly when it can be resumed, unless it splits
      the readers. When both read the same tables it splits them exactly when they hold a copy of it
      and one reader alone is refused; and what both find is the same row. */
  lemma ReadersAgreeExactly(h: History, listed: Result<seq<Listed>, Reason>, id: Id,
                            resumed: Result<Option<Selection>, ()>)
    requires ListingResult(h, listed) && ResumeResult(h, id, resumed)
    ensures (Shows(listed, id) <==> Resumes(resumed)) <==> !Splits(h, id)
    ensures SameTables(h) ==>
              (Splits(h, id) <==> ResumeHasCopy(h, id) && (ListingRefused(h) <==> !ResumeRefused(h, id)))
    ensures SameTables(h) && Shows(listed, id) && Resumes(resumed) ==>
              Listed(id, resumed.value.value.row) in listed.value
  {
    hide QueryRefused, ResumeRefused, ListingRows, ResumeRows, HasCopy, ListingOf, ResumeOf, Listable, Readable;
    ListingRefusal(h, listed);
    if listed.Ok? { ShownHasCopy(ListingRows(h.v2), ListingRows(h.v1), h.tombstones, listed.value, id); }
    if resumed.Ok? { ResumedHasCopy(ResumeRows(h.v2), ResumeRows(h.v1), h.tombstones, id, resumed.value); }
    if SameTables(h) { SameRows(h); }
    if SameTables(h) && listed.Ok? && resumed.Ok? {
      ListingAgreesWithResume(ListingRows(h.v2), ListingRows(h.v1), h.tombstones, listed.value, id, resumed.value);
    }
  }

  lemma SameRows(h: History)
    requires SameTables(h)
    ensures ListingRows(h.v2) == ResumeRows(h.v2) && ListingRows(h.v1) == ResumeRows(h.v1)
  {
  }

  lemma ListingRefusal(h: History, r: Result<seq<Listed>, Reason>)
    requires ListingResult(h, r)
    ensures r.Err? <==> ListingRefused(h)
  {
    if r.Err? { assert r.error == SchemaUnsupported || r.error == QueryFailed; }
  }

  lemma ShownHasCopy(v2: seq<Listed>, v1: seq<Listed>, tombstones: Tombstones, rows: seq<Listed>, id: Id)
    requires ListingOf(v2, v1, tombstones, rows)
    ensures (exists i :: 0 <= i < |rows| && rows[i].id == id) <==> HasCopy(v2, v1, tombstones, id)
  {
    var hidden := HiddenCreation(tombstones, id);
    if i :| 0 <= i < |rows| && rows[i].id == id {
      assert Belongs(v2, v1, tombstones, rows[i]);
      var table :| Chosen(v2, v1, hidden, id, Selection(table, rows[i].row));
    }
    if s :| Chosen(v2, v1, hidden, id, s) && Resumable(s.row) {
      assert s == Selection(s.table, s.row);
      assert Belongs(v2, v1, tombstones, Listed(id, s.row));
    }
  }

  lemma ResumedHasCopy(v2: seq<Listed>, v1: seq<Listed>, tombstones: Tombstones, id: Id, r: Option<Selection>)
    requires ResumeOf(v2, v1, tombstones, id, r)
    ensures r.Some? <==> HasCopy(v2, v1, tombstones, id)
  {
    if r.Some? { assert r == Some(r.value); }
  }

  // ----- Inputs on which they do not agree -----

  /** A session that is neither a child nor archived, in the given directory. */
  function PlainRow(id: Id, directory: Cell): Row {
    map[IdColumn := Text(id), DirectoryColumn := directory, CreatedColumn := Number(1), UpdatedColumn := Number(2)]
  }

  function PlainTable(rows: seq<Row>): Option<Object> {
    Some(Object(true, REQUIRED_COLUMNS, REQUIRED_COLUMNS, rows))
  }

  /** The session is found in a table of V1 rows, whatever else the database holds. */
  lemma FoundInV1(rows: seq<Row>, tombstones: Tombstones)
    requires Keyed(rows) && PlainRow("a", Text("/")) in rows && Text("a") !in tombstones
    ensures HasCopy([], DecodedRows(rows), tombstones, "a") && !BrokenAt(rows, "a")
  {
    var l := Decoded(PlainRow("a", Text("/"))).value;
    DecodedMember(rows, l);
    DecodedFunctional(rows);
    FoundRow(DecodedRows(rows), "a");
    assert Visible([], DecodedRows(rows), None, "a", Selection(V1, l.row));
    assert Chosen([], DecodedRows(rows), None, "a", Selection(V1, l.row));
    LookedUp(rows, "a");
    RowAtIs(rows, "a");
  }

  /** V2 lacks a column and V1 has a plain row: it is listed, and resuming fails. */
  method ListsWhatCannotBeResumed()
    returns (listed: Result<seq<Listed>, Reason>, resumed: Result<Option<Selection>, ()>)
    ensures Shows(listed, "a") && resumed.Err?
  {
    var rows := [PlainRow("a", Text("/"))];
    var h := History(Some(Object(true, {}, {}, [])), PlainTable(rows), Some({}), map[]);
    assert IdColumn in REQUIRED_COLUMNS;
    listed := HistoryRows(h);
    resumed := ResumableSession(h, "a");
    FoundInV1(rows, h.tombstones);
    ListingRefusal(h, listed);
    ShownHasCopy(ListingRows(h.v2), ListingRows(h.v1), h.tombstones, listed.value, "a");
  }

  /** A plain V1 table, and what else the database holds. */
  function OnlyV1(rows: seq<Row>, projects: Option<set<Row>>, tombstones: Tombstones): History {
    History(None, PlainTable(rows), projects, tombstones)
  }

  /** The listing is refused over something that resuming "a" does not look at. */
  method ResumesAlone(rows: seq<Row>, projects: Option<set<Row>>, tombstones: Tombstones)
    returns (listed: Result<seq<Listed>, Reason>, resumed: Result<Option<Selection>, ()>)
    requires Keyed(rows) && PlainRow("a", Text("/")) in rows && Text("a") !in tombstones
    requires QueryRefused(OnlyV1(rows, projects, tombstones))
    ensures Resumes(resumed) && listed == Err(QueryFailed)
  {
    var h := OnlyV1(rows, projects, tombstones);
    listed := HistoryRows(h);
    resumed := ResumableSession(h, "a");
    FoundInV1(rows, tombstones);
    ResumedHasCopy(ResumeRows(h.v2), ResumeRows(h.v1), tombstones, "a", resumed.value);
  }

  /** Another id's tombstone has no creation time: the row can be resumed, and the listing fails. */
  method ResumesBesideTombstone() returns (listed: Result<seq<Listed>, Reason>, resumed: Result<Option<Selection>, ()>)
    ensures Resumes(resumed) && listed == Err(QueryFailed)
  {
    var tombstones: Tombstones := map[Text("b") := Null];
    assert Text("b") in tombstones;
    listed, resumed := ResumesAlone([PlainRow("a", Text("/"))], Some({}), tombstones);
  }

  /** There is no `project` table. */
  method ResumesWithoutProjects() returns (listed: Result<seq<Listed>, Reason>, resumed: Result<Option<Selection>, ()>)
    ensures Resumes(resumed) && listed == Err(QueryFailed)
  {
    listed, resumed := ResumesAlone([PlainRow("a", Text("/"))], None, map[]);
  }

  /** Another row has no directory. */
  method ResumesBesideBrokenRow() returns (listed: Result<seq<Listed>, Reason>, resumed: Result<Option<Selection>, ()>)
    ensures Resumes(resumed) && listed == Err(QueryFailed)
  {
    var rows := [PlainRow("a", Text("/")), PlainRow("b", Null)];
    assert rows[1] in rows && Decoded(rows[1]).None?;
    assert BrokenListing(PlainTable(rows), {});
    listed, resumed := ResumesAlone(rows, Some({}), map[]);
  }

  lemma NoCopy(tombstones: Tombstones, id: Id)
    ensures !HasCopy([], [], tombstones, id)
  {
  }

  /** V1 is a view: its rows are listed, and resuming finds nothing in the empty V2 table. */
  method ListsThroughView() returns (listed: Result<seq<Listed>, Reason>, resumed: Result<Option<Selection>, ()>)
    ensures Shows(listed, "a") && resumed == Ok(None)
  {
    var rows := [PlainRow("a", Text("/"))];
    var h := History(PlainTable([]), Some(Object(false, REQUIRED_COLUMNS, REQUIRED_COLUMNS, rows)), Some({}), map[]);
    listed := HistoryRows(h);
    resumed := ResumableSession(h, "a");
    FoundInV1(rows, h.tombstones);
    ListingRefusal(h, listed);
    ShownHasCopy(ListingRows(h.v2), ListingRows(h.v1), h.tombstones, listed.value, "a");
    ResumedHasCopy([], [], h.tombstones, "a", resumed.value);
    NoCopy(h.tombstones, "a");
  }

  /** Whatever order the queries return rows in and the map yields its entries in, the listing
      is the same sequence. */
  lemma ListingIgnoresOrder(v2: seq<Listed>, v1: seq<Listed>, w2: seq<Listed>, w1: seq<Listed>, tombstones: Tombstones,
                            a: seq<Listed>, b: seq<Listed>)
    requires Functional(w2) && Functional(w1)
    requires (forall l :: l in v2 <==> l in w2) && (forall l :: l in v1 <==> l in w1)
    requires ListingOf(v2, v1, tombstones, a) && ListingOf(w2, w1, tombstones, b)
    ensures a == b
  {
    forall l ensures l in a <==> l in b {
      FindIgnoresOrder(v2, w2, l.id);
      FindIgnoresOrder(v1, w1, l.id);
      var hidden := HiddenCreation(tombstones, l.id);
      forall table ensures Chosen(v2, v1, hidden, l.id, Selection(table, l.row)) <==>
                           Chosen(w2, w1, hidden, l.id, Selection(table, l.row))
      {
        MergedIsChosen(v2, v1, hidden, l.id, Selection(table, l.row));
        MergedIsChosen(w2, w1, hidden, l.id, Selection(table, l.row));
      }
    }
    ListedOrder();
    StringOrder();
    forall x, y | x in a && y in a && x != y ensures ListedBefore(x, y) || ListedBefore(y, x) {
      if x.id == y.id { BelongsOnce(v2, v1, tombstones, x, y); }
    }
    DistinctMultiset(a, b);
    SortedIsUnique(ListedBefore, a, b);
  }

  /** After any run of statements on a consistent database no tombstone is undecodable, and the
      only copies the readers pass over are the V1 copies that the run supersedes. */
  lemma ReadersFollowHistory(db: Tables, ss: seq<Statement>, v2: seq<Listed>, v1: seq<Listed>, id: Id)
    requires Consistent(db)
    requires Find(v2, id) == Get(Run(db, ss).v2, id) && Find(v1, id) == Get(Run(db, ss).v1, id)
    ensures var end := Run(db, ss);
            var hidden := HiddenCreation(TombstonesOf(end.lineage), id);
            && !SomeUndecodable(TombstonesOf(end.lineage))
            && (id in end.v2 ==> Visible(v2, v1, hidden, id, Selection(V2, end.v2[id])))
            && (id in end.v1 ==>
                  (Visible(v2, v1, hidden, id, Selection(V1, end.v1[id])) <==>
                   !exists created, updated :: Superseded(db, ss, id, created, updated)))
  {
    HiddenExactly(db, ss, id);
    RunKeepsConsistent(db, ss);
    hide Run, Superseded, TombstonesOf;
    var end := Run(db, ss);
    assert ConsistentAt(end, id);
    TombstoneRead(end.lineage, id);
    forall c | c in TombstonesOf(end.lineage) ensures c.Text? && TombstonesOf(end.lineage)[c].Number? {
      TombstoneRead(end.lineage, if c.Text? then c.text else id);
      assert ConsistentAt(end, c.text);
    }
  }
}
