/**
 What the two readers return, in terms of the cells of the tables alone.
 */
module ReaderCells {
  import opened Prelude
  import opened ForeignKeys
  import opened Lineage
  import opened Merge
  import opened Sorting

  /** The id has this row in the table; a V1 row does not stand when the id's tombstone holds the
      time it was created. */
  ghost predicate Stands(v2: seq<Row>, v1: seq<Row>, tombstones: Tombstones, id: Id, t: Generation, row: Row) {
    && CellOf(row, IdColumn) == Text(id)
    && match t
       case V2 => row in v2
       case V1 => row in v1 && !(Text(id) in tombstones && tombstones[Text(id)] == CellOf(row, CreatedColumn))
  }

  /** It was updated later than the id's other row, if that stands; V2 wins a tie. */
  ghost predicate Latest(v2: seq<Row>, v1: seq<Row>, tombstones: Tombstones, id: Id, t: Generation, row: Row) {
    && Stands(v2, v1, tombstones, id, t, row)
    && forall u, other :: Stands(v2, v1, tombstones, id, u, other) && u != t ==>
         var mine, its := CellOf(row, UpdatedColumn), CellOf(other, UpdatedColumn);
         mine.Number? && its.Number? && (mine.n > its.n || (mine.n == its.n && t == V2))
  }

  /** The typed row that a reader makes of the cells. */
  ghost predicate TypedAs(row: Row, typed: SessionRow) {
    && typed.body == row
    && CellOf(row, CreatedColumn) == Number(typed.created) && CellOf(row, UpdatedColumn) == Number(typed.updated)
    && CellOf(row, ParentColumn) == (if typed.parent.Some? then Text(typed.parent.value) else Null)
    && CellOf(row, ArchivedColumn) == (if typed.archived.Some? then Number(typed.archived.value) else Null)
  }

  lemma FoundRaw(rows: seq<Row>, id: Id, row: Row)
    requires Keyed(rows) && !BrokenAt(rows, id)
    ensures var found := Find(DecodedRows(rows), id);
            && (row in rows && CellOf(row, IdColumn) == Text(id) <==> found.Some? && found.value.body == row)
            && (found.Some? && found.value.body == row ==> TypedAs(row, found.value))
  {
    LookedUp(rows, id);
    RowAtIs(rows, id);
  }

  /** Of each table's rows for the id there is one at most, and it is the one that was found. */
  lemma StandsIsVisible(v2: seq<Row>, v1: seq<Row>, tombstones: Tombstones, id: Id, s: Selection)
    requires Keyed(v2) && Keyed(v1) && !BrokenAt(v2, id) && !BrokenAt(v1, id) && !Undecodable(tombstones, id)
    ensures Visible(DecodedRows(v2), DecodedRows(v1), HiddenCreation(tombstones, id), id, s) <==>
            Stands(v2, v1, tombstones, id, s.table, s.row.body) && TypedAs(s.row.body, s.row)
  {
    hide Keyed, BrokenAt, DecodedRows, Find;
    FoundRaw(v2, id, s.row.body);
    FoundRaw(v1, id, s.row.body);
  }

  lemma TypedStanding(v2: seq<Row>, v1: seq<Row>, tombstones: Tombstones, id: Id, t: Generation, row: Row)
    returns (typed: SessionRow)
    requires Keyed(v2) && Keyed(v1) && !BrokenAt(v2, id) && !BrokenAt(v1, id) && !Undecodable(tombstones, id)
    requires Stands(v2, v1, tombstones, id, t, row)
    ensures TypedAs(row, typed)
    ensures Visible(DecodedRows(v2), DecodedRows(v1), HiddenCreation(tombstones, id), id, Selection(t, typed))
  {
    var rows := if t == V2 then v2 else v1;
    FoundRaw(rows, id, row);
    typed := Find(DecodedRows(rows), id).value;
    StandsIsVisible(v2, v1, tombstones, id, Selection(t, typed));
  }

  /** The latest row is the one that the readers choose. */
  lemma LatestIsChosen(v2: seq<Row>, v1: seq<Row>, tombstones: Tombstones, id: Id, s: Selection)
    requires Keyed(v2) && Keyed(v1) && !BrokenAt(v2, id) && !BrokenAt(v1, id) && !Undecodable(tombstones, id)
    ensures Chosen(DecodedRows(v2), DecodedRows(v1), HiddenCreation(tombstones, id), id, s) <==>
            Latest(v2, v1, tombstones, id, s.table, s.row.body) && TypedAs(s.row.body, s.row)
  {
    hide DecodedRows, Keyed, BrokenAt, Undecodable, HiddenCreation, Find;
    var d2, d1, hidden := DecodedRows(v2), DecodedRows(v1), HiddenCreation(tombstones, id);
    StandsIsVisible(v2, v1, tombstones, id, s);
    if Visible(d2, d1, hidden, id, s) {
      forall u, other | Stands(v2, v1, tombstones, id, u, other) && u != s.table
        ensures exists typed :: TypedAs(other, typed) && Visible(d2, d1, hidden, id, Selection(u, typed))
      {
        var typed := TypedStanding(v2, v1, tombstones, id, u, other);
      }
      forall other | Visible(d2, d1, hidden, id, other) && other != s
        ensures other.table != s.table && Stands(v2, v1, tombstones, id, other.table, other.row.body)
        ensures TypedAs(other.row.body, other.row)
      {
        StandsIsVisible(v2, v1, tombstones, id, other);
      }
    }
  }

  lemma TypedLatest(v2: seq<Row>, v1: seq<Row>, tombstones: Tombstones, id: Id, t: Generation, row: Row)
    returns (typed: SessionRow)
    requires Keyed(v2) && Keyed(v1) && !BrokenAt(v2, id) && !BrokenAt(v1, id) && !Undecodable(tombstones, id)
    requires Latest(v2, v1, tombstones, id, t, row)
    ensures TypedAs(row, typed)
    ensures Chosen(DecodedRows(v2), DecodedRows(v1), HiddenCreation(tombstones, id), id, Selection(t, typed))
  {
    typed := TypedStanding(v2, v1, tombstones, id, t, row);
    LatestIsChosen(v2, v1, tombstones, id, Selection(t, typed));
  }

  // ----- Resuming -----

  const COLUMNS: set<Column> :=
    {IdColumn, ParentColumn, DirectoryColumn, TitleColumn, ProjectColumn, CreatedColumn, UpdatedColumn, ArchivedColumn}

  /** Rows of an object that is a table and not a view. */
  function TableRows(o: Option<Object>): seq<Row> {
    if o.Some? && o.value.isTable then o.value.rows else []
  }

  /** The cells that both readers read have the types that they read them as. */
  predicate WellTyped(row: Row) {
    && CellOf(row, IdColumn).Text? && CellOf(row, DirectoryColumn).Text?
    && CellOf(row, CreatedColumn).Number? && CellOf(row, UpdatedColumn).Number?
    && !CellOf(row, ParentColumn).Number? && !CellOf(row, ParentColumn).Raw?
    && !CellOf(row, ArchivedColumn).Text? && !CellOf(row, ArchivedColumn).Raw?
  }

  lemma DecodesWellTyped(row: Row)
    ensures Decoded(row).Some? <==> WellTyped(row)
  {
  }

  /** Resuming fails exactly when a session table lacks one of the eight columns, there is none, the
      id's tombstone holds no number, or a cell of one of the id's rows has another type. */
  lemma ResumeFailsExactly(h: History, id: Id, r: Result<Option<Selection>, ()>)
    requires ResumeResult(h, id, r)
    ensures r.Err? <==>
            || (exists o :: o in {h.v2, h.v1} && o.Some? && o.value.isTable && !(COLUMNS <= o.value.all))
            || (forall o :: o in {h.v2, h.v1} ==> o.None? || !o.value.isTable)
            || (Text(id) in h.tombstones && !h.tombstones[Text(id)].Number?)
            || (exists row :: (row in TableRows(h.v2) || row in TableRows(h.v1))
                              && CellOf(row, IdColumn) == Text(id) && !WellTyped(row))
  {
    forall row ensures Decoded(row).Some? <==> WellTyped(row) { DecodesWellTyped(row); }
    assert COLUMNS == REQUIRED_COLUMNS;
    hide Decoded, WellTyped;
    assert h.v2 in {h.v2, h.v1} && h.v1 in {h.v2, h.v1};
  }

  /** Otherwise it returns exactly the id's latest row, if that has neither a parent nor an archive
      time; an archived or child row that is the latest is not made up for by an earlier one. */
  lemma ResumesExactly(h: History, id: Id, r: Result<Option<Selection>, ()>, t: Generation, row: Row)
    requires WellKeyed(h) && ResumeResult(h, id, r) && r.Ok?
    ensures r.value.Some? && r.value.value.table == t && r.value.value.row.body == row <==>
            && Latest(TableRows(h.v2), TableRows(h.v1), h.tombstones, id, t, row)
            && CellOf(row, ParentColumn) == Null && CellOf(row, ArchivedColumn) == Null
    ensures r.value.Some? ==> TypedAs(r.value.value.row.body, r.value.value.row)
  {
    var rows2, rows1 := TableRows(h.v2), TableRows(h.v1);
    assert ResumeRows(h.v2) == DecodedRows(rows2) && ResumeRows(h.v1) == DecodedRows(rows1);
    assert !BrokenAt(rows2, id) && !BrokenAt(rows1, id) && Keyed(rows2) && Keyed(rows1);
    hide DecodedRows, BrokenAt, Keyed, Latest, Chosen, TableRows, ResumeRows;
    forall s { LatestIsChosen(rows2, rows1, h.tombstones, id, s); }
    hide HiddenCreation;
    if r.value.Some? { assert r.value == Some(r.value.value); }
    if Latest(rows2, rows1, h.tombstones, id, t, row) {
      var typed := TypedLatest(rows2, rows1, h.tombstones, id, t, row);
      assert Resumable(typed) ==> r.value == Some(Selection(t, typed));
    }
  }

  // ----- Listing -----

  /** Rows of an object that has the eight columns, none of them generated. */
  function ListedFrom(o: Option<Object>): seq<Row> {
    if o.Some? && COLUMNS <= o.value.plain then o.value.rows else []
  }

  predicate TextOrNull(c: Cell) { c.Text? || c == Null }

  /** What the listing reads besides, of the row and of the projects whose id it names. */
  predicate WellJoined(row: Row, projects: set<Row>) {
    && TextOrNull(CellOf(row, TitleColumn)) && TextOrNull(CellOf(row, ProjectColumn))
    && forall p :: p in projects && CellOf(p, IdColumn).Text? && CellOf(p, IdColumn) == CellOf(row, ProjectColumn) ==>
         TextOrNull(CellOf(p, NameColumn)) && TextOrNull(CellOf(p, WorktreeColumn))
  }

  lemma ListingDecodesWellJoined(row: Row, projects: set<Row>)
    ensures ListingDecodes(row, projects) <==> WellTyped(row) && WellJoined(row, projects)
  {
  }

  /** The listing fails exactly when no object has the columns, some tombstone is not a text with a
      number, there is no `project`, or some row that is read has a cell of another type. */
  lemma ListingFailsExactly(h: History, r: Result<seq<Listed>, Reason>)
    requires ListingResult(h, r)
    ensures r.Err? <==>
            || (forall o :: o in {h.v2, h.v1} ==> o.None? || !(COLUMNS <= o.value.plain))
            || (exists c :: c in h.tombstones && !(c.Text? && h.tombstones[c].Number?))
            || h.projects.None?
            || (exists row :: (row in ListedFrom(h.v2) || row in ListedFrom(h.v1))
                              && !(WellTyped(row) && WellJoined(row, h.projects.value)))
  {
    if h.projects.Some? {
      forall row
        ensures ListingDecodes(row, h.projects.value) <==> WellTyped(row) && WellJoined(row, h.projects.value)
      {
        ListingDecodesWellJoined(row, h.projects.value);
      }
    }
    ListingRefusal(h, r);
    assert COLUMNS == REQUIRED_COLUMNS;
    assert h.v2 in {h.v2, h.v1} && h.v1 in {h.v2, h.v1};
    hide ListingDecodes, WellTyped, WellJoined;
  }

  /** Otherwise the rows listed for an id are exactly its latest row, if that has neither a parent
      nor an archive time. */
  lemma ListsExactly(h: History, r: Result<seq<Listed>, Reason>, id: Id, row: Row)
    requires WellKeyed(h) && ListingResult(h, r) && r.Ok?
    ensures (exists l :: l in r.value && l.id == id && l.row.body == row) <==>
            && (exists t :: Latest(ListedFrom(h.v2), ListedFrom(h.v1), h.tombstones, id, t, row))
            && CellOf(row, ParentColumn) == Null && CellOf(row, ArchivedColumn) == Null
    ensures forall l :: l in r.value ==> TypedAs(l.row.body, l.row)
  {
    var rows2, rows1 := ListedFrom(h.v2), ListedFrom(h.v1);
    ListingRefusal(h, r);
    ListedSound(h);
    hide DecodedRows, BrokenAt, Keyed, Latest, Chosen, ListedFrom, ListingRows;
    forall id, s {
      LatestIsChosen(rows2, rows1, h.tombstones, id, s);
    }
    hide HiddenCreation;
    if t :| Latest(rows2, rows1, h.tombstones, id, t, row) {
      var typed := TypedLatest(rows2, rows1, h.tombstones, id, t, row);
      assert Resumable(typed) ==> Belongs(DecodedRows(rows2), DecodedRows(rows1), h.tombstones, Listed(id, typed));
    }
  }

  /** Rows that the listing reads without failing decode, whatever their id. */
  lemma ListedSound(h: History)
    requires WellKeyed(h) && !ListingRefused(h)
    ensures ListingRows(h.v2) == DecodedRows(ListedFrom(h.v2)) && ListingRows(h.v1) == DecodedRows(ListedFrom(h.v1))
    ensures Keyed(ListedFrom(h.v2)) && Keyed(ListedFrom(h.v1))
    ensures forall id :: !BrokenAt(ListedFrom(h.v2), id) && !BrokenAt(ListedFrom(h.v1), id)
    ensures forall id :: !Undecodable(h.tombstones, id)
  {
    assert COLUMNS == REQUIRED_COLUMNS;
    hide DecodedRows, Decoded;
    forall id ensures !Undecodable(h.tombstones, id) {
      assert Text(id) in h.tombstones ==> !SomeUndecodable(h.tombstones);
    }
  }

  /** The listing is by time of update, newest first, and rows of the same time by descending id. */
  lemma NewestFirst(h: History, r: Result<seq<Listed>, Reason>, i: nat, j: nat)
    requires WellKeyed(h) && ListingResult(h, r) && r.Ok? && i < j < |r.value|
    ensures r.value[i].row.updated >= r.value[j].row.updated
    ensures r.value[i].row.updated == r.value[j].row.updated ==> StringLess(r.value[j].id, r.value[i].id)
  {
    StringOrder();
    var a, b := r.value[i], r.value[j];
    assert a in r.value && b in r.value;
    assert !ListedBefore(b, a);
    if a.id == b.id { BelongsOnce(ListingRows(h.v2), ListingRows(h.v1), h.tombstones, a, b); }
  }

  // ----- Archived and child sessions -----

  /** When the id's latest row is archived or a child, no earlier row stands in for it. */
  lemma ArchivedOrChildIsPassedOver(h: History, listed: Result<seq<Listed>, Reason>,
                                    resumed: Result<Option<Selection>, ()>, id: Id, t: Generation, row: Row)
    requires WellKeyed(h) && ListingResult(h, listed) && ResumeResult(h, id, resumed)
    requires CellOf(row, ParentColumn).Text? || CellOf(row, ArchivedColumn).Number?
    ensures resumed.Ok? && Latest(TableRows(h.v2), TableRows(h.v1), h.tombstones, id, t, row) ==> resumed == Ok(None)
    ensures listed.Ok? && Latest(ListedFrom(h.v2), ListedFrom(h.v1), h.tombstones, id, t, row) ==>
              forall l :: l in listed.value ==> l.id != id
  {
    RowsKeyed(h);
    hide Latest, ListingResult, ResumeResult, TableRows, ListedFrom, WellKeyed, Keyed;
    if resumed.Ok? && resumed.value.Some? && Latest(TableRows(h.v2), TableRows(h.v1), h.tombstones, id, t, row) {
      var other := resumed.value.value;
      ResumesExactly(h, id, resumed, other.table, other.row.body);
      OneLatest(h.tombstones, TableRows(h.v2), TableRows(h.v1), id, t, row, other.table, other.row.body);
    }
    if listed.Ok? && Latest(ListedFrom(h.v2), ListedFrom(h.v1), h.tombstones, id, t, row) {
      forall l | l in listed.value ensures l.id != id {
        if l.id == id {
          ListsExactly(h, listed, id, l.row.body);
          var u :| Latest(ListedFrom(h.v2), ListedFrom(h.v1), h.tombstones, id, u, l.row.body);
          OneLatest(h.tombstones, ListedFrom(h.v2), ListedFrom(h.v1), id, t, row, u, l.row.body);
        }
      }
    }
  }

  lemma OneLatest(tombstones: Tombstones, v2: seq<Row>, v1: seq<Row>, id: Id, t: Generation, row: Row, u: Generation,
                  other: Row)
    requires Keyed(v2) && Keyed(v1)
    requires Latest(v2, v1, tombstones, id, t, row) && Latest(v2, v1, tombstones, id, u, other)
    ensures t == u && row == other
  {
  }

  lemma RowsKeyed(h: History)
    requires WellKeyed(h)
    ensures Keyed(TableRows(h.v2)) && Keyed(TableRows(h.v1)) && Keyed(ListedFrom(h.v2)) && Keyed(ListedFrom(h.v1))
  {
  }

  /** Archived later than the V1 row of the same session was updated. */
  function ArchivedRow(): Row {
    PlainRow("a", Text("/"))[UpdatedColumn := Number(3)][ArchivedColumn := Number(4)]
  }

  function ArchivedHistory(): History {
    History(PlainTable([ArchivedRow()]), PlainTable([PlainRow("a", Text("/"))]), Some({}), map[])
  }

  lemma ArchivedIsLatest()
    ensures var h := ArchivedHistory();
            && TableRows(h.v2) == ListedFrom(h.v2) == [ArchivedRow()]
            && TableRows(h.v1) == ListedFrom(h.v1) == [PlainRow("a", Text("/"))]
    ensures Latest([ArchivedRow()], [PlainRow("a", Text("/"))], map[], "a", V2, ArchivedRow())
    ensures forall id, t, row :: Stands([ArchivedRow()], [PlainRow("a", Text("/"))], map[], id, t, row) ==> id == "a"
  {
  }

  lemma BothReadersSucceed(listed: Result<seq<Listed>, Reason>, resumed: Result<Option<Selection>, ()>)
    requires ListingResult(ArchivedHistory(), listed) && ResumeResult(ArchivedHistory(), "a", resumed)
    ensures listed.Ok? && resumed.Ok?
  {
    var h := ArchivedHistory();
    hide ListingResult, ResumeResult;
    ListingFailsExactly(h, listed);
    ResumeFailsExactly(h, "a", resumed);
    ArchivedIsLatest();
    assert WellTyped(ArchivedRow()) && WellTyped(PlainRow("a", Text("/")));
    assert WellJoined(ArchivedRow(), {}) && WellJoined(PlainRow("a", Text("/")), {});
    assert h.v2 in {h.v2, h.v1};
  }

  /** Neither reader offers the session. */
  method ArchivedInV2() returns (listed: Result<seq<Listed>, Reason>, resumed: Result<Option<Selection>, ()>)
    ensures listed == Ok([]) && resumed == Ok(None)
  {
    var h := ArchivedHistory();
    listed := HistoryRows(h);
    resumed := ResumableSession(h, "a");
    BothReadersSucceed(listed, resumed);
    ArchivedIsLatest();
    hide Latest, ListedFrom, TableRows, ResumeRefused, ResumeOf, ListingOf, QueryRefused;
    ArchivedOrChildIsPassedOver(h, listed, resumed, "a", V2, ArchivedRow());
    if listed.value != [] {
      NothingElse(listed);
    }
  }

  lemma NothingElse(listed: Result<seq<Listed>, Reason>)
    requires ListingResult(ArchivedHistory(), listed) && listed.Ok? && listed.value != []
    ensures exists l :: l in listed.value && l.id == "a"
  {
    hide ListingResult, Stands;
    var h, l := ArchivedHistory(), listed.value[0];
    ArchivedIsLatest();
    ListsExactly(h, listed, l.id, l.row.body);
  }
}
