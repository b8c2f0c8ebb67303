/**
 Rows of any table, foreign keys, and what one DELETE statement removes or refuses.
 */
module ForeignKeys {
  import opened Prelude

  /** The tables that the deletion names, by those names, and any other. */
  datatype Table = Session | SessionV2 | Event | EventSequence | LineageShadow | OtherTable(name: string)

  /** The columns of those tables that the program or its keys name, and any other. */
  datatype Column = IdColumn | ParentColumn | CreatedColumn | UpdatedColumn | ArchivedColumn
                  | DirectoryColumn | TitleColumn | ProjectColumn | NameColumn | WorktreeColumn
                  | AggregateColumn | SessionColumn | OtherColumn(name: string)

  /** `Raw` is a real number, a blob or text that is not UTF-8. */
  datatype Cell = Null | Text(text: string) | Number(n: int) | Raw(bytes: string)

  type Row = map<Column, Cell>

  /** A row of a table; a table holds no two equal rows. */
  datatype Entry = Entry(table: Table, row: Row)

  type Rows = set<Entry>

  datatype Action = NoAction | Restrict | SetNull | SetDefault | Cascade | Unknown

  /** Column pairs are (child column, parent column), implicit parent keys resolved. A deferred key
      is checked by COMMIT. */
  datatype ForeignKey = ForeignKey(child: Table, parent: Table, onDelete: Action,
                                   columns: seq<(Column, Column)>, deferred: bool)

  function CellOf(row: Row, column: Column): Cell {
    if column in row then row[column] else Null
  }

  /** The row of the parent table that the child row references; NULL references nothing. */
  predicate Related(key: ForeignKey, parent: Row, child: Row) {
    forall c :: c in key.columns ==> CellOf(child, c.0) != Null && CellOf(child, c.0) == CellOf(parent, c.1)
  }

  predicate References(key: ForeignKey, parent: Entry, child: Entry) {
    key.parent == parent.table && key.child == child.table && Related(key, parent.row, child.row)
  }

  /** The child goes when the parent goes. */
  predicate Follows(keys: seq<ForeignKey>, parent: Entry, child: Entry) {
    exists key :: key in keys && key.onDelete == Cascade && References(key, parent, child)
  }

  // ----- Transitive ON DELETE CASCADE -----

  /** The row goes within n cascade steps of the rows that a statement names. */
  ghost predicate GoesBy(db: Rows, keys: seq<ForeignKey>, named: Rows, e: Entry, n: nat)
    decreases n
  {
    if n == 0 then e in named
    else e in db && exists p :: GoesBy(db, keys, named, p, n - 1) && Follows(keys, p, e)
  }

  ghost predicate Goes(db: Rows, keys: seq<ForeignKey>, named: Rows, e: Entry) {
    exists n: nat :: GoesBy(db, keys, named, e, n)
  }

  ghost predicate Closed(db: Rows, keys: seq<ForeignKey>, gone: Rows) {
    forall p, c {:trigger Follows(keys, p, c)} :: p in gone && c in db && Follows(keys, p, c) ==> c in gone
  }

  /** Adds the rows that follow, round by round, until none is new. */
  function Cascaded(db: Rows, keys: seq<ForeignKey>, gone: Rows): (r: Rows)
    requires gone <= db
    ensures gone <= r <= db
    decreases db - gone
  {
    var more := set c | c in db && c !in gone && exists p :: p in gone && Follows(keys, p, c);
    if more == {} then gone
    else
      assert more <= db - gone;
      Cascaded(db, keys, gone + more)
  }

  lemma {:induction false} CascadedClosed(db: Rows, keys: seq<ForeignKey>, gone: Rows)
    requires gone <= db
    ensures Closed(db, keys, Cascaded(db, keys, gone))
    decreases db - gone
  {
    var more := set c | c in db && c !in gone && exists p :: p in gone && Follows(keys, p, c);
    if more == {} {
      forall p, c | p in gone && c in db && Follows(keys, p, c) ensures c in gone {
        assert c !in more;
      }
    } else {
      assert more <= db - gone;
      CascadedClosed(db, keys, gone + more);
    }
  }

  lemma {:induction false} CascadedLeast(db: Rows, keys: seq<ForeignKey>, gone: Rows, closed: Rows)
    requires gone <= db && gone <= closed && Closed(db, keys, closed)
    ensures Cascaded(db, keys, gone) <= closed
    decreases db - gone
  {
    var more := set c | c in db && c !in gone && exists p :: p in gone && Follows(keys, p, c);
    if more != {} {
      assert more <= db - gone;
      CascadedLeast(db, keys, gone + more, closed);
    }
  }

  lemma {:induction false} GoneInClosed(db: Rows, keys: seq<ForeignKey>, named: Rows, closed: Rows, e: Entry, n: nat)
    requires named <= closed && Closed(db, keys, closed) && GoesBy(db, keys, named, e, n)
    ensures e in closed
    decreases n
  {
    if n > 0 {
      var p :| GoesBy(db, keys, named, p, n - 1) && Follows(keys, p, e);
      GoneInClosed(db, keys, named, closed, p, n - 1);
    }
  }

  /** The rounds collect exactly the rows that some chain of cascade steps reaches. */
  lemma CascadedExactly(db: Rows, keys: seq<ForeignKey>, named: Rows, e: Entry)
    requires named <= db
    ensures e in Cascaded(db, keys, named) <==> Goes(db, keys, named, e)
  {
    CascadedClosed(db, keys, named);
    if n: nat :| GoesBy(db, keys, named, e, n) {
      GoneInClosed(db, keys, named, Cascaded(db, keys, named), e, n);
    }
    var reached := set x | x in db && Goes(db, keys, named, x);
    forall x | x in named ensures x in reached { assert GoesBy(db, keys, named, x, 0); }
    forall p, c | p in reached && c in db && Follows(keys, p, c) ensures c in reached {
      var n: nat :| GoesBy(db, keys, named, p, n);
      assert GoesBy(db, keys, named, c, n + 1);
    }
    CascadedLeast(db, keys, named, reached);
  }

  lemma CascadedMonotone(db: Rows, keys: seq<ForeignKey>, a: Rows, b: Rows)
    requires a <= b <= db
    ensures Cascaded(db, keys, a) <= Cascaded(db, keys, b)
  {
    CascadedClosed(db, keys, b);
    CascadedLeast(db, keys, a, Cascaded(db, keys, b));
  }

  /** Deleting in two statements removes what naming all the rows at once would. */
  lemma CascadedInSteps(db: Rows, keys: seq<ForeignKey>, a: Rows, b: Rows)
    requires a <= b <= db
    ensures var first := Cascaded(db, keys, a);
            Cascaded(db, keys, b) == first + Cascaded(db - first, keys, b - first)
  {
    var first := Cascaded(db, keys, a);
    var second := Cascaded(db - first, keys, b - first);
    CascadedClosed(db, keys, a);
    CascadedClosed(db, keys, b);
    CascadedClosed(db - first, keys, b - first);
    CascadedLeast(db, keys, b, first + second);
    var all := Cascaded(db, keys, b);
    CascadedMonotone(db, keys, a, b);
    assert Closed(db - first, keys, all);
    CascadedLeast(db - first, keys, b - first, all);
  }

  // ----- Keys that refuse -----

  /** Checked before the statement ends. */
  predicate Immediate(key: ForeignKey) {
    key.onDelete == Restrict || (key.onDelete == NoAction && !key.deferred)
  }

  /** A row that stays refers by a restricting key to a row that goes, so the statement fails. */
  predicate Held(db: Rows, keys: seq<ForeignKey>, gone: Rows) {
    exists key, p, c {:trigger References(key, p, c)} :: key in keys && p in gone && c in db && c !in gone
      && Immediate(key) && References(key, p, c)
  }

  /** Checked by COMMIT. */
  predicate Deferred(key: ForeignKey) {
    key.onDelete == NoAction && key.deferred
  }

  /** A row that stays refers by a deferred key to a row that is gone, so COMMIT fails. */
  predicate Dangling(db: Rows, keys: seq<ForeignKey>, gone: Rows) {
    exists key, p, c {:trigger References(key, p, c)} :: key in keys && p in gone && c in db && c !in gone
      && Deferred(key) && References(key, p, c)
  }

  /** After statements that were not refused, the next one is refused exactly when all of them
      together would be. */
  lemma HeldInSteps(db: Rows, keys: seq<ForeignKey>, a: Rows, b: Rows)
    requires a <= b <= db && !Held(db, keys, Cascaded(db, keys, a))
    ensures var first := Cascaded(db, keys, a);
            Held(db - first, keys, Cascaded(db - first, keys, b - first)) <==> Held(db, keys, Cascaded(db, keys, b))
  {
    CascadedInSteps(db, keys, a, b);
  }

  // ----- Several statements, one after the other -----

  /** The rows that the first k statements name, for each k. */
  ghost predicate Script(db: Rows, script: seq<Rows>) {
    && script != [] && script[0] == {}
    && (forall i :: 0 <= i < |script| ==> script[i] <= db)
    && (forall i, j :: 0 <= i < j < |script| ==> script[i] <= script[j])
  }

  /** A row that stays after the first k statements refers by an immediate key to one that is gone. */
  ghost predicate RefusedAt(db: Rows, keys: seq<ForeignKey>, script: seq<Rows>, k: nat)
    requires Script(db, script) && k < |script|
  {
    Held(db, keys, Cascaded(db, keys, script[k]))
  }

  /** `now` is what the first k statements leave, none of them refused. */
  ghost predicate Reached(db: Rows, keys: seq<ForeignKey>, script: seq<Rows>, k: nat, now: Rows)
    requires Script(db, script) && k < |script|
  {
    now == db - Cascaded(db, keys, script[k]) && forall j :: 0 <= j <= k ==> !RefusedAt(db, keys, script, j)
  }

  lemma NothingNamed(db: Rows, keys: seq<ForeignKey>)
    ensures Cascaded(db, keys, {}) == {} && !Held(db, keys, {})
  {
    CascadedLeast(db, keys, {}, {});
  }

  lemma ReachedStart(db: Rows, keys: seq<ForeignKey>, script: seq<Rows>)
    requires Script(db, script)
    ensures Reached(db, keys, script, 0, db)
  {
    NothingNamed(db, keys);
  }

  /** The next statement names what is new of its rows; it is refused exactly at its stage, and
      otherwise leaves what that stage leaves. */
  lemma Advance(db: Rows, keys: seq<ForeignKey>, script: seq<Rows>, k: nat, now: Rows, named: Rows)
    requires Script(db, script) && k + 1 < |script| && Reached(db, keys, script, k, now)
    requires named == script[k + 1] * now
    ensures Held(now, keys, Cascaded(now, keys, named)) <==> RefusedAt(db, keys, script, k + 1)
    ensures !RefusedAt(db, keys, script, k + 1) ==> Reached(db, keys, script, k + 1, now - Cascaded(now, keys, named))
    ensures Cascaded(now, keys, named) <= Cascaded(db, keys, script[k + 1])
  {
    var a, b := script[k], script[k + 1];
    assert !RefusedAt(db, keys, script, k);
    assert named == b - Cascaded(db, keys, a);
    CascadedInSteps(db, keys, a, b);
    HeldInSteps(db, keys, a, b);
  }
}
