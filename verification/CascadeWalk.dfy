/**
 The foreign-key walk that predicts, before a deletion, which rows of other tables
 ON DELETE CASCADE will remove, as one predicate per key path from the planned rows.
 */
module CascadeWalk {
  import opened Prelude
  import opened ForeignKeys
  import opened Sorting

  /** The SQL predicates the walk builds: `column IN (...)`, or EXISTS over the parent table. */
  datatype Predicate =
    | KeyIn(column: Column, keys: set<string>)
    | ParentIn(key: ForeignKey, parent: Predicate)

  datatype Selection = Selection(table: Table, filter: Predicate, path: seq<Table>)

  predicate IsSessionTable(t: Table) { t == Session || t == SessionV2 }

  predicate IsAuxiliary(t: Table) { t == Event || t == EventSequence || t == LineageShadow }

  /** The five tables whose rows a deletion names itself. */
  predicate IsNamed(t: Table) { IsSessionTable(t) || IsAuxiliary(t) }

  // ----- Meaning of predicates -----

  predicate Satisfies(db: Rows, p: Predicate, row: Row) {
    match p
    case KeyIn(column, keys) => CellOf(row, column).Text? && CellOf(row, column).text in keys
    case ParentIn(key, parent) =>
      exists q :: q in db && q.table == key.parent && Satisfies(db, parent, q.row) && Related(key, q.row, row)
  }

  predicate Selects(db: Rows, s: Selection, e: Entry) {
    e in db && e.table == s.table && Satisfies(db, s.filter, e.row)
  }

  /** The planned rows: what the selections that the walk starts from select. */
  function Named(db: Rows, initial: seq<Selection>): Rows {
    set e | e in db && exists s :: s in initial && Selects(db, s, e)
  }

  // ----- Key paths -----

  predicate SupportedTreeKey(key: ForeignKey) {
    key.child == key.parent && IsSessionTable(key.child) && key.columns == [(ParentColumn, IdColumn)]
  }

  /** A planned selection names its rows by one column of text keys. */
  ghost predicate PlannedRows(initial: seq<Selection>) {
    forall s :: s in initial ==>
      && s.filter.KeyIn? && s.path == [s.table]
      && (if IsSessionTable(s.table) then s.filter.column == IdColumn else IsAuxiliary(s.table))
  }

  /** The key leads on from the selection, to a table that its path has not been in. */
  predicate Continues(s: Selection, key: ForeignKey) {
    && key.parent == s.table && key.onDelete == Cascade && !SupportedTreeKey(key)
    && !IsSessionTable(key.child) && key.child !in s.path
  }

  /** The keys that make the walk give up: rows would be rewritten rather than removed, session
      rows would go through another table, or the path would return to a table it has been in. */
  predicate Blocks(s: Selection, key: ForeignKey) {
    key.parent == s.table && match key.onDelete
      case NoAction => false
      case Restrict => false
      case Cascade => !SupportedTreeKey(key) && (IsSessionTable(key.child) || key.child in s.path)
      case _ => true
  }

  function Along(s: Selection, key: ForeignKey): Selection {
    Selection(key.child, ParentIn(key, s.filter), s.path + [key.child])
  }

  /** A planned selection and the keys followed from it, by their positions. */
  datatype KeyPath = KeyPath(start: nat, steps: seq<nat>)

  predicate InRange(initial: seq<Selection>, keys: seq<ForeignKey>, p: KeyPath) {
    p.start < |initial| && forall i :: 0 <= i < |p.steps| ==> p.steps[i] < |keys|
  }

  /** The selection at the end of a path. */
  function End(initial: seq<Selection>, keys: seq<ForeignKey>, p: KeyPath): Selection
    requires InRange(initial, keys, p)
    decreases |p.steps|
  {
    if p.steps == [] then initial[p.start]
    else Along(End(initial, keys, Shorter(p)), keys[p.steps[|p.steps| - 1]])
  }

  function Shorter(p: KeyPath): KeyPath
    requires p.steps != []
  {
    KeyPath(p.start, p.steps[..|p.steps| - 1])
  }

  function Longer(p: KeyPath, j: nat): KeyPath {
    KeyPath(p.start, p.steps + [j])
  }

  /** Cascading keys, each leading on from the end of those before it. */
  predicate IsPath(initial: seq<Selection>, keys: seq<ForeignKey>, p: KeyPath)
    decreases |p.steps|
  {
    InRange(initial, keys, p) && (p.steps == [] ||
      (IsPath(initial, keys, Shorter(p)) && Continues(End(initial, keys, Shorter(p)), keys[p.steps[|p.steps| - 1]])))
  }

  lemma LongerPath(initial: seq<Selection>, keys: seq<ForeignKey>, p: KeyPath, j: nat)
    requires IsPath(initial, keys, p) && j < |keys| && Continues(End(initial, keys, p), keys[j])
    ensures IsPath(initial, keys, Longer(p, j))
    ensures End(initial, keys, Longer(p, j)) == Along(End(initial, keys, p), keys[j])
  {
    assert Shorter(Longer(p, j)) == p;
  }

  // ----- When the walk succeeds, and what it returns -----

  const MAX_SELECTIONS := 256

  /** The tables lead into no key that blocks, along any path. */
  ghost predicate Unblocked(initial: seq<Selection>, keys: seq<ForeignKey>) {
    forall p, j :: IsPath(initial, keys, p) && 0 <= j < |keys| ==> !Blocks(End(initial, keys, p), keys[j])
  }

  /** There are at most `n` paths. */
  ghost predicate PathsWithin(initial: seq<Selection>, keys: seq<ForeignKey>, n: nat) {
    exists all: seq<KeyPath> :: |all| <= n && forall p :: IsPath(initial, keys, p) ==> p in all
  }

  ghost predicate Walkable(initial: seq<Selection>, keys: seq<ForeignKey>) {
    Unblocked(initial, keys) && PathsWithin(initial, keys, MAX_SELECTIONS)
  }

  type Paths = map<Table, seq<Predicate>>

  predicate InPaths(paths: Paths, t: Table, p: Predicate) {
    t in paths && p in paths[t]
  }

  ghost predicate EndsAt(initial: seq<Selection>, keys: seq<ForeignKey>, p: KeyPath, t: Table, filter: Predicate) {
    IsPath(initial, keys, p) && p.steps != [] && End(initial, keys, p).table == t
      && End(initial, keys, p).filter == filter
  }

  /** Each table's predicates are those of the paths that end in it. */
  ghost predicate PathsOf(initial: seq<Selection>, keys: seq<ForeignKey>, paths: Paths) {
    forall t, filter :: InPaths(paths, t, filter) <==> exists p :: EndsAt(initial, keys, p, t, filter)
  }

  // ----- The walk -----

  function Extended(paths: Paths, t: Table, p: Predicate): (r: Paths)
    ensures forall u, q :: InPaths(r, u, q) <==> InPaths(paths, u, q) || (u == t && q == p)
  {
    paths[t := (if t in paths then paths[t] else []) + [p]]
  }

  /** The queue holds the ends of the given paths, which differ, and `paths` their predicates. */
  ghost predicate Queued(queue: seq<Selection>, at: seq<KeyPath>, initial: seq<Selection>, keys: seq<ForeignKey>,
                         paths: Paths) {
    && |at| == |queue| >= |initial| && Distinct(at)
    && (forall k :: 0 <= k < |at| ==> IsPath(initial, keys, at[k]) && queue[k] == End(initial, keys, at[k]))
    && (forall k :: 0 <= k < |initial| ==> at[k] == KeyPath(k, []))
    && (forall k :: |initial| <= k < |at| ==> at[k].steps != [])
    && (forall t, filter :: InPaths(paths, t, filter) <==>
          exists k :: |initial| <= k < |queue| && queue[k].table == t && queue[k].filter == filter)
  }

  /** Queued paths beyond the initial ones extend one that the cursor has passed. */
  ghost predicate FromPassed(at: seq<KeyPath>, planned: nat, cursor: nat, j: nat)
    requires cursor < |at|
  {
    forall m :: planned <= m < |at| && at[m].steps != [] ==>
      || Shorter(at[m]) in at[..cursor]
      || (Shorter(at[m]) == at[cursor] && at[m].steps[|at[m].steps| - 1] < j)
  }

  /** The first j keys from the selection at position k have been dealt with. */
  ghost predicate DealtWith(queue: seq<Selection>, at: seq<KeyPath>, keys: seq<ForeignKey>, k: nat, j: nat)
    requires k < |queue| == |at| && j <= |keys|
  {
    forall i :: 0 <= i < j ==>
      !Blocks(queue[k], keys[i]) && (Continues(queue[k], keys[i]) ==> Longer(at[k], i) in at)
  }

  lemma PushedPaths(queue: seq<Selection>, planned: nat, paths: Paths, next: Selection)
    requires planned <= |queue|
    requires forall t, filter :: InPaths(paths, t, filter) <==>
               exists k :: planned <= k < |queue| && queue[k].table == t && queue[k].filter == filter
    ensures forall t, filter :: InPaths(Extended(paths, next.table, next.filter), t, filter) <==>
              exists k :: planned <= k < |queue + [next]| && (queue + [next])[k].table == t
                && (queue + [next])[k].filter == filter
  {
    var longer, more := queue + [next], Extended(paths, next.table, next.filter);
    forall t, filter ensures InPaths(more, t, filter) <==>
      exists k :: planned <= k < |longer| && longer[k].table == t && longer[k].filter == filter
    {
      if k :| planned <= k < |queue| && queue[k].table == t && queue[k].filter == filter {
        assert longer[k] == queue[k];
      }
      if t == next.table && filter == next.filter { assert longer[|queue|] == next; }
    }
  }

  lemma PushedFrom(at: seq<KeyPath>, planned: nat, cursor: nat, j: nat)
    requires cursor < |at| && FromPassed(at, planned, cursor, j)
    ensures FromPassed(at + [Longer(at[cursor], j)], planned, cursor, j + 1)
  {
    assert Shorter(Longer(at[cursor], j)) == at[cursor];
    assert (at + [Longer(at[cursor], j)])[..cursor] == at[..cursor];
  }

  lemma PushedQueue(queue: seq<Selection>, at: seq<KeyPath>, initial: seq<Selection>, keys: seq<ForeignKey>,
                    paths: Paths,
                    cursor: nat, j: nat)
    requires Queued(queue, at, initial, keys, paths) && cursor < |queue| && j < |keys|
    requires FromPassed(at, |initial|, cursor, j) && Continues(queue[cursor], keys[j])
    ensures var next := Along(queue[cursor], keys[j]);
            Queued(queue + [next], at + [Longer(at[cursor], j)], initial, keys,
                   Extended(paths, next.table, next.filter))
  {
    hide Extended, Along, FromPassed;
    var next := Along(queue[cursor], keys[j]);
    LongerPath(initial, keys, at[cursor], j);
    NewPath(at, |initial|, cursor, j);
    PushedPaths(queue, |initial|, paths, next);
  }

  lemma NewPath(at: seq<KeyPath>, planned: nat, cursor: nat, j: nat)
    requires Distinct(at) && planned <= |at| && cursor < |at| && FromPassed(at, planned, cursor, j)
    requires forall k :: 0 <= k < planned ==> at[k].steps == []
    ensures Longer(at[cursor], j) !in at
  {
    var p := Longer(at[cursor], j);
    assert Shorter(p) == at[cursor];
    assert at[cursor] !in at[..cursor];
    forall m | 0 <= m < |at| ensures at[m] != p {
    }
  }

  /** A key that is neither followed nor blocks. */
  lemma PassedKey(queue: seq<Selection>, at: seq<KeyPath>, keys: seq<ForeignKey>, planned: nat, cursor: nat, j: nat)
    requires cursor < |queue| == |at| && j < |keys|
    requires !Blocks(queue[cursor], keys[j]) && !Continues(queue[cursor], keys[j])
    requires DealtWith(queue, at, keys, cursor, j) && FromPassed(at, planned, cursor, j)
    ensures DealtWith(queue, at, keys, cursor, j + 1) && FromPassed(at, planned, cursor, j + 1)
  {
    hide Blocks, Continues;
  }

  /** A key that is followed. */
  lemma FollowedKey(queue: seq<Selection>, at: seq<KeyPath>, initial: seq<Selection>, keys: seq<ForeignKey>,
                    paths: Paths,
                    cursor: nat, j: nat)
    requires Queued(queue, at, initial, keys, paths) && cursor < |queue| && j < |keys|
    requires !Blocks(queue[cursor], keys[j]) && Continues(queue[cursor], keys[j])
    requires DealtWith(queue, at, keys, cursor, j) && FromPassed(at, |initial|, cursor, j)
    ensures var next, p := Along(queue[cursor], keys[j]), Longer(at[cursor], j);
            && Queued(queue + [next], at + [p], initial, keys, Extended(paths, next.table, next.filter))
            && DealtWith(queue + [next], at + [p], keys, cursor, j + 1)
            && FromPassed(at + [p], |initial|, cursor, j + 1)
  {
    hide Blocks, Continues, Extended, Along;
    PushedQueue(queue, at, initial, keys, paths, cursor, j);
    PushedFrom(at, |initial|, cursor, j);
    PushedDealtWith(queue, at, keys, cursor, j, Along(queue[cursor], keys[j]));
  }

  lemma PushedDealtWith(queue: seq<Selection>, at: seq<KeyPath>, keys: seq<ForeignKey>, k: nat, j: nat, next: Selection)
    requires k < |queue| == |at| && j < |keys| && !Blocks(queue[k], keys[j]) && DealtWith(queue, at, keys, k, j)
    ensures DealtWith(queue + [next], at + [Longer(at[k], j)], keys, k, j + 1)
  {
    hide Blocks, Continues;
    var longer := at + [Longer(at[k], j)];
    assert longer[|at|] == Longer(at[k], j);
  }

  /** Follows every key of the selection at the cursor. */
  method Follow(queue0: seq<Selection>, cursor: nat, keys: seq<ForeignKey>, paths0: Paths,
                ghost initial: seq<Selection>, ghost at0: seq<KeyPath>)
    returns (ok: bool, queue: seq<Selection>, paths: Paths, ghost at: seq<KeyPath>)
    requires cursor < |queue0| && Queued(queue0, at0, initial, keys, paths0) && FromPassed(at0, |initial|, cursor, 0)
    ensures Queued(queue, at, initial, keys, paths) && queue0 <= queue && at0 <= at && |queue| <= |queue0| + |keys|
    ensures ok <==> forall j :: 0 <= j < |keys| ==> !Blocks(queue0[cursor], keys[j])
    ensures ok ==> DealtWith(queue, at, keys, cursor, |keys|) && FromPassed(at, |initial|, cursor, |keys|)
  {
    assert |queue0| == |at0| && DealtWith(queue0, at0, keys, cursor, 0);
    hide Queued, FromPassed, DealtWith, Extended;
    ok, queue, paths, at := true, queue0, paths0, at0;
    var parent := queue[cursor];
    for j := 0 to |keys|
      invariant Queued(queue, at, initial, keys, paths) && queue0 <= queue && at0 <= at
      invariant |queue| == |at| && |queue| <= |queue0| + j && forall i :: 0 <= i < j ==> !Blocks(parent, keys[i])
      invariant DealtWith(queue, at, keys, cursor, j) && FromPassed(at, |initial|, cursor, j)
    {
      var key := keys[j];
      if !Blocks(parent, key) && !Continues(parent, key) { PassedKey(queue, at, keys, |initial|, cursor, j); }
      if key.parent != parent.table { continue; }
      match key.onDelete
      case NoAction => continue;
      case Restrict => continue;
      case SetNull => return false, queue, paths, at;
      case SetDefault => return false, queue, paths, at;
      case Unknown => return false, queue, paths, at;
      case Cascade =>
        if SupportedTreeKey(key) { continue; }
        if IsSessionTable(key.child) || key.child in parent.path { return false, queue, paths, at; }
        FollowedKey(queue, at, initial, keys, paths, cursor, j);
        var next := Along(parent, key);
        at := at + [Longer(at[cursor], j)];
        queue, paths := queue + [next], Extended(paths, next.table, next.filter);
    }
  }

  lemma {:induction false} DistinctFits<T>(a: seq<T>, b: seq<T>)
    requires Distinct(a) && forall x :: x in a ==> x in b
    ensures |a| <= |b|
    decreases |a|
  {
    if a != [] {
      var x := a[|a| - 1];
      assert x in a && x in b;
      var i :| 0 <= i < |b| && b[i] == x;
      var rest := b[..i] + b[i + 1..];
      forall y | y in a[..|a| - 1] ensures y in rest {
        var k :| 0 <= k < |a| - 1 && a[k] == y;
        assert y != x && y in b;
        var m :| 0 <= m < |b| && b[m] == y;
        assert rest[if m < i then m else m - 1] == y;
      }
      DistinctFits(a[..|a| - 1], rest);
    }
  }

  /** When the cursor has passed the whole queue, the queue holds every path. */
  lemma {:induction false} AllQueued(queue: seq<Selection>, at: seq<KeyPath>, initial: seq<Selection>,
                                     keys: seq<ForeignKey>,
                                     paths: Paths, p: KeyPath)
    requires Queued(queue, at, initial, keys, paths) && forall k :: 0 <= k < |queue| ==>
             DealtWith(queue, at, keys, k, |keys|)
    requires IsPath(initial, keys, p)
    ensures p in at
    decreases |p.steps|
  {
    if p.steps == [] {
      assert at[p.start] == p;
    } else {
      AllQueued(queue, at, initial, keys, paths, Shorter(p));
      var k :| 0 <= k < |at| && at[k] == Shorter(p);
      var j := p.steps[|p.steps| - 1];
      assert p.steps == p.steps[..|p.steps| - 1] + [j];
      assert DealtWith(queue, at, keys, k, |keys|) && Continues(queue[k], keys[j]);
    }
  }

  lemma FinishedWalk(queue: seq<Selection>, at: seq<KeyPath>, initial: seq<Selection>, keys: seq<ForeignKey>,
                     paths: Paths)
    requires Queued(queue, at, initial, keys, paths) && forall k :: 0 <= k < |queue| ==>
             DealtWith(queue, at, keys, k, |keys|)
    requires |queue| <= MAX_SELECTIONS
    ensures Walkable(initial, keys) && PathsOf(initial, keys, paths)
  {
    forall p | IsPath(initial, keys, p) ensures p in at { AllQueued(queue, at, initial, keys, paths, p); }
    forall p, j | IsPath(initial, keys, p) && 0 <= j < |keys| ensures !Blocks(End(initial, keys, p), keys[j]) {
      var k :| 0 <= k < |at| && at[k] == p;
      assert DealtWith(queue, at, keys, k, |keys|);
    }
    forall t, filter ensures InPaths(paths, t, filter) <==> exists p :: EndsAt(initial, keys, p, t, filter) {
      if k :| |initial| <= k < |queue| && queue[k].table == t && queue[k].filter == filter {
        assert EndsAt(initial, keys, at[k], t, filter);
      }
      if p :| EndsAt(initial, keys, p, t, filter) {
        var k :| 0 <= k < |at| && at[k] == p;
        assert queue[k].table == t && queue[k].filter == filter;
      }
    }
  }

  lemma TooManyPaths(queue: seq<Selection>, at: seq<KeyPath>, initial: seq<Selection>, keys: seq<ForeignKey>,
                     paths: Paths)
    requires Queued(queue, at, initial, keys, paths) && |queue| > MAX_SELECTIONS
    ensures !Walkable(initial, keys)
  {
    if all: seq<KeyPath> :| |all| <= MAX_SELECTIONS && forall p :: IsPath(initial, keys, p) ==> p in all {
      DistinctFits(at, all);
    }
  }

  /** The queue is read by a cursor while it grows. The walk succeeds exactly when no path meets a
      blocking key and there are at most 256 paths, and then returns every path's predicate. */
  method Walk(initial: seq<Selection>, keys: seq<ForeignKey>) returns (r: Result<Paths, ()>)
    requires |initial| <= 5 && PlannedRows(initial)
    ensures r.Ok? <==> Walkable(initial, keys)
    ensures r.Ok? ==> PathsOf(initial, keys, r.value)
  {
    var queue, paths: Paths := initial, map[];
    var cursor := 0;
    ghost var at := Starts(|initial|);
    StartsQueued(initial, keys);
    hide Queued, FromPassed, DealtWith, Walkable, PathsOf, Blocks, Continues, PlannedRows, Starts;
    while cursor < |queue|
      invariant cursor <= |queue| == |at| <= MAX_SELECTIONS + |keys| + 5
      invariant cursor == |queue| > 0 ==> |queue| <= MAX_SELECTIONS
      invariant Queued(queue, at, initial, keys, paths)
      invariant cursor < |queue| ==> FromPassed(at, |initial|, cursor, 0)
      invariant forall k :: 0 <= k < cursor ==> DealtWith(queue, at, keys, k, |keys|)
      decreases MAX_SELECTIONS + |keys| + 5 - cursor
    {
      if |queue| > MAX_SELECTIONS {
        TooManyPaths(queue, at, initial, keys, paths);
        return Err(());
      }
      var ok, longer, more, reached := Follow(queue, cursor, keys, paths, initial, at);
      if !ok {
        BlockedPath(queue, at, initial, keys, paths, cursor);
        return Err(());
      }
      QueuedLength(longer, reached, initial, keys, more);
      AllGrownDealtWith(queue, at, longer, reached, keys, cursor);
      NextPassed(reached, |initial|, cursor, |keys|);
      queue, paths, at, cursor := longer, more, reached, cursor + 1;
    }
    FinishedWalk(queue, at, initial, keys, paths);
    return Ok(paths);
  }

  /** The planned selections are the ends of the empty paths. */
  function Starts(n: nat): (at: seq<KeyPath>)
    ensures |at| == n
  {
    seq(n, (k: nat) => KeyPath(k, []))
  }

  lemma StartsQueued(initial: seq<Selection>, keys: seq<ForeignKey>)
    ensures var at := Starts(|initial|);
            Queued(initial, at, initial, keys, map[]) && (initial != [] ==> FromPassed(at, |initial|, 0, 0))
  {
  }

  lemma QueuedLength(queue: seq<Selection>, at: seq<KeyPath>, initial: seq<Selection>, keys: seq<ForeignKey>,
                     paths: Paths)
    requires Queued(queue, at, initial, keys, paths)
    ensures |queue| == |at|
  {
  }

  lemma BlockedPath(queue: seq<Selection>, at: seq<KeyPath>, initial: seq<Selection>, keys: seq<ForeignKey>,
                    paths: Paths, cursor: nat)
    requires Queued(queue, at, initial, keys, paths) && cursor < |queue|
    requires exists j :: 0 <= j < |keys| && Blocks(queue[cursor], keys[j])
    ensures !Walkable(initial, keys)
  {
    hide Blocks;
    assert IsPath(initial, keys, at[cursor]);
  }

  lemma GrownDealtWith(queue: seq<Selection>, at: seq<KeyPath>, longer: seq<Selection>, more: seq<KeyPath>,
                       keys: seq<ForeignKey>, k: nat)
    requires k < |queue| == |at| && |longer| == |more| && queue <= longer && at <= more
    requires DealtWith(queue, at, keys, k, |keys|)
    ensures DealtWith(longer, more, keys, k, |keys|)
  {
  }

  lemma AllGrownDealtWith(queue: seq<Selection>, at: seq<KeyPath>, longer: seq<Selection>, more: seq<KeyPath>,
                          keys: seq<ForeignKey>, cursor: nat)
    requires cursor < |queue| == |at| && |longer| == |more| && queue <= longer && at <= more
    requires forall k :: 0 <= k < cursor ==> DealtWith(queue, at, keys, k, |keys|)
    requires DealtWith(longer, more, keys, cursor, |keys|)
    ensures forall k :: 0 <= k < cursor + 1 ==> DealtWith(longer, more, keys, k, |keys|)
  {
    hide DealtWith;
    forall k | 0 <= k < cursor + 1 ensures DealtWith(longer, more, keys, k, |keys|) {
      if k < cursor { GrownDealtWith(queue, at, longer, more, keys, k); }
    }
  }

  lemma NextPassed(at: seq<KeyPath>, planned: nat, cursor: nat, j: nat)
    requires cursor < |at| && FromPassed(at, planned, cursor, j)
    ensures cursor + 1 < |at| ==> FromPassed(at, planned, cursor + 1, 0)
  {
    if cursor + 1 < |at| { assert at[..cursor + 1] == at[..cursor] + [at[cursor]]; }
  }

  // ----- Exactness -----

  /** A planned session row's children in its own table are planned too. */
  ghost predicate TreeClosed(db: Rows, initial: seq<Selection>) {
    forall s, e :: s in initial && IsSessionTable(s.table) && e in db && e.table == s.table ==>
      ChildPlanned(db, s, e.row)
  }

  ghost predicate ChildPlanned(db: Rows, s: Selection, child: Row) {
    var parent := CellOf(child, ParentColumn);
    s.filter.KeyIn? && parent.Text? && parent.text in s.filter.keys ==> Satisfies(db, s.filter, child)
  }

  lemma {:induction false} SelectedGoes(db: Rows, keys: seq<ForeignKey>, initial: seq<Selection>, p: KeyPath, e: Entry)
    requires IsPath(initial, keys, p) && Selects(db, End(initial, keys, p), e)
    ensures Goes(db, keys, Named(db, initial), e)
    decreases |p.steps|
  {
    if p.steps == [] {
      assert initial[p.start] in initial;
      assert GoesBy(db, keys, Named(db, initial), e, 0);
    } else {
      var before, key := End(initial, keys, Shorter(p)), keys[p.steps[|p.steps| - 1]];
      var q :| q in db && q.table == key.parent && Satisfies(db, before.filter, q.row) && Related(key, q.row, e.row);
      SelectedGoes(db, keys, initial, Shorter(p), q);
      var n: nat :| GoesBy(db, keys, Named(db, initial), q, n);
      assert References(key, q, e) && Follows(keys, q, e);
      assert GoesBy(db, keys, Named(db, initial), e, n + 1);
    }
  }

  lemma {:induction false} GoneIsSelected(db: Rows, keys: seq<ForeignKey>, initial: seq<Selection>, e: Entry, n: nat)
    requires Unblocked(initial, keys) && PlannedRows(initial) && TreeClosed(db, initial)
    requires GoesBy(db, keys, Named(db, initial), e, n)
    ensures exists p :: IsPath(initial, keys, p) && Selects(db, End(initial, keys, p), e)
    decreases n
  {
    if n == 0 {
      var s :| s in initial && Selects(db, s, e);
      var k :| 0 <= k < |initial| && initial[k] == s;
      assert IsPath(initial, keys, KeyPath(k, []));
    } else {
      var q :| GoesBy(db, keys, Named(db, initial), q, n - 1) && Follows(keys, q, e);
      var key :| key in keys && key.onDelete == Cascade && References(key, q, e);
      GoneIsSelected(db, keys, initial, q, n - 1);
      var p :| IsPath(initial, keys, p) && Selects(db, End(initial, keys, p), q);
      ReferencingIsSelected(db, keys, initial, p, key, q, e);
    }
  }

  lemma ReferencingIsSelected(db: Rows, keys: seq<ForeignKey>, initial: seq<Selection>, p: KeyPath, key: ForeignKey,
                              q: Entry, e: Entry)
    requires Unblocked(initial, keys) && PlannedRows(initial) && TreeClosed(db, initial)
    requires IsPath(initial, keys, p) && Selects(db, End(initial, keys, p), q)
    requires key in keys && key.onDelete == Cascade && e in db && References(key, q, e)
    ensures exists r :: IsPath(initial, keys, r) && Selects(db, End(initial, keys, r), e)
  {
    var j :| 0 <= j < |keys| && keys[j] == key;
    var s := End(initial, keys, p);
    assert !Blocks(s, keys[j]);
    if SupportedTreeKey(key) {
      assert p.steps == [] && s in initial;
      assert (ParentColumn, IdColumn) in key.columns;
      assert ChildPlanned(db, s, e.row);
    } else {
      LongerPath(initial, keys, p, j);
      assert Selects(db, End(initial, keys, Longer(p, j)), e);
    }
  }

  /** What the planned rows and the paths say of a row: a session row goes when it is planned, a row
      of another table when one of the table's path predicates selects it. */
  predicate Predicted(db: Rows, initial: seq<Selection>, paths: Paths, e: Entry) {
    if IsSessionTable(e.table) then e in Named(db, initial)
    else e.table in paths && exists filter :: filter in paths[e.table] && Satisfies(db, filter, e.row)
  }

  /** When the walk succeeds, its predicates predict exactly the rows that transitive ON DELETE
      CASCADE removes once the planned rows go, for every table except the three deleted from by
      id; of the session tables only planned rows go. */
  lemma WalkIsExact(db: Rows, keys: seq<ForeignKey>, initial: seq<Selection>, paths: Paths, e: Entry)
    requires Unblocked(initial, keys) && PathsOf(initial, keys, paths)
    requires PlannedRows(initial) && TreeClosed(db, initial)
    requires e in db && !IsAuxiliary(e.table)
    ensures Goes(db, keys, Named(db, initial), e) <==> Predicted(db, initial, paths, e)
  {
    if n: nat :| GoesBy(db, keys, Named(db, initial), e, n) {
      GoneIsSelected(db, keys, initial, e, n);
      var p :| IsPath(initial, keys, p) && Selects(db, End(initial, keys, p), e);
      if p.steps == [] {
        assert End(initial, keys, p) in initial;
      } else {
        assert EndsAt(initial, keys, p, e.table, End(initial, keys, p).filter);
        assert InPaths(paths, e.table, End(initial, keys, p).filter);
      }
    }
    if Predicted(db, initial, paths, e) {
      if IsSessionTable(e.table) {
        assert GoesBy(db, keys, Named(db, initial), e, 0);
      } else {
        var filter :| filter in paths[e.table] && Satisfies(db, filter, e.row);
        assert InPaths(paths, e.table, filter);
        var p :| EndsAt(initial, keys, p, e.table, filter);
        SelectedGoes(db, keys, initial, p, e);
      }
    }
  }

  /** From any row that goes, only the session tree's own key leads into a session table. */
  lemma OnlyTreeKeys(db: Rows, keys: seq<ForeignKey>, initial: seq<Selection>, q: Entry, key: ForeignKey)
    requires Unblocked(initial, keys) && PlannedRows(initial) && TreeClosed(db, initial)
    requires Goes(db, keys, Named(db, initial), q)
    requires key in keys && key.onDelete == Cascade && key.parent == q.table && IsSessionTable(key.child)
    ensures SupportedTreeKey(key)
  {
    var n: nat :| GoesBy(db, keys, Named(db, initial), q, n);
    GoneIsSelected(db, keys, initial, q, n);
    var p :| IsPath(initial, keys, p) && Selects(db, End(initial, keys, p), q);
    var j :| 0 <= j < |keys| && keys[j] == key;
    assert !Blocks(End(initial, keys, p), keys[j]);
  }
}
