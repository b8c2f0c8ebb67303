/**
 When the foreign-key walk succeeds, in terms of the schema's graph of tables alone.
 */
module CascadeGraph {
  import opened Prelude
  import opened ForeignKeys
  import opened Sorting
  import opened CascadeWalk

  /** The key cascades and is not a session table's own key from `parent_id` to `id`. */
  predicate Link(key: ForeignKey) {
    && key.onDelete == Cascade
    && !(key.parent == key.child && key.child in {Session, SessionV2} && key.columns == [(ParentColumn, IdColumn)])
  }

  /** The keys at these positions lead from one table to the other, each from where the last one led. */
  predicate Leads(keys: seq<ForeignKey>, t: Table, steps: seq<nat>, u: Table)
    decreases |steps|
  {
    if steps == [] then t == u
    else
      var j := steps[|steps| - 1];
      j < |keys| && Link(keys[j]) && keys[j].child == u && Leads(keys, t, steps[..|steps| - 1], keys[j].parent)
  }

  /** Rows of the table may go along with planned rows. */
  ghost predicate Reached(initial: seq<Selection>, keys: seq<ForeignKey>, t: Table) {
    exists k, steps :: 0 <= k < |initial| && Leads(keys, initial[k].table, steps, t)
  }

  lemma {:induction false} LeadsOn(keys: seq<ForeignKey>, t: Table, a: seq<nat>, u: Table, b: seq<nat>, v: Table)
    requires Leads(keys, t, a, u) && Leads(keys, u, b, v)
    ensures Leads(keys, t, a + b, v)
    decreases |b|
  {
    if b == [] {
      assert a + b == a;
    } else {
      var front := b[..|b| - 1];
      LeadsOn(keys, t, a, u, front, keys[b[|b| - 1]].parent);
      assert (a + b)[..|a + b| - 1] == a + front;
    }
  }

  /** Every path of the walk is a chain of keys, and visits the tables that the chain leads through. */
  lemma {:induction false} PathLeads(initial: seq<Selection>, keys: seq<ForeignKey>, p: KeyPath)
    requires IsPath(initial, keys, p)
    ensures Leads(keys, initial[p.start].table, p.steps, End(initial, keys, p).table)
    decreases |p.steps|
  {
    if p.steps != [] { PathLeads(initial, keys, Shorter(p)); }
  }

  /** A table that a path has been in leads on to its end. */
  lemma {:induction false} VisitedLeads(initial: seq<Selection>, keys: seq<ForeignKey>, p: KeyPath, t: Table)
    returns (steps: seq<nat>)
    requires PlannedRows(initial) && IsPath(initial, keys, p) && t in End(initial, keys, p).path
    ensures Leads(keys, t, steps, End(initial, keys, p).table)
    decreases |p.steps|
  {
    var end := End(initial, keys, p);
    assert initial[p.start] in initial;
    if t == end.table {
      steps := [];
    } else {
      steps := VisitedLeads(initial, keys, Shorter(p), t);
      steps := steps + [p.steps[|p.steps| - 1]];
    }
  }

  /** Every chain of keys is a path, unless some path meets a key that blocks. */
  lemma {:induction false} ChainIsPath(initial: seq<Selection>, keys: seq<ForeignKey>, k: nat, steps: seq<nat>,
                                       t: Table)
    requires Unblocked(initial, keys) && k < |initial| && Leads(keys, initial[k].table, steps, t)
    ensures IsPath(initial, keys, KeyPath(k, steps)) && End(initial, keys, KeyPath(k, steps)).table == t
    decreases |steps|
  {
    if steps != [] {
      var front, j := steps[..|steps| - 1], steps[|steps| - 1];
      ChainIsPath(initial, keys, k, front, keys[j].parent);
      var p := KeyPath(k, front);
      assert Shorter(KeyPath(k, steps)) == p;
      assert !Blocks(End(initial, keys, p), keys[j]);
    }
  }

  /** A path has been in every table that a part of it leads to. */
  lemma {:induction false} PrefixVisited(initial: seq<Selection>, keys: seq<ForeignKey>, p: KeyPath, n: nat)
    requires PlannedRows(initial) && IsPath(initial, keys, p) && n <= |p.steps|
    ensures IsPath(initial, keys, KeyPath(p.start, p.steps[..n]))
    ensures End(initial, keys, KeyPath(p.start, p.steps[..n])).table in End(initial, keys, p).path
    decreases |p.steps|
  {
    if n == |p.steps| {
      assert p.steps[..n] == p.steps;
      if n == 0 { assert initial[p.start] in initial; }
    } else {
      PrefixVisited(initial, keys, Shorter(p), n);
      assert p.steps[..|p.steps| - 1][..n] == p.steps[..n];
    }
  }

  /** No key out of a table that is reached rewrites rows instead of removing them. */
  ghost predicate OnlyRemoves(initial: seq<Selection>, keys: seq<ForeignKey>) {
    forall key :: key in keys && Reached(initial, keys, key.parent) ==>
      key.onDelete == NoAction || key.onDelete == Restrict || key.onDelete == Cascade
  }

  /** No key that is followed leads into a session table. */
  ghost predicate LeavesSessions(initial: seq<Selection>, keys: seq<ForeignKey>) {
    forall key :: key in keys && Reached(initial, keys, key.parent) && Link(key) ==>
      key.child != Session && key.child != SessionV2
  }

  /** No table that is reached reaches itself. */
  ghost predicate NoCycle(initial: seq<Selection>, keys: seq<ForeignKey>) {
    forall t, steps :: Reached(initial, keys, t) && Leads(keys, t, steps, t) ==> steps == []
  }

  /** There are at most n chains of keys from the planned selections, the empty ones included. */
  ghost predicate ChainsWithin(initial: seq<Selection>, keys: seq<ForeignKey>, n: nat) {
    exists all: seq<(nat, seq<nat>)> :: |all| <= n
      && forall k, steps, t :: 0 <= k < |initial| && Leads(keys, initial[k].table, steps, t) ==> (k, steps) in all
  }

  lemma BlockedExactly(initial: seq<Selection>, keys: seq<ForeignKey>)
    requires PlannedRows(initial)
    ensures Unblocked(initial, keys) <==>
            OnlyRemoves(initial, keys) && LeavesSessions(initial, keys) && NoCycle(initial, keys)
  {
    if Unblocked(initial, keys) {
      forall key | key in keys && Reached(initial, keys, key.parent)
        ensures key.onDelete == NoAction || key.onDelete == Restrict || key.onDelete == Cascade
        ensures Link(key) ==> key.child != Session && key.child != SessionV2
      {
        ReachedKey(initial, keys, key);
      }
      forall t, steps | Reached(initial, keys, t) && Leads(keys, t, steps, t) ensures steps == [] {
        if steps != [] { CycleBlocks(initial, keys, t, steps); }
      }
    }
    if OnlyRemoves(initial, keys) && LeavesSessions(initial, keys) && NoCycle(initial, keys) {
      forall p, j | IsPath(initial, keys, p) && 0 <= j < |keys| ensures !Blocks(End(initial, keys, p), keys[j]) {
        NotBlocked(initial, keys, p, j);
      }
    }
  }

  lemma ReachedKey(initial: seq<Selection>, keys: seq<ForeignKey>, key: ForeignKey)
    requires Unblocked(initial, keys) && key in keys && Reached(initial, keys, key.parent)
    ensures key.onDelete == NoAction || key.onDelete == Restrict || key.onDelete == Cascade
    ensures Link(key) ==> key.child != Session && key.child != SessionV2
  {
    var k, steps :| 0 <= k < |initial| && Leads(keys, initial[k].table, steps, key.parent);
    ChainIsPath(initial, keys, k, steps, key.parent);
    var j :| 0 <= j < |keys| && keys[j] == key;
    assert !Blocks(End(initial, keys, KeyPath(k, steps)), keys[j]);
  }

  lemma CycleBlocks(initial: seq<Selection>, keys: seq<ForeignKey>, t: Table, cycle: seq<nat>)
    requires PlannedRows(initial) && Reached(initial, keys, t) && cycle != [] && Leads(keys, t, cycle, t)
    ensures !Unblocked(initial, keys)
  {
    if Unblocked(initial, keys) {
      var k, steps :| 0 <= k < |initial| && Leads(keys, initial[k].table, steps, t);
      LeadsOn(keys, initial[k].table, steps, t, cycle, t);
      ChainIsPath(initial, keys, k, steps, t);
      ChainIsPath(initial, keys, k, steps + cycle, t);
      var p := KeyPath(k, steps + cycle);
      var before := Shorter(p);
      assert before.steps[..|steps|] == steps;
      PrefixVisited(initial, keys, before, |steps|);
    }
  }

  lemma NotBlocked(initial: seq<Selection>, keys: seq<ForeignKey>, p: KeyPath, j: nat)
    requires PlannedRows(initial) && IsPath(initial, keys, p) && j < |keys|
    requires OnlyRemoves(initial, keys) && LeavesSessions(initial, keys) && NoCycle(initial, keys)
    ensures !Blocks(End(initial, keys, p), keys[j])
  {
    var end, key := End(initial, keys, p), keys[j];
    PathLeads(initial, keys, p);
    assert Reached(initial, keys, end.table) && key in keys;
    if key.parent == end.table && Link(key) && key.child in end.path {
      var back := VisitedLeads(initial, keys, p, key.child);
      assert (back + [j])[..|back|] == back;
      assert Leads(keys, key.child, back + [j], key.child);
      VisitedReached(initial, keys, p, key.child);
      assert false;
    }
  }

  lemma {:induction false} VisitedReached(initial: seq<Selection>, keys: seq<ForeignKey>, p: KeyPath, t: Table)
    requires PlannedRows(initial) && IsPath(initial, keys, p) && t in End(initial, keys, p).path
    ensures Reached(initial, keys, t)
    decreases |p.steps|
  {
    assert initial[p.start] in initial;
    if t == End(initial, keys, p).table {
      PathLeads(initial, keys, p);
    } else {
      VisitedReached(initial, keys, Shorter(p), t);
    }
  }

  /** The walk succeeds exactly when, from the planned tables along cascading keys, no key rewrites
      rows, none leads back into a session table but the tree's own, no table reaches itself, and
      there are at most 256 chains of keys. */
  lemma WalkableExactly(initial: seq<Selection>, keys: seq<ForeignKey>)
    requires PlannedRows(initial)
    ensures Walkable(initial, keys) <==>
            && OnlyRemoves(initial, keys) && LeavesSessions(initial, keys) && NoCycle(initial, keys)
            && ChainsWithin(initial, keys, 256)
  {
    BlockedExactly(initial, keys);
    if Unblocked(initial, keys) { CountedExactly(initial, keys, 256); }
    hide Unblocked, OnlyRemoves, LeavesSessions, NoCycle, ChainsWithin, PathsWithin;
  }

  lemma CountedExactly(initial: seq<Selection>, keys: seq<ForeignKey>, n: nat)
    requires Unblocked(initial, keys)
    ensures PathsWithin(initial, keys, n) <==> ChainsWithin(initial, keys, n)
  {
    if PathsWithin(initial, keys, n) {
      var all: seq<KeyPath> :| |all| <= n && forall p :: IsPath(initial, keys, p) ==> p in all;
      ChainsFit(initial, keys, all);
    }
    if ChainsWithin(initial, keys, n) {
      var all: seq<(nat, seq<nat>)> :|
        && |all| <= n
        && forall k, steps, t :: 0 <= k < |initial| && Leads(keys, initial[k].table, steps, t) ==> (k, steps) in all;
      PathsFit(initial, keys, all);
    }
  }

  lemma ChainsFit(initial: seq<Selection>, keys: seq<ForeignKey>, all: seq<KeyPath>)
    requires Unblocked(initial, keys) && forall p :: IsPath(initial, keys, p) ==> p in all
    ensures ChainsWithin(initial, keys, |all|)
  {
    var chains := seq(|all|, i requires 0 <= i < |all| => (all[i].start, all[i].steps));
    forall k, steps, t | 0 <= k < |initial| && Leads(keys, initial[k].table, steps, t) ensures (k, steps) in chains {
      ChainIsPath(initial, keys, k, steps, t);
      hide IsPath, Leads, Unblocked;
      var i :| 0 <= i < |all| && all[i] == KeyPath(k, steps);
      assert chains[i] == (k, steps);
    }
  }

  lemma PathsFit(initial: seq<Selection>, keys: seq<ForeignKey>, all: seq<(nat, seq<nat>)>)
    requires forall k, steps, t :: 0 <= k < |initial| && Leads(keys, initial[k].table, steps, t) ==> (k, steps) in all
    ensures PathsWithin(initial, keys, |all|)
  {
    var paths := seq(|all|, i requires 0 <= i < |all| => KeyPath(all[i].0, all[i].1));
    forall p | IsPath(initial, keys, p) ensures p in paths {
      PathLeads(initial, keys, p);
      var i :| 0 <= i < |all| && all[i] == (p.start, p.steps);
      assert paths[i] == p;
    }
  }
}
