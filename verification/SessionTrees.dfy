/**
 Session trees across both tables: the descendants of a root, and the order in which a planned
 deletion takes them.
 */
module SessionTrees {
  import opened Prelude
  import opened Lineage

  // ----- Descendants -----

  predicate ChildOf(db: Tables, child: Id, parent: Id) {
    || (child in db.v1 && db.v1[child].parent == Some(parent))
    || (child in db.v2 && db.v2[child].parent == Some(parent))
  }

  /** `id` is `generations` child steps below the root, each step taken in either table. */
  ghost predicate DescendsBy(db: Tables, root: Id, id: Id, generations: nat)
    decreases generations
  {
    if generations == 0 then id == root
    else exists parent :: ChildOf(db, id, parent) && DescendsBy(db, root, parent, generations - 1)
  }

  ghost predicate Descends(db: Tables, root: Id, id: Id) {
    exists n: nat :: DescendsBy(db, root, id, n)
  }

  function Known(db: Tables, root: Id): set<Id> {
    {root} + db.v1.Keys + db.v2.Keys
  }

  ghost function Family(db: Tables, root: Id): set<Id> {
    set id | id in Known(db, root) && Descends(db, root, id)
  }

  lemma FamilyClosed(db: Tables, root: Id, child: Id, parent: Id)
    requires parent in Family(db, root) && ChildOf(db, child, parent)
    ensures child in Family(db, root)
  {
    var n: nat :| DescendsBy(db, root, parent, n);
    assert DescendsBy(db, root, child, n + 1);
  }

  lemma RootInFamily(db: Tables, root: Id)
    ensures root in Family(db, root)
  {
    assert DescendsBy(db, root, root, 0);
  }

  lemma {:induction false} FamilyIsLeast(db: Tables, root: Id, closed: set<Id>, id: Id, n: nat)
    requires root in closed
    requires ChildrenFound(db, root, closed, closed)
    requires DescendsBy(db, root, id, n)
    ensures id in closed
    decreases n
  {
    if n > 0 {
      var p :| ChildOf(db, id, p) && DescendsBy(db, root, p, n - 1);
      FamilyIsLeast(db, root, closed, p, n - 1);
    }
  }

  /** WITH RECURSIVE descendant_ids: takes ids off a queue and adds their children in the union
      of both tables until none is new. */
  method DescendantIds(db: Tables, root: Id) returns (ids: set<Id>)
    ensures ids == Family(db, root)
  {
    ids := {root};
    var queue := {root};
    RootInFamily(db, root);
    while queue != {}
      invariant queue <= ids <= Family(db, root) && root in ids
      invariant ChildrenFound(db, root, ids, ids - queue)
      decreases Known(db, root) - ids, queue
    {
      var parent :| parent in queue;
      var found := set child | child in Known(db, root) && ChildOf(db, child, parent) && child !in ids;
      forall child | child in found ensures child in Family(db, root) { FamilyClosed(db, root, child, parent); }
      assert ids + found - (queue - {parent} + found) == ids - queue + {parent};
      ids, queue := ids + found, queue - {parent} + found;
    }
    ClosedIsFamily(db, root, ids);
  }

  /** Every child of the ids already taken off the queue has been found. */
  ghost predicate ChildrenFound(db: Tables, root: Id, ids: set<Id>, done: set<Id>) {
    forall c, p :: p in done && c in Known(db, root) && ChildOf(db, c, p) ==> c in ids
  }

  lemma ClosedIsFamily(db: Tables, root: Id, ids: set<Id>)
    requires ids <= Family(db, root) && root in ids && ChildrenFound(db, root, ids, ids)
    ensures ids == Family(db, root)
  {
    forall id | id in Family(db, root) ensures id in ids {
      var n: nat :| DescendsBy(db, root, id, n);
      FamilyIsLeast(db, root, ids, id, n);
    }
  }

  // ----- Walking parents up to the root -----

  type Parents = map<Id, Option<Id>>

  ghost predicate WalkReaches(parents: Parents, root: Id, id: Id, steps: nat)
    decreases steps
  {
    if steps == 0 then id == root
    else id != root && id in parents && parents[id].Some? && WalkReaches(parents, root, parents[id].value, steps - 1)
  }

  lemma {:induction false} WalkUnique(parents: Parents, root: Id, id: Id, m: nat, n: nat)
    requires WalkReaches(parents, root, id, m) && WalkReaches(parents, root, id, n)
    ensures m == n
    decreases m
  {
    if m > 0 && n > 0 {
      WalkUnique(parents, root, parents[id].value, m - 1, n - 1);
    }
  }

  /** A walk from id that reaches the root at all passes v after k steps. */
  ghost predicate PassesAt(parents: Parents, root: Id, id: Id, v: Id, k: nat) {
    forall n: nat :: WalkReaches(parents, root, id, n) ==> n >= k && WalkReaches(parents, root, v, n - k)
  }

  lemma PassesOn(parents: Parents, root: Id, id: Id, v: Id, k: nat)
    requires PassesAt(parents, root, id, v, k) && v != root
    ensures v !in parents || parents[v].None? ==> forall n: nat :: !WalkReaches(parents, root, id, n)
    ensures v in parents && parents[v].Some? ==> PassesAt(parents, root, id, parents[v].value, k + 1)
  {
    forall n: nat | WalkReaches(parents, root, id, n)
      ensures v in parents && parents[v].Some? && n >= k + 1
      ensures WalkReaches(parents, root, parents[v].value, n - (k + 1))
    {
      assert WalkReaches(parents, root, v, n - k);
    }
  }

  lemma NoWalkTwice(parents: Parents, root: Id, id: Id, v: Id, k: nat, l: nat)
    requires PassesAt(parents, root, id, v, k) && PassesAt(parents, root, id, v, l) && k != l
    ensures forall n: nat :: !WalkReaches(parents, root, id, n)
  {
    forall n: nat ensures !WalkReaches(parents, root, id, n) {
      if WalkReaches(parents, root, id, n) { WalkUnique(parents, root, v, n - k, n - l); }
    }
  }

  lemma {:induction false} WalkJoins(parents: Parents, root: Id, id: Id, v: Id, k: nat, path: seq<Id>)
    requires |path| == k + 1 && path[0] == id && path[k] == v && v == root
    requires forall i :: 0 <= i < k ==> path[i] != root && path[i] in parents && parents[path[i]] == Some(path[i + 1])
    ensures WalkReaches(parents, root, id, k)
    decreases k
  {
    if k > 0 { WalkJoins(parents, root, path[1], v, k - 1, path[1..]); }
  }

  /** Depth of an id below the root; None on a missing parent or a cycle that avoids the root. */
  method Depth(parents: Parents, root: Id, id: Id) returns (depth: Option<nat>)
    ensures depth.Some? ==> WalkReaches(parents, root, id, depth.value)
    ensures depth.None? ==> forall n: nat :: !WalkReaches(parents, root, id, n)
  {
    var current, steps := id, 0;
    var visited: set<Id> := {};
    ghost var path := [id];
    while current != root
      invariant |path| == steps + 1 && path[0] == id && path[steps] == current
      invariant forall i :: 0 <= i < steps ==>
                path[i] != root && path[i] in parents && parents[path[i]] == Some(path[i + 1])
      invariant forall v :: v in visited ==> v in path[..steps]
      invariant forall i :: 0 <= i <= steps ==> PassesAt(parents, root, id, path[i], i)
      decreases parents.Keys - visited
    {
      if current in visited {
        ghost var i :| 0 <= i < steps && path[i] == current;
        NoWalkTwice(parents, root, id, current, i, steps);
        return None;
      }
      PassesOn(parents, root, id, current, steps);
      if current !in parents || parents[current].None? { return None; }
      visited := visited + {current};
      current, steps := parents[current].value, steps + 1;
      path := path + [current];
    }
    WalkJoins(parents, root, id, current, steps, path);
    return Some(steps);
  }
}
