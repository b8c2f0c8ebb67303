/**
 Workspaces and their member sessions: two tables kept by create, attach, update, remove,
 delete and the reconciliation with the set of live sessions.
 */
module Workspaces {
  import opened Prelude
  import opened Sorting
  import opened Strings

  datatype Kind = Terminal | Agent

  function KindText(k: Kind): string {
    if k == Terminal then "terminal" else "agent"
  }

  datatype Member = Member(kind: Kind, id: string)

  /** A row of `workspaces`; the CHECK that both active columns are null or neither is built in. */
  datatype Workspace = Workspace(name: Option<string>, active: Option<Member>)

  /** A row of `workspace_sessions`, keyed by the session's kind and id. */
  datatype Seat = Seat(workspace: string, position: int)

  type Seats = map<Member, Seat>

  datatype Db = Db(workspaces: map<string, Workspace>, seats: Seats)

  // ----- The invariant -----

  predicate Sits(seats: Seats, m: Member, w: string) {
    m in seats && seats[m].workspace == w
  }

  predicate ActiveValid(active: Option<Member>, seats: Seats, w: string) {
    active.Some? ==> Sits(seats, active.value, w)
  }

  ghost predicate SeatsValid(db: Db) {
    && (forall m :: m in db.seats ==> db.seats[m].workspace in db.workspaces && db.seats[m].position >= 0 && m.id != "")
    && (forall m, n :: m in db.seats && n in db.seats && m != n && db.seats[m].workspace == db.seats[n].workspace ==>
          db.seats[m].position != db.seats[n].position)
  }

  /** Every member has an id and sits in exactly one existing workspace, at a position of its own,
      and each active session is none or a member of its workspace. */
  ghost predicate Valid(db: Db) {
    SeatsValid(db) && forall w :: w in db.workspaces ==> ActiveValid(db.workspaces[w].active, db.seats, w)
  }

  // ----- Fallback for an active session -----

  /** ORDER BY CASE WHEN position > after THEN 0 ELSE 1 END, position. */
  predicate Before(p: int, q: int, after: int) {
    (p > after && !(q > after)) || ((p > after) == (q > after) && p < q)
  }

  /** The first member of the workspace in that order, if it has members. */
  ghost predicate FirstSeat(seats: Seats, w: string, after: int, first: Option<Member>) {
    match first
    case None => forall m :: m in seats ==> !Sits(seats, m, w)
    case Some(m) => Sits(seats, m, w) && forall n :: Sits(seats, n, w) ==>
      !Before(seats[n].position, seats[m].position, after)
  }

  /** In plain positions: the member with the lowest position above `after`, or with the lowest of
      all when none is above. */
  lemma FirstSeatByPosition(seats: Seats, w: string, after: int, first: Option<Member>)
    requires FirstSeat(seats, w, after, first)
    ensures first == None <==> forall n :: n in seats ==> seats[n].workspace != w
    ensures first.Some? ==> first.value in seats && seats[first.value].workspace == w
    ensures first.Some? && (forall n :: n in seats && seats[n].workspace == w ==> seats[n].position <= after) ==>
              forall n :: n in seats && seats[n].workspace == w ==> seats[first.value].position <= seats[n].position
    ensures (exists n :: n in seats && seats[n].workspace == w && seats[n].position > after) ==>
              first.Some? && seats[first.value].position > after
              && forall n :: n in seats && seats[n].workspace == w && seats[n].position > after ==>
                   seats[first.value].position <= seats[n].position
  {
    forall n | n in seats && seats[n].workspace == w ensures Sits(seats, n, w) {}
  }

  lemma FirstSeatUnique(db: Db, w: string, after: int, a: Option<Member>, b: Option<Member>)
    requires SeatsValid(db) && FirstSeat(db.seats, w, after, a) && FirstSeat(db.seats, w, after, b)
    ensures a == b
  {
  }

  /** A workspace row after repair_workspace: an invalid active session moves to the member with
      the lowest position, or to none. */
  ghost predicate Repaired(before: Workspace, after: Workspace, seats: Seats, w: string) {
    && after.name == before.name
    && if ActiveValid(before.active, seats, w) then after.active == before.active
       else FirstSeat(seats, w, -1, after.active)
  }

  /** A repair in plain positions: an active session that sits in the workspace stays active; any
      other gives way to the member with the lowest position, or to none when there are none. */
  lemma RepairPicksLowest(before: Workspace, after: Workspace, seats: Seats, w: string)
    requires Repaired(before, after, seats, w) && forall n :: n in seats ==> seats[n].position >= 0
    ensures after.name == before.name
    ensures before.active.None? || (before.active.value in seats && seats[before.active.value].workspace == w) ==>
              after.active == before.active
    ensures before.active.Some? && !(before.active.value in seats && seats[before.active.value].workspace == w) ==>
              match after.active
              case None => forall n :: n in seats ==> seats[n].workspace != w
              case Some(m) =>
                && m in seats && seats[m].workspace == w
                && forall n :: n in seats && seats[n].workspace == w ==> seats[m].position <= seats[n].position
  {
    if !ActiveValid(before.active, seats, w) { FirstSeatByPosition(seats, w, -1, after.active); }
    forall n | n in seats && seats[n].workspace == w ensures Sits(seats, n, w) {}
  }

  // ----- Reconciliation with the eligible sessions -----

  predicate MemberBefore(a: Member, b: Member) {
    StringLess(KindText(a.kind), KindText(b.kind)) || (a.kind == b.kind && StringLess(a.id, b.id))
  }

  lemma MemberOrder()
    ensures StrictTotalOrder(MemberBefore)
  {
    StringOrder();
    assert StringLess("agent", "terminal") by { assert 'a' < 't'; }
    assert !StringLess("terminal", "agent");
  }

  /** The eligible sessions without a seat, in the order in which they get workspaces. */
  ghost predicate Unowned(order: seq<Member>, seats: Seats, eligible: set<Member>, exclude: Option<Member>) {
    && Sorted(MemberBefore, order) && Distinct(order)
    && forall m :: m in order <==> m in eligible && m !in seats && exclude != Some(m)
  }

  /** Only the session that is left out may lack an id. */
  predicate Nameable(eligible: set<Member>, exclude: Option<Member>) {
    forall m :: m in eligible && m.id == "" ==> exclude == Some(m)
  }

  function Kept(seats: Seats, eligible: set<Member>): Seats {
    map m | m in seats && m in eligible :: seats[m]
  }

  /** The i-th singleton workspace gets the i-th fresh id. */
  function SinglesOf(order: seq<Member>, uuid: nat -> string): map<string, Workspace> {
    if order == [] then map[]
    else SinglesOf(order[..|order| - 1], uuid)[uuid(|order| - 1) := Workspace(None, Some(order[|order| - 1]))]
  }

  function SingleSeats(order: seq<Member>, uuid: nat -> string): Seats {
    if order == [] then map[]
    else SingleSeats(order[..|order| - 1], uuid)[order[|order| - 1] := Seat(uuid(|order| - 1), 0)]
  }

  ghost predicate FreshIds(workspaces: map<string, Workspace>, uuid: nat -> string) {
    (forall i: nat :: uuid(i) !in workspaces) && forall i: nat, j: nat :: uuid(i) == uuid(j) ==> i == j
  }

  /** The first n ids drawn are new and differ from each other. */
  ghost predicate UsableIds(workspaces: map<string, Workspace>, uuid: nat -> string, n: nat) {
    && (forall i :: 0 <= i < n ==> uuid(i) !in workspaces)
    && forall i, j :: 0 <= i < j < n ==> uuid(i) != uuid(j)
  }

  /** The reconciled tables, given the order in which unowned sessions get workspaces. */
  ghost predicate ReconciledBy(before: Db, after: Db, eligible: set<Member>, exclude: Option<Member>,
                               uuid: nat -> string, order: seq<Member>) {
    && Unowned(order, before.seats, eligible, exclude)
    && UsableIds(before.workspaces, uuid, |order|)
    && after.seats == Kept(before.seats, eligible) + SingleSeats(order, uuid)
    && after.workspaces.Keys == before.workspaces.Keys + SinglesOf(order, uuid).Keys
    && (forall w :: w in before.workspaces ==>
        Repaired(before.workspaces[w], after.workspaces[w], Kept(before.seats, eligible), w))
    && (forall w :: w in SinglesOf(order, uuid) ==> after.workspaces[w] == SinglesOf(order, uuid)[w])
  }

  /** What one reconciliation makes of the tables. */
  ghost predicate Reconciled(before: Db, after: Db, eligible: set<Member>, exclude: Option<Member>,
                             uuid: nat -> string) {
    exists order :: ReconciledBy(before, after, eligible, exclude, uuid, order)
  }

  class Store {
    var workspaces: map<string, Workspace>
    var seats: Seats

    function State(): Db
      reads this
    {
      Db(workspaces, seats)
    }

    constructor ()
      ensures State() == Db(map[], map[]) && Valid(State())
    {
      workspaces, seats := map[], map[];
    }

    method Rollback(db: Db)
      modifies this
      ensures State() == db
    {
      workspaces, seats := db.workspaces, db.seats;
    }

    /** INSERT INTO workspaces; false on a primary-key conflict or an active session without an id. */
    method InsertWorkspace(id: string, row: Workspace) returns (ok: bool)
      modifies this`workspaces
      ensures ok <==> id !in old(workspaces) && (row.active.Some? ==> row.active.value.id != "")
      ensures workspaces == if ok then old(workspaces)[id := row] else old(workspaces)
    {
      ok := id !in workspaces && (row.active.None? || row.active.value.id != "");
      if ok { workspaces := workspaces[id := row]; }
    }

    /** INSERT INTO workspace_sessions; false when a key, foreign-key or CHECK constraint refuses. */
    method InsertMember(w: string, m: Member, position: int) returns (ok: bool)
      modifies this`seats
      ensures ok <==> m !in old(seats) && w in workspaces && position >= 0 && m.id != ""
                      && forall n :: Sits(old(seats), n, w) ==> old(seats)[n].position != position
      ensures seats == if ok then old(seats)[m := Seat(w, position)] else old(seats)
    {
      ok := m !in seats && w in workspaces && position >= 0 && m.id != ""
            && forall n :: n in seats && seats[n].workspace == w ==> seats[n].position != position;
      if ok { seats := seats[m := Seat(w, position)]; }
    }

    /** SELECT ... WHERE workspace_id = ? ORDER BY ... LIMIT 1. */
    method SelectFirst(w: string, after: int) returns (first: Option<Member>)
      ensures FirstSeat(seats, w, after, first)
    {
      first := None;
      var rest := set m | m in seats && seats[m].workspace == w;
      ghost var all := rest;
      while rest != {}
        invariant rest <= all && forall m :: m in all <==> Sits(seats, m, w)
        invariant first.None? ==> rest == all
        invariant first.Some? ==> Sits(seats, first.value, w)
        invariant first.Some? ==> forall n :: n in all - rest ==>
                                  !Before(seats[n].position, seats[first.value].position, after)
        decreases rest
      {
        var m :| m in rest;
        rest := rest - {m};
        if first.None? || Before(seats[m].position, seats[first.value].position, after) { first := Some(m); }
      }
    }

    /** repair_workspace. */
    method Repair(w: string)
      modifies this`workspaces
      ensures w !in old(workspaces) ==> workspaces == old(workspaces)
      ensures workspaces.Keys == old(workspaces).Keys
      ensures forall v :: v in workspaces && v != w ==> workspaces[v] == old(workspaces)[v]
      ensures w in workspaces ==> Repaired(old(workspaces)[w], workspaces[w], seats, w)
    {
      if w !in workspaces { return; }
      var row := workspaces[w];
      var activeValid := match row.active case Some(m) => m in seats && seats[m].workspace == w case None => true;
      if !activeValid {
        var fallback := SelectFirst(w, -1);
        workspaces := workspaces[w := row.(active := fallback)];
      }
    }

    /** repair_workspace for each affected workspace, in whatever order the set yields them. */
    method RepairAll(affected: set<string>)
      modifies this`workspaces
      ensures workspaces.Keys == old(workspaces).Keys
      ensures forall w :: w in workspaces && w in affected ==> Repaired(old(workspaces)[w], workspaces[w], seats, w)
      ensures forall w :: w in workspaces && w !in affected ==> workspaces[w] == old(workspaces)[w]
    {
      var rest := affected;
      while rest != {}
        invariant rest <= affected && workspaces.Keys == old(workspaces).Keys
        invariant forall w :: w in workspaces && w in affected - rest ==>
                  Repaired(old(workspaces)[w], workspaces[w], seats, w)
        invariant forall w :: w in workspaces && w !in affected - rest ==> workspaces[w] == old(workspaces)[w]
        decreases rest
      {
        var w :| w in rest;
        rest := rest - {w};
        Repair(w);
      }
    }

    /** insert_singleton. */
    method InsertSingleton(m: Member, id: string) returns (ok: bool)
      requires forall n :: n in seats ==> seats[n].workspace in workspaces
      modifies this
      ensures ok <==> id !in old(workspaces) && m !in old(seats) && m.id != ""
      ensures ok ==> State() == Db(old(workspaces)[id := Workspace(None, Some(m))], old(seats)[m := Seat(id, 0)])
    {
      ok := InsertWorkspace(id, Workspace(None, Some(m)));
      if !ok { return; }
      ok := InsertMember(id, m, 0);
    }

    /** Deletes every row whose session is not eligible, in whatever order the query returns rows. */
    method DropIneligible(eligible: set<Member>) returns (owned: set<Member>, affected: set<string>)
      modifies this`seats
      ensures seats == Kept(old(seats), eligible) && owned == seats.Keys
      ensures affected == set m | m in old(seats) && m !in eligible :: old(seats)[m].workspace
    {
      owned, affected := {}, {};
      var rows := seats;
      var rest := rows.Keys;
      while rest != {}
        invariant rest <= rows.Keys
        invariant owned == set m | m in rows.Keys - rest && m in eligible
        invariant affected == set m | m in rows.Keys - rest && m !in eligible :: rows[m].workspace
        invariant seats == map m | m in rows && (m in rest || m in eligible) :: rows[m]
        decreases rest
      {
        var m :| m in rest;
        rest := rest - {m};
        if m in eligible {
          owned := owned + {m};
        } else {
          seats := seats - {m};
          affected := affected + {rows[m].workspace};
        }
      }
    }

    /** The unowned sessions in any order, then sorted. */
    method SortUnowned(eligible: set<Member>, owned: set<Member>, exclude: Option<Member>) returns (order: seq<Member>)
      ensures Sorted(MemberBefore, order) && Distinct(order)
      ensures forall m :: m in order <==> m in eligible && m !in owned && exclude != Some(m)
    {
      var listed: seq<Member> := [];
      var rest := eligible;
      while rest != {}
        invariant rest <= eligible && Distinct(listed)
        invariant forall m :: m in listed <==> m in eligible && m !in rest && m !in owned && exclude != Some(m)
        decreases rest
      {
        var m :| m in rest;
        rest := rest - {m};
        if m !in owned && exclude != Some(m) { listed := listed + [m]; }
      }
      MemberOrder();
      SortSorted(MemberBefore, listed);
      SortKeepsElements(MemberBefore, listed);
      order := Sort(MemberBefore, listed);
    }

    method InsertSingletons(order: seq<Member>, uuid: nat -> string) returns (ok: bool)
      requires forall n :: n in seats ==> seats[n].workspace in workspaces
      requires Distinct(order) && forall m :: m in order ==> m !in seats
      modifies this
      ensures ok <==> UsableIds(old(workspaces), uuid, |order|) && forall m :: m in order ==> m.id != ""
      ensures ok ==> seats == old(seats) + SingleSeats(order, uuid)
                     && workspaces == old(workspaces) + SinglesOf(order, uuid)
    {
      for i := 0 to |order|
        invariant seats == old(seats) + SingleSeats(order[..i], uuid)
        invariant workspaces == old(workspaces) + SinglesOf(order[..i], uuid)
        invariant UsableIds(old(workspaces), uuid, i) && forall j :: 0 <= j < i ==> order[j].id != ""
        invariant forall n :: n in seats ==> seats[n].workspace in workspaces
      {
        SinglesGrow(old(State()), order, i, uuid);
        ok := InsertSingleton(order[i], uuid(i));
        if !ok { return; }
      }
      assert order[..|order|] == order;
      ok := true;
    }

    /** reconcile_transaction. It fails when a fresh id collides or a session without an id would
        get a seat, and the transaction is then rolled back. */
    method ReconcileTransaction(eligible: set<Member>, exclude: Option<Member>, uuid: nat -> string) returns (ok: bool)
      requires Valid(State())
      modifies this
      ensures FreshIds(old(workspaces), uuid) ==> (ok <==> Nameable(eligible, exclude))
      ensures ok ==> Nameable(eligible, exclude)
      ensures ok ==> Reconciled(old(State()), State(), eligible, exclude, uuid) && Valid(State())
    {
      ghost var start := State();
      var owned, affected := DropIneligible(eligible);
      RepairAll(affected);
      ghost var kept := State();
      RepairedEverywhere(start, kept, affected);
      var order := SortUnowned(eligible, owned, exclude);
      UnownedOrder(start, order, eligible, exclude, owned);
      ok := InsertSingletons(order, uuid);
      if ok { ReconciledValid(start, kept, State(), eligible, exclude, order, uuid); }
    }
  }

  lemma {:induction false} SinglesKeys(order: seq<Member>, uuid: nat -> string)
    ensures SingleSeats(order, uuid).Keys == set m | m in order
    ensures forall w :: w in SinglesOf(order, uuid) <==> exists i :: 0 <= i < |order| && uuid(i) == w
    decreases |order|
  {
    if order != [] {
      var front, last := order[..|order| - 1], order[|order| - 1];
      SinglesKeys(front, uuid);
      assert order == front + [last];
    }
  }

  /** The next singleton is new exactly when its id is. */
  lemma SinglesGrow(start: Db, order: seq<Member>, i: nat, uuid: nat -> string)
    requires i < |order| && Distinct(order) && order[i] !in start.seats && UsableIds(start.workspaces, uuid, i)
    ensures var seats := start.seats + SingleSeats(order[..i], uuid);
            var workspaces := start.workspaces + SinglesOf(order[..i], uuid);
            && order[i] !in seats
            && seats[order[i] := Seat(uuid(i), 0)] == start.seats + SingleSeats(order[..i + 1], uuid)
            && workspaces[uuid(i) := Workspace(None, Some(order[i]))] ==
              start.workspaces + SinglesOf(order[..i + 1], uuid)
            && (uuid(i) !in workspaces <==> UsableIds(start.workspaces, uuid, i + 1))
  {
    assert order[..i + 1][..i] == order[..i];
    SinglesKeys(order[..i], uuid);
    PutThenMerge(start.seats, SingleSeats(order[..i], uuid), order[i], Seat(uuid(i), 0));
    PutThenMerge(start.workspaces, SinglesOf(order[..i], uuid), uuid(i), Workspace(None, Some(order[i])));
    assert order[i] !in order[..i];
  }

  lemma PutThenMerge<K, V>(a: map<K, V>, b: map<K, V>, k: K, v: V)
    ensures (a + b)[k := v] == a + b[k := v]
  {
  }

  /** After the stale rows are gone every workspace is repaired, affected or not. */
  ghost predicate RepairedAll(before: Db, after: Db, eligible: set<Member>) {
    && after.seats == Kept(before.seats, eligible)
    && after.workspaces.Keys == before.workspaces.Keys
    && forall w :: w in before.workspaces ==> Repaired(before.workspaces[w], after.workspaces[w], after.seats, w)
  }

  /** Some seats were taken away, all of them in affected workspaces. */
  ghost predicate Shrunk(before: Seats, after: Seats, affected: set<string>) {
    && (forall m :: m in after ==> m in before && after[m] == before[m])
    && (forall m :: m in before && m !in after ==> before[m].workspace in affected)
  }

  /** Repairing the affected workspaces leaves every workspace repaired. */
  lemma RepairedEverywhere(before: Db, after: Db, affected: set<string>)
    requires Valid(before) && Shrunk(before.seats, after.seats, affected)
    requires after.workspaces.Keys == before.workspaces.Keys
    requires forall w :: w in after.workspaces && w in affected ==>
             Repaired(before.workspaces[w], after.workspaces[w], after.seats, w)
    requires forall w :: w in after.workspaces && w !in affected ==> after.workspaces[w] == before.workspaces[w]
    ensures Valid(after)
    ensures forall w :: w in before.workspaces ==> Repaired(before.workspaces[w], after.workspaces[w], after.seats, w)
  {
    forall w | w in before.workspaces
      ensures Repaired(before.workspaces[w], after.workspaces[w], after.seats, w)
      ensures ActiveValid(after.workspaces[w].active, after.seats, w)
    {
      if w !in affected && before.workspaces[w].active.Some? {
        assert ActiveValid(before.workspaces[w].active, before.seats, w);
        assert Sits(after.seats, before.workspaces[w].active.value, w);
      }
    }
    ShrunkValid(before, after, affected);
  }

  lemma ShrunkValid(before: Db, after: Db, affected: set<string>)
    requires SeatsValid(before) && Shrunk(before.seats, after.seats, affected)
    requires after.workspaces.Keys == before.workspaces.Keys
    ensures SeatsValid(after)
  {
  }

  lemma UnownedOrder(before: Db, order: seq<Member>, eligible: set<Member>, exclude: Option<Member>, owned: set<Member>)
    requires owned == Kept(before.seats, eligible).Keys
    requires Sorted(MemberBefore, order) && Distinct(order)
    requires forall m :: m in order <==> m in eligible && m !in owned && exclude != Some(m)
    ensures Unowned(order, before.seats, eligible, exclude)
    ensures forall m :: m in order ==> m !in Kept(before.seats, eligible)
  {
  }

  lemma {:induction false} SingleAt(order: seq<Member>, uuid: nat -> string, i: nat)
    requires Distinct(order) && i < |order| && forall j, k :: 0 <= j < k < |order| ==> uuid(j) != uuid(k)
    ensures order[i] in SingleSeats(order, uuid) && SingleSeats(order, uuid)[order[i]] == Seat(uuid(i), 0)
    ensures uuid(i) in SinglesOf(order, uuid) && SinglesOf(order, uuid)[uuid(i)] == Workspace(None, Some(order[i]))
    decreases |order|
  {
    if i < |order| - 1 {
      SingleAt(order[..|order| - 1], uuid, i);
      assert order[i] != order[|order| - 1];
    }
  }

  lemma ReconciledValid(before: Db, kept: Db, after: Db, eligible: set<Member>, exclude: Option<Member>,
                        order: seq<Member>, uuid: nat -> string)
    requires RepairedAll(before, kept, eligible) && Valid(kept)
    requires Unowned(order, before.seats, eligible, exclude) && UsableIds(kept.workspaces, uuid, |order|)
    requires forall m :: m in order ==> m.id != ""
    requires after.seats == kept.seats + SingleSeats(order, uuid)
    requires after.workspaces == kept.workspaces + SinglesOf(order, uuid)
    ensures Reconciled(before, after, eligible, exclude, uuid) && Valid(after)
  {
    SinglesKeys(order, uuid);
    SinglesNew(kept, order, uuid);
    SinglesApart(order, uuid);
    AddedValid(kept, SinglesOf(order, uuid), SingleSeats(order, uuid), after);
    assert ReconciledBy(before, after, eligible, exclude, uuid, order);
  }

  lemma SinglesNew(kept: Db, order: seq<Member>, uuid: nat -> string)
    requires UsableIds(kept.workspaces, uuid, |order|) && forall m :: m in order ==> m !in kept.seats
    ensures forall w :: w in SinglesOf(order, uuid) ==> w !in kept.workspaces
    ensures forall m :: m in SingleSeats(order, uuid) ==> m !in kept.seats
  {
    SinglesKeys(order, uuid);
  }

  lemma SinglesApart(order: seq<Member>, uuid: nat -> string)
    requires Distinct(order) && forall j, k :: 0 <= j < k < |order| ==> uuid(j) != uuid(k)
    ensures var singles, seats := SinglesOf(order, uuid), SingleSeats(order, uuid);
            && (forall m :: m in seats ==> seats[m].workspace in singles && seats[m].position == 0)
            && (forall w :: w in singles ==> ActiveValid(singles[w].active, seats, w))
            && (forall m, n :: m in seats && n in seats && m != n ==> seats[m].workspace != seats[n].workspace)
  {
    var singles, seats := SinglesOf(order, uuid), SingleSeats(order, uuid);
    SinglesKeys(order, uuid);
    forall m | m in seats
      ensures exists i :: 0 <= i < |order| && order[i] == m && seats[m] == Seat(uuid(i), 0) && uuid(i) in singles
    {
      var i :| 0 <= i < |order| && order[i] == m;
      SingleAt(order, uuid, i);
    }
    forall w | w in singles ensures ActiveValid(singles[w].active, seats, w) {
      var i :| 0 <= i < |order| && uuid(i) == w;
      SingleAt(order, uuid, i);
    }
    forall m, n | m in seats && n in seats && m != n ensures seats[m].workspace != seats[n].workspace {
      var i :| 0 <= i < |order| && order[i] == m && seats[m] == Seat(uuid(i), 0);
      var j :| 0 <= j < |order| && order[j] == n && seats[n] == Seat(uuid(j), 0);
      assert i < j || j < i;
    }
  }

  /** Adding new workspaces with one member each keeps the invariant. */
  lemma AddedValid(kept: Db, singles: map<string, Workspace>, singleSeats: Seats, after: Db)
    requires Valid(kept)
    requires after.seats == kept.seats + singleSeats && after.workspaces == kept.workspaces + singles
    requires forall w :: w in singles ==> w !in kept.workspaces
    requires forall m :: m in singleSeats ==> m !in kept.seats && m.id != ""
    requires forall m :: m in singleSeats ==> singleSeats[m].workspace in singles && singleSeats[m].position >= 0
    requires forall w :: w in singles ==> ActiveValid(singles[w].active, singleSeats, w)
    requires forall m, n :: m in singleSeats && n in singleSeats && m != n ==>
             singleSeats[m].workspace != singleSeats[n].workspace
    ensures Valid(after)
    ensures forall w :: w in kept.workspaces ==> after.workspaces[w] == kept.workspaces[w]
  {
    forall w | w in after.workspaces ensures ActiveValid(after.workspaces[w].active, after.seats, w) {
      if w in singles {
        assert after.workspaces[w] == singles[w];
      } else if kept.workspaces[w].active.Some? {
        assert Sits(kept.seats, kept.workspaces[w].active.value, w);
      }
    }
  }

  // ----- What reconciliation guarantees -----

  lemma ReconciledSeats(before: Db, after: Db, eligible: set<Member>, exclude: Option<Member>, uuid: nat -> string)
    requires Reconciled(before, after, eligible, exclude, uuid)
    ensures forall m :: m in after.seats <==> m in eligible && (m in before.seats || exclude != Some(m))
    ensures forall m :: m in before.seats && m in eligible ==> after.seats[m] == before.seats[m]
  {
    var order :| ReconciledBy(before, after, eligible, exclude, uuid, order);
    SinglesKeys(order, uuid);
  }

  /** With no exclusion the members become exactly the eligible sessions; every survivor keeps its
      workspace and position; an active session that is gone moves to the survivor with the lowest
      position, or to none. */
  lemma ReconcileMeetsEligible(before: Db, after: Db, eligible: set<Member>, uuid: nat -> string)
    requires Reconciled(before, after, eligible, None, uuid)
    ensures after.seats.Keys == eligible
    ensures forall m :: m in before.seats && m in eligible ==> after.seats[m] == before.seats[m]
    ensures before.workspaces.Keys <= after.workspaces.Keys
    ensures forall w :: w in before.workspaces ==>
            Repaired(before.workspaces[w], after.workspaces[w], Kept(before.seats, eligible), w)
  {
    ReconciledSeats(before, after, eligible, None, uuid);
    var order :| ReconciledBy(before, after, eligible, None, uuid, order);
  }

  /** What becomes of a workspace, in the tables themselves: it keeps its name, and its active
      session unless that is gone; then the survivor with the lowest position is active, or none
      when nobody survives. */
  lemma ReconcileFallsBack(before: Db, after: Db, eligible: set<Member>, uuid: nat -> string, w: string)
    requires Valid(before) && Reconciled(before, after, eligible, None, uuid) && w in before.workspaces
    ensures w in after.workspaces && after.workspaces[w].name == before.workspaces[w].name
    ensures before.workspaces[w].active.None? || before.workspaces[w].active.value in eligible ==>
              after.workspaces[w].active == before.workspaces[w].active
    ensures before.workspaces[w].active.Some? && before.workspaces[w].active.value !in eligible ==>
              match after.workspaces[w].active
              case None => forall n :: n in before.seats && n in eligible ==> before.seats[n].workspace != w
              case Some(m) =>
                && m in eligible && m in before.seats && before.seats[m].workspace == w
                && forall n :: n in before.seats && n in eligible && before.seats[n].workspace == w ==>
                     before.seats[m].position <= before.seats[n].position
  {
    hide Repaired, Reconciled;
    ReconcileMeetsEligible(before, after, eligible, uuid);
    assert ActiveValid(before.workspaces[w].active, before.seats, w);
    var kept := Kept(before.seats, eligible);
    RepairPicksLowest(before.workspaces[w], after.workspaces[w], kept, w);
    forall n | n in before.seats && n in eligible ensures n in kept && kept[n] == before.seats[n] {}
  }

  lemma UnownedUnique(p: seq<Member>, q: seq<Member>, seats: Seats, eligible: set<Member>, exclude: Option<Member>)
    requires Unowned(p, seats, eligible, exclude) && Unowned(q, seats, eligible, exclude)
    ensures p == q
  {
    MemberOrder();
    DistinctMultiset(p, q);
    SortedIsUnique(MemberBefore, p, q);
  }

  lemma RepairedUnique(before: Db, w: string, a: Workspace, b: Workspace, kept: Seats)
    requires SeatsValid(before) && kept.Keys <= before.seats.Keys
    requires forall m :: m in kept ==> kept[m] == before.seats[m]
    requires w in before.workspaces && Repaired(before.workspaces[w], a, kept, w)
    requires Repaired(before.workspaces[w], b, kept, w)
    ensures a == b
  {
    if !ActiveValid(before.workspaces[w].active, kept, w) {
      FirstSeatUnique(before.(seats := kept), w, -1, a.active, b.active);
    }
  }

  /** The result does not depend on the order in which rows, affected workspaces or eligible
      sessions are visited: only on the tables, the eligible set and the ids drawn. */
  lemma ReconcileDeterministic(before: Db, a: Db, b: Db, eligible: set<Member>, exclude: Option<Member>,
                               uuid: nat -> string)
    requires Valid(before)
    requires Reconciled(before, a, eligible, exclude, uuid) && Reconciled(before, b, eligible, exclude, uuid)
    ensures a == b
  {
    var p :| ReconciledBy(before, a, eligible, exclude, uuid, p);
    var q :| ReconciledBy(before, b, eligible, exclude, uuid, q);
    UnownedUnique(p, q, before.seats, eligible, exclude);
    forall w | w in a.workspaces ensures w in b.workspaces && a.workspaces[w] == b.workspaces[w] {
      if w in before.workspaces {
        RepairedUnique(before, w, a.workspaces[w], b.workspaces[w], Kept(before.seats, eligible));
      }
    }
    SameMap(a.workspaces, b.workspaces);
  }

  lemma SameMap<K, V>(a: map<K, V>, b: map<K, V>)
    requires a.Keys == b.Keys && forall k :: k in a ==> k in b && a[k] == b[k]
    ensures a == b
  {
  }

  lemma HasFirst<T>(s: seq<T>)
    ensures s == [] || exists x :: x in s
  {
    if s != [] { assert s[0] in s; }
  }

  /** Reconciling tables whose members are already the eligible sessions changes nothing, whatever
      ids could be drawn. */
  lemma ReconcileAgain(db: Db, after: Db, eligible: set<Member>, uuid: nat -> string)
    requires Valid(db) && db.seats.Keys == eligible && Reconciled(db, after, eligible, None, uuid)
    ensures after == db
  {
    var order :| ReconciledBy(db, after, eligible, None, uuid, order);
    HasFirst(order);
    assert Kept(db.seats, eligible) == db.seats;
    forall w | w in db.workspaces ensures after.workspaces[w] == db.workspaces[w] {
      assert ActiveValid(db.workspaces[w].active, db.seats, w);
    }
    SameMap(after.workspaces, db.workspaces);
  }

  // ----- Requests -----

  datatype Outcome = Done | EmptyUpdate | InvalidName | InvalidMembers | NotEligible | NotFound | NotMember | Rejected

  datatype Request =
    | List(eligible: set<Member>, uuid: nat -> string)
    | Create(title: Option<string>, members: seq<Member>, eligible: set<Member>, id: string)
    | Attach(eligible: set<Member>, workspace: Option<string>, member: Member, uuid: nat -> string, id: string)
    | RemoveMember(member: Member)
    | Update(id: string, name: Option<Option<string>>, active: Option<Option<Member>>, eligible: set<Member>)
    | Delete(id: string)

  const NAME_LIMIT := 120

  /** validate_name; a name is kept without the white space around it. */
  function ValidateName(name: Option<string>): Result<Option<string>, ()> {
    if name.None? then Ok(None)
    else if Trim(name.value) == [] || Utf16Size(Trim(name.value)) > NAME_LIMIT then Err(())
    else Ok(Some(Trim(name.value)))
  }

  /** A name is refused exactly when it is all white space, or too long without the white space
      around it; otherwise what is kept of it begins and ends with a visible character. */
  lemma NameRefusedExactly(name: string)
    ensures ValidateName(Some(name)).Err? <==> Blank(name) || Utf16Size(Trim(name)) > 120
    ensures ValidateName(Some(name)).Ok? ==>
              var kept := ValidateName(Some(name)).value;
              kept.Some? && kept.value != [] && Tight(kept.value)
              && exists a, b :: Blank(a) && Blank(b) && name == a + kept.value + b
  {
    TrimExactly(name);
    var a, b :| Blank(a) && Blank(b) && name == a + Trim(name) + b;
    if Trim(name) != [] {
      assert Trim(name)[0] in name;
    }
  }

  class Service {
    const store: Store

    constructor ()
      ensures fresh(store) && store.State() == Db(map[], map[])
    {
      store := new Store();
    }

    /** Lists workspaces, reconciling first. */
    method ListWorkspaces(eligible: set<Member>, uuid: nat -> string) returns (o: Outcome)
      requires Valid(store.State())
      modifies store
      ensures Valid(store.State())
      ensures o == Done ==> Reconciled(old(store.State()), store.State(), eligible, None, uuid)
      ensures o != Done ==> o == Rejected && store.State() == old(store.State())
      ensures FreshIds(old(store.workspaces), uuid) ==> (o == Done <==> Nameable(eligible, None))
    {
      var start := store.State();
      var ok := store.ReconcileTransaction(eligible, None, uuid);
      if !ok { store.Rollback(start); return Rejected; }
      return Done;
    }

    /** create_workspace: takes the members from wherever they sit, repairs the workspaces they
        leave, and seats them in request order with the first one active. */
    method CreateWorkspace(name: Option<string>, members: seq<Member>, eligible: set<Member>,
                           id: string) returns (o: Outcome)
      requires Valid(store.State())
      modifies store
      ensures Valid(store.State())
      ensures o == InvalidName <==> ValidateName(name).Err?
      ensures o == InvalidMembers <==>
              o != InvalidName && !(Distinct(members) && forall m :: m in members ==> m.id != "")
      ensures o == NotEligible <==>
              o != InvalidName && o != InvalidMembers && exists m :: m in members && m !in eligible
      ensures o == Rejected <==>
              o != InvalidName && o != InvalidMembers && o != NotEligible && id in old(store.workspaces)
      ensures o != Done ==> o in {InvalidName, InvalidMembers, NotEligible, Rejected}
                            && store.State() == old(store.State())
      ensures o == Done ==> Created(old(store.State()), store.State(), ValidateName(name).value, members, id)
    {
      var valid := ValidateName(name);
      if valid.Err? { return InvalidName; }
      if !(forall i, j :: 0 <= i < j < |members| ==> members[i] != members[j]) { return InvalidMembers; }
      if exists m :: m in members && m.id == "" { return InvalidMembers; }
      if exists m :: m in members && m !in eligible { return NotEligible; }
      var start := store.State();
      var affected := TakeMembers(members);
      store.RepairAll(affected);
      ghost var repaired := store.State();
      RepairedEverywhere(start, repaired, affected);
      var first := if members == [] then None else Some(members[0]);
      var ok := store.InsertWorkspace(id, Workspace(valid.value, first));
      if ok {
        NobodyYet(repaired, id);
        ok := SeatMembers(id, members);
      }
      if !ok { store.Rollback(start); return Rejected; }
      CreatedValid(start, repaired, store.State(), valid.value, members, id);
      return Done;
    }

    /** The insert loop at the end of create_workspace; no constraint refuses it. */
    method SeatMembers(id: string, members: seq<Member>) returns (ok: bool)
      requires Distinct(members) && (forall m :: m in members ==> m !in store.seats && m.id != "")
      requires id in store.workspaces && forall m :: m in store.seats ==> store.seats[m].workspace != id
      modifies store`seats
      ensures ok && store.seats == old(store.seats) + SeatsIn(members, id)
    {
      for i := 0 to |members|
        invariant store.seats == old(store.seats) + SeatsIn(members[..i], id)
      {
        assert members[..i + 1][..i] == members[..i];
        SeatsInAt(members[..i], id);
        assert members[i] in members && members[i] !in members[..i];
        ok := store.InsertMember(id, members[i], i);
        if !ok { return; }
        PutAfterMerge(old(store.seats), SeatsIn(members[..i], id), members[i], Seat(id, i));
      }
      assert members[..|members|] == members;
      ok := true;
    }

    /** attach_session: reconciles without giving the new session a workspace, then seats it last in
        the named workspace as its active session, or in a workspace of its own. */
    method AttachSession(eligible: set<Member>, workspace: Option<string>, member: Member, uuid: nat -> string,
                         id: string)
      returns (o: Outcome)
      requires Valid(store.State())
      modifies store
      ensures Valid(store.State())
      ensures o == Done || o == NotEligible ==> store.seats.Keys == eligible
      ensures o == NotEligible ==> Reconciled(old(store.State()), store.State(), eligible, Some(member), uuid)
      ensures o == Done ==> Attached(old(store.State()), store.State(), eligible, workspace, member, uuid, id)
      ensures o != Done && o != NotEligible ==> o in {NotFound, Rejected} && store.State() == old(store.State())
      ensures NoIdClash(old(store.workspaces), workspace, uuid, id) ==>
                o == AttachOutcome(old(store.State()), eligible, workspace, member)
    {
      hide Reconciled, AttachedTo, IsNextPosition;
      var start := store.State();
      var ok := store.ReconcileTransaction(eligible, Some(member), uuid);
      if !ok { store.Rollback(start); return Rejected; }
      ghost var mid := store.State();
      ReconciledSeats(start, mid, eligible, Some(member), uuid);
      ReconciledKeys(start, mid, eligible, Some(member), uuid);
      if member !in eligible { return NotEligible; }
      o := SeatNew(workspace, member, id);
      if o != Done { store.Rollback(start); }
    }

    /** The end of attach_session: the new session's seat. */
    method SeatNew(workspace: Option<string>, member: Member, id: string) returns (o: Outcome)
      requires Valid(store.State())
      modifies store
      ensures o == if workspace.Some? && workspace.value !in old(store.workspaces) then NotFound
                   else if member in old(store.seats) || member.id == ""
                           || (workspace.None? && id in old(store.workspaces))
                   then Rejected
                   else Done
      ensures o == Done ==> AttachedTo(old(store.State()), store.State(), workspace, member, id) && Valid(store.State())
    {
      ghost var mid := store.State();
      var ok;
      match workspace {
        case Some(w) =>
          if w !in store.workspaces { return NotFound; }
          var position := NextPosition(w);
          ok := store.InsertMember(w, member, position);
          if ok { store.workspaces := store.workspaces[w := store.workspaces[w].(active := Some(member))]; }
        case None =>
          ok := store.InsertSingleton(member, id);
      }
      if !ok { return Rejected; }
      AttachedValid(mid, store.State(), workspace, member, id);
      return Done;
    }

    /** SELECT COALESCE(MAX(position), -1) + 1. */
    method NextPosition(w: string) returns (position: int)
      requires SeatsValid(store.State())
      ensures IsNextPosition(store.seats, w, position)
    {
      var last := -1;
      var rest := set m | m in store.seats && store.seats[m].workspace == w;
      ghost var all := rest;
      while rest != {}
        invariant rest <= all && last >= -1 && forall m :: m in all <==> Sits(store.seats, m, w)
        invariant forall m :: m in all - rest ==> store.seats[m].position <= last
        invariant last >= 0 ==> exists m :: Sits(store.seats, m, w) && store.seats[m].position == last
        decreases rest
      {
        var m :| m in rest;
        rest := rest - {m};
        if store.seats[m].position > last { last := store.seats[m].position; }
      }
      position := last + 1;
    }

    /** remove_member: an active session that leaves is followed by the next member, or, when it was
        the last, by the first. */
    method DropMember(member: Member) returns (o: Outcome)
      requires Valid(store.State())
      modifies store
      ensures Valid(store.State())
      ensures o == if member in old(store.seats) then Done else NotFound
      ensures o == NotFound ==> store.State() == old(store.State())
      ensures o == Done ==> store.seats == old(store.seats) - {member}
                            && Left(old(store.State()), store.State(), member)
    {
      if member !in store.seats { return NotFound; }
      var w, position := store.seats[member].workspace, store.seats[member].position;
      var active := store.workspaces[w].active;
      store.seats := store.seats - {member};
      if active == Some(member) {
        var fallback := store.SelectFirst(w, position);
        store.workspaces := store.workspaces[w := store.workspaces[w].(active := fallback)];
      }
      return Done;
    }

    /** The update handler with its membership check, then update_workspace. */
    method UpdateWorkspace(id: string, name: Option<Option<string>>, active: Option<Option<Member>>,
                           eligible: set<Member>) returns (o: Outcome)
      requires Valid(store.State())
      modifies store
      ensures Valid(store.State()) && store.seats == old(store.seats)
      ensures o == EmptyUpdate <==> name.None? && active.None?
      ensures o == InvalidName <==> name.Some? && ValidateName(name.value).Err?
      ensures o == NotFound <==> o != EmptyUpdate && o != InvalidName && id !in old(store.workspaces)
      ensures o == NotEligible <==> o != EmptyUpdate && o != InvalidName && o != NotFound
                                    && active.Some? && active.value.Some? && active.value.value !in eligible
      ensures o == NotMember <==> o != EmptyUpdate && o != InvalidName && o != NotFound && o != NotEligible
                                  && active.Some? && active.value.Some?
                                  && !Sits(old(store.seats), active.value.value, id)
      ensures o != Done ==> o in {EmptyUpdate, InvalidName, NotFound, NotEligible, NotMember}
                            && store.State() == old(store.State())
      ensures o == Done ==> store.workspaces == old(store.workspaces)[id :=
                Workspace(if name.Some? then ValidateName(name.value).value else old(store.workspaces)[id].name,
                          if active.Some? then active.value else old(store.workspaces)[id].active)]
    {
      if name.None? && active.None? { return EmptyUpdate; }
      var valid := if name.Some? then ValidateName(name.value) else Ok(None);
      if valid.Err? { return InvalidName; }
      if id !in store.workspaces { return NotFound; }
      if active.Some? && active.value.Some? {
        if active.value.value !in eligible { return NotEligible; }
        if !(active.value.value in store.seats && store.seats[active.value.value].workspace == id) { return NotMember; }
      }
      var row := store.workspaces[id];
      match (name, active) {
        case (Some(_), Some(a)) => store.workspaces := store.workspaces[id := row.(name := valid.value, active := a)];
        case (Some(_), None) => store.workspaces := store.workspaces[id := row.(name := valid.value)];
        case (None, Some(a)) => store.workspaces := store.workspaces[id := row.(active := a)];
        case (None, None) => assert false;
      }
      return Done;
    }

    /** delete_workspace: the members' rows, then the workspace's. */
    method DeleteWorkspace(id: string) returns (o: Outcome, gone: set<Member>)
      requires Valid(store.State())
      modifies store
      ensures Valid(store.State())
      ensures o == if id in old(store.workspaces) then Done else NotFound
      ensures o == NotFound ==> store.State() == old(store.State())
      ensures o == Done ==> store.workspaces == old(store.workspaces) - {id} && store.seats == old(store.seats) - gone
                            && gone == set m | m in old(store.seats) && old(store.seats)[m].workspace == id
    {
      var start := store.State();
      gone := set m | m in store.seats && store.seats[m].workspace == id;
      store.seats := store.seats - gone;
      if id !in store.workspaces { store.Rollback(start); return NotFound, {}; }
      store.workspaces := store.workspaces - {id};
      return Done, gone;
    }

    /** Any sequence of requests. */
    method Serve(requests: seq<Request>)
      requires Valid(store.State())
      modifies store
      ensures Valid(store.State())
    {
      for i := 0 to |requests|
        invariant Valid(store.State())
      {
        match requests[i]
        case List(eligible, uuid) => var _ := ListWorkspaces(eligible, uuid);
        case Create(name, members, eligible, id) => var _ := CreateWorkspace(name, members, eligible, id);
        case Attach(eligible, workspace, member, uuid, id) =>
          var _ := AttachSession(eligible, workspace, member, uuid, id);
        case RemoveMember(member) => var _ := DropMember(member);
        case Update(id, name, active, eligible) => var _ := UpdateWorkspace(id, name, active, eligible);
        case Delete(id) => var _, _ := DeleteWorkspace(id);
      }
    }

    /** The delete loop at the start of create_workspace. */
    method TakeMembers(members: seq<Member>) returns (affected: set<string>)
      modifies store`seats
      ensures store.seats == Without(old(store.seats), members)
      ensures affected == set m | m in members && m in old(store.seats) :: old(store.seats)[m].workspace
    {
      affected := {};
      for i := 0 to |members|
        invariant store.seats == Without(old(store.seats), members[..i])
        invariant forall w :: w in affected <==>
                  exists m :: m in members[..i] && m in old(store.seats) && old(store.seats)[m].workspace == w
      {
        var m := members[i];
        assert members[..i + 1] == members[..i] + [m];
        if m in store.seats { affected := affected + {store.seats[m].workspace}; }
        store.seats := store.seats - {m};
      }
      assert members[..|members|] == members;
    }
  }

  /** One past the highest position in use. */
  ghost predicate IsNextPosition(seats: Seats, w: string, position: int) {
    && position >= 0
    && (forall m :: Sits(seats, m, w) ==> seats[m].position < position)
    && (position > 0 ==> exists m :: Sits(seats, m, w) && seats[m].position == position - 1)
  }

  /** The ids drawn are new, differ from each other and are not the id that the caller names. */
  ghost predicate NoIdClash(workspaces: map<string, Workspace>, workspace: Option<string>, uuid: nat -> string,
                            id: string) {
    && FreshIds(workspaces, uuid) && id !in workspaces
    && forall i: nat :: uuid(i) != id && workspace != Some(uuid(i))
  }

  /** Another session without an id fails the reconciliation; then a session that is not live is
      refused, then an unknown workspace, then a session that has a seat already or has no id. */
  function AttachOutcome(db: Db, eligible: set<Member>, workspace: Option<string>, member: Member): Outcome {
    if !Nameable(eligible, Some(member)) then Rejected
    else if member !in eligible then NotEligible
    else if workspace.Some? && workspace.value !in db.workspaces then NotFound
    else if member in db.seats || member.id == "" then Rejected
    else Done
  }

  ghost predicate AttachedTo(mid: Db, after: Db, workspace: Option<string>, member: Member, id: string) {
    && member !in mid.seats && member.id != ""
    && match workspace
       case Some(w) =>
         && w in mid.workspaces && w in after.workspaces
         && (exists position ::
               IsNextPosition(mid.seats, w, position) && after.seats == mid.seats[member := Seat(w, position)])
         && after.workspaces == mid.workspaces[w := mid.workspaces[w].(active := Some(member))]
       case None =>
         && id !in mid.workspaces
         && after == Db(mid.workspaces[id := Workspace(None, Some(member))], mid.seats[member := Seat(id, 0)])
  }

  /** The tables after a successful attachment: reconciled around the new session, then seated. */
  ghost predicate Attached(before: Db, after: Db, eligible: set<Member>, workspace: Option<string>, member: Member,
                           uuid: nat -> string, id: string) {
    exists mid :: Reconciled(before, mid, eligible, Some(member), uuid) && AttachedTo(mid, after, workspace, member, id)
  }

  lemma AttachedValid(mid: Db, after: Db, workspace: Option<string>, member: Member, id: string)
    requires Valid(mid) && AttachedTo(mid, after, workspace, member, id)
    ensures Valid(after)
  {
    forall w | w in after.workspaces ensures ActiveValid(after.workspaces[w].active, after.seats, w) {
      if w in mid.workspaces && mid.workspaces[w].active.Some? {
        assert Sits(mid.seats, mid.workspaces[w].active.value, w);
      }
    }
  }

  lemma ReconciledKeys(before: Db, after: Db, eligible: set<Member>, exclude: Option<Member>, uuid: nat -> string)
    requires Reconciled(before, after, eligible, exclude, uuid)
    ensures before.workspaces.Keys <= after.workspaces.Keys
    ensures forall id :: id in after.workspaces ==> id in before.workspaces || exists i: nat :: uuid(i) == id
  {
    var order :| ReconciledBy(before, after, eligible, exclude, uuid, order);
    SinglesKeys(order, uuid);
    forall id | id in after.workspaces && id !in before.workspaces ensures exists i: nat :: uuid(i) == id {
      var i :| 0 <= i < |order| && uuid(i) == id;
    }
  }

  /** What a member's departure does to the workspaces. */
  ghost predicate Left(before: Db, after: Db, member: Member)
    requires member in before.seats
  {
    var w := before.seats[member].workspace;
    && w in before.workspaces && after.workspaces.Keys == before.workspaces.Keys
    && (forall v :: v in before.workspaces && v != w ==> after.workspaces[v] == before.workspaces[v])
    && after.workspaces[w].name == before.workspaces[w].name
    && if before.workspaces[w].active == Some(member)
       then FirstSeat(after.seats, w, before.seats[member].position, after.workspaces[w].active)
       else after.workspaces[w].active == before.workspaces[w].active
  }

  /** What follows an active session that leaves, in plain positions: the member with the lowest
      position above its own, or when none is above the one with the lowest of all. */
  lemma LeavingPicksNext(before: Db, after: Db, member: Member)
    requires Valid(before) && member in before.seats && after.seats == before.seats - {member}
    requires Left(before, after, member)
    ensures var w, position := before.seats[member].workspace, before.seats[member].position;
            var seats := after.seats;
            && after.workspaces.Keys == before.workspaces.Keys && w in before.workspaces
            && after.workspaces[w].name == before.workspaces[w].name
            && (before.workspaces[w].active != Some(member) ==>
                  after.workspaces[w].active == before.workspaces[w].active)
            && (before.workspaces[w].active == Some(member) ==>
                  match after.workspaces[w].active
                  case None => forall n :: n in seats ==> seats[n].workspace != w
                  case Some(m) =>
                    && m in seats && seats[m].workspace == w
                    && (seats[m].position > position ==>
                          forall n :: n in seats && seats[n].workspace == w && seats[n].position > position ==>
                            seats[m].position <= seats[n].position)
                    && (seats[m].position <= position ==>
                          forall n :: n in seats && seats[n].workspace == w ==>
                            seats[m].position <= seats[n].position < position))
  {
    var w, position := before.seats[member].workspace, before.seats[member].position;
    if before.workspaces[w].active == Some(member) {
      FirstSeatByPosition(after.seats, w, position, after.workspaces[w].active);
    }
  }

  lemma PutAfterMerge(a: Seats, b: Seats, m: Member, seat: Seat)
    ensures (a + b)[m := seat] == a + b[m := seat]
  {
  }

  lemma NobodyYet(db: Db, id: string)
    requires Valid(db) && id !in db.workspaces
    ensures forall m :: m in db.seats ==> db.seats[m].workspace != id
  {
  }

  function Without(seats: Seats, members: seq<Member>): Seats {
    map m | m in seats && m !in members :: seats[m]
  }

  function SeatsIn(members: seq<Member>, id: string): Seats {
    if members == [] then map[]
      else SeatsIn(members[..|members| - 1], id)[members[|members| - 1] := Seat(id, |members| - 1)]
  }

  lemma {:induction false} SeatsInAt(members: seq<Member>, id: string)
    requires Distinct(members)
    ensures SeatsIn(members, id).Keys == set m | m in members
    ensures forall i :: 0 <= i < |members| ==> SeatsIn(members, id)[members[i]] == Seat(id, i)
    ensures forall m :: m in SeatsIn(members, id) ==>
            SeatsIn(members, id)[m].workspace == id && 0 <= SeatsIn(members, id)[m].position < |members|
    decreases |members|
  {
    if members != [] {
      var front, last := members[..|members| - 1], members[|members| - 1];
      SeatsInAt(front, id);
      assert members == front + [last];
      forall i | 0 <= i < |members| ensures SeatsIn(members, id)[members[i]] == Seat(id, i) {
        if i < |front| { assert front[i] == members[i] && members[i] != last; }
      }
    }
  }

  /** The tables after a successful creation. */
  ghost predicate Created(before: Db, after: Db, name: Option<string>, members: seq<Member>, id: string) {
    && id !in before.workspaces
    && after.seats == Without(before.seats, members) + SeatsIn(members, id)
    && after.workspaces.Keys == before.workspaces.Keys + {id}
    && after.workspaces[id] == Workspace(name, if members == [] then None else Some(members[0]))
    && forall w :: w in before.workspaces ==>
        Repaired(before.workspaces[w], after.workspaces[w], Without(before.seats, members), w)
  }

  lemma CreatedValid(before: Db, repaired: Db, after: Db, name: Option<string>, members: seq<Member>, id: string)
    requires Valid(repaired) && Distinct(members) && id !in before.workspaces && forall m :: m in members ==> m.id != ""
    requires repaired.seats == Without(before.seats, members) && repaired.workspaces.Keys == before.workspaces.Keys
    requires forall w :: w in before.workspaces ==>
             Repaired(before.workspaces[w], repaired.workspaces[w], repaired.seats, w)
    requires after.workspaces ==
             repaired.workspaces[id := Workspace(name, if members == [] then None else Some(members[0]))]
    requires after.seats == repaired.seats + SeatsIn(members, id)
    ensures Valid(after) && Created(before, after, name, members, id)
  {
    hide SeatsIn, Valid;
    SeatsInAt(members, id);
    SeatsInApart(members, id);
    SeatedValid(repaired, SeatsIn(members, id), after, id);
  }

  lemma SeatsInApart(members: seq<Member>, id: string)
    requires Distinct(members)
    ensures var added := SeatsIn(members, id);
            forall m, n :: m in added && n in added && m != n ==> added[m].position != added[n].position
  {
    hide SeatsIn;
    SeatsInAt(members, id);
    var added := SeatsIn(members, id);
    forall m, n | m in added && n in added && m != n ensures added[m].position != added[n].position {
      var i :| 0 <= i < |members| && members[i] == m;
      var j :| 0 <= j < |members| && members[j] == n;
      assert added[m] == Seat(id, i) && added[n] == Seat(id, j);
    }
  }

  /** A new workspace with members seated at distinct positions keeps the invariant. */
  lemma SeatedValid(repaired: Db, added: Seats, after: Db, id: string)
    requires Valid(repaired) && id !in repaired.workspaces && id in after.workspaces
    requires after.workspaces == repaired.workspaces[id := after.workspaces[id]]
    requires after.seats == repaired.seats + added
    requires forall m :: m in added ==> m !in repaired.seats && m.id != ""
    requires forall m :: m in added ==> added[m].workspace == id && added[m].position >= 0
    requires forall m, n :: m in added && n in added && m != n ==> added[m].position != added[n].position
    requires after.workspaces[id].active.Some? ==> after.workspaces[id].active.value in added
    ensures Valid(after)
  {
    NobodyYet(repaired, id);
    forall w | w in after.workspaces ensures ActiveValid(after.workspaces[w].active, after.seats, w) {
      if w != id && repaired.workspaces[w].active.Some? {
        assert Sits(repaired.seats, repaired.workspaces[w].active.value, w);
      }
    }
  }
}
