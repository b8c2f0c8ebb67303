/**
 Requests on workspaces with known contents, and the tables that they leave.
 */
module WorkspaceRuns {
  import opened Prelude
  import opened Sorting
  import opened Strings
  import opened Workspaces

  const X := Member(Agent, "x")
  const Y := Member(Agent, "y")
  const T := Member(Terminal, "a")

  /** Workspace "w" with three members, the first of them active. */
  function Three(active: Member): Db {
    Db(map["w" := Workspace(None, Some(active))], map[X := Seat("w", 0), Y := Seat("w", 1), T := Seat("w", 2)])
  }

  lemma ThreeValid(active: Member)
    requires active in {X, Y, T}
    ensures Valid(Three(active))
  {
  }

  /** When every live session has a seat already, only rows go. */
  lemma OnlyDrops(before: Db, after: Db, eligible: set<Member>, uuid: nat -> string)
    requires Reconciled(before, after, eligible, None, uuid) && eligible <= before.seats.Keys
    ensures after.seats == Kept(before.seats, eligible) && after.workspaces.Keys == before.workspaces.Keys
  {
    var order :| ReconciledBy(before, after, eligible, None, uuid, order);
    HasFirst(order);
  }

  lemma FirstSurvivor(after: Db, uuid: nat -> string)
    requires Reconciled(Three(X), after, {Y, T}, None, uuid)
    ensures after == Db(map["w" := Workspace(None, Some(Y))], map[Y := Seat("w", 1), T := Seat("w", 2)])
  {
    hide Reconciled, Valid;
    ThreeValid(X);
    OnlyDrops(Three(X), after, {Y, T}, uuid);
    ReconcileFallsBack(Three(X), after, {Y, T}, uuid, "w");
    var seats := Three(X).seats;
    assert Y in seats && seats[Y].workspace == "w" && Kept(seats, {Y, T}) == map[Y := Seat("w", 1), T := Seat("w", 2)];
    assert after.workspaces["w"] == Workspace(None, Some(Y));
  }

  /** The active session dies: of the two that live on, the one seated first takes over. */
  method FirstSurvivorTakesOver(service: Service, uuid: nat -> string) returns (o: Outcome)
    requires service.store.State() == Three(X) && FreshIds(Three(X).workspaces, uuid)
    modifies service.store
    ensures o == Done
    ensures service.store.State() == Db(map["w" := Workspace(None, Some(Y))], map[Y := Seat("w", 1), T := Seat("w", 2)])
  {
    hide Valid, Reconciled;
    ThreeValid(X);
    o := service.ListWorkspaces({Y, T}, uuid);
    FirstSurvivor(service.store.State(), uuid);
  }

  lemma NextFollows(after: Db)
    requires after.seats == Three(X).seats - {X} && Left(Three(X), after, X)
    ensures after.workspaces == map["w" := Workspace(None, Some(Y))]
  {
    ThreeValid(X);
    hide Left, Valid;
    LeavingPicksNext(Three(X), after, X);
    assert after.seats == map[Y := Seat("w", 1), T := Seat("w", 2)];
    hide Three;
    assert Y in after.seats && after.workspaces["w"].active == Some(Y);
    assert after.workspaces.Keys == {"w"};
  }

  lemma FirstFollows(after: Db)
    requires after.seats == Three(T).seats - {T} && Left(Three(T), after, T)
    ensures after.workspaces == map["w" := Workspace(None, Some(X))]
  {
    ThreeValid(T);
    hide Left, Valid;
    LeavingPicksNext(Three(T), after, T);
    assert after.seats == map[X := Seat("w", 0), Y := Seat("w", 1)];
    assert X in after.seats && after.workspaces["w"].active == Some(X);
    assert after.workspaces.Keys == {"w"};
  }

  /** The next member follows an active session that is removed; the first follows the last. */
  method NextTakesOver(service: Service, active: Member) returns (o: Outcome)
    requires active in {X, T} && service.store.State() == Three(active)
    modifies service.store
    ensures o == Done && service.store.seats == Three(active).seats - {active}
    ensures service.store.workspaces == map["w" := Workspace(None, Some(if active == X then Y else X))]
  {
    hide Valid, Left;
    ThreeValid(active);
    o := service.DropMember(active);
    if active == X { NextFollows(service.store.State()); } else { FirstFollows(service.store.State()); }
  }

  lemma KindsInOrder()
    ensures StringLess(KindText(Agent), KindText(Terminal)) && !StringLess(KindText(Terminal), KindText(Agent))
    ensures !StringLess(KindText(Agent), KindText(Agent))
  {
    assert 'a' < 't';
  }

  lemma IdsInOrder()
    ensures StringLess(X.id, Y.id) && !StringLess(Y.id, X.id)
  {
    assert 'x' < 'y';
  }

  lemma AgentsFirst()
    ensures Unowned([X, Y, T], map[], {X, Y, T}, None)
  {
    KindsInOrder();
    IdsInOrder();
    hide StringLess, KindText;
    assert !MemberBefore(Y, X) && !MemberBefore(T, Y) && !MemberBefore(T, X);
    hide MemberBefore;
  }

  lemma InThatOrder(after: Db, uuid: nat -> string)
    requires Reconciled(Db(map[], map[]), after, {X, Y, T}, None, uuid)
    ensures ReconciledBy(Db(map[], map[]), after, {X, Y, T}, None, uuid, [X, Y, T])
  {
    var order :| ReconciledBy(Db(map[], map[]), after, {X, Y, T}, None, uuid, order);
    hide Unowned, SingleSeats, SinglesOf;
    AgentsFirst();
    UnownedUnique(order, [X, Y, T], map[], {X, Y, T}, None);
  }

  lemma SeatedInTurn(uuid: nat -> string)
    requires uuid(0) != uuid(1) && uuid(0) != uuid(2) && uuid(1) != uuid(2)
    ensures SingleSeats([X, Y, T], uuid) == map[X := Seat(uuid(0), 0), Y := Seat(uuid(1), 0), T := Seat(uuid(2), 0)]
  {
    hide SingleSeats, SinglesOf;
    var order := [X, Y, T];
    SinglesKeys(order, uuid);
    SingleAt(order, uuid, 0);
    SingleAt(order, uuid, 1);
    SingleAt(order, uuid, 2);
  }

  lemma OneEach(now: Db, uuid: nat -> string)
    requires Reconciled(Db(map[], map[]), now, {X, Y, T}, None, uuid) && FreshIds(map[], uuid)
    ensures now.seats == map[X := Seat(uuid(0), 0), Y := Seat(uuid(1), 0), T := Seat(uuid(2), 0)]
  {
    InThatOrder(now, uuid);
    SeatedInTurn(uuid);
    NothingKept({X, Y, T});
    hide *;
    assert now.seats == Kept(map[], {X, Y, T}) + SingleSeats([X, Y, T], uuid);
  }

  lemma NothingKept(eligible: set<Member>)
    ensures Kept(map[], eligible) == map[]
  {
  }

  /** Sessions without a workspace get one each: agents first, then terminals, each kind by id. */
  method AgentsThenTerminals(service: Service, uuid: nat -> string) returns (o: Outcome)
    requires service.store.State() == Db(map[], map[]) && FreshIds(map[], uuid)
    modifies service.store
    ensures o == Done
    ensures service.store.seats == map[X := Seat(uuid(0), 0), Y := Seat(uuid(1), 0), T := Seat(uuid(2), 0)]
  {
    hide Reconciled, FreshIds, X, Y, T;
    NamedAll();
    assert Valid(Db(map[], map[]));
    o := service.ListWorkspaces({X, Y, T}, uuid);
    OneEach(service.store.State(), uuid);
  }

  lemma NamedAll()
    ensures Nameable({X, Y, T}, None)
  {
  }
}
