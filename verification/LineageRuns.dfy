/**
 What the lineage triggers and the reconciliation pass guarantee over whole runs of
 statements on the two session tables.
 */
module LineageRuns {
  import opened Prelude
  import opened Lineage

  /** The filter that history listing and resuming apply to V1 rows. */
  predicate Hidden(db: Tables, id: Id) {
    && id in db.v1
    && id in db.lineage
    && db.lineage[id].v1Present && !db.lineage[id].v2Present && db.lineage[id].v2Deleted
    && db.lineage[id].v1Created == Some(db.v1[id].created)
  }

  // ----- A run's states, and the rule for hiding in terms of session rows alone -----

  function StateAt(db: Tables, ss: seq<Statement>, k: nat): Tables
    requires k <= |ss|
  {
    Run(db, ss[..k])
  }

  /** The V2 copy has the V1 copy's creation time and is not older. */
  predicate Covers(newer: SessionRow, older: SessionRow) {
    older.created == newer.created && older.updated <= newer.updated
  }

  /** No V2 copy, and a V1 copy, if there is one, that the removed V2 copy still covers. */
  predicate StillCovered(db: Tables, id: Id, created: int, updated: int) {
    id !in db.v2 && (id in db.v1 ==> db.v1[id].created == created && db.v1[id].updated <= updated)
  }

  /** One step took the id's V2 copy (created, updated) away over a V1 copy it covers. */
  predicate RemovedOver(db: Tables, db': Tables, id: Id, created: int, updated: int) {
    && id in db.v2 && id !in db'.v2 && id in db.v1
    && db.v2[id].created == created && db.v2[id].updated == updated
    && Covers(db.v2[id], db.v1[id])
  }

  ghost predicate CoveredSince(db: Tables, ss: seq<Statement>, k: nat, id: Id, created: int, updated: int) {
    forall j :: k < j <= |ss| ==> StillCovered(StateAt(db, ss, j), id, created, updated)
  }

  /** Statement k removed the id's V2 copy over a V1 copy it covers, and since then no V2 copy
      has appeared and every V1 copy has stayed covered. */
  ghost predicate SupersededAt(db: Tables, ss: seq<Statement>, k: nat, id: Id, created: int, updated: int)
    requires k < |ss|
  {
    && RemovedOver(StateAt(db, ss, k), StateAt(db, ss, k + 1), id, created, updated)
    && CoveredSince(db, ss, k, id, created, updated)
  }

  /** The id's lineage row is a tombstone left by a V2 copy (created, updated). */
  predicate Tombstoned(db: Tables, id: Id, created: int, updated: int) {
    && id in db.lineage && db.lineage[id].v2Deleted
    && db.lineage[id].v1Created == Some(created) && db.lineage[id].v2Updated == Some(updated)
  }

  /** The run started with a tombstone and nothing in it has lifted that tombstone. */
  ghost predicate InheritedTombstone(db: Tables, ss: seq<Statement>, id: Id, created: int, updated: int) {
    && Tombstoned(db, id, created, updated)
    && CoveredSince(db, ss, 0, id, created, updated)
  }

  ghost predicate Superseded(db: Tables, ss: seq<Statement>, id: Id, created: int, updated: int) {
    || (exists k :: 0 <= k < |ss| && SupersededAt(db, ss, k, id, created, updated))
    || InheritedTombstone(db, ss, id, created, updated)
  }

  lemma TombstoneStep(db: Tables, s: Statement, id: Id, created: int, updated: int)
    requires ConsistentAt(db, id)
    ensures Tombstoned(Step(db, s), id, created, updated) <==>
              || RemovedOver(db, Step(db, s), id, created, updated)
              || (Tombstoned(db, id, created, updated) && StillCovered(Step(db, s), id, created, updated))
    ensures RemovedOver(db, Step(db, s), id, created, updated) ==> StillCovered(Step(db, s), id, created, updated)
  {
    StepEffect(db, s, id);
  }

  lemma PrefixStates(db: Tables, ss: seq<Statement>)
    requires ss != []
    ensures forall j :: 0 <= j < |ss| ==> StateAt(db, ss, j) == StateAt(db, ss[..|ss| - 1], j)
    ensures StateAt(db, ss, |ss|) == Run(db, ss)
    ensures StateAt(db, ss, |ss| - 1) == Run(db, ss[..|ss| - 1])
  {
    assert ss[..|ss|] == ss;
    forall j | 0 <= j < |ss| ensures StateAt(db, ss, j) == StateAt(db, ss[..|ss| - 1], j) {
      assert ss[..|ss| - 1][..j] == ss[..j];
    }
  }

  lemma StaysCovered(db: Tables, ss: seq<Statement>, k: nat, id: Id, created: int, updated: int)
    requires k < |ss|
    ensures CoveredSince(db, ss, k, id, created, updated) <==>
              CoveredSince(db, ss[..|ss| - 1], k, id, created, updated)
                && StillCovered(Run(db, ss), id, created, updated)
  {
    PrefixStates(db, ss);
    var before := ss[..|ss| - 1];
    if CoveredSince(db, before, k, id, created, updated) && StillCovered(Run(db, ss), id, created, updated) {
      forall j | k < j <= |ss| ensures StillCovered(StateAt(db, ss, j), id, created, updated) {
        if j < |ss| { assert StillCovered(StateAt(db, before, j), id, created, updated); }
      }
    } else if CoveredSince(db, ss, k, id, created, updated) {
      assert StillCovered(StateAt(db, ss, |ss|), id, created, updated);
      forall j | k < j <= |before| ensures StillCovered(StateAt(db, before, j), id, created, updated) {
        assert StillCovered(StateAt(db, ss, j), id, created, updated);
      }
    }
  }

  lemma SupersededAtStep(db: Tables, ss: seq<Statement>, k: nat, id: Id, created: int, updated: int)
    requires k < |ss| - 1
    ensures SupersededAt(db, ss, k, id, created, updated) <==>
              SupersededAt(db, ss[..|ss| - 1], k, id, created, updated)
                && StillCovered(Run(db, ss), id, created, updated)
  {
    PrefixStates(db, ss);
    StaysCovered(db, ss, k, id, created, updated);
  }

  lemma SupersededLast(db: Tables, ss: seq<Statement>, id: Id, created: int, updated: int)
    requires ss != []
    ensures SupersededAt(db, ss, |ss| - 1, id, created, updated) <==>
              RemovedOver(Run(db, ss[..|ss| - 1]), Run(db, ss), id, created, updated)
                && StillCovered(Run(db, ss), id, created, updated)
  {
    PrefixStates(db, ss);
    if SupersededAt(db, ss, |ss| - 1, id, created, updated) {
      assert StillCovered(StateAt(db, ss, |ss|), id, created, updated);
    }
  }

  lemma InheritedStep(db: Tables, ss: seq<Statement>, id: Id, created: int, updated: int)
    requires ss != []
    ensures InheritedTombstone(db, ss, id, created, updated) <==>
              InheritedTombstone(db, ss[..|ss| - 1], id, created, updated)
                && StillCovered(Run(db, ss), id, created, updated)
  {
    StaysCovered(db, ss, 0, id, created, updated);
  }

  lemma SupersededStep(db: Tables, ss: seq<Statement>, id: Id, created: int, updated: int)
    requires ss != []
    requires RemovedOver(Run(db, ss[..|ss| - 1]), Run(db, ss), id, created, updated) ==>
               StillCovered(Run(db, ss), id, created, updated)
    ensures Superseded(db, ss, id, created, updated) <==>
              || RemovedOver(Run(db, ss[..|ss| - 1]), Run(db, ss), id, created, updated)
              || (Superseded(db, ss[..|ss| - 1], id, created, updated)
                  && StillCovered(Run(db, ss), id, created, updated))
  {
    var n, before := |ss|, ss[..|ss| - 1];
    SupersededLast(db, ss, id, created, updated);
    InheritedStep(db, ss, id, created, updated);
    if k :| 0 <= k < n && SupersededAt(db, ss, k, id, created, updated) {
      if k < n - 1 { SupersededAtStep(db, ss, k, id, created, updated); }
    }
    if k :| 0 <= k < |before| && SupersededAt(db, before, k, id, created, updated) {
      SupersededAtStep(db, ss, k, id, created, updated);
    }
  }

  /** Whatever the run, a tombstone is exactly the record of the removal that set it. */
  lemma {:induction false} TombstoneExactly(db: Tables, ss: seq<Statement>, id: Id, created: int, updated: int)
    requires Consistent(db)
    ensures Tombstoned(Run(db, ss), id, created, updated) <==> Superseded(db, ss, id, created, updated)
    decreases |ss|
  {
    if ss != [] {
      var before, s := ss[..|ss| - 1], ss[|ss| - 1];
      TombstoneExactly(db, before, id, created, updated);
      RunKeepsConsistent(db, before);
      assert ConsistentAt(Run(db, before), id);
      TombstoneStep(Run(db, before), s, id, created, updated);
      SupersededStep(db, ss, id, created, updated);
    }
  }

  /** A V1 row is hidden exactly when the run supersedes it: by what happened to the session tables,
      or by a tombstone that was there at the start. */
  lemma HiddenExactly(db: Tables, ss: seq<Statement>, id: Id)
    requires Consistent(db)
    ensures Hidden(Run(db, ss), id) <==>
              id in Run(db, ss).v1 && exists created, updated :: Superseded(db, ss, id, created, updated)
  {
    var end := Run(db, ss);
    RunKeepsConsistent(db, ss);
    assert ConsistentAt(end, id);
    if Hidden(end, id) {
      var created, updated := end.lineage[id].v1Created.value, end.lineage[id].v2Updated.value;
      TombstoneExactly(db, ss, id, created, updated);
    }
    forall created, updated | Superseded(db, ss, id, created, updated) ensures Tombstoned(end, id, created, updated) {
      TombstoneExactly(db, ss, id, created, updated);
    }
  }

  // ----- The reconciliation pass -----

  /** From any lineage contents, one pass makes presence and times agree with the session
      tables, leaves no tombstone beside a V2 copy and no row without a flag. */
  lemma PassRepairsPresence(db: Tables, id: Id)
    ensures PresenceAgrees(Get(db.v1, id), Get(db.v2, id), Get(Reconciled(db).lineage, id))
    ensures id in Reconciled(db).lineage && Reconciled(db).lineage[id].v2Deleted ==>
            !Reconciled(db).lineage[id].v2Present
  {
  }

  lemma PassKeepsConsistentTable(db: Tables)
    requires Consistent(db)
    ensures Reconciled(db) == db
  {
    forall id ensures Get(Reconciled(db).lineage, id) == Get(db.lineage, id) {
      assert ConsistentAt(db, id);
    }
    MapsEqual(Reconciled(db).lineage, db.lineage);
  }

  lemma SecondPassRow(s1: Option<SessionRow>, s2: Option<SessionRow>, row: Option<LineageRow>)
    ensures ReconciledRow(s1, s2, ReconciledRow(s1, s2, row)) == ReconciledRow(s1, s2, row)
  {
    var a := AdoptedV2(AdoptedV1(row, s1), s2);
    if s1.Some? { assert a.value.v1Present && a.value.v1Created == Some(s1.value.created); }
    if s2.Some? { assert a.value.v2Present && a.value.v2Created == Some(s2.value.created); }
    var once := ReconciledRow(s1, s2, row);
    if s1.Some? && once.Some? { assert V1Written(once, s1.value) == once.value; }
    if s2.Some? && once.Some? { assert V2Written(once, s2.value) == once.value; }
  }

  /** A second pass changes nothing, whatever the table held before the first. */
  lemma PassIsIdempotent(db: Tables)
    ensures Reconciled(Reconciled(db)) == Reconciled(db)
  {
    var once := Reconciled(db);
    forall id ensures Get(Reconciled(once).lineage, id) == Get(once.lineage, id) {
      SecondPassRow(Get(db.v1, id), Get(db.v2, id), Get(db.lineage, id));
    }
    MapsEqual(Reconciled(once).lineage, once.lineage);
  }

  /** A tombstone that the pass would carry over is one the V2 delete trigger could have left. */
  predicate CarriedTombstoneSound(s1: Option<SessionRow>, row: LineageRow) {
    row.v2Deleted && !row.v2Present ==>
      if s1.None? then TombstoneSound(row)
      else SqlEqual(row.v1Created, Some(s1.value.created)) && SqlAtMost(Some(s1.value.updated), row.v2Updated) ==>
             row.v2Created == row.v1Created || row.v2Created == None
  }

  lemma RowAfterPass(s1: Option<SessionRow>, s2: Option<SessionRow>, row: Option<LineageRow>)
    ensures CellConsistent(s1, s2, ReconciledRow(s1, s2, row)) <==>
              (row.Some? && s2.None? ==> CarriedTombstoneSound(s1, row.value))
  {
    var adopted := AdoptedV2(AdoptedV1(row, s1), s2);
    if s1.Some? { assert adopted.value.v1Present && ForgottenV1(adopted, s1) == adopted; }
    if s2.Some? { assert adopted.value.v2Present && !adopted.value.v2Deleted; }
  }

  /** The pass establishes the whole invariant exactly when the tombstones it carries over
      were sound; every other defect of the table it repairs. */
  lemma PassEstablishesInvariant(db: Tables)
    ensures Consistent(Reconciled(db)) <==>
              forall id :: id in db.lineage && id !in db.v2 ==> CarriedTombstoneSound(Get(db.v1, id), db.lineage[id])
  {
    forall id ensures ConsistentAt(Reconciled(db), id) <==>
      (id in db.lineage && id !in db.v2 ==> CarriedTombstoneSound(Get(db.v1, id), db.lineage[id]))
    {
      RowAfterPass(Get(db.v1, id), Get(db.v2, id), Get(db.lineage, id));
    }
  }

  // ----- Deletions that happened while the triggers were missing -----

  ghost predicate OnlyDeletes(ss: seq<Statement>) {
    forall s :: s in ss ==> s.Delete?
  }

  /** At some point of the run the id had lost its V2 copy but not yet its V1 copy. */
  ghost predicate V2WentFirst(db: Tables, ss: seq<Statement>, id: Id) {
    exists j :: 0 <= j <= |ss| && id in StateAt(db, ss, j).v1 && id !in StateAt(db, ss, j).v2
  }

  /** The lineage row that the delete triggers leave of an id, from the copies it lost. */
  function AfterDeletes(s2: Option<SessionRow>, row: Option<LineageRow>, lost1: bool, lost2: bool,
                        v2First: bool): Option<LineageRow>
    requires lost2 ==> s2.Some?
  {
    if lost1 && lost2 then
      if v2First then V1Removed(V2Removed(row, s2.value)) else V2Removed(V1Removed(row), s2.value)
    else if lost1 then V1Removed(row)
    else if lost2 then V2Removed(row, s2.value)
    else row
  }

  /** What a run of deletions from db to end leaves of the id; `v2First` is V2WentFirst. */
  predicate DeletedAsExpected(db: Tables, end: Tables, v2First: bool, id: Id) {
    var lost1, lost2 := id in db.v1 && id !in end.v1, id in db.v2 && id !in end.v2;
    && (id in end.v1 ==> id in db.v1 && end.v1[id] == db.v1[id])
    && (id in end.v2 ==> id in db.v2 && end.v2[id] == db.v2[id] && !v2First)
    && Get(end.lineage, id) == AfterDeletes(Get(db.v2, id), Get(db.lineage, id), lost1, lost2, v2First)
  }

  lemma V2WentFirstStep(db: Tables, ss: seq<Statement>, id: Id)
    requires ss != []
    ensures V2WentFirst(db, ss, id) <==>
              (V2WentFirst(db, ss[..|ss| - 1], id) || (id in Run(db, ss).v1 && id !in Run(db, ss).v2))
  {
    PrefixStates(db, ss);
    var before := ss[..|ss| - 1];
    if V2WentFirst(db, before, id) {
      var j :| 0 <= j <= |before| && id in StateAt(db, before, j).v1 && id !in StateAt(db, before, j).v2;
      assert id in StateAt(db, ss, j).v1;
    }
  }

  lemma OneMoreDelete(db: Tables, mid: Tables, s: Statement, v2First: bool, id: Id)
    requires s.Delete? && ConsistentAt(db, id) && DeletedAsExpected(db, mid, v2First, id)
    requires id in mid.v1 && id !in mid.v2 ==> v2First
    ensures var end := Step(mid, s);
            DeletedAsExpected(db, end, v2First || (id in end.v1 && id !in end.v2), id)
  {
  }

  lemma {:induction false} DeletesEffect(db: Tables, ss: seq<Statement>, id: Id)
    requires ConsistentAt(db, id) && OnlyDeletes(ss)
    ensures DeletedAsExpected(db, Run(db, ss), V2WentFirst(db, ss, id), id)
    decreases |ss|
  {
    if ss == [] {
      assert ss[..0] == ss;
    } else {
      var before, s := ss[..|ss| - 1], ss[|ss| - 1];
      DeletesEffect(db, before, id);
      V2WentFirstStep(db, ss, id);
      assert s in ss && s.Delete?;
      PrefixStates(db, ss);
      if id in Run(db, before).v1 && id !in Run(db, before).v2 {
        assert StateAt(db, before, |before|) == StateAt(db, ss, |before|);
        assert V2WentFirst(db, before, id);
      }
      OneMoreDelete(db, Run(db, before), s, V2WentFirst(db, before, id), id);
    }
  }

  /** The run took away the V2 copy over a V1 copy it covers, and then that V1 copy as well. */
  ghost predicate TombstoneOutlivesBoth(db: Tables, ss: seq<Statement>, id: Id) {
    && id in db.v1 && id in db.v2 && Covers(db.v2[id], db.v1[id])
    && V2WentFirst(db, ss, id)
    && id !in Run(db, ss).v1 && id !in Run(db, ss).v2
  }

  lemma CatchUpRow(s1: Option<SessionRow>, s2: Option<SessionRow>, row: Option<LineageRow>, lost1: bool, lost2: bool,
                   v2First: bool)
    requires CellConsistent(s1, s2, row) && (lost1 ==> s1.Some?) && (lost2 ==> s2.Some?)
    ensures ReconciledRow(if lost1 then None else s1, if lost2 then None else s2, row) ==
            AfterDeletes(s2, row, lost1, lost2, v2First)
       <==> !(lost1 && lost2 && v2First && Covers(s2.value, s1.value))
  {
  }

  /** One pass over a lineage table that missed a run of deletions gives what the delete
      triggers would have given, exactly when no id lost a covering V2 copy and then its V1
      copy: only there the triggers keep a tombstone that the pass cannot know of. */
  lemma PassCatchesUp(db: Tables, ss: seq<Statement>)
    requires Consistent(db) && OnlyDeletes(ss)
    ensures Reconciled(Run(db, ss).(lineage := db.lineage)) == Run(db, ss) <==>
              forall id :: !TombstoneOutlivesBoth(db, ss, id)
  {
    var end := Run(db, ss);
    var missed := end.(lineage := db.lineage);
    forall id
      ensures Get(Reconciled(missed).lineage, id) == Get(end.lineage, id) <==> !TombstoneOutlivesBoth(db, ss, id)
    {
      assert ConsistentAt(db, id);
      DeletesEffect(db, ss, id);
      CatchUpRow(Get(db.v1, id), Get(db.v2, id), Get(db.lineage, id),
                 id in db.v1 && id !in end.v1, id in db.v2 && id !in end.v2,
                 V2WentFirst(db, ss, id));
    }
    if forall id :: !TombstoneOutlivesBoth(db, ss, id) {
      MapsEqual(Reconciled(missed).lineage, end.lineage);
    }
  }

  /** In particular the pass catches up when each id lost at most one of its two copies. */
  lemma PassCatchesUpOneCopyEach(db: Tables, ss: seq<Statement>)
    requires Consistent(db) && OnlyDeletes(ss)
    requires forall id :: id in db.v1 && id in db.v2 ==> id in Run(db, ss).v1 || id in Run(db, ss).v2
    ensures Reconciled(Run(db, ss).(lineage := db.lineage)) == Run(db, ss)
  {
    PassCatchesUp(db, ss);
  }

  // ----- Any statements that happened while the triggers were missing -----

  /** The lineage table as it was before still knows a V2 copy that covers this V1 copy: one that was
      there, or the one of a tombstone. */
  predicate KnownToCover(db: Tables, id: Id, row: SessionRow) {
    if id in db.v2 then Covers(db.v2[id], row)
    else id in db.lineage && db.lineage[id].v2Deleted && db.lineage[id].v1Created == Some(row.created)
         && SqlAtMost(Some(row.updated), db.lineage[id].v2Updated)
  }

  lemma HiddenByPass(s1: Option<SessionRow>, s2: Option<SessionRow>, row: Option<LineageRow>,
                     e1: SessionRow, e2: Option<SessionRow>)
    requires CellConsistent(s1, s2, row)
    ensures var r := ReconciledRow(Some(e1), e2, row);
            && r.Some? && r.value.v1Present && r.value.v1Created == Some(e1.created)
            && (r.value.v2Deleted && !r.value.v2Present <==>
                e2.None? && if s2.Some? then Covers(s2.value, e1)
                            else row.Some? && row.value.v2Deleted && row.value.v1Created == Some(e1.created)
                                 && SqlAtMost(Some(e1.updated), row.value.v2Updated))
  {
  }

  /** Whatever statements the triggers missed, after one pass the readers pass over the same V1 copies
      as if the triggers had fired, exactly when for every id that has only a V1 copy left the lineage
      table of before knows a V2 copy that covers it if and only if the run itself supersedes it. */
  lemma PassCatchesUpReaders(db: Tables, ss: seq<Statement>)
    requires Consistent(db)
    ensures (forall id :: Hidden(Reconciled(Run(db, ss).(lineage := db.lineage)), id) <==> Hidden(Run(db, ss), id)) <==>
              forall id :: id in Run(db, ss).v1 && id !in Run(db, ss).v2 ==>
                (KnownToCover(db, id, Run(db, ss).v1[id]) <==>
                 exists created, updated :: Superseded(db, ss, id, created, updated))
  {
    hide Superseded, Run, Reconciled;
    forall id
      ensures (Hidden(Reconciled(Run(db, ss).(lineage := db.lineage)), id) <==> Hidden(Run(db, ss), id)) <==>
                (id in Run(db, ss).v1 && id !in Run(db, ss).v2 ==>
                  (KnownToCover(db, id, Run(db, ss).v1[id]) <==>
                   exists created, updated :: Superseded(db, ss, id, created, updated)))
    {
      PassCatchesUpReader(db, ss, id);
    }
  }

  lemma PassCatchesUpReader(db: Tables, ss: seq<Statement>, id: Id)
    requires Consistent(db)
    ensures var end := Run(db, ss);
            && (Hidden(end, id) <==> id in end.v1 && id !in end.v2
                                     && exists created, updated :: Superseded(db, ss, id, created, updated))
            && (Hidden(Reconciled(end.(lineage := db.lineage)), id) <==>
                id in end.v1 && id !in end.v2 && KnownToCover(db, id, end.v1[id]))
  {
    HiddenExactly(db, ss, id);
    RunKeepsConsistent(db, ss);
    hide Superseded, Run;
    var end := Run(db, ss);
    assert ConsistentAt(end, id) && ConsistentAt(db, id);
    if id in end.v1 {
      HiddenByPass(Get(db.v1, id), Get(db.v2, id), Get(db.lineage, id), end.v1[id], Get(end.v2, id));
    }
  }
}
