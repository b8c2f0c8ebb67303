# DevHatch: verified model of the session, workspace and supervisor cores

DevHatch keeps two generations of a session table, `session` (V1) and `session_v2` (V2), and a
shadow table, `_devhatch_session_lineage`, that six triggers and a reconciliation pass maintain. It
merges the two generations for listing and resuming, and deletes session trees from both. Around
this core it keeps workspaces of sessions, reads terminal output, publishes supervisor releases and
reads history timestamps. This project models those parts and proves what they promise.

| file | models |
|---|---|
| `Prelude.dfy`, `Sorting.dfy`, `Strings.dfy` | optional values, sorting and string orders, `split` and `split_once` |
| `Lineage.dfy` | the three tables, the triggers and the reconciliation pass as a class whose methods are the SQL statements; the row automaton that specifies them |
| `LineageRuns.dfy` | whole runs of statements: tombstones, hidden rows, repair, catching up on missed deletions |
| `Merge.dfy` | the history listing, the resume lookup and their agreement |
| `ReaderCells.dfy` | what both readers return and refuse, in the cells of the tables |
| `ForeignKeys.dfy` | rows of any table, transitive `ON DELETE CASCADE`, keys that refuse a statement, and sequences of statements |
| `CascadeWalk.dfy` | the foreign-key walk that predicts the cascade |
| `CascadeGraph.dfy` | when the walk succeeds, in terms of the graph of tables |
| `SessionTrees.dfy`, `Deletion.dfy` | descendants, the plan of a deletion and its child-first order |
| `PlanRoot.dfy` | the root that a plan starts from, and when a plan can be made |
| `DeleteStore.dfy` | the database a deletion runs on: DELETE statements with triggers, cascades and refusals |
| `DeleteLoop.dfy`, `DeleteStages.dfy`, `Transaction.dfy` | the loop's tables, the rows each statement names, and the whole locked transaction |
| `DeleteEffects.dfy` | what a deletion takes from other tables, its order, and which rows make it fail |
| `PlanChanges.dfy` | which changes between planning and locking are noticed |
| `PlanRuns.dfy` | planning and deleting in a database with known contents |
| `Fingerprint.dfy` | the row encoding and snapshots of rows |
| `Workspaces.dfy` | workspaces, members, positions and active sessions under any sequence of requests |
| `WorkspaceRuns.dfy` | requests on workspaces with known contents |
| `PtyReader.dfy` | the reader's pending buffer, lossy UTF-8 decoding and the trimmed scrollback |
| `Utf8Numbers.dfy` | the decoder's characters as encodings of scalar values |
| `Publication.dfy` | publishing and restoring an installation, where any file-system operation may fail |
| `UnitFile.dfy`, `UnitPaths.dfy` | the text of the systemd unit, and which path stands where in it |
| `ManagedFiles.dfy` | by which lines a file is recognised as the program's own |
| `InstallRuns.dfy` | whole installations from a source tree, and rolling them back |
| `EnvironmentFile.dfy`, `EnvironmentGrammar.dfy` | systemd quoting, the environment printer and its parser, and the files that the parser accepts |
| `HashLayout.dfy` | the byte stream behind a release hash |
| `ByteForms.dfy` | the bytes of rows and layouts with known contents |
| `Calendar.dfy`, `Timestamps.dfy`, `TimestampGrammar.dfy` | day numbers, RFC 3339 timestamps, and the texts that are read as one |

Parts that change state in the program are methods of a class or loops with invariants; each is
proved against a function or predicate on values, about which the lemmas speak.

The definitions that those specifications share are stated a second time in plain terms, so that a
reader need not trust them: the readers in the cells of the tables (`ReaderCells`), the walk in the
graph of tables (`CascadeGraph`), planning and its comparison in the rows of the database
(`PlanRoot`, `PlanChanges`), fallbacks in positions (`Workspaces.ReconcileFallsBack`,
`Workspaces.LeavingPicksNext`), recognised files in their lines (`ManagedFiles`), accepted environment
files and timestamps by their grammars (`EnvironmentGrammar`, `TimestampGrammar`), characters as
encoded numbers (`Utf8Numbers`); and databases, workspaces and bytes with known contents show each at
work (`PlanRuns`, `WorkspaceRuns`, `ByteForms`).

Where the code does less than one might expect, the exact condition is proved:

- One reconciliation pass catches up on deletions that the triggers missed, except when an id lost a
  V2 copy that covered its V1 copy and then the V1 copy as well (`LineageRuns.PassCatchesUp`). It
  establishes the whole lineage invariant exactly when the tombstones it carries over were sound
  (`LineageRuns.PassEstablishesInvariant`); a second pass never changes anything. After statements of
  any kind that the triggers missed, readers see what they would have seen exactly when the old
  lineage table knows a covering V2 copy for just the V1 copies that the run supersedes
  (`LineageRuns.PassCatchesUpReaders`).
- A planned tree cannot be ordered when, and only when, two copies of an id name different parents
  (`DeleteLoop.BuiltPlanOrderable`); the deletion is then refused.
- The plan passes over foreign keys that restrict, so a database that matches its plan may still
  refuse a statement or COMMIT; the deletion then fails and changes nothing. It fails for certain when
  a row that stays refers by such a key to one that would go, and never when no row at all does
  (`Transaction.DeleteGenerations`, `DeleteEffects.HeldForGoodFails`,
  `DeleteEffects.UnreferencedSucceeds`, `DeleteEffects.RefusedByNote`).
- The listing reads whichever table or view has the columns, but fails without a `project` to join and
  on any tombstone or row that does not decode; resuming reads tables only and is refused as soon as
  one of them lacks a column, but looks at one id. An id is listed exactly when it can be resumed,
  unless it splits the two; when both read the same tables that is when one of them alone is refused
  over a copy of it (`Merge.ReadersAgreeExactly`). Five databases that split them are given
  (`Merge.ListsWhatCannotBeResumed`, `Merge.ResumesWithoutProjects`, `Merge.ResumesBesideBrokenRow`,
  `Merge.ResumesBesideTombstone`, `Merge.ListsThroughView`).
- One read publishes only up to the first malformed piece. Text that is already certain waits for the
  next read exactly when something other than the beginning of a character follows that piece
  (`PtyReader.HeldBackExactly`), and on malformed input the backlog grows without bound
  (`PtyReader.BacklogGrows`); on well-formed text it is at most three bytes
  (`PtyReader.WellFormedBacklog`). A failed read drops what is pending.
- Publication checks the hash of what it copied but not for an index page: unless two layouts have
  the same digest, what is published is the hashed source tree, and a valid release exactly when the
  sources still have an index page (`InstallRuns.Install`, `InstallRuns.PublishesIncompleteRelease`).
- Rolling back restores the captured files and link exactly when a newly written environment file fits
  the 128 KiB read limit (`InstallRuns.InstallThenRestore`): it always carries its marker
  (`InstallRuns.PrintedIsAccepted`) but can be too long (`InstallRuns.RollbackRefusesLongFile`,
  `InstallRuns.LongSearchPath`), while the unit always fits (`UnitFile.UnitIsAccepted`).
- Timestamps accept day 31 in every month and read it as the date it runs over to, and accept any
  two-digit offset (`Timestamps.FieldsRoundTrip`, `Timestamps.DayOverflowsMonth`).

## Model

| member | source | states |
|---|---|---|
| Lineage.Database.UpsertV1 | apps/server/src/history/opencode.rs:29-38 | The upsert ending both V1 triggers: the row becomes present with the written times, and a tombstone survives only an equal creation time and a V1 update that is not newer than the removed V2 copy |
| Lineage.Database.UpsertV2 | apps/server/src/history/opencode.rs:44-53 | The upsert ending both V2 triggers: present with the written times, tombstone lifted |
| Lineage.Database.ClearV1 | apps/server/src/history/opencode.rs:39-43 | The V1 delete trigger's effect on the lineage table, rows without flags dropped |
| Lineage.Database.ClearV2 | apps/server/src/history/opencode.rs:54-58 | The V2 delete trigger's effect: a tombstone iff a V1 copy of equal creation time and no later update is present; NULL comparisons fall to 0 |
| Lineage.Database.FireInsert | apps/server/src/history/opencode.rs:29-33 | The insert triggers change the lineage row of the new id only, as the row automaton says |
| Lineage.Database.FireUpdate | apps/server/src/history/opencode.rs:34-38 | The update triggers treat a rename as departure of the old id followed by arrival of the new one |
| Lineage.Database.FireDelete | apps/server/src/history/opencode.rs:39-43 | The delete triggers change the lineage row of the deleted id only |
| Lineage.Database.Execute | apps/server/src/history/opencode.rs:28-59 | Any insert, replace, update, rename, edit or delete together with the triggers it fires is one step of the run semantics; a key conflict changes nothing |
| Lineage.Database.AdoptV1 | apps/server/src/history/opencode.rs:1778-1781 | First statement of the pass, row by row |
| Lineage.Database.AdoptV2 | apps/server/src/history/opencode.rs:1782-1785 | Second statement of the pass, row by row |
| Lineage.Database.ForgetV1 | apps/server/src/history/opencode.rs:1786-1789 | Third statement of the pass, row by row |
| Lineage.Database.ForgetV2 | apps/server/src/history/opencode.rs:1790-1793 | Fourth statement of the pass, row by row |
| Lineage.Database.DropEmpty | apps/server/src/history/opencode.rs:1794-1797 | Fifth statement: only rows without a flag go |
| Lineage.Database.Reconcile | apps/server/src/history/opencode.rs:1778-1798 | The five table-wide statements together give every id the row that the one-row specification computes, and leave the session tables alone |
| Lineage.StepEffect | apps/server/src/history/opencode.rs:28-59 | Whatever the statement, its effect on one id is one move of the row automaton and leaves the other table's copy alone |
| Lineage.StepKeepsConsistent | apps/server/src/history/opencode.rs:28-59 | Every statement keeps the invariant: presence flags and times agree with both session tables, tombstones only without a V2 copy and over a V1 copy that is not newer, no row without a flag |
| Lineage.RunKeepsConsistent | apps/server/src/history/opencode.rs:28-59 | So does every run of statements |
| LineageRuns.TombstoneExactly | apps/server/src/history/opencode.rs:28-59 | After any run an id is tombstoned with given times iff some statement removed such a V2 copy over a V1 copy it covers (or the run began with the tombstone) and ever since no V2 copy has appeared and every V1 copy has stayed covered |
| LineageRuns.HiddenExactly | apps/server/src/history/opencode.rs:1920-1944 | A V1 row is hidden from readers iff the run supersedes it: by what happened to the two session tables, or by a tombstone that was there at the start |
| LineageRuns.PassRepairsPresence | apps/server/src/history/opencode.rs:1778-1798 | From any lineage contents the pass makes presence and times agree with the session tables and leaves no tombstone beside a V2 copy and no row without a flag |
| LineageRuns.PassKeepsConsistentTable | apps/server/src/history/opencode.rs:1778-1798 | The pass changes nothing where the invariant already holds |
| LineageRuns.PassIsIdempotent | apps/server/src/history/opencode.rs:1778-1798 | A second pass changes nothing, whatever the table held before the first |
| LineageRuns.PassEstablishesInvariant | apps/server/src/history/opencode.rs:1778-1798 | The pass establishes the whole invariant iff every tombstone it carries over is one that the triggers could have left |
| LineageRuns.DeletesEffect | apps/server/src/history/opencode.rs:39-58 | What a run of deletions leaves of an id: the surviving copies unchanged and the lineage row determined by which copies went and in which order |
| LineageRuns.PassCatchesUp | apps/server/src/history/opencode.rs:1778-1798 | One pass over a table that missed a run of deletions equals what the delete triggers would have produced, iff no id lost a covering V2 copy and then its V1 copy |
| LineageRuns.PassCatchesUpOneCopyEach | apps/server/src/history/opencode.rs:1778-1798 | In particular when each id lost at most one of its two copies |
| LineageRuns.PassCatchesUpReaders | apps/server/src/history/opencode.rs:1778-1798 | After any missed run of inserts, replaces, updates and deletes one pass hides the same V1 copies as the triggers would, iff for each id left with a V1 copy only the old lineage table knows a covering V2 copy exactly when the run supersedes it |
| Merge.ResumableSession | apps/server/src/history/opencode.rs:1915-1984 | Refused iff a table lacks a required column, there is no table, or the tombstone or a row of the id does not decode; otherwise returns a copy iff it is the latest visible one, V2 on a tie, and is neither a child nor archived |
| Merge.ReadTombstones | apps/server/src/history/opencode.rs:1995-2007 | The tombstone map holds exactly the hidden creation times, and fails iff an id or a time does not decode |
| Merge.SelectJoined | apps/server/src/history/opencode.rs:2009-2017 | The joined rows are the decoded rows of the table, whatever projects match; fails iff a row, or a project it is joined with, does not decode |
| Merge.ScanTable | apps/server/src/history/opencode.rs:2018-2038 | One table's scan into the map, id by id, independent of the row order |
| Merge.Collect | apps/server/src/history/opencode.rs:2043-2047 | Draining the map yields each resumable choice once |
| Merge.HistoryRows | apps/server/src/history/opencode.rs:1986-2050 | Unsupported iff neither table has the columns; failed iff there is no `project` to join, or a tombstone or a row does not decode; otherwise exactly the chosen resumable copies, each once, newest first and then by descending id |
| Merge.MergedIsChosen | apps/server/src/history/opencode.rs:2023-2037 | The two-step replacement rule picks exactly the copy that the declarative rule picks |
| Merge.ReadersAgreeExactly | apps/server/src/history/opencode.rs:1915-2050 | Over the raw results of both readers and any database: an id is listed iff it resumes, unless it splits them; when both read the same tables it splits them iff they hold a resumable copy and exactly one reader is refused, and what both find is the same row |
| Merge.ListsWhatCannotBeResumed | apps/server/src/history/opencode.rs:247-255 | V2 lacks a column: a V1 row is listed and resuming it fails |
| Merge.ResumesAlone | apps/server/src/history/opencode.rs:2007-2017 | For every V1 table, projects and tombstones: whenever the query is refused over something else, a plain V1 row still resumes |
| Merge.ResumesWithoutProjects | apps/server/src/history/opencode.rs:2010 | There is no `project`: the row resumes and the listing fails |
| Merge.ResumesBesideBrokenRow | apps/server/src/history/opencode.rs:2013-2017 | Another row has a NULL directory: the row resumes and the listing fails |
| Merge.ResumesBesideTombstone | apps/server/src/history/opencode.rs:1995-2007 | Another id's tombstone has no creation time: the row resumes and the listing fails |
| Merge.ListsThroughView | apps/server/src/history/opencode.rs:232-241 | V1 is a view: its row is listed and resuming finds nothing |
| Merge.ListingAgreesWithResume | apps/server/src/history/opencode.rs:1986-2050 | Where both readers succeed on the same rows, an id is listed iff it can be resumed, with the same row, and once |
| Merge.ListingIgnoresOrder | apps/server/src/history/opencode.rs:2008-2049 | The listing is one and the same sequence whatever order rows and map entries come in |
| Merge.ReadersFollowHistory | apps/server/src/history/opencode.rs:1915-1958 | After any run on a consistent database no tombstone is undecodable, V2 copies are visible, and a V1 copy is passed over iff its history supersedes it |
| ReaderCells.ResumeFailsExactly | apps/server/src/history/opencode.rs:228-308 | In the cells of the tables: resuming fails iff a session table lacks one of the eight columns, there is none, the id's tombstone holds no number, or a cell of one of its rows has another type than it is read as |
| ReaderCells.ResumesExactly | apps/server/src/history/opencode.rs:1915-1958 | In the cells of the tables: otherwise it returns exactly the row of the id that was updated last, V2 on a tie and V1 rows under a tombstone of their creation time aside, if its parent and archive cells are both NULL |
| ReaderCells.ListingFailsExactly | apps/server/src/history/opencode.rs:1986-2017 | In the cells of the tables: the listing fails iff no object has the eight columns ungenerated, a tombstone is no text with a number, there is no `project`, or a cell of some row or joined project has another type |
| ReaderCells.ListsExactly | apps/server/src/history/opencode.rs:1986-2050 | In the cells of the tables: the row listed for an id is exactly its latest one, if its parent and archive cells are both NULL |
| ReaderCells.NewestFirst | apps/server/src/history/opencode.rs:2043-2049 | The rows are listed by time of update, latest first, and those of one time by descending id |
| ReaderCells.ArchivedOrChildIsPassedOver | apps/server/src/history/opencode.rs:1955-1957 | An archive time or a parent in the latest row of an id hides the session from both readers; no earlier row stands in for it |
| ReaderCells.ArchivedInV2 | apps/server/src/history/opencode.rs:2576-2599 | Archived in V2 after it was last updated in V1: nothing is resumed and nothing listed |
| Fingerprint.RowFingerprint | apps/server/src/history/opencode.rs:183-226 | The encoder pushes tag and payload column by column; it fails iff a value has an unknown type |
| Fingerprint.AppendLengthPrefixed | apps/server/src/history/opencode.rs:178-181 | Appends a 64-bit big-endian length and the bytes |
| Fingerprint.EncodedPrefixFree | apps/server/src/history/opencode.rs:183-226 | No encoded value followed by anything can be read as another value followed by anything |
| Fingerprint.FingerprintsEqual | apps/server/src/history/opencode.rs:183-226 | Fingerprints are equal iff every column agrees in type and value, whatever the numbers of columns |
| ByteForms.WordsSpell | apps/server/src/history/opencode.rs:178-203 | A length or integer is the eight bytes that spell it most significant first, a negative one those of 2^64 more |
| ByteForms.RowBytes | apps/server/src/history/opencode.rs:183-226 | The bytes of a row of -2, NULL, a text and an empty blob |
| Fingerprint.SnapshotsEqual | apps/server/src/history/opencode.rs:633-665 | Sorted snapshots are equal iff the row multisets are |
| SessionTrees.DescendantIds | apps/server/src/history/opencode.rs:968-981 | The recursive query returns exactly the ids reachable from the root by child steps in either table |
| SessionTrees.FamilyClosed | apps/server/src/history/opencode.rs:968-981 | A child, in either table, of a descendant is a descendant |
| SessionTrees.Depth | apps/server/src/history/opencode.rs:1079-1090 | The parent walk returns the depth iff the parents lead to the root, and None exactly on a cycle or a missing parent |
| SessionTrees.WalkUnique | apps/server/src/history/opencode.rs:1079-1090 | An id has only one depth |
| Deletion.CellsDecode | apps/server/src/history/opencode.rs:259-273 | A row of the deletion's tables decodes from its cells as the readers decode it, iff its directory is text |
| Deletion.SelectGenerations | apps/server/src/history/opencode.rs:982-1000 | A target lists exactly the table's rows in the family, once each, by id; None iff one of them does not decode |
| Deletion.BuildPlan | apps/server/src/history/opencode.rs:937-1048 | Planning fails iff the root's lookup does, or there is something to delete and a trigger is unsafe, a table unfit, a row of the family does not decode, the keys cannot be read or the walk gives up; finds nothing iff resuming would; otherwise returns the plan of the snapshot, recording every dependent table |
| Deletion.RootIsResumed | apps/server/src/history/opencode.rs:946-951 | The root of the plan is the copy that resuming picks |
| PlanRoot.RootIsFound | apps/server/src/history/opencode.rs:937-951 | On any database the root's lookup fails iff resuming does and otherwise finds the same copy |
| PlanRoot.PlannedTables | apps/server/src/history/opencode.rs:799-866 | The walk starts from the session tables that hold rows of the family and from those of the three tables deleted from by id that are there |
| PlanRoot.PlansExactly | apps/server/src/history/opencode.rs:937-1048 | With something to delete a plan is made iff triggers are safe, no named object is unfit, keys are known, every row of the family has a directory and the graph of cascading keys allows it |
| Deletion.CollectParents | apps/server/src/history/opencode.rs:1064-1075 | Fails iff two copies of an id name different parents |
| Deletion.ChildFirstGenerations | apps/server/src/history/opencode.rs:1061-1111 | Returns an order iff parents agree and every row leads to the root; the order is a permutation of the planned rows, by depth, table and id, with every child before every copy of its parent |
| Deletion.RanksChildFirst | apps/server/src/history/opencode.rs:1094-1104 | Sorting by depth, table and id puts children first |
| ForeignKeys.CascadedExactly | apps/server/src/history/opencode.rs:1353-1361 | Adding followers round by round collects exactly the rows that some chain of cascade steps reaches |
| ForeignKeys.CascadedInSteps | apps/server/src/history/opencode.rs:1351-1411 | Deleting in several statements removes what naming all the rows at once would |
| ForeignKeys.HeldInSteps | apps/server/src/history/opencode.rs:1351-1411 | After statements that went through, the next is refused by a restricting key iff all of them together would be |
| CascadeWalk.Follow | apps/server/src/history/opencode.rs:867-911 | One step of the walk queues every cascading key of the selection, or stops iff one blocks it |
| CascadeWalk.Walk | apps/server/src/history/opencode.rs:799-914 | The walk ends; it succeeds iff no key path meets a blocking key and there are at most 256 paths, and then returns exactly the predicates of all paths |
| CascadeGraph.WalkableExactly | apps/server/src/history/opencode.rs:799-914 | In terms of the graph of tables: the walk succeeds iff along cascading keys other than the tree's, from the planned tables, no key sets NULL or a default or is unknown, none enters a session table, no table reaches itself, and there are at most 256 chains of keys |
| PlanRuns.PlansChain | apps/server/src/history/opencode.rs:3378-3432 | Dependents of a session with attachments of their own, both cascading: a plan is made and records the rows of both tables, and no others |
| PlanRuns.DeletesChain | apps/server/src/history/opencode.rs:3378-3432 | Deleting that session takes its dependent and the attachment and leaves the other dependent |
| CascadeWalk.WalkIsExact | apps/server/src/history/opencode.rs:799-935 | A table's path predicates together select exactly the rows that transitive ON DELETE CASCADE removes, and of the session tables only planned rows go |
| CascadeWalk.SelectedGoes | apps/server/src/history/opencode.rs:878-911 | Whatever a selection selects is removed |
| CascadeWalk.GoneIsSelected | apps/server/src/history/opencode.rs:878-911 | Whatever is removed is selected |
| CascadeWalk.OnlyTreeKeys | apps/server/src/history/opencode.rs:871-887 | Only the session tree's own key leads from a row that goes to a session row |
| DeleteLoop.FamilyWalks | apps/server/src/history/opencode.rs:1079-1090 | In a planned family every parent walk ends at the root |
| DeleteLoop.BuiltPlanOrderable | apps/server/src/history/opencode.rs:1061-1111 | For a built plan the ordering's cycle and missing-parent exits are never reached |
| DeleteLoop.NoOrphans | apps/server/src/history/opencode.rs:1351-1364 | At no point of the loop does a remaining row of either table name a parent that is already gone |
| DeleteStore.Store.DeleteSession | apps/server/src/history/opencode.rs:1353-1361 | One DELETE with its trigger, all cascades and all restricting keys: refused, no row or one row, and the whole new state |
| DeleteStore.Store.DeleteAuxiliary | apps/server/src/history/opencode.rs:1386-1409 | DELETE by session id from an event, sequence or lineage table with cascades and restricting keys, and the whole new state |
| DeleteStages.NamedByPlanned | apps/server/src/history/opencode.rs:1351-1411 | After any number of statements only planned rows have been named, and children before their parents |
| DeleteStages.ScriptSessions | apps/server/src/history/opencode.rs:1351-1411 | No statement takes a session row that has not been named by then |
| Transaction.DeleteRows | apps/server/src/history/opencode.rs:1351-1364 | The child-first loop fails only at a refused statement; otherwise each DELETE affects one row, and the triggers and cascades have run |
| Transaction.CleanUp | apps/server/src/history/opencode.rs:1365-1411 | The clean-up runs for every planned id, fails only at a refused statement, and removes their lineage rows |
| Transaction.AllNamed | apps/server/src/history/opencode.rs:1351-1411 | Loop and clean-up together name exactly the rows of the five tables keyed by planned ids |
| Transaction.PostconditionsHold | apps/server/src/history/opencode.rs:1113-1170 | True iff no planned id is left as a row, a parent or an auxiliary key |
| Transaction.FamilyLeavesNothing | apps/server/src/history/opencode.rs:1113-1170 | Once the family and what cascades from it is gone the final check holds for every planned id |
| Transaction.AfterKeepsConsistent | apps/server/src/history/opencode.rs:1200-1447 | Removing a family from all tables keeps the lineage invariant |
| Transaction.Compare | apps/server/src/history/opencode.rs:1241-1349 | The comparison under the lock passes iff schema, session rows, lineage, events and the recorded rows of every dependent table still match and nothing is shared |
| PlanChanges.NoticesExactly | apps/server/src/history/opencode.rs:1241-1349 | A plan matches a later database iff the schema, every row of the family as it was or is, the family's lineage, event and sequence rows and the rows of other tables that would go along are the same as when it was made |
| PlanChanges.ComparesExactly | apps/server/src/history/opencode.rs:1241-1349 | The comparison passes iff all of these are unchanged and no row of the family is shared |
| PlanChanges.StaleByTombstone | apps/server/src/history/opencode.rs:1272-1281 | A copy came and went in between, so that only the lineage row differs: the deletion is refused as stale |
| Transaction.Execute | apps/server/src/history/opencode.rs:1350-1424 | The statements go through iff none is refused by a restricting key, and then leave the database without exactly the family and what cascades from it |
| Transaction.DeleteGenerations | apps/server/src/history/opencode.rs:1200-1447 | Succeeds iff the locked database matches, nothing is shared, parents agree, no statement is refused by an immediate key, no row is left dangling by a deferred one, and COMMIT meets no other error; fails with `Failed` iff only one of the last three is missing; success removes exactly the family and its cascade and keeps the lineage invariant; otherwise nothing changes |
| DeleteEffects.DependentsExactly | apps/server/src/history/opencode.rs:915-935 | From every other table go exactly the rows that the plan recorded of it |
| DeleteEffects.EventsExactly | apps/server/src/history/opencode.rs:1386-1400 | Where cascades into the event tables are by session id, exactly the family's event and sequence rows go |
| DeleteEffects.OrderDetermined | apps/server/src/history/opencode.rs:1061-1111 | The plan determines the child-first order |
| DeleteEffects.DeepestFirst | apps/server/src/history/opencode.rs:1094-1104 | In the tables themselves: rows further below the root come first, equally deep ones of the table that is not the root's before those of its table, and those of one table by id |
| DeleteEffects.HeldForGoodFails | apps/server/src/history/opencode.rs:871 | A row that stays and refers by an immediate or deferred restricting key to one that would go makes the deletion fail, in whatever order ids are cleaned up |
| DeleteEffects.UnreferencedSucceeds | apps/server/src/history/opencode.rs:871 | Without any row that so refers to one that would go no statement is refused and COMMIT finds nothing dangling |
| DeleteEffects.RefusedByNote | apps/server/src/history/opencode.rs:1353-1358 | A note that refers to the root by a plain key, immediate or deferred: the plan is made and matches, and the deletion fails |
| Workspaces.Store.InsertWorkspace | apps/server/migrations/0004_workspaces.sql:1-15 | Refused iff the id exists or the active session has no id |
| Workspaces.Store.InsertMember | apps/server/migrations/0004_workspaces.sql:17-25 | Refused iff a key, foreign-key, uniqueness, position or empty-id constraint of the table says so |
| Workspaces.Store.SelectFirst | apps/server/src/workspace.rs:310-314 | The first member in fallback order, None iff the workspace is empty |
| Workspaces.FirstSeatUnique | apps/server/src/workspace.rs:533-540 | The fallback is unique, since positions are distinct |
| Workspaces.FirstSeatByPosition | apps/server/src/workspace.rs:310-314 | In plain positions: the selected member has the least position above the given one if some member has one, else the least of all; none iff nobody sits there |
| Workspaces.Store.Repair | apps/server/src/workspace.rs:507-557 | A valid active session stays; an invalid one becomes the member with the lowest position, or none |
| Workspaces.RepairPicksLowest | apps/server/src/workspace.rs:507-557 | In plain positions: an active session that sits there stays, any other gives way to a member whose position is at most every member's, or to none iff there is none |
| Workspaces.Store.InsertSingleton | apps/server/src/workspace.rs:559-575 | A new workspace with its only member at position 0 and active, iff the id and the member are new and the member has an id |
| Workspaces.Store.DropIneligible | apps/server/src/workspace.rs:470-492 | Exactly the seats of sessions that are not eligible go |
| Workspaces.Store.ReconcileTransaction | apps/server/src/workspace.rs:465-505 | The whole new state, up to the fresh ids; keeps the invariant; with fresh ids it succeeds iff no session without an id would get a seat |
| Workspaces.ReconcileMeetsEligible | apps/server/src/workspace.rs:465-505 | With no exclusion members equal the eligible set, survivors keep workspace and position, and workspaces are repaired |
| Workspaces.ReconcileFallsBack | apps/server/src/workspace.rs:465-557 | Workspace by workspace, from the tables alone: name and live active session are kept; a dead one gives way to the survivor with the least position, or to none iff nobody survives |
| WorkspaceRuns.FirstSurvivorTakesOver | apps/server/src/workspace.rs:533-540 | Seats 0, 1 and 2, the first active and dead: listing makes the session at 1 active |
| WorkspaceRuns.AgentsThenTerminals | apps/server/src/workspace.rs:494-503 | Three live sessions without workspaces get one each in the order agents by id, then terminals |
| Workspaces.ReconcileDeterministic | apps/server/src/workspace.rs:465-505 | The result does not depend on any set iteration order |
| Workspaces.ReconcileAgain | apps/server/src/workspace.rs:465-505 | Running it again changes nothing |
| Workspaces.Service.ListWorkspaces | apps/server/src/workspace.rs:93-128 | Listing reconciles or leaves the tables alone; with fresh ids the first iff every eligible session has an id |
| Workspaces.NameRefusedExactly | apps/server/src/workspace.rs:715-725 | A name is refused iff it is all white space or longer than 120 UTF-16 units without the white space around it; what is kept is the name without exactly that |
| Strings.TrimmedBetween | apps/server/src/workspace.rs:715-725 | What trimming keeps of a name is what lies between white space at both ends |
| Strings.Utf16Exactly | apps/server/src/workspace.rs:715-725 | The length of a name counts two for a character above U+FFFF and one for any other |
| Strings.WhiteSpaceExactly | apps/server/src/workspace.rs:715-725 | White space is the 25 code points of the Unicode Standard |
| Workspaces.Service.CreateWorkspace | apps/server/src/workspace.rs:130-158 | Each error case exactly, the name first; on success the members sit in request order in the new workspace and everyone they left is repaired |
| Workspaces.Service.SeatMembers | apps/server/src/workspace.rs:373-375 | No constraint refuses the members of a new workspace |
| Workspaces.Service.TakeMembers | apps/server/src/workspace.rs:342-359 | Takes exactly the requested members from wherever they sat |
| Workspaces.Service.AttachSession | apps/server/src/workspace.rs:224-278 | With ids that clash with nothing the outcome is decided exactly; success or refusal of a dead session leaves members equal to eligible; anything else leaves the tables alone |
| Workspaces.Service.NextPosition | apps/server/src/workspace.rs:252-258 | One past the highest position |
| Workspaces.Service.DropMember | apps/server/src/workspace.rs:280-332 | Only that seat goes; a removed active session is followed by the next member, else the first, else none |
| Workspaces.LeavingPicksNext | apps/server/src/workspace.rs:280-332 | In plain positions: a removed active session is followed by the member with the least position above its own, else by that with the least of all, or by none iff nobody is left |
| WorkspaceRuns.NextTakesOver | apps/server/src/workspace.rs:310-314 | Seats 0, 1 and 2: the session at 1 follows the one at 0, and that at 0 follows the one at 2 |
| Workspaces.Service.UpdateWorkspace | apps/server/src/workspace.rs:160-201 | Each refusal exactly, an invalid name included; on success only the given fields of that workspace change |
| Workspaces.Service.DeleteWorkspace | apps/server/src/workspace.rs:433-453 | The workspace and exactly its seats go |
| Workspaces.Service.Serve | apps/server/src/workspace.rs:93-453 | After any sequence of requests every member sits in one existing workspace, positions in a workspace differ, and every active session is a member of its workspace or none |
| PtyReader.FirstIsChar | apps/server/src/session/runtime.rs:357-364 | The decoder's whole pieces are exactly the UTF8-char grammar of section 4 of RFC 3629, and its short pieces the beginnings of a character |
| PtyReader.BrokenIsMaximalSubpart | apps/server/src/session/runtime.rs:378-389 | What one replacement character stands for is a maximal subpart in the sense of section 3.9 of the Unicode Standard |
| Utf8Numbers.CharsAreEncodings | apps/server/src/session/runtime.rs:357-364 | The decoder's characters are exactly the encodings of section 3 of RFC 3629 of the Unicode scalar values, one for each; the replacement is that of U+FFFD |
| Utf8Numbers.ValidByPieces | apps/server/src/session/runtime.rs:357-364 | Valid text is characters one after the other |
| PtyReader.CutSplitsAt | apps/server/src/session/runtime.rs:357-370 | Decoding splits where the reader cuts its buffer, for every continuation of the bytes at hand |
| PtyReader.ReadAll | apps/server/src/session/runtime.rs:341-376 | However the bytes are split into reads, the published texts concatenate to the lossy decoding of the bytes consumed, and of the whole stream after a zero-length read; otherwise the pending bytes are the backlog that the theorems below measure |
| PtyReader.HeldBackExactly | apps/server/src/session/runtime.rs:357-370 | After a read more valid text is certain (a beginning of the decoding of every continuation) than has been published, iff the check reports an error length and what follows that piece is neither empty nor the mere beginning of a character |
| PtyReader.HeldBackExample | apps/server/src/session/runtime.rs:357-370 | 0xFF and two letters: the letters are certain and wait |
| PtyReader.BacklogGrows | apps/server/src/session/runtime.rs:341-370 | n reads of k bytes 0xFF leave n * (k - 1) bytes pending |
| PtyReader.BacklogAfterRead | apps/server/src/session/runtime.rs:357-370 | What a read leaves pending is at most an unfinished character, of three bytes at most, iff no certain text is held back |
| PtyReader.WellFormedBacklog | apps/server/src/session/runtime.rs:341-370 | On well-formed text, however it is split into reads, the pending bytes are its unfinished last character, at most three |
| Utf8Numbers.WellFormedCanEnd | apps/server/src/session/runtime.rs:341-370 | Bytes are well-formed so far iff something can follow them that makes them valid text |
| PtyReader.Session.PublishOutput | apps/server/src/session/runtime.rs:378-389 | Publishes exactly the decoding; the scrollback stays valid UTF-8, a suffix of what was published and within the high-water mark |
| PtyReader.Session.TrimOutput | apps/server/src/session/runtime.rs:451-460 | Trims only past the high-water mark, to at most the limit and at least three bytes less, at a character boundary |
| PtyReader.BoundaryCut | apps/server/src/session/runtime.rs:455-459 | Cutting valid text at a character boundary leaves valid text |
| PtyReader.BoundaryNear | apps/server/src/session/runtime.rs:455-459 | A boundary is at most three bytes ahead, so the scan ends |
| PtyReader.LossyIsValid | apps/server/src/session/runtime.rs:378-389 | Lossy decoding always yields valid UTF-8 |
| Utf8Numbers.LossyByPieces | apps/server/src/session/runtime.rs:378-389 | Lossy decoding piece by piece: a character for itself, the unfinished end and every maximal subpart for EF BF BD |
| Publication.Disk.WriteEnvironment | apps/server/src/supervisor.rs:2654-2688 | Wherever it fails the file is the old or the new one: the new one iff the first two of its three operations went through, and success iff all three did |
| Publication.Disk.PointCurrent | apps/server/src/supervisor.rs:2690-2719 | Wherever it fails the link is the old or the new one: the new one iff the first two of its three operations went through, and success iff all three did |
| Publication.ValidateRelease | apps/server/src/supervisor.rs:2283-2317 | Accepts exactly a safe directory with a runnable regular executable, a regular index page and the expected layout hash |
| Publication.Disk.PublishRelease | apps/server/src/supervisor.rs:2335-2409 | Success means an entry that is safe, runnable and hashes to the expected hash: the copy, or a valid entry that was there before or that another process put there meanwhile; success is characterised exactly, by what can be published and which of its operations must not fail; other entries are untouched and every observable state of `current` leads to what it led to, to such an entry or to that of the other process |
| Publication.Disk.RenameRefused | apps/server/src/supervisor.rs:2392-2401 | When another process was faster its entry stays, and success means that it is valid |
| Publication.Disk.Swap | apps/server/src/supervisor.rs:2386-2404 | The exchange or rename installs the copy under the expected name at once |
| Publication.Disk.PublishInstall | apps/server/src/supervisor.rs:2222-2264 | Environment before unit before link, each old or new; at every step `current` leads to what it led to before, to a safe, runnable release hashing to the expected hash, or to what another process put there; success is characterised exactly, failures included; where something is foreign nothing changes |
| Publication.Disk.RestoreInstall | apps/server/src/supervisor.rs:361-395 | Success restores the captured files and link; it succeeds iff nothing in place is foreign and none of its operations fails |
| Publication.Disk.Capture | apps/server/src/supervisor.rs:307-333 | Refused iff a file or the link is foreign; otherwise captures exactly what is there |
| ManagedFiles.LinesExactly | apps/server/src/supervisor.rs:2001-2012 | `lines` ends a line at LF or CR LF, and what follows the last one is a line unless it is empty |
| ManagedFiles.UnitManagedExactly | apps/server/src/supervisor.rs:2001-2012 | A unit is recognised iff it has one line that begins with `Description=`, the program's, and one that begins with `X-DevHatch-Managed=`, the marker |
| ManagedFiles.EnvironmentManagedExactly | apps/server/src/supervisor.rs:2014-2019 | An environment file is recognised iff it has one line that sets the schema variable, the program's |
| ManagedFiles.ForeignExactly | apps/server/src/supervisor.rs:1990-1999 | A file is foreign iff it is there and is not a safe regular file of at most 128 KiB with those lines |
| ManagedFiles.CurrentExactly | apps/server/src/supervisor.rs:2021-2071 | The link is a managed one iff the user owns it, it leads to releases/ and 64 hexadecimal digits, and that is a directory; a managed invalid one otherwise when it leads to releases/ and a name |
| Utf8Numbers.TextSize | apps/server/src/supervisor.rs:2001-2012 | The size of a file is the number of bytes of its characters' encodings |
| ManagedFiles.ForeignUnitIsLeftAlone | apps/server/src/supervisor.rs:2228-2237 | A user's own unit of that name: capturing, publishing and restoring refuse it and leave files, link and releases as they are |
| InstallRuns.PublishedIsSource | apps/server/src/supervisor.rs:518-523 | A release that hashes to the source hash is the source tree, file for file, or else the two layouts are different streams with the same digest |
| InstallRuns.Install | apps/server/src/supervisor.rs:518-523 | Hashing the sources and publishing: without failures success is characterised exactly, and for unchanged sources it needs only a usable entry of that name; what `current` then leads to is the source tree, and a valid release iff the sources have an index page, or else a collision of the digest |
| InstallRuns.PublishesIncompleteRelease | apps/server/src/supervisor.rs:2283-2307 | For every source tree that has no index page any more and every digest: on an empty disk it is published and pointed to, and is not a valid release |
| UnitFile.UnitManaged | apps/server/src/supervisor.rs:558-567 | Whatever the paths, the unit text carries its description and its marker exactly once |
| UnitFile.UnitFits | apps/server/src/supervisor.rs:558-567 | With paths of at most 4096 bytes the unit text is within the read limit |
| UnitFile.UnitIsAccepted | apps/server/src/supervisor.rs:2001-2012 | The written unit is recognised as managed iff it fits the read limit, and always with such paths |
| UnitPaths.WordReadsBack | apps/server/src/supervisor.rs:2809-2824 | Escaping a path can be undone as systemd does, and leaves no blank at which a command line is split |
| UnitPaths.UnitNamesPaths | apps/server/src/supervisor.rs:558-567 | Read back from the text: one line sets the environment file, one the working directory, one runs the binary with the handoff path before the start, and one the binary with the environment |
| UnitPaths.UnitRefusedExactly | apps/server/src/supervisor.rs:2826-2850 | No unit is printed iff a path is not UTF-8, not absolute, or has a NUL, line feed or carriage return |
| InstallRuns.PrintedIsAccepted | apps/server/src/supervisor.rs:2001-2019 | What the printer writes is recognised as managed iff its UTF-8 length is within the read limit |
| InstallRuns.InstallThenRestore | apps/server/src/supervisor.rs:361-395 | Installing with any failures and then rolling back: when nothing fails from then on, the captured unit file, environment file and link are back iff a new environment file in place fits the read limit (and a new unit, as it does with paths that Linux resolves); nothing is touched when one of the two cannot be printed |
| InstallRuns.RollbackRefusesLongFile | apps/server/src/supervisor.rs:335-360 | For every context whose printed environment exceeds the limit: on an empty disk without failures it is published and rolling back is refused |
| InstallRuns.LongSearchPath | apps/server/src/supervisor.rs:525-556 | A search path of 98306 characters with backslashes makes the printed file exceed the limit |
| EnvironmentFile.ParseValue | apps/server/src/supervisor.rs:1589-1619 | The character loop accepts exactly the texts with a denotation and returns it |
| EnvironmentFile.QuoteUnquote | apps/server/src/supervisor.rs:2796-2802 | Quoting and unquoting are two-sided inverses between values without NUL, CR and LF and accepted texts |
| EnvironmentGrammar.QuotedAsWritten | apps/server/src/supervisor.rs:2796-2802 | A quotation mark and a backslash are escaped by a backslash inside quotation marks |
| EnvironmentFile.PrintEnvironment | apps/server/src/supervisor.rs:525-556 | Fails iff a path is not UTF-8 or a value has a forbidden character; otherwise prints the entries in order |
| EnvironmentFile.CollectOptional | apps/server/src/supervisor.rs:541-545 | The optional entries present, in allowlist order |
| EnvironmentFile.ParseEnvironment | apps/server/src/supervisor.rs:1544-1587 | Returns a map iff every line is accepted, the schema line and all required names occur, and the path check passes |
| EnvironmentGrammar.ParsesExactly | apps/server/src/supervisor.rs:1544-1587 | A file is accepted iff each line is the schema line or gives a variable of the allowlist a quoted value, the schema line occurs once, no variable is given two values, all required ones are given one and the path check passes; the order of the lines is free |
| EnvironmentFile.PrintParse | apps/server/src/supervisor.rs:1544-1587 | Parsing a printed file gives back exactly the supplied map, up to the path check, and the file is recognised as managed |
| EnvironmentFile.SuppliedExactly | apps/server/src/supervisor.rs:525-556 | The supplied names are the required ones and the allowlisted optional ones that the context has, with their values |
| EnvironmentFile.RequiredExactly | apps/server/src/supervisor.rs:525-556 | Each required variable has the value of its context field |
| EnvironmentFile.AcceptedIsManaged | apps/server/src/supervisor.rs:2014-2019 | Every file that the parser accepts carries the managed marker exactly once |
| HashLayout.HashRegularFile | apps/server/src/supervisor.rs:2583-2619 | Fails iff not a regular file; however the reads are sized, the hasher is fed tag, label, length and content |
| HashLayout.HashDirectoryLevel | apps/server/src/supervisor.rs:2546-2581 | Fails iff the tree holds anything but directories and regular files; otherwise feeds the records of the sorted depth-first listing |
| Sorting.ComesBefore | apps/server/src/supervisor.rs:2546-2556 | Names and ids are ordered by the smaller character, or none, where they first differ |
| HashLayout.HashLayoutOf | apps/server/src/supervisor.rs:2529-2544 | The bytes fed to the hash are the stream of the layout |
| ByteForms.LayoutBytes | apps/server/src/supervisor.rs:2529-2624 | The bytes of a server and a small tree: depth first by name, tags, lengths, full paths and contents |
| HashLayout.RecordPrefixFree | apps/server/src/supervisor.rs:2583-2624 | No record followed by anything can be read as another record followed by anything |
| HashLayout.LevelUnique | apps/server/src/supervisor.rs:2546-2581 | The records of a directory determine its names, its entries and where it ends |
| HashLayout.LayoutsEqual | apps/server/src/supervisor.rs:2529-2624 | The streams are equal iff the binaries and the web trees are: every path, directory and file content |
| Calendar.ClosedForm | apps/server/src/history/pi.rs:742-750 | The truncating era arithmetic is a sum over March-based years and months |
| Calendar.NextDayNumber | apps/server/src/history/pi.rs:742-750 | The next calendar day has the next number |
| Calendar.StrictlyIncreasing | apps/server/src/history/pi.rs:742-750 | Earlier valid dates have smaller numbers |
| Calendar.NumbersOrder | apps/server/src/history/pi.rs:742-750 | A valid date has the smaller number iff it comes first by year, month and day |
| Calendar.DayNumberCounts | apps/server/src/history/pi.rs:742-750 | A valid date has number n iff counting n days from 1970-01-01 reaches it |
| Timestamps.FieldsRoundTrip | apps/server/src/history/pi.rs:698-740 | A text in the upper-case shape of section 5.6 of RFC 3339, with any digits and any fraction, is read as the instant its fields denote iff month, day, hour, minute and second are in the parser's ranges (leap second included), and rejected otherwise |
| Timestamps.FractionDenotes | apps/server/src/history/pi.rs:726-736 | The fraction counts as milliseconds: its first three digits, missing ones as zeros |
| Timestamps.ReadsFraction | apps/server/src/history/pi.rs:698-740 | 1970-01-02T03:04:05.5Z is 97445500 milliseconds after the epoch |
| Timestamps.ReadsOffset | apps/server/src/history/pi.rs:698-740 | A leap second before the epoch at an offset of minus one and a half hours is 5400000 milliseconds after it |
| Timestamps.InstantRoundTrip | apps/server/src/history/pi.rs:698-740 | Formatting any millisecond instant whose local year is 0000 to 9999, with any offset, and reading it gives the instant back |
| TimestampGrammar.ReadsExactly | apps/server/src/history/pi.rs:698-740 | A string is read as an instant iff it is a date of three integers, a T, a clock of two integers and seconds with digits for a fraction, and Z or an offset in digits, the checked values in their ranges; the instant is the sum of its parts, which must fit 64 bits |
| Timestamps.DayOverflowsMonth | apps/server/src/history/pi.rs:698-750 | A day past the month's end is read as the date it runs over to |

## Left out

- SQL text, pragmas, connection pools, file identity, lock contention codes and process checks: a transaction is an atomic step, and `commits` says that COMMIT meets no error but those of foreign keys.
- Missing triggers as a state of their own: statements always fire them; a database without them is modelled by keeping the lineage table of before (`LineageRuns.PassCatchesUp`), and with an empty lineage table the delete triggers change nothing.
- NULL ids and column affinity: ids are strings, times are integers that do not overflow.
- Transaction.DeleteGenerations: a statement fails only by a restricting key; input and output errors, a mismatched foreign key and a trigger whose lineage table is missing are not modelled, and no table holds two equal rows.
- DeleteStore.Store.DeleteSession: a RESTRICT key is taken to refuse only for a row that stays; for a row that the same statement cascades away the outcome depends on the order in which the database visits rows.
- CascadeWalk.Walk: the three tables deleted from by id come in one order here and in a hash map's order in the program; the paths are the same. Collation and affinity in key comparisons are not modelled; a database with a key that cannot be matched to its parent's columns is one that planning refuses.
- DeleteEffects.EventsExactly: when a key from some other table cascades into the event tables, more than the family's rows may go with it.
- SessionTrees.Depth: the checked addition of the depth never overflows on a table that fits in memory.
- Merge.HistoryRows: the decorating columns of the result (title, directory, project) are part of `body`; no two rows of a session table or view have the same id; a view that cannot be prepared at all is an input or output error.
- Fingerprint.RowFingerprint: decoding errors other than an unknown type name.
- Workspaces.Service.CreateWorkspace: timestamps of rows, launch paths and the JSON response, which the outcome does not depend on.
- Workspaces.Service.AttachSession: when drawn ids collide with existing ones only the invariant and the rollback are stated, because the outcome then depends on which id collides.
- Workspaces.Service.DeleteWorkspace: the members' order in the reply and the ending of their sessions.
- PtyReader.ReadAll: terminal emulation, events to subscribers, the 8192-byte read buffer and a session dropped while it is read.
- Publication.Disk.PublishRelease: the digest is any function; what copying yields and what another process publishes meanwhile are parameters, and an empty directory put in the way is not one of them.
- Publication.Disk.PublishInstall: ownership, mode and hierarchy checks are single steps that may fail; systemctl, the handoff and enabling the unit are not modelled.
- UnitFile.UnitFits: that Linux resolves no path of more than 4096 bytes is a fact about the system.
- EnvironmentFile.ParseEnvironment: the path validation is a parameter; the 64 KiB limit of the file's reader is not part of it.
- HashLayout.HashLayoutOf: names that no file system hands out, and contents or paths of 2^64 bytes or more; SHA-256 itself.
- Timestamps.FieldsRoundTrip: lower-case `t` and `z`, which the parser does not accept; numeric timestamps.
- Agent history files, the session registry, settings, login, HTTP routing and the front end.
