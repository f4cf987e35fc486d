# Durable state of the OpenLia operator

The operator keeps a workspace, a usage ledger, managed instruction files and
backups on disk while it may fail or be killed between any two file operations.
This project models the parts that keep that state correct and proves what they
promise, for every input and every run.

- **Journaled apply** (`MigrationStates`, `MigrationJournal`, `MigrationSafety`,
  `MigrationFailures`, `MigrationStranded`, `MigrationEngine`, on `FileStore`). An approved revision is written to the live
  workspace file by file behind a journal and stored pre-images. The disk is the
  model's state; an apply or a reconcile is a relation between two disks, indexed by
  a trace that says how far it came and which errors it met. The class `Migration` performs the
  file operations, each of which may succeed, fail or be the last one, and is
  proved to stay within that relation. A state is written only where the table of
  transitions lets it be. `FileStore` refines one atomic write to
  create, write and rename.
- **Usage ledger** (`UsageLedger`, `UsageConservation`, `UsageCutIds`,
  `UsageCollector`). Cumulative counters arrive from two sources in any order,
  repeated or reset, and are booked against shared high-water marks. Costs are
  integers. A whole hash is injective; of a hash that is cut, the digits that are
  left count, whatever the hash function is.
- **Managed instructions** (`InstructionState`, `InstructionSafety`,
  `InstructionFiles`, `InstructionMerge`, `InstructionDiff`, `Lines`). A call is
  planned as a sequence of writes; `Instruction` performs the plan, which may stop
  after any prefix. The merge and the table of the diff are the code's own loops.
- **Backups** (`BackupTree`, `BackupArchive`, `BackupManifest`, `BackupExtract`,
  `BackupNames`, `BackupRules`, `BackupReplacement`, `BackupContents`, `RestoreSwap`,
  `BackupRestore`, `BackupSnapshot`, `BackupRetention`, `BackupPrune`,
  `BackupSchedule`). A tree is a datatype, an archive a sequence of members, a staging
  directory a map from paths. Filters, names, links and limits are also stated in
  terms of the texts themselves.
- **Line-oriented files** (`Texts`, `Quoting`, `YamlScalar`, `WorkspaceRegistry`,
  `PolicyLists`), **sizes** (`BackupSize`) and the **configuration file**
  (`ConfigValues`, `ConfigDocument`, `ConfigServices`): printers, parsers and scanners that must undo
  each other. Which characters beyond ASCII are printable is a parameter, so the
  results hold for every table of them.

Errors of single file operations and crashes are choices of the model
(`Environment`): each operation ends well, fails, or is the last one. Every class has
a constant `calm` that says that none of its operations fails or is the last, and the
contracts state what must happen then: a guarantee is not met by failing. The code
discards some errors; where a guarantee needs that such an error did not occur, the
contract names it (`Faultless`, `CleanApply`, `CleanReconcile`, `slipped`). What
such errors cost is stated in `MigrationFailures` and `MigrationStranded`, in the
exact conditions of `MigrationSafety`, in what a prune misread (`Misread`), in
whether a removal took effect (`gone`), and in the outcomes of `RestoreSwap`.

## What the proofs found

Where the code and the intention behind it differ, the model follows the code, and
the exact condition is proved.

- Retention: a corrupt archive uses up a position of the count, so fewer archives
  may be kept than asked for (`KeepsCountExactly`; `OneOfTwoIsKept` is a folder in
  which it happens). An archive that cannot be read for a moment counts as corrupt
  and may be removed; still, some archive that verifies always remains, as long as
  the listing misses none that verifies (`Prune`, `Operate`). The listing passes over
  an archive that it cannot look at, and its metadata then counts as left over: the
  only archive may lose it and verify no more (`MissedArchiveIsLost`). One whose
  creation time cannot be read loses its place (`UndatedArchiveIsRemoved`).
- Apply: a file that exists but cannot be read when its pre-image is taken is
  recorded as absent. A rollback that reports success, and a reconcile after a
  crash, if none of their writes fails unnoticed, restore the tree exactly when no
  change that is first on its path met such a file
  (`CleanRollbackExactly`, `CrashRestoredExactly`; `UnreadableFileIsDeleted`).
- Apply: pre-images stay on disk as long as the journal that needs them, except
  that an apply goes on after a reconcile whose own journal write failed, and
  erases them (`AttemptKeepsHeldExactly`). In the run `PreImagesErased`, after a crash
  between the journal and the state, no stored image gives a read error, and manual
  recovery is asked for all the same; where that journal write succeeds, it is asked
  for only on a read error (`WriteAheadOverRuns`, `RecoveryMeansUnread`).
- Apply: the error of the final journal write is discarded; if it failed, a reported
  success is taken back by the next reconcile, while the state says applied for good
  (`SuccessLastsExactly`, `SuccessTakenBack`).
- Apply: the database lets no migration go from applying to ready for review, and
  the code discards that refusal. So after a crash in the forward loop a reconcile
  that restores every file, and saves its journal, leaves the migration applying with
  no journal in progress (`RestoredIsReadyExactly`, `CrashStrandsExactly`,
  `StrandedAfterCrash`), which no command moves any more (`StateMovesExactly`,
  `FixedForever`); a recovery reports all the same that it is ready
  (`RecoverReportsReady`, `RecoveredIsReadyExactly`). An apply that succeeds or rolls
  back strands itself where its state was not taken (`StrandedByApplyExactly`).
- Ledger: a report whose error the loop does not catch ends the round, and every
  later round that lists it, before any row is imported (`Tick`, `Serve`).
- Ledger: the id of an event is cut at 512 characters, which leaves fewer than 64
  digits of the hash for report ids of more than 440 characters and none for those of
  504. Growth is dropped, although the mark takes it, exactly when an earlier
  delivery claimed the text that is left (`GrowthDroppedExactly`,
  `SecondTokenIsLost`).
- Instructions: a sync, keep, merge or reset that stops between a new baseline and
  the metadata makes every later call fail, and nothing else does (`StuckExactly`,
  `StuckForever`; `StoppedUpdateIsStuck`, `StoppedKeepIsStuck`). A reset checks the
  hash of the source but installs the staged snapshot
  (`ResetInstallsConfirmedExactly`, `ResetInstallsOlder`). The error of removing a
  snapshot is ignored, so that one that was withdrawn may stay staged and be installed
  by a later reset (`SyncStagesSourceExactly`, `ActionStagesSourceExactly`,
  `ResetInstallsWithdrawn`). A diff of texts that
  differ in the final newline only shows no change (`DiffShowsChangeExactly`,
  `FinalNewlineIsNotShown`).
- Backups: a generated file more than one directory deep is neither backed up nor
  kept on a restore (`DeepGeneratedFileIsLost`). A link that leaves its root and
  comes back is archived but refused at the restore (`RestorableLinkExactly`,
  `LinkAroundIsRefused`); so is every generated link of the running system
  that does not lead back to its own name, and then nothing is restored
  (`ReplacementExactly`, `KeptLinkIsRefused`). A snapshot is restored through a link to
  a directory that leads to one of its components (`LinkedComponentIsFollowed`).
  When the change record of a restore cannot be written, an error is reported
  although the restore stays in effect (outcome `Unrecorded` of `RestoreDurable` and
  `RestoreRoots`).
- Registry and policy: quoting escapes what unquoting does not undo
  (`FieldKeptExactly`, `ItemKeptExactly`, `HiddenCharacterIsLost`), so adding such an
  item again adds it a second time (`AppendOnceExactly`, `QuotedItemIsAddedTwice`).
- Configuration: a text with a space before a number sign is cut inside its quotes
  when it is read, and then nothing of the file can be read
  (`SpacedSignLosesDocument`); an item of a list with a comma and a path that is the
  home mark do not come back either (`SettingKeptExactly`, `CommaIsNotReadBack`,
  `HomeMarkIsExpanded`). A service may be called "name" or "source" and then becomes
  that field of its host (`ServicesRoundTripExactly`, `ServiceTakesField`).
- Sizes: a budget is read through binary64, so it comes back exactly when it is a
  binary64 number; 2^53 + 1 bytes is the first that does not
  (`SizeRoundTripExactly`, `FirstSizeLost`).

## Model

| member | source | states |
|---|---|---|
| FileStore.Store.AtomicWriteFile | operator/filesystem.go:57-97 | the visible tree gets the whole new content, as it always does when nothing goes wrong, or, on an error or a crash at any step, stays as it was; only temporary files of that destination can be left over |
| FileStore.Store.RemoveAll | operator/migration_apply.go:197 | a removal that fails leaves part of the tree, never anything new or changed |
| MigrationSafety.UndoExact | operator/migration_apply.go:334-355 | after an undo a path is as before exactly when it already was or some operation on it was undone without an error |
| MigrationSafety.ReconcileExact | operator/migration_apply.go:418-442 | an undo restores the earlier tree exactly when every path that differs has an operation that was undone without an error |
| MigrationSafety.UndoKeepsWriteAhead | operator/migration_apply.go:418-442 | an undo cut off anywhere leaves pre-images and live tree such that the earlier tree is still determined |
| MigrationSafety.AdvanceIsOverlay | operator/migration_apply.go:291-326 | the forward loop gives the overlay of the revision: the last change of a path decides, other paths keep what they held |
| MigrationSafety.CaptureExact | operator/migration_apply.go:202-244 | the recorded operations tell the truth about the live tree exactly when no existing file gave a read error |
| MigrationSafety.ReconcileKeepsSound | operator/migration_apply.go:393-472 | without a discarded error, a reconcile, also one that dies, keeps the disk settled or determining the settled tree; one that completes leaves that tree; because every pre-image is held it never asks for manual recovery |
| MigrationSafety.ApplyKeepsSound | operator/migration_apply.go:246-389 | the same for an apply; success leaves the overlay of the revision under an applied journal, a rollback leaves the earlier tree and loses no pre-image |
| MigrationSafety.UndoRestoresExactly | operator/migration_apply.go:334-355 | undoing recorded operations gives back the earlier tree exactly when none of them that is the first on its path overlooked an existing file |
| MigrationSafety.RolledBackExactly | operator/migration_apply.go:328-378 | undoing only the operations that were carried out restores the whole earlier tree exactly when none of those, first on its path, overlooked a file |
| MigrationSafety.CleanRollbackExactly | operator/migration_apply.go:328-378 | the same of every rollback that is reported as clean, when no write of its undo failed unnoticed |
| MigrationSafety.CrashRestoredExactly | operator/migration_apply.go:246-472 | after a crash, any reconciles that die and one that restores, and no error in the last, the tree is as before exactly when no change at all that is first on its path, carried out or not, overlooked a file |
| MigrationSafety.RunIsSound | operator/migration_apply.go:53-597 | over every run of edits, applies, failures, crashes, reconciles, recoveries and other commands, without a discarded error, the disk is settled or alone determines the settled tree, and manual recovery is never asked for |
| MigrationSafety.CrashThenReconcile | operator/migration_apply.go:246-472 | an apply that dies anywhere, then any number of reconciles that die, then one that completes: the live tree is as before, or the overlay if the journal says applied |
| MigrationFailures.WriteAheadOverRuns | operator/migration_apply.go:197-285 | over every run with any errors, as long as each reconcile that lets an apply go on wrote its journal, a journal in progress has all of its pre-images on disk, equal to the tree at the capture |
| MigrationFailures.RecoveryMeansUnread | operator/migration_apply.go:393-472 | in those runs manual recovery is asked for only when a pre-image that is on disk could not be read |
| MigrationFailures.ReconcileRecordsExactly | operator/migration_apply.go:418-472 | a reconcile that completes marks exactly what could not be undone as failed and all else as rolled back, and fails the journal and asks for manual recovery exactly when there is such an operation |
| MigrationFailures.ForcedRecordsExactly | operator/migration_apply.go:530-592 | a forced rollback marks as rolled back exactly what it undid, and the journal in any case |
| MigrationFailures.AttemptKeepsHeldExactly | operator/migration_apply.go:53-200 | after a reconcile that restored, an attempt keeps the pre-images of a journal in progress exactly when that journal was written, or the state is not ready, or no operation had a file before |
| MigrationFailures.PreImagesErased | operator/migration_apply.go:79-200 | a run of a crash between journal and state, an attempt and a reconcile that ends in a demand for manual recovery although no stored pre-image gave a read error |
| MigrationFailures.SuccessLastsExactly | operator/migration_apply.go:380-389 | after a reported success the next reconcile leaves the revision in place exactly when the final journal write succeeded |
| MigrationFailures.SuccessTakenBack | operator/migration_apply.go:380-472 | a concrete success whose tree the next reconcile takes back, while the state stays applied |
| MigrationFailures.UnreadableFileIsDeleted | operator/migration_apply.go:229-242 | a concrete apply in which a read error other than absence leads to a clean rollback that deletes an existing file |
| MigrationStranded.StateMovesExactly | operator/migration/db.go:162-201 | some event, of any command, may change the state exactly when it is not final and not applying without a pre-image that can be lost |
| MigrationStranded.FixedForever | operator/migration/db.go:162-201 | otherwise every further event, however many, leaves it; a stranded migration stays stranded |
| MigrationStranded.ApplyMovesExactly | operator/migration_apply.go:53-150 | an apply or a reconcile may change journal or state exactly when the journal is in progress or the state is ready for review |
| MigrationStranded.StrandedByApplyExactly | operator/migration_apply.go:371-389 | an apply leaves a migration applying with no journal in progress exactly when its final journal was written and the database took no state after it: none was written, or, after a rollback that was not marked, the last one was refused |
| MigrationStranded.StrandedByReconcileExactly | operator/migration_apply.go:463-468 | a reconcile does exactly when the state was applying, the journal was closed, and nothing was lost or that was not recorded |
| MigrationStranded.RestoredIsReadyExactly | operator/migration_apply.go:463-468 | a reconcile that restores everything and meets no error makes the migration ready exactly when the table allows it, and strands it exactly when it was applying |
| MigrationStranded.CrashStrandsExactly | operator/migration_apply.go:246-472 | a crash of an apply, any reconciles that die, and one that restores: stranded exactly when the apply had marked itself applying and not yet rolling back |
| MigrationStranded.RecoveredIsReadyExactly | operator/migration_apply.go:475-597 | a recovery whose state write reaches the database makes the migration ready exactly from these states |
| MigrationStranded.StrandedAfterCrash | operator/migration_apply.go:246-472 | a concrete crash before the first operation, and a reconcile without any error |
| MigrationStranded.RecoverReportsReady | operator/migration_apply.go:574-592 | a recovery of a stranded migration that reports it ready and leaves it stranded |
| MigrationStranded.StrandedAfterSuccess | operator/migration_apply.go:380-389 | a concrete apply that succeeds and dies there |
| MigrationStranded.StrandedAfterRollback | operator/migration_apply.go:328-378 | a concrete clean rollback that could not be marked before, and whose last state is refused |
| MigrationEngine.Migration.ReconcileInterruptedApply | operator/migration_apply.go:393-472 | the method, file operation by file operation, is a reconcile step of the disk; when nothing goes wrong it completes, and asks for manual recovery exactly when a pre-image is missing |
| MigrationEngine.Migration.UpdateState | operator/migration/db.go:246-261 | a state write takes effect exactly when it reaches the database and the table of transitions allows it; when nothing goes wrong it reaches it |
| MigrationEngine.Migration.CheckLive | operator/migration_apply.go:151-193 | the first change whose path is not safe or whose live file is not what the revision was made against decides, as unsafe or as stale; the check goes through exactly when there is none; only a failed read or question may turn the answer |
| MigrationEngine.Migration.CheckFile | operator/migration_apply.go:165-192 | one live file passes exactly when it holds the content with the hash that the change names, or, for an added file, is not there; one that could not be read does not pass, and one whose presence could not be asked for does |
| MigrationEngine.Migration.CapturePreImages | operator/migration_apply.go:195-244 | the operations describe the live tree, and every earlier content is stored before the journal is written |
| MigrationEngine.Migration.Execute | operator/migration_apply.go:287-326 | the loop stops at the first error with exactly the counted operations carried out |
| MigrationEngine.Migration.TakeBack | operator/migration_apply.go:328-378 | the in-process rollback undoes the counted operations downwards, notices every lost pre-image, and ends in the journal that follows and in the state that the database lets follow |
| MigrationEngine.Migration.ApplyRevision | operator/migration_apply.go:53-389 | an attempt, from its own reconcile to the final state, is a step of the run whose safety is proved; it is refused exactly when the state is not ready or a check outside fails, and stale only if a change does not pass; when nothing goes wrong a revision whose changes pass is applied |
| MigrationEngine.Migration.RecoverMigration | operator/migration_apply.go:475-597 | a forced rollback or a declaration that all is settled is a recovery step: it undoes what pre-images are there, closes the journal, and reports ready whatever the database says |
| UsageConservation.GrowthIsNew | docker/openlia_usage.py:92-113 | a mark that grows has an event id that no event has, so it is not ignored |
| UsageConservation.DeliverKeepsConsistent | docker/openlia_usage.py:224-294 | every booked mark of a key lies below its checkpoint, whatever is delivered |
| UsageConservation.DeliverConserves | docker/openlia_usage.py:224-294 | what one delivery books and what it leaves unbooked add up to the growth of the checkpoint |
| UsageConservation.ConservationExact | docker/openlia_usage.py:224-294 | over every run from any consistent ledger, booked and unbooked amounts together are the growth of the checkpoint |
| UsageConservation.HighIsLargest | docker/openlia_usage.py:224-294 | for every kind, the checkpoint of a key is the largest number with which any accepted delivery to it arrived, or zero |
| UsageConservation.SameSourceExactly | docker/openlia_usage.py:69-71 | rows count for one key exactly when their six columns agree, absent and empty being the same |
| UsageConservation.RowEventRecords | docker/openlia_usage.py:240-261 | the event of a row, kind by kind: by how much the number that arrived, if positive, exceeds what was stored; its activity and whether it is historical |
| UsageConservation.ReportEventRecords | docker/openlia_usage.py:276-292 | the same of a cumulative report |
| UsageConservation.SingleEventRecords | docker/openlia_usage.py:92-113 | the event of a report that is not cumulative holds the numbers that arrived |
| UsageConservation.RowDeliversExactly | docker/openlia_usage.py:224-262 | one row: every mark becomes the larger of stored and shown, and an event is added exactly when some number grew, its id is new, and the row is not one that an earlier release recorded |
| UsageConservation.ReportDeliversExactly | docker/openlia_usage.py:265-296 | one cumulative report: the same for the key that it names; one that grows and names no activity changes nothing |
| UsageConservation.Conservation | docker/openlia_usage.py:224-294 | whatever the order, repetition, reset or mixture of both sources, the sum over booked events is the largest number that ever arrived, for every kind |
| UsageConservation.SameDeliveriesSameTotals | docker/openlia_usage.py:224-294 | two runs with the same deliveries, in any order and number, book the same totals |
| UsageConservation.RedeliveryChangesNothing | docker/openlia_usage.py:265-301 | delivering again anything delivered before, however much later, leaves the ledger as it is |
| UsageCutIds.CutIdsCollideExactly | docker/openlia_usage.py:92-113 | two marks of a report whose id is cut share an event id exactly when the digits that are left coincide |
| UsageCutIds.HeldExactly | docker/openlia_usage.py:265-301 | over every run from the empty ledger an event id is taken exactly when an earlier delivery claimed it |
| UsageCutIds.GrowthDroppedExactly | docker/openlia_usage.py:265-301 | a growing report is dropped from the events, while its checkpoint rises, exactly when an earlier delivery claimed the text that is left of its id; never if the id fits |
| UsageCutIds.SecondTokenIsLost | docker/openlia_usage.py:265-301 | two concrete reports with an id of 504 characters, of which the second token is never booked |
| UsageCollector.Collector.ImportRow | docker/openlia_usage.py:224-262 | the statements for one row amount to its delivery, of which RowDeliversExactly speaks |
| UsageCollector.Collector.ImportHermes | docker/openlia_usage.py:213-263 | an import delivers the rows in order up to where it stopped, and all of them when nothing goes wrong |
| UsageCollector.Collector.ImportReports | docker/openlia_usage.py:265-301 | each report is committed and then unlinked; whatever stops it, every file is still there or was delivered; unless killed, it is given up exactly when a listed file blocks it or could not be looked at |
| UsageCollector.Collector.Tick | docker/openlia_usage.py:340-354 | a round, crashed or not, leaves a committed ledger that is its deliveries applied to the earlier one; unless killed, it comes to its rows exactly when no listed file blocks it and all could be looked at |
| UsageCollector.Collector.InsertDirectly | docker/openlia_usage.py:116-150 | an event inserted by another process is a delivery in a transaction of its own |
| UsageCollector.Collector.Serve | docker/openlia_usage.py:340-374 | after any number of rounds and restarts, with reports published and events inserted by others in between, every published file is there, replaced or delivered, and conservation holds of the committed ledger; while a blocking file is listed by every round and not replaced, no row is imported; when nothing goes wrong every listed report that is not blocked comes in |
| InstructionDiff.LcsIsUpperBound | operator/instructions.go:437-451 | no common subsequence is longer than the recurrence says |
| InstructionDiff.LcsIsAttained | operator/instructions.go:437-451 | and some common subsequence is as long |
| InstructionDiff.KeptIsCommon | operator/instructions.go:452-469 | the kept lines of any script are common to both of its texts, and its length is what both lengths and the kept lines leave |
| InstructionDiff.ScriptIsMinimal | operator/instructions.go:452-469 | a script with that many kept lines is no longer than any other between the same texts |
| InstructionDiff.FillTable | operator/instructions.go:437-451 | the table holds, for every pair of suffixes, the length of a longest common subsequence |
| InstructionDiff.DiffLines | operator/instructions.go:452-469 | the walk spells exactly the old and the new lines and is as short as any script |
| InstructionDiff.SimpleInstructionDiff | operator/instructions.go:431-470 | the text is empty for equal texts and else two header lines and lines of which those with a blank or a minus sign are, without it, the old lines in order, and those with a blank or a plus sign the new lines; there are as few as possible |
| InstructionDiff.DiffShowsChangeExactly | operator/instructions.go:431-470 | the diff shows a change exactly when the texts differ beyond the final newline |
| InstructionDiff.FinalNewlineIsNotShown | operator/instructions.go:431-470 | of two concrete texts that differ in the final newline every shortest script shows no change |
| InstructionMerge.MergeInstructionLines | operator/instructions.go:572-597 | texts of one shape merge line by line exactly when no line was changed differently by both sides; other shapes only by the three shortcuts |
| InstructionMerge.MergeIsUnique | operator/instructions.go:572-597 | that contract leaves one result |
| InstructionMerge.MergeIsSymmetric | operator/instructions.go:572-597 | local and upstream may be exchanged, whatever the shapes and the outcome |
| InstructionMerge.MergeAbsorbs | operator/instructions.go:572-597 | whatever the shapes, merging a result with either side again gives the result |
| InstructionSafety.RunIsTrusted | operator/instructions.go:208-331 | over every run, wherever calls stop, a managed file has a shipped baseline and what is staged was shipped |
| InstructionSafety.SyncOverwritesOnlyShipped | operator/instructions.go:208-331 | a sync, wherever it stops, replaces target text only if that text was shipped |
| InstructionSafety.SyncOutcome | operator/instructions.go:208-331 | the five files that a completed sync leaves, whether or not the removal of what was staged took effect |
| InstructionSafety.SyncIsIdempotent | operator/instructions.go:208-331 | a second sync reports the same without an update and changes at most the staged snapshot: nothing exactly when it stages one, has none to remove or fails to |
| InstructionSafety.ActionOutcome | operator/instructions.go:472-568 | what keep, merge and reset leave in each file, and the ownership |
| InstructionSafety.ActionSettlesExactly | operator/instructions.go:472-568 | after a review action the next sync has nothing to report exactly when the text the action worked with is the source |
| InstructionSafety.SyncStagesSourceExactly | operator/instructions.go:208-331 | after a completed sync that text is the source, until another is distributed, exactly when the sync staged it, the removal took effect, or it was the source already |
| InstructionSafety.ActionStagesSourceExactly | operator/instructions.go:480-568 | the same after a completed action |
| InstructionSafety.ResetInstallsConfirmedExactly | operator/instructions.go:480-505 | a reset leaves the confirmed text exactly when the staged snapshot is the source |
| InstructionSafety.ResetInstallsOlder | operator/instructions.go:480-505 | a concrete reset, confirmed for one text, that installs an older one |
| InstructionSafety.ResetInstallsWithdrawn | operator/instructions.go:208-568 | a concrete sync that reports nothing to review, cannot remove a withdrawn snapshot, and a reset that installs it |
| InstructionSafety.StuckExactly | operator/instructions.go:208-568 | any call, of sync, keep, merge or reset, leaves the instruction stuck exactly when it wrote a different baseline and stopped before the metadata |
| InstructionSafety.InterruptedUpdate | operator/instructions.go:271-331 | for an update of a managed file these are the stops after two writes and before the last |
| InstructionSafety.StoppedUpdateIsStuck | operator/instructions.go:271-331 | a concrete update that stops there |
| InstructionSafety.StoppedKeepIsStuck | operator/instructions.go:480-568 | a concrete confirmed keep that stops after its first write |
| InstructionSafety.StuckForever | operator/instructions.go:208-331 | once stuck, every later sync fails, whatever edits, actions and upgrades come between |
| InstructionFiles.Instruction.Sync | operator/instructions.go:208-331 | the method performs a prefix of the planned writes, all of them if it reports success and when nothing goes wrong; the error of a removal goes unnoticed |
| InstructionFiles.Instruction.Mutate | operator/instructions.go:472-568 | a request is answered with a conflict exactly when it is a confirmed merge and some line was changed differently by both sides, or the shapes differ and no shortcut applies; an unconfirmed or conflicting one changes nothing; a confirmed one performs a prefix of its plan, all of it when nothing goes wrong |
| BackupTree.FlattenSelects | operator/backup_archive.go:16-97 | the walk takes a path exactly when the filter takes it and every directory on the way |
| BackupArchive.Writer.Add | operator/backup.go:63-74 | a member is accepted exactly when the whole archive with it is within the limits of number, size, total, depth, names and links |
| BackupArchive.Writer.Append | operator/backup_archive.go:16-97 | the walk succeeds exactly when all of its members fit, and then has written exactly those |
| BackupArchive.Inspect | operator/backup_archive.go:437-475 | the counting loop accepts exactly the members that are within the limits and under a component |
| BackupManifest.InspectArchive | operator/backup_archive.go:327-420 | an archive is accepted exactly when it has one manifest, small enough and of a supported schema and kind, that precedes the data unless it is of the first schema, and all members are within the limits and allowed where they stand |
| BackupManifest.AcceptableExactly | operator/backup_archive.go:327-435 | the same with every name, kind, schema and number written out, independent of the tests of the loop |
| BackupManifest.ManifestThenData | operator/backup_archive.go:327-435 | with a manifest of the second schema first, the archive is accepted exactly when the members are readable for its components |
| BackupArchive.WriterAndReaderAgree | operator/backup_archive.go:327-420 | an archive that the writer may finish is one the reader accepts, and the other way round |
| BackupNames.SafeMemberExactly | operator/backup_archive.go:273-279 | a name is admitted exactly when it has no control character, at most 31 slashes, and no segment that is empty, a dot or two dots |
| BackupNames.SafeLinkExactly | operator/backup_archive.go:238-245 | a link is admitted exactly when its target is a relative, printable text that leads, part by part, to a place under the first segment of its name |
| BackupNames.WithinLimitsExactly | operator/backup.go:50-74 | the limits of an archive in numbers of members and bytes |
| BackupReplacement.ParentsPrecede | operator/backup_archive.go:16-97 | in an archive of both roots every directory comes before what it holds |
| BackupArchive.CreateArchive | operator/backup.go:335-372 | both roots through one set of limits: success exactly when the members fit, and then the reader accepts them |
| BackupExtract.Extract | operator/backup_archive.go:437-504 | extraction checks every member and creates directories, files and links in order, with the errors of each |
| BackupExtract.ExtractWalk | operator/backup_archive.go:437-504 | extracting the members of a walk into free space rebuilds the walked part of the tree |
| BackupExtract.DurableRoundTrip | operator/backup.go:335-372 | a durable backup that was written extracts, without an error, to what the two walks select |
| BackupExtract.RestoredExactly | operator/backup_archive.go:437-504 | path by path below either root, the extracted tree holds an entry exactly when the walk took it and every directory above it, and the same entry |
| BackupRules.DurableIsNotGenerated | operator/backup_archive.go:99-193 | of either root, no path of one kind is both backed up and kept; what each filter takes is stated by HermesTakesExactly and MetaTakesExactly |
| BackupRules.GeneratedKeptExactly | operator/backup.go:708-773 | of either root, a restore selects a current entry to be kept exactly when it is generated, not passed over and at most one directory deep |
| BackupContents.HermesTakesExactly | operator/backup_archive.go:99-145 | a path of the data root is taken exactly when none of ten reasons to leave it out holds, each stated on the text of its parts |
| BackupContents.MetaTakesExactly | operator/backup_archive.go:146-193 | the same of the metadata root |
| BackupContents.BackedUpExactly | operator/backup_archive.go:16-193 | a durable backup has a member at a path of either root exactly when a file, a link or a directory is there and there is no reason to leave out the path or a directory above it, and then the member holds it |
| BackupReplacement.ArchivedExactly | operator/backup.go:780-832 | the walk over the extracted tree fails exactly when a link is not admitted under the other root name, and else rebuilds the whole tree |
| BackupReplacement.CopyAllExactly | operator/backup.go:708-773 | the walk over the running tree succeeds exactly when every entry fits on what is there, and then lays the entries that are not passed over on it |
| BackupReplacement.ThroughOnlyLinks | operator/backup.go:708-773 | the copy ends at a link exactly when the first entry that does not fit is a directory that meets one |
| BackupReplacement.BuildExactly | operator/backup.go:688-706 | for any extracted and any running tree, both walks together |
| BackupReplacement.ReplacementExactly | operator/backup.go:688-832 | for a tree that was backed up, the replacement is built exactly when all archived and all kept links pass and no path is in both parts, and is their disjoint union |
| BackupReplacement.KeptByPath | operator/backup.go:708-773 | path by path, the kept part is what is selected to be kept |
| BackupRules.DeepGeneratedFileIsLost | operator/backup_archive.go:99-193 | a file two or more directories below the backups or the locks of a system is in neither part |
| BackupRules.RestorableLinkExactly | operator/backup.go:780-832 | an archived link passes again when the tree is rebuilt exactly when its way never climbs out of the root |
| BackupSnapshot.CreateRollback | operator/backup.go:107-189 | the archive holds the members of all components that exist, if there are components, all names are safe, those of absent components too, and the reader accepts the members |
| BackupSnapshot.Runtime.RestoreRollback | operator/backup.go:836-940 | a success that follows no link leaves the tree in which every component has been moved in from the extracted archive; a link on the way to a component is an outcome of its own; when nothing goes wrong it succeeds exactly when the moves can |
| BackupSnapshot.ExtractSnapshot | operator/backup_archive.go:437-504 | extraction of a snapshot always succeeds and puts each component in place, with the directories that lead to it |
| BackupSnapshot.RestoreSnapshot | operator/backup.go:896-937 | the moves succeed, following no link, exactly when only directories lead to the captured components and no link to any |
| BackupSnapshot.SnapshotRoundTrip | operator/backup.go:834-937 | snapshot, any changes, restoration: it succeeds, following no link, exactly when only directories lead to the captured components and no link to any; then each component is as captured, those absent then are gone, all else is as it was but for directories made to lead to a component |
| BackupSnapshot.LinkedComponentIsFollowed | operator/backup.go:910-930 | a concrete tree in which a link leads to the component |
| RestoreSwap.Swap.Exchange | operator/backup.go:576-602 | both loops over the roots: all replaced, as they are when nothing goes wrong, or, unless an undo step failed, all as before up to the record of the failure, which is there whenever the second loop fails and nothing else goes wrong; no tree of the start is ever lost |
| RestoreSwap.Swap.RestoreRoots | operator/backup.go:565-618 | a failure before the change record puts every root back, up to a record of it; a failure of the record does not, and a second one is tried; in every outcome, crashes included, each old tree is still on disk |
| RestoreSwap.Swap.RestoreDurable | operator/backup.go:639-686 | the same for the two durable roots, whatever their replacements are, up to the final removal of the old trees |
| BackupRestore.BuildDurableReplacement | operator/backup.go:688-832 | the two loops compute that replacement |
| BackupRestore.RestoreDurableBackup | operator/backup.go:621-686 | nothing changes unless both replacements are built; a success has both of them live, with the runtime metadata and state written; a failure before the change record leaves both running trees; no old tree is lost before the end |
| BackupRestore.DurableRestoreExactly | operator/backup.go:621-832 | for both roots of a durable backup, when a replacement is built and what it is, part by part; RestoredByPath says what it is without the filters |
| BackupContents.RestoredByPath | operator/backup.go:688-832 | after a backup and a restore every path of either root that there was no reason to leave out is back as it was, what the next start writes again is as in the running system, and nothing else is there |
| BackupRestore.LinkAroundIsRefused | operator/backup.go:780-832 | a concrete link that is archived and makes every restore of that archive fail |
| BackupRestore.KeptLinkIsRefused | operator/backup.go:741-750 | a concrete link of the running system over which no archive can be restored |
| RestoreSwap.Swap.ReplaceDirectory | operator/filesystem.go:136-179 | a directory ends as the new tree or as the old one, and a crash leaves the old one on disk or the new one live |
| BackupRetention.OneOrder | operator/backup_prune.go:144-151 | the same archives have one newest-first order only |
| BackupRetention.NewerExactly | operator/backup_prune.go:144-151 | the later time comes first, and of equal times the name with the greater byte, or that goes on, where the two first differ |
| BackupRetention.RetainsOneRun | operator/backup_prune.go:167-221 | the run of archives that may be kept is determined by the listing and the limits |
| BackupRetention.SecondPruneKeepsAll | operator/backup_prune.go:167-221 | the limits keep all of a run that they kept once |
| BackupRetention.KeepsCountExactly | operator/backup_prune.go:180-197 | with room enough, as many archives are kept as asked for exactly when no newer one was corrupt or one was asked for |
| BackupPrune.BackupFolder.SortByNewest | operator/backup_prune.go:144-151 | the listing sorted newest first, the later name first among equal times |
| BackupPrune.BackupFolder.FindProtected | operator/backup_prune.go:167-179 | the newest archive that verifies, or that none does, up to read errors |
| BackupPrune.BackupFolder.CutToBudget | operator/backup_prune.go:198-221 | archives go from the old end until the budget is met; what is left is the longest run that fits, never without the protected one |
| BackupPrune.BackupFolder.Prune | operator/backup_prune.go:78-258 | a completed prune leaves exactly the longest newest-first run from the newest verified archive within count and budget, of the archives as they were read; if none verifies no archive goes; a verified archive remains exactly when there was one that the listing did not miss or whose metadata was spared; when nothing goes wrong it completes, and finds none exactly when none verifies |
| BackupPrune.BackupFolder.Operate | operator/backup.go:406-433 | any number of backups and prunes, each failing or cut off anywhere: once an archive verifies, some archive always does, as long as no listing misses one that verifies; when nothing goes wrong every operation does what it is for |
| BackupPrune.SecondPruneRemovesNothing | operator/backup_prune.go:78-258 | a second prune after a completed one, without read errors, removes nothing |
| BackupPrune.OneOfTwoIsKept | operator/backup_prune.go:180-197 | a concrete folder with two verified archives of which a completed prune to two keeps one |
| BackupPrune.MissedArchiveIsLost | operator/backup_prune.go:110-166 | a concrete folder whose only archive is missed by the listing and loses its metadata |
| BackupPrune.UndatedArchiveIsRemoved | operator/backup_prune.go:260-271 | a concrete folder in which the newest archive goes because its creation time could not be read |
| BackupSchedule.SearchFindsLatest | operator/backup_schedule.go:76-104 | the slot at which the search stops is the latest that is due, also among the slots on whole minutes up to now itself |
| BackupSchedule.Scheduler.FindDue | operator/backup_schedule.go:86-98 | the search takes at most 100000 slots, none later than now, and stops early only before a later one |
| BackupSchedule.Scheduler.Tick | operator/backup_schedule.go:46-126 | the slot is saved before its backup starts, later than any slot taken, not later than now, and the latest due within the search; a slot on a whole minute not later than now is due; when nothing goes wrong the tick is idle or starts its backup |
| BackupSchedule.Scheduler.Run | operator/backup_schedule.go:46-126 | over any sequence of times, with crashes and clocks that go back, started slots strictly increase and none starts early |
| Lines.SplitOfJoin | operator/instructions.go:572-597 | splitting undoes joining |
| Lines.UnixTextExactly | operator/feature.go:378 | every pair of carriage return and line feed becomes a line feed, and nothing else changes |
| YamlScalar.StripInlineComment | operator/feature.go:1805-1824 | the scan with two quote flags cuts at the first comment mark outside quotes |
| YamlScalar.CommentAtExactly | operator/feature.go:1805-1824 | a comment begins at the first number sign that no pair of quotes encloses and that begins the value or follows a blank or a tab |
| YamlScalar.FormatExactly | operator/feature.go:1859-1867 | a value is written bare exactly when it is not empty and has none of the listed characters, or has an arrow between blanks |
| YamlScalar.FieldKeptExactly | operator/feature.go:1794-1867 | a value after its key comes back exactly when it has nothing to escape, if quoted, and, if bare, nothing that is trimmed, unquoted, a comment or null |
| YamlScalar.ItemKeptExactly | operator/feature.go:1794-1867 | the same for a list item, in which no comment is looked for |
| YamlScalar.HiddenCharacterIsLost | operator/feature.go:1826-1867 | a quoted value with a character that is not printable does not come back |
| WorkspaceRegistry.RenderWorkspaceRegistry | operator/feature.go:340-446 | the text that is rendered for clean domains is parsed as those domains |
| WorkspaceRegistry.ParseWorkspaceDomains | operator/feature.go:377-433 | the loop with its flags, the open domain and the open list folds the reading of one line over all lines |
| WorkspaceRegistry.ReadDomain | operator/feature.go:340-433 | wherever the parser is inside the domains, the lines of a clean domain close the one before and are read as that domain |
| WorkspaceRegistry.RegistryRoundTrip | operator/feature.go:340-446 | parsing a rendered registry gives the same domains, for every list of clean domains |
| WorkspaceRegistry.NotesAreSkipped | operator/feature.go:377-433 | blank lines and comments may be put in or left out anywhere |
| WorkspaceRegistry.InlineListIsRead | operator/feature.go:1839-1857 | a list between brackets on one line gives its items back |
| PolicyLists.AppendBlockListItems | operator/feature.go:1542-1621 | the scanner inserts the missing items after the last item of the first matching list, and reports whether anything changed |
| PolicyLists.RemovePolicyDomains | operator/feature.go:1623-1665 | the second scanner drops exactly the items to remove, in every matching list |
| PolicyLists.AppendIsIdempotent | operator/feature.go:1542-1621 | old lines stay, in order, around the new ones; items that read back are all in the list afterwards, and adding them again changes nothing |
| PolicyLists.AppendOnceExactly | operator/feature.go:1542-1621 | adding one item twice is adding it once exactly when there is no list, it is there already, or it reads back as itself |
| PolicyLists.QuotedItemIsAddedTwice | operator/feature.go:1542-1621 | a concrete policy file and item with a double quote, added once more by every addition |
| PolicyLists.RemoveAfterAppend | operator/feature.go:1542-1665 | removing items after adding them is removing them without adding them |
| PolicyLists.RestoredExactly | operator/feature.go:1542-1665 | the original lines come back exactly when no requested item was in any matching list before |
| PolicyLists.RemovedFromFile | operator/feature.go:1521-1665 | removing items from the policy file after adding them is removing them without adding them |
| PolicyLists.FileIsRestoredExactly | operator/feature.go:1521-1665 | the original text comes back exactly when no requested item was in any matching list before, for files without carriage returns |
| Quoting.UnquoteUndoesQuote | cli/config.go:556-561 | unquoting undoes quoting, for every text and every table of printable characters |
| ConfigValues.TextIsRead | cli/config.go:300-308 | a quoted text is read back whole, and is an error if a space precedes a number sign in it |
| ConfigValues.ListIsRead | cli/config.go:640-659 | a beginning of a rendered list is read as the list exactly when it is all of it and no item has a comma |
| ConfigValues.ArrayIsRead | cli/config.go:640-659 | an array, cut at a comment mark or not, comes back exactly when no item has a comma or a space before a number sign |
| ConfigValues.SettingKeptExactly | cli/config.go:556-659 | a setting of any kind comes back exactly under the condition of its kind |
| ConfigValues.ExpandedExactly | cli/config.go:1364-1374 | the home mark, alone or before a slash, stands for a known home directory; other paths are taken as they are |
| ConfigValues.SpacedSignIsAnError | cli/config.go:556-561 | a concrete text that is an error on reading |
| ConfigValues.CommaIsNotReadBack | cli/config.go:640-659 | a concrete list that does not come back |
| ConfigValues.HomeMarkIsExpanded | cli/config.go:1364-1374 | a path that is the home mark is read as the home directory |
| ConfigDocument.ParseDocument | cli/config.go:266-554 | the loop with its current section folds the reading of one line over all lines |
| ConfigDocument.DocumentIsRead | cli/config.go:266-554 | a rendered document is read table by table and entry by entry, or not at all if a line does not fit or a setting is an error |
| ConfigDocument.DocumentRoundTripExactly | cli/config.go:266-1362 | a document of sections and array tables comes back exactly when its lines fit and every setting is kept |
| ConfigDocument.SpacedSignLosesDocument | cli/config.go:266-554 | one text with a space before a number sign, and nothing of the file is read |
| ConfigDocument.RenderDocument | cli/config.go:1197-1362 | the text that is rendered is parsed as the document exactly under that condition |
| ConfigServices.ServicesOfFile | cli/config.go:266-554 | what is read of a file with service hosts: every host, with the services called like a field in place of that field, if everything else is read |
| ConfigServices.ServicesRoundTripExactly | cli/config.go:309-337 | the hosts of a saved configuration come back exactly when the file is read, no name or source is cut or expanded, and no service is called "name" or "source" |
| ConfigServices.RenderServices | cli/config.go:1344-1361 | the text that is written gives the hosts back exactly under that condition |
| ConfigServices.ServiceTakesField | cli/config.go:309-337 | a concrete host with a service called "name" or "source", read back with that field replaced by the role |
| BackupSize.RoundedIsNearest | cli/config.go:588-611 | no whole binary64 number is nearer than the rounded one (section 4.3.1 of IEEE 754-2019) |
| BackupSize.FormatBackupSize | cli/config.go:614-630 | the text names the largest binary unit that divides the size, bytes if none does, and how many of it |
| BackupSize.SizeRoundTripExactly | cli/config.go:579-630 | a size from 1 to the largest int64 comes back from its text exactly when it is a binary64 number |
| BackupSize.UsualSizesComeBack | cli/config.go:579-630 | every size up to 2^53 and every multiple of 1024 comes back |
| BackupSize.FirstSizeLost | cli/config.go:579-630 | 2^53 + 1 does not come back |

## Left out

- MigrationSafety.RunIsSound: assumes that while a journal is in progress (after a crash, or after an apply that could not be started and returned an ordinary error) nobody edits a path that the journal names, and that no discarded error occurred; MigrationFailures and the exact conditions say what such errors cost.
- MigrationEngine.Migration.CheckLive: whether a path is safe is a constant predicate of the path, as no other process changes links in the meantime.
- BackupContents.HermesTakesExactly: which paths are build output (operator/workspace_export.go:40-58) and which skill groups come with the release are parameters, any predicate and any set.
- MigrationEngine.Migration.ApplyRevision: the checks of the revision against database and proposal repository are one Boolean parameter; installing features before the stale check may change the live tree at will; owners and modes are left out.
- MigrationEngine.Migration.UpdateState: a state write whose preceding read of the state fails is not checked against the table by the code; the model lets such a write fail.
- MigrationEngine.Migration.RecoverMigration: the actions that inspect or retry, of which the second is ApplyRevision; after a forced rollback nothing is promised of the tree, as unreadable pre-images are passed over.
- FileStore.Store.RemoveAll: directories are not modelled in this module, only the files in them.
- UsageCollector.Collector.ImportRow: an SQLite error between the two statements of one row is not modelled; nor is the price refresh.
- UsageConservation.Conservation: for keys whose event ids are not cut and that have no checkpoint from an earlier release; UsageCutIds and ConservationExact cover the others. A whole hash is injective, and an id that a report chooses is taken never to spell the id of a mark that is not cut.
- UsageCollector.Collector.Serve: another process inserts only reports that are not cumulative, as the code does.
- InstructionSafety.RunIsTrusted: for the file with a generated language block, that normalising undoes inserting is a hypothesis, because the block functions (output language rendering) are not part of this model; errors of a malformed block are left out.
- InstructionStatus and inspectInstruction (operator/instructions.go:354-397): read-only reports with the same comparisons.
- BackupArchive.CreateArchive: encryption, compression, the tar format, checksums of remote copies and file modes are abstract; the source tree does not change during the walk.
- BackupExtract.Extract: only members of the three kinds that the writer produces; an archive with a member below a link member is refused here, while the code follows the link.
- BackupSnapshot.CreateRollback: the component named by a single dot is refused here and admitted by the code.
- BackupSnapshot.SnapshotRoundTrip: components are files and directories; a component that is itself a link is not covered, nor what is left where a link leads to a component (`ThroughLink`, `Followed`), and it is assumed that no earlier run left a tree under the name to which a component is moved aside.
- BackupSnapshot.Runtime.RestoreRollback: after an error nothing is promised, as the code does not take back a component that was absent before.
- BackupReplacement.BuildExactly: where the archive has a link and the running system a generated directory, the code follows the link; the model reports this as an outcome of its own (`Through`) and says nothing about what is then written. Errors of single file operations during the two walks, owners and modes are left out.
- BackupArchive.Inspect: a member named by a single dot, which the code admits if the manifest names it, is refused.
- BackupManifest.InspectArchive: members of kinds other than files, directories and links, which the code refuses, and the text of a manifest.
- RestoreSwap.Swap.RestoreDurable: after a crash in the middle the code has no recovery, so all that is stated is that no tree is lost; local store provisioning is left out.
- BackupPrune.BackupFolder.Prune: rollback, compose, auxiliary and pre-restore files have their own, simpler limits and are left out, as is the retention state file.
- BackupSchedule.Scheduler.Tick: the cron expression is a function that strictly advances; time zones are part of it.
- WorkspaceRegistry.RegistryRoundTrip: sufficient for a registry; the exact condition is proved per scalar.
- PolicyLists.FileIsRestoredExactly: for files without carriage returns, which the code normalises.
- PolicyLists.AppendBlockListItems: the single loop of the source is two loops, before and after the header of the list.
- BackupSize.SizeRoundTripExactly: amounts with a sign, a fraction or an exponent, which the program never writes, are not part of this model.
- ConfigDocument.DocumentRoundTripExactly: which settings there are, of what kind and in which field they end is a schema given as a parameter; keys and section names are plain names. That a later setting of one name replaces an earlier one (except for service hosts, see ConfigServices), the validation of the other fields, which settings of a configuration are written, and the two spellings of the local size budget are left out. The length of line that the scanner holds is a parameter, and a blank line follows every table.
- ConfigServices.ServicesRoundTripExactly: the services of a host may be written in any order; the code sorts them.
- Quoting.UnquoteUndoesQuote: escapes of raw bytes above 7f and octal escapes, which quoting never writes, count as errors.
- SSH, Docker Compose, S3, rsync, Telegram and HTTP: external effects.
- Compose file text, command dispatch and output: no state of their own to keep.
