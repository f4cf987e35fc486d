/** What a journaled apply keeps whatever errors occur, and what the errors that
    the code discards cost (operator/migration_apply.go). */
module MigrationFailures {
  import opened Wrappers
  import opened FileStore
  import opened MigrationStates
  import opened MigrationJournal
  import opened MigrationSafety

  // ------------------------------------------------ what the journal tells

  /** The operation could not be undone: there was a file before, and its pre-image
      is not named, not on disk, or could not be read. */
  predicate NotUndone(op: Operation, images: Tree, unread: bool) {
    op.existedBefore && (op.backup == None || op.backup.value !in images || unread)
  }

  predicate SameButStatus(op: Operation, was: Operation) {
    op.kind == was.kind && op.path == was.path && op.existedBefore == was.existedBefore && op.backup == was.backup
  }

  /** A reconcile that completes tells the truth: what could not be undone is marked
      as failed and all else as rolled back, and then, and only then, the journal
      has failed and manual recovery is asked for. */
  lemma ReconcileRecordsExactly(d: Disk, e: Disk, r: ReconcileResult, t: ReconcileTrace)
    requires ReconcileStep(d, e, r, t) && Interrupted(d.journal) && (r.Restored? || r.Irrecoverable?)
    ensures var before := d.journal.value.operations;
      && (r.Irrecoverable? <==>
            exists i | 0 <= i < |before| :: NotUndone(before[i], d.images, i in t.faults.unread))
      && (t.saved ==>
            && e.journal.Some? && |e.journal.value.operations| == |before|
            && e.journal.value.status == (if r.Irrecoverable? then JournalStatus.Failed else RolledBack)
            && forall i | 0 <= i < |before| ::
                 var op := e.journal.value.operations[i];
                 SameButStatus(op, before[i])
                 && op.status == if NotUndone(before[i], d.images, i in t.faults.unread) then OperationFailed
                                 else OperationRolledBack)
  {
    var before := d.journal.value.operations;
    assert forall i | 0 <= i < |before| ::
        Lost(before, i, d.images, t.faults) == NotUndone(before[i], d.images, i in t.faults.unread);
    hide UndoDown;
  }

  /** A forced rollback marks as rolled back what it undid, and leaves the mark of
      what it could not. */
  lemma ForcedRecordsExactly(d: Disk, e: Disk, reported: bool, t: RecoverTrace)
    requires RecoverStep(d, e, ForceRollback, reported, t) && t.found && t.saved
    ensures var before := d.journal.value.operations;
      && e.journal.Some? && e.journal.value.status == RolledBack && |e.journal.value.operations| == |before|
      && forall i | 0 <= i < |before| ::
           var op := e.journal.value.operations[i];
           SameButStatus(op, before[i])
           && op.status == if NotUndone(before[i], d.images, i in t.faults.unread) then before[i].status
                           else OperationRolledBack
  {
    var before := d.journal.value.operations;
    assert forall i | 0 <= i < |before| ::
        Lost(before, i, d.images, t.faults) == NotUndone(before[i], d.images, i in t.faults.unread);
    hide UndoDown;
  }

  // ------------------------------------------- the write-ahead of pre-images

  /** Every operation of a journal in progress that had a file before has a
      pre-image on disk. */
  ghost predicate Held(d: Disk) {
    Interrupted(d.journal) ==>
      forall i | 0 <= i < |d.journal.value.operations| :: !NotHeld(d.journal.value.operations[i], d.images)
  }

  /** The live tree when the journal in force was captured. */
  ghost function CapturedTree(disks: seq<Disk>, events: seq<Event>, n: nat): Tree
    requires |disks| == |events| + 1 && n <= |events|
  {
    if n == 0 then disks[0].live
    else match events[n - 1]
      case Attempted(_, installed, _, rr, _, _, t) =>
        if Completed(rr) && t.journaled then installed.live else CapturedTree(disks, events, n - 1)
      case _ => CapturedTree(disks, events, n - 1)
  }

  /** The reconcile with which an attempt began wrote its journal, if it restored. */
  predicate ReconcileSaved(event: Event) {
    event.Attempted? && event.rr.Restored? ==> event.rt.saved
  }

  ghost predicate StoredInProgress(d: Disk, captured: Tree) {
    Interrupted(d.journal) ==> Stored(d.journal.value.operations, captured, d.images)
  }

  lemma ReconcileKeepsStored(d: Disk, e: Disk, r: ReconcileResult, t: ReconcileTrace, captured: Tree)
    requires StoredInProgress(d, captured) && ReconcileStep(d, e, r, t)
    ensures StoredInProgress(e, captured)
    ensures (r.Restored? && t.saved) || r.NothingToDo? ==> !Interrupted(e.journal)
  {
  }

  lemma ApplyKeepsStored(d: Disk, e: Disk, changes: seq<Change>, r: ApplyResult, t: ApplyTrace, captured: Tree)
    requires !Interrupted(d.journal) && ApplyStep(d, e, changes, r, t)
    ensures StoredInProgress(e, if t.journaled then d.live else captured)
  {
  }

  lemma RecoverKeepsStored(d: Disk, e: Disk, action: RecoverAction, reported: bool, t: RecoverTrace, captured: Tree)
    requires StoredInProgress(d, captured) && RecoverStep(d, e, action, reported, t)
    ensures StoredInProgress(e, captured)
  {
  }

  lemma SameStored(d: Disk, e: Disk, captured: Tree)
    requires StoredInProgress(d, captured) && e.journal == d.journal && e.images == d.images
    ensures StoredInProgress(e, captured)
  {
  }

  /** Write-ahead over every run, whatever errors occur: as long as a reconcile
      that lets an apply go on wrote its journal, a journal in progress has every
      pre-image on disk, equal to what the live tree held at the capture. */
  lemma {:induction false} WriteAheadOverRuns(disks: seq<Disk>, events: seq<Event>, n: nat)
    requires AnyRun(disks, events) && n <= |events|
    requires forall i | 0 <= i < n :: ReconcileSaved(events[i])
    ensures StoredInProgress(disks[n], CapturedTree(disks, events, n))
  {
    if n > 0 {
      WriteAheadOverRuns(disks, events, n - 1);
      var d, e, captured := disks[n - 1], disks[n], CapturedTree(disks, events, n - 1);
      assert EventStep(d, e, events[n - 1]) && ReconcileSaved(events[n - 1]);
      hide ReconcileStep, ApplyStep, RecoverStep, StoredInProgress;
      match events[n - 1] {
        case Edited => SameStored(d, e, captured);
        case Commanded(_) => SameStored(d, e, captured);
        case Recovered(action, reported, t) => RecoverKeepsStored(d, e, action, reported, t, captured);
        case Reconciled(r, t) => ReconcileKeepsStored(d, e, r, t, captured);
        case Attempted(reconciled, installed, changes, rr, rt, r, t) =>
          ReconcileKeepsStored(d, reconciled, rr, rt, captured);
          if Completed(rr) {
            SameStored(reconciled, installed, captured);
            ApplyKeepsStored(installed, e, changes, r, t, captured);
          }
      }
    }
  }

  /** The errors met by an event while a stored pre-image was read. */
  function Unread(event: Event): set<nat> {
    match event
    case Edited => {}
    case Commanded(_) => {}
    case Recovered(_, _, t) => t.faults.unread
    case Reconciled(_, t) => t.faults.unread
    case Attempted(_, _, _, rr, rt, _, t) =>
      rt.faults.unread + if Completed(rr) && t.journaled then t.faults.unread else {}
  }

  /** An event that ends in a demand for manual recovery. */
  predicate AsksForRecovery(event: Event) {
    match event
    case Edited => false
    case Commanded(_) => false
    case Recovered(_, _, _) => false
    case Reconciled(r, _) => r.Irrecoverable?
    case Attempted(_, _, _, rr, _, r, _) => rr.Irrecoverable? || (Completed(rr) && r.RollbackIncomplete?)
  }

  lemma LostMeansUnread(operations: seq<Operation>, low: nat, high: nat, images: Tree, before: Tree, faults: Faults)
    requires high <= |operations| && Stored(operations, before, images)
    requires AnyLost(operations, low, high, images, faults)
    ensures faults.unread != {}
  {
    var i :| low <= i < high && Lost(operations, i, images, faults);
    assert i in faults.unread;
  }

  /** So, in such runs, manual recovery is asked for only when a pre-image that
      is on disk could not be read. */
  lemma RecoveryMeansUnread(disks: seq<Disk>, events: seq<Event>, n: nat)
    requires AnyRun(disks, events) && n < |events| && AsksForRecovery(events[n])
    requires forall i | 0 <= i <= n :: ReconcileSaved(events[i])
    ensures Unread(events[n]) != {}
  {
    WriteAheadOverRuns(disks, events, n);
    var d, e, captured := disks[n], disks[n + 1], CapturedTree(disks, events, n);
    assert EventStep(d, e, events[n]);
    match events[n] {
      case Reconciled(r, t) =>
        var operations := d.journal.value.operations;
        LostMeansUnread(operations, 0, |operations|, d.images, captured, t.faults);
      case Attempted(reconciled, installed, changes, rr, rt, r, t) =>
        if rr.Irrecoverable? {
          var operations := d.journal.value.operations;
          LostMeansUnread(operations, 0, |operations|, d.images, captured, rt.faults);
          var i :| i in rt.faults.unread;
          assert i in Unread(events[n]);
        } else {
          LostMeansUnread(t.operations, 0, t.applied, e.images, installed.live, t.faults);
          var i :| i in t.faults.unread;
          assert i in Unread(events[n]);
        }
    }
  }

  /** The reconcile's own journal write is what the write-ahead hangs on: after a
      reconcile that restored, an attempt keeps the pre-images of a journal in
      progress, however it goes on, exactly when that journal was written, or
      nothing goes on because the state is not ready, or no operation had a file
      before. */
  lemma AttemptKeepsHeldExactly(d: Disk, m: Disk, rt: ReconcileTrace)
    requires Interrupted(d.journal) && Held(d) && ReconcileStep(d, m, Restored, rt)
    ensures (forall e: Disk, a: Event |
               a.Attempted? && a.reconciled == m && a.rr == Restored && a.rt == rt && AttemptStep(d, e, a) :: Held(e))
       <==> rt.saved || m.state != ReadyForReview
            || forall i | 0 <= i < |d.journal.value.operations| :: !d.journal.value.operations[i].existedBefore
  {
    var safe := rt.saved || m.state != ReadyForReview
      || forall i | 0 <= i < |d.journal.value.operations| :: !d.journal.value.operations[i].existedBefore;
    if safe {
      forall e: Disk, a: Event | a.Attempted? && a.reconciled == m && a.rr == Restored && a.rt == rt
        && AttemptStep(d, e, a)
        ensures Held(e)
      {
        assert ApplyStep(a.installed, e, a.changes, a.result, a.trace);
      }
    } else {
      var t := ApplyTrace({}, true, false, [], {}, 0, 0, NO_FAULTS, false, false, false);
      var e := m.(images := map[]);
      var a := Attempted(m, m, [], Restored, rt, Unprepared, t);
      assert AttemptStep(d, e, a);
      var i :| 0 <= i < |d.journal.value.operations| && d.journal.value.operations[i].existedBefore;
      assert NotHeld(d.journal.value.operations[i], e.images);
    }
  }

  const NOTES: Tree := map["notes.md" := "old"]
  const REWRITE := Change("notes.md", Modified, Some(Digest("old")), Some("new"))
  const REWRITING := Operation(Write, "notes.md", true, Some("notes.md"), Pending)

  /** The disk after a crash between the journal and the state. */
  function Journaled(): Disk {
    Disk(NOTES, NOTES, Some(Journal(Applying, [REWRITING])), ReadyForReview)
  }

  const DIED := ApplyTrace({}, true, true, [REWRITING], {}, 0, 0, NO_FAULTS, false, false, false)
  const UNSAVED := ReconcileTrace(0, NO_FAULTS, false, true)
  const UNPREPARED := ApplyTrace({}, true, false, [], {}, 0, 0, NO_FAULTS, false, false, false)

  lemma DiesJournaled()
    ensures ApplyStep(Disk(NOTES, map[], None, ReadyForReview), Journaled(), [REWRITE], ApplyDied, DIED)
  {
  }

  /** A reconcile that restores, and whose journal write fails. */
  lemma RestoresUnsaved()
    ensures ReconcileStep(Journaled(), Journaled(), Restored, UNSAVED)
  {
    UndoOnly([REWRITING], NOTES, NOTES, NO_FAULTS);
  }

  lemma ErasesImages()
    ensures ApplyStep(Journaled(), Journaled().(images := map[]), [REWRITE], Unprepared, UNPREPARED)
  {
  }

  lemma LosesErased() returns (e: Disk)
    ensures ReconcileStep(Journaled().(images := map[]), e, Irrecoverable, ReconcileTrace(0, NO_FAULTS, true, true))
    ensures e.state == ReadyForReview
  {
    var d := Journaled().(images := map[]);
    UndoOnly([REWRITING], map[], NOTES, NO_FAULTS);
    assert Lost([REWRITING], 0, map[], NO_FAULTS);
    e := d.(journal := Some(Closed(d.journal.value, 1, map[], NO_FAULTS)));
  }

  /** A run in which that happens: a crash between the journal and the state, an
      apply that begins with a reconcile whose journal write fails, erases the
      pre-images and then cannot store its own, and a reconcile that asks for
      manual recovery, although every pre-image was stored and no stored one gave a
      read error.  The database does not even take the state that asks for it. */
  lemma PreImagesErased() returns (disks: seq<Disk>, events: seq<Event>)
    ensures AnyRun(disks, events) && |events| == 3
    ensures events[2].Reconciled? && AsksForRecovery(events[2])
    ensures forall i | 0 <= i < 3 :: Unread(events[i]) == {}
    ensures disks[3].state == ReadyForReview
  {
    var start := Disk(NOTES, map[], None, ReadyForReview);
    var nothing := ReconcileTrace(0, NO_FAULTS, false, false);
    DiesJournaled();
    RestoresUnsaved();
    ErasesImages();
    var last := LosesErased();
    hide ApplyStep, Interrupted;
    disks := [start, Journaled(), Journaled().(images := map[]), last];
    events := [
      Attempted(start, start, [REWRITE], NothingToDo, nothing, ApplyDied, DIED),
      Attempted(Journaled(), Journaled(), [REWRITE], Restored, UNSAVED, Unprepared, UNPREPARED),
      Reconciled(Irrecoverable, ReconcileTrace(0, NO_FAULTS, true, true))];
    NothingInProgress(start, nothing);
    hide ReconcileStep;
    ThreeSteps(disks, events);
  }

  lemma NothingInProgress(d: Disk, t: ReconcileTrace)
    requires d.journal.None?
    ensures ReconcileStep(d, d, NothingToDo, t)
  {
  }

  lemma ThreeSteps(disks: seq<Disk>, events: seq<Event>)
    requires |disks| == 4 && |events| == 3 && disks[0].journal.None?
    requires EventStep(disks[0], disks[1], events[0]) && EventStep(disks[1], disks[2], events[1])
    requires EventStep(disks[2], disks[3], events[2])
    ensures AnyRun(disks, events)
  {
  }

  /** Undoing a single operation. */
  lemma UndoOnly(operations: seq<Operation>, images: Tree, live: Tree, faults: Faults)
    requires |operations| == 1
    ensures UndoDown(operations, 0, 1, images, live, faults) == Undo(operations, 0, images, live, faults)
  {
    assert UndoDown(operations, 1, 1, images, live, faults) == live;
  }

  // ----------------------------------------------- the final journal's write

  /** A reported success lasts exactly when the final journal was written: the
      error of that write is discarded, and if it failed the next reconcile
      takes the whole revision back. */
  lemma SuccessLastsExactly(
    d: Disk, e: Disk, changes: seq<Change>, t: ApplyTrace, f: Disk, r: ReconcileResult, last: ReconcileTrace)
    requires !Interrupted(d.journal)
    requires ApplyStep(d, e, changes, Succeeded, t)
    requires CleanApply(d, changes, ApplyDied, t)
    requires ReconcileStep(e, f, r, last) && CleanReconcile(r, last) && Completed(r)
    ensures f.live == if t.saved then Advance(changes, |changes|, d.live) else d.live
  {
    var settled := SettledAfterApply(d.live, changes, t);
    ApplyKeepsSound(d, e, changes, ApplyDied, t);
    ReconcileKeepsSound(e, f, r, last, settled);
  }

  const CREATE := Change("new.md", Added, None, Some("text"))
  const CREATION := Operation(Write, "new.md", false, None, Pending)
  const EMPTY_DISK := Disk(map[], map[], None, ReadyForReview)

  lemma CreationApplied()
    ensures Advance([CREATE], 1, map[]) == map["new.md" := "text"]
    ensures Captured([CREATION], [CREATE], map[], {})
  {
    assert Advance([CREATE], 1, map[]) == ApplyChange(CREATE, Advance([CREATE], 0, map[]));
  }

  /** A success whose final journal could not be written. */
  function UnsavedSuccess(): Disk {
    Disk(map["new.md" := "text"], map[], Some(Journal(Applying, [CREATION])), StateApplied)
  }

  lemma SucceedsUnsaved() returns (t: ApplyTrace)
    ensures ApplyStep(EMPTY_DISK, UnsavedSuccess(), [CREATE], Succeeded, t)
    ensures CleanApply(EMPTY_DISK, [CREATE], ApplyDied, t) && t.recorded
  {
    t := ApplyTrace({}, true, true, [CREATION], {}, 1, 1, NO_FAULTS, false, false, true);
    CreationApplied();
  }

  /** The next reconcile takes it back, while the state goes on to say applied. */
  lemma SuccessTakenBack() returns (f: Disk, t: ApplyTrace, last: ReconcileTrace)
    ensures ApplyStep(EMPTY_DISK, UnsavedSuccess(), [CREATE], Succeeded, t)
    ensures CleanApply(EMPTY_DISK, [CREATE], ApplyDied, t) && t.recorded
    ensures ReconcileStep(UnsavedSuccess(), f, Restored, last) && CleanReconcile(Restored, last) && last.recorded
    ensures f.live == EMPTY_DISK.live && f.state == StateApplied
  {
    t := SucceedsUnsaved();
    hide ApplyStep, CleanApply;
    last := ReconcileTrace(0, NO_FAULTS, true, true);
    f := Disk(map[], map[], Some(Closed(Journal(Applying, [CREATION]), 1, map[], NO_FAULTS)), StateApplied);
    UndoOnly([CREATION], map[], UnsavedSuccess().live, NO_FAULTS);
    assert !AnyLost([CREATION], 0, 1, map[], NO_FAULTS);
  }

  /** A read error other than absence, met while pre-images are taken, makes an
      apply that fails later report a clean rollback and delete the file. */
  lemma UnreadableFileIsDeleted() returns (d: Disk, e: Disk, changes: seq<Change>, t: ApplyTrace)
    ensures !Interrupted(d.journal)
    ensures ApplyStep(d, e, changes, RolledBackCleanly, t) && Faultless(t.faults) && t.saved
    ensures "notes.md" in d.live && "notes.md" !in e.live
  {
    changes := [REWRITE, CREATE.(blob := None)];
    var operations := [Operation(Write, "notes.md", false, None, Pending), CREATION];
    t := ApplyTrace({}, true, true, operations, {0}, 1, 0, NO_FAULTS, true, true, true);
    d := Disk(NOTES, map[], None, ReadyForReview);
    e := Disk(map[], map[], Some(Finished(t, map[])), ReadyForReview);
    assert Advance(changes, 1, d.live) == ApplyChange(changes[0], Advance(changes, 0, d.live));
    var middle := Advance(changes, 1, d.live);
    assert UndoDown(operations, 0, 1, map[], middle, NO_FAULTS)
      == Undo(operations, 0, map[], UndoDown(operations, 1, 1, map[], middle, NO_FAULTS), NO_FAULTS);
    assert UndoDown(operations, 0, 1, map[], middle, NO_FAULTS) == e.live;
    hide UndoDown, Advance;
    assert Captured(operations, changes, d.live, {0});
  }
}
