/** operator/migration_apply.go: ApplyRevision and ReconcileInterruptedApply as
    the source runs them, over stores in which every call may fail or be the
    last one before a crash. */
module MigrationEngine {
  import opened Wrappers
  import opened Environment
  import opened FileStore
  import opened MigrationStates
  import opened MigrationJournal
  import opened MigrationSafety

  class Migration {
    const live: Store
    const rollback: Store
    const calm: bool
    /** security.ValidateSafeWorkspacePath */
    const safe: Path -> bool
    /** apply/journal.json, replaced atomically, and the state in the database. */
    var journal: Option<Journal>
    var state: MigrationState

    ghost predicate Valid()
      reads this, live, rollback
    {
      live != rollback && live.Valid() && rollback.Valid()
    }

    ghost function OnDisk(): Disk
      reads this, live, rollback
    {
      Disk(live.View(), rollback.files, journal, state)
    }

    /** No operation of this migration fails or is the last. */
    predicate Calm() {
      calm && live.calm && rollback.calm
    }

    constructor (workspace: Store, backups: Store, calm: bool, safe: Path -> bool)
      requires workspace != backups && workspace.Valid() && backups.Valid()
      ensures Valid() && live == workspace && rollback == backups && this.calm == calm && this.safe == safe
      ensures journal == None && state == ReadyForReview
    {
      live, rollback, this.calm, this.safe := workspace, backups, calm, safe;
      journal, state := None, ReadyForReview;
    }

    method WriteJournal(next: Journal) returns (r: IoResult)
      modifies this`journal
      ensures journal == if r.Done? then Some(next) else old(journal)
      ensures calm ==> r.Done?
    {
      r := Chance(calm);
      if r.Done? { journal := Some(next); }
    }

    /** UpdateMigrationState */
    method UpdateState(next: MigrationState) returns (r: StateResult)
      modifies this`state
      ensures r.Recorded? || r.NotAllowed? ==> state == Moved(old(state), next)
      ensures r.Recorded? || r.NotAllowed? ==> (r.Recorded? <==> Allowed(old(state), next))
      ensures r.NotWritten? || r.StateDied? ==> state == old(state)
      ensures calm ==> r.Recorded? || r.NotAllowed?
    {
      var step := Chance(calm);
      if !step.Done? { return if step.Died? then StateDied else NotWritten; }
      if state != next && next !in Successors(state) { return NotAllowed; }
      state := next;
      return Recorded;
    }

    /** Undoes one operation; errors are noted, never returned. */
    method UndoOne(operations: seq<Operation>, i: nat, ghost faults: Faults)
      returns (alive: bool, lost: bool, ghost unread: bool, ghost dropped: bool)
      requires Valid() && i < |operations| && i !in faults.unread && i !in faults.dropped
      modifies live
      ensures Valid()
      ensures !alive ==> live.View() == old(live.View())
      ensures alive ==> lost == Lost(operations, i, rollback.files, Noted(faults, i, unread, dropped))
      ensures alive ==> !(lost && dropped)
      ensures alive && unread ==> operations[i].existedBefore && !NotHeld(operations[i], rollback.files)
      ensures alive ==>
                live.View() == Undo(operations, i, rollback.files, old(live.View()), Noted(faults, i, unread, dropped))
      ensures Calm() ==> alive && !unread && !dropped && live.debris <= old(live.debris)
    {
      var op := operations[i];
      alive, lost, unread, dropped := true, false, false, false;
      if op.existedBefore {
        if op.backup.Some? {
          var image := rollback.ReadFile(op.backup.value);
          if image.Contents? {
            var w := live.AtomicWriteFile(op.path, image.data);
            alive, dropped := !w.Died?, !w.Done?;
          } else {
            lost, unread := true, op.backup.value in rollback.files;
          }
        } else {
          lost := true;
        }
      } else {
        var w := live.Remove(op.path);
        alive, dropped := !w.RemoveDied?, w.RemoveFailed?;
        assert w.Missing? ==> live.View() == live.View() - {op.path};
      }
    }

    /** Undoes operations `high - 1` down to 0 and notes the errors. */
    method UndoAll(operations: seq<Operation>, high: nat)
      returns (alive: bool, marked: seq<Operation>, failed: bool, ghost reached: nat, ghost faults: Faults)
      requires Valid() && high <= |operations|
      modifies live
      ensures Valid()
      ensures reached <= high && (alive ==> reached == 0)
      ensures FaultsWithin(operations, reached, high, rollback.files, faults)
      ensures live.View() == UndoDown(operations, reached, high, rollback.files, old(live.View()), faults)
      ensures alive ==> marked == Marked(operations, 0, high, rollback.files, faults)
      ensures alive ==> (failed <==> AnyLost(operations, 0, high, rollback.files, faults))
      ensures Calm() ==> alive && faults == NO_FAULTS && live.debris <= old(live.debris)
    {
      marked, failed, alive := operations, false, true;
      reached, faults := high, NO_FAULTS;
      ghost var start := live.View();
      var i := high;
      while i > 0
        invariant 0 <= i <= high && reached == i
        invariant Valid()
        invariant FaultsWithin(operations, i, high, rollback.files, faults)
        invariant live.View() == UndoDown(operations, i, high, rollback.files, start, faults)
        invariant marked == Marked(operations, i, high, rollback.files, faults)
        invariant failed <==> AnyLost(operations, i, high, rollback.files, faults)
        invariant Calm() ==> faults == NO_FAULTS && live.debris <= old(live.debris)
      {
        var lost;
        ghost var unread, dropped;
        alive, lost, unread, dropped := UndoOne(operations, i - 1, faults);
        if !alive { return; }
        ghost var noted := Noted(faults, i - 1, unread, dropped);
        UndoReadsOwnFaults(operations, i, high, rollback.files, start, faults, noted);
        assert forall k | i <= k < high ::
            Lost(operations, k, rollback.files, noted) == Lost(operations, k, rollback.files, faults);
        marked := marked[i - 1 := marked[i - 1].(status := if lost then OperationFailed else OperationRolledBack)];
        failed := failed || lost;
        i := i - 1;
        reached, faults := i, noted;
      }
    }

    lemma {:induction false} UndoReadsOwnFaults(
      operations: seq<Operation>, low: nat, high: nat, images: Tree, tree: Tree, f: Faults, g: Faults)
      requires low <= high <= |operations|
      requires forall i | low <= i < high :: (i in f.unread <==> i in g.unread) && (i in f.dropped <==> i in g.dropped)
      ensures UndoDown(operations, low, high, images, tree, f) == UndoDown(operations, low, high, images, tree, g)
      decreases high - low
    {
      if low < high {
        UndoReadsOwnFaults(operations, low + 1, high, images, tree, f, g);
      }
    }

    /** Takes back an apply that a crash interrupted. */
    method ReconcileInterruptedApply() returns (r: ReconcileResult, ghost t: ReconcileTrace)
      requires Valid()
      modifies this, live
      ensures Valid()
      ensures ReconcileStep(old(OnDisk()), OnDisk(), r, t)
      ensures Calm() ==>
                if !Interrupted(old(journal)) then r.NothingToDo?
                else (r.Restored? || r.Irrecoverable?) && t == ReconcileTrace(0, NO_FAULTS, true, true)
      ensures Calm() ==> live.debris <= old(live.debris)
    {
      t := ReconcileTrace(0, NO_FAULTS, false, false);
      var step := Chance(calm);
      if !step.Done? { return JournalUnreadable, t; }
      if journal.None? { return NothingToDo, t; }
      var read := journal.value;
      if read.status !in {Applying, RollingBack, InProgress} { return NothingToDo, t; }
      var alive, marked, failed;
      ghost var reached, faults;
      alive, marked, failed, reached, faults := UndoAll(read.operations, |read.operations|);
      t := ReconcileTrace(reached, faults, false, false);
      if !alive { return ReconcileDied, t; }
      var w := WriteJournal(Journal(if failed then JournalStatus.Failed else RolledBack, marked));
      if w.Died? { return ReconcileDied, t; }
      t := t.(saved := w.Done?);
      step := Chance(calm);
      if !step.Done? { return (if failed then Irrecoverable else Restored), t; }  // the database cannot be opened
      var s := UpdateState(if failed then StateRecoveryRequired else ReadyForReview);
      if s.StateDied? { return ReconcileDied, t; }
      t := t.(recorded := !s.NotWritten?);
      r := if failed then Irrecoverable else Restored;
    }

    /** The tree with the first `count` files written. */
    static function Installed(files: seq<(Path, Bytes)>, count: nat, tree: Tree): Tree
      requires count <= |files|
    {
      if count == 0 then tree else Installed(files, count - 1, tree)[files[count - 1].0 := files[count - 1].1]
    }

    /** The features that the changed paths need are installed first; their
        files go to the live tree and every error is ignored. */
    method InstallFeatures(files: seq<(Path, Bytes)>) returns (alive: bool)
      requires Valid()
      modifies live
      ensures Valid()
      ensures forall p | forall f <- files :: f.0 != p :: Agrees(live.View(), old(live.View()), p)
      ensures Calm() ==>
                alive && live.View() == Installed(files, |files|, old(live.View())) && live.debris <= old(live.debris)
    {
      for i := 0 to |files|
        invariant Valid()
        invariant forall p | forall f <- files :: f.0 != p :: Agrees(live.View(), old(live.View()), p)
        invariant Calm() ==> live.View() == Installed(files, i, old(live.View())) && live.debris <= old(live.debris)
      {
        ghost var before := live.View();
        var w := live.AtomicWriteFile(files[i].0, files[i].1);
        forall p | forall f <- files :: f.0 != p ensures Agrees(live.View(), old(live.View()), p) {
          assert files[i] in files && Agrees(before, old(live.View()), p);
        }
        if w.Died? { return false; }
      }
      return true;
    }

    /** One live file is as the revision expects it; `readable` tells whether it
        could be read, or asked for. */
    method CheckFile(change: Change) returns (passes: bool, ghost readable: bool)
      requires Valid() && live.debris == {}
      ensures passes == Passes(change, live.View(), readable) && (Calm() ==> readable)
    {
      var current := live.ReadFile(change.path);
      readable := !current.Unreadable?;
      match change.status {
        case Added => passes := !current.Contents?;
        case Renamed => passes := true;
        case _ =>
          if !current.Contents? { return false, readable; }
          passes := change.oldHash.None? || Digest(current.data) == change.oldHash.value;
      }
    }

    /** Compares the live tree with what the revision was made against: None lets
        the apply go on, and else change `n`, the first that is not safe or does
        not pass, decides. */
    method CheckLive(changes: seq<Change>)
      returns (verdict: Option<ApplyResult>, ghost unread: set<nat>, ghost n: nat)
      requires Valid() && live.debris == {}
      ensures n <= |changes| && (verdict.None? <==> n == |changes|)
      ensures forall i | 0 <= i < n :: safe(changes[i].path) && Passes(changes[i], live.View(), i !in unread)
      ensures verdict == Some(Unsafe) ==> !safe(changes[n].path)
      ensures verdict.Some? && verdict != Some(Unsafe) ==>
                verdict == Some(Stale) && safe(changes[n].path) && !Passes(changes[n], live.View(), n !in unread)
      ensures Calm() ==> unread == {}
    {
      unread, n := {}, 0;
      hide Passes;
      for i := 0 to |changes|
        invariant n == i && forall j <- unread :: j < i
        invariant forall j | 0 <= j < i :: safe(changes[j].path) && Passes(changes[j], live.View(), j !in unread)
        invariant Calm() ==> unread == {}
      {
        if !safe(changes[i].path) { return Some(Unsafe), unread, n; }
        var passes;
        ghost var readable;
        passes, readable := CheckFile(changes[i]);
        if !readable { unread := unread + {i}; }
        if !passes { return Some(Stale), unread, n; }
        n := n + 1;
      }
      verdict := None;
    }

    /** Stores the pre-image of every file the revision touches. */
    method CapturePreImages(changes: seq<Change>)
      returns (r: IoResult, operations: seq<Operation>, ghost unreadable: set<nat>)
      requires Valid() && live.debris == {}
      modifies rollback
      ensures Valid()
      ensures r.Done? ==> Captured(operations, changes, live.View(), unreadable)
      ensures r.Done? ==> Stored(operations, live.View(), rollback.files)
      ensures Calm() ==> unreadable == {}
      ensures Calm() ==> (r.Done? <==> forall c <- changes | c.status.Deleted? :: c.path in live.View())
    {
      operations, unreadable := [], {};
      r := rollback.RemoveAll();
      if r.Died? { return; }
      r := Chance(calm);  // the rollback directory is made
      if !r.Done? { return; }
      for i := 0 to |changes|
        invariant Valid()
        invariant |operations| == i && forall k <- unreadable :: k < i
        invariant forall j | 0 <= j < i :: operations[j] == Capture(changes[j], live.View(), j !in unreadable)
        invariant Stored(operations, live.View(), rollback.files)
        invariant Calm() ==> unreadable == {}
        invariant forall j | 0 <= j < i && changes[j].status.Deleted? :: changes[j].path in live.View()
      {
        var change := changes[i];
        var existing := live.ReadFile(change.path);
        var op;
        if existing.Contents? {
          r := rollback.AtomicWriteFile(change.path, existing.data);
          if !r.Done? { return; }
          op := Operation(
            if change.status == Deleted then Delete else Write, change.path, true, Some(change.path), Pending);
        } else if change.status == Deleted {
          r := IoResult.Failed;
          return;
        } else {
          if existing.Unreadable? { unreadable := unreadable + {i}; }
          op := Operation(Write, change.path, false, None, Pending);
        }
        assert op == Capture(change, live.View(), i !in unreadable);
        operations := operations + [op];
      }
      r := Done;
    }

    /** Carries out the operations in order until one fails. */
    method Execute(changes: seq<Change>, operations: seq<Operation>)
      returns (r: IoResult, applied: nat, marked: seq<Operation>)
      requires Valid() && |operations| == |changes|
      requires forall i | 0 <= i < |changes| ::
                 operations[i].path == changes[i].path && (operations[i].kind.Delete? <==> changes[i].status.Deleted?)
      modifies live
      ensures Valid() && applied <= |changes| && (r.Done? <==> applied == |changes|)
      ensures forall i | 0 <= i < applied :: changes[i].status == Deleted || changes[i].blob.Some?
      ensures live.View() == Advance(changes, applied, old(live.View()))
      ensures |marked| == |operations|
      ensures forall i | 0 <= i < |operations| ::
                marked[i] == if i < applied then operations[i].(status := OperationApplied) else operations[i]
      ensures Calm() ==> !r.Died? && (r.Done? <==> Complete(changes))
    {
      applied, marked := 0, operations;
      ghost var start := live.View();
      while applied < |operations|
        invariant 0 <= applied <= |operations| == |marked|
        invariant Valid()
        invariant forall i | 0 <= i < applied :: changes[i].status == Deleted || changes[i].blob.Some?
        invariant live.View() == Advance(changes, applied, start)
        invariant forall i | 0 <= i < |operations| ::
                    marked[i] == if i < applied then operations[i].(status := OperationApplied) else operations[i]
      {
        var op := operations[applied];
        r := Chance(calm);  // the path is still safe
        if !r.Done? { return; }
        if op.kind == Delete {
          var w := live.Remove(op.path);
          if w.RemoveDied? { r := Died; return; }
          if w.RemoveFailed? { r := IoResult.Failed; return; }
          assert live.View() == Advance(changes, applied, start) - {op.path};
        } else {
          r := Chance(calm);  // the blob is read, and its parent made
          if !r.Done? { return; }
          if changes[applied].blob.None? { r := IoResult.Failed; return; }
          r := live.AtomicWriteFile(op.path, changes[applied].blob.value);
          if !r.Done? { return; }
        }
        marked := marked[applied := op.(status := OperationApplied)];
        applied := applied + 1;
      }
      r := Done;
    }

    /** The apply proper: compare, store pre-images, write the journal, execute,
        and undo what was executed if an operation fails. */
    method ApplyChecked(changes: seq<Change>) returns (r: ApplyResult, ghost t: ApplyTrace)
      requires Valid() && live.debris == {} && state == ReadyForReview
      modifies this, live, rollback
      ensures Valid() && !r.Refused?
      ensures ApplyStep(old(OnDisk()), OnDisk(), changes, r, t)
      ensures r.Unsafe? ==> exists c <- changes :: !safe(c.path)
      ensures Calm() ==> CalmApply(old(OnDisk()), OnDisk(), changes, r, t)
    {
      t := UNTRIED;
      hide Progress, Stored, Complete;
      ghost var start := live.View();
      var verdict;
      ghost var unread;
      ghost var n;
      verdict, unread, n := CheckLive(changes);
      t := t.(unread := unread);
      if verdict.Some? {
        var s := UpdateState(if verdict.value.Stale? then StateStale else StateFailed);
        return (if s.StateDied? then ApplyDied else verdict.value), t;
      }
      var w, operations;
      ghost var unreadable;
      w, operations, unreadable := CapturePreImages(changes);
      t := t.(erased := true);
      if !w.Done? { return (if w.Died? then ApplyDied else Unprepared), t; }
      w := WriteJournal(Journal(Applying, operations));
      if !w.Done? { return (if w.Died? then ApplyDied else Unprepared), t; }
      t := ApplyTrace(unread, true, true, operations, unreadable, 0, 0, NO_FAULTS, false, false, false);
      r, t := CarryOut(changes, operations, t);
      EndsOfCarryingOut(start, OnDisk(), changes, r, t);
    }

    lemma EndsOfCarryingOut(start: Tree, e: Disk, changes: seq<Change>, r: ApplyResult, t: ApplyTrace)
      requires |t.operations| == |changes| && Progress(start, e, changes, r, t) && Stored(t.operations, start, e.images)
      ensures !r.Refused? && !r.Unsafe? && (t.faults == NO_FAULTS ==> !r.RollbackIncomplete?)
    {
      hide UndoDown, Advance;
    }

    /** What an apply does when nothing goes wrong around it: it succeeds exactly
        when every path is safe, every live file is as expected, and the proposal
        repository has all contents; it takes back what it did if only those are
        missing, and else leaves the files alone. */
    ghost predicate CalmApply(d: Disk, e: Disk, changes: seq<Change>, r: ApplyResult, t: ApplyTrace) {
      && t.unread == {} && t.unreadable == {} && t.faults == NO_FAULTS
      && (t.journaled ==> t.saved && t.recorded)
      && if forall c <- changes :: safe(c.path) && Expected(c, d.live) then
           t.journaled && r == if Complete(changes) then Succeeded else RolledBackCleanly
         else !t.journaled && e == d.(state := e.state) && (r.Stale? || r.Unsafe?)
              && e.state == if r.Stale? then StateStale else StateFailed
    }

    /** Executes the journaled operations, and undoes them if one fails. */
    method CarryOut(changes: seq<Change>, operations: seq<Operation>, ghost t0: ApplyTrace)
      returns (r: ApplyResult, ghost t: ApplyTrace)
      requires Valid() && |operations| == |changes|
      requires forall i | 0 <= i < |changes| ::
                 operations[i].path == changes[i].path && (operations[i].kind.Delete? <==> changes[i].status.Deleted?)
      requires journal == Some(Journal(Applying, operations)) && state == ReadyForReview
      requires t0.operations == operations && t0.applied == t0.undone == 0
      requires t0.faults == NO_FAULTS && !t0.turned && !t0.saved && !t0.recorded
      modifies this, live
      ensures Valid() && rollback.files == old(rollback.files)
      ensures t == t0.(applied := t.applied, undone := t.undone, faults := t.faults, turned := t.turned,
        saved := t.saved, recorded := t.recorded)
      ensures Progress(old(live.View()), OnDisk(), changes, r, t)
      ensures Calm() ==> t.saved && t.recorded && t.faults == NO_FAULTS && (r.Succeeded? <==> Complete(changes))
                         && (r.Succeeded? || r.RolledBackCleanly? || r.RollbackIncomplete?)
    {
      t := t0;
      hide Progress;
      ghost var start := live.View();
      var s := UpdateState(StateApplying);
      if !s.Recorded? {
        r := if s.StateDied? then ApplyDied else Unstarted;
        NotStarted(start, OnDisk(), changes, r, t);
        return;
      }
      var w, applied, marked;
      w, applied, marked := Execute(changes, operations);
      t := t.(applied := applied, undone := applied);
      if w.Died? {
        Stopped(start, OnDisk(), changes, t);
        return ApplyDied, t;
      }
      if w.Failed? {
        r, t := TakeBack(changes, operations, marked, applied, start, t);
        RolledBackSoFar(start, OnDisk(), changes, r, t);
        return;
      }
      r, t := CloseSuccess(marked, t);
      CarriedOut(start, OnDisk(), changes, r, t);
    }

    lemma NotStarted(start: Tree, e: Disk, changes: seq<Change>, r: ApplyResult, t: ApplyTrace)
      requires |t.operations| == |changes| && t.applied == t.undone == 0 && t.faults == NO_FAULTS
      requires !t.turned && !t.saved && !t.recorded && (r.Unstarted? || r.ApplyDied?)
      requires e.live == start && e.journal == Some(Journal(Applying, t.operations)) && e.state == ReadyForReview
      ensures Progress(start, e, changes, r, t)
    {
    }

    /** What an execution of the first `t.applied` operations leaves. */
    ghost predicate Executed(start: Tree, e: Disk, changes: seq<Change>, t: ApplyTrace) {
      && |t.operations| == |changes| && t.applied <= |changes|
      && (forall i | 0 <= i < t.applied :: changes[i].status == Deleted || changes[i].blob.Some?)
      && e.live == Advance(changes, t.applied, start) && t.undone == t.applied && t.faults == NO_FAULTS && !t.turned
    }

    lemma Stopped(start: Tree, e: Disk, changes: seq<Change>, t: ApplyTrace)
      requires Executed(start, e, changes, t) && !t.saved && !t.recorded
      requires e.journal == Some(Journal(Applying, t.operations)) && e.state == StateApplying
      ensures Progress(start, e, changes, ApplyDied, t)
    {
      hide Advance;
    }

    lemma CarriedOut(start: Tree, e: Disk, changes: seq<Change>, r: ApplyResult, t: ApplyTrace)
      requires Executed(start, e, changes, t) && t.applied == |changes| && (r.Succeeded? || r.ApplyDied?)
      requires e.journal == Some(if t.saved then Finished(t, e.images) else Journal(Applying, t.operations))
      requires e.state == if t.recorded then StateApplied else StateApplying
      ensures Progress(start, e, changes, r, t)
    {
      hide Advance;
    }

    lemma RolledBackSoFar(start: Tree, e: Disk, changes: seq<Change>, r: ApplyResult, t: ApplyTrace)
      requires |t.operations| == |changes| && t.undone <= t.applied < |changes|
      requires forall i | 0 <= i < t.applied :: changes[i].status == Deleted || changes[i].blob.Some?
      requires FaultsWithin(t.operations, t.undone, t.applied, e.images, t.faults)
      requires e.live
        == UndoDown(t.operations, t.undone, t.applied, e.images, Advance(changes, t.applied, start), t.faults)
      requires RollbackEnds(e, r, t)
      ensures Progress(start, e, changes, r, t)
    {
      hide UndoDown, Advance, FaultsWithin;
    }

    /** The final journal and state of an apply that carried out everything. */
    method CloseSuccess(marked: seq<Operation>, ghost t0: ApplyTrace) returns (r: ApplyResult, ghost t: ApplyTrace)
      requires t0.applied == |t0.operations| == |marked| && !t0.turned && !t0.saved && !t0.recorded
      requires forall i | 0 <= i < |marked| :: marked[i] == t0.operations[i].(status := OperationApplied)
      requires journal == Some(Journal(Applying, t0.operations)) && state == StateApplying
      modifies this`journal, this`state
      ensures t == t0.(saved := t.saved, recorded := t.recorded) && (r.Succeeded? || r.ApplyDied?)
      ensures journal == if t.saved then Some(Finished(t, rollback.files)) else old(journal)
      ensures state == if t.recorded then StateApplied else StateApplying
      ensures calm ==> t.saved && t.recorded && r.Succeeded?
    {
      t := t0;
      assert Finished(t, rollback.files).operations == marked;
      var w := WriteJournal(Journal(Applied, marked));
      if w.Died? { return ApplyDied, t; }
      t := t.(saved := w.Done?);
      var s := UpdateState(StateApplied);
      if s.StateDied? { return ApplyDied, t; }
      t := t.(recorded := !s.NotWritten?);
      r := Succeeded;
    }

    /** Undoes the first `applied` operations after one failed. */
    method TakeBack(changes: seq<Change>, ghost operations: seq<Operation>, marked: seq<Operation>, applied: nat,
                    ghost start: Tree, ghost t0: ApplyTrace)
      returns (r: ApplyResult, ghost t: ApplyTrace)
      requires Valid() && applied < |changes| == |operations| == |marked|
      requires forall i | 0 <= i < |operations| ::
                 marked[i] == if i < applied then operations[i].(status := OperationApplied) else operations[i]
      requires live.View() == Advance(changes, applied, start)
      requires journal == Some(Journal(Applying, operations)) && state == StateApplying
      requires t0.operations == operations && t0.applied == t0.undone == applied
      requires t0.faults == NO_FAULTS && !t0.turned && !t0.saved && !t0.recorded
      modifies this, live
      ensures Valid() && rollback.files == old(rollback.files)
      ensures t == t0.(undone := t.undone, faults := t.faults, turned := t.turned, saved := t.saved,
        recorded := t.recorded)
      ensures t.undone <= applied
      ensures FaultsWithin(operations, t.undone, applied, rollback.files, t.faults)
      ensures live.View() == UndoDown(operations, t.undone, applied, rollback.files, Advance(changes, applied, start),
        t.faults)
      ensures RollbackEnds(OnDisk(), r, t)
      ensures Calm() ==> t.saved && t.recorded && t.faults == NO_FAULTS && !r.ApplyDied?
    {
      t := t0;
      var s := UpdateState(StateRollingBack);
      t := t.(turned := s.Recorded?);
      if s.StateDied? { return ApplyDied, t; }
      hide UndoDown, Advance;
      var alive, undone, failed;
      ghost var reached, faults;
      alive, undone, failed, reached, faults := UndoAll(marked, applied);
      StatusIsNotRead(operations, marked, reached, applied, rollback.files, old(live.View()), faults);
      t := t.(undone := reached, faults := faults);
      if !alive { return ApplyDied, t; }
      MarkedAgain(operations, marked, applied, rollback.files, faults);
      r, t := CloseRollback(undone, failed, t);
    }

    /** How the rollback of an apply leaves journal and state. */
    ghost predicate RollbackEnds(e: Disk, r: ApplyResult, t: ApplyTrace) {
      && t.applied < |t.operations|
      && e.journal == Some(if t.saved then Finished(t, e.images) else Journal(Applying, t.operations))
      && e.state == (if t.recorded then Moved(MiddleState(t), FinishedState(t, e.images)) else MiddleState(t))
      && (t.saved || t.recorded ==> t.undone == 0)
      && match r
         case RolledBackCleanly => t.undone == 0 && !AnyLost(t.operations, 0, t.applied, e.images, t.faults)
         case RollbackIncomplete => t.undone == 0 && AnyLost(t.operations, 0, t.applied, e.images, t.faults)
         case ApplyDied => true
         case _ => false
    }

    lemma MarkedAgain(operations: seq<Operation>, marked: seq<Operation>, applied: nat, images: Tree, faults: Faults)
      requires applied <= |operations| == |marked|
      requires forall i | 0 <= i < |operations| ::
                 marked[i] == if i < applied then operations[i].(status := OperationApplied) else operations[i]
      ensures Marked(marked, 0, applied, images, faults) == Marked(operations, 0, applied, images, faults)
    {
    }

    /** The final journal and state of a rollback. */
    method CloseRollback(undone: seq<Operation>, failed: bool, ghost t0: ApplyTrace)
      returns (r: ApplyResult, ghost t: ApplyTrace)
      requires t0.undone == 0 && t0.applied < |t0.operations| && !t0.saved && !t0.recorded
      requires journal == Some(Journal(Applying, t0.operations)) && state == MiddleState(t0)
      requires undone == Marked(t0.operations, 0, t0.applied, rollback.files, t0.faults)
      requires failed <==> AnyLost(t0.operations, 0, t0.applied, rollback.files, t0.faults)
      modifies this`journal, this`state
      ensures t == t0.(saved := t.saved, recorded := t.recorded)
      ensures RollbackEnds(OnDisk(), r, t)
      ensures calm ==> t.saved && t.recorded && !r.ApplyDied?
    {
      t := t0;
      var w := WriteJournal(Journal(if failed then JournalStatus.Failed else RolledBack, undone));
      if w.Died? { return ApplyDied, t; }
      t := t.(saved := w.Done?);
      var s := UpdateState(if failed then StateRecoveryRequired else ReadyForReview);
      if s.StateDied? { return ApplyDied, t; }
      t := t.(recorded := !s.NotWritten?);
      r := if failed then RollbackIncomplete else RolledBackCleanly;
    }

    /** Undoing reads paths and pre-images of operations, never their status. */
    lemma {:induction false} StatusIsNotRead(
      operations: seq<Operation>, marked: seq<Operation>, low: nat, high: nat, images: Tree, tree: Tree, faults: Faults)
      requires low <= high <= |operations| == |marked|
      requires forall i | 0 <= i < |operations| :: marked[i] == operations[i].(status := marked[i].status)
      ensures UndoDown(marked, low, high, images, tree, faults) == UndoDown(operations, low, high, images, tree, faults)
      ensures AnyLost(marked, low, high, images, faults) <==> AnyLost(operations, low, high, images, faults)
      ensures FaultsWithin(marked, low, high, images, faults) <==> FaultsWithin(operations, low, high, images, faults)
      decreases high - low
    {
      assert forall i | 0 <= i < |operations| ::
          Lost(marked, i, images, faults) == Lost(operations, i, images, faults);
      if low < high {
        StatusIsNotRead(operations, marked, low + 1, high, images, tree, faults);
      }
    }

    /** RecoverMigration, for its two actions that write: a rollback of what the
        journal names, as far as pre-images are to be had, or a declaration that
        the workspace is settled.  A journal that cannot be read counts as empty. */
    method RecoverMigration(action: RecoverAction) returns (reported: bool, ghost t: RecoverTrace)
      requires Valid()
      modifies this, live
      ensures Valid()
      ensures RecoverStep(old(OnDisk()), OnDisk(), action, reported, t)
      ensures Calm() ==> reported && t == RecoverTrace(old(journal).Some?, 0, NO_FAULTS, true, true)
    {
      var operations := [];
      t := RecoverTrace(false, 0, NO_FAULTS, false, false);
      var step := Chance(calm);
      if !step.Done? { return false, t; }  // the database or the lock is not to be had
      step := Chance(calm);
      if step.Done? && journal.Some? {
        operations := journal.value.operations;
        t := t.(found := true);
      }
      var marked := operations;
      if action.ForceRollback? {
        var alive, failed;
        ghost var reached, faults;
        alive, marked, failed, reached, faults := UndoAll(operations, |operations|);
        t := t.(reached := reached, faults := faults);
        if !alive { return false, t; }
        marked := seq(|operations|, i requires 0 <= i < |operations| =>
          if marked[i].status == OperationFailed then operations[i] else marked[i]);
        assert marked == Forced(operations, rollback.files, faults);
      }
      var w := WriteJournal(Journal(if action.ForceRollback? then RolledBack else Resolved, marked));
      if w.Died? { return false, t; }
      t := t.(saved := w.Done?);
      var s := UpdateState(ReadyForReview);
      if s.StateDied? { return false, t; }
      t := t.(recorded := !s.NotWritten?);
      reported := true;
    }

    lemma NothingTried(d: Disk, changes: seq<Change>, r: ApplyResult)
      requires r.Refused? || r.ApplyDied?
      ensures ApplyStep(d, d, changes, r, UNTRIED)
    {
    }

    /** Applies an approved revision.  `acceptable` is the outcome of the checks
        of the revision against the database and the proposal repository. */
    method ApplyRevision(changes: seq<Change>, acceptable: bool, features: seq<(Path, Bytes)>)
      returns (r: ApplyResult, ghost a: Event)
      requires Valid()
      modifies this, live, rollback
      ensures Valid()
      ensures a.Attempted? && a.changes == changes && AttemptStep(old(OnDisk()), OnDisk(), a)
      ensures r == if Completed(a.rr) then a.result else ReconcileStopped
      ensures r.Refused? <==> Completed(a.rr) && (a.reconciled.state != ReadyForReview || !acceptable)
      ensures r.Refused? ==> a.installed == a.reconciled == OnDisk()
      ensures r.Unsafe? ==> exists c <- changes :: !safe(c.path)
      ensures Calm() && Completed(a.rr) && !r.Refused? ==>
                CalmApply(a.installed, OnDisk(), changes, r, a.trace)
                && (old(live.debris) == {} ==>
                      a.installed.live == Installed(features, |features|, a.reconciled.live))
    {
      ghost var t := UNTRIED;
      hide ApplyStep, ReconcileStep, CalmApply, Installed;
      ghost var rt;
      var rr;
      rr, rt := ReconcileInterruptedApply();
      ghost var reconciled := OnDisk();
      if rr != NothingToDo && rr != Restored {
        return ReconcileStopped, Attempted(reconciled, reconciled, changes, rr, rt, ReconcileStopped, t);
      }
      NothingTried(reconciled, changes, Refused);
      if state != ReadyForReview || !acceptable {
        return Refused, Attempted(reconciled, reconciled, changes, rr, rt, Refused, t);
      }
      var alive := InstallFeatures(features);
      live.Adopt();
      ghost var installed := OnDisk();
      NothingTried(installed, changes, ApplyDied);
      if !alive {
        return ApplyDied, Attempted(reconciled, installed, changes, rr, rt, ApplyDied, t);
      }
      r, t := ApplyChecked(changes);
      a := Attempted(reconciled, installed, changes, rr, rt, r, t);
    }
  }
}
