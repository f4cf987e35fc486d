/** What a journaled apply guarantees over every run of applies, failures,
    crashes and reconciles (operator/migration_apply.go). */
module MigrationSafety {
  import opened Wrappers
  import opened FileStore
  import opened MigrationStates
  import opened MigrationJournal

  /** Both trees hold the same thing at `p`, or neither holds anything. */
  predicate Agrees(a: Tree, b: Tree, p: Path) {
    if p in a then p in b && a[p] == b[p] else p !in b
  }

  ghost predicate Touched(operations: seq<Operation>, p: Path) {
    exists i | 0 <= i < |operations| :: operations[i].path == p
  }

  /** Operation `i` was undone without an error. */
  predicate Undone(operations: seq<Operation>, i: nat, p: Path, images: Tree, faults: Faults) {
    i < |operations| && operations[i].path == p && !Lost(operations, i, images, faults) && i !in faults.dropped
  }

  /** The pre-images describe `before` at every operation's path. */
  ghost predicate Preserved(operations: seq<Operation>, images: Tree, before: Tree) {
    forall i | 0 <= i < |operations| ::
      var op := operations[i];
      if op.existedBefore then
        op.path in before && op.backup == Some(op.path) && op.path in images && images[op.path] == before[op.path]
      else op.path !in before
  }

  /** The write-ahead invariant: the disk alone determines `before`. */
  ghost predicate WriteAhead(operations: seq<Operation>, images: Tree, live: Tree, before: Tree) {
    && Preserved(operations, images, before)
    && forall p :: !Touched(operations, p) ==> Agrees(live, before, p)
  }

  // ------------------------------------------------------- one path at a time

  /** After an undo, a path is as before exactly when it already was, or when
      some operation on it was undone without an error. */
  lemma {:induction false} UndoExact(
    operations: seq<Operation>, low: nat, high: nat, images: Tree, live: Tree, before: Tree, faults: Faults, p: Path)
    requires low <= high <= |operations|
    requires Preserved(operations, images, before)
    ensures Agrees(UndoDown(operations, low, high, images, live, faults), before, p)
       <==> Agrees(live, before, p) || exists i | low <= i < high :: Undone(operations, i, p, images, faults)
    decreases high - low
  {
    if low < high {
      UndoExact(operations, low + 1, high, images, live, before, faults, p);
      var middle := UndoDown(operations, low + 1, high, images, live, faults);
      var after := UndoDown(operations, low, high, images, live, faults);
      assert after == Undo(operations, low, images, middle, faults);
      if Undone(operations, low, p, images, faults) {
        assert Agrees(after, before, p);
      } else {
        assert Agrees(after, before, p) <==> Agrees(middle, before, p);
        assert forall i | low <= i < high && Undone(operations, i, p, images, faults) :: low + 1 <= i;
      }
    }
  }

  /** A reconcile gives back the whole tree exactly when every path that still
      differs was the path of an operation undone without an error. */
  lemma ReconcileExact(operations: seq<Operation>, images: Tree, live: Tree, before: Tree, faults: Faults)
    requires WriteAhead(operations, images, live, before)
    ensures UndoDown(operations, 0, |operations|, images, live, faults) == before
       <==> forall p :: Touched(operations, p) ==>
              Agrees(live, before, p) || exists i | 0 <= i < |operations| :: Undone(operations, i, p, images, faults)
  {
    var after := UndoDown(operations, 0, |operations|, images, live, faults);
    forall p
      ensures Agrees(after, before, p)
         <==> Agrees(live, before, p) || exists i | 0 <= i < |operations| :: Undone(operations, i, p, images, faults)
    {
      UndoExact(operations, 0, |operations|, images, live, before, faults, p);
    }
    TreesEqual(after, before);
  }

  lemma TreesEqual(a: Tree, b: Tree)
    ensures a == b <==> forall p :: Agrees(a, b, p)
  {
    if forall p :: Agrees(a, b, p) {
      forall p ensures p in a <==> p in b { assert Agrees(a, b, p); }
      assert a.Keys == b.Keys;
      forall p | p in a ensures a[p] == b[p] { assert Agrees(a, b, p); }
    }
  }

  /** A partial undo, with any errors, keeps the write-ahead invariant. */
  lemma UndoKeepsWriteAhead(
    operations: seq<Operation>, low: nat, images: Tree, live: Tree, before: Tree, faults: Faults, high: nat)
    requires low <= high <= |operations|
    requires WriteAhead(operations, images, live, before)
    ensures WriteAhead(operations, images, UndoDown(operations, low, high, images, live, faults), before)
  {
    forall p | !Touched(operations, p)
      ensures Agrees(UndoDown(operations, low, high, images, live, faults), before, p)
    {
      UndoExact(operations, low, high, images, live, before, faults, p);
    }
  }

  /** Applying changes gives the overlay of the revision: a path holds the blob
      of the last change to it, nothing if that change deletes it, and what it
      held before if no change names it. */
  lemma {:induction false} AdvanceIsOverlay(changes: seq<Change>, count: nat, live: Tree, p: Path)
    requires count <= |changes|
    requires forall i | 0 <= i < count :: changes[i].status == Deleted || changes[i].blob.Some?
    ensures (forall i | 0 <= i < count :: changes[i].path != p) ==> Agrees(Advance(changes, count, live), live, p)
    ensures forall last | 0 <= last < count && changes[last].path == p &&
                          (forall i | last < i < count :: changes[i].path != p) ::
              if changes[last].status == Deleted then p !in Advance(changes, count, live)
              else p in Advance(changes, count, live) && Advance(changes, count, live)[p] == changes[last].blob.value
  {
    if count > 0 {
      AdvanceIsOverlay(changes, count - 1, live, p);
    }
  }

  // ------------------------------------------------- which files were misread

  /** An existing file that is to be written gave a read error, and was taken
      for absent. */
  predicate Overlooked(change: Change, live: Tree, unreadable: bool) {
    unreadable && change.status != Deleted && change.path in live
  }

  /** The recorded operations tell the truth about the live tree exactly when
      no file was overlooked. */
  lemma CaptureExact(operations: seq<Operation>, changes: seq<Change>, live: Tree, images: Tree, unreadable: set<nat>)
    requires Captured(operations, changes, live, unreadable)
    requires Stored(operations, live, images)
    ensures Preserved(operations, images, live)
       <==> forall i | 0 <= i < |changes| :: !Overlooked(changes[i], live, i in unreadable)
  {
    forall i | 0 <= i < |changes|
      ensures !operations[i].existedBefore && operations[i].path in live
         <==> Overlooked(changes[i], live, i in unreadable)
    {
      assert operations[i] == Capture(changes[i], live, i !in unreadable);
    }
    assert Preserved(operations, images, live)
      <==> forall i | 0 <= i < |operations| :: !(!operations[i].existedBefore && operations[i].path in live);
  }

  /** No earlier change is to the same path. */
  ghost predicate FirstOn(changes: seq<Change>, i: nat)
    requires i < |changes|
  {
    forall j | 0 <= j < i :: changes[j].path != changes[i].path
  }

  /** Undoing leaves a path alone that no undone operation names. */
  lemma {:induction false} UndoElsewhere(
    operations: seq<Operation>, low: nat, high: nat, images: Tree, live: Tree, faults: Faults, p: Path)
    requires low <= high <= |operations| && forall i | low <= i < high :: operations[i].path != p
    ensures Agrees(UndoDown(operations, low, high, images, live, faults), live, p)
    decreases high - low
  {
    if low < high { UndoElsewhere(operations, low + 1, high, images, live, faults, p); }
  }

  /** The first operation on a path decides what undoing leaves there. */
  lemma {:induction false} UndoneAt(
    operations: seq<Operation>, low: nat, high: nat, images: Tree, live: Tree, before: Tree, faults: Faults, i: nat)
    requires low <= i < high <= |operations| && Stored(operations, before, images) && Faultless(faults)
    requires forall j | low <= j < i :: operations[j].path != operations[i].path
    ensures var after := UndoDown(operations, low, high, images, live, faults); var p := operations[i].path;
      if operations[i].existedBefore then p in after && after[p] == before[p] else p !in after
    decreases high - low
  {
    if low < i { UndoneAt(operations, low + 1, high, images, live, before, faults, i); }
  }

  /** Undoing the first `high` operations, all recorded against `before`, gives
      `before` exactly when none of them that is the first on its path overlooked
      a file. */
  lemma UndoRestoresExactly(
    operations: seq<Operation>, changes: seq<Change>, high: nat, images: Tree, live: Tree, before: Tree,
    unreadable: set<nat>, faults: Faults)
    requires high <= |changes| && Captured(operations, changes, before, unreadable)
    requires Stored(operations, before, images) && Faultless(faults)
    requires forall p | (forall i | 0 <= i < high :: operations[i].path != p) :: Agrees(live, before, p)
    ensures UndoDown(operations, 0, high, images, live, faults) == before
       <==> forall i | 0 <= i < high && FirstOn(changes, i) :: !Overlooked(changes[i], before, i in unreadable)
  {
    var after := UndoDown(operations, 0, high, images, live, faults);
    forall i | 0 <= i < high && FirstOn(changes, i)
      ensures Agrees(after, before, changes[i].path) <==> !Overlooked(changes[i], before, i in unreadable)
    {
      assert operations[i] == Capture(changes[i], before, i !in unreadable);
      assert forall j | 0 <= j < i :: operations[j].path == changes[j].path;
      UndoneAt(operations, 0, high, images, live, before, faults, i);
    }
    TreesEqual(after, before);
    if forall i | 0 <= i < high && FirstOn(changes, i) :: !Overlooked(changes[i], before, i in unreadable) {
      forall p ensures Agrees(after, before, p) {
        if i :| 0 <= i < high && operations[i].path == p {
          var first := FirstWith(changes, i);
          assert operations[i] == Capture(changes[i], before, i !in unreadable);
          assert FirstOn(changes, first) && Agrees(after, before, changes[first].path);
        } else {
          assert Agrees(live, before, p);
          UndoElsewhere(operations, 0, high, images, live, faults, p);
        }
      }
    }
  }

  /** The first change to the path of change `i`. */
  lemma {:induction false} FirstWith(changes: seq<Change>, i: nat) returns (first: nat)
    requires i < |changes|
    ensures first <= i && changes[first].path == changes[i].path && FirstOn(changes, first)
    decreases i
  {
    if j :| 0 <= j < i && changes[j].path == changes[i].path {
      first := FirstWith(changes, j);
    } else {
      first := i;
    }
  }

  // ---------------------------------------------------------------- one call

  /** `settled` is what the live tree must come to.  While the journal is in
      progress the disk determines it; otherwise the live tree is it. */
  ghost predicate Sound(d: Disk, settled: Tree) {
    if Interrupted(d.journal) then WriteAhead(d.journal.value.operations, d.images, d.live, settled)
    else d.live == settled
  }

  /** No stored pre-image gave a read error, and no write to the live tree
      failed while it was undone. */
  predicate Faultless(faults: Faults) {
    faults == NO_FAULTS
  }

  /** The call met no error that the code discards. */
  predicate CleanReconcile(r: ReconcileResult, t: ReconcileTrace) {
    Faultless(t.faults) && (r.Restored? || r.Irrecoverable? ==> t.saved)
  }

  predicate Completed(r: ReconcileResult) {
    r.NothingToDo? || r.Restored?
  }

  /** Without an error a complete undo of a sound disk leaves the settled tree. */
  lemma FullUndoRestores(d: Disk, operations: seq<Operation>, settled: Tree, faults: Faults)
    requires WriteAhead(operations, d.images, d.live, settled) && Faultless(faults)
    ensures UndoDown(operations, 0, |operations|, d.images, d.live, faults) == settled
    ensures !AnyLost(operations, 0, |operations|, d.images, faults)
  {
    assert forall i | 0 <= i < |operations| :: !Lost(operations, i, d.images, faults);
    forall p | Touched(operations, p)
      ensures exists i | 0 <= i < |operations| :: Undone(operations, i, p, d.images, faults)
    {
      var i :| 0 <= i < |operations| && operations[i].path == p;
      assert Undone(operations, i, p, d.images, faults);
    }
    ReconcileExact(operations, d.images, d.live, settled, faults);
  }

  /** A reconcile keeps the disk sound; where the pre-images are held, none is
      lost, so it never asks for a manual recovery. */
  lemma ReconcileKeepsSound(d: Disk, e: Disk, r: ReconcileResult, t: ReconcileTrace, settled: Tree)
    requires Sound(d, settled)
    requires ReconcileStep(d, e, r, t) && CleanReconcile(r, t)
    ensures Sound(e, settled)
    ensures Completed(r) ==> !Interrupted(e.journal) && e.live == settled
    ensures !r.Irrecoverable?
  {
    if Interrupted(d.journal) && !r.JournalUnreadable? {
      var operations := d.journal.value.operations;
      UndoKeepsWriteAhead(operations, t.reached, d.images, d.live, settled, t.faults, |operations|);
      FullUndoRestores(d, operations, settled, t.faults);
    }
  }

  /** No error that the code discards, and no existing file taken for absent. */
  ghost predicate CleanApply(d: Disk, changes: seq<Change>, r: ApplyResult, t: ApplyTrace) {
    t.journaled ==>
      && Faultless(t.faults)
      && (r.Succeeded? || r.RolledBackCleanly? || r.RollbackIncomplete? ==> t.saved)
      && forall i | 0 <= i < |changes| :: !Overlooked(changes[i], d.live, i in t.unreadable)
  }

  /** What the live tree must come to after an apply. */
  function SettledAfterApply(settled: Tree, changes: seq<Change>, t: ApplyTrace): Tree {
    if t.journaled && t.saved && t.applied == |t.operations| then Advance(changes, |changes|, settled) else settled
  }

  lemma {:induction false} ApplyKeepsSound(d: Disk, e: Disk, changes: seq<Change>, r: ApplyResult, t: ApplyTrace)
    requires !Interrupted(d.journal)
    requires ApplyStep(d, e, changes, r, t) && CleanApply(d, changes, r, t)
    ensures Sound(e, SettledAfterApply(d.live, changes, t))
    ensures r.Succeeded? ==> e.live == Advance(changes, |changes|, d.live) && e.journal.value.status == Applied
    ensures r.RolledBackCleanly? ==> e.live == d.live
    ensures !r.RollbackIncomplete?
  {
    if t.journaled {
      var middle := Advance(changes, t.applied, d.live);
      assert t.undone == t.applied ==> e.live == middle;
      hide Advance, UndoDown, Marked;
      CaptureExact(t.operations, changes, d.live, e.images, t.unreadable);
      assert forall i | 0 <= i < t.applied :: !Lost(t.operations, i, e.images, t.faults);
      forall p | !Touched(t.operations, p)
        ensures Agrees(middle, d.live, p)
      {
        assert forall i | 0 <= i < |changes| :: t.operations[i].path == changes[i].path;
        AdvanceIsOverlay(changes, t.applied, d.live, p);
      }
      UndoKeepsWriteAhead(t.operations, t.undone, e.images, middle, d.live, t.faults, t.applied);
      if t.undone == 0 {
        RolledBackExactly(d, e, changes, t);
      }
    }
  }

  lemma CapturedPaths(operations: seq<Operation>, changes: seq<Change>, live: Tree, unreadable: set<nat>)
    requires Captured(operations, changes, live, unreadable)
    ensures forall i | 0 <= i < |changes| :: operations[i].path == changes[i].path
  {
  }

  predicate Untouched(changes: seq<Change>, n: nat, p: Path)
    requires n <= |changes|
  {
    forall i | 0 <= i < n :: changes[i].path != p
  }

  /** Undoing the operations that were carried out is enough: it restores the
      tree exactly when none of them that is the first on its path overlooked a
      file. */
  lemma RolledBackExactly(d: Disk, e: Disk, changes: seq<Change>, t: ApplyTrace)
    requires t.applied <= |changes|
    requires Captured(t.operations, changes, d.live, t.unreadable)
    requires Stored(t.operations, d.live, e.images)
    requires Faultless(t.faults)
    requires forall i | 0 <= i < t.applied :: changes[i].status == Deleted || changes[i].blob.Some?
    ensures UndoDown(t.operations, 0, t.applied, e.images, Advance(changes, t.applied, d.live), t.faults) == d.live
       <==> forall i | 0 <= i < t.applied && FirstOn(changes, i) ::
              !Overlooked(changes[i], d.live, i in t.unreadable)
  {
    var middle := Advance(changes, t.applied, d.live);
    forall p ensures Untouched(changes, t.applied, p) ==> Agrees(middle, d.live, p) {
      AdvanceIsOverlay(changes, t.applied, d.live, p);
    }
    CapturedPaths(t.operations, changes, d.live, t.unreadable);
    UndoRestoresExactly(t.operations, changes, t.applied, e.images, middle, d.live, t.unreadable, t.faults);
  }

  /** A clean rollback, as it is reported, restores the tree exactly when no
      change carried out, and first on its path, overlooked a file. */
  lemma CleanRollbackExactly(d: Disk, e: Disk, changes: seq<Change>, t: ApplyTrace)
    requires ApplyStep(d, e, changes, RolledBackCleanly, t) && t.faults.dropped == {}
    ensures e.live == d.live
       <==> forall i | 0 <= i < t.applied && FirstOn(changes, i) ::
              !Overlooked(changes[i], d.live, i in t.unreadable)
  {
    assert t.faults.unread == {} by {
      if i :| i in t.faults.unread { assert Lost(t.operations, i, e.images, t.faults); }
    }
    RolledBackExactly(d, e, changes, t);
  }

  // --------------------------------------------------------------- all runs

  /** One entry of a run.  Commanded is any other command that writes the state.
      Attempted is ApplyRevision: its own reconcile, the installation of features,
      and the apply proper. */
  datatype Event =
    | Edited
    | Commanded(next: MigrationState)
    | Recovered(action: RecoverAction, reported: bool, ct: RecoverTrace)
    | Reconciled(r: ReconcileResult, t: ReconcileTrace)
    | Attempted(reconciled: Disk, installed: Disk, changes: seq<Change>,
                rr: ReconcileResult, rt: ReconcileTrace, result: ApplyResult, trace: ApplyTrace)

  /** ApplyRevision takes `d` to `e`. */
  ghost predicate AttemptStep(d: Disk, e: Disk, a: Event)
    requires a.Attempted?
  {
    && ReconcileStep(d, a.reconciled, a.rr, a.rt)
    && if !Completed(a.rr) then e == a.reconciled
       else
         && a.installed == a.reconciled.(live := a.installed.live)
         && ApplyStep(a.installed, e, a.changes, a.result, a.trace)
  }

  /** Anyone may change the live tree; while a journal is in progress, after a
      crash or after an apply that could not be started, only at paths that the
      journal does not name. */
  ghost predicate EventStep(d: Disk, e: Disk, event: Event) {
    match event
    case Edited =>
      && e == d.(live := e.live)
      && (Interrupted(d.journal) ==> forall p | Touched(d.journal.value.operations, p) :: Agrees(e.live, d.live, p))
    case Commanded(next) => next in COMMANDED && e == d.(state := Moved(d.state, next))
    case Recovered(action, reported, t) => RecoverStep(d, e, action, reported, t)
    case Reconciled(r, t) => ReconcileStep(d, e, r, t)
    case Attempted(_, _, _, _, _, _, _) => AttemptStep(d, e, event)
  }

  ghost predicate CleanEvent(event: Event) {
    match event
    case Edited => true
    case Commanded(_) => true
    case Recovered(_, reported, t) => t.found && Faultless(t.faults) && (reported ==> t.saved)
    case Reconciled(r, t) => CleanReconcile(r, t)
    case Attempted(_, installed, changes, rr, rt, r, t) =>
      CleanReconcile(rr, rt) && (Completed(rr) ==> CleanApply(installed, changes, r, t))
  }

  /** Any run, with any errors. */
  ghost predicate AnyRun(disks: seq<Disk>, events: seq<Event>) {
    && |disks| == |events| + 1
    && disks[0].journal.None?
    && forall i | 0 <= i < |events| :: EventStep(disks[i], disks[i + 1], events[i])
  }

  /** A run without errors that the code discards. */
  ghost predicate Run(disks: seq<Disk>, events: seq<Event>) {
    AnyRun(disks, events) && forall i | 0 <= i < |events| :: CleanEvent(events[i])
  }

  /** `settled` after an edit to `live`: where a journal in progress names the
      path, the edit does not count. */
  ghost function AfterEdit(journal: Option<Journal>, settled: Tree, live: Tree): Tree {
    if !Interrupted(journal) then live
    else
      (map p | p in settled && Touched(journal.value.operations, p) :: settled[p])
      + (map p | p in live && !Touched(journal.value.operations, p) :: live[p])
  }

  /** `settled` after a recovery that took `d` to `e`: a rollback of a journal in
      progress, or a call that did not come to its journal, leaves it; otherwise
      whatever is there is what was asked for. */
  ghost function AfterRecover(d: Disk, e: Disk, action: RecoverAction, settled: Tree): Tree {
    if Interrupted(e.journal) || (Interrupted(d.journal) && action.ForceRollback?) then settled else e.live
  }

  /** What the live tree must come to after the first `n` events: an edit, a
      manual recovery or an apply that recorded success changes it. */
  ghost function Settled(disks: seq<Disk>, events: seq<Event>, n: nat): Tree
    requires |disks| == |events| + 1 && n <= |events|
  {
    if n == 0 then disks[0].live
    else match events[n - 1]
      case Edited => AfterEdit(disks[n].journal, Settled(disks, events, n - 1), disks[n].live)
      case Commanded(_) => Settled(disks, events, n - 1)
      case Recovered(action, _, _) => AfterRecover(disks[n - 1], disks[n], action, Settled(disks, events, n - 1))
      case Reconciled(_, _) => Settled(disks, events, n - 1)
      case Attempted(_, installed, changes, rr, _, _, t) =>
        if Completed(rr) then SettledAfterApply(installed.live, changes, t) else Settled(disks, events, n - 1)
  }

  lemma EditKeepsSound(d: Disk, e: Disk, settled: Tree)
    requires Sound(d, settled) && EventStep(d, e, Edited)
    ensures Sound(e, AfterEdit(e.journal, settled, e.live))
  {
    if Interrupted(d.journal) {
      var operations := d.journal.value.operations;
      var next := AfterEdit(e.journal, settled, e.live);
      forall i | 0 <= i < |operations|
        ensures operations[i].path in next <==> operations[i].path in settled
        ensures operations[i].path in next ==> next[operations[i].path] == settled[operations[i].path]
      {
        assert Touched(operations, operations[i].path);
      }
    }
  }

  lemma RecoverKeepsSound(d: Disk, e: Disk, action: RecoverAction, reported: bool, t: RecoverTrace, settled: Tree)
    requires Sound(d, settled) && RecoverStep(d, e, action, reported, t)
    requires t.found && Faultless(t.faults)
    ensures Sound(e, AfterRecover(d, e, action, settled))
  {
    if Interrupted(d.journal) && action.ForceRollback? {
      var operations := d.journal.value.operations;
      UndoKeepsWriteAhead(operations, t.reached, d.images, d.live, settled, t.faults, |operations|);
      if t.saved { FullUndoRestores(d, operations, settled, t.faults); }
    }
  }

  /** Crash safety over every run: at each point the disk either is settled or
      alone determines the settled tree, and a reconcile that completes leaves
      exactly that tree. */
  lemma {:induction false} RunIsSound(disks: seq<Disk>, events: seq<Event>, n: nat)
    requires Run(disks, events) && n <= |events|
    ensures Sound(disks[n], Settled(disks, events, n))
    ensures n > 0 && events[n - 1].Reconciled? && Completed(events[n - 1].r) ==>
              disks[n].live == Settled(disks, events, n - 1) && !Interrupted(disks[n].journal)
    ensures n > 0 && events[n - 1].Reconciled? ==> !events[n - 1].r.Irrecoverable?
    ensures n > 0 && events[n - 1].Attempted? && Completed(events[n - 1].rr) ==>
      !events[n - 1].result.RollbackIncomplete?
  {
    if n > 0 {
      RunIsSound(disks, events, n - 1);
      var d, e, settled := disks[n - 1], disks[n], Settled(disks, events, n - 1);
      assert EventStep(d, e, events[n - 1]) && CleanEvent(events[n - 1]);
      match events[n - 1] {
        case Edited =>
          EditKeepsSound(d, e, settled);
        case Commanded(_) =>
        case Recovered(action, reported, t) =>
          RecoverKeepsSound(d, e, action, reported, t, settled);
        case Reconciled(r, t) =>
          ReconcileKeepsSound(d, e, r, t, settled);
        case Attempted(reconciled, installed, changes, rr, rt, r, t) =>
          ReconcileKeepsSound(d, reconciled, rr, rt, settled);
          if Completed(rr) {
            ApplyKeepsSound(installed, e, changes, r, t);
          }
      }
    }
  }

  /** An interrupted journal of `changes`, recorded against `before`: the
      pre-images are stored and no other path has changed. */
  ghost predicate Underway(d: Disk, operations: seq<Operation>, changes: seq<Change>, before: Tree,
    unreadable: set<nat>) {
    && d.journal == Some(Journal(Applying, operations))
    && Captured(operations, changes, before, unreadable) && Stored(operations, before, d.images)
    && forall p | !Touched(operations, p) :: Agrees(d.live, before, p)
  }

  lemma DyingKeepsUnderway(
    d: Disk, e: Disk, t: ReconcileTrace, operations: seq<Operation>, changes: seq<Change>, before: Tree,
    unreadable: set<nat>)
    requires Underway(d, operations, changes, before, unreadable)
    requires ReconcileStep(d, e, ReconcileDied, t) && !t.saved
    ensures Underway(e, operations, changes, before, unreadable)
  {
    forall p | !Touched(operations, p) ensures Agrees(e.live, before, p) {
      UndoElsewhere(operations, t.reached, |operations|, d.images, d.live, t.faults, p);
    }
  }

  lemma CrashIsUnderway(d: Disk, e: Disk, changes: seq<Change>, t: ApplyTrace)
    requires ApplyStep(d, e, changes, ApplyDied, t) && t.journaled && !t.saved
    ensures Underway(e, t.operations, changes, d.live, t.unreadable)
  {
    var middle := Advance(changes, t.applied, d.live);
    forall p | !Touched(t.operations, p) ensures Agrees(e.live, d.live, p) {
      assert forall i | 0 <= i < |changes| :: t.operations[i] == Capture(changes[i], d.live, i !in t.unreadable);
      AdvanceIsOverlay(changes, t.applied, d.live, p);
      UndoElsewhere(t.operations, t.undone, t.applied, e.images, middle, t.faults, p);
    }
  }

  lemma RestoredFromUnderway(
    d: Disk, e: Disk, t: ReconcileTrace, operations: seq<Operation>, changes: seq<Change>, before: Tree,
    unreadable: set<nat>)
    requires Underway(d, operations, changes, before, unreadable)
    requires ReconcileStep(d, e, Restored, t) && Faultless(t.faults)
    ensures e.live == before
       <==> forall i | 0 <= i < |changes| && FirstOn(changes, i) :: !Overlooked(changes[i], before, i in unreadable)
  {
    forall p | (forall i | 0 <= i < |changes| :: operations[i].path != p)
      ensures Agrees(d.live, before, p)
    {
      assert !Touched(operations, p);
    }
    UndoRestoresExactly(operations, changes, |changes|, d.images, d.live, before, unreadable, t.faults);
  }

  /** An apply that dies anywhere, then any number of reconciles that die before
      their journal is written, then one that restores: the tree is as before the
      apply exactly when none of its changes, carried out or not, that is the
      first on its path overlooked a file. */
  lemma CrashRestoredExactly(
    d: Disk, changes: seq<Change>, t: ApplyTrace, crashed: seq<Disk>, traces: seq<ReconcileTrace>, e: Disk,
    last: ReconcileTrace)
    requires |crashed| == |traces| + 1
    requires ApplyStep(d, crashed[0], changes, ApplyDied, t) && t.journaled && !t.saved
    requires forall i | 0 <= i < |traces| ::
               ReconcileStep(crashed[i], crashed[i + 1], ReconcileDied, traces[i]) && !traces[i].saved
    requires ReconcileStep(crashed[|traces|], e, Restored, last) && Faultless(last.faults)
    ensures e.live == d.live
       <==> forall i | 0 <= i < |changes| && FirstOn(changes, i) :: !Overlooked(changes[i], d.live, i in t.unreadable)
  {
    CrashIsUnderway(d, crashed[0], changes, t);
    var i := 0;
    while i < |traces|
      invariant 0 <= i <= |traces|
      invariant Underway(crashed[i], t.operations, changes, d.live, t.unreadable)
    {
      DyingKeepsUnderway(crashed[i], crashed[i + 1], traces[i], t.operations, changes, d.live, t.unreadable);
      i := i + 1;
    }
    RestoredFromUnderway(crashed[|traces|], e, last, t.operations, changes, d.live, t.unreadable);
  }

  /** An apply that dies anywhere, then any number of reconciles that die, then
      one that completes: the live tree is as before, or the journal on disk
      says applied and the tree is the overlay of the revision. */
  lemma {:induction false} CrashThenReconcile(
    d: Disk, changes: seq<Change>, t: ApplyTrace, crashed: seq<Disk>, traces: seq<ReconcileTrace>,
    e: Disk, r: ReconcileResult, last: ReconcileTrace)
    requires !Interrupted(d.journal)
    requires |crashed| == |traces| + 1
    requires ApplyStep(d, crashed[0], changes, ApplyDied, t) && CleanApply(d, changes, ApplyDied, t)
    requires forall i | 0 <= i < |traces| ::
               ReconcileStep(crashed[i], crashed[i + 1], ReconcileDied, traces[i]) && Faultless(traces[i].faults)
    requires ReconcileStep(crashed[|traces|], e, r, last) && CleanReconcile(r, last) && Completed(r)
    ensures e.live == if t.journaled && t.saved && t.applied == |changes| then Advance(changes, |changes|, d.live)
      else d.live
    ensures t.journaled && t.saved && t.applied == |changes| ==> crashed[0].journal.value.status == Applied
  {
    var settled := SettledAfterApply(d.live, changes, t);
    ApplyKeepsSound(d, crashed[0], changes, ApplyDied, t);
    assert t.journaled ==> |t.operations| == |changes|;
    var i := 0;
    while i < |traces|
      invariant 0 <= i <= |traces|
      invariant Sound(crashed[i], settled)
    {
      ReconcileKeepsSound(crashed[i], crashed[i + 1], ReconcileDied, traces[i], settled);
      i := i + 1;
    }
    ReconcileKeepsSound(crashed[|traces|], e, r, last, settled);
  }
}
