/** operator/migration_apply.go: what an apply keeps on disk, and the exact
    effect of its calls.  `Disk` is everything that survives a crash. */
module MigrationJournal {
  import opened Wrappers
  import opened FileStore
  import opened MigrationStates

  type Tree = map<Path, Bytes>

  datatype ChangeStatus = Added | Modified | Deleted | Renamed

  /** One changed file of a revision.  `blob` is its content at the revision's
      commit, None when the proposal repository cannot supply it. */
  datatype Change = Change(path: Path, status: ChangeStatus, oldHash: Option<Digest>, blob: Option<Bytes>)

  datatype OperationKind = Write | Delete

  datatype OperationStatus = Pending | OperationApplied | OperationRolledBack | OperationFailed

  datatype Operation = Operation(
    kind: OperationKind, path: Path, existedBefore: bool, backup: Option<Path>, status: OperationStatus)

  datatype JournalStatus = Applying | RollingBack | InProgress | RolledBack | Applied | Failed | Resolved

  datatype Journal = Journal(status: JournalStatus, operations: seq<Operation>)

  datatype Disk = Disk(live: Tree, images: Tree, journal: Option<Journal>, state: MigrationState)

  predicate Interrupted(journal: Option<Journal>) {
    journal.Some? && journal.value.status in {Applying, RollingBack, InProgress}
  }

  // ---------------------------------------------------------------- forward

  /** The live tree after one change has been applied. */
  function ApplyChange(change: Change, live: Tree): Tree {
    if change.status == Deleted then live - {change.path}
    else if change.blob.Some? then live[change.path := change.blob.value]
    else live
  }

  /** The live tree after the first `count` changes. */
  function Advance(changes: seq<Change>, count: nat, live: Tree): Tree
    requires count <= |changes|
  {
    if count == 0 then live else ApplyChange(changes[count - 1], Advance(changes, count - 1, live))
  }

  /** The live tree holds what the revision was made against. */
  predicate Expected(change: Change, live: Tree) {
    match change.status
    case Added => change.path !in live
    case Renamed => true
    case _ => change.path in live && (change.oldHash.Some? ==> Digest(live[change.path]) == change.oldHash.value)
  }

  /** What the check of a live file lets pass: an added file that could not be
      asked for counts as absent, any other that could not be read as changed. */
  predicate Passes(change: Change, live: Tree, readable: bool) {
    if readable then Expected(change, live) else change.status.Added? || change.status.Renamed?
  }

  /** A renamed file always passes; an added one unless it was seen to be there; any
      other one if it was read and has the content that the change names, if any. */
  lemma PassesExactly(change: Change, live: Tree, readable: bool)
    ensures change.status == Renamed ==> Passes(change, live, readable)
    ensures change.status == Added ==> (Passes(change, live, readable) <==> !readable || change.path !in live)
    ensures change.status == Modified || change.status == Deleted ==>
              (Passes(change, live, readable) <==>
                 && readable && change.path in live
                 && (change.oldHash == None || change.oldHash == Some(Digest(live[change.path]))))
  {
  }

  /** The proposal repository has the content of every file to be written. */
  predicate Complete(changes: seq<Change>) {
    forall i | 0 <= i < |changes| :: changes[i].status == Deleted || changes[i].blob.Some?
  }

  /** The operation recorded for one change: a pre-image is taken of a deleted
      file, and of a written file whenever the file can be read. */
  function Capture(change: Change, live: Tree, readable: bool): Operation {
    if change.status == Deleted then Operation(Delete, change.path, true, Some(change.path), Pending)
    else if readable && change.path in live then Operation(Write, change.path, true, Some(change.path), Pending)
    else Operation(Write, change.path, false, None, Pending)
  }

  /** `operations` records `changes` against `live`; `unreadable` holds the
      indices at which reading the current file reported an error. */
  ghost predicate Captured(operations: seq<Operation>, changes: seq<Change>, live: Tree, unreadable: set<nat>) {
    && |operations| == |changes|
    && forall i | 0 <= i < |changes| :: operations[i] == Capture(changes[i], live, i !in unreadable)
  }

  /** Every operation that had a file before has that file's content stored. */
  ghost predicate Stored(operations: seq<Operation>, live: Tree, images: Tree) {
    forall i | 0 <= i < |operations| && operations[i].existedBefore ::
      && operations[i].path in live
      && operations[i].backup == Some(operations[i].path)
      && operations[i].path in images
      && images[operations[i].path] == live[operations[i].path]
  }

  // --------------------------------------------------------------- backward

  /** Errors that the disk alone does not explain: `unread` are operations whose
      pre-image is stored but could not be read, `dropped` are those whose write
      or removal of the live file failed, an error the code does not look at. */
  datatype Faults = Faults(unread: set<nat>, dropped: set<nat>)

  const NO_FAULTS := Faults({}, {})

  /** The journal does not name a pre-image, or the disk does not hold it. */
  predicate NotHeld(op: Operation, images: Tree) {
    op.existedBefore && (op.backup.None? || op.backup.value !in images)
  }

  /** The pre-image of operation `i` was not to be had. */
  predicate Lost(operations: seq<Operation>, i: nat, images: Tree, faults: Faults)
    requires i < |operations|
  {
    NotHeld(operations[i], images) || i in faults.unread
  }

  ghost predicate AnyLost(operations: seq<Operation>, low: nat, high: nat, images: Tree, faults: Faults)
    requires high <= |operations|
  {
    exists i | low <= i < high :: Lost(operations, i, images, faults)
  }

  /** The live tree after operation `i` has been undone. */
  function Undo(operations: seq<Operation>, i: nat, images: Tree, live: Tree, faults: Faults): Tree
    requires i < |operations|
  {
    var op := operations[i];
    if Lost(operations, i, images, faults) || i in faults.dropped then live
    else if op.existedBefore then live[op.path := images[op.backup.value]]
    else live - {op.path}
  }

  /** The live tree after operations `high - 1` down to `low` have been undone. */
  function UndoDown(operations: seq<Operation>, low: nat, high: nat, images: Tree, live: Tree, faults: Faults): Tree
    requires low <= high <= |operations|
    decreases high - low
  {
    if low == high then live
    else Undo(operations, low, images, UndoDown(operations, low + 1, high, images, live, faults), faults)
  }

  /** `faults` together with what happened when operation `i` was undone. */
  function Noted(faults: Faults, i: nat, unread: bool, dropped: bool): Faults {
    Faults(
      if unread then faults.unread + {i} else faults.unread, if dropped then faults.dropped + {i} else faults.dropped)
  }

  /** The statuses recorded for operations `low` up to `high` once undone. */
  function Marked(operations: seq<Operation>, low: nat, high: nat, images: Tree, faults: Faults): (r: seq<Operation>)
    ensures |r| == |operations|
  {
    seq(|operations|, i requires 0 <= i < |operations| =>
      if low <= i < high then
        operations[i].(status := if Lost(operations, i, images, faults) then OperationFailed else OperationRolledBack)
      else operations[i])
  }

  /** The errors are those of operations `low` up to `high`: only a stored
      pre-image is unread, and only a file whose pre-image was read, or that was
      absent, is dropped. */
  ghost predicate FaultsWithin(operations: seq<Operation>, low: nat, high: nat, images: Tree, faults: Faults)
    requires high <= |operations|
  {
    && (forall i <- faults.unread ::
          low <= i < high && operations[i].existedBefore && !NotHeld(operations[i], images))
    && (forall i <- faults.dropped :: low <= i < high && !Lost(operations, i, images, faults))
  }

  // -------------------------------------------------------------- reconcile

  datatype ReconcileResult = NothingToDo | Restored | Irrecoverable | JournalUnreadable | ReconcileDied

  /** How far a reconcile came: operations from `reached` on were undone, `saved`
      tells whether the final journal was written, and `recorded` whether the
      database took the call that writes the state, be it to refuse it. */
  datatype ReconcileTrace = ReconcileTrace(reached: nat, faults: Faults, saved: bool, recorded: bool)

  /** The journal that ends an undo of operations up to `high`. */
  ghost function Closed(journal: Journal, high: nat, images: Tree, faults: Faults): Journal
    requires high <= |journal.operations|
  {
    Journal(
      if AnyLost(journal.operations, 0, high, images, faults) then JournalStatus.Failed else RolledBack,
      Marked(journal.operations, 0, high, images, faults))
  }

  ghost function ClosedState(operations: seq<Operation>, high: nat, images: Tree, faults: Faults): MigrationState
    requires high <= |operations|
  {
    if AnyLost(operations, 0, high, images, faults) then StateRecoveryRequired else ReadyForReview
  }

  /** ReconcileInterruptedApply takes `d` to `e`. */
  ghost predicate ReconcileStep(d: Disk, e: Disk, r: ReconcileResult, t: ReconcileTrace) {
    if !Interrupted(d.journal) || r.JournalUnreadable? then
      e == d && (r.JournalUnreadable? || r.NothingToDo?)
    else
      var operations := d.journal.value.operations;
      && t.reached <= |operations|
      && FaultsWithin(operations, t.reached, |operations|, d.images, t.faults)
      && e.images == d.images
      && e.live == UndoDown(operations, t.reached, |operations|, d.images, d.live, t.faults)
      && e.journal == (if t.saved then Some(Closed(d.journal.value, |operations|, d.images, t.faults)) else d.journal)
      && e.state == (if t.recorded then Moved(d.state, ClosedState(operations, |operations|, d.images, t.faults))
                     else d.state)
      && (t.saved || t.recorded ==> t.reached == 0)
      && match r
         case NothingToDo => false
         case JournalUnreadable => false
         case Restored => t.reached == 0 && !AnyLost(operations, 0, |operations|, d.images, t.faults)
         case Irrecoverable => t.reached == 0 && AnyLost(operations, 0, |operations|, d.images, t.faults)
         case ReconcileDied => true
  }

  // ---------------------------------------------------------------- recover

  datatype RecoverAction = ForceRollback | Resolve

  /** `found` tells whether the journal could be read. */
  datatype RecoverTrace = RecoverTrace(found: bool, reached: nat, faults: Faults, saved: bool, recorded: bool)

  /** The operations as a forced rollback records them. */
  function Forced(operations: seq<Operation>, images: Tree, faults: Faults): (r: seq<Operation>)
    ensures |r| == |operations|
  {
    seq(|operations|, i requires 0 <= i < |operations| =>
      if Lost(operations, i, images, faults) then operations[i] else operations[i].(status := OperationRolledBack))
  }

  /** RecoverMigration takes `d` to `e`; it reports that the migration is ready,
      whatever the database made of it. */
  ghost predicate RecoverStep(d: Disk, e: Disk, action: RecoverAction, reported: bool, t: RecoverTrace) {
    && (t.found ==> d.journal.Some?)
    && var operations := if t.found then d.journal.value.operations else [];
    && t.reached <= |operations|
    && e.images == d.images
    && (if action.Resolve? then t.reached == 0 && t.faults == NO_FAULTS && e.live == d.live
        else
          && FaultsWithin(operations, t.reached, |operations|, d.images, t.faults)
          && e.live == UndoDown(operations, t.reached, |operations|, d.images, d.live, t.faults))
    && e.journal == (if !t.saved then d.journal
                     else if action.Resolve? then Some(Journal(Resolved, operations))
                     else Some(Journal(RolledBack, Forced(operations, d.images, t.faults))))
    && e.state == (if t.recorded then Moved(d.state, ReadyForReview) else d.state)
    && (reported || t.saved || t.recorded ==> t.reached == 0)
  }

  // ------------------------------------------------------------------ apply

  datatype ApplyResult =
    | ReconcileStopped            // the reconcile did not complete
    | Refused                     // the revision cannot be applied
    | Stale                       // a live file is not what the revision expects
    | Unsafe                      // a path leaves the workspace
    | Unprepared                  // a pre-image or the journal could not be written
    | Unstarted                   // the state could not be moved to applying
    | Succeeded
    | RolledBackCleanly
    | RollbackIncomplete
    | ApplyDied

  /** How far an apply came.  `unread` are files that the check could
      not read or ask for, `erased` tells whether the rollback directory was being
      emptied and filled anew; once the journal was on disk, `applied` operations
      were carried out, those from `undone` on were undone again; `turned` tells
      whether the state said so, `saved` whether the final journal was written, and
      `recorded` whether the database took the call that writes the final state. */
  datatype ApplyTrace = ApplyTrace(
    unread: set<nat>, erased: bool, journaled: bool, operations: seq<Operation>, unreadable: set<nat>,
    applied: nat, undone: nat, faults: Faults, turned: bool, saved: bool, recorded: bool)

  const UNTRIED := ApplyTrace({}, false, false, [], {}, 0, 0, NO_FAULTS, false, false, false)

  /** The journal that ends an apply. */
  ghost function Finished(t: ApplyTrace, images: Tree): Journal {
    if t.applied == |t.operations| then
      Journal(
        Applied,
        seq(|t.operations|, i requires 0 <= i < |t.operations| => t.operations[i].(status := OperationApplied)))
    else if t.applied < |t.operations| then Closed(Journal(Applying, t.operations), t.applied, images, t.faults)
    else Journal(Applying, t.operations)
  }

  /** The state while the operations are carried out or undone. */
  function MiddleState(t: ApplyTrace): MigrationState {
    if t.turned then StateRollingBack else StateApplying
  }

  /** The migration state that an apply asks for at its end. */
  ghost function FinishedState(t: ApplyTrace, images: Tree): MigrationState
    requires t.applied <= |t.operations|
  {
    if t.applied == |t.operations| then StateApplied else ClosedState(t.operations, t.applied, images, t.faults)
  }

  /** An apply whose journal is on disk takes the live tree `start` and the
      stored pre-images to `e`. */
  ghost predicate Progress(start: Tree, e: Disk, changes: seq<Change>, r: ApplyResult, t: ApplyTrace)
    requires |t.operations| == |changes|
  {
    && t.undone <= t.applied <= |changes| && (t.applied == |changes| ==> t.undone == t.applied)
    && (forall i | 0 <= i < t.applied :: changes[i].status == Deleted || changes[i].blob.Some?)
    && FaultsWithin(t.operations, t.undone, t.applied, e.images, t.faults)
    && e.live == UndoDown(t.operations, t.undone, t.applied, e.images, Advance(changes, t.applied, start), t.faults)
    && e.journal == Some(if t.saved then Finished(t, e.images) else Journal(Applying, t.operations))
    && (t.turned ==> t.applied < |changes|)
    && (if t.recorded then e.state == Moved(MiddleState(t), FinishedState(t, e.images))
        else e.state == MiddleState(t) || (e.state == ReadyForReview && t.applied == 0 && !t.turned && !t.saved))
    && (t.saved || t.recorded ==> t.undone == 0 || t.applied == |changes|)
    && match r
       case Unstarted => t.applied == 0 && !t.saved && !t.recorded && e.state == ReadyForReview
       case Succeeded => t.applied == |changes|
       case RolledBackCleanly =>
         t.undone == 0 && t.applied < |changes| && !AnyLost(t.operations, 0, t.applied, e.images, t.faults)
       case RollbackIncomplete =>
         t.undone == 0 && t.applied < |changes| && AnyLost(t.operations, 0, t.applied, e.images, t.faults)
       case ApplyDied => true
       case _ => false
  }

  /** ApplyRevision, after its reconcile, takes `d` to `e`. */
  ghost predicate ApplyStep(d: Disk, e: Disk, changes: seq<Change>, r: ApplyResult, t: ApplyTrace) {
    if !t.journaled then
      && e.live == d.live && e.journal == d.journal
      && (if t.erased then d.state == ReadyForReview && (r.Unprepared? || r.ApplyDied?) else e.images == d.images)
      && (r.Refused? || r.Stale? || r.Unsafe? || r.Unprepared? || r.ApplyDied?)
      && (e.state == d.state
          || (d.state == ReadyForReview && e.state in {StateStale, StateFailed} && !r.Refused? && !r.Unprepared?
              && (r.Stale? ==> e.state == StateStale) && (r.Unsafe? ==> e.state == StateFailed)))
      && (r.Stale? ==> exists i | 0 <= i < |changes| :: !Passes(changes[i], d.live, i !in t.unread))
    else
      && d.state == ReadyForReview
      && (forall i | 0 <= i < |changes| :: Passes(changes[i], d.live, i !in t.unread))
      && Captured(t.operations, changes, d.live, t.unreadable)
      && Stored(t.operations, d.live, e.images)
      && Progress(d.live, e, changes, r, t)
  }
}
