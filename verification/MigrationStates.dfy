/** operator/migration/db.go: the states of a migration, and which of them the
    database lets follow which. */
module MigrationStates {
  datatype MigrationState =
    | StateUploaded | StateQueued | StateProcessing | StateValidating | ReadyForReview | StateRevising
    | StateApplying | StateRollingBack | StateRecoveryRequired | StateApplied | StateStale
    | StateStopping | StateStopped | StateFailed | StateDiscarded

  /** ValidStateTransitions */
  function Successors(s: MigrationState): set<MigrationState> {
    match s
    case StateUploaded => {StateQueued, StateProcessing, StateStopped, StateDiscarded, StateFailed}
    case StateQueued => {StateProcessing, StateStopped, StateDiscarded, StateFailed}
    case StateProcessing =>
      {StateValidating, ReadyForReview, StateStopping, StateStopped, StateFailed, StateDiscarded}
    case StateValidating =>
      {ReadyForReview, StateProcessing, StateStopping, StateStopped, StateFailed, StateDiscarded}
    case ReadyForReview =>
      {StateRevising, StateProcessing, StateApplying, StateStale, StateStopped, StateDiscarded, StateFailed}
    case StateRevising =>
      {StateProcessing, ReadyForReview, StateStopping, StateStopped, StateFailed, StateDiscarded}
    case StateApplying => {StateApplied, StateRollingBack, StateRecoveryRequired, StateFailed}
    case StateRollingBack => {ReadyForReview, StateRecoveryRequired, StateFailed}
    case StateRecoveryRequired => {StateApplying, ReadyForReview, StateFailed}
    case StateStale => {StateProcessing, ReadyForReview, StateStopped, StateDiscarded, StateFailed}
    case StateStopping => {StateStopped, StateFailed}
    case StateStopped => {StateProcessing, StateQueued, ReadyForReview, StateDiscarded, StateFailed}
    case StateFailed => {StateProcessing, StateDiscarded}
    case StateApplied => {}
    case StateDiscarded => {}
  }

  /** IsValidStateTransition */
  predicate Allowed(before: MigrationState, next: MigrationState) {
    before == next || next in Successors(before)
  }

  /** The state after a write that reached the database: one that is not allowed
      is refused and changes nothing. */
  function Moved(before: MigrationState, next: MigrationState): MigrationState {
    if Allowed(before, next) then next else before
  }

  /** How a state write ended. */
  datatype StateResult = Recorded | NotAllowed | NotWritten | StateDied

  /** What the commands other than apply, reconcile and recover may write: stop,
      discard, resume, also to the phase that a stop saved, feedback, retried jobs
      and the supervisor. */
  const COMMANDED: set<MigrationState> :=
    {StateUploaded, StateQueued, StateProcessing, StateValidating, ReadyForReview, StateRevising, StateStale,
     StateStopping, StateStopped, StateDiscarded}
}
