/** Which migrations can still go on, after applies, crashes, reconciles and
    recoveries (operator/migration_apply.go, operator/migration/db.go). */
module MigrationStranded {
  import opened Wrappers
  import opened FileStore
  import opened MigrationStates
  import opened MigrationJournal
  import opened MigrationSafety
  import opened MigrationFailures

  // -------------------------------------------------- what no command can move

  /** The state says that an apply is under way, and no journal is. */
  predicate Stranded(d: Disk) {
    d.state == StateApplying && !Interrupted(d.journal)
  }

  /** A journal is in progress that names a pre-image, which may be lost. */
  ghost predicate MayBeLost(journal: Option<Journal>) {
    Interrupted(journal) && exists i | 0 <= i < |journal.value.operations| :: journal.value.operations[i].existedBefore
  }

  /** The state is final, or it is applying and no pre-image can be lost. */
  ghost predicate Fixed(d: Disk) {
    d.state in {StateApplied, StateDiscarded} || (d.state == StateApplying && !MayBeLost(d.journal))
  }

  lemma NothingLost(d: Disk, e: Disk, r: ReconcileResult, t: ReconcileTrace)
    requires Interrupted(d.journal) && !MayBeLost(d.journal) && ReconcileStep(d, e, r, t)
    ensures !r.Irrecoverable?
    ensures t.recorded && !r.JournalUnreadable? ==> e.state == Moved(d.state, ReadyForReview)
  {
    var operations := d.journal.value.operations;
    assert forall i | 0 <= i < |operations| :: !operations[i].existedBefore;
  }

  lemma ReconcileKeepsFixed(d: Disk, e: Disk, r: ReconcileResult, t: ReconcileTrace)
    requires Fixed(d) && ReconcileStep(d, e, r, t)
    ensures Fixed(e) && e.state == d.state
  {
    if Interrupted(d.journal) && d.state == StateApplying { NothingLost(d, e, r, t); }
  }

  lemma EventKeepsFixed(d: Disk, e: Disk, event: Event)
    requires Fixed(d) && EventStep(d, e, event)
    ensures Fixed(e) && e.state == d.state
  {
    match event {
      case Edited =>
      case Commanded(_) =>
      case Recovered(_, _, _) =>
      case Reconciled(r, t) => ReconcileKeepsFixed(d, e, r, t);
      case Attempted(reconciled, _, _, rr, rt, _, _) => ReconcileKeepsFixed(d, reconciled, rr, rt);
    }
  }

  /** Some event may change the state exactly when it is not fixed. */
  lemma StateMovesExactly(d: Disk)
    ensures (exists e: Disk, event: Event :: EventStep(d, e, event) && e.state != d.state) <==> !Fixed(d)
  {
    if Fixed(d) {
      forall e: Disk, event: Event | EventStep(d, e, event) ensures e.state == d.state {
        EventKeepsFixed(d, e, event);
      }
    } else if d.state == StateApplying {
      var e, t := LosesOne(d);
      assert EventStep(d, e, Reconciled(Irrecoverable, t));
    } else if d.state in {StateRollingBack, StateRecoveryRequired} {
      var t := RecoverTrace(false, 0, NO_FAULTS, false, true);
      var e := d.(state := ReadyForReview);
      assert EventStep(d, e, Recovered(Resolve, true, t));
    } else {
      var next := if d.state in {StateProcessing, StateStopping} then StateStopped else StateProcessing;
      assert EventStep(d, d.(state := next), Commanded(next));
    }
  }

  /** A reconcile that cannot read a pre-image gets a migration out of applying. */
  lemma LosesOne(d: Disk) returns (e: Disk, t: ReconcileTrace)
    requires d.state == StateApplying && MayBeLost(d.journal)
    ensures ReconcileStep(d, e, Irrecoverable, t) && e.state == StateRecoveryRequired
  {
    var operations := d.journal.value.operations;
    var i :| 0 <= i < |operations| && operations[i].existedBefore;
    var faults := if NotHeld(operations[i], d.images) then NO_FAULTS else Faults({i}, {});
    assert Lost(operations, i, d.images, faults);
    t := ReconcileTrace(0, faults, false, true);
    e := Disk(
      UndoDown(operations, 0, |operations|, d.images, d.live, faults), d.images, d.journal, StateRecoveryRequired);
  }

  /** A fixed state is for ever, whatever is called afterwards and however often;
      so is being stranded. */
  lemma {:induction false} FixedForever(disks: seq<Disk>, events: seq<Event>, n: nat)
    requires |disks| == |events| + 1 && n <= |events|
    requires forall i | 0 <= i < |events| :: EventStep(disks[i], disks[i + 1], events[i])
    requires Fixed(disks[0])
    ensures Fixed(disks[n]) && disks[n].state == disks[0].state
    ensures Stranded(disks[0]) ==> Stranded(disks[n])
  {
    if n > 0 {
      FixedForever(disks, events, n - 1);
      assert EventStep(disks[n - 1], disks[n], events[n - 1]);
      EventKeepsFixed(disks[n - 1], disks[n], events[n - 1]);
    }
  }

  /** An apply or a reconcile may change journal or state exactly when a journal is
      in progress or the state is ready; the rest is for the other commands. */
  lemma ApplyMovesExactly(d: Disk)
    ensures (exists e: Disk, event: Event ::
              (event.Reconciled? || event.Attempted?) && EventStep(d, e, event)
              && (e.journal != d.journal || e.state != d.state))
       <==> Interrupted(d.journal) || d.state == ReadyForReview
  {
    if Interrupted(d.journal) {
      var operations := d.journal.value.operations;
      var n := |operations|;
      var t := ReconcileTrace(0, NO_FAULTS, true, false);
      var r := if AnyLost(operations, 0, n, d.images, NO_FAULTS) then Irrecoverable else Restored;
      var e := Disk(
        UndoDown(operations, 0, n, d.images, d.live, NO_FAULTS), d.images,
        Some(Closed(d.journal.value, n, d.images, NO_FAULTS)), d.state);
      assert EventStep(d, e, Reconciled(r, t)) && e.journal != d.journal;
    } else if d.state == ReadyForReview {
      var rt := ReconcileTrace(0, NO_FAULTS, false, false);
      var t := ApplyTrace({}, true, true, [], {}, 0, 0, NO_FAULTS, false, true, true);
      var e := Disk(d.live, map[], Some(Finished(t, map[])), StateApplied);
      assert ApplyStep(d, e, [], Succeeded, t);
      assert EventStep(d, e, Attempted(d, d, [], NothingToDo, rt, Succeeded, t));
    }
  }

  // -------------------------------------------------------- who gets stranded

  /** A reconcile strands a migration exactly when the state was applying, the
      journal was closed, and nothing was lost or the loss was not recorded. */
  lemma StrandedByReconcileExactly(d: Disk, e: Disk, r: ReconcileResult, t: ReconcileTrace)
    requires Interrupted(d.journal) && !r.JournalUnreadable? && ReconcileStep(d, e, r, t)
    ensures Stranded(e)
       <==> d.state == StateApplying && t.saved
            && !(t.recorded && AnyLost(d.journal.value.operations, 0, |d.journal.value.operations|, d.images, t.faults))
  {
    hide AnyLost, UndoDown, FaultsWithin, Marked;
  }

  /** So a reconcile that restores everything, with no error at all, makes a
      migration ready again exactly when its state was not applying or final, and
      strands it exactly when it was applying. */
  lemma RestoredIsReadyExactly(d: Disk, e: Disk, t: ReconcileTrace)
    requires Interrupted(d.journal) && ReconcileStep(d, e, Restored, t) && t.saved && t.recorded
    ensures e.state == ReadyForReview <==> Allowed(d.state, ReadyForReview)
    ensures Stranded(e) <==> d.state == StateApplying
  {
    StrandedByReconcileExactly(d, e, Restored, t);
  }

  /** After a crash of an apply, any reconciles that die before they write, and one
      that restores everything: the migration is stranded exactly when the apply
      had marked itself as applying and not yet as rolling back. */
  lemma {:induction false} CrashStrandsExactly(
    d: Disk, changes: seq<Change>, t: ApplyTrace, crashed: seq<Disk>, traces: seq<ReconcileTrace>, e: Disk,
    last: ReconcileTrace)
    requires |crashed| == |traces| + 1 && !Interrupted(d.journal)
    requires ApplyStep(d, crashed[0], changes, ApplyDied, t) && t.journaled && !t.saved && !t.recorded
    requires forall i | 0 <= i < |traces| ::
               ReconcileStep(crashed[i], crashed[i + 1], ReconcileDied, traces[i])
               && !traces[i].saved && !traces[i].recorded
    requires ReconcileStep(crashed[|traces|], e, Restored, last) && last.saved && last.recorded
    ensures Stranded(e) <==> crashed[0].state == StateApplying
    ensures e.state == ReadyForReview <==> crashed[0].state in {ReadyForReview, StateRollingBack}
    decreases |traces|
  {
    var i := 0;
    while i < |traces|
      invariant 0 <= i <= |traces|
      invariant crashed[i].state == crashed[0].state && Interrupted(crashed[i].journal)
    {
      assert ReconcileStep(crashed[i], crashed[i + 1], ReconcileDied, traces[i]);
      i := i + 1;
    }
    RestoredIsReadyExactly(crashed[|traces|], e, last);
  }

  /** An apply strands a migration exactly when it wrote its final journal and
      the database did not take a state that may follow: after a success none was
      written; after a rollback the one that says rolling back was not, and the
      last one was not either, or was refused because nothing was lost. */
  lemma StrandedByApplyExactly(d: Disk, e: Disk, changes: seq<Change>, r: ApplyResult, t: ApplyTrace)
    requires !Stranded(d) && !Interrupted(d.journal) && ApplyStep(d, e, changes, r, t)
    ensures Stranded(e)
       <==> t.journaled && t.saved
            && if t.applied == |changes| then !t.recorded
               else !t.turned && (!t.recorded || !AnyLost(t.operations, 0, t.applied, e.images, t.faults))
  {
    hide AnyLost, UndoDown, FaultsWithin, Marked, Advance, Stored, Capture;
  }

  /** A recovery that writes makes the state ready exactly when the database lets
      it; what it reports is always that it is ready. */
  lemma RecoveredIsReadyExactly(d: Disk, e: Disk, action: RecoverAction, reported: bool, t: RecoverTrace)
    requires RecoverStep(d, e, action, reported, t) && t.recorded
    ensures e.state == ReadyForReview
       <==> d.state in {StateProcessing, StateValidating, ReadyForReview, StateRevising, StateRollingBack,
                        StateRecoveryRequired, StateStale, StateStopped}
  {
  }

  // ---------------------------------------------------------------- witnesses

  /** A crash after the state was written and before the first operation, and a
      reconcile without any error. */
  lemma StrandedAfterCrash() returns (d: Disk, e: Disk, died: ApplyTrace, t: ReconcileTrace)
    ensures ApplyStep(EMPTY_DISK, d, [CREATE], ApplyDied, died)
    ensures ReconcileStep(d, e, Restored, t) && t.saved && t.recorded && Faultless(t.faults)
    ensures Stranded(e) && e.live == EMPTY_DISK.live
  {
    died := ApplyTrace({}, true, true, [CREATION], {}, 0, 0, NO_FAULTS, false, false, false);
    t := ReconcileTrace(0, NO_FAULTS, true, true);
    d := Disk(map[], map[], Some(Journal(Applying, [CREATION])), StateApplying);
    e := Disk(map[], map[], Some(Closed(Journal(Applying, [CREATION]), 1, map[], NO_FAULTS)), StateApplying);
    CreationApplied();
    UndoOnly([CREATION], map[], map[], NO_FAULTS);
    assert !AnyLost([CREATION], 0, 1, map[], NO_FAULTS);
  }

  /** The recovery of such a migration reports that it is ready, and it is not. */
  lemma RecoverReportsReady(d: Disk) returns (e: Disk, t: RecoverTrace)
    requires Stranded(d)
    ensures RecoverStep(d, e, Resolve, true, t) && t.saved && t.recorded && Stranded(e)
  {
    t := RecoverTrace(d.journal.Some?, 0, NO_FAULTS, true, true);
    e := d.(journal := Some(Journal(Resolved, if d.journal.Some? then d.journal.value.operations else [])));
  }

  /** An apply that succeeds and dies before its state is written. */
  lemma StrandedAfterSuccess() returns (e: Disk, t: ApplyTrace)
    ensures ApplyStep(EMPTY_DISK, e, [CREATE], ApplyDied, t)
    ensures Stranded(e) && e.journal.value.status == Applied
  {
    t := ApplyTrace({}, true, true, [CREATION], {}, 1, 1, NO_FAULTS, false, true, false);
    e := Disk(map["new.md" := "text"], map[], Some(Finished(t, map[])), StateApplying);
    CreationApplied();
  }

  /** One that rolls back cleanly, and reports so, but could not write that it was
      rolling back: the last state is then refused. */
  lemma StrandedAfterRollback() returns (e: Disk, changes: seq<Change>, t: ApplyTrace)
    ensures ApplyStep(EMPTY_DISK, e, changes, RolledBackCleanly, t) && t.saved && t.recorded
    ensures Stranded(e) && e.journal.value.status == RolledBack
  {
    changes := [CREATE.(blob := None)];
    t := ApplyTrace({}, true, true, [CREATION], {}, 0, 0, NO_FAULTS, false, true, true);
    e := Disk(map[], map[], Some(Finished(t, map[])), StateApplying);
    assert Captured([CREATION], changes, map[], {});
    assert !AnyLost([CREATION], 0, 0, map[], NO_FAULTS);
  }
}
