/** operator/backup.go and filesystem.go: live directory trees are replaced by
    staged ones through renames, and put back when a later step fails. */
module RestoreSwap {
  import opened Environment

  type Root = string

  /** Undone: an error was reported and the old trees are live again.
      Unrecorded: an error was reported after the last point of return. */
  datatype Outcome = Committed | Undone | Unrecorded | Crashed

  function Picked<T>(trees: map<Root, T>, roots: seq<Root>): map<Root, T> {
    map r | r in trees && r in roots :: trees[r]
  }

  predicate Distinct(roots: seq<Root>) {
    forall i, j | 0 <= i < j < |roots| :: roots[i] != roots[j]
  }

  function All(roots: seq<Root>): set<Root> {
    set r <- roots
  }

  /** The roots from position `i` on. */
  function From(roots: seq<Root>, i: nat): set<Root> {
    set j | i <= j < |roots| :: roots[j]
  }

  lemma FromEnds(roots: seq<Root>)
    ensures From(roots, 0) == All(roots) && From(roots, |roots|) == {}
  {
    forall r ensures r in From(roots, 0) <==> r in All(roots) {
      if r in All(roots) {
        var j :| 0 <= j < |roots| && roots[j] == r;
      }
    }
  }

  lemma FromStep(roots: seq<Root>, i: nat)
    requires Distinct(roots) && i < |roots|
    ensures roots[i] !in From(roots, i + 1) && From(roots, i) == {roots[i]} + From(roots, i + 1)
    ensures From(roots, i) <= All(roots)
  {
  }

  class Swap<T(0)> {
    const calm: bool
    /** The trees under their own names, moved aside, and staged. */
    var live: map<Root, T>
    var aside: map<Root, T>
    var staged: map<Root, T>
    /** Some step of an undo failed; the code ignores such errors. */
    ghost var slipped: bool

    /** Every tree of `before` is still on disk, moved aside or live. */
    ghost predicate Keeps(before: map<Root, T>)
      reads this
    {
      live + aside == before
    }

    /** The same, up to a change record that says that the restoration failed. */
    ghost predicate KeepsTo(before: map<Root, T>, meta: Root, failed: T -> T)
      reads this
    {
      Keeps(before) || (meta in before && live + aside == before[meta := failed(before[meta])])
    }

    constructor (trees: map<Root, T>, replacements: map<Root, T>, calm: bool)
      ensures this.calm == calm && live == trees && staged == replacements && aside == map[] && !slipped
    {
      this.calm, live, staged, aside, slipped := calm, trees, replacements, map[], false;
    }

    // ------------------------------------------------------ file operations

    /** os.Rename of a live tree to its place aside. */
    method MoveAside(r: Root) returns (step: IoResult)
      modifies this`live, this`aside
      ensures step.Done? ==> r in old(live) && live == old(live) - {r} && aside == old(aside)[r := old(live)[r]]
      ensures !step.Done? ==> live == old(live) && aside == old(aside)
      ensures calm ==> step == if r in old(live) then Done else Failed
    {
      step := Chance(calm);
      if step.Done? && r !in live { step := Failed; }
      if step.Done? {
        aside := aside[r := live[r]];
        live := live - {r};
      }
    }

    /** os.Rename of a staged tree to its live place. */
    method MoveIn(r: Root) returns (step: IoResult)
      modifies this`live, this`staged
      ensures step.Done? ==> r in old(staged) && live == old(live)[r := old(staged)[r]] && staged == old(staged) - {r}
      ensures !step.Done? ==> live == old(live) && staged == old(staged)
      ensures calm ==> step == if r in old(staged) && r !in old(live) then Done else Failed
    {
      step := Chance(calm);
      if step.Done? && (r !in staged || r in live) { step := Failed; }
      if step.Done? {
        live := live[r := staged[r]];
        staged := staged - {r};
      }
    }

    /** os.Rename back, its error ignored: a directory does not replace one that
        is still there. */
    method PutBack(r: Root) returns (died: bool)
      modifies this`live, this`aside, this`slipped
      ensures !died && !slipped ==> !old(slipped) && r in old(aside) && aside == old(aside) - {r}
      ensures (live == old(live) && aside == old(aside))
           || (r !in old(live) && r in old(aside) && live == old(live)[r := old(aside)[r]] && aside == old(aside) - {r})
      ensures calm ==> !died && (slipped <==> old(slipped) || r in old(live) || r !in old(aside))
    {
      var ends := Chance(calm);
      if ends.Died? { return true; }
      if ends.Failed? || r in live || r !in aside {
        slipped := true;
      } else {
        live := live[r := aside[r]];
        aside := aside - {r};
      }
      return false;
    }

    /** os.RemoveAll of a live tree, its error ignored: part of the tree may be
        left. */
    method Clear(r: Root) returns (died: bool)
      modifies this`live, this`slipped
      ensures live - {r} == old(live) - {r} && (r in live ==> r in old(live))
      ensures !slipped ==> !old(slipped) && (!died ==> r !in live)
      ensures calm ==> !died && slipped == old(slipped) && r !in live
    {
      var ends := Chance(calm);
      if ends.Done? {
        live := live - {r};
        return false;
      }
      if r in live {
        var part: T := *;
        live := live[r := part];
        slipped := true;
      }
      return ends.Died?;
    }

    // ----------------------------------------------------------- the undoing

    /** The undo loop of the first phase: every root that did move goes back. */
    method UndoMoves(roots: seq<Root>, ghost before: map<Root, T>) returns (died: bool)
      requires Distinct(roots) && Keeps(before) && live.Keys !! aside.Keys && aside.Keys <= All(roots)
      modifies this`live, this`aside, this`slipped
      ensures Keeps(before)
      ensures !died && !slipped ==> live == before
      ensures calm ==> !died && slipped == old(slipped)
    {
      FromEnds(roots);
      hide Distinct, From, All;
      for i := 0 to |roots|
        invariant Keeps(before) && live.Keys !! aside.Keys && (calm ==> slipped == old(slipped))
        invariant !slipped ==> aside.Keys <= From(roots, i)
      {
        FromStep(roots, i);
        if roots[i] in aside {
          ReturnedSame(live, aside, roots[i]);
          died := PutBack(roots[i]);
          if died { return; }
        }
      }
      return false;
    }

    /** One live root is cleared, and what was moved aside goes back. */
    method UndoOne(r: Root, ghost before: map<Root, T>) returns (died: bool)
      requires Keeps(before) && r in aside
      modifies this`live, this`aside, this`slipped
      ensures Keeps(before) && old(aside).Keys - {r} <= aside.Keys <= old(aside).Keys
      ensures !died && !slipped ==> !old(slipped) && r !in aside
      ensures calm ==> !died && slipped == old(slipped)
    {
      ghost var there := live;
      died := Clear(r);
      ClearedSame(there, live, aside, r);
      if died { return; }
      ReturnedSame(live, aside, r);
      died := PutBack(r);
    }

    /** The undo loop of the second phase. */
    method UndoSwap(roots: seq<Root>, ghost before: map<Root, T>) returns (died: bool)
      requires Distinct(roots) && Keeps(before) && aside.Keys == All(roots)
      modifies this`live, this`aside, this`slipped
      ensures Keeps(before)
      ensures !died && !slipped ==> live == before && aside == map[]
      ensures calm ==> !died && slipped == old(slipped)
    {
      FromEnds(roots);
      hide Distinct, From, All;
      for i := 0 to |roots|
        invariant Keeps(before) && (calm ==> slipped == old(slipped))
        invariant From(roots, i) <= aside.Keys && (!slipped ==> aside.Keys == From(roots, i))
      {
        FromStep(roots, i);
        died := UndoOne(roots[i], before);
        if died { return; }
      }
      return false;
    }

    // ------------------------------------------------------------ the swaps

    /** A change record, written and then given to its owner: an error may come
        before or after it is there. */
    method Note(meta: Root, record: T -> T) returns (step: IoResult)
      modifies this`live
      ensures step.Done? ==> meta in old(live) && live == old(live)[meta := record(old(live)[meta])]
      ensures live == old(live) || (meta in old(live) && live == old(live)[meta := record(old(live)[meta])])
      ensures calm ==> step == if meta in old(live) then Done else Failed
    {
      step := Chance(calm);
      var written: bool := *;
      if step.Done? { written := true; }
      if meta !in live {
        written := false;
        if step.Done? { step := Failed; }
      }
      if written { live := live[meta := record(live[meta])]; }
    }

    /** The record of a failure, its error ignored, once everything is undone. */
    method NoteFailure(meta: Root, failed: T -> T, ghost before: map<Root, T>) returns (died: bool)
      requires Keeps(before)
      modifies this`live
      ensures KeepsTo(before, meta, failed)
      ensures live == old(live) || (meta in old(live) && live == old(live)[meta := failed(old(live)[meta])])
      ensures calm ==> !died && (meta in old(live) ==> live == old(live)[meta := failed(old(live)[meta])])
    {
      ghost var there := live;
      var step := Note(meta, failed);
      NotedSame(there, live, aside, meta, failed);
      return step.Died?;
    }

    /** Both loops of a restoration: every root moves aside, then every staged
        root moves in.  An error undoes what was done; that of the second loop is
        recorded. */
    method Exchange(roots: seq<Root>, meta: Root, failed: T -> T) returns (outcome: Outcome)
      requires Distinct(roots) && aside == map[] && !slipped
      modifies this
      ensures outcome.Committed? ==> forall r <- roots :: r in old(live) && r in old(staged)
      ensures outcome.Committed? ==> Keeps(old(live)) && aside.Keys == All(roots) && !slipped
      ensures outcome.Committed? ==> live == old(live) + Picked(old(staged), roots)
      ensures !outcome.Committed? ==> KeepsTo(old(live), meta, failed) && !outcome.Unrecorded?
      ensures outcome.Undone? && !slipped ==> Undid(old(live), live, meta, failed)
      ensures calm && outcome.Undone? && meta in old(live) ==>
                live == if forall r <- roots :: r in old(live) then old(live)[meta := failed(old(live)[meta])]
                        else old(live)
      ensures calm ==> (outcome.Committed? <==> forall r <- roots :: r in old(live) && r in old(staged))
      ensures calm ==> !slipped && !outcome.Crashed?
    {
      ghost var before, replacements := live, staged;
      var step;
      FromEnds(roots);
      hide Distinct, From, Picked;
      for i := 0 to |roots|
        invariant Keeps(before) && live.Keys !! aside.Keys && !slipped && staged == replacements
        invariant aside.Keys !! From(roots, i) && aside.Keys + From(roots, i) == All(roots)
        invariant aside.Keys <= before.Keys
      {
        FromStep(roots, i);
        step := MoveAside(roots[i]);
        if !step.Done? {
          if step.Died? { return Crashed; }
          var died := UndoMoves(roots, before);
          return if died then Crashed else Undone;
        }
      }
      outcome := FillIn(roots, meta, failed, before);
    }

    /** A staged tree takes the place of one that was moved aside. */
    method MoveOneIn(r: Root, ghost before: map<Root, T>) returns (step: IoResult)
      requires Keeps(before) && r in aside
      modifies this`live, this`staged
      ensures Keeps(before) && staged.Keys <= old(staged).Keys
      ensures forall q <- staged :: staged[q] == old(staged)[q]
      ensures step.Done? ==> r in old(staged) && live == old(live)[r := old(staged)[r]]
      ensures step.Done? ==> staged == old(staged) - {r}
      ensures !step.Done? ==> live == old(live) && staged == old(staged)
      ensures calm ==> step == if r in old(staged) && r !in old(live) then Done else Failed
    {
      ghost var there := live;
      step := MoveIn(r);
      if step.Done? {
        assert live - {r} == there - {r};
        ClearedSame(there, live, aside, r);
      }
    }

    method MoveAllIn(roots: seq<Root>, ghost before: map<Root, T>) returns (step: IoResult)
      requires Distinct(roots) && Keeps(before) && aside.Keys == All(roots) && live.Keys !! aside.Keys
      modifies this`live, this`staged
      ensures Keeps(before)
      ensures step.Done? ==> live == before + Picked(old(staged), roots) && forall r <- roots :: r in old(staged)
      ensures calm ==> step == if forall r <- roots :: r in old(staged) then Done else Failed
    {
      ghost var first, replacements := live, staged;
      FromEnds(roots);
      hide Distinct, From, Picked;
      for i := 0 to |roots|
        invariant Keeps(before) && aside == old(aside)
        invariant live == Filled(first, replacements, roots, i)
        invariant forall j | 0 <= j < i :: roots[j] in replacements
        invariant live.Keys !! From(roots, i) && Remains(replacements, staged, From(roots, i))
      {
        ghost var there := staged;
        FromStep(roots, i);
        step := MoveOneIn(roots[i], before);
        if !step.Done? { return; }
        RemainsWithout(replacements, there, staged, roots[i], From(roots, i + 1));
      }
      FilledIsPicked(first, aside, replacements, roots);
      return Done;
    }

    /** The second loop of a restoration. */
    method FillIn(roots: seq<Root>, meta: Root, failed: T -> T, ghost before: map<Root, T>) returns (outcome: Outcome)
      requires Distinct(roots) && Keeps(before) && !slipped && aside.Keys == All(roots)
      requires live.Keys !! aside.Keys
      modifies this
      ensures outcome.Committed? ==> aside == old(aside) && !slipped && Keeps(before)
      ensures outcome.Committed? ==>
        live == before + Picked(old(staged), roots) && forall r <- roots :: r in old(staged)
      ensures !outcome.Committed? ==> KeepsTo(before, meta, failed) && !outcome.Unrecorded?
      ensures outcome.Undone? && !slipped ==> Undid(before, live, meta, failed)
      ensures calm && outcome.Undone? && meta in before ==> live == before[meta := failed(before[meta])]
      ensures calm ==> !slipped && outcome == if forall r <- roots :: r in old(staged) then Committed else Undone
    {
      var step := MoveAllIn(roots, before);
      if step.Done? { return Committed; }
      if step.Died? { return Crashed; }
      var died := UndoSwap(roots, before);
      if died { return Crashed; }
      died := NoteFailure(meta, failed, before);
      return if died then Crashed else Undone;
    }

    /** The writes into the metadata root, up to the first error. */
    method WriteAll(meta: Root, writes: seq<T -> T>, ghost before: map<Root, T>) returns (step: IoResult)
      requires Keeps(before) && meta in aside && meta in live
      modifies this`live
      ensures Keeps(before)
      ensures step.Done? ==> live == old(live)[meta := Written(old(live)[meta], writes, |writes|)]
      ensures calm ==> step.Done?
    {
      for i := 0 to |writes|
        invariant Keeps(before) && meta in live && live == old(live)[meta := Written(old(live)[meta], writes, i)]
      {
        step := Chance(calm);
        if !step.Done? { return; }
        live := live[meta := writes[i](live[meta])];
      }
      return Done;
    }

    /** The change record, after which nothing is undone. */
    method Record(meta: Root, record: T -> T, ghost before: map<Root, T>) returns (outcome: Outcome)
      requires Keeps(before) && meta in aside && meta in live
      modifies this`live
      ensures Keeps(before) && !outcome.Undone?
      ensures live == old(live) || live == old(live)[meta := record(old(live)[meta])]
      ensures outcome.Committed? ==> live == old(live)[meta := record(old(live)[meta])]
      ensures calm ==> outcome.Committed?
    {
      ghost var there := live;
      var step := Note(meta, record);
      assert live - {meta} == there - {meta};
      ClearedSame(there, live, aside, meta);
      return match step case Done => Committed case Failed => Unrecorded case Died => Crashed;
    }

    /** The change record or, failing that, one that says so. */
    method RecordEnd(meta: Root, record: T -> T, failed: T -> T, ghost before: map<Root, T>) returns (outcome: Outcome)
      requires Keeps(before) && meta in aside && meta in live
      modifies this`live
      ensures Keeps(before) && !outcome.Undone? && meta in live && live == old(live)[meta := live[meta]]
      ensures outcome.Committed? ==> live[meta] == record(old(live)[meta])
      ensures outcome.Unrecorded? ==> Tried(old(live)[meta], [record, failed], live[meta])
      ensures calm ==> outcome.Committed?
    {
      ghost var tree := live[meta];
      outcome := Record(meta, record, before);
      if outcome.Unrecorded? {
        ghost var first := live[meta];
        var again := Record(meta, failed, before);
        TriedTwo(tree, first, live[meta], record, failed);
        if again.Crashed? { return Crashed; }
      }
    }

    /** What follows the exchange: the state file in the metadata root, and the
        change record or, failing that, one that says so. */
    method Conclude(roots: seq<Root>, meta: Root, writes: seq<T -> T>, record: T -> T, failed: T -> T,
                    ghost before: map<Root, T>)
      returns (outcome: Outcome)
      requires Distinct(roots) && Keeps(before) && aside.Keys == All(roots)
      requires meta in roots && meta in live && !slipped
      modifies this`live, this`aside, this`slipped
      ensures Keeps(before)
      ensures var written := Written(old(live)[meta], writes, |writes|);
        (outcome.Committed? ==> live == old(live)[meta := record(written)])
        && (outcome.Unrecorded? ==>
              meta in live && live == old(live)[meta := live[meta]] && Tried(written, [record, failed], live[meta]))
      ensures outcome.Undone? && !slipped ==> live == before
      ensures calm ==> outcome.Committed? && !slipped
    {
      var step := WriteAll(meta, writes, before);
      if step.Died? { return Crashed; }
      if step.Failed? {
        var died := UndoSwap(roots, before);
        return if died then Crashed else Undone;
      }
      outcome := RecordEnd(meta, record, failed, before);
    }

    /** restoreBackup for the older archives.  Only a failure of the change record
        is not undone. */
    method RestoreRoots(roots: seq<Root>, meta: Root, writes: seq<T -> T>, record: T -> T, failed: T -> T)
      returns (outcome: Outcome)
      requires Distinct(roots) && meta in roots && aside == map[] && !slipped
      modifies this
      ensures KeepsTo(old(live), meta, failed)
      ensures outcome.Committed? || outcome.Unrecorded? ==>
        && (forall r <- roots :: r in old(live) && r in old(staged))
        && meta in live && live == (old(live) + Picked(old(staged), roots))[meta := live[meta]]
        && var written := Written(old(staged)[meta], writes, |writes|);
           if outcome.Committed? then live[meta] == record(written) else Tried(written, [record, failed], live[meta])
      ensures outcome.Undone? && !slipped ==> Undid(old(live), live, meta, failed)
      ensures calm && outcome.Undone? && meta in old(live) ==>
                live == if forall r <- roots :: r in old(live) then old(live)[meta := failed(old(live)[meta])]
                        else old(live)
      ensures calm ==> (outcome.Committed? <==> forall r <- roots :: r in old(live) && r in old(staged))
      ensures calm ==> !slipped && (outcome.Committed? || outcome.Undone?)
    {
      outcome := Exchange(roots, meta, failed);
      if outcome.Committed? {
        assert live[meta] == old(staged)[meta];
        outcome := Conclude(roots, meta, writes, record, failed, old(live));
      }
    }

    /** The rollback of restoreDurableBackup, its errors ignored. */
    method Rollback(data: Root, meta: Root, ghost before: map<Root, T>) returns (died: bool)
      requires Keeps(before) && data != meta && aside.Keys == {data, meta}
      modifies this`live, this`aside, this`slipped
      ensures Keeps(before)
      ensures !died && !slipped ==> live == before
      ensures calm ==> !died && slipped == old(slipped)
    {
      ghost var first := live;
      died := Clear(data);
      ClearedSame(first, live, aside, data);
      if died { return; }
      ghost var second := live;
      died := Clear(meta);
      ClearedSame(second, live, aside, meta);
      if died { return; }
      assert data in live <==> data in live - {meta};
      assert data in second <==> data in second - {meta};
      ReturnedSame(live, aside, data);
      died := PutBack(data);
      if died { return; }
      ReturnedSame(live, aside, meta);
      died := PutBack(meta);
      assert !died && !slipped ==> aside == map[];
    }

    /** The two live trees move aside. */
    method MoveBothAside(data: Root, meta: Root) returns (outcome: Outcome)
      requires data != meta && aside == map[] && !slipped
      modifies this`live, this`aside, this`slipped
      ensures Keeps(old(live)) && !outcome.Unrecorded?
      ensures outcome.Committed? ==>
        && data in old(live) && meta in old(live) && live == old(live) - {data, meta}
        && aside.Keys == {data, meta} && !slipped
      ensures outcome.Undone? && !slipped ==> live == old(live)
      ensures calm ==> !slipped && outcome == if data in old(live) && meta in old(live) then Committed else Undone
    {
      var step := MoveAside(data);
      if !step.Done? { return if step.Died? then Crashed else Undone; }
      step := MoveAside(meta);
      if step.Failed? {
        ReturnedSame(live, aside, data);
        var died := PutBack(data);
        return if died then Crashed else Undone;
      }
      return if step.Died? then Crashed else Committed;
    }

    /** Then the two replacements move in. */
    method ExchangeTwo(data: Root, meta: Root) returns (outcome: Outcome)
      requires data != meta && aside == map[] && !slipped
      modifies this
      ensures Keeps(old(live)) && !outcome.Unrecorded?
      ensures outcome.Committed? ==>
        && data in old(live) && meta in old(live) && data in old(staged) && meta in old(staged)
        && aside.Keys == {data, meta} && !slipped
        && live == Swapped(old(live), old(staged), data, meta)
      ensures outcome.Undone? && !slipped ==> live == old(live)
      ensures calm ==>
                !slipped && outcome == if BothThere(old(live), old(staged), data, meta) then Committed else Undone
    {
      ghost var before := live;
      outcome := MoveBothAside(data, meta);
      if !outcome.Committed? { return; }
      var step := MoveOneIn(data, before);
      if step.Done? {
        step := MoveOneIn(meta, before);
      }
      if step.Failed? {
        var died := Rollback(data, meta, before);
        return if died then Crashed else Undone;
      }
      return if step.Died? then Crashed else Committed;
    }

    /** What follows the exchange of the two roots. */
    method ConcludeTwo(data: Root, meta: Root, writes: seq<T -> T>, record: T -> T, ghost before: map<Root, T>)
      returns (outcome: Outcome)
      requires Keeps(before) && data != meta && aside.Keys == {data, meta} && meta in live && !slipped
      modifies this`live, this`aside, this`slipped
      ensures Keeps(before)
      ensures var written := Written(old(live)[meta], writes, |writes|);
        (outcome.Committed? ==> live == old(live)[meta := record(written)])
        && (outcome.Unrecorded? ==> live == old(live)[meta := written] || live == old(live)[meta := record(written)])
      ensures outcome.Undone? && !slipped ==> live == before
      ensures calm ==> outcome.Committed? && !slipped && aside == old(aside)
    {
      var step := WriteAll(meta, writes, before);
      if step.Died? { return Crashed; }
      if step.Failed? {
        var died := Rollback(data, meta, before);
        return if died then Crashed else Undone;
      }
      outcome := Record(meta, record, before);
    }

    /** restoreDurableBackup: the two replacements are built and exchanged; then
        runtime metadata, state and ownership are written, and the change record.
        Only a failure of that record is not undone. */
    method RestoreDurable(data: Root, meta: Root, writes: seq<T -> T>, record: T -> T) returns (outcome: Outcome)
      requires data != meta && aside == map[] && !slipped
      modifies this
      ensures !outcome.Committed? ==> Keeps(old(live))
      ensures outcome.Committed? || outcome.Unrecorded? ==>
        && data in old(live) && meta in old(live) && data in old(staged) && meta in old(staged)
        && var written := Written(old(staged)[meta], writes, |writes|);
           var swapped := Swapped(old(live), old(staged), data, meta);
           live == swapped[meta := record(written)] || (outcome.Unrecorded? && live == swapped[meta := written])
      ensures outcome.Undone? && !slipped ==> live == old(live)
      ensures calm ==> (outcome.Committed? <==> BothThere(old(live), old(staged), data, meta))
      ensures calm ==> !slipped && (outcome.Undone? || (outcome.Committed? && aside == map[]))
    {
      outcome := ExchangeTwo(data, meta);
      if outcome.Committed? {
        outcome := ConcludeTwo(data, meta, writes, record, old(live));
      }
      var removed := Chance(calm);
      if outcome.Committed? && removed.Done? { aside := map[]; }
    }

    /** AtomicCopyDir: a directory is replaced by a finished copy, or stays. */
    method ReplaceDirectory(r: Root) returns (outcome: Outcome)
      requires aside == map[] && !slipped
      modifies this
      ensures outcome.Committed? || outcome.Unrecorded? ==>
        r in old(live) && r in old(staged) && live == old(live)[r := old(staged)[r]]
      ensures outcome.Committed? ==> aside == map[]
      ensures outcome.Undone? ==> Keeps(old(live)) && (!slipped ==> live == old(live))
      ensures outcome.Crashed? ==> Keeps(old(live)) || (r in old(staged) && live == old(live)[r := old(staged)[r]])
      ensures calm ==> !slipped && outcome == if r in old(live) && r in old(staged) then Committed else Undone
    {
      var copied := Chance(calm);
      if !copied.Done? { return if copied.Died? then Crashed else Undone; }
      ghost var before := live;
      var step := MoveAside(r);
      if !step.Done? { return if step.Died? then Crashed else Undone; }
      step := MoveOneIn(r, before);
      if step.Failed? {
        ReturnedSame(live, aside, r);
        var died := PutBack(r);
        return if died then Crashed else Undone;
      }
      if step.Died? { return Crashed; }
      var removed := Chance(calm);
      if removed.Done? {
        aside := map[];
        return Committed;
      }
      return if removed.Died? then Crashed else Unrecorded;
    }
  }

  /** Of the roots in `rs`, `after` has what `before` had. */
  ghost predicate Remains<T>(before: map<Root, T>, after: map<Root, T>, rs: set<Root>) {
    forall r <- rs :: (r in after <==> r in before) && (r in after ==> after[r] == before[r])
  }

  lemma RemainsWithout<T>(before: map<Root, T>, there: map<Root, T>, after: map<Root, T>, r: Root, rest: set<Root>)
    requires Remains(before, there, {r} + rest) && after == there - {r} && r !in rest
    ensures Remains(before, after, rest)
  {
  }

  predicate BothThere<T>(live: map<Root, T>, staged: map<Root, T>, data: Root, meta: Root) {
    data in live && meta in live && data in staged && meta in staged
  }

  function Swapped<T>(live: map<Root, T>, staged: map<Root, T>, data: Root, meta: Root): map<Root, T>
    requires data in staged && meta in staged
  {
    live[data := staged[data]][meta := staged[meta]]
  }

  /** A tree after the first `k` writes. */
  function Written<T>(tree: T, writes: seq<T -> T>, k: nat): T
    requires k <= |writes|
  {
    if k == 0 then tree else writes[k - 1](Written(tree, writes, k - 1))
  }

  /** What may become of a tree when each of the records is tried once. */
  ghost predicate Tried<T>(tree: T, records: seq<T -> T>, result: T)
    decreases |records|
  {
    if records == [] then result == tree
    else Tried(tree, records[1..], result) || Tried(records[0](tree), records[1..], result)
  }

  lemma TriedTwo<T>(tree: T, first: T, second: T, record: T -> T, failed: T -> T)
    requires first == tree || first == record(tree)
    requires second == first || second == failed(first)
    ensures Tried(tree, [record, failed], second)
  {
    assert [record, failed][1..] == [failed] && [failed][1..] == [];
    assert Tried(first, [failed], second);
  }

  /** Everything is as before, up to the record of the failure. */
  ghost predicate Undid<T>(before: map<Root, T>, live: map<Root, T>, meta: Root, failed: T -> T) {
    live == before || (meta in before && live == before[meta := failed(before[meta])])
  }

  lemma NotedSame<T>(live: map<Root, T>, noted: map<Root, T>, aside: map<Root, T>, meta: Root, failed: T -> T)
    requires noted == live || (meta in live && noted == live[meta := failed(live[meta])])
    ensures noted + aside == live + aside
         || (meta in live + aside && noted + aside == (live + aside)[meta := failed((live + aside)[meta])])
  {
    if meta in aside { assert noted + aside == live + aside; }
  }

  function Filled<T>(live: map<Root, T>, staged: map<Root, T>, roots: seq<Root>, k: nat): map<Root, T>
    requires k <= |roots|
  {
    if k == 0 then live
    else
      var before := Filled(live, staged, roots, k - 1);
      if roots[k - 1] in staged then before[roots[k - 1] := staged[roots[k - 1]]] else before
  }

  lemma {:induction false} FilledAt<T>(live: map<Root, T>, staged: map<Root, T>, roots: seq<Root>, k: nat, r: Root)
    requires k <= |roots|
    ensures var filled := Filled(live, staged, roots, k);
      if r in roots[..k] && r in staged then r in filled && filled[r] == staged[r]
      else (r in filled <==> r in live) && (r in live ==> filled[r] == live[r])
  {
    if k > 0 {
      assert roots[..k] == roots[..k - 1] + [roots[k - 1]];
      FilledAt(live, staged, roots, k - 1, r);
    }
  }

  lemma FilledIsPicked<T>(live: map<Root, T>, aside: map<Root, T>, staged: map<Root, T>, roots: seq<Root>)
    requires aside.Keys == All(roots) && forall r <- roots :: r in staged
    ensures Filled(live, staged, roots, |roots|) == live + aside + Picked(staged, roots)
  {
    assert roots[..|roots|] == roots;
    forall r
      ensures r in Filled(live, staged, roots, |roots|) <==> r in live + aside + Picked(staged, roots)
      ensures r in Filled(live, staged, roots, |roots|) ==>
        Filled(live, staged, roots, |roots|)[r] == (live + aside + Picked(staged, roots))[r]
    {
      FilledAt(live, staged, roots, |roots|, r);
    }
  }

  lemma ClearedSame<T>(live: map<Root, T>, cleared: map<Root, T>, aside: map<Root, T>, r: Root)
    requires r in aside && cleared - {r} == live - {r}
    ensures cleared + aside == live + aside
  {
    forall q | q != r ensures (q in cleared <==> q in live) && (q in live ==> cleared[q] == live[q]) {
      assert q in cleared - {r} <==> q in live - {r};
      assert q in live ==> (cleared - {r})[q] == (live - {r})[q];
    }
  }

  lemma ReturnedSame<T>(live: map<Root, T>, aside: map<Root, T>, r: Root)
    ensures r in aside ==> live[r := aside[r]] + (aside - {r}) == live + aside
  {
  }
}
