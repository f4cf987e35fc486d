/** operator/instructions.go: sync and the review actions as the source runs
    them, where any write may fail or be the last before a crash, and where the
    removal of a staged snapshot may fail unnoticed. */
module InstructionFiles {
  import opened Wrappers
  import opened Environment
  import opened Lines
  import opened InstructionMerge
  import opened InstructionState
  import opened InstructionSafety

  class Instruction {
    const spec: Spec
    const calm: bool
    var source: Text
    var target: Option<Text>
    var baseline: Option<Text>
    var available: Option<Text>
    var metadata: Option<Metadata>

    ghost function OnDisk(): Files
      reads this
    {
      Files(source, target, baseline, available, metadata)
    }

    constructor (spec: Spec, source: Text, target: Option<Text>, calm: bool)
      ensures this.spec == spec && this.calm == calm && OnDisk() == Files(source, target, None, None, None)
    {
      this.spec, this.source, this.target, this.calm := spec, source, target, calm;
      baseline, available, metadata := None, None, None;
    }

    /** Performs write `k` of the planned writes; false is an error, or a crash
        before it took effect. */
    method Perform(w: Write, ghost start: Files, ghost writes: seq<Write>, ghost k: nat) returns (ok: bool)
      requires k < |writes| && writes[k] == w
      requires OnDisk() == ApplyAll(start, writes[..k])
      modifies this
      ensures OnDisk() == ApplyAll(start, writes[..if ok then k + 1 else k])
      ensures OnDisk() == if ok then Apply(old(OnDisk()), w) else old(OnDisk())
      ensures calm ==> ok
    {
      var step := Chance(calm);
      if !step.Done? { return false; }
      assert writes[..k + 1][..k] == writes[..k];
      match w {
        case WriteTarget(t) => target := Some(t);
        case WriteBaseline(t) => baseline := Some(t);
        case WriteAvailable(t) => available := Some(t);
        case RemoveAvailable(gone) => if gone { available := None; }
        case WriteMetadata(m) => metadata := Some(m);
      }
      ok := true;
    }

    /** The call performed the first `n` writes of the plan, and all of them if it
        did not fail, or nothing around it did. */
    ghost predicate Performed(start: Files, plan: Plan, report: Report, n: nat)
      reads this
    {
      && n <= |plan.writes| && OnDisk() == ApplyAll(start, plan.writes[..n])
      && (!report.Fails? || calm ==> n == |plan.writes| && report == plan.report)
    }

    /** syncInstruction */
    method Sync() returns (report: Report, ghost n: nat, ghost gone: bool)
      modifies this
      ensures Performed(old(OnDisk()), SyncPlan(spec, old(OnDisk()), gone), report, n) && (calm ==> gone)
    {
      var step := Chance(calm);
      var removes := step.Done?;
      gone := removes;
      ghost var start := OnDisk();
      ghost var plan := SyncPlan(spec, start, gone);
      var ok, data, known;
      ok, data, n := InstallTarget();
      if !ok { return Fails, 0, gone; }
      ok, known, n := FindMetadata(start, data, n);
      if !ok { return Fails, n, gone; }
      assert plan.writes[..n] == Opening(spec, start);
      if baseline.None? { return Fails, n, gone; }
      if Digest(baseline.value) != known.baselineHash { return Fails, n, gone; }
      report, n := Settle(start, data, known, removes, plan, n);
    }

    method InstallTarget() returns (ok: bool, data: Text, ghost n: nat)
      modifies this
      ensures data == Installed(spec, old(OnDisk()))
      ensures OnDisk() == if ok then old(OnDisk()).(target := Some(data)) else old(OnDisk())
      ensures n == if ok && old(target).None? then 1 else 0
      ensures ok ==> OnDisk() == ApplyAll(old(OnDisk()), Opening(spec, old(OnDisk()))[..n])
      ensures calm ==> ok
    {
      if target.Some? { return true, target.value, 0; }
      data := if spec.soul then spec.insert(source) else source;
      ok := Perform(WriteTarget(data), OnDisk(), Opening(spec, OnDisk()), 0);
      n := if ok then 1 else 0;
    }

    /** The metadata on disk or, at first sight, new metadata and a baseline. */
    method FindMetadata(ghost start: Files, data: Text, ghost k: nat) returns (ok: bool, known: Metadata, ghost n: nat)
      requires data == Installed(spec, start) && OnDisk() == start.(target := Some(data))
      requires k == if start.target.None? then 1 else 0
      requires OnDisk() == ApplyAll(start, Opening(spec, start)[..k])
      modifies this
      ensures n <= |Opening(spec, start)| && OnDisk() == ApplyAll(start, Opening(spec, start)[..n])
      ensures ok ==> known == Known(spec, start) && n == |Opening(spec, start)|
      ensures ok ==> OnDisk() == start.(target := Some(data), baseline := Base(spec, start))
      ensures calm ==> ok
    {
      if metadata.Some? { return true, metadata.value, k; }
      var current := spec.Canonical(data);
      var managed := false;
      if !spec.workspace {
        if spec.legacy.Some? {
          managed := spec.legacy.value == Digest(current);
        } else {
          managed := Digest(current) == Digest(spec.Canonical(source));
        }
      }
      ok := Perform(WriteBaseline(current), start, Opening(spec, start), k);
      known := Metadata(if managed then Managed else Customized, Digest(current), Digest(current), None);
      n := if ok then k + 1 else k;
    }

    /** The second half of a sync, once the baseline is known to be sound. */
    method Settle(ghost start: Files, data: Text, known: Metadata, removes: bool, ghost plan: Plan, ghost k: nat)
      returns (report: Report, ghost n: nat)
      requires !Broken(spec, start) && plan == SyncPlan(spec, start, removes) && k == |Opening(spec, start)|
      requires data == Installed(spec, start) && known == Known(spec, start)
      requires source == start.source && baseline == Base(spec, start)
      requires OnDisk() == ApplyAll(start, plan.writes[..k])
      modifies this
      ensures Performed(start, plan, report, n)
    {
      var sourceCanonical, current, base := spec.Canonical(source), spec.Canonical(data), baseline.value;
      var localChanged, upstreamChanged := current != base, sourceCanonical != base;
      var updated := !spec.workspace && !localChanged && upstreamChanged && known.ownership == Managed;
      var result := if updated then sourceCanonical else current;
      PlanLayout(start, removes, plan, k);
      var ok;
      ok, n := Stage(start, sourceCanonical, updated, upstreamChanged, removes, plan.writes, k);
      if !ok { return Fails, n; }
      var next := Metadata(
        if localChanged then Customized else known.ownership, Digest(if updated then sourceCanonical else base),
        Digest(result), if upstreamChanged && !updated then Some(Digest(sourceCanonical)) else None);
      ok, n := Close(start, data, result, next, plan.writes, n);
      if !ok { return Fails, n; }
      assert plan.writes[..n] == plan.writes;
      report := Reports(localChanged, upstreamChanged && !updated, updated);
    }

    /** Updates the target and the baseline, or stages the source, or clears
        what was staged. */
    method Stage(ghost start: Files, sourceCanonical: Text, updated: bool, upstreamChanged: bool, removes: bool,
                 ghost writes: seq<Write>, ghost k: nat)
      returns (ok: bool, ghost n: nat)
      requires updated == Updates(spec, start) && upstreamChanged == UpstreamChanged(spec, start)
      requires sourceCanonical == Source(spec, start)
      requires k + |Settling(spec, start, removes)| <= |writes| && OnDisk() == ApplyAll(start, writes[..k])
      requires forall i | 0 <= i < |Settling(spec, start, removes)| ::
                 writes[k + i] == Settling(spec, start, removes)[i]
      modifies this
      ensures n <= |writes| && OnDisk() == ApplyAll(start, writes[..n])
      ensures ok ==> n == k + |Settling(spec, start, removes)|
      ensures calm ==> ok
    {
      n := k;
      assert writes[k + 0] == Settling(spec, start, removes)[0];
      if updated {
        assert writes[k + 1] == Settling(spec, start, removes)[1] && writes[k + 2] == Settling(spec, start, removes)[2];
        ok := Perform(WriteTarget(spec.Render(sourceCanonical)), start, writes, k);
        if !ok { return; }
        n := k + 1;
        ok := Perform(WriteBaseline(sourceCanonical), start, writes, n);
        if !ok { return; }
        n := k + 2;
        ok := Perform(RemoveAvailable(removes), start, writes, n);
        if !ok { return; }
        n := k + 3;
      } else if upstreamChanged {
        ok := Perform(WriteAvailable(sourceCanonical), start, writes, k);
        n := if ok then k + 1 else k;
      } else {
        ok := Perform(RemoveAvailable(removes), start, writes, k);
        n := if ok then k + 1 else k;
      }
    }

    /** Renders the soul's block again where needed and writes the metadata. */
    method Close(ghost start: Files, data: Text, result: Text, next: Metadata, ghost writes: seq<Write>, ghost m: nat)
      returns (ok: bool, ghost n: nat)
      requires !Broken(spec, start) && data == Installed(spec, start) && result == Outcome(spec, start)
      requires next == Closing(spec, start)
      requires |writes| == m + |Rerendering(spec, start)| + 1 && OnDisk() == ApplyAll(start, writes[..m])
      requires forall i | 0 <= i < |Rerendering(spec, start)| :: writes[m + i] == Rerendering(spec, start)[i]
      requires writes[|writes| - 1] == WriteMetadata(next)
      modifies this
      ensures n <= |writes| && OnDisk() == ApplyAll(start, writes[..n])
      ensures ok ==> n == |writes|
      ensures calm ==> ok
    {
      n := m;
      if spec.soul {
        var rendered := spec.insert(result);
        if rendered != data {
          assert writes[m + 0] == Rerendering(spec, start)[0];
          ok := Perform(WriteTarget(rendered), start, writes, m);
          if !ok { return; }
          n := m + 1;
        }
      }
      ok := Perform(WriteMetadata(next), start, writes, n);
      n := if ok then n + 1 else n;
    }

    /** Where the writes after the opening ones stand in the plan. */
    lemma PlanLayout(start: Files, removes: bool, plan: Plan, k: nat)
      requires !Broken(spec, start) && plan == SyncPlan(spec, start, removes) && k == |Opening(spec, start)|
      ensures var m := k + |Settling(spec, start, removes)|;
        && |plan.writes| == m + |Rerendering(spec, start)| + 1
        && (forall i | 0 <= i < |Settling(spec, start, removes)| ::
              plan.writes[k + i] == Settling(spec, start, removes)[i])
        && (forall i | 0 <= i < |Rerendering(spec, start)| :: plan.writes[m + i] == Rerendering(spec, start)[i])
        && plan.writes[|plan.writes| - 1] == WriteMetadata(Closing(spec, start))
    {
    }

    /** MutateInstruction; `conflict` is a merge that needs a manual review. */
    method Mutate(action: Action, request: Request)
      returns (report: Report, conflict: bool, merged: Text, ghost n: nat, ghost gone: bool)
      modifies this
      ensures !Confirmed(spec, old(OnDisk()), request) || conflict ==> report.Fails? && OnDisk() == old(OnDisk())
      ensures conflict <==>
                && action == Merge && Confirmed(spec, old(OnDisk()), request)
                && Conflicts(old(OnDisk()).baseline.value, spec.Canonical(old(OnDisk()).target.value),
                             Staged(spec, old(OnDisk())))
      ensures Confirmed(spec, old(OnDisk()), request) && !conflict ==>
                Performed(old(OnDisk()), ActionPlan(spec, old(OnDisk()), action, merged, gone), report, n)
                && (calm ==> gone)
      ensures action == Merge && !report.Fails? ==>
                IsMergeResult(old(OnDisk()).baseline.value, spec.Canonical(old(OnDisk()).target.value),
                              Staged(spec, old(OnDisk())), merged)
    {
      var step := Chance(calm);
      var removes := step.Done?;
      report, conflict, merged, n, gone := Fails, false, "", 0, removes;
      if target.None? || baseline.None? || metadata.None? { return; }
      if Digest(baseline.value) != metadata.value.baselineHash { return; }
      var current := spec.Canonical(target.value);
      var upstream := spec.Canonical(source);
      if request.expectedCurrent != Digest(current) || request.expectedAvailable != Digest(upstream) { return; }
      var staged := if available.Some? then available.value else spec.Canonical(source);
      var result, ownership := current, Customized;
      match action {
        case Keep =>
        case Reset =>
          result, ownership := staged, if spec.workspace then Customized else Managed;
        case Merge =>
          var outcome := MergeInstructionLines(baseline.value, current, staged);
          if !outcome.Merged? { conflict := true; return; }
          merged, result := outcome.text, outcome.text;
      }
      report, n := Replace(action, merged, result, staged, ownership, removes);
    }

    /** The writes of a confirmed action. */
    method Replace(action: Action, ghost merged: Text, result: Text, staged: Text, ownership: Ownership,
                   removes: bool)
      returns (report: Report, ghost n: nat)
      requires Readable(OnDisk()) && staged == Staged(spec, OnDisk())
        && result == ActionResult(spec, OnDisk(), action, merged)
      requires ownership == if action == Reset && !spec.workspace then Managed else Customized
      modifies this
      ensures Performed(old(OnDisk()), ActionPlan(spec, old(OnDisk()), action, merged, removes), report, n)
    {
      ghost var start := OnDisk();
      ghost var writes := ActionPlan(spec, start, action, merged, removes).writes;
      var ok;
      n := 0;
      if action != Keep {
        ok := Perform(WriteTarget(spec.Render(result)), start, writes, 0);
        if !ok { return Fails, 0; }
        n := 1;
      }
      ok := Perform(WriteBaseline(staged), start, writes, n);
      if !ok { return Fails, n; }
      ok := Perform(RemoveAvailable(removes), start, writes, n + 1);
      if !ok { return Fails, n + 1; }
      ok := Perform(WriteMetadata(Metadata(ownership, Digest(staged), Digest(result), None)), start, writes, n + 2);
      if !ok { return Fails, n + 2; }
      n := n + 3;
      assert writes[..n] == writes;
      report := Reports(result != staged, false, action != Keep);
    }
  }

  /** What a merge may leave: one side if the other is unchanged or the same, or
      the line by line merge of texts of one shape. */
  ghost predicate IsMergeResult(base: Text, local: Text, upstream: Text, text: Text) {
    if SameShape(base, local, upstream) then !Overlap(base, local, upstream) && IsMergeOf(base, local, upstream, text)
    else (local == base && text == upstream) || ((upstream == base || local == upstream) && text == local)
  }
}
