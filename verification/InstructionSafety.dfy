/** What instruction sync and the review actions guarantee over every run, with
    any of their writes being the last (operator/instructions.go). */
module InstructionSafety {
  import opened Wrappers
  import opened InstructionState

  // --------------------------------------------------------------------- runs

  datatype Event =
    | Distributed(source: Text)                    // an upgrade brings a new source
    | Edited(target: Option<Text>)                 // the user writes or deletes the file
    | Synced(writes: nat, gone: bool)              // a sync that stops after so many writes
    | Acted(action: Action, request: Request, merged: Text, writes: nat, gone: bool)

  function Prefix(ws: seq<Write>, n: nat): seq<Write> {
    if n <= |ws| then ws[..n] else ws
  }

  function After(spec: Spec, f: Files, e: Event): Files {
    match e
    case Distributed(source) => f.(source := source)
    case Edited(target) => f.(target := target)
    case Synced(n, gone) => ApplyAll(f, Prefix(SyncPlan(spec, f, gone).writes, n))
    case Acted(action, request, merged, n, gone) =>
      if !Confirmed(spec, f, request) then f
      else ApplyAll(f, Prefix(ActionPlan(spec, f, action, merged, gone).writes, n))
  }

  function AfterAll(spec: Spec, f: Files, es: seq<Event>): Files {
    if es == [] then f else After(spec, AfterAll(spec, f, es[..|es| - 1]), es[|es| - 1])
  }

  /** Every text that was distributed so far, in canonical form, together with
      the text whose hash an earlier release left. */
  function Shipped(spec: Spec, f: Files, es: seq<Event>): set<Text> {
    if es == [] then {spec.Canonical(f.source)} + (if spec.legacy.Some? then {spec.legacy.value.of} else {})
    else Shipped(spec, f, es[..|es| - 1])
         + (if es[|es| - 1].Distributed? then {spec.Canonical(es[|es| - 1].source)} else {})
  }

  // -------------------------------------------------------------------- trust

  /** What is staged was shipped, and a managed file has a shipped baseline. */
  ghost predicate Trusted(spec: Spec, f: Files, shipped: set<Text>) {
    && spec.Canonical(f.source) in shipped
    && (spec.legacy.Some? ==> spec.legacy.value.of in shipped)
    && (f.available.Some? ==> f.available.value in shipped)
    && (f.metadata.Some? && f.metadata.value.ownership == Managed ==> f.metadata.value.baselineHash.of in shipped)
  }

  /** The target still says what it said, unless that was a shipped text. */
  ghost predicate OnlyShippedReplaced(spec: Spec, f: Files, g: Files, shipped: set<Text>) {
    f.target.Some? ==>
      && g.target.Some?
      && (spec.Canonical(g.target.value) == spec.Canonical(f.target.value) || spec.Canonical(f.target.value) in shipped)
  }

  ghost predicate KeepsTrust(w: Write, shipped: set<Text>) {
    match w
    case WriteAvailable(t) => t in shipped
    case WriteMetadata(m) => m.ownership == Managed ==> m.baselineHash.of in shipped
    case _ => true
  }

  ghost predicate ReplacesOnlyShipped(spec: Spec, f: Files, w: Write, shipped: set<Text>) {
    w.WriteTarget? && f.target.Some? ==>
      spec.Canonical(w.text) == spec.Canonical(f.target.value) || spec.Canonical(f.target.value) in shipped
  }

  lemma {:induction false} WritesKeepTrust(spec: Spec, f: Files, ws: seq<Write>, shipped: set<Text>)
    requires Trusted(spec, f, shipped) && forall w <- ws :: KeepsTrust(w, shipped)
    ensures Trusted(spec, ApplyAll(f, ws), shipped)
  {
    if ws != [] {
      WritesKeepTrust(spec, f, ws[..|ws| - 1], shipped);
      assert KeepsTrust(ws[|ws| - 1], shipped);
    }
  }

  lemma {:induction false} WritesReplaceOnlyShipped(spec: Spec, f: Files, ws: seq<Write>, shipped: set<Text>)
    requires forall w <- ws :: ReplacesOnlyShipped(spec, f, w, shipped)
    ensures OnlyShippedReplaced(spec, f, ApplyAll(f, ws), shipped)
  {
    if ws != [] {
      WritesReplaceOnlyShipped(spec, f, ws[..|ws| - 1], shipped);
      assert ReplacesOnlyShipped(spec, f, ws[|ws| - 1], shipped);
    }
  }

  /** An update replaces, and a managed file remembers, only shipped texts. */
  lemma {:induction false} ManagedIsShipped(spec: Spec, f: Files, shipped: set<Text>)
    requires spec.Lawful() && Trusted(spec, f, shipped) && !Broken(spec, f)
    ensures Known(spec, f).ownership == Managed ==> Known(spec, f).baselineHash.of in shipped
    ensures Updates(spec, f) && f.target.Some? ==> spec.Canonical(f.target.value) in shipped
  {
  }

  lemma SyncWritesAreSafe(spec: Spec, f: Files, gone: bool, shipped: set<Text>)
    requires spec.Lawful() && Trusted(spec, f, shipped)
    ensures forall w <- SyncPlan(spec, f, gone).writes ::
              KeepsTrust(w, shipped) && ReplacesOnlyShipped(spec, f, w, shipped)
  {
    forall w <- SyncPlan(spec, f, gone).writes
      ensures KeepsTrust(w, shipped) && ReplacesOnlyShipped(spec, f, w, shipped)
    {
      if !Broken(spec, f) && w !in Opening(spec, f) {
        ManagedIsShipped(spec, f, shipped);
        assert w in Settling(spec, f, gone) || w in Rerendering(spec, f) || w == WriteMetadata(Closing(spec, f));
      }
    }
  }

  lemma {:induction false} ActionWritesKeepTrust(
    spec: Spec, f: Files, action: Action, merged: Text, gone: bool, shipped: set<Text>)
    requires Readable(f) && Trusted(spec, f, shipped)
    ensures forall w <- ActionPlan(spec, f, action, merged, gone).writes :: KeepsTrust(w, shipped)
  {
  }

  /** Over every run, wherever its calls stop: a managed file has a shipped
      baseline, and what is staged was shipped. */
  lemma {:induction false} RunIsTrusted(spec: Spec, f: Files, es: seq<Event>)
    requires spec.Lawful() && f.available.None? && f.metadata.None?
    ensures Trusted(spec, AfterAll(spec, f, es), Shipped(spec, f, es))
  {
    if es != [] {
      var before, last := es[..|es| - 1], es[|es| - 1];
      RunIsTrusted(spec, f, before);
      var g, shipped := AfterAll(spec, f, before), Shipped(spec, f, es);
      assert Trusted(spec, g, shipped) || last.Distributed?;
      match last {
        case Distributed(_) =>
        case Edited(_) =>
        case Synced(n, gone) =>
          SyncWritesAreSafe(spec, g, gone, shipped);
          WritesKeepTrust(spec, g, Prefix(SyncPlan(spec, g, gone).writes, n), shipped);
        case Acted(action, request, merged, n, gone) =>
          if Confirmed(spec, g, request) {
            ActionWritesKeepTrust(spec, g, action, merged, gone, shipped);
            WritesKeepTrust(spec, g, Prefix(ActionPlan(spec, g, action, merged, gone).writes, n), shipped);
          }
      }
    }
  }

  /** After any run, a sync, wherever it stops, overwrites no text of the user:
      the target keeps its text unless that text was shipped. */
  lemma SyncOverwritesOnlyShipped(spec: Spec, f: Files, es: seq<Event>, n: nat, gone: bool)
    requires spec.Lawful() && f.available.None? && f.metadata.None?
    ensures var g := AfterAll(spec, f, es);
      OnlyShippedReplaced(spec, g, After(spec, g, Synced(n, gone)), Shipped(spec, f, es))
  {
    RunIsTrusted(spec, f, es);
    var g := AfterAll(spec, f, es);
    SyncWritesAreSafe(spec, g, gone, Shipped(spec, f, es));
    WritesReplaceOnlyShipped(spec, g, Prefix(SyncPlan(spec, g, gone).writes, n), Shipped(spec, f, es));
  }

  // --------------------------------------------------------------- idempotence

  lemma {:induction false} ApplyAllAppends(f: Files, a: seq<Write>, b: seq<Write>)
    ensures ApplyAll(f, a + b) == ApplyAll(ApplyAll(f, a), b)
  {
    if b == [] {
      assert a + b == a;
    } else {
      assert (a + b)[..|a + b| - 1] == a + b[..|b| - 1];
      ApplyAllAppends(f, a, b[..|b| - 1]);
    }
  }

  lemma ApplyOne(f: Files, w: Write)
    ensures ApplyAll(f, [w]) == Apply(f, w)
  {
    assert [w][..0] == [];
  }

  function Complete(f: Files, plan: Plan): Files {
    ApplyAll(f, plan.writes)
  }

  lemma ApplySettle(f: Files, ws: seq<Write>)
    ensures |ws| == 0 ==> ApplyAll(f, ws) == f
    ensures |ws| == 1 ==> ApplyAll(f, ws) == Apply(f, ws[0])
    ensures |ws| == 2 ==> ApplyAll(f, ws) == Apply(Apply(f, ws[0]), ws[1])
    ensures |ws| == 3 ==> ApplyAll(f, ws) == Apply(Apply(Apply(f, ws[0]), ws[1]), ws[2])
  {
    if |ws| == 1 {
      assert ws == [ws[0]];
      ApplyOne(f, ws[0]);
    } else if |ws| == 2 {
      assert ws == [ws[0]] + [ws[1]];
      ApplyAllAppends(f, [ws[0]], [ws[1]]);
      ApplyOne(f, ws[0]);
      ApplyOne(Apply(f, ws[0]), ws[1]);
    } else if |ws| == 3 {
      assert ws == [ws[0]] + [ws[1]] + [ws[2]];
      ApplyAllAppends(f, [ws[0]] + [ws[1]], [ws[2]]);
      ApplyAllAppends(f, [ws[0]], [ws[1]]);
      ApplyOne(f, ws[0]);
      ApplyOne(Apply(f, ws[0]), ws[1]);
      ApplyOne(Apply(Apply(f, ws[0]), ws[1]), ws[2]);
    }
  }

  lemma OpeningLeaves(spec: Spec, f: Files)
    ensures ApplyAll(f, Opening(spec, f))
         == f.(target := Some(Installed(spec, f)), baseline := if f.metadata.None? then Base(spec, f) else f.baseline)
  {
    var install := if f.target.None? then [WriteTarget(Installed(spec, f))] else [];
    var record := if f.metadata.None? then [WriteBaseline(Current(spec, f))] else [];
    ApplyAllAppends(f, install, record);
    ApplySettle(f, install);
    ApplySettle(ApplyAll(f, install), record);
  }

  /** What a completed sync leaves staged, where `staged` was before. */
  function Snapshot(spec: Spec, f: Files, gone: bool, staged: Option<Text>): Option<Text> {
    if UpstreamChanged(spec, f) && !Updates(spec, f) then Some(Source(spec, f)) else if gone then None else staged
  }

  lemma SettlingLeaves(spec: Spec, f: Files, gone: bool, g: Files)
    requires g.target == Some(Installed(spec, f))
    ensures ApplyAll(g, Settling(spec, f, gone)) == g.(
      target := if Updates(spec, f) then Some(spec.Render(Source(spec, f))) else g.target,
      baseline := if Updates(spec, f) then Some(Source(spec, f)) else g.baseline,
      available := Snapshot(spec, f, gone, g.available))
  {
    ApplySettle(g, Settling(spec, f, gone));
  }

  /** What a completed sync leaves, said without its writes. */
  lemma SyncOutcome(spec: Spec, f: Files, gone: bool)
    requires !Broken(spec, f)
    ensures Complete(f, SyncPlan(spec, f, gone)) == Files(
      f.source,
      Some(spec.Render(Outcome(spec, f))),
      if Updates(spec, f) then Some(Source(spec, f)) else Base(spec, f),
      Snapshot(spec, f, gone, f.available),
      Some(Closing(spec, f)))
  {
    var opening, settling, rerendering := Opening(spec, f), Settling(spec, f, gone), Rerendering(spec, f);
    var last := [WriteMetadata(Closing(spec, f))];
    ApplyAllAppends(f, opening + settling + rerendering, last);
    ApplyAllAppends(f, opening + settling, rerendering);
    ApplyAllAppends(f, opening, settling);
    OpeningLeaves(spec, f);
    var f2 := ApplyAll(f, opening);
    SettlingLeaves(spec, f, gone, f2);
    var f3 := ApplyAll(f2, settling);
    ApplySettle(f3, rerendering);
    ApplyOne(ApplyAll(f3, rerendering), last[0]);
  }

  /** A second sync changes nothing, except that it may succeed in removing what
      the first one left staged, and reports the same, except for the update. */
  lemma SyncIsIdempotent(spec: Spec, f: Files, gone: bool, again: bool)
    requires spec.Lawful() && !Broken(spec, f)
    ensures var g := Complete(f, SyncPlan(spec, f, gone));
      var h, report := Complete(g, SyncPlan(spec, g, again)), SyncPlan(spec, g, again).report;
      && report == SyncPlan(spec, f, gone).report.(updated := false)
      && h == g.(available := h.available)
      && (h == g <==> report.upstreamChanged || !again || g.available.None?)
  {
    SyncOutcome(spec, f, gone);
    SyncOutcome(spec, Complete(f, SyncPlan(spec, f, gone)), again);
  }

  // ------------------------------------------------------------ review actions

  lemma ActionOutcome(spec: Spec, f: Files, action: Action, merged: Text, gone: bool)
    requires Readable(f)
    ensures var g := Complete(f, ActionPlan(spec, f, action, merged, gone));
      var result := ActionResult(spec, f, action, merged);
      && g.source == f.source && g.available == (if gone then None else f.available)
      && g.baseline == Some(Staged(spec, f))
      && g.target == (if action == Keep then f.target else Some(spec.Render(result)))
      && g.metadata.Some? && g.metadata.value.baselineHash == Digest(Staged(spec, f))
      && g.metadata.value.ownership == if action == Reset && !spec.workspace then Managed else Customized
  {
    var plan := ActionPlan(spec, f, action, merged, gone);
    var target := if action == Keep then [] else [WriteTarget(spec.Render(ActionResult(spec, f, action, merged)))];
    var rest := plan.writes[|target|..];
    assert plan.writes == target + rest;
    ApplyAllAppends(f, target, rest);
    ApplySettle(f, target);
    ApplySettle(ApplyAll(f, target), rest);
  }

  /** After any review action, the next sync has nothing to report and nothing
      to update exactly when the text the action worked with is the source. */
  lemma ActionSettlesExactly(spec: Spec, f: Files, action: Action, merged: Text, gone: bool)
    requires spec.Lawful() && Readable(f)
    ensures var g := Complete(f, ActionPlan(spec, f, action, merged, gone));
      !Broken(spec, g)
      && (!SyncPlan(spec, g, gone).report.upstreamChanged && !SyncPlan(spec, g, gone).report.updated
          <==> Staged(spec, f) == spec.Canonical(f.source))
  {
    ActionOutcome(spec, f, action, merged, gone);
  }

  /** After a completed sync, and until another source is distributed, every
      action works with the source exactly when the sync staged it, or the removal
      of what was staged took effect, or that was the source already. */
  lemma SyncStagesSourceExactly(spec: Spec, f: Files, gone: bool, target: Option<Text>)
    requires spec.Lawful() && !Broken(spec, f)
    ensures var plan := SyncPlan(spec, f, gone); var g := Complete(f, plan).(target := target);
      Staged(spec, g) == spec.Canonical(g.source) <==>
      plan.report.upstreamChanged || gone || Staged(spec, f) == spec.Canonical(f.source)
  {
    SyncOutcome(spec, f, gone);
  }

  /** The same after a completed action: if it worked with an older snapshot whose
      removal failed, so does the next one. */
  lemma ActionStagesSourceExactly(spec: Spec, f: Files, action: Action, merged: Text, gone: bool)
    requires Readable(f)
    ensures var g := Complete(f, ActionPlan(spec, f, action, merged, gone));
      Staged(spec, g) == spec.Canonical(g.source) <==> gone || Staged(spec, f) == spec.Canonical(f.source)
  {
    ActionOutcome(spec, f, action, merged, gone);
  }

  /** A reset leaves the text that was confirmed exactly when the staged
      snapshot is the source: the hash that is checked is that of the source,
      the text that is installed is the snapshot. */
  lemma ResetInstallsConfirmedExactly(spec: Spec, f: Files, request: Request, gone: bool)
    requires spec.Lawful() && Confirmed(spec, f, request)
    requires spec.Canonical(Staged(spec, f)) == Staged(spec, f)
    ensures var g := Complete(f, ActionPlan(spec, f, Reset, "", gone));
      && g.target.Some?
      && (Digest(spec.Canonical(g.target.value)) == request.expectedAvailable
        <==> Staged(spec, f) == spec.Canonical(f.source))
  {
    ActionOutcome(spec, f, Reset, "", gone);
  }

  // ---------------------------------------------------------- interrupted calls

  /** The baseline on disk is not the one the metadata names. */
  predicate Stuck(f: Files) {
    f.metadata.Some? && (f.baseline.None? || Digest(f.baseline.value) != f.metadata.value.baselineHash)
  }

  /** An update that stops leaves the instruction stuck exactly when the new
      baseline was written and the metadata was not. */
  lemma InterruptedUpdate(spec: Spec, f: Files, n: nat, gone: bool)
    requires spec.Lawful() && f.metadata.Some? && !Broken(spec, f) && Updates(spec, f)
    requires n <= |SyncPlan(spec, f, gone).writes|
    ensures Stuck(ApplyAll(f, SyncPlan(spec, f, gone).writes[..n])) <==> 2 <= n < |SyncPlan(spec, f, gone).writes|
  {
    hide ApplyAll;
    var ws := SyncPlan(spec, f, gone).writes;
    assert f.target.Some?;
    assert Opening(spec, f) == [];
    assert ws[..3] == Settling(spec, f, gone);
    if n == |ws| {
      SyncOutcome(spec, f, gone);
      assert ws[..n] == ws;
    } else if n <= 3 {
      ApplySettle(f, ws[..n]);
    } else {
      assert ws[..n] == Settling(spec, f, gone) + Rerendering(spec, f);
      ApplyAllAppends(f, Settling(spec, f, gone), Rerendering(spec, f));
      ApplySettle(f, Settling(spec, f, gone));
      ApplySettle(ApplyAll(f, Settling(spec, f, gone)), Rerendering(spec, f));
    }
  }

  /** The writes that a call performs. */
  function Performed(spec: Spec, f: Files, e: Event): seq<Write> {
    match e
    case Synced(n, gone) => Prefix(SyncPlan(spec, f, gone).writes, n)
    case Acted(action, request, merged, n, gone) =>
      if Confirmed(spec, f, request) then Prefix(ActionPlan(spec, f, action, merged, gone).writes, n) else []
    case _ => []
  }

  predicate WritesMetadata(ws: seq<Write>) {
    exists i | 0 <= i < |ws| :: ws[i].WriteMetadata?
  }

  /** The call wrote a baseline other than the one there was, and stopped before
      it wrote the metadata of an instruction that had some. */
  predicate StopsInside(spec: Spec, f: Files, e: Event) {
    var ws := Performed(spec, f, e);
    && f.metadata.Some? && !WritesMetadata(ws)
    && exists i | 0 <= i < |ws| :: ws[i].WriteBaseline? && Some(ws[i].text) != f.baseline
  }

  /** Writes other than that of the metadata leave it; the baseline is the old
      one or one that was written. */
  lemma {:induction false} BaselineAfter(f: Files, ws: seq<Write>)
    requires !WritesMetadata(ws)
    ensures ApplyAll(f, ws).metadata == f.metadata
    ensures (ApplyAll(f, ws).baseline == f.baseline && forall i | 0 <= i < |ws| :: !ws[i].WriteBaseline?)
         || exists i | 0 <= i < |ws| :: ws[i].WriteBaseline? && ApplyAll(f, ws).baseline == Some(ws[i].text)
  {
    if ws != [] {
      var before, last := ws[..|ws| - 1], ws[|ws| - 1];
      assert forall i | 0 <= i < |before| :: before[i] == ws[i];
      BaselineAfter(f, before);
      if i :| 0 <= i < |before| && before[i].WriteBaseline? && ApplyAll(f, before).baseline == Some(before[i].text) {
        assert ws[i].WriteBaseline?;
      }
    }
  }

  /** In the writes of a plan the metadata comes last, and on an instruction with
      metadata there is at most one baseline. */
  predicate InOrder(ws: seq<Write>) {
    && (forall i | 0 <= i < |ws| - 1 :: !ws[i].WriteMetadata?)
    && forall i, j | 0 <= i < |ws| && 0 <= j < |ws| && ws[i].WriteBaseline? && ws[j].WriteBaseline? :: ws[i] == ws[j]
  }

  lemma SyncIsInOrder(spec: Spec, f: Files, gone: bool)
    requires f.metadata.Some?
    ensures InOrder(SyncPlan(spec, f, gone).writes)
  {
    OpeningOnlyInstalls(spec, f);
    SettlingWrites(spec, f, gone);
    hide Opening, Settling, Rerendering, Closing, Updates, UpstreamChanged, Source;
    var ws := Opening(spec, f) + Settling(spec, f, gone) + Rerendering(spec, f);
    forall i | 0 <= i < |ws| ensures !ws[i].WriteMetadata? && (ws[i].WriteBaseline? ==> ws[i].text == Source(spec, f)) {
      assert ws[i] in Opening(spec, f) || ws[i] in Settling(spec, f, gone) || ws[i] in Rerendering(spec, f);
    }
    forall i | 0 <= i < |Opening(spec, f)| ensures Opening(spec, f)[i].WriteTarget? {
      assert Opening(spec, f)[i] in Opening(spec, f);
    }
  }

  lemma OpeningOnlyInstalls(spec: Spec, f: Files)
    ensures forall w <- Opening(spec, f) :: w.WriteTarget? || (f.metadata.None? && w.WriteBaseline?)
  {
  }

  lemma SettlingWrites(spec: Spec, f: Files, gone: bool)
    ensures forall w <- Settling(spec, f, gone) :: !w.WriteMetadata? && (w.WriteBaseline? ==> w.text == Source(spec, f))
    ensures forall w <- Rerendering(spec, f) :: w.WriteTarget?
  {
  }

  lemma ActionIsInOrder(spec: Spec, f: Files, action: Action, merged: Text, gone: bool)
    requires Readable(f)
    ensures InOrder(ActionPlan(spec, f, action, merged, gone).writes)
  {
  }

  /** What holds of a plan that leaves an instruction with metadata as it should. */
  lemma PrefixIsStuckExactly(f: Files, plan: Plan, n: nat)
    requires f.metadata.Some? && !Stuck(f) && InOrder(plan.writes) && !Stuck(Complete(f, plan))
    ensures var ws := Prefix(plan.writes, n);
      Stuck(ApplyAll(f, ws)) <==>
      !WritesMetadata(ws) && exists i | 0 <= i < |ws| :: ws[i].WriteBaseline? && Some(ws[i].text) != f.baseline
  {
    var ws := Prefix(plan.writes, n);
    if WritesMetadata(ws) {
      assert ws == plan.writes;
    } else {
      BaselineAfter(f, ws);
    }
  }

  /** A call leaves the instruction stuck exactly when it wrote a new baseline and
      stopped before the metadata: sync, keep, merge and reset alike. */
  lemma StuckExactly(spec: Spec, f: Files, e: Event)
    requires !Stuck(f)
    ensures Stuck(After(spec, f, e)) <==> StopsInside(spec, f, e)
  {
    hide SyncPlan, ActionPlan, ApplyAll, Confirmed, Prefix;
    match e {
      case Synced(n, gone) =>
        CompleteIsNotStuck(spec, f, gone);
        if f.metadata.Some? {
          SyncIsInOrder(spec, f, gone);
          PrefixIsStuckExactly(f, SyncPlan(spec, f, gone), n);
        } else {
          FirstSyncIsNotStuck(spec, f, n, gone);
        }
      case Acted(action, request, merged, n, gone) =>
        if Confirmed(spec, f, request) {
          ConfirmedIsReadable(spec, f, request);
          ActionOutcome(spec, f, action, merged, gone);
          ActionIsInOrder(spec, f, action, merged, gone);
          PrefixIsStuckExactly(f, ActionPlan(spec, f, action, merged, gone), n);
        }
      case _ =>
    }
  }

  lemma ConfirmedIsReadable(spec: Spec, f: Files, request: Request)
    requires Confirmed(spec, f, request)
    ensures Readable(f)
  {
  }

  lemma CompleteIsNotStuck(spec: Spec, f: Files, gone: bool)
    requires !Stuck(f)
    ensures !Stuck(Complete(f, SyncPlan(spec, f, gone)))
  {
    hide ApplyAll;
    SyncOutcome(spec, f, gone);
  }

  /** Before there is metadata, nothing names a baseline. */
  lemma FirstSyncIsNotStuck(spec: Spec, f: Files, n: nat, gone: bool)
    requires f.metadata.None?
    ensures !Stuck(ApplyAll(f, Prefix(SyncPlan(spec, f, gone).writes, n)))
  {
    var plan := SyncPlan(spec, f, gone);
    var ws := Prefix(plan.writes, n);
    assert |Rerendering(spec, f)| <= 1;
    assert forall w <- Opening(spec, f) + Settling(spec, f, gone) + Rerendering(spec, f) :: !w.WriteMetadata?;
    if WritesMetadata(ws) {
      assert ws == plan.writes;
      CompleteIsNotStuck(spec, f, gone);
    } else {
      BaselineAfter(f, ws);
    }
  }

  /** Once stuck, always stuck: every later sync fails, every action is refused,
      and neither edits nor upgrades help. */
  lemma {:induction false} StuckForever(spec: Spec, f: Files, es: seq<Event>)
    requires Stuck(f)
    ensures Stuck(AfterAll(spec, f, es))
    ensures forall gone :: SyncPlan(spec, AfterAll(spec, f, es), gone).report.Fails?
  {
    if es != [] {
      var g := AfterAll(spec, f, es[..|es| - 1]);
      StuckForever(spec, f, es[..|es| - 1]);
      if es[|es| - 1].Synced? {
        var ws := Prefix(SyncPlan(spec, g, es[|es| - 1].gone).writes, es[|es| - 1].writes);
        if ws != [] { ApplySettle(g, ws); }
      }
    }
  }

  // ---------------------------------------------------------------- witnesses

  /** A file outside the workspace, without a generated block. */
  function PlainSpec(): Spec {
    Spec(false, false, text => text, text => text, None)
  }

  /** An instruction that says "a" and was never synced. */
  function Fresh(): Files {
    Files("a", None, None, None, None)
  }

  /** Right after its first sync. */
  function FirstInstalled(): Files {
    Files("a", Some("a"), Some("a"), None, Some(Metadata(Managed, Digest("a"), Digest("a"), None)))
  }

  const FIRST_SYNC: seq<Event> := [Synced(9, true)]

  lemma Then(spec: Spec, f: Files, es: seq<Event>, e: Event)
    ensures AfterAll(spec, f, es + [e]) == After(spec, AfterAll(spec, f, es), e)
  {
    assert (es + [e])[..|es|] == es;
  }

  lemma FirstSync()
    ensures AfterAll(PlainSpec(), Fresh(), FIRST_SYNC) == FirstInstalled()
  {
    Then(PlainSpec(), Fresh(), [], Synced(9, true));
    assert [] + [Synced(9, true)] == FIRST_SYNC;
    hide ApplyAll;
    SyncOutcome(PlainSpec(), Fresh(), true);
  }

  /** An upgrade to "b", and an update that stops after two of its four writes. */
  lemma StoppedUpdateIsStuck()
    ensures var f := AfterAll(PlainSpec(), Fresh(), FIRST_SYNC + [Distributed("b")]);
      !Stuck(f) && Stuck(After(PlainSpec(), f, Synced(2, true)))
  {
    hide AfterAll, Stuck, ApplyAll;
    FirstSync();
    Then(PlainSpec(), Fresh(), FIRST_SYNC, Distributed("b"));
    TwoOfFourWrites();
  }

  lemma TwoOfFourWrites()
    ensures var f := FirstInstalled().(source := "b"); !Stuck(f) && Stuck(After(PlainSpec(), f, Synced(2, true)))
  {
    var f := FirstInstalled().(source := "b");
    var ws := Performed(PlainSpec(), f, Synced(2, true));
    assert ws == [WriteTarget("b"), WriteBaseline("b")];
    assert ws[1].WriteBaseline?;
    hide ApplyAll;
    StuckExactly(PlainSpec(), f, Synced(2, true));
  }

  const REVIEWED: seq<Event> := FIRST_SYNC + [Distributed("b")] + [Edited(Some("x"))]

  lemma BeforeReview()
    ensures AfterAll(PlainSpec(), Fresh(), REVIEWED) == FirstInstalled().(source := "b", target := Some("x"))
  {
    FirstSync();
    Then(PlainSpec(), Fresh(), FIRST_SYNC, Distributed("b"));
    Then(PlainSpec(), Fresh(), FIRST_SYNC + [Distributed("b")], Edited(Some("x")));
  }

  /** A user's own text is kept, as confirmed, and the call stops after its first
      write. */
  lemma StoppedKeepIsStuck()
    ensures var f := AfterAll(PlainSpec(), Fresh(), REVIEWED);
      !Stuck(f) && Stuck(After(PlainSpec(), f, Acted(Keep, Request(Digest("x"), Digest("b")), "", 1, true)))
  {
    BeforeReview();
    var f := FirstInstalled().(source := "b", target := Some("x"));
    var e := Acted(Keep, Request(Digest("x"), Digest("b")), "", 1, true);
    var ws := Performed(PlainSpec(), f, e);
    assert ws == [WriteBaseline("b")];
    assert ws[0].WriteBaseline?;
    StuckExactly(PlainSpec(), f, e);
  }

  /** What a sync of the edited file leaves, when `source` is distributed next. */
  function OlderStaged(source: Text): Files {
    Files(
      source, Some("x"), Some("a"), Some("b"),
      Some(Metadata(Customized, Digest("a"), Digest("x"), Some(Digest("b")))))
  }

  function StagedRun(source: Text): seq<Event> {
    REVIEWED + [Synced(9, true)] + [Distributed(source)]
  }

  lemma StagedBeforeUpgrade(source: Text)
    ensures AfterAll(PlainSpec(), Fresh(), StagedRun(source)) == OlderStaged(source)
  {
    BeforeReview();
    Then(PlainSpec(), Fresh(), REVIEWED, Synced(9, true));
    Then(PlainSpec(), Fresh(), REVIEWED + [Synced(9, true)], Distributed(source));
    hide ApplyAll;
    SyncOutcome(PlainSpec(), FirstInstalled().(source := "b", target := Some("x")), true);
  }

  /** "b" was staged and "c" distributed; a reset confirmed for "c" installs "b". */
  lemma ResetInstallsOlder()
    ensures var f, request := AfterAll(PlainSpec(), Fresh(), StagedRun("c")), Request(Digest("x"), Digest("c"));
      && Confirmed(PlainSpec(), f, request)
      && After(PlainSpec(), f, Acted(Reset, request, "", 9, true)).target == Some("b")
  {
    StagedBeforeUpgrade("c");
    hide ApplyAll;
    ActionOutcome(PlainSpec(), OlderStaged("c"), Reset, "", true);
  }

  /** "b" was staged and then withdrawn: a sync that cannot remove it reports that
      there is nothing to review, and a reset confirmed for "a" installs "b". */
  lemma ResetInstallsWithdrawn()
    ensures var f, request := AfterAll(PlainSpec(), Fresh(), StagedRun("a")), Request(Digest("x"), Digest("a"));
      var g := After(PlainSpec(), f, Synced(9, false));
      && SyncPlan(PlainSpec(), f, false).report == Reports(true, false, false)
      && Confirmed(PlainSpec(), g, request)
      && After(PlainSpec(), g, Acted(Reset, request, "", 9, true)).target == Some("b")
  {
    StagedBeforeUpgrade("a");
    hide ApplyAll;
    SyncOutcome(PlainSpec(), OlderStaged("a"), false);
    var g := Complete(OlderStaged("a"), SyncPlan(PlainSpec(), OlderStaged("a"), false));
    ActionOutcome(PlainSpec(), g, Reset, "", true);
  }
}
