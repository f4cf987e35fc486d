/** operator/instructions.go: the files behind one managed instruction and the
    writes that sync and the review actions perform on them, in order. */
module InstructionState {
  import opened Wrappers
  import opened InstructionMerge

  type Text = string

  datatype Ownership = Managed | Customized

  datatype Metadata = Metadata(
    ownership: Ownership, baselineHash: Digest, currentHash: Digest, availableHash: Option<Digest>)

  /** The fixed part of an instruction.  One file, the soul, carries a generated
      language block that `strip` normalises and `insert` writes; `legacy` is the
      hash an earlier release left for the file it installed. */
  datatype Spec = Spec(workspace: bool, soul: bool, strip: Text -> Text, insert: Text -> Text, legacy: Option<Digest>)
  {
    function Canonical(text: Text): Text {
      if soul then strip(text) else text
    }

    function Render(text: Text): Text {
      if soul then insert(text) else text
    }

    /** What the block functions owe each other. */
    ghost predicate Lawful() {
      soul ==> forall text :: strip(insert(text)) == strip(text) && strip(strip(text)) == strip(text)
    }
  }

  datatype Files = Files(
    source: Text, target: Option<Text>, baseline: Option<Text>, available: Option<Text>, metadata: Option<Metadata>)

  /** An error of the removal is ignored: `gone` says whether it took effect. */
  datatype Write =
    | WriteTarget(text: Text)
    | WriteBaseline(text: Text)
    | WriteAvailable(text: Text)
    | RemoveAvailable(gone: bool)
    | WriteMetadata(metadata: Metadata)

  function Apply(f: Files, w: Write): Files {
    match w
    case WriteTarget(t) => f.(target := Some(t))
    case WriteBaseline(t) => f.(baseline := Some(t))
    case WriteAvailable(t) => f.(available := Some(t))
    case RemoveAvailable(gone) => if gone then f.(available := None) else f
    case WriteMetadata(m) => f.(metadata := Some(m))
  }

  function ApplyAll(f: Files, ws: seq<Write>): Files {
    if ws == [] then f else Apply(ApplyAll(f, ws[..|ws| - 1]), ws[|ws| - 1])
  }

  /** What a call reports. */
  datatype Report =
    | Fails
    | Reports(localChanged: bool, upstreamChanged: bool, updated: bool)

  /** The writes of a call, if none of them fails, and its report.  Every plan
      depends on whether the removal of a staged snapshot takes effect. */
  datatype Plan = Plan(writes: seq<Write>, report: Report)

  // -------------------------------------------------------------------- sync

  /** An absent target is installed from the source. */
  function Installed(spec: Spec, f: Files): Text {
    if f.target.Some? then f.target.value else spec.Render(f.source)
  }

  /** First sight of the instruction: it is managed if an earlier release left
      the hash of exactly this text or, with no such hash, if it is the source. */
  function FirstOwnership(spec: Spec, current: Text, source: Text): Ownership {
    if spec.workspace then Customized
    else if spec.legacy.Some? then (if spec.legacy.value == Digest(current) then Managed else Customized)
    else if current == source then Managed else Customized
  }

  function Current(spec: Spec, f: Files): Text {
    spec.Canonical(Installed(spec, f))
  }

  function Source(spec: Spec, f: Files): Text {
    spec.Canonical(f.source)
  }

  /** The metadata and the baseline that the rest of a sync works with. */
  function Known(spec: Spec, f: Files): Metadata {
    if f.metadata.Some? then f.metadata.value
    else Metadata(FirstOwnership(spec, Current(spec, f), Source(spec, f)), Digest(Current(spec, f)),
      Digest(Current(spec, f)), None)
  }

  function Base(spec: Spec, f: Files): Option<Text> {
    if f.metadata.Some? then f.baseline else Some(Current(spec, f))
  }

  /** The baseline is missing or is not the one the metadata names. */
  predicate Broken(spec: Spec, f: Files) {
    Base(spec, f).None? || Digest(Base(spec, f).value) != Known(spec, f).baselineHash
  }

  predicate LocalChanged(spec: Spec, f: Files) {
    Some(Current(spec, f)) != Base(spec, f)
  }

  predicate UpstreamChanged(spec: Spec, f: Files) {
    Some(Source(spec, f)) != Base(spec, f)
  }

  /** Only an unmodified, managed file outside the workspace is updated. */
  predicate Updates(spec: Spec, f: Files) {
    !spec.workspace && !LocalChanged(spec, f) && UpstreamChanged(spec, f) && Known(spec, f).ownership == Managed
  }

  /** The text the target ends with, canonically. */
  function Outcome(spec: Spec, f: Files): Text {
    if Updates(spec, f) then Source(spec, f) else Current(spec, f)
  }

  function Opening(spec: Spec, f: Files): seq<Write> {
    (if f.target.None? then [WriteTarget(Installed(spec, f))] else [])
    + (if f.metadata.None? then [WriteBaseline(Current(spec, f))] else [])
  }

  function Settling(spec: Spec, f: Files, gone: bool): seq<Write> {
    if Updates(spec, f) then
      [WriteTarget(spec.Render(Source(spec, f))), WriteBaseline(Source(spec, f)), RemoveAvailable(gone)]
    else if UpstreamChanged(spec, f) then [WriteAvailable(Source(spec, f))]
    else [RemoveAvailable(gone)]
  }

  /** The soul is written once more if its block is not the rendered one. */
  function Rerendering(spec: Spec, f: Files): seq<Write> {
    if spec.soul && spec.Render(Outcome(spec, f)) != Installed(spec, f)
      then [WriteTarget(spec.Render(Outcome(spec, f)))] else []
  }

  function Closing(spec: Spec, f: Files): Metadata
    requires Base(spec, f).Some?
  {
    Metadata(
      if LocalChanged(spec, f) then Customized else Known(spec, f).ownership,
      Digest(if Updates(spec, f) then Source(spec, f) else Base(spec, f).value),
      Digest(Outcome(spec, f)),
      if UpstreamChanged(spec, f) && !Updates(spec, f) then Some(Digest(Source(spec, f))) else None)
  }

  function SyncPlan(spec: Spec, f: Files, gone: bool): Plan {
    if Broken(spec, f) then Plan(Opening(spec, f), Fails)
    else Plan(
      Opening(spec, f) + Settling(spec, f, gone) + Rerendering(spec, f) + [WriteMetadata(Closing(spec, f))],
      Reports(LocalChanged(spec, f), UpstreamChanged(spec, f) && !Updates(spec, f), Updates(spec, f)))
  }

  // ---------------------------------------------------------- review actions

  datatype Action = Keep | Reset | Merge

  datatype Request = Request(expectedCurrent: Digest, expectedAvailable: Digest)

  /** The text a review action works with: the staged snapshot, or the source
      if nothing is staged. */
  function Staged(spec: Spec, f: Files): Text {
    if f.available.Some? then f.available.value else spec.Canonical(f.source)
  }

  /** The text that a review action leaves in the target, canonically; `merged`
      is the outcome of the three-way merge. */
  function ActionResult(spec: Spec, f: Files, action: Action, merged: Text): Text
    requires f.target.Some?
  {
    match action
    case Keep => spec.Canonical(f.target.value)
    case Reset => Staged(spec, f)
    case Merge => merged
  }

  /** The state of the files that inspectInstruction accepts. */
  predicate Readable(f: Files) {
    && f.target.Some? && f.baseline.Some? && f.metadata.Some?
    && Digest(f.baseline.value) == f.metadata.value.baselineHash
  }

  predicate Confirmed(spec: Spec, f: Files, request: Request) {
    Readable(f)
    && request == Request(Digest(spec.Canonical(f.target.value)), Digest(spec.Canonical(f.source)))
  }

  function ActionPlan(spec: Spec, f: Files, action: Action, merged: Text, gone: bool): Plan
    requires Readable(f)
  {
    var result, staged := ActionResult(spec, f, action, merged), Staged(spec, f);
    Plan(
      (if action == Keep then [] else [WriteTarget(spec.Render(result))]) +
      [WriteBaseline(staged), RemoveAvailable(gone),
       WriteMetadata(Metadata(
         if action == Reset && !spec.workspace then Managed else Customized, Digest(staged), Digest(result), None))],
      Reports(result != staged, false, action != Keep))
  }
}
