/** operator/instructions.go: the conservative three-way merge of instruction
    files. */
module InstructionMerge {
  import opened Lines

  datatype MergeResult = Merged(text: string) | Overlapping | Structural

  /** `m` is the line that results from one line of each text. */
  predicate LineMerges(b: string, l: string, u: string, m: string) {
    && (l != b ==> m == l)
    && (u != b ==> m == u)
    && (l == b && u == b ==> m == b)
  }

  predicate ChangedDifferently(b: string, l: string, u: string) {
    l != b && u != b && l != u
  }

  predicate SameShape(base: string, local: string, upstream: string) {
    |Split(base, '\n')| == |Split(local, '\n')| == |Split(upstream, '\n')|
  }

  /** Some line was changed by both sides, and not to the same text. */
  predicate Overlap(base: string, local: string, upstream: string)
    requires SameShape(base, local, upstream)
  {
    var b, l, u := Split(base, '\n'), Split(local, '\n'), Split(upstream, '\n');
    exists i | 0 <= i < |b| :: ChangedDifferently(b[i], l[i], u[i])
  }

  /** Line by line, `text` holds what either side changed and nothing else new. */
  predicate IsMergeOf(base: string, local: string, upstream: string, text: string)
    requires SameShape(base, local, upstream)
  {
    var b, l, u, m := Split(base, '\n'), Split(local, '\n'), Split(upstream, '\n'), Split(text, '\n');
    |m| == |b| && forall i | 0 <= i < |b| :: LineMerges(b[i], l[i], u[i], m[i])
  }

  /** Texts of one shape merge exactly when no line was changed differently, and
      then line by line; texts of different shapes merge only if one side is
      unchanged or both are equal. */
  predicate IsOutcome(base: string, local: string, upstream: string, r: MergeResult) {
    if SameShape(base, local, upstream) then
      if Overlap(base, local, upstream) then r == Overlapping
      else r.Merged? && IsMergeOf(base, local, upstream, r.text)
    else if local == base then r == Merged(upstream)
    else if upstream == base || local == upstream then r == Merged(local)
    else r == Structural
  }

  /** No text is agreed on: some line of texts of one shape was changed by both
      sides and differently, or the shapes differ and both sides changed the text,
      and not to the same. */
  predicate Conflicts(base: string, local: string, upstream: string) {
    if SameShape(base, local, upstream) then Overlap(base, local, upstream)
    else local != base && upstream != base && local != upstream
  }

  /** mergeInstructionLines */
  method MergeInstructionLines(base: string, local: string, upstream: string) returns (r: MergeResult)
    ensures IsOutcome(base, local, upstream, r)
  {
    if local == base { return Merged(upstream); }
    if upstream == base || local == upstream { return Merged(local); }
    var baseLines, localLines, upstreamLines := Split(base, '\n'), Split(local, '\n'), Split(upstream, '\n');
    if |baseLines| != |localLines| || |baseLines| != |upstreamLines| { return Structural; }
    SplitHasNoSeparator(local, '\n');
    SplitHasNoSeparator(upstream, '\n');
    var merged: seq<string> := [];
    for i := 0 to |baseLines|
      invariant |merged| == i
      invariant forall j | 0 <= j < i :: LineMerges(baseLines[j], localLines[j], upstreamLines[j], merged[j])
      invariant forall j | 0 <= j < i :: !ChangedDifferently(baseLines[j], localLines[j], upstreamLines[j])
      invariant forall line <- merged :: '\n' !in line
    {
      var line;
      if localLines[i] == baseLines[i] {
        line := upstreamLines[i];
      } else if upstreamLines[i] == baseLines[i] || localLines[i] == upstreamLines[i] {
        line := localLines[i];
      } else {
        return Overlapping;
      }
      merged := merged + [line];
    }
    SplitOfJoin(merged, '\n');
    r := Merged(Join(merged, '\n'));
  }

  /** The contract leaves one result. */
  lemma MergeIsUnique(base: string, local: string, upstream: string, r: MergeResult, q: MergeResult)
    requires IsOutcome(base, local, upstream, r) && IsOutcome(base, local, upstream, q)
    ensures r == q
  {
    if r.Merged? && q.Merged? && SameShape(base, local, upstream) {
      assert Split(r.text, '\n') == Split(q.text, '\n');
      SplitInjective(r.text, q.text, '\n');
    }
  }

  /** Local and upstream may be exchanged, whatever the outcome. */
  lemma MergeIsSymmetric(base: string, local: string, upstream: string, r: MergeResult)
    ensures IsOutcome(base, local, upstream, r) <==> IsOutcome(base, upstream, local, r)
  {
    var b, l, u := Split(base, '\n'), Split(local, '\n'), Split(upstream, '\n');
    if i :| 0 <= i < |b| && i < |l| && i < |u| && ChangedDifferently(b[i], l[i], u[i]) {
      assert ChangedDifferently(b[i], u[i], l[i]);
    }
    if i :| 0 <= i < |b| && i < |l| && i < |u| && ChangedDifferently(b[i], u[i], l[i]) {
      assert ChangedDifferently(b[i], l[i], u[i]);
    }
  }

  /** Merging again gives nothing new: whatever merges keeps every change of each
      side, so it is also the merge of itself with either side. */
  lemma MergeAbsorbs(base: string, local: string, upstream: string, text: string)
    requires IsOutcome(base, local, upstream, Merged(text))
    ensures IsOutcome(base, local, text, Merged(text)) && IsOutcome(base, text, upstream, Merged(text))
  {
    hide Split;
    if SameShape(base, local, upstream) {
      assert SameShape(base, local, text) && SameShape(base, text, upstream);
    }
  }
}
