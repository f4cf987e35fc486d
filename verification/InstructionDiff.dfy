/** operator/instructions.go: the line diff shown before an instruction file is
    merged or reset. */
module InstructionDiff {
  import opened Lines

  /** One line of the script: kept, only in the old text, or only in the new. */
  datatype DiffLine = Keep(text: string) | Drop(text: string) | Add(text: string)

  /** The lines that the script says the old text has. */
  function OldLines(script: seq<DiffLine>): seq<string> {
    if script == [] then []
    else (if script[0].Add? then [] else [script[0].text]) + OldLines(script[1..])
  }

  function NewLines(script: seq<DiffLine>): seq<string> {
    if script == [] then []
    else (if script[0].Drop? then [] else [script[0].text]) + NewLines(script[1..])
  }

  function KeptLines(script: seq<DiffLine>): seq<string> {
    if script == [] then []
    else (if script[0].Keep? then [script[0].text] else []) + KeptLines(script[1..])
  }

  predicate Subsequence(s: seq<string>, a: seq<string>) {
    s == [] || (a != [] && ((s[0] == a[0] && Subsequence(s[1..], a[1..])) || Subsequence(s, a[1..])))
  }

  /** The recurrence that the table is filled with. */
  function Lcs(a: seq<string>, b: seq<string>): nat
    decreases |a| + |b|
  {
    if a == [] || b == [] then 0
    else if a[0] == b[0] then Lcs(a[1..], b[1..]) + 1
    else if Lcs(a[1..], b) >= Lcs(a, b[1..]) then Lcs(a[1..], b)
    else Lcs(a, b[1..])
  }

  // ------------------------------------------------- what the recurrence means

  lemma {:induction false} SubsequenceOfTails(s: seq<string>, a: seq<string>)
    requires s != [] && Subsequence(s, a)
    ensures a != [] && Subsequence(s[1..], a[1..])
  {
    if !(s[0] == a[0] && Subsequence(s[1..], a[1..])) {
      SubsequenceOfTails(s, a[1..]);
      SubsequenceWidens(s[1..], a[1..]);
    }
  }

  lemma SubsequenceWidens(s: seq<string>, a: seq<string>)
    requires a != [] && Subsequence(s, a[1..])
    ensures Subsequence(s, a)
  {
  }

  lemma {:induction false} SubsequenceSkips(s: seq<string>, a: seq<string>)
    requires s != [] && a != [] && s[0] != a[0] && Subsequence(s, a)
    ensures Subsequence(s, a[1..])
  {
  }

  /** No common subsequence is longer than the recurrence says. */
  lemma {:induction false} LcsIsUpperBound(s: seq<string>, a: seq<string>, b: seq<string>)
    requires Subsequence(s, a) && Subsequence(s, b)
    ensures |s| <= Lcs(a, b)
    decreases |a| + |b|
  {
    if s != [] {
      if a[0] == b[0] {
        SubsequenceOfTails(s, a);
        SubsequenceOfTails(s, b);
        LcsIsUpperBound(s[1..], a[1..], b[1..]);
      } else if s[0] == a[0] {
        SubsequenceSkips(s, b);
        LcsIsUpperBound(s, a, b[1..]);
      } else {
        SubsequenceSkips(s, a);
        LcsIsUpperBound(s, a[1..], b);
      }
    }
  }

  /** And some common subsequence is as long. */
  lemma {:induction false} LcsIsAttained(a: seq<string>, b: seq<string>) returns (s: seq<string>)
    ensures Subsequence(s, a) && Subsequence(s, b) && |s| == Lcs(a, b)
    decreases |a| + |b|
  {
    if a == [] || b == [] {
      s := [];
    } else if a[0] == b[0] {
      var rest := LcsIsAttained(a[1..], b[1..]);
      s := [a[0]] + rest;
      assert s[1..] == rest;
    } else if Lcs(a[1..], b) >= Lcs(a, b[1..]) {
      s := LcsIsAttained(a[1..], b);
    } else {
      s := LcsIsAttained(a, b[1..]);
    }
  }

  /** The kept lines of any script are common to both of its texts. */
  lemma {:induction false} KeptIsCommon(script: seq<DiffLine>)
    ensures Subsequence(KeptLines(script), OldLines(script))
    ensures Subsequence(KeptLines(script), NewLines(script))
    ensures |script| + |KeptLines(script)| == |OldLines(script)| + |NewLines(script)|
  {
    if script != [] {
      var rest := script[1..];
      KeptIsCommon(rest);
      assert KeptLines(script)[if script[0].Keep? then 1 else 0..] == KeptLines(rest);
      assert OldLines(script)[if script[0].Add? then 0 else 1..] == OldLines(rest);
      assert NewLines(script)[if script[0].Drop? then 0 else 1..] == NewLines(rest);
    }
  }

  /** A script that keeps as many lines as the recurrence says is as short as
      any script between the same two texts. */
  lemma ScriptIsMinimal(script: seq<DiffLine>, other: seq<DiffLine>)
    requires OldLines(other) == OldLines(script) && NewLines(other) == NewLines(script)
    requires |KeptLines(script)| == Lcs(OldLines(script), NewLines(script))
    ensures |script| <= |other|
  {
    KeptIsCommon(script);
    KeptIsCommon(other);
    LcsIsUpperBound(KeptLines(other), OldLines(script), NewLines(script));
  }

  lemma {:induction false} ScriptAppends(script: seq<DiffLine>, line: DiffLine)
    ensures OldLines(script + [line]) == OldLines(script) + (if line.Add? then [] else [line.text])
    ensures NewLines(script + [line]) == NewLines(script) + (if line.Drop? then [] else [line.text])
    ensures KeptLines(script + [line]) == KeptLines(script) + (if line.Keep? then [line.text] else [])
  {
    if script == [] {
      assert [line][1..] == [];
    } else {
      var more := script + [line];
      assert more[0] == script[0] && more[1..] == script[1..] + [line];
      ScriptAppends(script[1..], line);
    }
  }

  // ---------------------------------------------------------------- the code

  /** Every entry is the recurrence at its pair of suffixes. */
  ghost predicate IsTable(lcs: array2<nat>, a: seq<string>, b: seq<string>)
    reads lcs
  {
    && lcs.Length0 == |a| + 1 && lcs.Length1 == |b| + 1
    && forall i, j | 0 <= i <= |a| && 0 <= j <= |b| :: lcs[i, j] == Lcs(a[i..], b[j..])
  }

  /** Fills the table from the end of both texts. */
  method FillTable(a: seq<string>, b: seq<string>) returns (lcs: array2<nat>)
    ensures fresh(lcs) && IsTable(lcs, a, b)
  {
    LcsOfNothing(a, b);
    hide Lcs;
    lcs := new nat[|a| + 1, |b| + 1]((_, _) => 0);
    var left := |a|;
    while left > 0
      invariant 0 <= left <= |a|
      invariant forall i | left <= i <= |a| :: forall j | 0 <= j <= |b| :: lcs[i, j] == Lcs(a[i..], b[j..])
      invariant forall i | 0 <= i < left :: lcs[i, |b|] == 0
    {
      left := left - 1;
      var right := |b|;
      while right > 0
        invariant 0 <= right <= |b|
        invariant forall i | left < i <= |a| :: forall j | 0 <= j <= |b| :: lcs[i, j] == Lcs(a[i..], b[j..])
        invariant forall j | right <= j <= |b| :: lcs[left, j] == Lcs(a[left..], b[j..])
        invariant forall i | 0 <= i < left :: lcs[i, |b|] == 0
      {
        right := right - 1;
        LcsStep(a, b, left, right);
        if a[left] == b[right] {
          lcs[left, right] := lcs[left + 1, right + 1] + 1;
        } else if lcs[left + 1, right] >= lcs[left, right + 1] {
          lcs[left, right] := lcs[left + 1, right];
        } else {
          lcs[left, right] := lcs[left, right + 1];
        }
      }
    }
  }

  lemma LcsOfNothing(a: seq<string>, b: seq<string>)
    ensures forall i | 0 <= i <= |a| :: Lcs(a[i..], b[|b|..]) == 0
    ensures forall j | 0 <= j <= |b| :: Lcs(a[|a|..], b[j..]) == 0
  {
  }

  lemma LcsStep(a: seq<string>, b: seq<string>, i: nat, j: nat)
    requires i < |a| && j < |b|
    ensures Lcs(a[i..], b[j..]) ==
      if a[i] == b[j] then Lcs(a[i + 1..], b[j + 1..]) + 1
      else if Lcs(a[i + 1..], b[j..]) >= Lcs(a[i..], b[j + 1..]) then Lcs(a[i + 1..], b[j..])
      else Lcs(a[i..], b[j + 1..])
  {
    assert a[i..][1..] == a[i + 1..] && b[j..][1..] == b[j + 1..];
  }

  /** The line to print at a position of the walk. */
  method NextLine(a: seq<string>, b: seq<string>, lcs: array2<nat>, left: nat, right: nat) returns (line: DiffLine)
    requires left <= |a| && right <= |b| && (left < |a| || right < |b|)
    requires IsTable(lcs, a, b)
    ensures line.Add? || (left < |a| && line.text == a[left])
    ensures line.Drop? || (right < |b| && line.text == b[right])
    ensures Lcs(a[left..], b[right..])
         == Lcs(a[if line.Add? then left else left + 1..], b[if line.Drop? then right else right + 1..])
            + if line.Keep? then 1 else 0
  {
    if left < |a| && right < |b| {
      LcsStep(a, b, left, right);
    }
    if left < |a| && right < |b| && a[left] == b[right] {
      line := Keep(a[left]);
    } else if right >= |b| || (left < |a| && lcs[left + 1, right] >= lcs[left, right + 1]) {
      line := Drop(a[left]);
    } else {
      line := Add(b[right]);
    }
  }

  /** Walks the table from the start of both texts. */
  method DiffLines(a: seq<string>, b: seq<string>) returns (script: seq<DiffLine>)
    ensures OldLines(script) == a && NewLines(script) == b
    ensures |KeptLines(script)| == Lcs(a, b)
    ensures forall other | OldLines(other) == a && NewLines(other) == b :: |script| <= |other|
  {
    var lcs := FillTable(a, b);
    script := [];
    var left, right := 0, 0;
    while left < |a| || right < |b|
      invariant 0 <= left <= |a| && 0 <= right <= |b|
      invariant IsTable(lcs, a, b)
      invariant OldLines(script) == a[..left] && NewLines(script) == b[..right]
      invariant |KeptLines(script)| + Lcs(a[left..], b[right..]) == Lcs(a, b)
      decreases |a| - left + |b| - right
    {
      var line := NextLine(a, b, lcs, left, right);
      ScriptAppends(script, line);
      script := script + [line];
      if !line.Add? { left := left + 1; }
      if !line.Drop? { right := right + 1; }
    }
    assert a[..left] == a && b[..right] == b;
    ScriptIsShortest(script, a, b);
  }

  lemma ScriptIsShortest(script: seq<DiffLine>, a: seq<string>, b: seq<string>)
    requires OldLines(script) == a && NewLines(script) == b && |KeptLines(script)| == Lcs(a, b)
    ensures forall other | OldLines(other) == a && NewLines(other) == b :: |script| <= |other|
  {
    forall other | OldLines(other) == a && NewLines(other) == b ensures |script| <= |other| {
      ScriptIsMinimal(script, other);
    }
  }

  function TrimFinalNewline(text: string): string {
    if |text| > 0 && text[|text| - 1] == '\n' then text[..|text| - 1] else text
  }

  function TextLines(text: string): seq<string> {
    Split(TrimFinalNewline(text), '\n')
  }

  /** simpleInstructionDiff: empty for equal texts, else a header and the script. */
  method SimpleInstructionDiff(fromName: string, source: string, toName: string, target: string)
    returns (text: string, script: seq<DiffLine>)
    ensures source == target ==> text == "" && script == []
    ensures source != target ==>
              && Shows(text, "--- " + fromName + "\n+++ " + toName + "\n",
                       TextLines(source), TextLines(target), |script|)
              && OldLines(script) == TextLines(source) && NewLines(script) == TextLines(target)
              && |KeptLines(script)| == Lcs(TextLines(source), TextLines(target))
              && forall other | OldLines(other) == TextLines(source) && NewLines(other) == TextLines(target) ::
                   |script| <= |other|
  {
    if source == target { return "", []; }
    script := DiffLines(TextLines(source), TextLines(target));
    text := "--- " + fromName + "\n+++ " + toName + "\n" + Rendered(script);
    SplitHasNoSeparator(TrimFinalNewline(source), '\n');
    SplitHasNoSeparator(TrimFinalNewline(target), '\n');
    TextsOfScript(script);
    RenderedLines(script);
    PrintedSigns(script);
    var header := "--- " + fromName + "\n+++ " + toName + "\n";
    assert text[|header|..] == Rendered(script);
  }

  /** The lines that begin with one of the signs, without it. */
  function Signed(lines: seq<string>, signs: set<char>): seq<string> {
    if lines == [] then []
    else (if lines[0] != "" && lines[0][0] in signs then [lines[0][1..]] else []) + Signed(lines[1..], signs)
  }

  /** After the header come `n` lines: without their signs, those that begin with
      a space or a minus are the old lines, and those that begin with a space or a
      plus the new ones. */
  predicate Shows(text: string, header: string, before: seq<string>, after: seq<string>, n: nat) {
    && header <= text
    && var lines := Split(text[|header|..], '\n');
    && |lines| == n + 1 && lines[n] == ""
    && Signed(lines, {' ', '-'}) == before && Signed(lines, {' ', '+'}) == after
  }

  function LineOf(line: DiffLine): string {
    match line case Keep(t) => " " + t case Drop(t) => "-" + t case Add(t) => "+" + t
  }

  function Rendered(script: seq<DiffLine>): string {
    if script == [] then "" else LineOf(script[0]) + "\n" + Rendered(script[1..])
  }

  function Printed(script: seq<DiffLine>): seq<string> {
    if script == [] then [""] else [LineOf(script[0])] + Printed(script[1..])
  }

  lemma {:induction false} RenderedLines(script: seq<DiffLine>)
    requires forall i | 0 <= i < |script| :: '\n' !in script[i].text
    ensures Split(Rendered(script), '\n') == Printed(script)
    ensures |Printed(script)| == |script| + 1 && Printed(script)[|script|] == ""
  {
    if script != [] {
      assert forall i | 0 <= i < |script| - 1 :: script[1..][i] == script[i + 1];
      RenderedLines(script[1..]);
      SplitOfFirst(LineOf(script[0]), Rendered(script[1..]), '\n');
    }
  }

  lemma {:induction false} PrintedSigns(script: seq<DiffLine>)
    ensures Signed(Printed(script), {' ', '-'}) == OldLines(script)
    ensures Signed(Printed(script), {' ', '+'}) == NewLines(script)
  {
    if script == [] {
      assert [""][1..] == [];
    } else {
      PrintedSigns(script[1..]);
      assert Printed(script)[1..] == Printed(script[1..]);
      assert LineOf(script[0])[1..] == script[0].text;
    }
  }

  lemma {:induction false} TextsOfScript(script: seq<DiffLine>)
    requires forall line <- OldLines(script) + NewLines(script) :: '\n' !in line
    ensures forall i | 0 <= i < |script| :: '\n' !in script[i].text
  {
    if script != [] {
      assert script[0].text in OldLines(script) + NewLines(script);
      forall line <- OldLines(script[1..]) + NewLines(script[1..]) ensures '\n' !in line {
        assert line in OldLines(script) + NewLines(script);
      }
      TextsOfScript(script[1..]);
      assert forall i | 0 < i < |script| :: script[i] == script[1..][i - 1];
    }
  }

  predicate ShowsChange(script: seq<DiffLine>) {
    exists i | 0 <= i < |script| :: !script[i].Keep?
  }

  lemma {:induction false} UnchangedScript(script: seq<DiffLine>)
    ensures !ShowsChange(script) ==> OldLines(script) == NewLines(script) == KeptLines(script)
  {
    if script != [] && !ShowsChange(script) {
      assert forall i | 0 <= i < |script[1..]| :: script[1..][i] == script[i + 1];
      assert script[0].Keep?;
      UnchangedScript(script[1..]);
    }
  }

  lemma {:induction false} LcsOfSame(a: seq<string>)
    ensures Lcs(a, a) == |a|
  {
    if a != [] {
      LcsOfSame(a[1..]);
    }
  }

  lemma {:induction false} KeptAll(script: seq<DiffLine>)
    requires |KeptLines(script)| == |script|
    ensures !ShowsChange(script)
  {
    if script != [] {
      KeptIsCommon(script[1..]);
      KeptAtMost(script[1..]);
      KeptAll(script[1..]);
      forall i | 0 <= i < |script| ensures script[i].Keep? {
        assert i > 0 ==> script[1..][i - 1] == script[i];
      }
    }
  }

  lemma {:induction false} KeptAtMost(script: seq<DiffLine>)
    ensures |KeptLines(script)| <= |script|
  {
    if script != [] {
      KeptAtMost(script[1..]);
    }
  }

  /** A diff of two different texts shows a change exactly when they differ in
      more than a final newline. */
  lemma DiffShowsChangeExactly(source: string, target: string, script: seq<DiffLine>)
    requires OldLines(script) == TextLines(source) && NewLines(script) == TextLines(target)
    requires |KeptLines(script)| == Lcs(TextLines(source), TextLines(target))
    ensures ShowsChange(script) <==> TrimFinalNewline(source) != TrimFinalNewline(target)
  {
    SplitInjective(TrimFinalNewline(source), TrimFinalNewline(target), '\n');
    UnchangedScript(script);
    if TrimFinalNewline(source) == TrimFinalNewline(target) {
      LcsOfSame(TextLines(source));
      KeptIsCommon(script);
      KeptAll(script);
    }
  }

  /** So a diff of two texts that differ in a final newline alone shows none. */
  lemma FinalNewlineIsNotShown(script: seq<DiffLine>)
    requires OldLines(script) == TextLines("a\n") && NewLines(script) == TextLines("a")
    requires |KeptLines(script)| == Lcs(TextLines("a\n"), TextLines("a"))
    ensures !ShowsChange(script)
  {
    assert "a\n"[..1] == "a";
    DiffShowsChangeExactly("a\n", "a", script);
  }
}
