/** The text functions of Go's strings package that the operator relies on. */
module Texts {
  predicate HasSuffix(text: string, suffix: string) {
    |suffix| <= |text| && text[|text| - |suffix|..] == suffix
  }

  predicate Contains(text: string, part: string) {
    part <= text || (text != [] && Contains(text[1..], part))
  }

  /** `text` ends in `suffix`. */
  ghost predicate EndsIn(text: string, suffix: string) {
    exists stem :: text == stem + suffix
  }

  ghost predicate Holds(text: string, part: string) {
    exists before, after: string :: text == before + part + after
  }

  lemma EndsInExactly(text: string, suffix: string)
    ensures EndsIn(text, suffix) <==> HasSuffix(text, suffix)
  {
    if HasSuffix(text, suffix) { assert text == text[..|text| - |suffix|] + suffix; }
  }

  lemma {:induction false} HoldsExactly(text: string, part: string)
    ensures Holds(text, part) <==> Contains(text, part)
  {
    if part <= text {
      assert text == "" + part + text[|part|..];
    } else if text != "" {
      HoldsExactly(text[1..], part);
      if before, after: string :| text == before + part + after { FirstOrLater(text, before, part, after); }
      if before, after: string :| text[1..] == before + part + after {
        assert text == ([text[0]] + before) + part + after;
      }
    }
  }

  lemma FirstOrLater(text: string, before: string, part: string, after: string)
    requires text == before + part + after
    ensures part <= text || (before != "" && text[1..] == before[1..] + part + after)
  {
    if before == "" { assert text == part + after; }
  }

  /** unicode.IsSpace */
  predicate Space(c: char) {
    c in {' ', '\t', '\n', '\U{000B}', '\U{000C}', '\r', '\U{0085}', '\U{00A0}', '\U{1680}', '\U{2028}', '\U{2029}',
      '\U{202F}', '\U{205F}', '\U{3000}'}
    || '\U{2000}' <= c <= '\U{200A}'
  }

  predicate Blank(s: string) {
    forall c <- s :: Space(c)
  }

  /** Nothing to trim. */
  predicate Trimmed(s: string) {
    s == "" || (!Space(s[0]) && !Space(s[|s| - 1]))
  }

  function TrimLeft(s: string): (r: string)
    ensures |r| <= |s| && (|r| == |s| ==> r == s)
  {
    if s != "" && Space(s[0]) then TrimLeft(s[1..]) else s
  }

  function TrimRight(s: string): (r: string)
    ensures r <= s
  {
    if s != "" && Space(s[|s| - 1]) then TrimRight(s[..|s| - 1]) else s
  }

  /** strings.TrimSpace */
  function Trim(s: string): string {
    TrimRight(TrimLeft(s))
  }

  lemma {:induction false} TrimLeftEnds(s: string)
    ensures var r := TrimLeft(s); r == "" || (!Space(r[0]) && s != "" && r[|r| - 1] == s[|s| - 1])
  {
    if s != "" && Space(s[0]) { TrimLeftEnds(s[1..]); }
  }

  lemma {:induction false} TrimRightEnds(s: string)
    ensures var r := TrimRight(s); r == "" || (!Space(r[|r| - 1]) && s != "" && r[0] == s[0])
  {
    if s != "" && Space(s[|s| - 1]) { TrimRightEnds(s[..|s| - 1]); }
  }

  lemma {:induction false} TrimKeepsStart(s: string)
    requires s != "" && !Space(s[0])
    ensures Trim(s) != "" && Trim(s) <= s
    decreases |s|
  {
    if Space(s[|s| - 1]) { TrimKeepsStart(s[..|s| - 1]); }
  }

  /** Trimming leaves a trimmed text, and exactly those texts alone. */
  lemma TrimLeavesTrimmed(s: string)
    ensures Trimmed(Trim(s)) && |Trim(s)| <= |s|
    ensures |Trim(s)| == |s| ==> Trim(s) == s
    ensures Trim(s) == s <==> Trimmed(s)
  {
    TrimLeftEnds(s);
    TrimRightEnds(TrimLeft(s));
  }

  lemma {:induction false} TrimLeftOfPadded(pad: string, s: string)
    requires Blank(pad) && s != "" && !Space(s[0])
    ensures TrimLeft(pad + s) == s
  {
    if pad == "" {
      assert pad + s == s;
    } else {
      assert (pad + s)[1..] == pad[1..] + s;
      TrimLeftOfPadded(pad[1..], s);
    }
  }

  lemma TrimOfPadded(pad: string, s: string)
    requires Blank(pad) && s != "" && Trimmed(s)
    ensures Trim(pad + s) == s
  {
    TrimLeftOfPadded(pad, s);
  }

  lemma {:induction false} TrimRightOfJoin(a: string, b: string)
    ensures TrimRight(a + b) == if Blank(b) then TrimRight(a) else a + TrimRight(b)
    decreases |b|
  {
    if b == "" {
      assert a + b == a;
    } else if Space(b[|b| - 1]) {
      assert (a + b)[..|a + b| - 1] == a + b[..|b| - 1];
      TrimRightOfJoin(a, b[..|b| - 1]);
      assert b == b[..|b| - 1] + [b[|b| - 1]];
    }
  }

  /** Trimming on the right first makes no difference. */
  lemma {:induction false} TrimOfTrimRight(s: string)
    ensures Trim(TrimRight(s)) == Trim(s)
    decreases |s|
  {
    if s != "" {
      var first, rest := [s[0]], s[1..];
      assert s == first + rest;
      TrimRightOfJoin(first, rest);
      TrimRightOfJoin("", TrimRight(s));
      if Space(s[0]) {
        TrimOfTrimRight(rest);
        if !Blank(rest) { assert (first + TrimRight(rest))[1..] == TrimRight(rest); }
        BlankIsTrimmedAway(rest);
      } else {
        TrimRightTwice(s);
      }
    }
  }

  lemma {:induction false} TrimRightTwice(s: string)
    ensures TrimRight(TrimRight(s)) == TrimRight(s)
  {
    TrimRightEnds(s);
  }

  lemma {:induction false} BlankIsTrimmedAway(s: string)
    ensures Blank(s) ==> TrimLeft(s) == "" && TrimRight(s) == ""
  {
    if Blank(s) && s != "" {
      assert Blank(s[1..]);
      BlankIsTrimmedAway(s[1..]);
      TrimRightOfJoin("", s);
      assert "" + s == s;
    }
  }

  /** Nothing but space, or a comment after some space. */
  ghost predicate IsNote(raw: string) {
    Blank(raw) || exists pad, rest: string :: Blank(pad) && raw == pad + "#" + rest
  }

  lemma NoteExactly(raw: string)
    ensures IsNote(raw) <==> Trim(raw) == "" || "#" <= Trim(raw)
  {
    var left := TrimLeft(raw);
    TrimLeftSplits(raw);
    TrimStart(raw);
    BlankIsTrimmedAway(raw);
    hide TrimLeft, TrimRight, Trim, Space, Blank;
    if pad, rest: string :| Blank(pad) && raw == pad + "#" + rest { HashIsFirst(pad, rest); }
    if left != "" && left[0] == '#' { assert raw == raw[..|raw| - |left|] + "#" + left[1..]; }
    assert "#" <= Trim(raw) <==> Trim(raw) != "" && Trim(raw)[0] == '#';
  }

  lemma HashIsFirst(pad: string, rest: string)
    requires Blank(pad)
    ensures TrimLeft(pad + "#" + rest) == "#" + rest
  {
    assert pad + "#" + rest == pad + ("#" + rest);
    TrimLeftOfPadded(pad, "#" + rest);
  }

  lemma TrimStart(raw: string)
    ensures var left := TrimLeft(raw);
      (Trim(raw) == "" <==> left == "") && (left != "" ==> Trim(raw) != "" && Trim(raw)[0] == left[0])
  {
    TrimLeftEnds(raw);
    var left := TrimLeft(raw);
    if left != "" { TrimKeepsStart(left); }
  }

  lemma {:induction false} TrimLeftSplits(s: string)
    ensures var left := TrimLeft(s);
      Blank(s[..|s| - |left|]) && s == s[..|s| - |left|] + left && (left == "" ==> Blank(s))
  {
    if s != "" && Space(s[0]) {
      TrimLeftSplits(s[1..]);
      var left := TrimLeft(s);
      assert s[..|s| - |left|] == [s[0]] + s[1..][..|s[1..]| - |left|];
      assert s == [s[0]] + s[1..];
    }
  }

  /** strings.Index of one character; the length if there is none. */
  function IndexOf(s: string, c: char): (i: nat)
    ensures i <= |s| && c !in s[..i] && (i < |s| ==> s[i] == c)
  {
    if s == "" || s[0] == c then 0
    else
      var i := 1 + IndexOf(s[1..], c);
      assert s[..i] == [s[0]] + s[1..][..i - 1];
      i
  }

  lemma {:induction false} IndexOfFirst(before: string, c: char, rest: string)
    requires c !in before
    ensures IndexOf(before + [c] + rest, c) == |before|
    decreases |before|
  {
    if before != "" {
      assert (before + [c] + rest)[1..] == before[1..] + [c] + rest;
      IndexOfFirst(before[1..], c, rest);
    }
  }
}
