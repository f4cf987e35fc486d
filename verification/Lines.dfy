/** Splitting a text at a character and joining it again, as Go's strings.Split
    and strings.Join do. */
module Lines {
  function Split(s: string, sep: char): (r: seq<string>)
    ensures |r| > 0
  {
    if s == [] then [""]
    else if s[0] == sep then [""] + Split(s[1..], sep)
    else var rest := Split(s[1..], sep); [[s[0]] + rest[0]] + rest[1..]
  }

  function Join(lines: seq<string>, sep: char): string {
    if lines == [] then ""
    else if |lines| == 1 then lines[0]
    else lines[0] + [sep] + Join(lines[1..], sep)
  }

  lemma {:induction false} JoinOfSplit(s: string, sep: char)
    ensures Join(Split(s, sep), sep) == s
  {
    if s != [] {
      JoinOfSplit(s[1..], sep);
      var rest := Split(s[1..], sep);
      if s[0] == sep {
        assert ([""] + rest)[1..] == rest;
      } else {
        assert ([[s[0]] + rest[0]] + rest[1..])[1..] == rest[1..];
      }
    }
  }

  lemma {:induction false} SplitHasNoSeparator(s: string, sep: char)
    ensures forall line <- Split(s, sep) :: sep !in line
  {
    if s != [] {
      SplitHasNoSeparator(s[1..], sep);
    }
  }

  lemma {:induction false} SplitOfLine(line: string, sep: char)
    requires sep !in line
    ensures Split(line, sep) == [line]
  {
    if line != [] {
      SplitOfLine(line[1..], sep);
      assert [line[0]] + line[1..] == line;
    }
  }

  lemma {:induction false} SplitOfFirst(line: string, rest: string, sep: char)
    requires sep !in line
    ensures Split(line + [sep] + rest, sep) == [line] + Split(rest, sep)
  {
    var s := line + [sep] + rest;
    if line == [] {
      assert s[1..] == rest;
    } else {
      SplitOfFirst(line[1..], rest, sep);
      assert s[1..] == line[1..] + [sep] + rest;
      assert [line[0]] + line[1..] == line;
    }
  }

  lemma {:induction false} SplitOfJoin(lines: seq<string>, sep: char)
    requires |lines| > 0 && forall line <- lines :: sep !in line
    ensures Split(Join(lines, sep), sep) == lines
  {
    if |lines| == 1 {
      SplitOfLine(lines[0], sep);
    } else {
      SplitOfJoin(lines[1..], sep);
      SplitOfFirst(lines[0], Join(lines[1..], sep), sep);
    }
  }

  lemma SplitInjective(s: string, t: string, sep: char)
    ensures Split(s, sep) == Split(t, sep) <==> s == t
  {
    JoinOfSplit(s, sep);
    JoinOfSplit(t, sep);
  }

  /** strings.ReplaceAll of carriage return and line feed by a line feed. */
  function UnixText(s: string): string {
    if s == "" then ""
    else if |s| >= 2 && s[0] == '\r' && s[1] == '\n' then "\n" + UnixText(s[2..])
    else [s[0]] + UnixText(s[1..])
  }

  /** No line feed of `s` follows a carriage return. */
  predicate UnixEnds(s: string) {
    forall i | 0 < i < |s| :: s[i] == '\n' ==> s[i - 1] != '\r'
  }

  function JoinDos(lines: seq<string>): string {
    if lines == [] then ""
    else if |lines| == 1 then lines[0]
    else lines[0] + "\r\n" + JoinDos(lines[1..])
  }

  /** Pieces between pairs of carriage return and line feed are kept, whatever
      single ones they hold, and each pair becomes a line feed. */
  lemma {:induction false} UnixTextExactly(pieces: seq<string>)
    requires |pieces| > 0 && forall piece <- pieces :: UnixEnds(piece)
    ensures UnixText(JoinDos(pieces)) == Join(pieces, '\n')
  {
    if |pieces| == 1 {
      UnixStays(pieces[0]);
    } else {
      UnixTextExactly(pieces[1..]);
      UnixOfPiece(pieces[0], JoinDos(pieces[1..]));
    }
  }

  lemma {:induction false} UnixStays(s: string)
    requires UnixEnds(s)
    ensures UnixText(s) == s
  {
    if s != "" {
      assert UnixEnds(s[1..]) by { TailUnixEnds(s); }
      UnixStays(s[1..]);
    }
  }

  lemma TailUnixEnds(s: string)
    requires UnixEnds(s) && s != ""
    ensures UnixEnds(s[1..])
  {
    forall i | 0 < i < |s[1..]| && s[1..][i] == '\n' ensures s[1..][i - 1] != '\r' {
      assert s[i + 1] == '\n';
    }
  }

  lemma {:induction false} UnixOfPiece(s: string, rest: string)
    requires UnixEnds(s)
    ensures UnixText(s + "\r\n" + rest) == s + "\n" + UnixText(rest)
  {
    var all := s + "\r\n" + rest;
    if s == "" {
      assert all[2..] == rest;
    } else {
      TailUnixEnds(s);
      UnixOfPiece(s[1..], rest);
      assert all[1..] == s[1..] + "\r\n" + rest;
      assert all[0] == '\r' ==> all[1] != '\n' by {
        if |s| > 1 { assert all[1] == s[1]; }
      }
    }
  }

  lemma {:induction false} UnixWithoutReturns(s: string)
    requires '\r' !in s
    ensures UnixText(s) == s
  {
    UnixStays(s);
  }

  lemma {:induction false} SplitKeepsOut(s: string, sep: char, c: char)
    requires c !in s
    ensures forall line <- Split(s, sep) :: c !in line
  {
    if s != "" { SplitKeepsOut(s[1..], sep, c); }
  }

  lemma {:induction false} JoinKeepsOut(lines: seq<string>, sep: char, c: char)
    requires c != sep && forall line <- lines :: c !in line
    ensures c !in Join(lines, sep)
  {
    if |lines| > 1 { JoinKeepsOut(lines[1..], sep, c); }
  }
}
