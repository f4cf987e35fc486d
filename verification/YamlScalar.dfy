/** operator/feature.go: scalars of the small YAML files, as they are written and
    as they are read back. */
module YamlScalar {
  import opened Quoting
  import opened Texts

  // ------------------------------------------------------ writing and reading

  predicate Special(c: char) {
    c in ":#{}[]&*!|>'\"%@`"
  }

  /** Whether a scalar is written in quotes. */
  predicate Quoted(v: string) {
    (exists c <- v :: Special(c)) && !Contains(v, " -> ")
  }

  /** formatYAMLScalar */
  function Format(v: string, q: Printable): string {
    if v == "" then "\"\"" else if Quoted(v) then "\"" + Escape(v, q) + "\"" else v
  }

  /** A text is written as it is exactly when it is not empty and either holds none
      of these characters or an arrow between blanks; else in quotes. */
  lemma FormatExactly(v: string, q: Printable)
    ensures Format(v, q) ==
      if v != "" && ((forall c <- v :: c !in SPECIAL) || Holds(v, " -> ")) then v else "\"" + Escape(v, q) + "\""
  {
    HoldsExactly(v, " -> ");
  }

  const SPECIAL := {
    ':', '#', '{', '}', '[', ']', '&', '*', '!', '|', '>', '\'', '"', '%', '@', '`'}

  /** Where a comment begins, scanning from `i`; the length if nowhere. */
  function CommentAt(val: string, i: nat, inSingle: bool, inDouble: bool): (k: nat)
    requires i <= |val|
    ensures i <= k <= |val|
    ensures k < |val| ==> val[k] == '#'
    decreases |val| - i
  {
    if i == |val| then i
    else if val[i] == '\'' && !inDouble then CommentAt(val, i + 1, !inSingle, inDouble)
    else if val[i] == '"' && !inSingle then CommentAt(val, i + 1, inSingle, !inDouble)
    else if val[i] == '#' && !inSingle && !inDouble && (i == 0 || val[i - 1] in {' ', '\t'}) then i
    else CommentAt(val, i + 1, inSingle, inDouble)
  }

  predicate IsQuote(c: char) {
    c == '"' || c == '\''
  }

  /** What is before `i` is made of characters that are not quotes and of pairs of
      one quote with none of its kind between them. */
  ghost predicate OutsideQuotes(val: string, i: nat)
    requires i <= |val|
    decreases i, 0
  {
    || i == 0
    || (!IsQuote(val[i - 1]) && OutsideQuotes(val, i - 1))
    || (IsQuote(val[i - 1]) && Opened(val, i - 1, val[i - 1]))
  }

  /** A quote outside of others, open since and before `i`. */
  ghost predicate Opened(val: string, i: nat, quote: char)
    requires i <= |val|
    decreases i, 2
  {
    exists j | 0 <= j < i :: OpenSince(val, j, i, quote)
  }

  ghost predicate OpenSince(val: string, j: nat, i: nat, quote: char)
    requires j < i <= |val|
    decreases j, 1
  {
    val[j] == quote && quote !in val[j + 1..i] && OutsideQuotes(val, j)
  }

  predicate CommentMark(val: string, i: nat)
    requires i < |val|
  {
    val[i] == '#' && (i == 0 || val[i - 1] == ' ' || val[i - 1] == '\t')
  }

  ghost predicate AllOf(val: string, i: nat, inSingle: bool, inDouble: bool)
    requires i <= |val|
  {
    && (OutsideQuotes(val, i) <==> !inSingle && !inDouble)
    && (Opened(val, i, '\'') <==> inSingle) && (Opened(val, i, '"') <==> inDouble)
  }

  lemma OpenSinceNext(val: string, j: nat, i: nat, quote: char)
    requires j < i < |val|
    ensures OpenSince(val, j, i + 1, quote) <==> OpenSince(val, j, i, quote) && val[i] != quote
  {
    assert val[j + 1..i + 1] == val[j + 1..i] + [val[i]];
  }

  lemma OpenedNext(val: string, i: nat, next: nat, quote: char)
    requires i < |val| && next == i + 1
    ensures Opened(val, next, quote)
       <==> if val[i] == quote then OutsideQuotes(val, i) else Opened(val, i, quote)
  {
    hide OutsideQuotes;
    assert OpenSince(val, i, next, quote) <==> val[i] == quote && OutsideQuotes(val, i);
    if j :| 0 <= j < next && OpenSince(val, j, next, quote) {
      if j < i { OpenSinceNext(val, j, i, quote); }
    }
    if j :| 0 <= j < i && OpenSince(val, j, i, quote) { OpenSinceNext(val, j, i, quote); }
  }

  lemma {:induction false} CommentFrom(val: string, i: nat, inSingle: bool, inDouble: bool)
    requires i <= |val| && !(inSingle && inDouble) && AllOf(val, i, inSingle, inDouble)
    ensures var k := CommentAt(val, i, inSingle, inDouble);
      && (k < |val| ==> OutsideQuotes(val, k) && CommentMark(val, k))
      && forall m | i <= m < k :: !(OutsideQuotes(val, m) && CommentMark(val, m))
    decreases |val| - i
  {
    if i < |val| {
      OpenedNext(val, i, i + 1, '\'');
      OpenedNext(val, i, i + 1, '"');
      assert OutsideQuotes(val, i + 1)
        <==> if IsQuote(val[i]) then Opened(val, i, val[i]) else OutsideQuotes(val, i);
      hide OutsideQuotes, Opened;
      if val[i] == '\'' && !inDouble {
        CommentFrom(val, i + 1, !inSingle, inDouble);
      } else if val[i] == '"' && !inSingle {
        CommentFrom(val, i + 1, inSingle, !inDouble);
      } else if !(CommentMark(val, i) && !inSingle && !inDouble) {
        CommentFrom(val, i + 1, inSingle, inDouble);
      }
    }
  }

  /** A comment begins at the first number sign that is outside of all quotes and
      either begins the value or follows a blank or a tab. */
  lemma CommentAtExactly(val: string)
    ensures var k := CommentAt(val, 0, false, false);
      && (k < |val| ==> OutsideQuotes(val, k) && CommentMark(val, k))
      && forall m | 0 <= m < k :: !(OutsideQuotes(val, m) && CommentMark(val, m))
  {
    CommentFrom(val, 0, false, false);
  }

  function Strip(val: string): string {
    Trim(val[..CommentAt(val, 0, false, false)])
  }

  /** stripInlineYAMLComment */
  method StripInlineComment(val: string) returns (r: string)
    ensures r == Strip(val)
  {
    if val == "" { return ""; }
    var inSingle, inDouble := false, false;
    for i := 0 to |val|
      invariant CommentAt(val, 0, false, false) == CommentAt(val, i, inSingle, inDouble)
    {
      var c := val[i];
      if c == '\'' && !inDouble {
        inSingle := !inSingle;
      } else if c == '"' && !inSingle {
        inDouble := !inDouble;
      } else if c == '#' && !inSingle && !inDouble {
        if i == 0 || val[i - 1] == ' ' || val[i - 1] == '\t' {
          return Trim(val[..i]);
        }
      }
    }
    assert val[..|val|] == val;
    return Trim(val);
  }

  predicate Wrapped(v: string) {
    |v| >= 2 && ((v[0] == '"' && v[|v| - 1] == '"') || (v[0] == '\'' && v[|v| - 1] == '\''))
  }

  function UnquoteTrimmed(v: string): (r: string)
    ensures |r| <= |v| && (|r| == |v| ==> r == v)
  {
    if Wrapped(v) then v[1..|v| - 1] else if v == "null" || v == "~" then "" else v
  }

  /** unquoteYAMLScalar */
  function Unquote(v: string): string {
    UnquoteTrimmed(Trim(v))
  }

  /** A value after its key, written and read back. */
  function FieldReadBack(v: string, q: Printable): string {
    Unquote(Strip(Trim(Format(v, q))))
  }

  /** A list item, written and read back. */
  function ItemReadBack(v: string, q: Printable): string {
    Unquote(Trim(Format(v, q)))
  }

  // ------------------------------------------------- when a scalar comes back

  /** A text that is written bare and not mistaken for anything else. */
  predicate BareKept(v: string) {
    Trimmed(v) && !Wrapped(v) && v != "null" && v != "~"
  }

  predicate FieldKept(v: string, q: Printable) {
    v == "" || if Quoted(v) then AllPlain(v, q) else BareKept(v) && CommentAt(v, 0, false, false) == |v|
  }

  predicate ItemKept(v: string, q: Printable) {
    v == "" || if Quoted(v) then AllPlain(v, q) else BareKept(v)
  }

  lemma QuotedIsTrimmed(v: string, q: Printable)
    ensures Trim("\"" + Escape(v, q) + "\"") == "\"" + Escape(v, q) + "\""
  {
    TrimLeavesTrimmed("\"" + Escape(v, q) + "\"");
  }

  /** Only backslashes, or only backslashes and double quotes. */
  predicate Marks(s: string, double: bool) {
    forall i | 0 <= i < |s| :: s[i] == '\\' || (double && s[i] == '"')
  }

  /** Escaping repeats the characters it escapes: a text that begins its own
      escaped form, after some marks, consists of marks. */
  lemma {:induction false} SelfSimilar(w: string, marks: string, double: bool, q: Printable)
    requires marks != "" && Marks(marks, double) && w <= marks + Escape(w, q)
    ensures Marks(w, double)
    decreases |w|
  {
    if w != "" {
      assert w[0] == (marks + Escape(w, q))[0] == marks[0];
      assert Marks(EscapeChar(w[0], q), double);
      var more := marks[1..] + EscapeChar(w[0], q);
      assert more + Escape(w[1..], q) == (marks + Escape(w, q))[1..];
      SelfSimilar(w[1..], more, double, q);
      assert w == [w[0]] + w[1..];
    }
  }

  /** The escaped form of marks consists of marks. */
  lemma {:induction false} EscapeOfMarks(w: string, double: bool, q: Printable)
    requires Marks(w, double)
    ensures Marks(Escape(w, q), double)
  {
    if w != "" {
      assert Marks(w[1..], double);
      EscapeOfMarks(w[1..], double, q);
    }
  }

  /** A text that begins its own escaped form has no double quote in it. */
  lemma {:induction false} NoQuoteInside(v: string, q: Printable)
    requires v <= Escape(v, q)
    ensures '"' !in Escape(v, q)
  {
    if v != "" {
      if Plain(v[0], q) {
        assert Escape(v, q)[1..] == Escape(v[1..], q);
        NoQuoteInside(v[1..], q);
      } else {
        assert v[0] == Escape(v, q)[0] == '\\';
        assert Escape(v, q)[1..] == "\\" + Escape(v[1..], q);
        SelfSimilar(v[1..], "\\", false, q);
        EscapeOfMarks(v[1..], false, q);
      }
    }
  }

  // --------------------------------------------------------- quoted scalars

  /** Between the quotes no comment begins. */
  lemma {:induction false} NoCommentInQuotes(val: string, i: nat)
    requires 0 < i < |val| && val[|val| - 1] == '"'
    requires forall j | i <= j < |val| - 1 :: val[j] != '"'
    ensures CommentAt(val, i, false, true) == |val|
    decreases |val| - i
  {
    if i < |val| - 1 { NoCommentInQuotes(val, i + 1); }
  }

  lemma QuotedPlainIsKept(v: string, q: Printable)
    requires AllPlain(v, q)
    ensures Unquote(Strip("\"" + v + "\"")) == v && Unquote("\"" + v + "\"") == v
  {
    var val := "\"" + v + "\"";
    TrimLeavesTrimmed(val);
    forall j | 1 <= j < |val| - 1 ensures val[j] != '"' { assert val[j] == v[j - 1] && v[j - 1] in v; }
    NoCommentInQuotes(val, 1);
    assert val[..|val|] == val;
  }

  lemma NotBeforeQuote(v: string, n: nat, q: Printable)
    requires n < |Escape(v, q)| && Escape(v, q)[n] == '"'
    ensures v != Escape(v, q)[..n]
  {
    if v <= Escape(v, q) { NoQuoteInside(v, q); }
  }

  lemma NotAfterQuote(v: string, n: nat, q: Printable)
    requires n <= |Escape(v, q)| && '#' in Escape(v, q)
    ensures v != "\"" + Escape(v, q)[..n]
  {
    if v <= "\"" + Escape(v, q) {
      SelfSimilar(v, "\"", true, q);
      EscapeOfMarks(v, true, q);
    }
    assert "\"" + Escape(v, q)[..n] <= "\"" + Escape(v, q);
  }

  /** What is read back when a comment seems to begin inside a quoted scalar. */
  lemma CutIsNotKept(v: string, k: nat, cut: string, q: Printable)
    requires var val := "\"" + Escape(v, q) + "\""; 0 < k < |val| && val[k] == '#' && cut != "" && cut <= val[..k]
    ensures UnquoteTrimmed(cut) != v
  {
    hide Escape;
    var val, n := "\"" + Escape(v, q) + "\"", |cut| - 1;
    assert cut == val[..n + 1] == "\"" + Escape(v, q)[..n];
    assert Escape(v, q)[k - 1] == '#';
    if Wrapped(cut) {
      assert UnquoteTrimmed(cut) == Escape(v, q)[..n - 1];
      NotBeforeQuote(v, n - 1, q);
    } else {
      assert cut[0] == '"';
      NotAfterQuote(v, n, q);
    }
  }

  /** What is read back from a quoted scalar with a character that is escaped. */
  lemma EscapedIsNotKept(v: string, q: Printable)
    requires !AllPlain(v, q)
    ensures Unquote(Strip("\"" + Escape(v, q) + "\"")) != v && Unquote("\"" + Escape(v, q) + "\"") != v
  {
    var val := "\"" + Escape(v, q) + "\"";
    var k := CommentAt(val, 0, false, false);
    TrimLeavesTrimmed(val);
    EscapeLength(v, q);
    assert val[..|val|] == val;
    assert UnquoteTrimmed(val) == Escape(v, q);
    if k < |val| {
      TrimLeavesTrimmed(val[..k]);
      TrimKeepsStart(val[..k]);
      TrimLeavesTrimmed(Trim(val[..k]));
      CutIsNotKept(v, k, Trim(val[..k]), q);
    }
  }

  // ---------------------------------------------------------- both theorems

  /** A bare text comes back through a scan that cuts nothing. */
  lemma BareKeptExactly(v: string)
    requires v != ""
    ensures Unquote(Trim(v)) == v <==> BareKept(v)
    ensures Unquote(Strip(Trim(v))) == v <==> BareKept(v) && CommentAt(v, 0, false, false) == |v|
  {
    hide Trim, TrimLeft, TrimRight, CommentAt;
    var t := Trim(v);
    TrimLeavesTrimmed(v);
    TrimLeavesTrimmed(t);
    var k := CommentAt(t, 0, false, false);
    TrimLeavesTrimmed(t[..k]);
    TrimLeavesTrimmed(Trim(t[..k]));
    assert v[..|v|] == v;
  }

  /** A value after its key comes back exactly when, written in quotes, it has
      nothing to escape, and written bare, nothing in it is trimmed, unquoted, cut
      off as a comment or read as null. */
  lemma FieldKeptExactly(v: string, q: Printable)
    ensures FieldReadBack(v, q) == v <==> FieldKept(v, q)
  {
    if v == "" {
      QuotedPlainIsKept(v, q);
      assert "\"" + v + "\"" == "\"\"";
      TrimLeavesTrimmed("\"\"");
    } else if Quoted(v) {
      QuotedIsTrimmed(v, q);
      EscapeLength(v, q);
      if AllPlain(v, q) { QuotedPlainIsKept(v, q); } else { EscapedIsNotKept(v, q); }
    } else {
      BareKeptExactly(v);
    }
  }

  /** The same for a list item, in which no comment is looked for. */
  lemma ItemKeptExactly(v: string, q: Printable)
    ensures ItemReadBack(v, q) == v <==> ItemKept(v, q)
  {
    if v == "" {
      QuotedPlainIsKept(v, q);
      assert "\"" + v + "\"" == "\"\"";
      TrimLeavesTrimmed("\"\"");
    } else if Quoted(v) {
      QuotedIsTrimmed(v, q);
      EscapeLength(v, q);
      if AllPlain(v, q) { QuotedPlainIsKept(v, q); } else { EscapedIsNotKept(v, q); }
    } else {
      BareKeptExactly(v);
    }
  }

  /** A quoted scalar with a character that is not printable does not come back. */
  lemma HiddenCharacterIsLost(c: char, q: Printable)
    requires !q(c)
    ensures FieldReadBack("a:" + [c], q) != "a:" + [c] && ItemReadBack("a:" + [c], q) != "a:" + [c]
  {
    var v := "a:" + [c];
    assert v[0] == 'a' && v[1] == ':' && v[2] == c && |v| == 3;
    NoArrow(v);
    assert Special(v[1]) && !Plain(v[2], q);
    FieldKeptExactly(v, q);
    ItemKeptExactly(v, q);
  }

  lemma NoArrow(v: string)
    requires |v| < 4
    ensures !Contains(v, " -> ")
  {
    if v != "" { NoArrow(v[1..]); }
  }

  // ------------------------------------------------------ keys and values

  /** splitYAMLKeyValue; `ok` is false when there is no key. */
  datatype KeyValue = KeyValue(key: string, value: string, ok: bool)

  function SplitKeyValue(line: string): KeyValue {
    var i := IndexOf(line, ':');
    if i == 0 || i == |line| then KeyValue("", "", false)
    else KeyValue(Trim(line[..i]), Strip(Trim(line[i + 1..])), true)
  }

  /** The spaces a line begins with. */
  function Indent(line: string): nat {
    if line != "" && line[0] == ' ' then 1 + Indent(line[1..]) else 0
  }

  lemma {:induction false} IndentOfPadded(pad: string, t: string)
    requires (forall i | 0 <= i < |pad| :: pad[i] == ' ') && t != "" && t[0] != ' '
    ensures Indent(pad + t) == |pad|
    decreases |pad|
  {
    if pad == "" {
      assert pad + t == t;
    } else {
      assert (pad + t)[1..] == pad[1..] + t;
      IndentOfPadded(pad[1..], t);
    }
  }

  /** A key as the writers use them. */
  predicate Key(key: string) {
    key != "" && Trimmed(key) && ':' !in key && key[0] != '#' && key[0] != '-'
  }

  lemma SplitAtColon(key: string, rest: string)
    requires Key(key)
    ensures SplitKeyValue(key + [':'] + rest) == KeyValue(key, Strip(Trim(rest)), true)
  {
    var line := key + [':'] + rest;
    IndexOfFirst(key, ':', rest);
    assert line[..|key|] == key && line[|key| + 1..] == rest;
    TrimLeavesTrimmed(key);
  }

  lemma SplitOfKeyed(key: string, f: string)
    requires Key(key) && f != "" && Trimmed(f)
    ensures SplitKeyValue(key + ": " + f) == KeyValue(key, Strip(f), true)
  {
    assert key + ": " + f == key + [':'] + (" " + f);
    SplitAtColon(key, " " + f);
    TrimOfPadded(" ", f);
  }

  lemma KeyedIsTrimmed(key: string, f: string)
    requires Key(key) && f != "" && Trimmed(f)
    ensures var t := key + ": " + f; t != "" && t[0] == key[0] && Trimmed(t)
  {
  }

  lemma SplitOfHeader(key: string)
    requires Key(key)
    ensures SplitKeyValue(key + ":") == KeyValue(key, "", true)
    ensures Trimmed(key + ":")
  {
    assert key + ":" == key + [':'] + "";
    SplitAtColon(key, "");
  }

  /** How a scalar that comes back is written. */
  lemma FormatShape(v: string, q: Printable)
    requires FieldKept(v, q) || ItemKept(v, q)
    ensures Format(v, q) != "" && Trimmed(Format(v, q)) && ('\n' !in v ==> '\n' !in Format(v, q))
  {
    EscapeLength(v, q);
  }

  lemma {:induction false} NoCommentWithoutMark(v: string, i: nat, inSingle: bool, inDouble: bool)
    requires i <= |v| && '#' !in v
    ensures CommentAt(v, i, inSingle, inDouble) == |v|
    decreases |v| - i
  {
    if i < |v| {
      NoCommentWithoutMark(v, i + 1, if v[i] == '\'' && !inDouble then !inSingle else inSingle,
        if v[i] == '"' && !inSingle then !inDouble else inDouble);
    }
  }
}
