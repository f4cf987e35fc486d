/** cli/config.go: the values of a configuration file, as they are rendered and
    read back. */
module ConfigValues {
  import opened Wrappers
  import opened Quoting
  import opened Texts
  import opened BackupSize
  import Lines

  // ----------------------------------------------------------------- comments

  /** A comment mark begins at `i`. */
  predicate MarkAt(s: string, i: nat) {
    i + 1 < |s| && s[i] == ' ' && s[i + 1] == '#'
  }

  predicate Marked(s: string) {
    exists i: nat | i < |s| :: MarkAt(s, i)
  }

  /** Where the first comment mark begins; the length if there is none. */
  function CutAt(s: string): (k: nat)
    ensures k <= |s| && (forall i: nat | i < k :: !MarkAt(s, i)) && (k < |s| ==> MarkAt(s, k))
  {
    if s == "" || MarkAt(s, 0) then 0
    else
      var k := 1 + CutAt(s[1..]);
      assert forall i: nat | 0 < i < k :: MarkAt(s, i) == MarkAt(s[1..], i - 1);
      k
  }

  /** What the parser takes of the text after the equals sign. */
  function Uncommented(s: string): string {
    Trim(s[..CutAt(s)])
  }

  lemma MarkedJoin(a: string, b: string)
    requires a == "" || b == "" || a[|a| - 1] != ' ' || b[0] != '#'
    ensures Marked(a + b) <==> Marked(a) || Marked(b)
  {
    var s := a + b;
    if i: nat :| i < |s| && MarkAt(s, i) {
      if i + 1 < |a| { assert MarkAt(a, i); } else if i >= |a| { assert MarkAt(b, i - |a|); }
    }
    if i: nat :| i < |a| && MarkAt(a, i) { assert MarkAt(s, i); }
    if i: nat :| i < |b| && MarkAt(b, i) { assert MarkAt(s, |a| + i); }
  }

  lemma {:induction false} NoSpaceInHex(n: nat, digits: nat)
    ensures ' ' !in Hex(n, digits)
  {
    if digits > 0 { NoSpaceInHex(n / 16, digits - 1); }
  }

  lemma EscapeCharUnmarked(c: char, q: Printable)
    ensures EscapeChar(c, q) != "" && !Marked(EscapeChar(c, q))
    ensures (EscapeChar(c, q)[0] == '#' <==> c == '#')
    ensures EscapeChar(c, q)[|EscapeChar(c, q)| - 1] == ' ' ==> c == ' '
  {
    NoSpaceInHex(c as nat, 2);
    NoSpaceInHex(c as nat, 4);
    NoSpaceInHex(c as nat, 8);
    var e := EscapeChar(c, q);
    assert !Plain(c, q) ==> ' ' !in e;
    assert Plain(c, q) ==> e == [c];
  }

  /** Escaping neither makes nor hides a comment mark. */
  lemma {:induction false} EscapeKeepsMarks(v: string, q: Printable)
    ensures Marked(Escape(v, q)) <==> Marked(v)
    ensures v != "" ==> Escape(v, q) != "" && (Escape(v, q)[0] == '#' <==> v[0] == '#')
  {
    if v != "" {
      var rest := v[1..];
      EscapeKeepsMarks(rest, q);
      EscapeCharUnmarked(v[0], q);
      assert v == [v[0]] + rest;
      var e, f := EscapeChar(v[0], q), Escape(rest, q);
      if v[0] == ' ' && rest != "" && rest[0] == '#' {
        assert Plain(' ', q) && Plain('#', q) && e == " ";
        assert MarkAt(v, 0) && MarkAt(e + f, 0);
      } else {
        MarkedJoin([v[0]], rest);
        MarkedJoin(e, f);
      }
    }
  }

  lemma QuoteKeepsMarks(v: string, q: Printable)
    ensures Marked(Quote(v, q)) <==> Marked(v)
  {
    EscapeKeepsMarks(v, q);
    MarkedJoin("\"", Escape(v, q));
    MarkedJoin("\"" + Escape(v, q), "\"");
  }

  // ---------------------------------------------------------- truncated quotes

  /** An escaped text cut right before a double quote cannot be read. */
  lemma {:induction false} CutBeforeQuote(v: string, n: nat, q: Printable)
    requires n < |Escape(v, q)| && Escape(v, q)[n] == '"'
    ensures Unescape(Escape(v, q)[..n]) == None
    decreases |v|
  {
    var e, f := EscapeChar(v[0], q), Escape(v[1..], q);
    EscapeCharUnmarked(v[0], q);
    if n < |e| {
      assert Escape(v, q)[n] == e[n];
      QuoteInEscape(v[0], n, q);
      assert Escape(v, q)[..n] == "\\";
    } else {
      assert Escape(v, q)[..n] == e + f[..n - |e|];
      CutBeforeQuote(v[1..], n - |e|, q);
      CharIsRead(v[0], f[..n - |e|], q);
    }
  }

  lemma QuoteInEscape(c: char, n: nat, q: Printable)
    requires n < |EscapeChar(c, q)| && EscapeChar(c, q)[n] == '"'
    ensures n == 1 && EscapeChar(c, q)[0] == '\\'
  {
    NoQuoteInHex(c as nat, 2);
    NoQuoteInHex(c as nat, 4);
    NoQuoteInHex(c as nat, 8);
  }

  lemma {:induction false} NoQuoteInHex(n: nat, digits: nat)
    ensures '"' !in Hex(n, digits)
  {
    if digits > 0 { NoQuoteInHex(n / 16, digits - 1); }
  }

  /** No proper beginning of a quoted text reads as a quoted text, with or
      without the spaces at its end. */
  lemma CutQuoteFails(v: string, part: string, q: Printable)
    requires part <= Quote(v, q) && part != Quote(v, q)
    ensures Unquoted(part) == None
  {
    hide Unescape, Escape;
    if |part| >= 2 && part[|part| - 1] == '"' {
      var n := |part| - 2;
      assert part[n + 1] == Quote(v, q)[n + 1] == Escape(v, q)[n];
      assert part[1..|part| - 1] == Escape(v, q)[..n];
      CutBeforeQuote(v, n, q);
    }
  }

  // ----------------------------------------------------------------- settings

  datatype Kind = TextKind | PathKind | NumberKind | TruthKind | TextsKind | BudgetKind

  datatype Setting = Text(text: string) | Number(number: int) | Truth(truth: bool) | Texts(texts: seq<string>)
    | Budget(bytes: int)

  /** The home directory, if it is known, and how a path is joined to it. */
  datatype Home = Home(dir: Option<string>, join: (string, string) -> string)

  /** expandTilde */
  function Expanded(path: string, home: Home): string {
    if home.dir.Some? && (path == "~" || "~/" <= path) then
      if path == "~" then home.dir.value else home.join(home.dir.value, path[2..])
    else path
  }

  /** The home mark, alone or before a slash, stands for the home directory where
      that is known; every other path is taken as it is. */
  lemma ExpandedExactly(path: string, home: Home)
    ensures home.dir.None? ==> Expanded(path, home) == path
    ensures home.dir.Some? ==> Expanded("~", home) == home.dir.value
    ensures forall rest: string :: home.dir.Some? && path == "~/" + rest ==>
              Expanded(path, home) == home.join(home.dir.value, rest)
    ensures path != "~" && (forall rest: string :: path != "~/" + rest) ==> Expanded(path, home) == path
  {
    if "~/" <= path { assert path == "~/" + path[2..]; }
  }

  function QuotedList(items: seq<string>, q: Printable): string {
    if items == [] then ""
    else if |items| == 1 then Quote(items[0], q)
    else Quote(items[0], q) + ", " + QuotedList(items[1..], q)
  }

  function Render(v: Setting, q: Printable): string {
    match v
    case Text(text) => Quote(text, q)
    case Number(n) => Written(n)
    case Truth(b) => if b then "true" else "false"
    case Texts(items) => "[" + QuotedList(items, q) + "]"
    case Budget(bytes) => Quote(FormatFrom(bytes, 0), q)
  }

  const MIN_INT64 := -0x8000_0000_0000_0000

  /** strconv.Atoi, for 64 bits. */
  function ParseInt(s: string): Option<int> {
    var digits := if s != "" && (s[0] == '-' || s[0] == '+') then s[1..] else s;
    if !IsNumber(digits) then None
    else
      var n: int := if s[0] == '-' then -(Value(digits) as int) else Value(digits);
      if MIN_INT64 <= n <= MAX_INT64 then Some(n) else None
  }

  /** strconv.ParseBool */
  function ParseBool(s: string): Option<bool> {
    if s in {"1", "t", "T", "true", "TRUE", "True"} then Some(true)
    else if s in {"0", "f", "F", "false", "FALSE", "False"} then Some(false)
    else None
  }

  function ParseParts(parts: seq<string>): Option<seq<string>> {
    if parts == [] then Some([])
    else
      var first, rest := Unquoted(Trim(parts[0])), ParseParts(parts[1..]);
      if first.None? || rest.None? then None else Some([first.value] + rest.value)
  }

  /** parseStringArray */
  function ParseArray(value: string): Option<seq<string>> {
    var v := Trim(value);
    if |v| < 2 || v[0] != '[' || v[|v| - 1] != ']' then None
    else
      var inner := Trim(v[1..|v| - 1]);
      if inner == "" then Some([]) else ParseParts(Lines.Split(inner, ','))
  }

  /** What the parser makes of a value; None is an error. */
  function Read(kind: Kind, value: string, home: Home): Option<Setting> {
    match kind
    case TextKind => var text := Unquoted(value); if text.None? then None else Some(Text(text.value))
    case PathKind => var text := Unquoted(value); if text.None? then None else Some(Text(Expanded(text.value, home)))
    case NumberKind => var n := ParseInt(value); if n.None? then None else Some(Number(n.value))
    case TruthKind => var b := ParseBool(value); if b.None? then None else Some(Truth(b.value))
    case TextsKind => var items := ParseArray(value); if items.None? then None else Some(Texts(items.value))
    case BudgetKind =>
      var text := Unquoted(value);
      if text.Some? && ParseSize(text.value).Bytes? then Some(Budget(ParseSize(text.value).value)) else None
  }

  function ReadBack(kind: Kind, v: Setting, home: Home, q: Printable): Option<Setting> {
    Read(kind, Uncommented(Render(v, q)), home)
  }

  /** A setting that a field of this kind can hold. */
  predicate Conforms(kind: Kind, v: Setting) {
    match kind
    case TextKind => v.Text?
    case PathKind => v.Text?
    case NumberKind => v.Number? && -9223372036854775808 <= v.number <= 9223372036854775807
    case TruthKind => v.Truth?
    case TextsKind => v.Texts?
    case BudgetKind => v.Budget? && 1 <= v.bytes <= MAX_INT64
  }

  predicate TextsKept(items: seq<string>) {
    forall i | 0 <= i < |items| :: !Marked(items[i]) && ',' !in items[i]
  }

  /** The condition under which a setting comes back. */
  predicate Kept(kind: Kind, v: Setting, home: Home)
    requires Conforms(kind, v)
  {
    match kind
    case TextKind => !Marked(v.text)
    case PathKind => !Marked(v.text) && Expanded(v.text, home) == v.text
    case NumberKind => true
    case TruthKind => true
    case TextsKind => TextsKept(v.texts)
    case BudgetKind => Exact(v.bytes)
  }

  // -------------------------------------------------------------------- texts

  lemma CutOfUnmarked(s: string)
    ensures CutAt(s) == |s| <==> !Marked(s)
  {
  }

  /** Without a comment mark the whole quoted text is read; with one, the text is
      cut inside the quotes, which is an error. */
  lemma TextIsRead(v: string, q: Printable)
    ensures Unquoted(Uncommented(Quote(v, q))) == if Marked(v) then None else Some(v)
  {
    var r := Quote(v, q);
    var k := CutAt(r);
    QuoteKeepsMarks(v, q);
    CutOfUnmarked(r);
    UnquoteUndoesQuote(v, q);
    TrimLeavesTrimmed(r);
    assert r[..|r|] == r;
    if k < |r| {
      assert r[0] == '"' && k > 0;
      TrimKeepsStart(r[..k]);
      CutQuoteFails(v, Trim(r[..k]), q);
    }
  }

  // -------------------------------------------------------------------- lists

  lemma {:induction false} EscapeKeepsCommas(v: string, q: Printable)
    ensures ',' in Escape(v, q) <==> ',' in v
  {
    hide EscapeChar;
    if v != "" {
      EscapeKeepsCommas(v[1..], q);
      CommaInEscape(v[0], q);
      assert v == [v[0]] + v[1..];
    }
  }

  lemma CommaInEscape(c: char, q: Printable)
    ensures ',' in EscapeChar(c, q) <==> c == ','
  {
    NoCommaInHex(c as nat, 2);
    NoCommaInHex(c as nat, 4);
    NoCommaInHex(c as nat, 8);
    assert Plain(',', q);
  }

  lemma {:induction false} NoCommaInHex(n: nat, digits: nat)
    ensures ',' !in Hex(n, digits)
  {
    if digits > 0 { NoCommaInHex(n / 16, digits - 1); }
  }

  lemma LeadingSpace(r: string)
    requires r != ""
    ensures ParseParts(Lines.Split(" " + r, ',')) == ParseParts(Lines.Split(r, ','))
  {
    var parts := Lines.Split(r, ',');
    assert (" " + r)[1..] == r;
    var p := parts[0];
    assert Lines.Split(" " + r, ',') == [" " + p] + parts[1..];
    assert (" " + p)[1..] == p;
  }

  /** A part that breaks off inside a quoted text cannot be read. */
  lemma BrokenPart(x: string, part: string, rest: seq<string>, q: Printable)
    requires part <= Quote(x, q) && part != Quote(x, q)
    ensures ParseParts([part] + rest) == None
  {
    assert ([part] + rest)[1..] == rest;
    if part == "" {
      assert Trim(part) == "";
    } else {
      TrimKeepsStart(part);
      CutQuoteFails(x, Trim(part), q);
    }
  }

  lemma WholePart(x: string, rest: seq<string>, q: Printable)
    ensures ParseParts([Quote(x, q)] + rest)
         == var others := ParseParts(rest); if others.None? then None else Some([x] + others.value)
  {
    assert ([Quote(x, q)] + rest)[1..] == rest;
    TrimLeavesTrimmed(Quote(x, q));
    UnquoteUndoesQuote(x, q);
  }

  predicate NoCommas(items: seq<string>) {
    forall i | 0 <= i < |items| :: ',' !in items[i]
  }

  /** A beginning of a rendered list is read as the list exactly when it is all
      of it and no item has a comma. */
  lemma {:induction false} ListIsRead(items: seq<string>, r: string, q: Printable)
    requires items != [] && r != "" && r <= QuotedList(items, q)
    ensures ParseParts(Lines.Split(r, ',')) == Some(items) <==> r == QuotedList(items, q) && NoCommas(items)
    decreases |items|, 1
  {
    var x, quoted, k := items[0], Quote(items[0], q), IndexOf(r, ',');
    EscapeKeepsCommas(x, q);
    assert quoted <= QuotedList(items, q);
    if k < |r| && k < |quoted| {
      CommaInside(items, r, k, q);
    } else if |r| <= |quoted| {
      ShortList(items, r, q);
    } else {
      LongList(items, r, q);
    }
  }

  /** The first part ends at a comma inside the first item. */
  lemma CommaInside(items: seq<string>, r: string, k: nat, q: Printable)
    requires items != [] && r <= QuotedList(items, q) && k < |r| && k < |Quote(items[0], q)|
    requires r[k] == ',' && ',' !in r[..k]
    ensures ParseParts(Lines.Split(r, ',')) == None && !NoCommas(items)
  {
    var quoted := Quote(items[0], q);
    assert quoted <= QuotedList(items, q);
    hide ParseParts, QuotedList, Quote;
    assert r[..k] == quoted[..k] && quoted[k] == ',';
    FirstPart(r, k);
    BrokenPart(items[0], r[..k], Lines.Split(r[k + 1..], ','), q);
    NoCommaInside(items[0], q);
  }

  lemma FirstPart(r: string, k: nat)
    requires k < |r| && r[k] == ',' && ',' !in r[..k]
    ensures Lines.Split(r, ',') == [r[..k]] + Lines.Split(r[k + 1..], ',')
  {
    assert r == r[..k] + [','] + r[k + 1..];
    Lines.SplitOfFirst(r[..k], r[k + 1..], ',');
  }

  /** There is no more than the first item. */
  lemma ShortList(items: seq<string>, r: string, q: Printable)
    requires items != [] && r <= Quote(items[0], q) && ',' !in r
    ensures ParseParts(Lines.Split(r, ',')) == Some(items) <==> r == QuotedList(items, q) && NoCommas(items)
  {
    hide Quote, ParseParts, QuotedList;
    var x := items[0];
    Lines.SplitOfLine(r, ',');
    assert [r] == [r] + [];
    ListLength(items, q);
    if r == Quote(x, q) {
      WholePart(x, [], q);
      NoParts();
      assert [x] + [] == [x];
      NoCommaInside(x, q);
      assert |items| == 1 <==> items == [x];
    } else {
      BrokenPart(x, r, [], q);
    }
  }

  lemma NoParts()
    ensures ParseParts([]) == Some([])
  {
  }

  lemma ListLength(items: seq<string>, q: Printable)
    requires items != []
    ensures |items| == 1 ==> QuotedList(items, q) == Quote(items[0], q)
    ensures |items| > 1 ==> |QuotedList(items, q)| > |Quote(items[0], q)|
  {
  }

  lemma NoCommaInside(x: string, q: Printable)
    ensures ',' in Quote(x, q) <==> ',' in x
  {
    EscapeKeepsCommas(x, q);
    var r, e := Quote(x, q), Escape(x, q);
    if i :| 0 <= i < |e| && e[i] == ',' { assert r[i + 1] == ','; }
    if i :| 0 <= i < |r| && r[i] == ',' { assert e[i - 1] == ','; }
  }

  lemma BlankPart(part: string)
    requires part == "" || part == " "
    ensures ParseParts([part]) == None
  {
    assert Trim(part) == "";
  }

  /** The first item is whole and more follows. */
  lemma {:induction false} LongList(items: seq<string>, r: string, q: Printable)
    requires items != [] && r <= QuotedList(items, q) && |r| > |Quote(items[0], q)|
    requires ',' !in r[..|Quote(items[0], q)|]
    ensures ParseParts(Lines.Split(r, ',')) == Some(items) <==> r == QuotedList(items, q) && NoCommas(items)
    decreases |items|, 0
  {
    hide Escape, Unquoted, Trim;
    var x, quoted := items[0], Quote(items[0], q);
    var rest, more := items[1..], r[|quoted| + 1..];
    assert |items| > 1 && items == [x] + rest;
    assert QuotedList(items, q) == quoted + "," + (" " + QuotedList(rest, q));
    assert r == quoted + [','] + more && more <= " " + QuotedList(rest, q);
    assert quoted == r[..|quoted|];
    Lines.SplitOfFirst(quoted, more, ',');
    WholePart(x, Lines.Split(more, ','), q);
    NoCommaInside(x, q);
    assert NoCommas(items) <==> NoCommas(rest);
    if |more| <= 1 {
      assert more == "" || more == " ";
      Lines.SplitOfLine(more, ',');
      BlankPart(more);
    } else {
      var inner := more[1..];
      assert more == " " + inner;
      LeadingSpace(inner);
      ListIsRead(rest, inner, q);
    }
  }

  lemma {:induction false} ListKeepsMarks(items: seq<string>, q: Printable)
    ensures Marked(QuotedList(items, q)) <==> exists i | 0 <= i < |items| :: Marked(items[i])
    decreases |items|
  {
    hide Quote;
    if items != [] {
      QuoteKeepsMarks(items[0], q);
      if |items| > 1 {
        ListKeepsMarks(items[1..], q);
        var first, rest := Quote(items[0], q), QuotedList(items[1..], q);
        ListStarts(items[1..], q);
        MarkedJoin(", ", rest);
        MarkedJoin(first, ", " + rest);
        assert QuotedList(items, q) == first + (", " + rest);
        assert items == [items[0]] + items[1..];
      }
    }
  }

  lemma ListStarts(items: seq<string>, q: Printable)
    ensures var r := QuotedList(items, q); items != [] ==> r != "" && r[0] == '"' && r[|r| - 1] == '"'
    ensures items == [] <==> QuotedList(items, q) == ""
  {
    if |items| > 1 { ListStarts(items[1..], q); }
  }

  lemma BracketsKeepMarks(items: seq<string>, q: Printable)
    ensures Marked("[" + QuotedList(items, q) + "]") <==> exists i | 0 <= i < |items| :: Marked(items[i])
  {
    var r := QuotedList(items, q);
    ListKeepsMarks(items, q);
    ListStarts(items, q);
    MarkedJoin("[", r);
    MarkedJoin("[" + r, "]");
  }

  /** An array without comment marks is read as its list. */
  lemma WholeArray(items: seq<string>, q: Printable)
    ensures ParseArray("[" + QuotedList(items, q) + "]") == Some(items) <==> NoCommas(items)
  {
    var r := QuotedList(items, q);
    var value := "[" + r + "]";
    ListStarts(items, q);
    TrimLeavesTrimmed(value);
    TrimLeavesTrimmed(r);
    assert value[1..|value| - 1] == r;
    hide QuotedList, ParseParts;
    if items != [] { ListIsRead(items, r, q); }
  }

  /** An array that is cut off is never read as its list. */
  lemma CutArray(items: seq<string>, value: string, q: Printable)
    requires items != [] && value <= "[" + QuotedList(items, q) + "]" && |value| < |QuotedList(items, q)| + 2
    ensures ParseArray(Trim(value)) != Some(items)
  {
    var r := QuotedList(items, q);
    hide QuotedList, ParseParts;
    TrimLeavesTrimmed(Trim(value));
    TrimLeavesTrimmed(value);
    if value != "" {
      TrimKeepsStart(value);
      var v := Trim(value);
      if |v| >= 2 {
        var inner := v[1..|v| - 1];
        assert inner == r[..|inner|] && |inner| < |r|;
        ListStarts(items, q);
        if inner != "" {
          TrimKeepsStart(inner);
          ListIsRead(items, Trim(inner), q);
        } else {
          assert Trim(inner) == "";
        }
      }
    }
  }

  lemma ArrayIsRead(items: seq<string>, q: Printable)
    ensures ParseArray(Uncommented("[" + QuotedList(items, q) + "]")) == Some(items) <==> TextsKept(items)
  {
    var value := "[" + QuotedList(items, q) + "]";
    var k := CutAt(value);
    hide QuotedList, ParseArray;
    BracketsKeepMarks(items, q);
    CutOfUnmarked(value);
    assert value[..|value|] == value;
    if k == |value| {
      TrimLeavesTrimmed(value);
      WholeArray(items, q);
    } else {
      CutArray(items, value[..k], q);
    }
  }

  // ------------------------------------------------------------ other settings

  lemma WordIsWhole(s: string)
    requires forall i | 0 <= i < |s| :: !Space(s[i])
    ensures Uncommented(s) == s
  {
    CutOfUnmarked(s);
    assert s[..|s|] == s;
    TrimLeavesTrimmed(s);
  }

  lemma NumberIsRead(n: int)
    requires MIN_INT64 <= n <= MAX_INT64
    ensures ParseInt(Uncommented(Written(n))) == Some(n)
  {
    var s := Written(n);
    var digits := Decimal(if n < 0 then -n else n);
    hide Decimal, Value, Uncommented;
    ValueOfDecimal(if n < 0 then -n else n);
    assert IsDigit(digits[0]);
    WordIsWhole(s);
    if n < 0 { assert s[1..] == digits; }
  }

  lemma TruthIsRead(b: bool)
    ensures ParseBool(Uncommented(if b then "true" else "false")) == Some(b)
  {
    hide Uncommented;
    WordIsWhole(if b then "true" else "false");
  }

  lemma SizeIsUnmarked(n: nat)
    requires 1 <= n
    ensures !Marked(FormatFrom(n, 0))
  {
    var e := UnitFrom(n, 0);
    hide UnitFrom, FormatFrom, Pow2;
    FormattedAs(n, e);
    ValueOfDecimal(n / Pow2(e));
    var a, b := Decimal(n / Pow2(e)), UnitName(e);
    UnitIsWord(e);
    assert !Marked(a) && !Marked(b) && !Marked(" ");
    assert b[0] != '#';
    MarkedJoin(a, " ");
    MarkedJoin(a + " ", b);
  }

  /** A setting comes back exactly when no text in it has a space before a number
      sign, no path begins with the home mark, no item of a list has a comma, and
      a budget is a binary64 number. */
  lemma SettingKeptExactly(kind: Kind, v: Setting, home: Home, q: Printable)
    requires Conforms(kind, v)
    ensures ReadBack(kind, v, home, q) == Some(v) <==> Kept(kind, v, home)
  {
    hide Uncommented, Quote, QuotedList, Marked, ParseInt, ParseBool, ParseArray, Unquoted, ParseSize, FormatFrom;
    match kind
    case TextKind => TextIsRead(v.text, q);
    case PathKind => TextIsRead(v.text, q);
    case NumberKind => NumberIsRead(v.number);
    case TruthKind => TruthIsRead(v.truth);
    case TextsKind => ArrayIsRead(v.texts, q);
    case BudgetKind =>
      SizeIsUnmarked(v.bytes);
      TextIsRead(FormatFrom(v.bytes, 0), q);
      SizeRoundTripExactly(v.bytes);
  }

  // -------------------------------------------------------------- line breaks

  lemma {:induction false} NoBreakInHex(n: nat, digits: nat)
    ensures '\n' !in Hex(n, digits)
  {
    if digits > 0 { NoBreakInHex(n / 16, digits - 1); }
  }

  lemma NoBreakInChar(c: char, q: Printable)
    ensures '\n' !in EscapeChar(c, q)
  {
    NoBreakInHex(c as nat, 2);
    NoBreakInHex(c as nat, 4);
    NoBreakInHex(c as nat, 8);
    assert !Plain('\n', q);
  }

  lemma {:induction false} NoBreakInQuote(v: string, q: Printable)
    ensures '\n' !in Escape(v, q) && '\n' !in Quote(v, q)
  {
    hide EscapeChar;
    if v != "" {
      NoBreakInChar(v[0], q);
      NoBreakInQuote(v[1..], q);
    }
  }

  lemma {:induction false} NoBreakInList(items: seq<string>, q: Printable)
    ensures '\n' !in QuotedList(items, q)
  {
    hide Quote;
    if items != [] {
      NoBreakInQuote(items[0], q);
      NoBreakInList(items[1..], q);
    }
  }

  /** Every setting is rendered on one line, whatever its texts hold. */
  lemma NoBreakInSetting(v: Setting, q: Printable)
    ensures '\n' !in Render(v, q)
  {
    hide Quote, QuotedList, Decimal, FormatFrom;
    match v
    case Text(text) => NoBreakInQuote(text, q);
    case Number(n) => ValueOfDecimal(if n < 0 then -n else n);
    case Truth(_) =>
    case Texts(items) => NoBreakInList(items, q);
    case Budget(bytes) => NoBreakInQuote(FormatFrom(bytes, 0), q);
  }

  // ------------------------------------------- the failing side of each condition

  const SPACED_SIGN := "a #b"

  const TWO_IN_ONE := "a,b"

  /** A text with a space before a number sign is an error on reading. */
  lemma SpacedSignIsAnError(home: Home, q: Printable)
    ensures ReadBack(TextKind, Text(SPACED_SIGN), home, q) == None
  {
    hide Uncommented, Unquoted, Quote;
    assert MarkAt(SPACED_SIGN, 1);
    TextIsRead(SPACED_SIGN, q);
  }

  /** So is an item with a comma. */
  lemma CommaIsNotReadBack(home: Home, q: Printable)
    ensures ReadBack(TextsKind, Texts([TWO_IN_ONE]), home, q) != Some(Texts([TWO_IN_ONE]))
  {
    hide ReadBack;
    assert TWO_IN_ONE[1] == ',';
    assert [TWO_IN_ONE][0] == TWO_IN_ONE;
    SettingKeptExactly(TextsKind, Texts([TWO_IN_ONE]), home, q);
  }

  /** A path that is the home mark is read as the home directory. */
  lemma HomeMarkIsExpanded(home: Home, dir: string, q: Printable)
    requires home.dir == Some(dir)
    ensures ReadBack(PathKind, Text("~"), home, q) == Some(Text(dir))
  {
    hide Uncommented, Unquoted, Quote;
    TextIsRead("~", q);
    assert !Marked("~");
  }
}
