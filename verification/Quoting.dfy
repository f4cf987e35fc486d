/** strconv.Quote and strconv.Unquote, on the text between the double quotes. */
module Quoting {
  import opened Wrappers

  /** What is known of the printable characters: those of ASCII. */
  ghost predicate AsciiKnown(printable: char -> bool) {
    && (forall c: char | ' ' <= c <= '~' :: printable(c))
    && (forall c: char | c < ' ' || c == '\U{007F}' :: !printable(c))
  }

  predicate AsciiPrintable(c: char) {
    ' ' <= c <= '~'
  }

  /** strconv.IsPrint; beyond ASCII it may be any table. */
  type Printable = printable: char -> bool | AsciiKnown(printable) witness AsciiPrintable

  /** A character that a quoted text spells as itself. */
  predicate Plain(c: char, q: Printable) {
    c != '"' && c != '\\' && q(c)
  }

  function HexDigit(n: nat): char
    requires n < 16
  {
    "0123456789abcdef"[n]
  }

  function Hex(n: nat, digits: nat): string {
    if digits == 0 then "" else Hex(n / 16, digits - 1) + [HexDigit(n % 16)]
  }

  function EscapeChar(c: char, q: Printable): string {
    if Plain(c, q) then [c]
    else if c == '"' then "\\\""
    else if c == '\\' then "\\\\"
    else if c == '\n' then "\\n"
    else if c == '\t' then "\\t"
    else if c == '\r' then "\\r"
    else if c == '\U{0007}' then "\\a"
    else if c == '\U{0008}' then "\\b"
    else if c == '\U{000B}' then "\\v"
    else if c == '\U{000C}' then "\\f"
    else if c < ' ' || c == '\U{007F}' then "\\x" + Hex(c as nat, 2)
    else if c as nat < 0x10000 then "\\u" + Hex(c as nat, 4)
    else "\\U" + Hex(c as nat, 8)
  }

  function Escape(v: string, q: Printable): string {
    if v == "" then "" else EscapeChar(v[0], q) + Escape(v[1..], q)
  }

  predicate AllPlain(v: string, q: Printable) {
    forall c <- v :: Plain(c, q)
  }

  function Quote(v: string, q: Printable): string {
    "\"" + Escape(v, q) + "\""
  }

  lemma {:induction false} EscapeLength(v: string, q: Printable)
    ensures |Escape(v, q)| >= |v|
    ensures |Escape(v, q)| == |v| <==> AllPlain(v, q)
    ensures AllPlain(v, q) ==> Escape(v, q) == v
  {
    if v != "" {
      EscapeLength(v[1..], q);
      assert v == [v[0]] + v[1..];
    }
  }

  // ---------------------------------------------------------------- unquoting

  function HexValueOf(c: char): Option<nat> {
    if '0' <= c <= '9' then Some((c as int - '0' as int) as nat)
    else if 'a' <= c <= 'f' then Some((c as int - 'a' as int + 10) as nat)
    else if 'A' <= c <= 'F' then Some((c as int - 'A' as int + 10) as nat)
    else None
  }

  function HexValue(s: string): Option<nat> {
    if s == "" then Some(0)
    else
      var high, low := HexValue(s[..|s| - 1]), HexValueOf(s[|s| - 1]);
      if high.None? || low.None? then None else Some(16 * high.value + low.value)
  }

  function Scalar(n: nat): Option<char> {
    if n < 0xD800 || 0xE000 <= n < 0x110000 then Some(n as char) else None
  }

  /** The digits that an escape is followed by. */
  function Digits(mark: char): nat {
    if mark == 'x' then 2 else if mark == 'u' then 4 else if mark == 'U' then 8 else 0
  }

  /** An escape by number at the start of `s`; raw bytes above 7f and octal
      numbers are not part of this model. */
  function Numbered(s: string): Option<char>
    requires |s| >= 2
  {
    var n := Digits(s[1]);
    if n == 0 || |s| < 2 + n then None
    else
      var value := HexValue(s[2..2 + n]);
      if value.None? || (s[1] == 'x' && value.value >= 0x80) then None else Scalar(value.value)
  }

  function Simple(mark: char): Option<char> {
    if mark == 'a' then Some('\U{0007}')
    else if mark == 'b' then Some('\U{0008}')
    else if mark == 'f' then Some('\U{000C}')
    else if mark == 'n' then Some('\n')
    else if mark == 'r' then Some('\r')
    else if mark == 't' then Some('\t')
    else if mark == 'v' then Some('\U{000B}')
    else if mark == '\\' then Some('\\')
    else if mark == '"' then Some('"')
    else None
  }

  function Prepend(c: Option<char>, rest: Option<string>): Option<string> {
    if c.None? || rest.None? then None else Some([c.value] + rest.value)
  }

  /** strconv.Unquote; None is an error. */
  function Unescape(s: string): Option<string> {
    if s == "" then Some("")
    else if s[0] == '"' || s[0] == '\n' then None
    else if s[0] != '\\' then Prepend(Some(s[0]), Unescape(s[1..]))
    else if |s| == 1 then None
    else if Simple(s[1]).Some? then Prepend(Simple(s[1]), Unescape(s[2..]))
    else if Numbered(s).None? then None
    else Prepend(Numbered(s), Unescape(s[2 + Digits(s[1])..]))
  }

  /** parseString */
  function Unquoted(value: string): Option<string> {
    if |value| < 2 || value[0] != '"' || value[|value| - 1] != '"' then None else Unescape(value[1..|value| - 1])
  }

  // -------------------------------------------------- unquoting undoes quoting

  lemma {:induction false} HexIsRead(n: nat, digits: nat)
    requires n < Power16(digits)
    ensures |Hex(n, digits)| == digits && HexValue(Hex(n, digits)) == Some(n)
    decreases digits
  {
    if digits > 0 {
      HexIsRead(n / 16, digits - 1);
      assert HexValueOf(HexDigit(n % 16)) == Some(n % 16);
    }
  }

  function Power16(n: nat): nat {
    if n == 0 then 1 else 16 * Power16(n - 1)
  }

  /** An escape by number is read as the character of that number. */
  lemma NumberIsRead(mark: char, c: char, rest: string)
    requires mark in {'x', 'u', 'U'} && (mark == 'x' ==> c as nat < 0x80) && (mark == 'u' ==> c as nat < 0x10000)
    ensures Unescape("\\" + [mark] + Hex(c as nat, Digits(mark)) + rest) == Prepend(Some(c), Unescape(rest))
  {
    var n := Digits(mark);
    HexFits(c, mark);
    var hex := Hex(c as nat, n);
    hide Hex, HexValue, Power16;
    HexIsRead(c as nat, n);
    var s := "\\" + [mark] + hex + rest;
    assert s[0] == '\\' && s[1] == mark && s[2..2 + n] == hex && s[2 + n..] == rest;
    assert Simple(mark).None? && Numbered(s) == Some(c);
  }

  lemma HexFits(c: char, mark: char)
    requires mark in {'x', 'u', 'U'} && (mark == 'x' ==> c as nat < 0x80) && (mark == 'u' ==> c as nat < 0x10000)
    ensures c as nat < Power16(Digits(mark))
  {
    assert Power16(2) == 0x100;
    assert Power16(4) == 0x100 * Power16(2);
    assert Power16(8) == 0x10000 * Power16(4);
  }

  /** The escape of one character is read as that character. */
  lemma CharIsRead(c: char, rest: string, q: Printable)
    ensures Unescape(EscapeChar(c, q) + rest) == Prepend(Some(c), Unescape(rest))
  {
    var e := EscapeChar(c, q);
    hide Hex, Numbered;
    if Plain(c, q) {
      assert (e + rest)[1..] == rest;
    } else if Named(c) {
      assert (e + rest)[0] == '\\' && Simple((e + rest)[1]) == Some(c) && (e + rest)[2..] == rest;
    } else {
      var mark := if c < ' ' || c == '\U{007F}' then 'x' else if c as nat < 0x10000 then 'u' else 'U';
      assert e == "\\" + [mark] + Hex(c as nat, Digits(mark));
      NumberIsRead(mark, c, rest);
    }
  }

  /** A character with an escape of its own. */
  predicate Named(c: char) {
    c in {'"', '\\', '\n', '\t', '\r', '\U{0007}', '\U{0008}', '\U{000B}', '\U{000C}'}
  }

  lemma {:induction false} UnescapeUndoes(v: string, q: Printable)
    ensures Unescape(Escape(v, q)) == Some(v)
  {
    if v != "" {
      CharIsRead(v[0], Escape(v[1..], q), q);
      UnescapeUndoes(v[1..], q);
      assert v == [v[0]] + v[1..];
    }
  }

  /** Unquoting undoes quoting, for every text. */
  lemma UnquoteUndoesQuote(v: string, q: Printable)
    ensures Unquoted(Quote(v, q)) == Some(v)
  {
    UnescapeUndoes(v, q);
    assert Quote(v, q)[1..|Quote(v, q)| - 1] == Escape(v, q);
  }
}
