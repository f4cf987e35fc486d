/** cli/config.go: sizes of the backup budget, as they are written into the
    configuration and read back through a binary64 number. */
module BackupSize {
  import opened Wrappers
  import opened Texts

  // ------------------------------------------------------ binary64, for integers

  function Pow2(e: nat): (p: nat)
    ensures p > 0
  {
    if e == 0 then 1 else 2 * Pow2(e - 1)
  }

  const SIGNIFICAND := 0x20_0000_0000_0000

  /** How many low bits of `n` do not fit into the significand of 53 bits. */
  function Excess(n: nat): nat {
    if n < SIGNIFICAND then 0 else 1 + Excess(n / 2)
  }

  /** The nearest binary64 number, ties to even (section 4.3.1 of IEEE 754-2019). */
  function Rounded(n: nat): nat {
    var unit := Pow2(Excess(n));
    var q, r := n / unit, n % unit;
    if 2 * r > unit || (2 * r == unit && q % 2 == 1) then (q + 1) * unit else q * unit
  }

  predicate Exact(n: nat) {
    n % Pow2(Excess(n)) == 0
  }

  lemma QuotientFits(n: nat, unit: nat)
    requires unit == Pow2(Excess(n))
    ensures n / unit < SIGNIFICAND
    decreases n
  {
    if n >= SIGNIFICAND {
      var half := Pow2(Excess(n / 2));
      QuotientFits(n / 2, half);
      assert n / unit == n / 2 / half by { DivideTwice(n, half); }
    }
  }

  lemma DivideTwice(n: nat, m: nat)
    requires m > 0
    ensures n / (2 * m) == n / 2 / m && (n % 2 == 0 ==> n % (2 * m) == 2 * (n / 2 % m))
  {
    var h := n / 2;
    var q, r := h / m, h % m;
    assert h == q * m + r;
    assert n == q * (2 * m) + (2 * r + n % 2);
    QuotientIs(n, 2 * m, q, 2 * r + n % 2);
  }

  lemma QuotientIs(n: nat, m: nat, q: nat, r: nat)
    requires n == q * m + r && r < m
    ensures n / m == q && n % m == r
  {
    var d := n / m - q;
    assert n == n / m * m + n % m;
    assert d * m == r - n % m;
    ProductIsLarge(d, m);
  }

  lemma ProductIsLarge(d: int, m: nat)
    ensures d >= 1 ==> d * m >= m
    ensures d <= -1 ==> d * m <= -(m as int)
  {
  }

  /** An integer is a binary64 number exactly when rounding leaves it alone. */
  lemma RoundedExactly(n: nat)
    ensures Rounded(n) == n <==> Exact(n)
  {
    var unit := Pow2(Excess(n));
    var q, r := n / unit, n % unit;
    assert n == q * unit + r;
    assert (q + 1) * unit == q * unit + unit;
  }

  lemma DoubleIsExact(n: nat)
    requires Exact(n)
    ensures Exact(2 * n)
  {
    if 2 * n >= SIGNIFICAND {
      assert 2 * n / 2 == n;
      DivideTwice(2 * n, Pow2(Excess(n)));
    }
  }

  lemma {:induction false} ScaledIsExact(n: nat, e: nat)
    requires Exact(n)
    ensures Exact(n * Pow2(e))
  {
    if e > 0 {
      ScaledIsExact(n, e - 1);
      DoubleIsExact(n * Pow2(e - 1));
      assert n * Pow2(e) == 2 * (n * Pow2(e - 1));
    }
  }

  /** Rounding gives a binary64 number. */
  lemma RoundedIsExact(n: nat)
    ensures Exact(Rounded(n))
  {
    var unit := Pow2(Excess(n));
    var q := n / unit;
    QuotientFits(n, unit);
    assert Exact(q) && Exact(q + 1);
    ScaledIsExact(q, Excess(n));
    ScaledIsExact(q + 1, Excess(n));
  }

  lemma {:induction false} UnscaledIsExact(n: nat, e: nat)
    requires Exact(n * Pow2(e))
    ensures Exact(n)
  {
    if e > 0 {
      var m := n * Pow2(e - 1);
      assert n * Pow2(e) == 2 * m;
      if m >= SIGNIFICAND {
        assert 2 * m / 2 == m;
        DivideTwice(2 * m, Pow2(Excess(m)));
      }
      UnscaledIsExact(n, e - 1);
    }
  }

  // The numbers above are the right ones: no binary64 integer is nearer.

  lemma {:induction false} QuotientIsLarge(n: nat)
    requires n >= SIGNIFICAND
    ensures n / Pow2(Excess(n)) >= SIGNIFICAND / 2
    decreases n
  {
    DivideTwice(n, Pow2(Excess(n / 2)));
    if n / 2 >= SIGNIFICAND {
      QuotientIsLarge(n / 2);
    } else {
      assert Pow2(Excess(n / 2)) == 1;
    }
  }

  lemma {:induction false} ExcessIsMonotone(a: nat, b: nat)
    requires a <= b
    ensures Excess(a) <= Excess(b)
    decreases b
  {
    if a >= SIGNIFICAND { ExcessIsMonotone(a / 2, b / 2); }
  }

  lemma {:induction false} ExcessOfScaled(q: nat, e: nat)
    requires q >= SIGNIFICAND / 2
    ensures Excess(q * Pow2(e)) >= e
  {
    if e > 0 {
      var m := q * Pow2(e - 1);
      assert q * Pow2(e) == 2 * m;
      assert m >= q;
      ExcessOfScaled(q, e - 1);
      assert 2 * m / 2 == m;
    }
  }

  lemma {:induction false} DividedByLess(m: nat, e: nat, x: nat)
    requires e <= x && m % Pow2(x) == 0
    ensures m % Pow2(e) == 0
    decreases x
  {
    if e < x {
      var p := Pow2(x - 1);
      var d := m / Pow2(x);
      assert m == d * (2 * p);
      assert m == 2 * d * p;
      QuotientIs(m, p, 2 * d, 0);
      DividedByLess(m, e, x - 1);
    }
  }

  /** No binary64 integer lies strictly between two neighbours. */
  lemma NeighboursTouch(n: nat, m: nat)
    requires Exact(m) && m >= n / Pow2(Excess(n)) * Pow2(Excess(n))
    ensures m % Pow2(Excess(n)) == 0
  {
    var e := Excess(n);
    var q := n / Pow2(e);
    if n < SIGNIFICAND {
      assert Pow2(e) == 1;
    } else {
      QuotientIsLarge(n);
      ExcessOfScaled(q, e);
      ExcessIsMonotone(q * Pow2(e), m);
      DividedByLess(m, e, Excess(m));
    }
  }

  function Distance(a: nat, b: nat): nat {
    if a < b then b - a else a - b
  }

  lemma NoneBetween(q: nat, unit: nat, d: nat)
    ensures d * unit <= q * unit || d * unit >= q * unit + unit
  {
    if d <= q {
      assert (q - d) * unit == q * unit - d * unit;
    } else {
      assert (d - q - 1) * unit == d * unit - q * unit - unit;
    }
  }

  /** A multiple is not strictly between two neighbouring ones. */
  lemma MultipleOutside(low: nat, q: nat, unit: nat, m: nat)
    requires unit > 0 && low == q * unit && m % unit == 0
    ensures m <= low || m >= low + unit
  {
    var d := m / unit;
    assert m == d * unit;
    NoneBetween(q, unit, d);
  }

  lemma NearerEnd(low: nat, unit: nat, r: nat, up: bool, m: nat)
    requires r < unit && (m <= low || m >= low + unit)
    requires (up ==> 2 * r >= unit) && (!up ==> 2 * r <= unit)
    ensures Distance(if up then low + unit else low, low + r) <= Distance(m, low + r)
  {
  }

  /** Rounding chooses one of the two neighbours. */
  lemma RoundedShape(n: nat) returns (low: nat, unit: nat, r: nat, up: bool)
    ensures unit == Pow2(Excess(n)) && low == n / unit * unit && n == low + r && r < unit
    ensures (up ==> 2 * r >= unit) && (!up ==> 2 * r <= unit)
    ensures Rounded(n) == if up then low + unit else low
  {
    unit := Pow2(Excess(n));
    hide Pow2, Excess;
    var q := n / unit;
    low, r := q * unit, n % unit;
    up := 2 * r > unit || (2 * r == unit && q % 2 == 1);
    OneMore(q, unit);
  }

  lemma OneMore(q: nat, unit: nat)
    ensures (q + 1) * unit == q * unit + unit
  {
  }

  lemma RoundedIsNearest(n: nat, m: nat)
    requires Exact(m)
    ensures Distance(Rounded(n), n) <= Distance(m, n)
  {
    hide Rounded, Exact;
    var low, unit, r, up := RoundedShape(n);
    if m >= low {
      NeighboursTouch(n, m);
      MultipleOutside(low, n / unit, unit, m);
    }
    NearerEnd(low, unit, r, up, m);
  }

  // ------------------------------------------------------------------ numbers

  function Digit(d: nat): char
    requires d < 10
  {
    '0' + d as char
  }

  /** The verb %d. */
  function Decimal(n: nat): string {
    if n < 10 then [Digit(n)] else Decimal(n / 10) + [Digit(n % 10)]
  }

  function Written(n: int): string {
    if n < 0 then "-" + Decimal(-n) else Decimal(n)
  }

  predicate IsDigit(c: char) {
    '0' <= c <= '9'
  }

  function DigitValue(c: char): nat
    requires IsDigit(c)
  {
    c as int - '0' as int
  }

  predicate AllDigits(s: string) {
    forall i | 0 <= i < |s| :: IsDigit(s[i])
  }

  predicate IsNumber(s: string) {
    s != "" && AllDigits(s)
  }

  function Value(s: string): nat
    requires AllDigits(s)
  {
    if s == "" then 0 else 10 * Value(s[..|s| - 1]) + DigitValue(s[|s| - 1])
  }

  lemma {:induction false} ValueOfDecimal(n: nat)
    ensures IsNumber(Decimal(n)) && Value(Decimal(n)) == n
  {
    if n >= 10 { ValueOfDecimal(n / 10); }
  }

  // ------------------------------------------------------------------- writing

  const MAX_INT64 := 0x7fff_ffff_ffff_ffff

  /** The units that are written, largest first, with their powers of two. */
  const UNITS: seq<(string, nat)> := [("TiB", 40), ("GiB", 30), ("MiB", 20), ("KiB", 10)]

  predicate Fits(bytes: int, e: nat) {
    bytes >= Pow2(e) && bytes % Pow2(e) == 0
  }

  function FormatFrom(bytes: int, i: nat): string
    requires i <= |UNITS|
    decreases |UNITS| - i
  {
    if i == |UNITS| then Written(bytes) + " " + "B"
    else if Fits(bytes, UNITS[i].1) then Written(bytes / Pow2(UNITS[i].1)) + " " + UNITS[i].0
    else FormatFrom(bytes, i + 1)
  }

  function UnitName(e: nat): string {
    if e == 40 then "TiB" else if e == 30 then "GiB" else if e == 20 then "MiB" else if e == 10 then "KiB" else "B"
  }

  /** The unit, as its power of two, is the largest that divides the size; the
      byte, if none does. */
  predicate LargestUnit(bytes: int, e: nat) {
    && e in {0, 10, 20, 30, 40} && (e > 0 ==> Fits(bytes, e))
    && forall f <- {10, 20, 30, 40} | Fits(bytes, f) :: f <= e
  }

  /** formatBackupSize */
  method FormatBackupSize(bytes: int) returns (text: string)
    ensures exists e :: LargestUnit(bytes, e) && text == Written(bytes / Pow2(e)) + " " + UnitName(e)
    ensures text == FormatFrom(bytes, 0)
  {
    hide Pow2, Fits, Written, UnitName, LargestUnit;
    for i := 0 to |UNITS|
      invariant FormatFrom(bytes, 0) == FormatFrom(bytes, i)
      invariant forall j | 0 <= j < i :: !Fits(bytes, UNITS[j].1)
    {
      if Fits(bytes, UNITS[i].1) {
        LargestIsNext(bytes, i);
        return Written(bytes / Pow2(UNITS[i].1)) + " " + UNITS[i].0;
      }
    }
    LargestIsNext(bytes, |UNITS|);
    return Written(bytes) + " " + "B";
  }

  lemma LargestIsNext(bytes: int, i: nat)
    requires i <= |UNITS| && forall j | 0 <= j < i :: !Fits(bytes, UNITS[j].1)
    requires i < |UNITS| ==> Fits(bytes, UNITS[i].1)
    ensures var e := if i == |UNITS| then 0 else UNITS[i].1;
      LargestUnit(bytes, e) && UnitName(e) == (if i == |UNITS| then "B" else UNITS[i].0)
    ensures bytes / Pow2(0) == bytes
  {
    hide Fits;
    assert Pow2(0) == 1;
    assert i > 0 ==> !Fits(bytes, UNITS[0].1);
    assert i > 1 ==> !Fits(bytes, UNITS[1].1);
    assert i > 2 ==> !Fits(bytes, UNITS[2].1);
    assert i > 3 ==> !Fits(bytes, UNITS[3].1);
  }

  // ------------------------------------------------------------------- reading

  function Upper(s: string): string {
    if s == "" then "" else [if 'a' <= s[0] <= 'z' then s[0] - 'a' + 'A' else s[0]] + Upper(s[1..])
  }

  function Multiplier(unit: string): Option<nat> {
    if unit == "B" then Some(1)
    else if unit == "KB" then Some(1_000)
    else if unit == "MB" then Some(1_000_000)
    else if unit == "GB" then Some(1_000_000_000)
    else if unit == "TB" then Some(1_000_000_000_000)
    else if unit == "KIB" then Some(Pow2(10))
    else if unit == "MIB" then Some(Pow2(20))
    else if unit == "GIB" then Some(Pow2(30))
    else if unit == "TIB" then Some(Pow2(40))
    else None
  }

  function WordEnd(s: string): (n: nat)
    ensures n <= |s| && (s != "" && !Space(s[0]) ==> n > 0)
  {
    if s == "" || Space(s[0]) then 0 else 1 + WordEnd(s[1..])
  }

  /** strings.Fields */
  function Fields(s: string): seq<string>
    decreases |s|
  {
    if s == "" then []
    else if Space(s[0]) then Fields(s[1..])
    else [s[..WordEnd(s)]] + Fields(s[WordEnd(s)..])
  }

  /** Unspecified is a conversion to int64 that overflows. */
  datatype Size = Bytes(value: nat) | Refused | Unspecified

  function Scaled(amount: nat, multiplier: nat): Size {
    var bytes := Rounded(Rounded(amount) * multiplier);
    if amount == 0 || bytes > MAX_INT64 + 1 || bytes < 1 then Refused
    else if bytes > MAX_INT64 then Unspecified
    else Bytes(bytes)
  }

  /** parseBackupSize, after the quotes; amounts with a sign, a fraction or an
      exponent are not part of this model. */
  function ParseSize(text: string): Size {
    var parts := Fields(text);
    if |parts| != 2 || !IsNumber(parts[0]) || Multiplier(Upper(parts[1])).None? then Refused
    else Scaled(Value(parts[0]), Multiplier(Upper(parts[1])).value)
  }

  // -------------------------------------------------------- the round trip

  predicate NoSpace(s: string) {
    forall i | 0 <= i < |s| :: !Space(s[i])
  }

  lemma {:induction false} WordEndOfWord(word: string, rest: string)
    requires NoSpace(word) && (rest == "" || Space(rest[0]))
    ensures WordEnd(word + rest) == |word|
    decreases |word|
  {
    if word == "" {
      assert word + rest == rest;
    } else {
      assert (word + rest)[1..] == word[1..] + rest;
      WordEndOfWord(word[1..], rest);
    }
  }

  lemma FieldsOfTwo(a: string, b: string)
    requires a != "" && b != "" && NoSpace(a) && NoSpace(b)
    ensures Fields(a + " " + b) == [a, b]
  {
    var text := a + " " + b;
    assert text == a + (" " + b);
    WordEndOfWord(a, " " + b);
    assert text[..|a|] == a && text[|a|..] == " " + b;
    assert (" " + b)[1..] == b;
    assert b + "" == b;
    WordEndOfWord(b, "");
    assert b[..|b|] == b && b[|b|..] == "";
    assert Fields("") == [];
    assert Fields(b) == [b];
    assert Fields(" " + b) == [b];
  }

  /** The unit that is written, as its power of two. */
  function UnitFrom(bytes: int, i: nat): nat
    requires i <= |UNITS|
    decreases |UNITS| - i
  {
    if i == |UNITS| then 0 else if Fits(bytes, UNITS[i].1) then UNITS[i].1 else UnitFrom(bytes, i + 1)
  }

  lemma {:induction false} FormattedFrom(bytes: nat, i: nat)
    requires bytes > 0 && i <= |UNITS|
    ensures var e := UnitFrom(bytes, i);
      && e in {0, 10, 20, 30, 40} && Fits(bytes, e)
      && FormatFrom(bytes, i) == Written(bytes / Pow2(e)) + " " + UnitName(e)
    decreases |UNITS| - i
  {
    if i == |UNITS| {
      assert Pow2(0) == 1;
    } else if !Fits(bytes, UNITS[i].1) {
      FormattedFrom(bytes, i + 1);
    }
  }

  lemma FormattedAs(bytes: nat, e: nat)
    requires bytes > 0 && e == UnitFrom(bytes, 0)
    ensures e in {0, 10, 20, 30, 40} && bytes == bytes / Pow2(e) * Pow2(e) && bytes / Pow2(e) > 0
    ensures FormatFrom(bytes, 0) == Decimal(bytes / Pow2(e)) + " " + UnitName(e)
  {
    hide Pow2, UnitFrom, FormatFrom, UnitName;
    FormattedFrom(bytes, 0);
    DividesBack(bytes, Pow2(e));
  }

  lemma DividesBack(n: nat, m: nat)
    requires m > 0
    ensures n >= m && n % m == 0 ==> n == n / m * m && n / m > 0
  {
  }

  lemma UnitIsWord(e: nat)
    ensures UnitName(e) != "" && NoSpace(UnitName(e))
  {
  }

  lemma UnitIsRead(e: nat)
    requires e in {0, 10, 20, 30, 40}
    ensures Multiplier(Upper(UnitName(e))) == Some(Pow2(e))
  {
    hide Pow2, Upper;
    if e == 40 { UpperOf("TiB", "TIB"); }
    else if e == 30 { UpperOf("GiB", "GIB"); }
    else if e == 20 { UpperOf("MiB", "MIB"); }
    else if e == 10 { UpperOf("KiB", "KIB"); }
    else {
      NoScale();
      UpperOf("B", "B");
    }
  }

  lemma NoScale()
    ensures Pow2(0) == 1
  {
  }

  lemma {:induction false} UpperOf(s: string, t: string)
    requires |s| == |t|
    requires forall i | 0 <= i < |s| :: t[i] == if 'a' <= s[i] <= 'z' then s[i] - 'a' + 'A' else s[i]
    ensures Upper(s) == t
  {
    if s != "" {
      UpperOf(s[1..], t[1..]);
      assert t == [t[0]] + t[1..];
    }
  }

  /** Reading back what was written multiplies the rounded amount by the unit. */
  lemma ReadsBack(k: nat, e: nat)
    requires e in {0, 10, 20, 30, 40}
    ensures ParseSize(Decimal(k) + " " + UnitName(e)) == Scaled(k, Pow2(e))
  {
    hide Pow2, Scaled, Multiplier, Upper, UnitName, Fields;
    UnitIsWord(e);
    UnitIsRead(e);
    ValueOfDecimal(k);
    NoSpaceInDigits(Decimal(k));
    FieldsOfTwo(Decimal(k), UnitName(e));
  }

  lemma NoSpaceInDigits(s: string)
    requires AllDigits(s)
    ensures NoSpace(s)
  {
  }

  lemma ExactProduct(k: nat, e: nat)
    ensures Rounded(Rounded(k) * Pow2(e)) == Rounded(k) * Pow2(e)
    ensures Rounded(k) == k <==> Exact(k * Pow2(e))
  {
    hide Rounded, Pow2, Exact;
    RoundedIsExact(k);
    ScaledIsExact(Rounded(k), e);
    RoundedExactly(Rounded(k) * Pow2(e));
    RoundedExactly(k);
    if Exact(k) { ScaledIsExact(k, e); }
    if Exact(k * Pow2(e)) { UnscaledIsExact(k, e); }
  }

  lemma ScaledBack(k: nat, e: nat)
    requires k > 0 && k * Pow2(e) <= MAX_INT64
    ensures Scaled(k, Pow2(e)) == Bytes(k * Pow2(e)) <==> Exact(k * Pow2(e))
  {
    hide Rounded, Pow2, Exact;
    ExactProduct(k, e);
    SameProduct(Rounded(k), k, Pow2(e));
    SameProduct(k, 0, Pow2(e));
  }

  lemma SameProduct(a: nat, b: nat, m: nat)
    requires m > 0
    ensures a * m == b * m ==> a == b
  {
    if a < b { assert (b - a) * m > 0; }
    if a > b { assert (a - b) * m > 0; }
  }

  /** A size comes back from the configuration file exactly when it is a binary64
      number. */
  lemma SizeRoundTripExactly(n: nat)
    requires 1 <= n <= MAX_INT64
    ensures ParseSize(FormatFrom(n, 0)) == Bytes(n) <==> Exact(n)
  {
    hide *;
    var e := UnitFrom(n, 0);
    FormattedAs(n, e);
    ReadsBack(n / Pow2(e), e);
    ScaledBack(n / Pow2(e), e);
  }

  /** So every size up to 2^53 comes back, and every multiple of a kibibyte. */
  lemma UsualSizesComeBack(n: nat)
    requires 1 <= n <= MAX_INT64 && (n <= SIGNIFICAND || n % 1024 == 0)
    ensures ParseSize(FormatFrom(n, 0)) == Bytes(n)
  {
    hide ParseSize, FormatFrom;
    SizeRoundTripExactly(n);
    if n > SIGNIFICAND {
      assert Exact(n / 1024);
      assert Pow2(10) == 1024;
      ScaledIsExact(n / 1024, 10);
    }
  }

  /** The first size that does not. */
  lemma FirstSizeLost()
    ensures ParseSize(FormatFrom(SIGNIFICAND + 1, 0)) != Bytes(SIGNIFICAND + 1)
  {
    hide ParseSize, FormatFrom, Exact;
    SizeRoundTripExactly(SIGNIFICAND + 1);
    NotExact();
  }

  lemma NotExact()
    ensures !Exact(SIGNIFICAND + 1)
  {
    assert Excess((SIGNIFICAND + 1) / 2) == 0;
    assert Pow2(1) == 2;
  }
}
