/** JavaScript's global `parseFloat` on decimal text: leading whitespace is
    skipped, then the longest prefix that reads as
    `[+|-] digits [. digits] [(e|E) [+|-] digits]` (at least one mantissa digit,
    on either side of the point) is read as an exact decimal value. When no
    such prefix exists the JavaScript result is `NaN`, here `None`. */
module NumberParsing {
  import opened Wrappers
  import Text

  predicate IsDigit(ch: char) {
    '0' <= ch <= '9'
  }

  predicate AllDigits(s: string) {
    forall k :: 0 <= k < |s| ==> IsDigit(s[k])
  }

  function DigitValue(ch: char): (d: nat)
    requires IsDigit(ch)
    ensures d < 10
  {
    ch as int - '0' as int
  }

  function DigitChar(d: nat): (ch: char)
    requires d < 10
    ensures IsDigit(ch) && DigitValue(ch) == d
  {
    ('0' as int + d) as char
  }

  /** Length of the run of decimal digits that begins `s`. */
  function DigitRun(s: string): (n: nat)
    ensures n <= |s|
    ensures AllDigits(s[..n])
    ensures n == |s| || !IsDigit(s[n])
    decreases |s|
  {
    if |s| > 0 && IsDigit(s[0]) then
      var n := 1 + DigitRun(s[1..]);
      assert s[..n] == [s[0]] + s[1..][..n - 1];
      n
    else 0
  }

  /** The value of a string of decimal digits, most significant first. */
  function DigitsValue(d: string): nat
    requires AllDigits(d)
    decreases |d|
  {
    if |d| == 0 then 0
    else 10 * DigitsValue(d[..|d| - 1]) + DigitValue(d[|d| - 1])
  }

  /** The value of the digits after a decimal point. */
  function FractionValue(fraction: string): (v: real)
    requires AllDigits(fraction)
    ensures 0.0 <= v < 1.0
    decreases |fraction|
  {
    if |fraction| == 0 then 0.0
    else (DigitValue(fraction[0]) as real + FractionValue(fraction[1..])) / 10.0
  }

  /** `m` times ten to the power `e`. */
  function Scale(m: real, e: int): real
    decreases if e < 0 then -e else e
  {
    if e == 0 then m
    else if e > 0 then 10.0 * Scale(m, e - 1)
    else Scale(m, e + 1) / 10.0
  }

  /** The text after an optional leading sign, and whether that sign is `-`. */
  function Unsign(s: string): (bool, string) {
    if |s| > 0 && (s[0] == '+' || s[0] == '-') then (s[0] == '-', s[1..]) else (false, s)
  }

  /** The exponent that `t` begins with, or 0 when `t` does not begin with a
      complete exponent part (then the number ends before the `e`). */
  function Exponent(t: string): int {
    if |t| > 0 && (t[0] == 'e' || t[0] == 'E') then
      var (negative, digits) := Unsign(t[1..]);
      var n := DigitRun(digits);
      if n == 0 then 0
      else if negative then -(DigitsValue(digits[..n]) as int)
      else DigitsValue(digits[..n])
    else 0
  }

  /** A decimal literal as read: the digits before and after the point and the
      exponent. */
  datatype Literal = Literal(whole: string, fraction: string, exponent: int)

  /** The longest decimal literal at the start of `body` (which carries no
      sign), if any. */
  function Scan(body: string): (r: Option<Literal>)
    ensures r.Some? ==> AllDigits(r.value.whole) && AllDigits(r.value.fraction)
  {
    var w := DigitRun(body);
    var point := w < |body| && body[w] == '.';
    var after := if point then body[w + 1..] else "";
    var f := DigitRun(after);
    if w + f == 0 then None
    else
      var rest := if point then after[f..] else body[w..];
      Some(Literal(body[..w], after[..f], Exponent(rest)))
  }

  /** The exact value a literal denotes. */
  function LiteralValue(lit: Literal): real
    requires AllDigits(lit.whole) && AllDigits(lit.fraction)
  {
    Scale(DigitsValue(lit.whole) as real + FractionValue(lit.fraction), lit.exponent)
  }

  /** The value of the literal at the start of unsigned text. */
  function UnsignedValue(body: string): Option<real> {
    match Scan(body)
    case None => None
    case Some(lit) => Some(LiteralValue(lit))
  }

  function Negate(v: Option<real>): Option<real> {
    match v
    case None => None
    case Some(x) => Some(-x)
  }

  /** The value of the literal at the start of text with an optional sign. */
  function SignedValue(t: string): Option<real> {
    if |t| > 0 && t[0] == '-' then Negate(UnsignedValue(t[1..]))
    else if |t| > 0 && t[0] == '+' then UnsignedValue(t[1..])
    else UnsignedValue(t)
  }

  /** JavaScript's `parseFloat`: leading whitespace is skipped, then the number at the
      start of the rest is read. */
  function ParseFloat(s: string): (r: Option<real>)
    ensures Text.AllWhitespace(s) ==> r.None?
    decreases |s|
  {
    if |s| > 0 && Text.IsWhitespace(s[0]) then
      assert Text.AllWhitespace(s) ==> Text.AllWhitespace(s[1..]) by {
        assert forall k :: 0 <= k < |s| - 1 ==> s[1..][k] == s[k + 1];
      }
      ParseFloat(s[1..])
    else SignedValue(s)
  }

  /** `parseFloat` skips exactly the whitespace that `trimStart` removes. */
  lemma {:induction false} ParseFloatTrimmed(s: string)
    ensures ParseFloat(s) == SignedValue(Text.TrimStart(s))
    decreases |s|
  {
    if |s| > 0 && Text.IsWhitespace(s[0]) {
      ParseFloatTrimmed(s[1..]);
    }
  }

  /** Text begins a number: a digit, or a point followed by a digit. */
  predicate BeginsNumber(body: string) {
    || (|body| > 0 && IsDigit(body[0]))
    || (|body| > 1 && body[0] == '.' && IsDigit(body[1]))
  }

  /** `parseFloat` gives `NaN` exactly when, after the blanks and the sign,
      the text does not begin with a digit or with a point and a digit. */
  lemma ParseFloatFailsIff(s: string)
    ensures ParseFloat(s).None? <==> !BeginsNumber(Unsign(Text.TrimStart(s)).1)
  {
    ParseFloatTrimmed(s);
    var body := Unsign(Text.TrimStart(s)).1;
    assert ParseFloat(s).None? <==> Scan(body).None?;
    var w := DigitRun(body);
    if |body| > 1 && body[0] == '.' && IsDigit(body[1]) {
      assert w == 0;
      assert body[1..][0] == body[1];
    }
  }

  // ---------------------------------------------------------------------------
  // Whole numbers
  // ---------------------------------------------------------------------------

  /** Decimal text of a natural number, without leading zeros. */
  function ShowNat(n: nat): (s: string)
    ensures |s| >= 1 && AllDigits(s)
  {
    if n < 10 then [DigitChar(n)] else ShowNat(n / 10) + [DigitChar(n % 10)]
  }

  lemma {:induction false} ShowNatValue(n: nat)
    ensures DigitsValue(ShowNat(n)) == n
  {
    if n >= 10 {
      ShowNatValue(n / 10);
      var s := ShowNat(n);
      assert s[..|s| - 1] == ShowNat(n / 10);
    }
  }

  /** A digit string followed by text that cannot continue a number is read as
      a whole number with no exponent. */
  lemma ScanDigits(d: string, rest: string)
    requires |d| >= 1 && AllDigits(d)
    requires rest == [] || !(IsDigit(rest[0]) || rest[0] == '.' || rest[0] == 'e' || rest[0] == 'E')
    ensures Scan(d + rest) == Some(Literal(d, "", 0))
  {
    var s := d + rest;
    DigitRunPrefix(d, rest);
    assert s[..|d|] == d;
    assert s[|d|..] == rest;
    assert !(|d| < |s| && s[|d|] == '.');
    assert Exponent(rest) == 0;
  }

  /** A whole number denotes its digits' value. */
  lemma WholeValue(d: string)
    requires AllDigits(d)
    ensures LiteralValue(Literal(d, "", 0)) == DigitsValue(d) as real
  {
  }

  /** A run of digits followed by text that cannot continue a number reads
      as the run's value. */
  lemma ParseDigitsPrefix(d: string, rest: string)
    requires |d| >= 1 && AllDigits(d)
    requires rest == [] || !(IsDigit(rest[0]) || rest[0] == '.' || rest[0] == 'e' || rest[0] == 'E')
    ensures ParseFloat(d + rest) == Some(DigitsValue(d) as real)
  {
    var s := d + rest;
    UnsignedDigits(d, rest);
    assert s[0] == d[0];
    ParseUnsigned(s);
  }

  lemma UnsignedDigits(d: string, rest: string)
    requires |d| >= 1 && AllDigits(d)
    requires rest == [] || !(IsDigit(rest[0]) || rest[0] == '.' || rest[0] == 'e' || rest[0] == 'E')
    ensures UnsignedValue(d + rest) == Some(DigitsValue(d) as real)
  {
    ScanDigits(d, rest);
    WholeValue(d);
  }

  /** Text that starts with neither a blank nor a sign is read as it stands. */
  lemma ParseUnsigned(s: string)
    requires |s| > 0 && !Text.IsWhitespace(s[0]) && s[0] != '+' && s[0] != '-'
    ensures ParseFloat(s) == UnsignedValue(s)
  {
  }

  /** A minus sign in front of text that starts with neither a blank nor a
      sign negates the number read, and leaves `NaN` alone. */
  lemma ParseNegated(s: string, t: string)
    requires |s| > 0 && !Text.IsWhitespace(s[0]) && s[0] != '+' && s[0] != '-'
    requires |t| == |s| + 1 && t[0] == '-' && t[1..] == s
    ensures ParseFloat(t) == Negate(ParseFloat(s))
  {
  }

  lemma {:induction false} DigitRunPrefix(d: string, rest: string)
    requires AllDigits(d)
    requires rest == [] || !IsDigit(rest[0])
    ensures DigitRun(d + rest) == |d|
    decreases |d|
  {
    if |d| > 0 {
      DigitRunPrefix(d[1..], rest);
      assert (d + rest)[1..] == d[1..] + rest;
    } else {
      assert d + rest == rest;
    }
  }

  /** Reading back the decimal text of a whole number gives the number. */
  lemma ParseShowNat(n: nat)
    ensures ParseFloat(ShowNat(n)) == Some(n as real)
  {
    var s := ShowNat(n);
    ParseDigits(s);
    ShowNatValue(n);
  }

  /** A string of digits reads as its value. */
  lemma ParseDigits(d: string)
    requires |d| >= 1 && AllDigits(d)
    ensures ParseFloat(d) == Some(DigitsValue(d) as real)
  {
    ParseDigitsPrefix(d, []);
    assert d + [] == d;
  }

  /** A string of digits after a minus sign reads as the negated value. */
  lemma ParseNegativeDigits(d: string, t: string)
    requires |d| >= 1 && AllDigits(d)
    requires |t| == |d| + 1 && t[0] == '-' && t[1..] == d
    ensures ParseFloat(t) == Some(-(DigitsValue(d) as real))
  {
    assert IsDigit(d[0]);
    ParseNegated(d, t);
    ParseDigits(d);
  }

  /** Decimal text of an integer: a minus sign in front of a negative one. */
  function ShowInt(i: int): (s: string)
    ensures |s| >= 1 && (IsDigit(s[0]) || s[0] == '-')
  {
    if i < 0 then ['-'] + ShowNat(-i) else ShowNat(i)
  }

  /** Reading back the decimal text of an integer gives the integer. */
  lemma ParseShowInt(i: int)
    ensures ParseFloat(ShowInt(i)) == Some(i as real)
  {
    if i < 0 {
      ParseShowNegativeInt(i);
    } else {
      ParseShowNat(i);
    }
  }

  lemma ParseShowNegativeInt(i: int)
    requires i < 0
    ensures ParseFloat(ShowInt(i)) == Some(i as real)
  {
    var n: nat := -i;
    var t := ShowInt(i);
    var d := ShowNat(n);
    ShowIntNegative(i);
    ParseShowNegative(n, d, t);
    assert ParseFloat(t) == Some(-(n as real));
  }

  /** The text of a whole number with a minus sign in front reads as the
      negated number. */
  lemma ParseShowNegative(n: nat, d: string, t: string)
    requires d == ShowNat(n) && |t| == |d| + 1 && t[0] == '-' && t[1..] == d
    ensures ParseFloat(t) == Some(-(n as real))
  {
    ShowNatValue(n);
    ParseNegativeDigits(d, t);
  }

  lemma ShowIntNegative(i: int)
    requires i < 0
    ensures var t, d := ShowInt(i), ShowNat(-i);
            |t| == |d| + 1 && t[0] == '-' && t[1..] == d
  {
    assert ShowInt(i) == ['-'] + ShowNat(-i);
  }

  /** The text of an integer is digits, after a minus sign exactly when the
      integer is negative. */
  lemma ShowIntShape(i: int)
    ensures var s := ShowInt(i);
            && IsDigit(s[|s| - 1])
            && (forall k :: 1 <= k < |s| ==> IsDigit(s[k]))
            && (s[0] == '-' <==> i < 0)
  {
    var s := ShowInt(i);
    if i < 0 {
      var d := ShowNat(-i);
      assert s == ['-'] + d;
      assert forall k :: 1 <= k < |s| ==> s[k] == d[k - 1];
    }
  }
}
