/** The JavaScript built-ins the colour utility relies on, modelled on exact
    integers and reals: `parseInt(s, 16)`, the ToInt32 conversion behind the
    bitwise operators, `>>`, `& 255`, `Math.floor`, `Math.ceil`, `Math.round`
    and the decimal text a template literal prints for an integer. */
module JsBuiltins {

  /** The values `parseInt` can produce: an integer or NaN. */
  datatype Number = NaN | Int(value: int)

  const TwoTo31: int := 0x8000_0000
  const TwoTo32: int := 0x1_0000_0000

  predicate IsInt32(i: int) {
    -TwoTo31 <= i < TwoTo31
  }

  function Pow2(k: nat): (r: nat)
    ensures r >= 1
  {
    if k == 0 then 1 else 2 * Pow2(k - 1)
  }

  /** The shift amounts hexToRgb uses, two bits at a time. */
  lemma Pow2Values()
    ensures Pow2(8) == 0x100 && Pow2(16) == 0x1_0000
  {
    assert Pow2(2) == 4;
    assert Pow2(4) == 16;
    assert Pow2(6) == 64;
    assert Pow2(8) == 0x100;
    assert Pow2(10) == 0x400;
    assert Pow2(12) == 0x1000;
    assert Pow2(14) == 0x4000;
  }

  function Pow16(k: nat): (r: nat)
    ensures r >= 1
  {
    if k == 0 then 1 else 16 * Pow16(k - 1)
  }

  // ---------------------------------------------------------------------------
  // Bitwise operators

  /** ToInt32: NaN becomes 0; an integer becomes the unique signed 32-bit
      integer congruent to it modulo 2^32. */
  function ToInt32(n: Number): (r: int)
    ensures IsInt32(r)
    ensures n.NaN? ==> r == 0
    ensures n.Int? ==> (n.value - r) % TwoTo32 == 0
  {
    match n
    case NaN => 0
    case Int(v) =>
      var u := v % TwoTo32;
      if u < TwoTo31 then u else u - TwoTo32
  }

  /** A value already in the signed 32-bit range passes ToInt32 unchanged. */
  lemma ToInt32OfInt32(i: int)
    requires IsInt32(i)
    ensures ToInt32(Int(i)) == i
  {
    if i < 0 {
      assert i % TwoTo32 == i + TwoTo32;
    }
  }

  /** `a >> count`: ToInt32 of the left operand, shifted right arithmetically
      by the count's low five bits, that is, divided by a power of two and
      rounded towards minus infinity. */
  function ShiftRight(a: Number, count: nat): (r: int)
    ensures IsInt32(r)
  {
    var x, d := ToInt32(a), Pow2(count % 32);
    DivideInt32(x, d);
    x / d
  }

  /** A shift by a count below 32 is a floor division by 2^count. */
  lemma ShiftRightBy(a: Number, count: nat, d: int)
    requires count < 32 && d == Pow2(count)
    ensures ShiftRight(a, count) == ToInt32(a) / d
  {
    assert count % 32 == count;
  }

  /** Dividing a signed 32-bit integer by a positive integer stays in range. */
  lemma DivideInt32(x: int, d: int)
    requires IsInt32(x) && d >= 1
    ensures IsInt32(x / d)
  {
  }

  /** `a & 255`: the low eight bits of ToInt32(a), a byte congruent to it
      modulo 256. */
  function And255(a: Number): (r: int)
    ensures 0 <= r < 256
    ensures (ToInt32(a) - r) % 256 == 0
  {
    ToInt32(a) % 256
  }

  // ---------------------------------------------------------------------------
  // Math.floor, Math.ceil, Math.round (Math.floor is Dafny's `.Floor`)

  /** Math.ceil: the least integer not below v. */
  function Ceil(v: real): (r: int)
    ensures v <= r as real < v + 1.0
  {
    if v.Floor as real == v then v.Floor else v.Floor + 1
  }

  /** Math.round: the nearest integer, a tie going towards +infinity. */
  function Round(v: real): (r: int)
    ensures r as real - 0.5 <= v < r as real + 0.5
  {
    (v + 0.5).Floor
  }

  lemma RoundMonotone(u: real, v: real)
    requires u <= v
    ensures Round(u) <= Round(v)
  {
  }

  lemma RoundOfInteger(k: int)
    ensures Round(k as real) == k
  {
  }

  // ---------------------------------------------------------------------------
  // parseInt(s, 16)

  /** The WhiteSpace and LineTerminator code points that `parseInt` skips
      before the number (tab, line feed, vertical tab, form feed, carriage
      return, the byte order mark, and the space separators). */
  predicate IsStrWhiteSpace(c: char) {
    c == '\t' || c == '\n' || c == '\U{000B}' || c == '\U{000C}' || c == '\r'
    || c == ' ' || c == '\U{00A0}' || c == '\U{1680}'
    || ('\U{2000}' <= c <= '\U{200A}')
    || c == '\U{2028}' || c == '\U{2029}' || c == '\U{202F}' || c == '\U{205F}'
    || c == '\U{3000}' || c == '\U{FEFF}'
  }

  predicate IsHexDigit(c: char) {
    '0' <= c <= '9' || 'a' <= c <= 'f' || 'A' <= c <= 'F'
  }

  predicate AllHexDigits(s: string) {
    forall i :: 0 <= i < |s| ==> IsHexDigit(s[i])
  }

  function HexDigitValue(c: char): (v: nat)
    requires IsHexDigit(c)
    ensures v < 16
  {
    if c <= '9' then (c - '0') as nat
    else if c <= 'F' then (c - 'A') as nat + 10
    else (c - 'a') as nat + 10
  }

  /** The value of a string of hex digits, most significant digit first. */
  function HexValue(d: string): nat
    requires AllHexDigits(d)
  {
    if d == [] then 0 else HexValue(d[..|d| - 1]) * 16 + HexDigitValue(d[|d| - 1])
  }

  /** k hex digits hold a value below 16^k. */
  lemma {:induction false} HexValueBound(d: string)
    requires AllHexDigits(d)
    ensures HexValue(d) < Pow16(|d|)
  {
    if d != [] {
      HexValueBound(d[..|d| - 1]);
    }
  }

  lemma AllHexDigitsConcat(a: string, b: string)
    requires AllHexDigits(a) && AllHexDigits(b)
    ensures AllHexDigits(a + b)
  {
    var ab := a + b;
    forall i | 0 <= i < |ab| ensures IsHexDigit(ab[i]) {
      if i >= |a| { assert ab[i] == b[i - |a|]; }
    }
  }

  /** The value of a concatenation of hex-digit strings. */
  lemma {:induction false} HexValueConcat(a: string, b: string)
    requires AllHexDigits(a) && AllHexDigits(b)
    ensures AllHexDigits(a + b)
    ensures HexValue(a + b) == HexValue(a) * Pow16(|b|) + HexValue(b)
  {
    AllHexDigitsConcat(a, b);
    var ab := a + b;
    if b == [] {
      assert ab == a;
    } else {
      var front, last := b[..|b| - 1], b[|b| - 1];
      assert ab[..|ab| - 1] == a + front;
      assert ab[|ab| - 1] == last;
      HexValueConcat(a, front);
      var A, F, P := HexValue(a), HexValue(front), Pow16(|front|);
      assert HexValue(ab) == (A * P + F) * 16 + HexDigitValue(last);
      assert HexValue(b) == F * 16 + HexDigitValue(last);
      assert Pow16(|b|) == P * 16;
      Distribute(A, P, F, HexDigitValue(last));
    }
  }

  lemma Distribute(a: int, p: int, f: int, l: int)
    ensures (a * p + f) * 16 + l == a * (p * 16) + (f * 16 + l)
  {
  }

  /** Leading whitespace removed. */
  function TrimStart(s: string): string {
    if s != [] && IsStrWhiteSpace(s[0]) then TrimStart(s[1..]) else s
  }

  /** TrimStart drops whitespace only, and what it leaves does not start with
      whitespace. */
  lemma {:induction false} TrimStartDropsWhiteSpace(s: string)
    ensures var r := TrimStart(s);
      && |r| <= |s| && r == s[|s| - |r|..]
      && (forall i :: 0 <= i < |s| - |r| ==> IsStrWhiteSpace(s[i]))
      && (r == [] || !IsStrWhiteSpace(r[0]))
  {
    if s != [] && IsStrWhiteSpace(s[0]) {
      var t := s[1..];
      TrimStartDropsWhiteSpace(t);
      var r := TrimStart(s);
      assert r == TrimStart(t);
      assert t[|t| - |r|..] == s[|s| - |r|..];
      forall i | 0 <= i < |s| - |r| ensures IsStrWhiteSpace(s[i]) {
        if i > 0 {
          assert s[i] == t[i - 1];
        }
      }
    }
  }

  /** The longest prefix of s made of hex digits. */
  function LeadingHexDigits(s: string): string {
    if s != [] && IsHexDigit(s[0]) then [s[0]] + LeadingHexDigits(s[1..]) else []
  }

  /** LeadingHexDigits is a prefix of hex digits that cannot be extended. */
  lemma {:induction false} LeadingHexDigitsIsLongestRun(s: string)
    ensures var r := LeadingHexDigits(s);
      && |r| <= |s| && r == s[..|r|]
      && AllHexDigits(r)
      && (|r| == |s| || !IsHexDigit(s[|r|]))
  {
    if s != [] && IsHexDigit(s[0]) {
      LeadingHexDigitsIsLongestRun(s[1..]);
    }
  }

  /** parseInt(s, 16): skip leading whitespace, take an optional sign, then an
      optional "0x"/"0X" prefix, then the longest run of hex digits; NaN when
      that run is empty. A number comes only from text that, past its
      whitespace, starts with a sign or a hex digit, and it is negative only
      after a minus sign. */
  function ParseInt16(s: string): (n: Number)
    ensures n.Int? ==>
      var t := TrimStart(s);
      t != [] && (t[0] == '-' || t[0] == '+' || IsHexDigit(t[0]))
    ensures n.Int? && n.value < 0 ==> TrimStart(s) != [] && TrimStart(s)[0] == '-'
  {
    var t := TrimStart(s);
    var negative := t != [] && t[0] == '-';
    var unsigned := if t != [] && (t[0] == '-' || t[0] == '+') then t[1..] else t;
    var body :=
      if |unsigned| >= 2 && unsigned[0] == '0' && (unsigned[1] == 'x' || unsigned[1] == 'X')
      then unsigned[2..] else unsigned;
    var digits := LeadingHexDigits(body);
    LeadingHexDigitsIsLongestRun(body);
    if digits == [] then NaN
    else
      var magnitude: int := HexValue(digits);
      Int(if negative then -magnitude else magnitude)
  }

  /** A run of hex digits, followed by anything that does not continue it,
      parses to the run's value. The one exception is a lone "0" followed by
      "x" or "X", which parseInt reads as a prefix. */
  lemma {:induction false} ParseInt16OfDigits(d: string, rest: string)
    requires d != [] && AllHexDigits(d)
    requires rest == [] || !IsHexDigit(rest[0])
    requires d != "0" || rest == [] || (rest[0] != 'x' && rest[0] != 'X')
    ensures ParseInt16(d + rest) == Int(HexValue(d))
  {
    var s := d + rest;
    assert !IsStrWhiteSpace(s[0]);
    assert TrimStart(s) == s;
    assert s[0] != '-' && s[0] != '+';
    assert |s| >= 2 ==> s[1] == if |d| >= 2 then d[1] else rest[0];
    if |d| == 1 {
      assert d == [d[0]];
    }
    LeadingHexDigitsOfRun(d, rest);
  }

  /** A sign in front of such a run negates the value, or leaves it. */
  lemma {:induction false} ParseInt16Signed(sign: char, d: string, rest: string)
    requires sign == '-' || sign == '+'
    requires d != [] && AllHexDigits(d)
    requires rest == [] || !IsHexDigit(rest[0])
    requires d != "0" || rest == [] || (rest[0] != 'x' && rest[0] != 'X')
    ensures ParseInt16([sign] + d + rest) == Int(if sign == '-' then -(HexValue(d) as int) else HexValue(d))
  {
    var s := [sign] + d + rest;
    assert TrimStart(s) == s;
    var unsigned := s[1..];
    assert unsigned == d + rest;
    assert |unsigned| >= 2 ==> unsigned[1] == if |d| >= 2 then d[1] else rest[0];
    if |d| == 1 {
      assert d == [d[0]];
    }
    LeadingHexDigitsOfRun(d, rest);
  }

  /** After an "0x" or "0X" prefix the digits are read in base 16. */
  lemma ParseInt16HexPrefix(x: char, d: string, rest: string)
    requires x == 'x' || x == 'X'
    requires d != [] && AllHexDigits(d)
    requires rest == [] || !IsHexDigit(rest[0])
    ensures ParseInt16(['0', x] + d + rest) == Int(HexValue(d))
  {
    var s := ['0', x] + d + rest;
    assert TrimStart(s) == s;
    assert s[2..] == d + rest;
    LeadingHexDigitsOfRun(d, rest);
  }

  /** A sign or an "0x" prefix with no hex digit after it gives NaN. */
  lemma ParseInt16PrefixWithoutDigits(prefix: string, rest: string)
    requires prefix in ["-", "+", "0x", "0X"]
    requires rest == [] || !IsHexDigit(rest[0])
    ensures ParseInt16(prefix + rest) == NaN
  {
    var s := prefix + rest;
    assert TrimStart(s) == s;
    assert s[|prefix|..] == rest;
  }

  /** Text made only of whitespace, the empty text among it, gives NaN. */
  lemma ParseInt16OfWhiteSpace(s: string)
    requires forall i :: 0 <= i < |s| ==> IsStrWhiteSpace(s[i])
    ensures ParseInt16(s) == NaN
  {
    TrimStartDropsWhiteSpace(s);
  }

  /** Whitespace in front of the number is skipped. */
  lemma ParseInt16SkipsWhiteSpace(c: char, s: string)
    requires IsStrWhiteSpace(c)
    ensures ParseInt16([c] + s) == ParseInt16(s)
  {
    assert ([c] + s)[1..] == s;
  }

  /** A string made only of hex digits parses to its value. */
  lemma ParseInt16OfHexDigits(d: string)
    requires d != [] && AllHexDigits(d)
    ensures ParseInt16(d) == Int(HexValue(d))
  {
    assert d + [] == d;
    ParseInt16OfDigits(d, []);
  }

  /** The leading run of hex digits stops exactly where the digits stop. */
  lemma {:induction false} LeadingHexDigitsOfRun(d: string, rest: string)
    requires AllHexDigits(d)
    requires rest == [] || !IsHexDigit(rest[0])
    ensures LeadingHexDigits(d + rest) == d
  {
    if d != [] {
      assert (d + rest)[1..] == d[1..] + rest;
      LeadingHexDigitsOfRun(d[1..], rest);
    }
  }

  /** When the text, once past its whitespace, starts with neither a sign nor
      a hex digit, parseInt gives NaN. */
  lemma ParseInt16NotNumeric(s: string)
    requires s != [] && !IsStrWhiteSpace(s[0])
    requires s[0] != '-' && s[0] != '+' && !IsHexDigit(s[0])
    ensures ParseInt16(s) == NaN
  {
    assert TrimStart(s) == s;
  }

  // ---------------------------------------------------------------------------
  // Integer to decimal text

  predicate IsDecimalDigit(c: char) {
    '0' <= c <= '9'
  }

  predicate AllDecimalDigits(s: string) {
    forall i :: 0 <= i < |s| ==> IsDecimalDigit(s[i])
  }

  /** The value of a string of decimal digits, most significant digit first. */
  function DecimalValue(s: string): nat
    requires AllDecimalDigits(s)
  {
    if s == [] then 0 else DecimalValue(s[..|s| - 1]) * 10 + (s[|s| - 1] - '0') as nat
  }

  function DigitChar(d: nat): (c: char)
    requires d < 10
    ensures IsDecimalDigit(c) && (c - '0') as nat == d
  {
    '0' + d as char
  }

  /** The decimal text of a natural number, most significant digit first. */
  function NaturalString(n: nat): string {
    if n < 10 then [DigitChar(n)] else NaturalString(n / 10) + [DigitChar(n % 10)]
  }

  /** NaturalString is digits only, has no leading zero unless the number is
      0, and reading the digits back gives the number. */
  lemma {:induction false} NaturalStringRoundTrip(n: nat)
    ensures var s := NaturalString(n);
      && s != [] && AllDecimalDigits(s)
      && (s[0] == '0' ==> s == "0")
      && DecimalValue(s) == n
  {
    if n >= 10 {
      var front := NaturalString(n / 10);
      var s := front + [DigitChar(n % 10)];
      NaturalStringRoundTrip(n / 10);
      assert s[..|s| - 1] == front;
      assert s[0] == front[0];
    }
  }

  /** The text `${i}` prints for an integer i (below 10^21 in magnitude). */
  function DecimalString(i: int): (s: string)
    ensures s != [] && (s[0] == '-' || IsDecimalDigit(s[0]))
    ensures s[0] == '-' <==> i < 0
    ensures IsNumberText(s)
  {
    NaturalStringRoundTrip(if i < 0 then -i else i);
    if i < 0 then "-" + NaturalString(-i) else NaturalString(i)
  }

  /** The characters `${i}` can print: a minus sign and decimal digits. */
  predicate IsNumberChar(c: char) {
    c == '-' || IsDecimalDigit(c)
  }

  predicate IsNumberText(s: string) {
    forall k :: 0 <= k < |s| ==> IsNumberChar(s[k])
  }

  /** Different integers print differently: the text gives the number back. */
  lemma DecimalStringInjective(i: int, j: int)
    requires DecimalString(i) == DecimalString(j)
    ensures i == j
  {
    var m, n := if i < 0 then -i else i, if j < 0 then -j else j;
    NaturalStringRoundTrip(m);
    NaturalStringRoundTrip(n);
    if i < 0 {
      assert NaturalString(m) == DecimalString(i)[1..] == NaturalString(n);
    }
    assert NaturalString(m) == NaturalString(n);
  }
}
