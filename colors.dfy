/** The colour utility of the noise toy: `hexToRgb` decodes a "#rrggbb"
    colour into its three 8-bit channels, and `updateBackgroundColor` maps a
    position x in [0, 1] to a CSS "rgb(r, g, b)" colour by blending linearly
    between neighbouring stops of a fixed six-colour pastel palette. */
module Colors {
  import opened JsBuiltins

  /** The `{ r, g, b }` object both functions build. */
  datatype Rgb = Rgb(r: int, g: int, b: int)

  const Black: Rgb := Rgb(0, 0, 0)

  predicate IsByteColor(c: Rgb) {
    0 <= c.r < 256 && 0 <= c.g < 256 && 0 <= c.b < 256
  }

  function Min(a: int, b: int): int { if a <= b then a else b }
  function Max(a: int, b: int): int { if a <= b then b else a }

  /** Every channel of c lies between the matching channels of c1 and c2. */
  predicate Between(c1: Rgb, c2: Rgb, c: Rgb) {
    Min(c1.r, c2.r) <= c.r <= Max(c1.r, c2.r)
    && Min(c1.g, c2.g) <= c.g <= Max(c1.g, c2.g)
    && Min(c1.b, c2.b) <= c.b <= Max(c1.b, c2.b)
  }

  // ---------------------------------------------------------------------------
  // hexToRgb

  /** `hex.slice(1)`: everything after the first character. */
  function AfterFirst(s: string): (r: string)
    ensures |r| == if s == [] then 0 else |s| - 1
  {
    if s == [] then [] else s[1..]
  }

  /** hexToRgb: parse everything after the first character with
      parseInt(_, 16) and split the result into its channels. */
  function HexToRgb(hex: string): (c: Rgb)
    ensures IsByteColor(c)
  {
    Channels(ParseInt16(AfterFirst(hex)))
  }

  /** `(bigint >> 16) & 255`, `(bigint >> 8) & 255` and `bigint & 255`. */
  function Channels(bigint: Number): (c: Rgb)
    ensures IsByteColor(c)
  {
    Rgb(And255(Int(ShiftRight(bigint, 16))), And255(Int(ShiftRight(bigint, 8))), And255(bigint))
  }

  /** The first character is never looked at: two inputs that agree after
      it decode to the same colour. */
  lemma HexToRgbIgnoresFirst(hex1: string, hex2: string)
    requires hex1 != [] && hex2 != [] && hex1[1..] == hex2[1..]
    ensures HexToRgb(hex1) == HexToRgb(hex2)
  {
  }

  /** The three channels together are the low 24 bits of the parsed number
      (NaN counting as 0). */
  lemma HexToRgbIsLow24Bits(hex: string)
    ensures var c := HexToRgb(hex);
      c.r * 0x1_0000 + c.g * 0x100 + c.b == ToInt32(ParseInt16(AfterFirst(hex))) % 0x100_0000
  {
    var n := ParseInt16(AfterFirst(hex));
    var x := ToInt32(n);
    ShiftRight16(n);
    ShiftRight8(n);
    And255OfInt32(ShiftRight(n, 16));
    And255OfInt32(ShiftRight(n, 8));
    LowBytes(x);
  }

  /** Euclidean division is determined by its quotient-remainder bounds. */
  lemma DivModUnique(x: int, d: int, q: int, m: int)
    requires d > 0 && 0 <= m < d && x == q * d + m
    ensures x / d == q && x % d == m
  {
    var e := x / d - q;
    assert e * d == m - x % d by {
      assert e * d == (x / d) * d - q * d;
    }
    ProductSign(e, d);
  }

  lemma ProductSign(e: int, d: int)
    requires d > 0
    ensures e >= 1 ==> e * d >= d
    ensures e <= -1 ==> e * d <= -d
  {
  }

  lemma LowBytes(x: int)
    ensures ((x / 0x1_0000) % 0x100) * 0x1_0000 + ((x / 0x100) % 0x100) * 0x100 + x % 0x100
         == x % 0x100_0000
  {
    var q1, b := x / 0x100, x % 0x100;
    var q2, g := q1 / 0x100, q1 % 0x100;
    var q3, r := q2 / 0x100, q2 % 0x100;
    assert x == q2 * 0x1_0000 + (g * 0x100 + b);
    DivModUnique(x, 0x1_0000, q2, g * 0x100 + b);
    assert x == q3 * 0x100_0000 + (r * 0x1_0000 + g * 0x100 + b);
    DivModUnique(x, 0x100_0000, q3, r * 0x1_0000 + g * 0x100 + b);
  }

  /** For "#RRGGBB" (any first character, then six hex digits) the channels
      are the values of digit pairs 1-2, 3-4 and 5-6. */
  lemma SixDigitHex(hex: string)
    requires |hex| == 7 && AllHexDigits(hex[1..])
    ensures HexToRgb(hex) == Rgb(HexValue(hex[1..3]), HexValue(hex[3..5]), HexValue(hex[5..7]))
  {
    SixDigitHexPacks(hex);
  }

  /** For "#RRGGBB" the digits parse to one number whose three bytes are the
      channels. */
  lemma SixDigitHexPacks(hex: string)
    requires |hex| == 7 && AllHexDigits(hex[1..])
    ensures ParseInt16(hex[1..]) == Int(HexValue(hex[1..]))
    ensures var c := HexToRgb(hex);
      && c == Rgb(HexValue(hex[1..3]), HexValue(hex[3..5]), HexValue(hex[5..7]))
      && c.r * 0x1_0000 + c.g * 0x100 + c.b == HexValue(hex[1..])
  {
    var d := hex[1..];
    assert d[0..2] == hex[1..3] && d[2..4] == hex[3..5] && d[4..6] == hex[5..7];
    SixDigitValue(d);
    var v := HexValue(d);
    var r, g, b := HexValue(d[0..2]), HexValue(d[2..4]), HexValue(d[4..6]);
    ParseInt16OfHexDigits(d);
    ChannelsOfValue(v, r, g, b);
    assert HexToRgb(hex) == Rgb(r, g, b);
    assert r * 0x1_0000 + g * 0x100 + b == v;
  }

  /** Six hex digits are three digit pairs, most significant first. */
  lemma SixDigitValue(d: string)
    requires |d| == 6 && AllHexDigits(d)
    ensures HexValue(d[0..2]) < 0x100 && HexValue(d[2..4]) < 0x100 && HexValue(d[4..6]) < 0x100
    ensures HexValue(d) == HexValue(d[0..2]) * 0x1_0000 + HexValue(d[2..4]) * 0x100 + HexValue(d[4..6])
  {
    var p, q, w := d[0..2], d[2..4], d[4..6];
    assert d == p + q + w;
    assert Pow16(2) == 0x100;
    HexValueBound(p);
    HexValueBound(q);
    HexValueBound(w);
    var P, Q, W := HexValue(p), HexValue(q), HexValue(w);
    HexValueConcat(p, q);
    assert HexValue(p + q) == P * 0x100 + Q;
    HexValueConcat(p + q, w);
    assert HexValue(d) == (P * 0x100 + Q) * 0x100 + W;
  }

  /** The bit extraction of hexToRgb recovers the bytes of a 24-bit value. */
  lemma ChannelsOfValue(v: int, r: int, g: int, b: int)
    requires 0 <= r < 0x100 && 0 <= g < 0x100 && 0 <= b < 0x100
    requires v == r * 0x1_0000 + g * 0x100 + b
    ensures Channels(Int(v)) == Rgb(r, g, b)
  {
    ToInt32OfInt32(v);
    ShiftRight16(Int(v));
    ShiftRight8(Int(v));
    DivModUnique(v, 0x1_0000, r, g * 0x100 + b);
    DivModUnique(v, 0x100, r * 0x100 + g, b);
    DivModUnique(r * 0x100 + g, 0x100, r, g);
    DivModUnique(r, 0x100, 0, r);
    And255OfInt32(r);
    And255OfInt32(r * 0x100 + g);
    And255OfInt32(v);
  }

  lemma ShiftRight16(a: Number)
    ensures ShiftRight(a, 16) == ToInt32(a) / 0x1_0000
  {
    Pow2Values();
    ShiftRightBy(a, 16, 0x1_0000);
  }

  lemma ShiftRight8(a: Number)
    ensures ShiftRight(a, 8) == ToInt32(a) / 0x100
  {
    Pow2Values();
    ShiftRightBy(a, 8, 0x100);
  }

  lemma And255OfInt32(i: int)
    requires IsInt32(i)
    ensures And255(Int(i)) == i % 0x100
  {
    ToInt32OfInt32(i);
  }

  /** When the character after the first is neither a hex digit, nor
      whitespace, nor a sign, parseInt yields NaN and the colour is black. */
  lemma NonNumericIsBlack(hex: string)
    requires |hex| >= 2
    requires !IsHexDigit(hex[1]) && !IsStrWhiteSpace(hex[1]) && hex[1] != '+' && hex[1] != '-'
    ensures HexToRgb(hex) == Black
  {
    ParseInt16NotNumeric(hex[1..]);
    assert AfterFirst(hex) == hex[1..];
    ChannelsOfZero(ParseInt16(hex[1..]));
  }

  /** A minus sign after the first character is honoured by parseInt, and
      the bit extraction then works on the two's complement: "#-" and two
      hex digits of value v > 0 decode to (255, 255, 256 - v). */
  lemma NegativeByte(hex: string)
    requires |hex| == 4 && hex[1] == '-' && IsHexDigit(hex[2]) && IsHexDigit(hex[3])
    requires hex[2] != '0' || hex[3] != '0'
    ensures AllHexDigits(hex[2..])
    ensures HexToRgb(hex) == Rgb(255, 255, 256 - HexValue(hex[2..]))
  {
    var d := hex[2..];
    PairValue(d);
    var v: int := HexValue(d);
    assert v > 0 by {
      assert d[0] != '0' || d[1] != '0';
    }
    assert AfterFirst(hex) == ['-'] + d + [];
    ParseInt16Signed('-', d, []);
    assert ParseInt16(AfterFirst(hex)) == Int(-v);
    ChannelsOfNegativeByte(v);
    assert HexToRgb(hex) == Channels(Int(-v));
  }

  /** The bit extraction of -v for a byte v > 0. */
  lemma ChannelsOfNegativeByte(v: int)
    requires 0 < v < 0x100
    ensures Channels(Int(-v)) == Rgb(255, 255, 256 - v)
  {
    var n := Int(-v);
    ToInt32OfInt32(-v);
    ShiftRight16(n);
    ShiftRight8(n);
    DivModUnique(-v, 0x1_0000, -1, 0x1_0000 - v);
    DivModUnique(-v, 0x100, -1, 0x100 - v);
    assert ShiftRight(n, 16) == -1 && ShiftRight(n, 8) == -1;
    DivModUnique(-1, 0x100, -1, 0xff);
    And255OfInt32(-1);
    And255OfInt32(-v);
    assert And255(Int(-1)) == 255 && And255(n) == 256 - v;
  }

  /** A number that ToInt32 sends to 0, NaN among them, gives black. */
  lemma ChannelsOfZero(n: Number)
    requires ToInt32(n) == 0
    ensures Channels(n) == Black
  {
    ShiftRight16(n);
    ShiftRight8(n);
    And255OfInt32(0);
  }

  // ---------------------------------------------------------------------------
  // "#rrggbb" text of a colour, the format of the palette literals

  predicate IsLowerHexDigit(c: char) {
    '0' <= c <= '9' || 'a' <= c <= 'f'
  }

  function HexDigitChar(v: nat): (c: char)
    requires v < 16
    ensures IsHexDigit(c) && HexDigitValue(c) == v
    ensures IsLowerHexDigit(c)
  {
    if v < 10 then '0' + v as char else 'a' + (v - 10) as char
  }

  /** The two lower-case hex digits of a byte. */
  function ByteHex(v: nat): (s: string)
    requires v < 256
    ensures |s| == 2 && AllHexDigits(s) && HexValue(s) == v
  {
    var s := [HexDigitChar(v / 16), HexDigitChar(v % 16)];
    PairValue(s);
    s
  }

  /** "#rrggbb" in lower case. */
  function HexColor(c: Rgb): (s: string)
    requires IsByteColor(c)
    ensures |s| == 7 && s[0] == '#'
  {
    "#" + ByteHex(c.r) + ByteHex(c.g) + ByteHex(c.b)
  }

  /** Decoding the "#rrggbb" text of a colour gives the colour back. */
  lemma HexColorRoundTrip(c: Rgb)
    requires IsByteColor(c)
    ensures HexToRgb(HexColor(c)) == c
  {
    var hex := HexColor(c);
    var d := ByteHex(c.r) + ByteHex(c.g) + ByteHex(c.b);
    assert hex[1..] == d;
    assert hex[1..3] == ByteHex(c.r) && hex[3..5] == ByteHex(c.g) && hex[5..7] == ByteHex(c.b);
    assert AllHexDigits(d) by {
      AllHexDigitsConcat(ByteHex(c.r), ByteHex(c.g));
      AllHexDigitsConcat(ByteHex(c.r) + ByteHex(c.g), ByteHex(c.b));
    }
    SixDigitHex(hex);
  }

  /** Two lower-case hex digits are the text of their own value. */
  lemma ByteHexOfPair(p: string)
    requires |p| == 2 && IsLowerHexDigit(p[0]) && IsLowerHexDigit(p[1])
    ensures AllHexDigits(p) && HexValue(p) < 256 && ByteHex(HexValue(p)) == p
  {
    PairValue(p);
    var v := HexValue(p);
    DivModUnique(v, 16, HexDigitValue(p[0]), HexDigitValue(p[1]));
  }

  /** Conversely, "#" and six lower-case hex digits decode to a colour whose
      "#rrggbb" text is the input. */
  lemma HexToRgbRoundTrip(s: string)
    requires |s| == 7 && s[0] == '#'
    requires forall i :: 1 <= i < 7 ==> IsLowerHexDigit(s[i])
    ensures HexColor(HexToRgb(s)) == s
  {
    var p, q, w := s[1..3], s[3..5], s[5..7];
    ByteHexOfPair(p);
    ByteHexOfPair(q);
    ByteHexOfPair(w);
    assert AllHexDigits(s[1..]) by {
      forall i | 0 <= i < 6 ensures IsHexDigit(s[1..][i]) {
        assert s[1..][i] == s[i + 1];
      }
    }
    SixDigitHex(s);
    SplitSeven(s);
  }

  lemma SplitSeven(s: string)
    requires |s| == 7
    ensures s == [s[0]] + s[1..3] + s[3..5] + s[5..7]
  {
  }

  // ---------------------------------------------------------------------------
  // The palette

  /** `pastelColors`: the six stops of the background gradient. */
  const PastelColors: seq<string> :=
    ["#b0e0e6", "#add8e6", "#87cefa", "#b0c4de", "#afeeee", "#e0ffff"]

  /** Stop k of the gradient, decoded as `hexToRgb(pastelColors[k])`. */
  function Stop(k: int): (c: Rgb)
    requires 0 <= k < |PastelColors|
    ensures IsByteColor(c)
  {
    HexToRgb(PastelColors[k])
  }

  /** The first stop, "#b0e0e6", is (176, 224, 230). */
  lemma FirstStop()
    ensures Stop(0) == Rgb(176, 224, 230)
  {
    DecodesTo(PastelColors[0], Rgb(176, 224, 230));
  }

  /** The last stop, "#e0ffff", is (224, 255, 255). */
  lemma LastStop()
    ensures Stop(LastIndex) == Rgb(224, 255, 255)
  {
    DecodesTo(PastelColors[5], Rgb(224, 255, 255));
  }

  /** A first character and six hex digits whose pairs have the values of c
      decode to c. */
  lemma DecodesTo(hex: string, c: Rgb)
    requires |hex| == 7 && forall i :: 1 <= i < 7 ==> IsHexDigit(hex[i])
    requires HexDigitValue(hex[1]) * 16 + HexDigitValue(hex[2]) == c.r
    requires HexDigitValue(hex[3]) * 16 + HexDigitValue(hex[4]) == c.g
    requires HexDigitValue(hex[5]) * 16 + HexDigitValue(hex[6]) == c.b
    ensures HexToRgb(hex) == c
  {
    assert AllHexDigits(hex[1..]) by {
      forall i | 0 <= i < 6 ensures IsHexDigit(hex[1..][i]) {
        assert hex[1..][i] == hex[i + 1];
      }
    }
    PairValue(hex[1..3]);
    PairValue(hex[3..5]);
    PairValue(hex[5..7]);
    SixDigitHex(hex);
  }

  lemma PairValue(p: string)
    requires |p| == 2 && IsHexDigit(p[0]) && IsHexDigit(p[1])
    ensures AllHexDigits(p) && HexValue(p) == HexDigitValue(p[0]) * 16 + HexDigitValue(p[1])
  {
    assert p[..1] == [p[0]] && p[..1][..0] == [];
    assert HexValue(p[..1]) == HexDigitValue(p[0]);
  }

  // ---------------------------------------------------------------------------
  // updateBackgroundColor

  /** `pastelColors.length - 1`, the index of the last stop. */
  const LastIndex: int := |PastelColors| - 1

  /** `colorIndex`: x scaled onto the palette's index range. */
  function ColorIndex(x: real): (i: real)
    ensures 0.0 <= x <= 1.0 ==> 0.0 <= i <= LastIndex as real
  {
    x * LastIndex as real
  }

  /** `lowerIndex`: the stop at or below x, a valid palette index. */
  function LowerIndex(x: real): (i: int)
    requires 0.0 <= x <= 1.0
    ensures 0 <= i <= LastIndex
    ensures i as real <= ColorIndex(x) < i as real + 1.0
  {
    ColorIndex(x).Floor
  }

  /** `upperIndex`: the stop at or above x, a valid palette index, equal to
      the lower one or the next. */
  function UpperIndex(x: real): (j: int)
    requires 0.0 <= x <= 1.0
    ensures LowerIndex(x) <= j <= LowerIndex(x) + 1 && j <= LastIndex
    ensures ColorIndex(x) <= j as real < ColorIndex(x) + 1.0
  {
    Ceil(ColorIndex(x))
  }

  /** `blend`: how far x lies from the lower stop towards the upper one. */
  function Blend(x: real): (t: real)
    requires 0.0 <= x <= 1.0
    ensures 0.0 <= t < 1.0
    ensures t == 0.0 <==> LowerIndex(x) == UpperIndex(x)
  {
    ColorIndex(x) - LowerIndex(x) as real
  }

  /** One channel of `blendedColor`: Math.round(a * (1 - t) + b * t). */
  function Mix(a: int, b: int, t: real): (r: int)
    ensures r as real - 0.5 <= a as real * (1.0 - t) + b as real * t < r as real + 0.5
  {
    Round(a as real * (1.0 - t) + b as real * t)
  }

  /** The three channels mixed with the same weight; the result lies
      channel by channel between the two colours. */
  function MixColor(c1: Rgb, c2: Rgb, t: real): (c: Rgb)
    requires 0.0 <= t <= 1.0
    ensures Between(c1, c2, c)
  {
    MixBetween(c1.r, c2.r, t);
    MixBetween(c1.g, c2.g, t);
    MixBetween(c1.b, c2.b, t);
    Rgb(Mix(c1.r, c2.r, t), Mix(c1.g, c2.g, t), Mix(c1.b, c2.b, t))
  }

  /** A rounded convex combination of two integers lies between them. */
  lemma MixBetween(a: int, b: int, t: real)
    requires 0.0 <= t <= 1.0
    ensures Min(a, b) <= Mix(a, b, t) <= Max(a, b)
  {
    var v := a as real * (1.0 - t) + b as real * t;
    assert Mix(a, b, t) == Round(v);
    var lo, hi := Min(a, b), Max(a, b);
    ConvexBetween(a as real, b as real, t, v);
    assert lo as real <= v <= hi as real;
    RoundMonotone(lo as real, v);
    RoundMonotone(v, hi as real);
    RoundOfInteger(lo);
    RoundOfInteger(hi);
  }

  /** A convex combination of two reals lies between them. */
  lemma ConvexBetween(a: real, b: real, t: real, v: real)
    requires 0.0 <= t <= 1.0
    requires v == a * (1.0 - t) + b * t
    ensures a <= b ==> a <= v <= b
    ensures b <= a ==> b <= v <= a
  {
    assert v == a + (b - a) * t;
    assert v == b - (b - a) * (1.0 - t);
    NonNegativeProduct(if a <= b then b - a else a - b, t);
    NonNegativeProduct(if a <= b then b - a else a - b, 1.0 - t);
  }

  lemma NonNegativeProduct(x: real, y: real)
    requires x >= 0.0 && y >= 0.0
    ensures x * y >= 0.0
  {
  }

  /** Blending at t = 0 gives the first colour, at t = 1 the second. */
  lemma MixEnds(a: int, b: int)
    ensures Mix(a, b, 0.0) == a && Mix(a, b, 1.0) == b
  {
    RoundOfInteger(a);
    RoundOfInteger(b);
  }

  /** As t grows the channel moves monotonically from a towards b. */
  lemma MixMonotone(a: int, b: int, t1: real, t2: real)
    requires 0.0 <= t1 <= t2 <= 1.0
    ensures a <= b ==> Mix(a, b, t1) <= Mix(a, b, t2)
    ensures b <= a ==> Mix(a, b, t2) <= Mix(a, b, t1)
  {
    var v1 := a as real * (1.0 - t1) + b as real * t1;
    var v2 := a as real * (1.0 - t2) + b as real * t2;
    assert v2 - v1 == (b - a) as real * (t2 - t1);
    if a <= b {
      assert v1 <= v2;
      RoundMonotone(v1, v2);
    }
    if b <= a {
      assert v2 <= v1;
      RoundMonotone(v2, v1);
    }
  }

  /** `blendedColor`: the two neighbouring stops mixed channel by channel;
      each channel lies between the stops' channels, so it is a byte. */
  function BlendedColor(x: real): (c: Rgb)
    requires 0.0 <= x <= 1.0
    ensures Between(Stop(LowerIndex(x)), Stop(UpperIndex(x)), c)
    ensures IsByteColor(c)
  {
    var color1 := Stop(LowerIndex(x));
    var color2 := Stop(UpperIndex(x));
    MixColor(color1, color2, Blend(x))
  }

  /** The template literal `rgb(${r}, ${g}, ${b})`. */
  function RgbString(c: Rgb): (s: string)
    ensures |s| >= 4 && s[..4] == "rgb("
  {
    RgbText(DecimalString(c.r), DecimalString(c.g), DecimalString(c.b))
  }

  /** The longest prefix of s made of characters `${i}` can print. */
  function NumberPrefix(s: string): (p: string)
    ensures |p| <= |s| && p == s[..|p|]
    ensures IsNumberText(p)
    ensures |p| == |s| || !IsNumberChar(s[|p|])
  {
    if s != [] && IsNumberChar(s[0]) then [s[0]] + NumberPrefix(s[1..]) else []
  }

  /** A printed number followed by a separator is read back up to the
      separator. */
  lemma {:induction false} NumberPrefixOfRun(a: string, x: string)
    requires IsNumberText(a)
    requires x == [] || !IsNumberChar(x[0])
    ensures NumberPrefix(a + x) == a
  {
    if a != [] {
      assert (a + x)[1..] == a[1..] + x;
      NumberPrefixOfRun(a[1..], x);
    }
  }

  /** Splitting `${n}` + sep + more at the first separator gives n's text and
      the rest back. */
  lemma SplitNumber(a: string, x: string, b: string, y: string)
    requires IsNumberText(a)
    requires IsNumberText(b)
    requires x != [] && !IsNumberChar(x[0]) && y != [] && !IsNumberChar(y[0])
    requires a + x == b + y
    ensures a == b && x == y
  {
    NumberPrefixOfRun(a, x);
    NumberPrefixOfRun(b, y);
    assert x == (a + x)[|a|..];
    assert y == (b + y)[|b|..];
  }

  /** The text of the template literal, from the three channels' texts. */
  function RgbText(r: string, g: string, b: string): string {
    "rgb(" + r + ", " + g + ", " + b + ")"
  }

  /** The same text, grouped from the right, the way it is read back. */
  lemma RgbTextFromRight(r: string, g: string, b: string)
    ensures RgbText(r, g, b) == "rgb(" + (r + (", " + (g + (", " + (b + ")")))))
  {
  }

  /** Equal texts with a common prefix are equal after it. */
  lemma DropPrefix(p: string, x: string, y: string)
    requires p + x == p + y
    ensures x == y
  {
    assert x == (p + x)[|p|..];
    assert y == (p + y)[|p|..];
  }

  /** Three printed numbers are read back from the template's text. */
  lemma RgbTextInjective(r1: string, g1: string, b1: string, r2: string, g2: string, b2: string)
    requires IsNumberText(r1) && IsNumberText(g1) && IsNumberText(b1)
    requires IsNumberText(r2) && IsNumberText(g2) && IsNumberText(b2)
    requires RgbText(r1, g1, b1) == RgbText(r2, g2, b2)
    ensures r1 == r2 && g1 == g2 && b1 == b2
  {
    var tail1, tail2 := ", " + (b1 + ")"), ", " + (b2 + ")");
    var mid1, mid2 := ", " + (g1 + tail1), ", " + (g2 + tail2);
    RgbTextFromRight(r1, g1, b1);
    RgbTextFromRight(r2, g2, b2);
    DropPrefix("rgb(", r1 + mid1, r2 + mid2);
    SplitNumber(r1, mid1, r2, mid2);
    DropPrefix(", ", g1 + tail1, g2 + tail2);
    SplitNumber(g1, tail1, g2, tail2);
    DropPrefix(", ", b1 + ")", b2 + ")");
    SplitNumber(b1, ")", b2, ")");
  }

  /** Different colours give different `rgb(...)` texts, so the text
      determines the colour. */
  lemma RgbStringInjective(c1: Rgb, c2: Rgb)
    requires RgbString(c1) == RgbString(c2)
    ensures c1 == c2
  {
    var r1, g1, b1 := DecimalString(c1.r), DecimalString(c1.g), DecimalString(c1.b);
    var r2, g2, b2 := DecimalString(c2.r), DecimalString(c2.g), DecimalString(c2.b);
    RgbTextInjective(r1, g1, b1, r2, g2, b2);
    DecimalStringInjective(c1.r, c2.r);
    DecimalStringInjective(c1.g, c2.g);
    DecimalStringInjective(c1.b, c2.b);
  }

  /** The one colour whose `rgb(...)` text is that of c is c. */
  lemma RgbStringDeterminesColor(c: Rgb)
    ensures forall d :: RgbString(d) == RgbString(c) ==> d == c
  {
    forall d | RgbString(d) == RgbString(c) ensures d == c {
      RgbStringInjective(d, c);
    }
  }

  /** updateBackgroundColor: the CSS colour for position x. */
  function UpdateBackgroundColor(x: real): (s: string)
    requires 0.0 <= x <= 1.0
    ensures |s| >= 4 && s[..4] == "rgb("
  {
    RgbString(BlendedColor(x))
  }

  /** At x = k / 5 the blend is 0 and the colour is exactly stop k. */
  lemma StopIsPaletteEntry(k: int)
    requires 0 <= k <= LastIndex
    ensures BlendedColor(k as real / LastIndex as real) == Stop(k)
  {
    var x := k as real / LastIndex as real;
    assert ColorIndex(x) == k as real;
    assert LowerIndex(x) == k && UpperIndex(x) == k && Blend(x) == 0.0;
    var c := Stop(k);
    MixEnds(c.r, c.r);
    MixEnds(c.g, c.g);
    MixEnds(c.b, c.b);
  }

  /** At x = k / 5 the CSS text is that of stop k. */
  lemma StopText(k: int)
    requires 0 <= k <= LastIndex
    ensures UpdateBackgroundColor(k as real / LastIndex as real) == RgbString(Stop(k))
  {
    StopIsPaletteEntry(k);
  }

  /** x = 0 gives "rgb(176, 224, 230)". */
  lemma FirstEndpoint()
    ensures UpdateBackgroundColor(0.0) == "rgb(176, 224, 230)"
  {
    StopText(0);
    assert 0 as real / LastIndex as real == 0.0;
    FirstStop();
    FirstStopText();
  }

  lemma FirstStopText()
    ensures RgbString(Rgb(176, 224, 230)) == "rgb(176, 224, 230)"
  {
    assert NaturalString(176) == "176";
    assert NaturalString(224) == "224";
    assert NaturalString(230) == "230";
    RgbStringOfTexts(Rgb(176, 224, 230), "176", "224", "230");
  }

  /** x = 1 gives "rgb(224, 255, 255)". */
  lemma LastEndpoint()
    ensures UpdateBackgroundColor(1.0) == "rgb(224, 255, 255)"
  {
    StopText(LastIndex);
    assert LastIndex as real / LastIndex as real == 1.0;
    LastStop();
    LastStopText();
  }

  lemma LastStopText()
    ensures RgbString(Rgb(224, 255, 255)) == "rgb(224, 255, 255)"
  {
    assert NaturalString(224) == "224";
    assert NaturalString(255) == "255";
    RgbStringOfTexts(Rgb(224, 255, 255), "224", "255", "255");
  }

  lemma RgbStringOfTexts(c: Rgb, r: string, g: string, b: string)
    requires DecimalString(c.r) == r && DecimalString(c.g) == g && DecimalString(c.b) == b
    ensures RgbString(c) == "rgb(" + r + ", " + g + ", " + b + ")"
  {
  }

  /** Between stops k and k + 1, closed at both ends, the colour is the
      blend of those two stops by 5x - k. At a shared stop the two
      neighbouring segments agree, so the gradient is continuous. */
  lemma SegmentFormula(x: real, k: int, t: real)
    requires 0 <= k < LastIndex
    requires 0.0 <= x <= 1.0
    requires k as real <= ColorIndex(x) <= (k + 1) as real
    requires t == ColorIndex(x) - k as real
    ensures BlendedColor(x) == MixColor(Stop(k), Stop(k + 1), t)
  {
    var c1, c2 := Stop(k), Stop(k + 1);
    MixEnds(c1.r, c2.r);
    MixEnds(c1.g, c2.g);
    MixEnds(c1.b, c2.b);
    if ColorIndex(x) == (k + 1) as real {
      assert LowerIndex(x) == k + 1 == UpperIndex(x);
      MixEnds(c2.r, c2.r);
      MixEnds(c2.g, c2.g);
      MixEnds(c2.b, c2.b);
    } else if ColorIndex(x) == k as real {
      assert LowerIndex(x) == k == UpperIndex(x);
      MixEnds(c1.r, c1.r);
      MixEnds(c1.g, c1.g);
      MixEnds(c1.b, c1.b);
    } else {
      assert LowerIndex(x) == k && UpperIndex(x) == k + 1;
    }
  }

  /** Channel c moves from a towards b. */
  predicate Toward(a: int, b: int, c1: int, c2: int) {
    (a <= b ==> c1 <= c2) && (b <= a ==> c2 <= c1)
  }

  /** Every channel moves from lo towards hi between c1 and c2. */
  predicate TowardColor(lo: Rgb, hi: Rgb, c1: Rgb, c2: Rgb) {
    Toward(lo.r, hi.r, c1.r, c2.r) && Toward(lo.g, hi.g, c1.g, c2.g) && Toward(lo.b, hi.b, c1.b, c2.b)
  }

  /** Within one segment of the gradient each channel changes monotonically
      in the direction from the lower stop to the upper stop. */
  lemma SegmentMonotone(x: real, y: real, k: int)
    requires 0 <= k < LastIndex
    requires 0.0 <= x <= y <= 1.0
    requires k as real <= ColorIndex(x) && ColorIndex(y) <= (k + 1) as real
    ensures TowardColor(Stop(k), Stop(k + 1), BlendedColor(x), BlendedColor(y))
  {
    ColorIndexMonotone(x, y);
    var tx, ty := ColorIndex(x) - k as real, ColorIndex(y) - k as real;
    assert 0.0 <= tx <= ty <= 1.0;
    SegmentFormula(x, k, tx);
    SegmentFormula(y, k, ty);
    MixColorToward(Stop(k), Stop(k + 1), tx, ty);
  }

  lemma MixColorToward(lo: Rgb, hi: Rgb, tx: real, ty: real)
    requires 0.0 <= tx <= ty <= 1.0
    ensures TowardColor(lo, hi, MixColor(lo, hi, tx), MixColor(lo, hi, ty))
  {
    MixMonotone(lo.r, hi.r, tx, ty);
    MixMonotone(lo.g, hi.g, tx, ty);
    MixMonotone(lo.b, hi.b, tx, ty);
  }

  lemma ColorIndexMonotone(x: real, y: real)
    requires x <= y
    ensures ColorIndex(x) <= ColorIndex(y)
  {
    NonNegativeProduct(y - x, LastIndex as real);
  }

  /** The spectrum view decodes the "rgb(...)" text with hexToRgb; the text
      after the first character starts with 'g', so the result is always
      black. */
  lemma BackgroundReparsedIsBlack(x: real)
    requires 0.0 <= x <= 1.0
    ensures HexToRgb(UpdateBackgroundColor(x)) == Black
  {
    var s := UpdateBackgroundColor(x);
    assert s[1] == "rgb("[1] == 'g';
    NonNumericIsBlack(s);
  }

  /** The fill colour the spectrum view computes for an intensity, as
      written: the CSS text decoded again with hexToRgb. */
  function SpectrumFillAsWritten(intensity: real): Rgb
    requires 0.0 <= intensity <= 1.0
  {
    HexToRgb(UpdateBackgroundColor(intensity))
  }

  /** As written, the view paints black even at intensity 0, where the
      background colour is the first pastel stop. */
  lemma SpectrumFillAsWrittenIsWrong()
    ensures SpectrumFillAsWritten(0.0) == Black
    ensures SpectrumFillAsWritten(0.0) != Stop(0)
  {
    BackgroundReparsedIsBlack(0.0);
    FirstStop();
  }

  /** The evidently intended fill colour: the blended colour itself, whose
      CSS text is exactly what updateBackgroundColor returns. */
  function SpectrumFill(intensity: real): (c: Rgb)
    requires 0.0 <= intensity <= 1.0
    ensures IsByteColor(c) && RgbString(c) == UpdateBackgroundColor(intensity)
    ensures Between(Stop(LowerIndex(intensity)), Stop(UpperIndex(intensity)), c)
    ensures forall d :: RgbString(d) == UpdateBackgroundColor(intensity) ==> d == c
  {
    RgbStringDeterminesColor(BlendedColor(intensity));
    BlendedColor(intensity)
  }
}
