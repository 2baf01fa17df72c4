# Colour utility of the ngen noise toy, in Dafny

ngen is a browser toy that plays generated noise and draws the spectrum of
that noise. Its only deterministic logic is the colour utility
`src/util/colors.js`, which has two functions:

- `hexToRgb(hex)` drops the first character of a colour string and reads
  the rest with `parseInt(_, 16)`. It then extracts three 8-bit channels
  with `>> 16`, `>> 8` and `& 255`.
- `updateBackgroundColor(x)` scales `x` in [0, 1] onto the indices of a
  fixed palette of six pastel colours. It takes the stops at the floor and
  at the ceiling of that index and blends them channel by channel by the
  fractional part. Each channel is rounded with `Math.round`, and the
  result is returned as the CSS text `rgb(r, g, b)`.

The model has two modules.

- `JsBuiltins` (`js_builtins.dfy`) models the JavaScript built-ins these
  functions rely on, on exact integers and reals:
  - `parseInt(s, 16)`: skip leading whitespace and line terminators, take
    an optional sign, then an optional `0x`/`0X` prefix, then the longest
    run of hex digits; NaN when that run is empty.
  - ToInt32, the signed 32-bit conversion behind the bitwise operators, with
    NaN going to 0.
  - `>>` and `& 255`.
  - `Math.ceil` and `Math.round` (the nearest integer, a tie going up).
    `Math.floor` is Dafny's `.Floor`.
  - The decimal text a template literal prints for an integer.
- `Colors` (`colors.dfy`) models:
  - the palette and `hexToRgb`;
  - index selection, the blend and the CSS text of `updateBackgroundColor`;
  - the one caller that feeds the CSS text back into `hexToRgb`
    (`src/Pink.jsx:44`).

`HexColor`, the `#rrggbb` text of a colour, does not exist in the source. It
is written in the format of the palette literals. It is the inverse of
`HexToRgb` in both round-trip lemmas.

## Model

| member | source | states |
|---|---|---|
| JsBuiltins.ToInt32 | src/util/colors.js:29-31 | The operand of `>>` and `&` becomes a signed 32-bit integer congruent to it modulo 2^32, and NaN becomes 0 |
| JsBuiltins.ToInt32OfInt32 | src/util/colors.js:29-31 | A value already in the signed 32-bit range is left unchanged by ToInt32 |
| JsBuiltins.ShiftRight | src/util/colors.js:29-30 | `a >> n` is a signed 32-bit integer |
| JsBuiltins.ShiftRightBy | src/util/colors.js:29-30 | For a count below 32, `a >> n` is ToInt32(a) divided by 2^n, rounded down |
| JsBuiltins.Pow2Values | src/util/colors.js:29-30 | The shift amounts 8 and 16 are divisions by 256 and 65536 |
| JsBuiltins.And255 | src/util/colors.js:29-31 | `a & 255` is a byte congruent to ToInt32(a) modulo 256 |
| JsBuiltins.Ceil | src/util/colors.js:12 | `Math.ceil(v)` is the least integer not below v |
| JsBuiltins.Round | src/util/colors.js:18-20 | `Math.round(v)` is within one half of v: above it by at most 0.5, below it by less than 0.5 |
| JsBuiltins.RoundMonotone | src/util/colors.js:18-20 | Rounding preserves order |
| JsBuiltins.RoundOfInteger | src/util/colors.js:18-20 | Rounding an integer gives that integer |
| JsBuiltins.HexDigitValue | src/util/colors.js:27 | A hex digit of either case is worth less than 16 |
| JsBuiltins.HexValueBound | src/util/colors.js:27 | k hex digits are worth less than 16^k |
| JsBuiltins.HexValueConcat | src/util/colors.js:27 | The value of a concatenation of digit strings is the left part's value shifted by the right part's length, plus the right part's value |
| JsBuiltins.TrimStartDropsWhiteSpace | src/util/colors.js:27 | parseInt drops only leading whitespace, and what is left does not start with whitespace |
| JsBuiltins.LeadingHexDigitsIsLongestRun | src/util/colors.js:27 | The digits parseInt reads are a prefix, all hex digits, and cannot be extended |
| JsBuiltins.LeadingHexDigitsOfRun | src/util/colors.js:27 | The run of digits read stops exactly where the hex digits stop |
| JsBuiltins.HexValue | src/util/colors.js:27 | The value of a digit string, most significant first; its bound and concatenation laws are HexValueBound and HexValueConcat |
| JsBuiltins.TrimStart | src/util/colors.js:27 | The whitespace skipping of parseInt; what it keeps and drops is stated by TrimStartDropsWhiteSpace |
| JsBuiltins.LeadingHexDigits | src/util/colors.js:27 | The digits parseInt reads; LeadingHexDigitsIsLongestRun states that they are the longest run of hex digits |
| JsBuiltins.ParseInt16 | src/util/colors.js:27 | `parseInt(s, 16)` gives a number only when the text, past its whitespace, starts with a sign or a hex digit, and a negative number only after "-" |
| JsBuiltins.ParseInt16HexPrefix | src/util/colors.js:27 | After "0x" or "0X", a run of hex digits parses to its value |
| JsBuiltins.ParseInt16PrefixWithoutDigits | src/util/colors.js:27 | "-", "+", "0x" or "0X" with no hex digit after it gives NaN |
| JsBuiltins.ParseInt16OfWhiteSpace | src/util/colors.js:27 | The empty text, and text of whitespace only, give NaN |
| JsBuiltins.ParseInt16OfDigits | src/util/colors.js:27 | A run of hex digits followed by a non-digit parses to the run's value; the one exception, a lone "0" followed by "x" or "X", is excluded |
| JsBuiltins.ParseInt16OfHexDigits | src/util/colors.js:27 | A string of hex digits parses to its value |
| JsBuiltins.ParseInt16Signed | src/util/colors.js:27 | A leading "-" negates the parsed value, and a leading "+" leaves it unchanged |
| JsBuiltins.ParseInt16SkipsWhiteSpace | src/util/colors.js:27 | Whitespace in front of the number does not change the result |
| JsBuiltins.ParseInt16NotNumeric | src/util/colors.js:27 | Text starting with something other than whitespace, a sign or a hex digit gives NaN |
| JsBuiltins.DigitChar | src/util/colors.js:23 | A decimal digit character has the digit's value |
| JsBuiltins.NaturalString | src/util/colors.js:23 | The digits printed for a natural number; NaturalStringRoundTrip states that they read back as the number |
| JsBuiltins.NaturalStringRoundTrip | src/util/colors.js:23 | The text printed for a natural number is non-empty decimal digits, with no leading zero, and reads back as the number |
| JsBuiltins.DecimalString | src/util/colors.js:23 | The printed text of an integer is made of "-" and decimal digits, and starts with "-" exactly when the integer is negative |
| JsBuiltins.DecimalStringInjective | src/util/colors.js:23 | Different integers print as different texts |
| Colors.AfterFirst | src/util/colors.js:27 | `hex.slice(1)` is one character shorter, or empty for empty input |
| Colors.HexToRgb | src/util/colors.js:26-33 | Every channel is in 0..255, whatever the input |
| Colors.Channels | src/util/colors.js:28-32 | The three masked channels are bytes |
| Colors.HexToRgbIgnoresFirst | src/util/colors.js:27 | The first character is never looked at |
| Colors.HexToRgbIsLow24Bits | src/util/colors.js:27-32 | r·65536 + g·256 + b is the low 24 bits of the parsed number, with NaN counting as 0 |
| Colors.SixDigitHex | src/util/colors.js:26-33 | For a first character and six hex digits, the channels are the values of digit pairs 1-2, 3-4 and 5-6 |
| Colors.SixDigitHexPacks | src/util/colors.js:27-32 | For six hex digits, r·65536 + g·256 + b equals the parsed value |
| Colors.SixDigitValue | src/util/colors.js:27 | Six hex digits are worth their three digit pairs, most significant first, and each pair is a byte |
| Colors.ChannelsOfValue | src/util/colors.js:28-32 | Shifting and masking r·65536 + g·256 + b recovers r, g and b |
| Colors.ShiftRight16 | src/util/colors.js:29 | `>> 16` divides ToInt32 of the operand by 65536, rounding down |
| Colors.ShiftRight8 | src/util/colors.js:30 | `>> 8` divides ToInt32 of the operand by 256, rounding down |
| Colors.And255OfInt32 | src/util/colors.js:29-31 | On a signed 32-bit integer, `& 255` is the remainder modulo 256 |
| Colors.NonNumericIsBlack | src/util/colors.js:26-33 | When the second character is neither a hex digit, nor whitespace, nor a sign, the colour is (0, 0, 0) |
| Colors.ChannelsOfZero | src/util/colors.js:28-32 | A number that ToInt32 sends to 0, NaN among them, gives (0, 0, 0) |
| Colors.NegativeByte | src/util/colors.js:26-33 | "#-" and two hex digits worth v > 0 decode to (255, 255, 256 - v) |
| Colors.ChannelsOfNegativeByte | src/util/colors.js:28-32 | The bit extraction of -v, for a byte v > 0, is (255, 255, 256 - v) |
| Colors.HexDigitChar | src/util/colors.js:3-8 | The lower-case digit written for a value below 16 is a hex digit with that value |
| Colors.ByteHex | src/util/colors.js:3-8 | The two digits written for a byte are hex digits whose value is the byte |
| Colors.HexColor | src/util/colors.js:3-8 | The `#rrggbb` text of a colour has seven characters and starts with "#" |
| Colors.HexColorRoundTrip | src/util/colors.js:26-33 | hexToRgb of the `#rrggbb` text of a byte colour gives the colour back |
| Colors.ByteHexOfPair | src/util/colors.js:27 | Two lower-case hex digits are the text written for their own value |
| Colors.HexToRgbRoundTrip | src/util/colors.js:26-33 | For "#" and six lower-case hex digits, writing the decoded colour back gives the input |
| Colors.PairValue | src/util/colors.js:27 | Two hex digits are worth 16 times the first plus the second |
| Colors.DecodesTo | src/util/colors.js:26-33 | Seven characters whose digit pairs have the values of a colour decode to that colour |
| Colors.Stop | src/util/colors.js:15-16 | `hexToRgb(pastelColors[k])` is a byte colour for every palette index |
| Colors.FirstStop | src/util/colors.js:3 | "#b0e0e6" decodes to (176, 224, 230) |
| Colors.LastStop | src/util/colors.js:8 | "#e0ffff" decodes to (224, 255, 255) |
| Colors.PastelColors | src/util/colors.js:2-9 | The six palette literals, in order |
| Colors.LastIndex | src/util/colors.js:10 | `pastelColors.length - 1`, the index of the last stop |
| Colors.ColorIndex | src/util/colors.js:10 | For x in [0, 1], `colorIndex` lies in [0, 5] |
| Colors.LowerIndex | src/util/colors.js:10-11 | `lowerIndex` is in 0..5 and is the floor of `colorIndex` |
| Colors.UpperIndex | src/util/colors.js:10-12 | `upperIndex` is in 0..5 and is the ceiling of `colorIndex`; it is either `lowerIndex` or `lowerIndex + 1` |
| Colors.Blend | src/util/colors.js:10-13 | `blend` is in [0, 1), and it is 0 exactly when the two indices coincide |
| Colors.ColorIndexMonotone | src/util/colors.js:10 | `colorIndex` grows with x |
| Colors.Mix | src/util/colors.js:18-20 | A channel is the weighted sum of the two stops' channels, rounded to the nearest integer with a tie going up |
| Colors.MixColor | src/util/colors.js:17-21 | For a blend in [0, 1], the weight every caller passes, each channel of the mixed colour lies between the two colours' channels |
| Colors.MixBetween | src/util/colors.js:18-20 | A rounded convex combination of two integers lies between them |
| Colors.MixEnds | src/util/colors.js:18-20 | Blending by 0 gives the first channel value, and blending by 1 gives the second |
| Colors.MixMonotone | src/util/colors.js:18-20 | As the blend grows, a channel moves monotonically from the first value towards the second |
| Colors.MixColorToward | src/util/colors.js:17-21 | All three channels move from the first colour towards the second as the blend grows |
| Colors.BlendedColor | src/util/colors.js:15-21 | Each blended channel lies between the matching channels of the two neighbouring stops, so it is a byte |
| Colors.RgbString | src/util/colors.js:23 | The CSS text starts with "rgb(" |
| Colors.RgbText | src/util/colors.js:23 | The template literal `rgb(${r}, ${g}, ${b})` on the channels' texts; RgbTextInjective states that the three texts can be read back from it |
| Colors.NumberPrefix | src/util/colors.js:23 | Reading a printed number back stops at the first character that is not "-" or a digit |
| Colors.NumberPrefixOfRun | src/util/colors.js:23 | A printed number followed by a separator is read back exactly |
| Colors.SplitNumber | src/util/colors.js:23 | A text made of a printed number and a separator splits in one way only |
| Colors.RgbTextInjective | src/util/colors.js:23 | The three channel texts are recovered from `rgb(r, g, b)` |
| Colors.RgbStringInjective | src/util/colors.js:23 | Different colours give different CSS texts |
| Colors.RgbStringDeterminesColor | src/util/colors.js:23 | The only colour whose CSS text is that of c is c |
| Colors.UpdateBackgroundColor | src/util/colors.js:1-24 | The result for any x in [0, 1] starts with "rgb(" |
| Colors.StopIsPaletteEntry | src/util/colors.js:10-21 | At x = k/5 the blended colour is exactly stop k |
| Colors.StopText | src/util/colors.js:10-23 | At x = k/5 the CSS text is the text of stop k |
| Colors.FirstStopText | src/util/colors.js:23 | The first stop prints as "rgb(176, 224, 230)" |
| Colors.LastStopText | src/util/colors.js:23 | The last stop prints as "rgb(224, 255, 255)" |
| Colors.FirstEndpoint | src/util/colors.js:1-24 | x = 0 gives "rgb(176, 224, 230)" |
| Colors.LastEndpoint | src/util/colors.js:1-24 | x = 1 gives "rgb(224, 255, 255)" |
| Colors.SegmentFormula | src/util/colors.js:10-21 | On [k/5, (k+1)/5], ends included, the colour is stops k and k+1 blended by 5x - k, so neighbouring segments agree at their shared stop |
| Colors.SegmentMonotone | src/util/colors.js:10-21 | Within one segment, each channel moves monotonically from the lower stop towards the upper stop as x grows |
| Colors.BackgroundReparsedIsBlack | src/Pink.jsx:44 | Decoding the CSS text with hexToRgb gives (0, 0, 0) for every x |
| Colors.SpectrumFillAsWritten | src/Pink.jsx:44 | `hexToRgb(updateBackgroundColor(intensity))`, the fill as written; BackgroundReparsedIsBlack and SpectrumFillAsWrittenIsWrong state what it gives |
| Colors.SpectrumFillAsWrittenIsWrong | src/Pink.jsx:42-46 | As written, the spectrum fill at intensity 0 is black, not the first stop |
| Colors.SpectrumFill | src/Pink.jsx:42-46 | The intended fill is a byte colour between the neighbouring stops, and it is the only colour whose CSS text is what updateBackgroundColor returns |

## Left out

- Noise synthesis, the Web Audio graph, canvas drawing, mouse and resize handling, and the React components (`src/hooks/useNoise.js`, `src/App.jsx`, `src/Pink.jsx` apart from lines 42-46, `src/Orbit.jsx`, `src/main.jsx`). These are I/O and floating-point signal processing driven by `Math.random`. They have no exactly statable result.
- IEEE-754 doubles: the model computes the blend on exact reals and the parsed value as an exact integer.
  - The rounding of `color1.r * (1 - blend) + color2.r * blend` to a double is not modelled. Near a .5 tie, the rounded channel can differ by one.
  - `parseInt` loses precision above 2^53, that is, above 13 hex digits. A very long digit string gives Infinity, which ToInt32 sends to 0. The model keeps the exact value.
- LowerIndex, UpperIndex, Blend, BlendedColor, UpdateBackgroundColor: these require 0 ≤ x ≤ 1.
  - Outside that range the source reads past the palette and `hexToRgb(undefined)` throws a TypeError.
  - A NaN argument behaves the same way.
  - There are three callers, and each passes a value in that range in normal use. Two pass the mouse's horizontal position as a fraction of the canvas width (`src/App.jsx:106` and `:113`, `src/Pink.jsx:146` and `:151`); it lies in [0, 1] while the mouse is over the canvas. The third passes the analyser's peak byte divided by 255 (`src/Pink.jsx:43-44`).
- DecimalString: JavaScript prints integers of magnitude 10^21 or more in exponent notation. This is not modelled, because every printed value here is a byte.
- JavaScript strings are sequences of UTF-16 code units. The model uses Dafny characters. The whitespace set is the ECMAScript WhiteSpace and LineTerminator set.
- HexColor, ByteHex and HexDigitChar are not source functions. The code has no `rgbToHex`. HexColor supplies the `#rrggbb` encoding, in the format of the palette literals, so that both round trips with `hexToRgb` can be stated.
- Only the first and the last stop are decoded to concrete channel values (FirstStop, LastStop). The middle four decode through DecodesTo or SixDigitHex in the same way.
- HexToRgbIgnoresFirst, AfterFirst: `hex.slice(1)` drops one UTF-16 code unit, and the model drops one Dafny character. For a first character outside the Basic Multilingual Plane, JavaScript keeps a lone low surrogate, parseInt gives NaN and the colour is black, while the model reads the rest: "😀ff" gives (0, 0, 0) in JavaScript and (0, 0, 255) in the model.
- NonNumericIsBlack gives black only when the second character is neither a hex digit, nor whitespace, nor a sign. parseInt skips whitespace and honours a sign; NegativeByte shows what a "-" does.
- ParseInt16: its result is covered by the lemmas beside it. They cover runs of digits (ParseInt16OfDigits), signs (ParseInt16Signed), the "0x" prefix (ParseInt16HexPrefix), a sign or prefix with no digits (ParseInt16PrefixWithoutDigits), empty or blank text (ParseInt16OfWhiteSpace), leading whitespace (ParseInt16SkipsWhiteSpace) and other text (ParseInt16NotNumeric). A sign followed by "0x" ("-0x1f") is handled by the function, with no lemma of its own.

## Findings

| source | as written | input that shows it | evidently intended | confidence | as-written member | corrected member |
|---|---|---|---|---|---|---|
| src/Pink.jsx:44 | The spectrum view passes the CSS text `rgb(r, g, b)` from updateBackgroundColor to hexToRgb. The text after its first character starts with "g", parseInt gives NaN, and every channel is 0. The fill is black, at alpha `intensity`, for every input. | intensity 0: the fill is (0, 0, 0), not (176, 224, 230) | fill with the blended colour that the CSS text describes | high (not executed) | Colors.SpectrumFillAsWrittenIsWrong | Colors.SpectrumFill |
