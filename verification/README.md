# lilColor in Dafny

A model of the core of lilColor, a small TypeScript colour library, together
with proofs about it. The library has three parts:

- two validated value objects, `RGB` (red, green, blue in `[0, 255]`, alpha in
  `[0, 1]`) and `HSL` (hue in `[0, 360]`, saturation and lightness in
  `[0, 1]`, alpha in `[0, 1]`), whose setters either store a value or throw an
  error naming the field;
- the two conversions `HSL.fromRGB` and `RGB.fromHSL` (with its `hue2rgb`
  helper). `RGB.fromHSL` follows the hsl-to-rgb algorithm of CSS Color
  Module Level 3, section 4.2.4, with two differences: hue is carried as a
  fraction of a turn, and it is wrapped into range once instead of being
  reduced modulo a turn. `HSL.fromRGB` is the usual inverse of that
  algorithm; the standard gives no formula for that direction;
- the `Color` facade, which owns one `RGB`. It has the constructors
  `fromRGB`, `fromHex` and `fromHSL`, the `hex` and `hsl` getters, `clone`,
  and `updateHSL`. Its hex codec is the `#rrggbb` / `#rrggbbaa` notation of
  CSS Color Module Level 4, section 5.2.

Modules follow the source files:

- `Values` (`values.dfy`) holds the shared vocabulary:
  - `Num = NaN | Fin(real)`: a JavaScript number as a setter receives it;
  - `Option` for an optional alpha (`None` is `undefined`);
  - `Result`: the value, or the field a thrown validation error names;
  - the range checks;
  - `Math.round` as `Floor(x + 1/2)`.
- `Rgb` (`rgb.dfy`) and `Hsl` (`hsl.dfy`) are the value objects: a datatype,
  a validating constructor and one setter per field.
- `Conversions` (`conversions.dfy`) holds both conversions. They share a
  module because `RGB.ts` and `HSL.ts` import each other.
  `ConversionProperties` (`conversion_properties.dfy`) holds the lemmas
  about them: examples, the grey case, the tie-break order, and the round
  trip.
- `HexText` (`hex_text.dfy`) holds the JavaScript string built-ins the codec
  uses: `parseInt(s, 16)`, `toString(16)`, `padStart` and `substring`.
- `ColorFacade` (`color.dfy`) is the `Color` class. `ColorProperties`
  (`color_properties.dfy`) holds the lemmas about its hex codec.

JavaScript numbers are idealised as exact reals. A thrown error becomes a
`Failure` naming the field. A failed setter leaves the caller's object as it
was, because the model returns a new value instead of mutating one.

Two facts of the code that a reader might not expect:

- Channels of an `RGB` need not be whole numbers. The setters check only the
  range (src/RGB.ts:25), so `0.5` is accepted.
- Hue is produced and consumed in turns, `[0, 1)`, but `HSL` validation
  still admits any hue up to 360. `ConversionProperties.DegreeHueGivesBlack`
  shows the consequence: hue 120 with full saturation and half lightness
  converts to black.
- For zero saturation, src/RGB.ts:82 builds `RGB(l, l, l, alpha)` and
  discards it; the returned colour comes from the general formula and is
  scaled to `[0, 255]`. The discarded grey holds the unscaled lightness, so
  returning it would give a near-black colour for every grey but black.
  `ConversionProperties.DiscardedGreyUnscaled` states the difference.

## Model

| member | source | states |
|---|---|---|
| Values.Check | src/RGB.ts:24-28 | a numeric setter accepts exactly the non-NaN values in `[lo, hi]`, stores them unchanged, and otherwise fails naming its field |
| Values.CheckAlpha | src/RGB.ts:54-62 | an omitted alpha becomes 1; a given alpha is accepted exactly when it is in `[0, 1]`, else the error names alpha |
| Values.Round | src/RGB.ts:70-79 | `Math.round` returns the integer within one half of its argument |
| Rgb.New | src/RGB.ts:11-16 | the `RGB` constructor succeeds iff r, g, b are in `[0, 255]` and alpha is omitted or in `[0, 1]`; it stores the arguments (alpha 1 if omitted); the error names the first bad field in the order r, g, b, alpha |
| Rgb.SetR | src/RGB.ts:24-28 | the `r` setter stores exactly the values in `[0, 255]`, changes nothing else, keeps the invariant, and otherwise names `r` |
| Rgb.SetG | src/RGB.ts:34-38 | the same for `g` |
| Rgb.SetB | src/RGB.ts:44-48 | the same for `b` |
| Rgb.SetAlpha | src/RGB.ts:54-62 | the `alpha` setter resets to 1 on `undefined`, stores values in `[0, 1]`, and otherwise names alpha |
| Rgb.SettersAgreeWithConstructor | src/RGB.ts:11-48 | setting one channel of a valid object gives the same outcome as constructing from the new value and the other fields |
| Rgb.RedOutOfRange | src/RGB.ts:24-27 | a red channel of 256 is rejected, naming `r` |
| Hsl.New | src/HSL.ts:11-16 | the `HSL` constructor succeeds iff h is in `[0, 360]`, s and l are in `[0, 1]`, and alpha is omitted or in `[0, 1]`; the error names the first bad field in the order h, s, l, alpha |
| Hsl.SetH | src/HSL.ts:24-28 | the `h` setter stores exactly the values in `[0, 360]` and otherwise names `h` |
| Hsl.SetS | src/HSL.ts:34-38 | the `s` setter stores exactly the values in `[0, 1]` and otherwise names `s` |
| Hsl.SetL | src/HSL.ts:44-48 | the `l` setter stores exactly the values in `[0, 1]` and otherwise names `l` |
| Hsl.SetAlpha | src/HSL.ts:54-62 | the `alpha` setter resets to 1 on `undefined`, stores values in `[0, 1]`, and otherwise names alpha |
| Hsl.SettersAgreeWithConstructor | src/HSL.ts:11-48 | setting one of h, s, l on a valid object agrees with constructing from the new value and the other fields |
| Hsl.LightnessOutOfRange | src/HSL.ts:44-47 | a lightness of 1.5 is rejected, naming `l` |
| Conversions.Max3 | src/HSL.ts:73 | `Math.max` of three values is one of them and bounds all three from above |
| Conversions.Min3 | src/HSL.ts:74 | `Math.min` of three values is one of them and bounds all three from below |
| Conversions.Unit | src/HSL.ts:69-71 | dividing a channel by 255 maps `[0, 255]` onto `[0, 1]` and loses nothing |
| Conversions.Saturation | src/HSL.ts:84 | the saturation of a chromatic colour is in `(0, 1]` on both branches of the lightness test |
| Conversions.HueSixths | src/HSL.ts:86-96 | the hue switch, testing r, then g, then b against the maximum, yields a value in `[0, 6)` |
| Conversions.Hue | src/HSL.ts:86-98 | after division by 6 the hue is a fraction of a turn in `[0, 1)` |
| Conversions.HslFromRgb | src/HSL.ts:66-101 | `HSL.fromRGB` never throws for a valid `RGB`; hue is in `[0, 1)`; lightness is the midpoint of the largest and smallest channel over 255; saturation is 0 iff the channels are equal, and then hue is 0 and lightness is r/255; alpha is copied |
| Conversions.UpperQ | src/RGB.ts:84 | `q` is `l (1 + s)` below half lightness and `l + s - l s` otherwise; it is never below `l` for `l` in `[0, 1]` and `s >= 0`, and it equals `l` when `s` is 0 |
| Conversions.LowerP | src/RGB.ts:85 | for `l` and `s` in `[0, 1]`, `p` lies between 0 and the lightness, and a grey (`s` = 0) has `p` equal to the lightness |
| Conversions.LowerUpperBounds | src/RGB.ts:84-85 | for l and s in `[0, 1]`, `0 <= p <= q <= 1` |
| Conversions.Wrap | src/RGB.ts:72-73 | from `t >= -1` the wrap steps give a non-negative `t`, and they leave `t` in `[0, 1]` alone |
| Conversions.Profile | src/RGB.ts:74-77 | the four cases of the inner closure of `hue2rgb` on an already wrapped `t`: the rising edge `p + (q - p) 6t` below 1/6, `q` below 1/2, the falling edge `p + (q - p) (2/3 - t) 6` below 2/3, and `p` after that |
| Conversions.HueFraction | src/RGB.ts:71-78 | the inner closure of `hue2rgb`: the two wrap steps, then the four cases |
| Conversions.LerpBetween | src/RGB.ts:74-76 | each edge of the profile lies between `p` and `q`, in either order of the two |
| Conversions.ProfileBounds | src/RGB.ts:71-78 | for `t >= -1` the value of `hue2rgb` before rounding lies between `p` and `q` |
| Conversions.HueToRgb | src/RGB.ts:69-80 | `hue2rgb` returns a whole number in `[0, 255]` whenever `0 <= p <= q <= 1` and `t >= -1` |
| Conversions.GreyError | src/RGB.ts:82 | the error, if any, of the grey `RGB(l, l, l, alpha)` that the zero-saturation branch builds and discards; for a valid `HSL` there is none |
| Conversions.RgbFromHsl | src/RGB.ts:66-88 | `RGB.fromHSL` never throws for a valid `HSL`, not even through the grey built on line 82; the result has whole channels in `[0, 255]` and keeps alpha |
| ConversionProperties.PureRedToHsl | src/HSL.ts:76-100 | RGB(255, 0, 0) converts to HSL(0, 1, 0.5) |
| ConversionProperties.PureRedFromHsl | src/RGB.ts:84-87 | HSL(0, 1, 0.5) converts to RGB(255, 0, 0) |
| ConversionProperties.DegreeHueGivesBlack | src/RGB.ts:72-87 | a hue of 120 (degrees, which validation admits) converts to black, because hue is read in turns and wrapped only once |
| ConversionProperties.FlatProfile | src/RGB.ts:69-80 | when `p == q` the profile is constant |
| ConversionProperties.GreyFromHsl | src/RGB.ts:82-87 | for zero saturation the general formula gives three equal channels `round(255 l)`, a grey scaled to `[0, 255]` |
| ConversionProperties.DiscardedGreyUnscaled | src/RGB.ts:82-87 | the grey built and discarded on line 82 holds the unscaled `l` in every channel and validates; the returned red channel equals `l` only for black |
| ConversionProperties.HueTieBreakIrrelevant | src/HSL.ts:86-96 | when channels tie at the maximum, the green or blue formula gives the same hue as the earlier branch that the switch takes |
| ConversionProperties.UpperIsMax | src/RGB.ts:84 | `q` computed from `HSL.fromRGB`'s lightness and saturation is the largest normalised channel |
| ConversionProperties.ProfileRecoversChannels | src/RGB.ts:69-87 | for a chromatic colour the profile between the smallest and largest channel, read at `h + 1/3`, `h` and `h - 1/3`, returns r, g and b exactly |
| ConversionProperties.RoundTrip | src/index.ts:58-64 | `RGB.fromHSL(HSL.fromRGB(c))` is `c` for every valid `RGB` with whole channels |
| HexText.DigitValue | src/index.ts:31 | a hex digit in either case has a value below 16 |
| HexText.LowerDigit | src/index.ts:73 | the digit `toString(16)` writes is lower case and reads back as its value |
| HexText.ParseInt16 | src/index.ts:31-35 | `parseInt(s, 16)` on hex digits is NaN iff `s` is empty, and on two digits it is 16 times the first plus the second |
| HexText.ToString16 | src/index.ts:73 | `toString(16)` writes at least one lower-case digit with no leading zero; one digit iff the number is below 16, at most two below 256 |
| HexText.ParseToString16 | src/index.ts:73 | parsing what `toString(16)` wrote gives the number back |
| HexText.PadStart | src/index.ts:73 | `padStart` keeps the string as a suffix and fills in front up to the width |
| HexText.Substring | src/index.ts:31-35 | `substring` with in-range indices is the slice; indices past the end give the empty string |
| ColorFacade.FromRgb | src/index.ts:26-28 | `Color.fromRGB` succeeds exactly when the `RGB` constructor does, with the same fields, and otherwise names the same field |
| ColorFacade.AsNum | src/index.ts:31-36 | definition: a `parseInt` result as a JavaScript number, NaN when no digit was read; ColorFacade.ParsedSlice carries its property |
| ColorFacade.ParsedSlice | src/index.ts:31-36 | a slice of hex digits parsed by `parseInt(…, 16)` is NaN exactly when it is empty, and two digits give sixteen times the first plus the second |
| ColorFacade.HexSlices | src/index.ts:31-35 | on a well-formed hex string the four `substring` calls cut out the digit pairs, the last one empty for six digits |
| ColorFacade.FromHex | src/index.ts:30-40 | `fromHex` on `#` and six or eight hex digits never throws; r, g, b are the values of the first three pairs; alpha is 1 for six digits, otherwise the fourth pair over 255 |
| ColorFacade.ByteDigits | src/index.ts:73 | a byte written as two lower-case hex digits, which read back as the byte |
| ColorFacade.ToHex | src/index.ts:73 | `toHex` of a byte, `toString(16)` padded with `0` to two characters, equals `ByteDigits` of the byte: its high and its low nibble as lower-case digits |
| ColorFacade.JoinOpaque | src/index.ts:75 | `#` and three two-digit strings form a well-formed hex string whose pairs read back as those strings |
| ColorFacade.JoinTranslucent | src/index.ts:75-76 | the same with a fourth two-digit string appended |
| ColorFacade.EncodeOpaque | src/index.ts:75 | the six-digit template is `#` and three lower-case pairs, each reading back as its channel byte |
| ColorFacade.EncodeTranslucent | src/index.ts:75-76 | the eight-digit form adds a fourth lower-case pair that reads back as the alpha byte |
| ColorFacade.EncodeBytes | src/index.ts:75-76 | the string is `#` and three lower-case pairs, plus a fourth only when an alpha byte is given, each pair reading back as its byte |
| ColorFacade.Hex | src/index.ts:70-79 | the `hex` getter writes `#` and the three channels as lower-case pairs, and a fourth pair `round(255 alpha)` iff alpha is below 1 |
| ColorFacade.OpaqueToHex | src/index.ts:75 | the three-byte encoder writes `#` followed by `toHex` of each channel |
| ColorFacade.TranslucentToHex | src/index.ts:75-76 | the four-byte encoder writes `#` followed by `toHex` of each channel and of the alpha byte |
| ColorFacade.HexWritesToHexOpaque | src/index.ts:70-79 | for an opaque colour with whole channels, `hex` is `#` followed by `toHex` of r, g and b |
| ColorFacade.HexTranslucentEncodes | src/index.ts:70-79 | for a translucent colour with whole channels, `hex` is the four-byte encoding with alpha byte `round(255 alpha)`, which is below 256 |
| ColorFacade.HexWritesToHexTranslucent | src/index.ts:70-79 | for a translucent colour with whole channels, `hex` is `#` followed by `toHex` of r, g, b and `round(255 alpha)` |
| ColorFacade.FromHsl | src/index.ts:42-44 | `Color.fromHSL` fails exactly when `HSL` validation fails, naming the same field; otherwise the colour has whole channels and the given alpha |
| ColorFacade.HslView | src/index.ts:66-68 | the `hsl` getter always yields a valid `HSL` with hue in `[0, 1)` and the colour's alpha |
| ColorFacade.Clone | src/index.ts:48-50 | `clone` never throws and returns a colour equal to the original |
| ColorFacade.UpdateHslUnchanged | src/index.ts:58-64 | `updateHSL` with a callback that changes nothing keeps the colour valid with whole channels and alpha unchanged, and leaves a colour that already had whole channels as it was |
| ColorProperties.HexOfBlack | src/index.ts:70-79 | opaque black is written `#000000` |
| ColorProperties.HexOfWhite | src/index.ts:70-79 | opaque white is written `#ffffff` |
| ColorProperties.UpperCaseWhite | src/index.ts:30-40 | upper-case digits are read too: `#FFFFFF` is opaque white |
| ColorProperties.TranslucentFromPairs | src/index.ts:30-39 | an eight-digit string parses to the colour its four pairs denote, alpha being the last pair over 255 |
| ColorProperties.HalfTransparentRed | src/index.ts:35-39 | `#ff000080` parses to red with alpha 128/255 |
| ColorProperties.HalfTransparentRedWrittenBack | src/index.ts:76 | that colour is written back as `#ff000080` |
| ColorProperties.HexRoundTrip | src/index.ts:30-79 | `fromHex(c.hex)` gives back whole channels exactly; alpha 1 comes back as 1 and any other alpha as `round(255 alpha) / 255` |
| ColorProperties.HexRoundTripChannels | src/index.ts:30-79 | the channel part of that round trip |
| ColorProperties.HexRoundTripAlpha | src/index.ts:30-79 | the alpha part of that round trip |
| ColorProperties.HexRoundTripOpaque | src/index.ts:30-79 | an opaque colour with whole channels survives the round trip unchanged |
| ColorProperties.ParseThenHex | src/index.ts:30-79 | parsing a lower-case hex string and writing it back gives the same string, except that an alpha pair `ff` is dropped |
| ColorProperties.AlphaByte | src/index.ts:35-37 | the parsed alpha is below 1 iff the alpha pair is not `ff`, and then `round(255 alpha)` is that pair's byte |
| ColorProperties.ParseThenHexDropsOpaqueAlpha | src/index.ts:76 | a `#rrggbbff` string comes back as `#rrggbb` |
| ColorProperties.TranslucentHexRoundTrip | src/index.ts:35-37 | a lower-case nine-character string whose alpha pair is not `ff` comes back unchanged |

## Left out

- IEEE-754 doubles. Numbers are exact reals: there is no rounding error, no `-0`, and no infinities. An infinite channel is therefore not representable; the library would reject it by range anyway.
- `RGB.toString` and `HSL.toString`. They are presentation only and depend on JavaScript's decimal formatting of numbers.
- Exact error-message text. Only the field an error names is modelled.
- `Color.updateRGB`, the `rgb` getter and setter, and callbacks that change anything. These are object aliasing and arbitrary caller code. Only `updateHSL` with a callback that does nothing is modelled.
- ColorFacade.Hex: requires whole-number channels. For fractional channels `toString(16)` writes fractional hex digits, which the model does not cover.
- ColorFacade.FromHex: requires `#` followed by six or eight hex digits. `parseInt`'s prefix reading of malformed input (`"1g"` reads as 1) is not modelled.
- HexText.ParseInt16 and HexText.ToString16: these cover only the inputs the codec gives them. That means strings of hex digits and non-negative integers; signs, prefixes and fractions are not covered.
- Conversions.ProfileBounds: requires `t >= -1`. The conversion only reads `h + 1/3`, `h` and `h - 1/3` for a hue `h >= 0`.
- ConversionProperties.HueTieBreakIrrelevant and ConversionProperties.RoundTrip: these hold over exact reals. With doubles the equalities may be off by rounding error, which the model does not measure.
