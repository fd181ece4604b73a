/** The `Color` facade: it owns one `RGB`, the canonical state, and offers
    conversion constructors (`fromRGB`, `fromHex`, `fromHSL`), the computed
    `hsl` and `hex` views, `clone`, and `updateHSL`. The hex codec is the
    `#rrggbb` / `#rrggbbaa` notation of CSS Color Module Level 4
    (section 5.2). */
module ColorFacade {
  import opened Values
  import Rgb
  import Hsl
  import opened Conversions
  import opened HexText
  import ConversionProperties

  datatype Color = Color(rgb: Rgb.RGB) {

    /** The owned `RGB` satisfies its class invariant. */
    predicate Valid() {
      rgb.Valid()
    }
  }

  /** `Color.fromRGB`: validates the arguments exactly as the `RGB`
      constructor does and wraps the result. */
  function FromRgb(r: Num, g: Num, b: Num, alpha: Option<Num>): (res: Result<Color>)
    ensures res.Success? <==>
              InRange(r, 0.0, 255.0) && InRange(g, 0.0, 255.0) && InRange(b, 0.0, 255.0) && AlphaOk(alpha)
    ensures res.Success? ==> res.value.Valid()
    ensures res.Success? ==>
              res.value.rgb == Rgb.RGB(r.val, g.val, b.val, if alpha.None? then 1.0 else alpha.value.val)
    ensures res.Failure? ==> res.error == Rgb.New(r, g, b, alpha).error
  {
    var rgb :- Rgb.New(r, g, b, alpha);
    Success(Color(rgb))
  }

  /** A hex colour string as the codec reads it: `#` followed by six or
      eight hex digits in either case. */
  predicate WellFormedHex(s: string) {
    && (|s| == 7 || |s| == 9)
    && s[0] == '#'
    && forall i | 1 <= i < |s| :: IsHexDigit(s[i])
  }

  /** The byte written by the two hex digits at `i` and `i + 1`. */
  function PairAt(s: string, i: nat): nat
    requires i + 1 < |s| && IsHexDigit(s[i]) && IsHexDigit(s[i + 1])
  {
    16 * DigitValue(s[i]) + DigitValue(s[i + 1])
  }

  /** A parse result as a number: NaN when `parseInt` found no digits. */
  function AsNum(n: Option<nat>): Num
  {
    match n
    case None => NaN
    case Some(v) => Fin(v as real)
  }

  /** What `fromHex` relies on when it reads a slice: the parsed number is
      NaN exactly for an empty slice, and two digits give their byte. */
  lemma ParsedSlice(s: string)
    requires AllHex(s)
    ensures AsNum(ParseInt16(s)).NaN? <==> |s| == 0
    ensures |s| == 2 ==> AsNum(ParseInt16(s)) == Fin((16 * DigitValue(s[0]) + DigitValue(s[1])) as real)
  {
  }

  /** The digit pairs `fromHex` cuts out of a well-formed string. */
  lemma HexSlices(s: string)
    requires WellFormedHex(s)
    ensures Substring(s, 1, 3) == s[1..3] && AllHex(s[1..3])
    ensures Substring(s, 3, 5) == s[3..5] && AllHex(s[3..5])
    ensures Substring(s, 5, 7) == s[5..7] && AllHex(s[5..7])
    ensures |s| == 7 ==> Substring(s, 7, 9) == []
    ensures |s| == 9 ==> Substring(s, 7, 9) == s[7..9] && AllHex(s[7..9])
  {
  }

  /** `Color.fromHex`: each two-digit slice is parsed in base 16; a missing
      alpha slice parses to NaN and alpha defaults to 1, otherwise alpha is
      the byte over 255. The values always pass `RGB`'s validation. */
  function FromHex(s: string): (res: Result<Color>)
    requires WellFormedHex(s)
    ensures res.Success? && res.value.Valid() && res.value.rgb.IntegerChannels()
    ensures && res.value.rgb.r == PairAt(s, 1) as real
            && res.value.rgb.g == PairAt(s, 3) as real
            && res.value.rgb.b == PairAt(s, 5) as real
    ensures |s| == 7 ==> res.value.rgb.alpha == 1.0
    ensures |s| == 9 ==> res.value.rgb.alpha == PairAt(s, 7) as real / 255.0
  {
    HexSlices(s);
    var r := ParseInt16(Substring(s, 1, 3));
    var g := ParseInt16(Substring(s, 3, 5));
    var b := ParseInt16(Substring(s, 5, 7));
    var a := ParseInt16(Substring(s, 7, 9));
    var alpha := if a.None? then 1.0 else a.value as real / 255.0;
    FromRgb(AsNum(r), AsNum(g), AsNum(b), Some(Fin(alpha)))
  }

  /** A byte as two lower-case digits, the high nibble first; they read
      back as the byte. */
  function ByteDigits(n: nat): (s: string)
    requires n < 256
    ensures |s| == 2 && AllLowerHex(s) && AllHex(s)
    ensures 16 * DigitValue(s[0]) + DigitValue(s[1]) == n
  {
    [LowerDigit(n / 16), LowerDigit(n % 16)]
  }

  /** `toHex` of the `hex` getter on a whole number below 256:
      `toString(16)` padded to two characters with `0` writes exactly the
      two nibble digits that `ByteDigits` writes. */
  function ToHex(n: nat): (s: string)
    requires n < 256
    ensures s == ByteDigits(n)
  {
    var digits := ToString16(n);
    var padded := PadStart(digits, 2, '0');
    var nibbles := [LowerDigit(n / 16), LowerDigit(n % 16)];
    assert ByteDigits(n) == nibbles;
    if n < 16 then
      assert digits == [LowerDigit(n)];
      assert padded[1..] == digits && padded[0] == '0';
      assert padded == nibbles;
      padded
    else
      assert ToString16(n / 16) == [LowerDigit(n / 16)];
      assert padded == digits == nibbles;
      padded
  }

  /** `#` followed by three lower-case byte strings of length two: a
      well-formed hex string whose pairs read back as those strings. */
  function JoinOpaque(x: string, y: string, z: string): (s: string)
    requires |x| == 2 && |y| == 2 && |z| == 2
    requires AllLowerHex(x) && AllLowerHex(y) && AllLowerHex(z)
    ensures |s| == 7 && WellFormedHex(s)
    ensures forall i | 1 <= i < |s| :: IsLowerHexDigit(s[i])
    ensures PairAt(s, 1) == 16 * DigitValue(x[0]) + DigitValue(x[1])
    ensures PairAt(s, 3) == 16 * DigitValue(y[0]) + DigitValue(y[1])
    ensures PairAt(s, 5) == 16 * DigitValue(z[0]) + DigitValue(z[1])
  {
    var s := "#" + x + y + z;
    assert s[1] == x[0] && s[2] == x[1] && s[3] == y[0] && s[4] == y[1] && s[5] == z[0] && s[6] == z[1];
    assert forall i | 1 <= i < |s| :: IsLowerHexDigit(s[i]) && IsHexDigit(s[i]) by {
      forall i | 1 <= i < |s|
        ensures IsLowerHexDigit(s[i]) && IsHexDigit(s[i])
      {
        if i < 3 {
          assert s[i] == x[i - 1];
        } else if i < 5 {
          assert s[i] == y[i - 3];
        } else {
          assert s[i] == z[i - 5];
        }
      }
    }
    s
  }

  /** The same with a fourth byte string for alpha. */
  function JoinTranslucent(x: string, y: string, z: string, w: string): (s: string)
    requires |x| == 2 && |y| == 2 && |z| == 2 && |w| == 2
    requires AllLowerHex(x) && AllLowerHex(y) && AllLowerHex(z) && AllLowerHex(w)
    ensures |s| == 9 && WellFormedHex(s)
    ensures forall i | 1 <= i < |s| :: IsLowerHexDigit(s[i])
    ensures PairAt(s, 1) == 16 * DigitValue(x[0]) + DigitValue(x[1])
    ensures PairAt(s, 3) == 16 * DigitValue(y[0]) + DigitValue(y[1])
    ensures PairAt(s, 5) == 16 * DigitValue(z[0]) + DigitValue(z[1])
    ensures PairAt(s, 7) == 16 * DigitValue(w[0]) + DigitValue(w[1])
  {
    var s := "#" + x + y + z + w;
    assert s[1] == x[0] && s[2] == x[1] && s[3] == y[0] && s[4] == y[1] && s[5] == z[0] && s[6] == z[1];
    assert s[7] == w[0] && s[8] == w[1];
    assert forall i | 1 <= i < |s| :: IsLowerHexDigit(s[i]) && IsHexDigit(s[i]) by {
      forall i | 1 <= i < |s|
        ensures IsLowerHexDigit(s[i]) && IsHexDigit(s[i])
      {
        if i < 3 {
          assert s[i] == x[i - 1];
        } else if i < 5 {
          assert s[i] == y[i - 3];
        } else if i < 7 {
          assert s[i] == z[i - 5];
        } else {
          assert s[i] == w[i - 7];
        }
      }
    }
    s
  }

  /** `#` and the three channel bytes, each written as `ToHex` writes
      it. */
  function EncodeOpaque(r: nat, g: nat, b: nat): (s: string)
    requires r < 256 && g < 256 && b < 256
    ensures |s| == 7 && WellFormedHex(s)
    ensures forall i | 1 <= i < |s| :: IsLowerHexDigit(s[i])
    ensures PairAt(s, 1) == r && PairAt(s, 3) == g && PairAt(s, 5) == b
  {
    JoinOpaque(ByteDigits(r), ByteDigits(g), ByteDigits(b))
  }

  /** `#`, the three channel bytes and the alpha byte, each written as
      `ToHex` writes it. */
  function EncodeTranslucent(r: nat, g: nat, b: nat, a: nat): (s: string)
    requires r < 256 && g < 256 && b < 256 && a < 256
    ensures |s| == 9 && WellFormedHex(s)
    ensures forall i | 1 <= i < |s| :: IsLowerHexDigit(s[i])
    ensures PairAt(s, 1) == r && PairAt(s, 3) == g && PairAt(s, 5) == b
    ensures PairAt(s, 7) == a
  {
    JoinTranslucent(ByteDigits(r), ByteDigits(g), ByteDigits(b), ByteDigits(a))
  }

  /** `#` and the three channel bytes, then the alpha byte if there is
      one. */
  function EncodeBytes(r: nat, g: nat, b: nat, alpha: Option<nat>): (s: string)
    requires r < 256 && g < 256 && b < 256
    requires alpha.Some? ==> alpha.value < 256
    ensures |s| == (if alpha.Some? then 9 else 7)
    ensures WellFormedHex(s)
    ensures forall i | 1 <= i < |s| :: IsLowerHexDigit(s[i])
    ensures PairAt(s, 1) == r && PairAt(s, 3) == g && PairAt(s, 5) == b
    ensures alpha.Some? ==> PairAt(s, 7) == alpha.value
  {
    match alpha
    case Some(a) => EncodeTranslucent(r, g, b, a)
    case None => EncodeOpaque(r, g, b)
  }

  /** The `hex` getter for whole-number channels: `#`, then one byte per
      channel, then a fourth byte `round(alpha * 255)` only when alpha is
      below 1. */
  function Hex(c: Color): (s: string)
    requires c.Valid() && c.rgb.IntegerChannels()
    ensures |s| == (if c.rgb.alpha < 1.0 then 9 else 7)
    ensures WellFormedHex(s)
    ensures forall i | 1 <= i < |s| :: IsLowerHexDigit(s[i])
    ensures PairAt(s, 1) as real == c.rgb.r
    ensures PairAt(s, 3) as real == c.rgb.g
    ensures PairAt(s, 5) as real == c.rgb.b
    ensures |s| == 9 ==> PairAt(s, 7) == Round(c.rgb.alpha * 255.0)
  {
    var rgb := c.rgb;
    RoundByteRange(rgb.alpha * 255.0);
    EncodeBytes(rgb.r.Floor, rgb.g.Floor, rgb.b.Floor,
                if rgb.alpha < 1.0 then Some(Round(rgb.alpha * 255.0)) else None)
  }

  /** The `hex` getter of an opaque colour writes each channel byte
      exactly as `toHex` does. */
  lemma HexWritesToHexOpaque(c: Color)
    requires c.Valid() && c.rgb.IntegerChannels() && c.rgb.alpha >= 1.0
    ensures Hex(c) == "#" + ToHex(c.rgb.r.Floor) + ToHex(c.rgb.g.Floor) + ToHex(c.rgb.b.Floor)
  {
    var rgb := c.rgb;
    assert Hex(c) == EncodeOpaque(rgb.r.Floor, rgb.g.Floor, rgb.b.Floor);
    OpaqueToHex(rgb.r.Floor, rgb.g.Floor, rgb.b.Floor);
  }

  /** The `hex` getter of a translucent colour writes the three channel
      bytes and the alpha byte exactly as `toHex` does. */
  lemma HexWritesToHexTranslucent(c: Color)
    requires c.Valid() && c.rgb.IntegerChannels() && c.rgb.alpha < 1.0
    ensures Round(c.rgb.alpha * 255.0) < 256
    ensures Hex(c) == "#" + ToHex(c.rgb.r.Floor) + ToHex(c.rgb.g.Floor) + ToHex(c.rgb.b.Floor)
                     + ToHex(Round(c.rgb.alpha * 255.0))
  {
    var rgb := c.rgb;
    RoundByteRange(rgb.alpha * 255.0);
    var a := Round(rgb.alpha * 255.0);
    HexTranslucentEncodes(c);
    TranslucentToHex(rgb.r.Floor, rgb.g.Floor, rgb.b.Floor, a);
  }

  /** A translucent colour is written by the four-byte encoder. */
  lemma HexTranslucentEncodes(c: Color)
    requires c.Valid() && c.rgb.IntegerChannels() && c.rgb.alpha < 1.0
    ensures Round(c.rgb.alpha * 255.0) < 256
    ensures Hex(c) == EncodeTranslucent(c.rgb.r.Floor, c.rgb.g.Floor, c.rgb.b.Floor, Round(c.rgb.alpha * 255.0))
  {
    RoundByteRange(c.rgb.alpha * 255.0);
  }

  /** The opaque encoder writes each channel byte as `toHex` does. */
  lemma OpaqueToHex(r: nat, g: nat, b: nat)
    requires r < 256 && g < 256 && b < 256
    ensures EncodeOpaque(r, g, b) == "#" + ToHex(r) + ToHex(g) + ToHex(b)
  {
    assert ToHex(r) == ByteDigits(r) && ToHex(g) == ByteDigits(g) && ToHex(b) == ByteDigits(b);
  }

  /** The translucent encoder writes each of its four bytes as `toHex`
      does. */
  lemma TranslucentToHex(r: nat, g: nat, b: nat, a: nat)
    requires r < 256 && g < 256 && b < 256 && a < 256
    ensures EncodeTranslucent(r, g, b, a) == "#" + ToHex(r) + ToHex(g) + ToHex(b) + ToHex(a)
  {
    assert ToHex(r) == ByteDigits(r) && ToHex(g) == ByteDigits(g) && ToHex(b) == ByteDigits(b);
    assert ToHex(a) == ByteDigits(a);
  }

  /** `Color.fromHSL`: fails exactly when the `HSL` constructor rejects the
      arguments, naming the same field; otherwise the colour is the
      converted `RGB`, with whole channels and the given alpha. */
  function FromHsl(h: Num, s: Num, l: Num, alpha: Option<Num>): (res: Result<Color>)
    ensures res.Failure? <==> Hsl.New(h, s, l, alpha).Failure?
    ensures res.Failure? ==> res.error == Hsl.New(h, s, l, alpha).error
    ensures res.Success? ==> res.value.Valid() && res.value.rgb.IntegerChannels()
    ensures res.Success? ==> res.value.rgb.alpha == (if alpha.None? then 1.0 else alpha.value.val)
  {
    var hsl :- Hsl.New(h, s, l, alpha);
    Success(Color(RgbFromHsl(hsl).value))
  }

  /** The `hsl` getter: the HSL view of the owned `RGB`, recomputed on every
      access; it always passes `HSL`'s validation. */
  function HslView(c: Color): (v: Hsl.HSL)
    requires c.Valid()
    ensures v.Valid() && 0.0 <= v.h < 1.0
    ensures v.alpha == c.rgb.alpha
  {
    HslFromRgb(c.rgb).value
  }

  /** `clone`: rebuilds the `RGB` through its constructor from the current
      fields; re-validation cannot fail and the copy equals the original. */
  function Clone(c: Color): (res: Result<Color>)
    requires c.Valid()
    ensures res == Success(c)
  {
    var rgb := c.rgb;
    FromRgb(Fin(rgb.r), Fin(rgb.g), Fin(rgb.b), Some(Fin(rgb.alpha)))
  }

  /** `updateHSL` with a callback that changes nothing: the owned `RGB` is
      replaced by `RGB.fromHSL(HSL.fromRGB(rgb))`. The conversions cannot
      throw, the result has whole channels, and a colour that already had
      whole channels is left as it was. */
  function UpdateHslUnchanged(c: Color): (res: Color)
    requires c.Valid()
    ensures res.Valid() && res.rgb.IntegerChannels()
    ensures res.rgb.alpha == c.rgb.alpha
    ensures c.rgb.IntegerChannels() ==> res == c
  {
    var hsl := HslFromRgb(c.rgb).value;
    assert c.rgb.IntegerChannels() ==> RgbFromHsl(hsl) == Success(c.rgb) by {
      if c.rgb.IntegerChannels() {
        ConversionProperties.RoundTrip(c.rgb);
      }
    }
    Color(RgbFromHsl(hsl).value)
  }
}
