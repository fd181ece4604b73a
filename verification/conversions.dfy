/** The two colour-space conversions. `RGB.fromHSL` follows the hsl-to-rgb
    algorithm of CSS Color Module Level 3 (section 4.2.4), except that hue
    is carried as a fraction of a turn rather than in degrees and is wrapped
    into range only once instead of reduced modulo a turn. `HSL.fromRGB` is
    the usual inverse of that algorithm; the standard gives no formula for
    that direction. They sit in a module of their own because the two
    classes import each other. */
module Conversions {
  import opened Values
  import Rgb
  import Hsl

  /** `Math.max` of three numbers. */
  function Max3(a: real, b: real, c: real): (m: real)
    ensures m >= a && m >= b && m >= c
    ensures m == a || m == b || m == c
  {
    if a >= b && a >= c then a else if b >= c then b else c
  }

  /** `Math.min` of three numbers. */
  function Min3(a: real, b: real, c: real): (m: real)
    ensures m <= a && m <= b && m <= c
    ensures m == a || m == b || m == c
  {
    if a <= b && a <= c then a else if b <= c then b else c
  }

  /** A channel divided by 255, as `HSL.fromRGB` normalises it. */
  function Unit(x: real): (u: real)
    ensures 0.0 <= x <= 255.0 ==> 0.0 <= u <= 1.0
    ensures u * 255.0 == x
  {
    x / 255.0
  }

  /** For `0 <= a <= d` the quotient `a / d` is a fraction in `[0, 1]`. */
  lemma QuotientInUnit(a: real, d: real)
    requires 0.0 < d && 0.0 <= a <= d
    ensures 0.0 <= a / d <= 1.0
    ensures a / d * d == a
  {
  }

  /** Saturation of a chromatic colour from its extreme normalised
      channels: the chroma over `2 - max - min` when lightness exceeds
      one half, over `max + min` otherwise. */
  function Saturation(max: real, min: real): (s: real)
    requires 0.0 <= min < max <= 1.0
    ensures 0.0 < s <= 1.0
  {
    var diff := max - min;
    if (max + min) / 2.0 > 0.5 then
      QuotientInUnit(diff, 2.0 - max - min);
      diff / (2.0 - max - min)
    else
      QuotientInUnit(diff, max + min);
      diff / (max + min)
  }

  /** For `-d <= a <= d` the quotient `a / d` lies in `[-1, 1]`, strictly
      inside where the bound is strict. */
  lemma QuotientInSignedUnit(a: real, d: real)
    requires 0.0 < d && -d <= a <= d
    ensures -1.0 <= a / d <= 1.0
    ensures a > -d ==> a / d > -1.0
    ensures a < d ==> a / d < 1.0
    ensures a < 0.0 ==> a / d < 0.0
    ensures a >= 0.0 ==> a / d >= 0.0
  {
    var x := a / d;
    assert x * d == a;
    SignOfProduct(x, d);
    SignOfProduct(x + 1.0, d);
    assert (x + 1.0) * d == a + d;
    SignOfProduct(1.0 - x, d);
    assert (1.0 - x) * d == d - a;
  }

  /** A product with a positive factor has the sign of the other factor. */
  lemma SignOfProduct(x: real, d: real)
    requires d > 0.0
    ensures x * d > 0.0 <==> x > 0.0
    ensures x * d < 0.0 <==> x < 0.0
  {
  }

  /** The hue in units of a sixth of a turn, in `[0, 6)`. The channels are
      compared with the maximum in the order red, green, blue, so a tie
      resolves to the earliest channel; if none matched the hue would stay
      0. */
  function HueSixths(r: real, g: real, b: real): (h6: real)
    requires Max3(r, g, b) != Min3(r, g, b)
    ensures 0.0 <= h6 < 6.0
  {
    var max := Max3(r, g, b);
    var min := Min3(r, g, b);
    var diff := max - min;
    if max == r then
      QuotientInSignedUnit(g - b, diff);
      (g - b) / diff + (if g < b then 6.0 else 0.0)
    else if max == g then
      QuotientInSignedUnit(b - r, diff);
      (b - r) / diff + 2.0
    else if max == b then
      QuotientInSignedUnit(r - g, diff);
      (r - g) / diff + 4.0
    else
      0.0
  }

  /** The hue of a chromatic colour as a fraction of a turn, in `[0, 1)`. */
  function Hue(r: real, g: real, b: real): (h: real)
    requires Max3(r, g, b) != Min3(r, g, b)
    ensures 0.0 <= h < 1.0
  {
    HueSixths(r, g, b) / 6.0
  }

  /** `HSL.fromRGB`: lightness is the midpoint of the largest and smallest
      normalised channel; a grey gets hue and saturation 0; otherwise the
      saturation and hue formulas apply. The result passes `HSL`'s
      validation, so the constructor call never throws; alpha is copied. */
  function HslFromRgb(c: Rgb.RGB): (res: Result<Hsl.HSL>)
    requires c.Valid()
    ensures res.Success? && res.value.Valid()
    ensures 0.0 <= res.value.h < 1.0
    ensures res.value.l == (Max3(c.r, c.g, c.b) + Min3(c.r, c.g, c.b)) / 510.0
    ensures res.value.s == 0.0 <==> c.r == c.g == c.b
    ensures c.r == c.g == c.b ==> res.value.h == 0.0 && res.value.l == c.r / 255.0
    ensures res.value.alpha == c.alpha
  {
    var r, g, b := Unit(c.r), Unit(c.g), Unit(c.b);
    var max, min := Max3(r, g, b), Min3(r, g, b);
    var l := (max + min) / 2.0;
    if max == min then
      Hsl.New(Fin(0.0), Fin(0.0), Fin(l), Some(Fin(c.alpha)))
    else
      Hsl.New(Fin(Hue(r, g, b)), Fin(Saturation(max, min)), Fin(l), Some(Fin(c.alpha)))
  }

  /** The upper value `q` of `RGB.fromHSL`: never below the lightness,
      and equal to it for a grey. */
  function UpperQ(l: real, s: real): (q: real)
    ensures 0.0 <= l <= 1.0 && 0.0 <= s ==> l <= q
    ensures s == 0.0 ==> q == l
  {
    if l < 0.5 then
      assert 0.0 <= l && 0.0 <= s ==> l * s >= 0.0;
      l * (1.0 + s)
    else
      var m := 1.0 - l;
      assert l + s - l * s == l + m * s;
      assert 0.0 <= m && 0.0 <= s ==> m * s >= 0.0;
      l + s - l * s
  }

  /** The lower value `p` of `RGB.fromHSL`: the reflection of `q` about
      the lightness. With `l` and `s` in `[0, 1]` it is never negative and
      never above the lightness, and for a grey it is the lightness. */
  function LowerP(l: real, s: real): (p: real)
    ensures 0.0 <= l <= 1.0 && 0.0 <= s <= 1.0 ==> 0.0 <= p <= l
    ensures s == 0.0 ==> p == l
  {
    if 0.0 <= l < 0.5 && 0.0 <= s <= 1.0 then
      ScaleBelow(l, s);
      assert UpperQ(l, s) == l + l * s;
      2.0 * l - UpperQ(l, s)
    else if 0.5 <= l <= 1.0 && 0.0 <= s <= 1.0 then
      var m := 1.0 - l;
      ScaleBelow(m, s);
      assert UpperQ(l, s) == l + m * s;
      2.0 * l - UpperQ(l, s)
    else
      2.0 * l - UpperQ(l, s)
  }

  /** With `l` and `s` in `[0, 1]`, `p <= q` and both lie in `[0, 1]`. */
  lemma LowerUpperBounds(l: real, s: real)
    requires 0.0 <= l <= 1.0 && 0.0 <= s <= 1.0
    ensures 0.0 <= LowerP(l, s) <= UpperQ(l, s) <= 1.0
  {
    if l < 0.5 {
      ScaleBelow(l, s);
      assert 0.0 <= l * s <= l;
    } else {
      var m := 1.0 - l;
      ScaleBelow(m, s);
      assert UpperQ(l, s) == l + m * s;
    }
  }

  /** Scaling a non-negative number by a fraction keeps it between 0 and
      itself. */
  lemma ScaleBelow(a: real, w: real)
    requires 0.0 <= a && 0.0 <= w <= 1.0
    ensures 0.0 <= a * w <= a
  {
    assert a * (1.0 - w) >= 0.0;
  }

  /** The two wrap-around steps of `hue2rgb`: `t` is moved forward by a
      turn if negative, then back by a turn if above 1. */
  function Wrap(t: real): (u: real)
    ensures t >= -1.0 ==> u >= 0.0
    ensures 0.0 <= t <= 1.0 ==> u == t
  {
    var t1 := if t < 0.0 then t + 1.0 else t;
    if t1 > 1.0 then t1 - 1.0 else t1
  }

  /** The point a fraction `w` of the way from `p` to `q`. */
  function Lerp(p: real, q: real, w: real): real {
    p + (q - p) * w
  }

  /** For a fraction `w` in `[0, 1]` the point lies between `p` and `q`,
      whichever of the two is larger. */
  lemma LerpBetween(p: real, q: real, w: real)
    requires 0.0 <= w <= 1.0
    ensures p <= q ==> p <= Lerp(p, q, w) <= q
    ensures q <= p ==> q <= Lerp(p, q, w) <= p
  {
    if p <= q {
      LerpUpward(p, q, w);
    } else {
      LerpDownward(p, q, w);
    }
  }

  /** From a lower `p` to a higher `q`: `p` plus a fraction of the gap. */
  lemma LerpUpward(p: real, q: real, w: real)
    requires p <= q && 0.0 <= w <= 1.0
    ensures p <= Lerp(p, q, w) <= q
  {
    var d := q - p;
    ScaleBelow(d, w);
    assert Lerp(p, q, w) == p + d * w;
  }

  /** From a higher `p` to a lower `q`: `p` minus a fraction of the gap. */
  lemma LerpDownward(p: real, q: real, w: real)
    requires q <= p && 0.0 <= w <= 1.0
    ensures q <= Lerp(p, q, w) <= p
  {
    ScaleBelow(p - q, w);
    NegatedDifference(q, p, w);
  }

  /** Swapping the operands of a difference negates its product. */
  lemma NegatedDifference(a: real, b: real, w: real)
    ensures (a - b) * w == -((b - a) * w)
  {
  }

  /** The piecewise-linear channel profile of `hue2rgb` at a wrapped `t`:
      rising from `p` to `q` on `[0, 1/6)` (`p + (q - p) * 6t`), flat at
      `q` up to `1/2`, falling back towards `p` on `[1/2, 2/3)`
      (`p + (q - p) * (2/3 - t) * 6`), flat at `p` after that. */
  function Profile(p: real, q: real, t: real): real {
    if t < 1.0 / 6.0 then Lerp(p, q, 6.0 * t)
    else if t < 1.0 / 2.0 then q
    else if t < 2.0 / 3.0 then Lerp(p, q, (2.0 / 3.0 - t) * 6.0)
    else p
  }

  /** The inner closure of `hue2rgb`: the profile read at the wrapped `t`. */
  function HueFraction(p: real, q: real, t: real): real {
    Profile(p, q, Wrap(t))
  }

  /** For `t >= -1` the channel value lands between `p` and `q`: after
      wrapping, `t` is never negative, and each edge is a point between
      `p` and `q`. */
  lemma ProfileBounds(p: real, q: real, t: real)
    requires t >= -1.0
    ensures p <= q ==> p <= HueFraction(p, q, t) <= q
    ensures q <= p ==> q <= HueFraction(p, q, t) <= p
  {
    var u := Wrap(t);
    if u < 1.0 / 6.0 {
      LerpBetween(p, q, 6.0 * u);
    } else if 1.0 / 2.0 <= u < 2.0 / 3.0 {
      LerpBetween(p, q, (2.0 / 3.0 - u) * 6.0);
    }
  }

  /** `hue2rgb`: the channel profile scaled to 255 and rounded; a byte
      whenever `0 <= p <= q <= 1` and `t >= -1`. */
  function HueToRgb(p: real, q: real, t: real): (n: int)
    ensures 0.0 <= p <= q <= 1.0 && t >= -1.0 ==> 0 <= n <= 255
  {
    var v := HueFraction(p, q, t);
    assert 0.0 <= p <= q <= 1.0 && t >= -1.0 ==> 0 <= Round(v * 255.0) <= 255 by {
      if 0.0 <= p <= q <= 1.0 && t >= -1.0 {
        ProfileBounds(p, q, t);
        RoundByteRange(v * 255.0);
      }
    }
    Round(v * 255.0)
  }

  /** The error, if any, thrown by constructing the grey
      `RGB(l, l, l, alpha)` that the zero-saturation branch discards. */
  function GreyError(c: Hsl.HSL): (e: Option<Field>)
    ensures c.Valid() ==> e.None?
  {
    match Rgb.New(Fin(c.l), Fin(c.l), Fin(c.l), Some(Fin(c.alpha)))
    case Success(_) => None
    case Failure(e) => Some(e)
  }

  /** `RGB.fromHSL`. For zero saturation the code builds a grey `RGB` and
      drops it; that construction could only be observed by throwing, and
      for a valid `HSL` it never does. The result has whole channels in
      `[0, 255]`, passes `RGB`'s validation and keeps the source alpha. */
  function RgbFromHsl(c: Hsl.HSL): (res: Result<Rgb.RGB>)
    requires c.Valid()
    ensures res.Success? && res.value.Valid() && res.value.IntegerChannels()
    ensures res.value.alpha == c.alpha
  {
    match (if c.s == 0.0 then GreyError(c) else None)
    case Some(e) => Failure(e)
    case None =>
    var q := UpperQ(c.l, c.s);
    var p := LowerP(c.l, c.s);
    LowerUpperBounds(c.l, c.s);
    Rgb.New(Fin(HueToRgb(p, q, c.h + 1.0 / 3.0) as real),
            Fin(HueToRgb(p, q, c.h) as real),
            Fin(HueToRgb(p, q, c.h - 1.0 / 3.0) as real),
            Some(Fin(c.alpha)))
  }
}
