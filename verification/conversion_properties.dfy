/** Properties of the two conversions: fixed examples, the grey case, the
    irrelevance of the tie-break order, and the round trip
    `RGB.fromHSL(HSL.fromRGB(c)) == c` for whole-number channels, on which
    `Color.updateHSL` with a callback that changes nothing relies. */
module ConversionProperties {
  import opened Values
  import Rgb
  import Hsl
  import opened Conversions

  /** Pure red converts to hue 0, full saturation and half lightness. */
  lemma PureRedToHsl()
    ensures HslFromRgb(Rgb.RGB(255.0, 0.0, 0.0, 1.0)) == Success(Hsl.HSL(0.0, 1.0, 0.5, 1.0))
  {
    assert Max3(1.0, 0.0, 0.0) == 1.0 && Min3(1.0, 0.0, 0.0) == 0.0;
    assert Saturation(1.0, 0.0) == 1.0;
    assert HueSixths(1.0, 0.0, 0.0) == 0.0;
  }

  /** Hue 0, full saturation and half lightness convert back to pure red. */
  lemma PureRedFromHsl()
    ensures RgbFromHsl(Hsl.HSL(0.0, 1.0, 0.5, 1.0)) == Success(Rgb.RGB(255.0, 0.0, 0.0, 1.0))
  {
    assert UpperQ(0.5, 1.0) == 1.0;
    assert HueToRgb(0.0, 1.0, 1.0 / 3.0) == 255 by {
      assert HueFraction(0.0, 1.0, 1.0 / 3.0) == 1.0;
    }
    assert HueToRgb(0.0, 1.0, 0.0) == 0 by {
      assert HueFraction(0.0, 1.0, 0.0) == Lerp(0.0, 1.0, 0.0) == 0.0;
    }
    assert HueToRgb(0.0, 1.0, -1.0 / 3.0) == 0 by {
      assert Wrap(-1.0 / 3.0) == 2.0 / 3.0;
    }
    assert Rgb.New(Fin(255.0), Fin(0.0), Fin(0.0), Some(Fin(1.0))) == Success(Rgb.RGB(255.0, 0.0, 0.0, 1.0));
  }

  /** Hue is read in turns although validation admits up to 360: hue 120
      (green, in degrees) with full saturation and half lightness wraps to
      the flat tail of the profile in every channel and comes out black. */
  lemma DegreeHueGivesBlack()
    ensures RgbFromHsl(Hsl.HSL(120.0, 1.0, 0.5, 1.0)) == Success(Rgb.RGB(0.0, 0.0, 0.0, 1.0))
  {
    assert UpperQ(0.5, 1.0) == 1.0;
    assert HueToRgb(0.0, 1.0, 120.0 + 1.0 / 3.0) == 0 by {
      assert Wrap(120.0 + 1.0 / 3.0) == 119.0 + 1.0 / 3.0;
    }
    assert HueToRgb(0.0, 1.0, 120.0) == 0 by {
      assert Wrap(120.0) == 119.0;
    }
    assert HueToRgb(0.0, 1.0, 120.0 - 1.0 / 3.0) == 0 by {
      assert Wrap(120.0 - 1.0 / 3.0) == 118.0 + 2.0 / 3.0;
    }
    assert Rgb.New(Fin(0.0), Fin(0.0), Fin(0.0), Some(Fin(1.0))) == Success(Rgb.RGB(0.0, 0.0, 0.0, 1.0));
  }

  /** When `p == q` the channel profile is flat. */
  lemma FlatProfile(l: real, t: real)
    ensures HueFraction(l, l, t) == l
  {
  }

  /** Zero saturation gives equal channels `round(255 l)`: `q` and `p` both
      equal `l`, so the general formula yields a grey scaled to
      `[0, 255]`. */
  lemma GreyFromHsl(c: Hsl.HSL)
    requires c.Valid() && c.s == 0.0
    ensures RgbFromHsl(c).value.r == RgbFromHsl(c).value.g == RgbFromHsl(c).value.b
    ensures RgbFromHsl(c).value.r == Round(255.0 * c.l) as real
  {
    assert UpperQ(c.l, 0.0) == c.l;
    FlatProfile(c.l, c.h + 1.0 / 3.0);
    FlatProfile(c.l, c.h);
    FlatProfile(c.l, c.h - 1.0 / 3.0);
    assert c.l * 255.0 == 255.0 * c.l;
  }

  /** The grey that the zero-saturation branch builds and throws away holds
      the unscaled lightness in every channel, so it differs from the
      returned grey `round(255 l)` except for black. */
  lemma DiscardedGreyUnscaled(c: Hsl.HSL)
    requires c.Valid() && c.s == 0.0
    ensures Rgb.New(Fin(c.l), Fin(c.l), Fin(c.l), Some(Fin(c.alpha)))
            == Success(Rgb.RGB(c.l, c.l, c.l, c.alpha))
    ensures RgbFromHsl(c).value.r == c.l <==> c.l == 0.0
  {
    GreyFromHsl(c);
    var n := Round(255.0 * c.l);
    if c.l == 1.0 {
      assert n == 255;
    } else if c.l > 0.0 {
      assert n as real != c.l by {
        if n >= 1 {
          assert n as real >= 1.0 > c.l;
        }
      }
    }
  }

  /** When two channels tie at the maximum, the later channel's hue formula
      gives the same value as the earlier one's, so the red-green-blue test
      order never changes the hue over exact arithmetic. */
  lemma HueTieBreakIrrelevant(r: real, g: real, b: real)
    requires Max3(r, g, b) != Min3(r, g, b)
    ensures g == Max3(r, g, b) ==>
              HueSixths(r, g, b) == (b - r) / (Max3(r, g, b) - Min3(r, g, b)) + 2.0
    ensures b == Max3(r, g, b) ==>
              HueSixths(r, g, b) == (r - g) / (Max3(r, g, b) - Min3(r, g, b)) + 4.0
  {
    var max := Max3(r, g, b);
    if g == max && r == max {
      TieRedGreen(r, g, b);
    } else if b == max && r == max {
      TieRedBlue(r, g, b);
    } else if b == max && g == max {
      TieGreenBlue(r, g, b);
    }
  }

  /** A positive number divided by itself, or by its negation, is 1 or
      -1: the values the tie-break lemmas need. */
  lemma UnitQuotients(d: real)
    requires d > 0.0
    ensures d / d == 1.0 && -d / d == -1.0
  {
  }

  /** Red and green tie: both formulas give one sixth of a turn. */
  lemma TieRedGreen(r: real, g: real, b: real)
    requires r == g && b < g
    ensures HueSixths(r, g, b) == 1.0 && (b - r) / (g - b) + 2.0 == 1.0
  {
    var d := g - b;
    assert Max3(r, g, b) == g && Min3(r, g, b) == b;
    UnitQuotients(d);
  }

  /** Red and blue tie: both formulas give five sixths of a turn. */
  lemma TieRedBlue(r: real, g: real, b: real)
    requires r == b && g < b
    ensures HueSixths(r, g, b) == 5.0 && (r - g) / (b - g) + 4.0 == 5.0
  {
    var d := b - g;
    assert Max3(r, g, b) == b && Min3(r, g, b) == g;
    UnitQuotients(d);
  }

  /** Green and blue tie: both formulas give three sixths of a turn. */
  lemma TieGreenBlue(r: real, g: real, b: real)
    requires g == b && r < b
    ensures HueSixths(r, g, b) == 3.0 && (r - g) / (b - r) + 4.0 == 3.0
  {
    var d := b - r;
    assert Max3(r, g, b) == b && Min3(r, g, b) == r;
    UnitQuotients(d);
  }

  /** `q` recovers the largest normalised channel from the lightness and
      saturation that `HSL.fromRGB` computed (and `p` the smallest). */
  lemma UpperIsMax(max: real, min: real)
    requires 0.0 <= min < max <= 1.0
    ensures UpperQ((max + min) / 2.0, Saturation(max, min)) == max
  {
    var d := max - min;
    var l := (max + min) / 2.0;
    var s := Saturation(max, min);
    if l > 0.5 {
      assert s * (2.0 - max - min) == d;
      assert l * s == s - s * (2.0 - max - min) / 2.0;
    } else {
      assert s * (max + min) == d;
      assert l * s == d / 2.0;
    }
  }

  /** The sector where red is largest and green is at least blue. */
  lemma RecoverRedGreenSector(r: real, g: real, b: real)
    requires 0.0 <= b <= g <= r && b < r
    ensures HueFraction(b, r, Hue(r, g, b) + 1.0 / 3.0) == r
    ensures HueFraction(b, r, Hue(r, g, b)) == g
    ensures HueFraction(b, r, Hue(r, g, b) - 1.0 / 3.0) == b
  {
    var d := r - b;
    var x := (g - b) / d;
    assert x * d == g - b;
    QuotientInSignedUnit(g - b, d);
    assert Hue(r, g, b) == x / 6.0;
    var t := x / 6.0;
    if t < 1.0 / 6.0 {
      assert (r - b) * 6.0 * t == d * x;
    } else {
      assert x == 1.0;
    }
  }

  /** The sector where red is largest and green is below blue. */
  lemma RecoverRedBlueSector(r: real, g: real, b: real)
    requires 0.0 <= g < b <= r
    ensures HueFraction(g, r, Hue(r, g, b) + 1.0 / 3.0) == r
    ensures HueFraction(g, r, Hue(r, g, b)) == g
    ensures HueFraction(g, r, Hue(r, g, b) - 1.0 / 3.0) == b
  {
    var d := r - g;
    var x := (g - b) / d;
    assert x * d == g - b;
    QuotientInSignedUnit(g - b, d);
    assert Hue(r, g, b) == (x + 6.0) / 6.0;
    var t := (x + 6.0) / 6.0 - 1.0 / 3.0;
    assert (2.0 / 3.0 - t) * 6.0 == -x;
    assert (r - g) * (2.0 / 3.0 - t) * 6.0 == d * (-x);
  }

  /** The sector where green is largest (and red is not). */
  lemma RecoverGreenSector(r: real, g: real, b: real)
    requires 0.0 <= r < g && 0.0 <= b <= g
    ensures var min := Min3(r, g, b);
            && HueFraction(min, g, Hue(r, g, b) + 1.0 / 3.0) == r
            && HueFraction(min, g, Hue(r, g, b)) == g
            && HueFraction(min, g, Hue(r, g, b) - 1.0 / 3.0) == b
  {
    var min := Min3(r, g, b);
    var d := g - min;
    var x := (b - r) / d;
    assert x * d == b - r;
    QuotientInSignedUnit(b - r, d);
    assert Hue(r, g, b) == (x + 2.0) / 6.0;
    var h := (x + 2.0) / 6.0;
    if x < 0.0 {
      assert min == b;
      assert (2.0 / 3.0 - (h + 1.0 / 3.0)) * 6.0 == -x;
      assert (g - min) * (2.0 / 3.0 - (h + 1.0 / 3.0)) * 6.0 == d * (-x);
    } else {
      assert min == r;
      if x < 1.0 {
        assert 6.0 * (h - 1.0 / 3.0) == x;
        assert (g - min) * 6.0 * (h - 1.0 / 3.0) == d * x;
      } else {
        assert b == g;
      }
    }
  }

  /** The sector where blue is largest (and red and green are not). */
  lemma RecoverBlueSector(r: real, g: real, b: real)
    requires 0.0 <= r < b && 0.0 <= g < b
    ensures var min := Min3(r, g, b);
            && HueFraction(min, b, Hue(r, g, b) + 1.0 / 3.0) == r
            && HueFraction(min, b, Hue(r, g, b)) == g
            && HueFraction(min, b, Hue(r, g, b) - 1.0 / 3.0) == b
  {
    var min := Min3(r, g, b);
    var d := b - min;
    var x := (r - g) / d;
    assert x * d == r - g;
    QuotientInSignedUnit(r - g, d);
    assert Hue(r, g, b) == (x + 4.0) / 6.0;
    var h := (x + 4.0) / 6.0;
    if x > 0.0 {
      assert min == g;
      assert 6.0 * (h + 1.0 / 3.0 - 1.0) == x;
      assert (b - min) * 6.0 * (h + 1.0 / 3.0 - 1.0) == d * x;
    } else {
      assert min == r;
      if x < 0.0 {
        assert (2.0 / 3.0 - h) * 6.0 == -x;
        assert (b - min) * (2.0 / 3.0 - h) * 6.0 == d * (-x);
      }
    }
  }

  /** For a chromatic colour the channel profile, read at the three hue
      offsets between the smallest and largest channel, returns the three
      normalised channels exactly. */
  lemma ProfileRecoversChannels(r: real, g: real, b: real)
    requires 0.0 <= r <= 1.0 && 0.0 <= g <= 1.0 && 0.0 <= b <= 1.0
    requires Max3(r, g, b) != Min3(r, g, b)
    ensures var max, min := Max3(r, g, b), Min3(r, g, b);
            && HueFraction(min, max, Hue(r, g, b) + 1.0 / 3.0) == r
            && HueFraction(min, max, Hue(r, g, b)) == g
            && HueFraction(min, max, Hue(r, g, b) - 1.0 / 3.0) == b
  {
    var max := Max3(r, g, b);
    if max == r {
      if g >= b {
        RecoverRedGreenSector(r, g, b);
      } else {
        RecoverRedBlueSector(r, g, b);
      }
    } else if max == g {
      RecoverGreenSector(r, g, b);
    } else {
      RecoverBlueSector(r, g, b);
    }
  }

  /** Converting a colour with whole-number channels to HSL and back gives
      the same colour: channels and alpha are recovered exactly. */
  lemma RoundTrip(c: Rgb.RGB)
    requires c.Valid() && c.IntegerChannels()
    ensures RgbFromHsl(HslFromRgb(c).value) == Success(c)
  {
    var r, g, b := Unit(c.r), Unit(c.g), Unit(c.b);
    var max, min := Max3(r, g, b), Min3(r, g, b);
    var hsl := HslFromRgb(c).value;
    var q := UpperQ(hsl.l, hsl.s);
    var p := LowerP(hsl.l, hsl.s);
    if max == min {
      assert q == max;
      FlatProfile(max, hsl.h + 1.0 / 3.0);
      FlatProfile(max, hsl.h);
      FlatProfile(max, hsl.h - 1.0 / 3.0);
    } else {
      UpperIsMax(max, min);
      assert q == max && p == min;
      ProfileRecoversChannels(r, g, b);
    }
    assert HueToRgb(p, q, hsl.h + 1.0 / 3.0) == c.r.Floor;
    assert HueToRgb(p, q, hsl.h) == c.g.Floor;
    assert HueToRgb(p, q, hsl.h - 1.0 / 3.0) == c.b.Floor;
  }
}
