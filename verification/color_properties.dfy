/** Properties of the `Color` facade's hex codec: fixed examples, the
    round trip from a colour through its hex string, and the round trip
    from a lower-case hex string through a colour, including the one
    asymmetry (an alpha byte `ff` is not written back). */
module ColorProperties {
  import opened Values
  import Rgb
  import opened HexText
  import opened ColorFacade

  /** Opaque black is written `#000000`. */
  lemma HexOfBlack()
    ensures Hex(Color(Rgb.RGB(0.0, 0.0, 0.0, 1.0))) == "#000000"
  {
    var u := "#000000";
    assert WellFormedHex(u) && (forall i | 1 <= i < |u| :: IsLowerHexDigit(u[i]))
        && PairAt(u, 1) == 0 && PairAt(u, 3) == 0 && PairAt(u, 5) == 0 by {
      assert u[1..] == "000000";
    }
    OpaqueHexFromPairs(Color(Rgb.RGB(0.0, 0.0, 0.0, 1.0)), u);
  }

  /** Opaque white is written `#ffffff`. */
  lemma HexOfWhite()
    ensures Hex(Color(Rgb.RGB(255.0, 255.0, 255.0, 1.0))) == "#ffffff"
  {
    var u := "#ffffff";
    assert WellFormedHex(u) && (forall i | 1 <= i < |u| :: IsLowerHexDigit(u[i]))
        && PairAt(u, 1) == 255 && PairAt(u, 3) == 255 && PairAt(u, 5) == 255 by {
      assert u[1..] == "ffffff";
    }
    OpaqueHexFromPairs(Color(Rgb.RGB(255.0, 255.0, 255.0, 1.0)), u);
  }

  /** An opaque colour is written as the six-digit lower-case string whose
      pairs are its channels. */
  lemma OpaqueHexFromPairs(c: Color, u: string)
    requires c.Valid() && c.rgb.IntegerChannels() && c.rgb.alpha == 1.0
    requires WellFormedHex(u) && |u| == 7 && forall i | 1 <= i < |u| :: IsLowerHexDigit(u[i])
    requires PairAt(u, 1) as real == c.rgb.r && PairAt(u, 3) as real == c.rgb.g && PairAt(u, 5) as real == c.rgb.b
    ensures Hex(c) == u
  {
    EqualFromPairs(Hex(c), u);
  }

  /** Hex digits are read case-insensitively: upper-case white parses to
      255 in every channel with alpha 1. */
  lemma UpperCaseWhite()
    ensures FromHex("#FFFFFF") == Success(Color(Rgb.RGB(255.0, 255.0, 255.0, 1.0)))
  {
  }

  /** The digit pairs of half-transparent red `#ff000080`. */
  lemma HalfTransparentRedPairs()
    ensures var s := "#ff000080";
            && WellFormedHex(s) && (forall i | 1 <= i < |s| :: IsLowerHexDigit(s[i])) && s[7..] != "ff"
            && PairAt(s, 1) == 255 && PairAt(s, 3) == 0 && PairAt(s, 5) == 0 && PairAt(s, 7) == 128
  {
    var s := "#ff000080";
    assert s[7..] == "80";
  }

  /** Half-transparent red parses to alpha 128/255. */
  lemma HalfTransparentRed()
    ensures FromHex("#ff000080") == Success(Color(Rgb.RGB(255.0, 0.0, 0.0, 128.0 / 255.0)))
  {
    HalfTransparentRedPairs();
    TranslucentFromPairs("#ff000080");
  }

  /** That alpha is below 1, so the eight-digit string is written back. */
  lemma HalfTransparentRedWrittenBack()
    ensures Hex(FromHex("#ff000080").value) == "#ff000080"
  {
    HalfTransparentRedPairs();
    TranslucentHexRoundTrip("#ff000080");
  }

  /** An eight-digit string parses to the colour its four pairs denote,
      alpha being the last pair over 255. */
  lemma TranslucentFromPairs(s: string)
    requires WellFormedHex(s) && |s| == 9
    ensures FromHex(s) == Success(Color(Rgb.RGB(PairAt(s, 1) as real, PairAt(s, 3) as real,
                                                PairAt(s, 5) as real, PairAt(s, 7) as real / 255.0)))
  {
  }

  /** Writing a colour with whole channels as hex and reading it back
      recovers the channels exactly; alpha 1 comes back as 1 and any other
      alpha as `round(alpha * 255) / 255`. */
  lemma HexRoundTrip(c: Color)
    requires c.Valid() && c.rgb.IntegerChannels()
    ensures FromHex(Hex(c)) == Success(Color(c.rgb.(alpha :=
              if c.rgb.alpha < 1.0 then Round(c.rgb.alpha * 255.0) as real / 255.0 else 1.0)))
  {
    HexRoundTripChannels(c);
    HexRoundTripAlpha(c);
  }

  /** The hex round trip recovers whole channels exactly. */
  lemma HexRoundTripChannels(c: Color)
    requires c.Valid() && c.rgb.IntegerChannels()
    ensures var d := FromHex(Hex(c)).value.rgb;
            d.r == c.rgb.r && d.g == c.rgb.g && d.b == c.rgb.b
  {
    var s := Hex(c);
    assert PairAt(s, 1) as real == c.rgb.r && PairAt(s, 3) as real == c.rgb.g && PairAt(s, 5) as real == c.rgb.b;
  }

  /** The hex round trip keeps alpha 1 and rounds any other alpha to a
      whole number of 255ths. */
  lemma HexRoundTripAlpha(c: Color)
    requires c.Valid() && c.rgb.IntegerChannels()
    ensures FromHex(Hex(c)).value.rgb.alpha ==
              if c.rgb.alpha < 1.0 then Round(c.rgb.alpha * 255.0) as real / 255.0 else 1.0
  {
    var s := Hex(c);
    if c.rgb.alpha < 1.0 {
      assert |s| == 9 && PairAt(s, 7) == Round(c.rgb.alpha * 255.0);
    } else {
      assert |s| == 7;
    }
  }

  /** An opaque colour with whole channels survives the hex round trip
      unchanged. */
  lemma HexRoundTripOpaque(c: Color)
    requires c.Valid() && c.rgb.IntegerChannels() && c.rgb.alpha == 1.0
    ensures FromHex(Hex(c)) == Success(c)
  {
    HexRoundTrip(c);
  }

  /** Two lower-case digit pairs denoting the same byte are the same
      characters. */
  lemma SamePair(s: string, t: string, i: nat)
    requires i + 1 < |s| && i + 1 < |t|
    requires IsLowerHexDigit(s[i]) && IsLowerHexDigit(s[i + 1])
    requires IsLowerHexDigit(t[i]) && IsLowerHexDigit(t[i + 1])
    requires PairAt(s, i) == PairAt(t, i)
    ensures s[i] == t[i] && s[i + 1] == t[i + 1]
  {
    LowerDigitOfValue(s[i]);
    LowerDigitOfValue(s[i + 1]);
    LowerDigitOfValue(t[i]);
    LowerDigitOfValue(t[i + 1]);
  }

  /** Reading a lower-case hex string and writing it back gives the same
      string, except that an alpha byte `ff` (alpha 1) is dropped. */
  lemma ParseThenHex(s: string)
    requires WellFormedHex(s) && forall i | 1 <= i < |s| :: IsLowerHexDigit(s[i])
    ensures Hex(FromHex(s).value) == if |s| == 9 && s[7..] == "ff" then s[..7] else s
  {
    if |s| == 9 && s[7..] == "ff" {
      ParseThenHexDropsOpaqueAlpha(s);
    } else {
      ParseThenHexKeeps(s);
    }
  }

  /** The parsed alpha is below 1 exactly when the alpha byte is not `ff`,
      and then writing it back gives the same byte. */
  lemma AlphaByte(s: string)
    requires WellFormedHex(s) && forall i | 1 <= i < |s| :: IsLowerHexDigit(s[i])
    requires |s| == 9
    ensures FromHex(s).value.rgb.alpha < 1.0 <==> s[7..] != "ff"
    ensures FromHex(s).value.rgb.alpha < 1.0 ==>
              Round(FromHex(s).value.rgb.alpha * 255.0) == PairAt(s, 7)
  {
    var alpha := FromHex(s).value.rgb.alpha;
    var a := PairAt(s, 7);
    assert alpha * 255.0 == a as real;
    RoundInteger(a);
    if a == 255 {
      LowerDigitOfValue(s[7]);
      LowerDigitOfValue(s[8]);
      assert s[7..] == "ff";
    }
    if s[7..] == "ff" {
      assert s[7] == 'f' && s[8] == 'f';
    }
  }

  /** Without an `ff` alpha byte the string comes back unchanged. */
  lemma ParseThenHexKeeps(s: string)
    requires WellFormedHex(s) && forall i | 1 <= i < |s| :: IsLowerHexDigit(s[i])
    requires !(|s| == 9 && s[7..] == "ff")
    ensures Hex(FromHex(s).value) == s
  {
    var c := FromHex(s).value;
    if |s| == 9 {
      AlphaByte(s);
    }
    EqualFromPairs(Hex(c), s);
  }

  /** An `ff` alpha byte parses to alpha 1, which is not written back. */
  lemma ParseThenHexDropsOpaqueAlpha(s: string)
    requires WellFormedHex(s) && forall i | 1 <= i < |s| :: IsLowerHexDigit(s[i])
    requires |s| == 9 && s[7..] == "ff"
    ensures Hex(FromHex(s).value) == s[..7]
  {
    var c := FromHex(s).value;
    AlphaByte(s);
    var u := s[..7];
    assert WellFormedHex(u) && (forall i | 1 <= i < |u| :: IsLowerHexDigit(u[i]))
        && PairAt(u, 1) == PairAt(s, 1) && PairAt(u, 3) == PairAt(s, 3) && PairAt(u, 5) == PairAt(s, 5) by {
      assert forall i | 0 <= i < 7 :: u[i] == s[i];
    }
    EqualFromPairs(Hex(c), u);
  }

  /** Two well-formed lower-case hex strings of the same length whose
      digit pairs denote the same bytes are equal. */
  lemma EqualFromPairs(t: string, u: string)
    requires WellFormedHex(t) && WellFormedHex(u) && |t| == |u|
    requires forall i | 1 <= i < |t| :: IsLowerHexDigit(t[i])
    requires forall i | 1 <= i < |u| :: IsLowerHexDigit(u[i])
    requires PairAt(t, 1) == PairAt(u, 1) && PairAt(t, 3) == PairAt(u, 3) && PairAt(t, 5) == PairAt(u, 5)
    requires |t| == 9 ==> PairAt(t, 7) == PairAt(u, 7)
    ensures t == u
  {
    SamePair(t, u, 1);
    SamePair(t, u, 3);
    SamePair(t, u, 5);
    if |t| == 9 {
      SamePair(t, u, 7);
    }
    forall i | 0 <= i < |t|
      ensures t[i] == u[i]
    {
    }
  }

  /** A nine-character string whose alpha byte is not `ff` round-trips
      exactly. */
  lemma TranslucentHexRoundTrip(s: string)
    requires WellFormedHex(s) && forall i | 1 <= i < |s| :: IsLowerHexDigit(s[i])
    requires |s| == 9 && s[7..] != "ff"
    ensures Hex(FromHex(s).value) == s
  {
    ParseThenHex(s);
  }
}
