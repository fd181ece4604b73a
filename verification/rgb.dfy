/** The validated `RGB` value object: red, green and blue in `[0, 255]` and
    alpha in `[0, 1]`. Every field is guarded by a setter that either stores
    the value or fails naming the field; the constructor runs the setters in
    the order r, g, b, alpha. */
module Rgb {
  import opened Values

  datatype RGB = RGB(r: real, g: real, b: real, alpha: real) {

    /** The class invariant the setters maintain. */
    predicate Valid() {
      && 0.0 <= r <= 255.0
      && 0.0 <= g <= 255.0
      && 0.0 <= b <= 255.0
      && 0.0 <= alpha <= 1.0
    }

    /** Channels that are whole numbers, as produced by the HSL conversion
        and by hex parsing. */
    predicate IntegerChannels() {
      IsInteger(r) && IsInteger(g) && IsInteger(b)
    }
  }

  /** The constructor: each argument passes its setter's check in turn, so
      the error reported is the first out-of-range argument in the order
      r, g, b, alpha. Channels need not be integers. */
  function New(r: Num, g: Num, b: Num, alpha: Option<Num>): (res: Result<RGB>)
    ensures res.Success? <==>
              InRange(r, 0.0, 255.0) && InRange(g, 0.0, 255.0) && InRange(b, 0.0, 255.0) && AlphaOk(alpha)
    ensures res.Success? ==> res.value.Valid()
    ensures res.Success? ==>
              && res.value.r == r.val && res.value.g == g.val && res.value.b == b.val
              && res.value.alpha == (if alpha.None? then 1.0 else alpha.value.val)
    ensures res == Failure(R) <==> !InRange(r, 0.0, 255.0)
    ensures res == Failure(G) <==> InRange(r, 0.0, 255.0) && !InRange(g, 0.0, 255.0)
    ensures res == Failure(B) <==>
              InRange(r, 0.0, 255.0) && InRange(g, 0.0, 255.0) && !InRange(b, 0.0, 255.0)
    ensures res == Failure(Alpha) <==>
              InRange(r, 0.0, 255.0) && InRange(g, 0.0, 255.0) && InRange(b, 0.0, 255.0) && !AlphaOk(alpha)
  {
    var r' :- Check(r, 0.0, 255.0, R);
    var g' :- Check(g, 0.0, 255.0, G);
    var b' :- Check(b, 0.0, 255.0, B);
    var a' :- CheckAlpha(alpha);
    Success(RGB(r', g', b', a'))
  }

  /** The `r` setter: stores an in-range value, otherwise fails naming `r`
      and the object keeps its old value. */
  function SetR(c: RGB, x: Num): (res: Result<RGB>)
    ensures res.Success? <==> InRange(x, 0.0, 255.0)
    ensures res.Success? ==> res.value == c.(r := x.val)
    ensures res.Failure? ==> res.error == R
    ensures res.Success? && c.Valid() ==> res.value.Valid()
  {
    var v :- Check(x, 0.0, 255.0, R);
    Success(c.(r := v))
  }

  /** The `g` setter. */
  function SetG(c: RGB, x: Num): (res: Result<RGB>)
    ensures res.Success? <==> InRange(x, 0.0, 255.0)
    ensures res.Success? ==> res.value == c.(g := x.val)
    ensures res.Failure? ==> res.error == G
    ensures res.Success? && c.Valid() ==> res.value.Valid()
  {
    var v :- Check(x, 0.0, 255.0, G);
    Success(c.(g := v))
  }

  /** The `b` setter. */
  function SetB(c: RGB, x: Num): (res: Result<RGB>)
    ensures res.Success? <==> InRange(x, 0.0, 255.0)
    ensures res.Success? ==> res.value == c.(b := x.val)
    ensures res.Failure? ==> res.error == B
    ensures res.Success? && c.Valid() ==> res.value.Valid()
  {
    var v :- Check(x, 0.0, 255.0, B);
    Success(c.(b := v))
  }

  /** The `alpha` setter: `undefined` resets alpha to 1. */
  function SetAlpha(c: RGB, a: Option<Num>): (res: Result<RGB>)
    ensures res.Success? <==> AlphaOk(a)
    ensures a.None? ==> res == Success(c.(alpha := 1.0))
    ensures a.Some? && res.Success? ==> res.value == c.(alpha := a.value.val)
    ensures res.Failure? ==> res.error == Alpha
    ensures res.Success? && c.Valid() ==> res.value.Valid()
  {
    var v :- CheckAlpha(a);
    Success(c.(alpha := v))
  }

  /** Setting one field of a valid object agrees with constructing it from
      the new value and the other current fields. */
  lemma SettersAgreeWithConstructor(c: RGB, x: Num)
    requires c.Valid()
    ensures SetR(c, x) == New(x, Fin(c.g), Fin(c.b), Some(Fin(c.alpha)))
    ensures SetG(c, x) == New(Fin(c.r), x, Fin(c.b), Some(Fin(c.alpha)))
    ensures SetB(c, x) == New(Fin(c.r), Fin(c.g), x, Some(Fin(c.alpha)))
  {
  }

  /** A red channel of 256 is rejected, naming `r`. */
  lemma RedOutOfRange()
    ensures New(Fin(256.0), Fin(0.0), Fin(0.0), None) == Failure(R)
  {
  }
}
