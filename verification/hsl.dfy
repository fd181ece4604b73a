/** The validated `HSL` value object: hue in `[0, 360]`, saturation and
    lightness in `[0, 1]`, alpha in `[0, 1]`. Every field is guarded by a
    setter that either stores the value or fails naming the field; the
    constructor runs the setters in the order h, s, l, alpha. */
module Hsl {
  import opened Values

  datatype HSL = HSL(h: real, s: real, l: real, alpha: real) {

    /** The class invariant the setters maintain. */
    predicate Valid() {
      && 0.0 <= h <= 360.0
      && 0.0 <= s <= 1.0
      && 0.0 <= l <= 1.0
      && 0.0 <= alpha <= 1.0
    }
  }

  /** The constructor: the error reported is the first out-of-range
      argument in the order h, s, l, alpha. */
  function New(h: Num, s: Num, l: Num, alpha: Option<Num>): (res: Result<HSL>)
    ensures res.Success? <==>
              InRange(h, 0.0, 360.0) && InRange(s, 0.0, 1.0) && InRange(l, 0.0, 1.0) && AlphaOk(alpha)
    ensures res.Success? ==> res.value.Valid()
    ensures res.Success? ==>
              && res.value.h == h.val && res.value.s == s.val && res.value.l == l.val
              && res.value.alpha == (if alpha.None? then 1.0 else alpha.value.val)
    ensures res == Failure(H) <==> !InRange(h, 0.0, 360.0)
    ensures res == Failure(S) <==> InRange(h, 0.0, 360.0) && !InRange(s, 0.0, 1.0)
    ensures res == Failure(L) <==>
              InRange(h, 0.0, 360.0) && InRange(s, 0.0, 1.0) && !InRange(l, 0.0, 1.0)
    ensures res == Failure(Alpha) <==>
              InRange(h, 0.0, 360.0) && InRange(s, 0.0, 1.0) && InRange(l, 0.0, 1.0) && !AlphaOk(alpha)
  {
    var h' :- Check(h, 0.0, 360.0, H);
    var s' :- Check(s, 0.0, 1.0, S);
    var l' :- Check(l, 0.0, 1.0, L);
    var a' :- CheckAlpha(alpha);
    Success(HSL(h', s', l', a'))
  }

  /** The `h` setter: stores a value in `[0, 360]`, otherwise fails naming
      `h` and the object keeps its old value. */
  function SetH(c: HSL, x: Num): (res: Result<HSL>)
    ensures res.Success? <==> InRange(x, 0.0, 360.0)
    ensures res.Success? ==> res.value == c.(h := x.val)
    ensures res.Failure? ==> res.error == H
    ensures res.Success? && c.Valid() ==> res.value.Valid()
  {
    var v :- Check(x, 0.0, 360.0, H);
    Success(c.(h := v))
  }

  /** The `s` setter. */
  function SetS(c: HSL, x: Num): (res: Result<HSL>)
    ensures res.Success? <==> InRange(x, 0.0, 1.0)
    ensures res.Success? ==> res.value == c.(s := x.val)
    ensures res.Failure? ==> res.error == S
    ensures res.Success? && c.Valid() ==> res.value.Valid()
  {
    var v :- Check(x, 0.0, 1.0, S);
    Success(c.(s := v))
  }

  /** The `l` setter. */
  function SetL(c: HSL, x: Num): (res: Result<HSL>)
    ensures res.Success? <==> InRange(x, 0.0, 1.0)
    ensures res.Success? ==> res.value == c.(l := x.val)
    ensures res.Failure? ==> res.error == L
    ensures res.Success? && c.Valid() ==> res.value.Valid()
  {
    var v :- Check(x, 0.0, 1.0, L);
    Success(c.(l := v))
  }

  /** The `alpha` setter: `undefined` resets alpha to 1. */
  function SetAlpha(c: HSL, a: Option<Num>): (res: Result<HSL>)
    ensures res.Success? <==> AlphaOk(a)
    ensures a.None? ==> res == Success(c.(alpha := 1.0))
    ensures a.Some? && res.Success? ==> res.value == c.(alpha := a.value.val)
    ensures res.Failure? ==> res.error == Alpha
    ensures res.Success? && c.Valid() ==> res.value.Valid()
  {
    var v :- CheckAlpha(a);
    Success(c.(alpha := v))
  }

  /** Setting one field of a valid object agrees with constructing it from
      the new value and the other current fields. */
  lemma SettersAgreeWithConstructor(c: HSL, x: Num)
    requires c.Valid()
    ensures SetH(c, x) == New(x, Fin(c.s), Fin(c.l), Some(Fin(c.alpha)))
    ensures SetS(c, x) == New(Fin(c.h), x, Fin(c.l), Some(Fin(c.alpha)))
    ensures SetL(c, x) == New(Fin(c.h), Fin(c.s), x, Some(Fin(c.alpha)))
  {
  }

  /** A lightness of 1.5 is rejected naming `l`. */
  lemma LightnessOutOfRange()
    ensures New(Fin(0.0), Fin(0.0), Fin(1.5), None) == Failure(L)
  {
  }
}
