/** Shared vocabulary of the colour model: the numbers the validating setters
    receive, the fields a validation error names, the failure-compatible
    result type, and `Math.round` over exact reals. */
module Values {

  /** A JavaScript number as a setter sees it: either NaN or a finite value.
      Doubles are idealised as exact reals (no rounding error, no -0, no
      infinities). */
  datatype Num = NaN | Fin(val: real)

  /** The field a validation error names. `RGB` and `HSL` both have an alpha. */
  datatype Field = R | G | B | H | S | L | Alpha

  /** An optional argument: `None` is JavaScript's `undefined`. */
  datatype Option<+T> = None | Some(value: T)

  /** The outcome of a constructor or setter: the validated value, or the
      validation error that would have been thrown. */
  datatype Result<+T> = Success(value: T) | Failure(error: Field) {

    predicate IsFailure() {
      Failure?
    }

    function PropagateFailure<U>(): Result<U>
      requires Failure?
    {
      Failure(error)
    }

    function Extract(): T
      requires Success?
    {
      value
    }
  }

  /** Accepted by a setter with inclusive bounds `lo` and `hi`. */
  predicate InRange(x: Num, lo: real, hi: real) {
    match x
    case NaN => false
    case Fin(v) => lo <= v && v <= hi
  }

  /** The range test of one numeric setter: NaN or a value outside
      `[lo, hi]` is rejected with an error naming `f`, anything else is
      stored as given. */
  function Check(x: Num, lo: real, hi: real, f: Field): (res: Result<real>)
    ensures res.Success? <==> InRange(x, lo, hi)
    ensures res.Success? ==> res.value == x.val
    ensures res.Failure? ==> res.error == f
  {
    if x.NaN? || x.val < lo || x.val > hi then Failure(f) else Success(x.val)
  }

  /** Accepted by an alpha setter: omitted, or a number in `[0, 1]`. */
  predicate AlphaOk(a: Option<Num>) {
    a.None? || InRange(a.value, 0.0, 1.0)
  }

  /** The alpha setter's test: an omitted alpha becomes 1, a given one must
      lie in `[0, 1]`. */
  function CheckAlpha(a: Option<Num>): (res: Result<real>)
    ensures res.Success? <==> AlphaOk(a)
    ensures a.None? ==> res == Success(1.0)
    ensures a.Some? && res.Success? ==> res.value == a.value.val
    ensures res.Failure? ==> res.error == Alpha
  {
    match a
    case None => Success(1.0)
    case Some(x) => Check(x, 0.0, 1.0, Alpha)
  }

  /** `Math.round` on an exact real: the nearest integer, halves rounded up. */
  function Round(x: real): (n: int)
    ensures n as real - 0.5 <= x < n as real + 0.5
  {
    (x + 0.5).Floor
  }

  /** A real with no fractional part. */
  predicate IsInteger(x: real) {
    x.Floor as real == x
  }

  /** Rounding is the identity on integers. */
  lemma RoundInteger(n: int)
    ensures Round(n as real) == n
  {
  }

  /** Rounding maps `[0, 255]` into the bytes. */
  lemma RoundByteRange(x: real)
    requires 0.0 <= x <= 255.0
    ensures 0 <= Round(x) <= 255
  {
  }
}
