/** The floating-point library calls the guidance engines make (powf, sqrtf,
    atan2f, fabsf), on reals.  The three transcendental calls are not
    computed: a `Libm` value carries them as functions, and each function
    type promises only the laws of the real function that the engines'
    logic depends on. */
module Numerics {

  /** fabsf */
  function Abs(x: real): (r: real)
    ensures r >= 0.0
    ensures r == x || r == -x
  {
    if x < 0.0 then -x else x
  }

  /** A strictly positive real. */
  type Pos = x: real | x > 0.0 witness 1.0

  /** A real that is not negative. */
  type NonNeg = x: real | x >= 0.0 witness 0.0

  /** The sign of y, as a real. */
  function Sign(y: real): real {
    if y > 0.0 then 1.0 else if y < 0.0 then -1.0 else 0.0
  }

  /** atan2f(y, x).  In the right half-plane x >= 0, which is all the
      engines ask about, the angle has the sign of y. */
  type Atan2Fn = f: (real, real) -> real |
    forall y, x :: x >= 0.0 ==>
      && (f(y, x) > 0.0 <==> y > 0.0)
      && (f(y, x) < 0.0 <==> y < 0.0)
    witness SignAngle

  /** The sign of y as an angle: shows `Atan2Fn` is inhabited; it is not an
      approximation of atan2. */
  function SignAngle(y: real, x: real): (r: real)
    ensures (r > 0.0 <==> y > 0.0) && (r < 0.0 <==> y < 0.0)
  {
    Sign(y)
  }

  /** Multiplying by a positive factor keeps an order. */
  lemma ScaleStrict(a: real, b: real, x: real)
    requires a < b && 0.0 < x
    ensures a * x < b * x
  {
  }

  lemma ScaleAtMost(a: real, b: real, x: real)
    requires a <= b && 0.0 < x
    ensures a * x <= b * x
  {
  }

  /** The library calls the engines make, as values: x dB to linear
      amplitude, powf(10, x / 20), which is positive everywhere; sqrtf,
      which is never negative; and atan2f. */
  datatype Libm = Libm(dbToLin: real -> Pos, sqrt: real -> NonNeg, atan2: Atan2Fn)
}
