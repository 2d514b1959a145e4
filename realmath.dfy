/**
 * Real-number helpers standing in for `f64` library calls.
 *
 * `f64::sqrt` and `f64::ln` are not definable here, so every model function that
 * needs them takes them as parameters. The facts below rely only on the hypothesis that the
 * square-root routine is exact on the non-negative reals.
 */
module RealMath {

  /** `sqrt(x)` is the non-negative square root of `x`, when `x` is non-negative. */
  ghost predicate RootAt(sqrt: real -> real, x: real) {
    0.0 <= x ==> 0.0 <= sqrt(x) && sqrt(x) * sqrt(x) == x
  }

  /**
   * `sqrt` returns the non-negative square root of every non-negative real. The
   * quantifier fires only on `RootAt` terms, so proofs instantiate it through
   * SqrtSpec where they need it.
   */
  ghost predicate ExactSqrt(sqrt: real -> real) {
    forall x :: RootAt(sqrt, x)
  }

  lemma SqrtSpec(sqrt: real -> real, x: real)
    requires ExactSqrt(sqrt) && 0.0 <= x
    ensures 0.0 <= sqrt(x) && sqrt(x) * sqrt(x) == x
  {
    assert RootAt(sqrt, x);
  }

  /** `x.powf(2.0)` */
  function Square(x: real): real { x * x }

  /** `x.powf(n as f64)` for a whole exponent `n`; `Pow(x, 0) == 1.0` for every `x`. */
  function Pow(x: real, n: nat): real {
    if n == 0 then 1.0 else Pow(x, n - 1) * x
  }

  function Abs(x: real): (r: real)
    ensures 0.0 <= r && (r == x || r == -x)
  {
    if x < 0.0 then -x else x
  }

  /** Squaring is strictly monotone on the non-negative reals. */
  lemma SquareLess(r: real, a: real)
    requires 0.0 <= r < a
    ensures r * r < a * a
  {
    var d := a - r;
    assert a * a == r * r + 2.0 * r * d + d * d;
    assert d * d > 0.0;
    assert r * d >= 0.0;
  }

  /** A square is non-negative, and zero only for zero. */
  lemma SquareFacts(x: real)
    ensures 0.0 <= x * x && (x * x == 0.0 <==> x == 0.0)
  {
    if 0.0 < x {
      SquareLess(0.0, x);
    } else if x < 0.0 {
      SquareLess(0.0, -x);
      assert (-x) * (-x) == x * x;
    }
  }

  /** A product with a nonzero factor vanishes only if the other factor does. */
  lemma MulZero(a: real, b: real)
    requires a != 0.0 && a * b == 0.0
    ensures b == 0.0
  {
    assert b == (a * b) / a;
  }

  lemma DivSelf(a: real)
    requires a != 0.0
    ensures a / a == 1.0 && (-a) / a == -1.0
  {
  }

  lemma MulPositive(a: real, b: real)
    requires 0.0 < a && 0.0 < b
    ensures 0.0 < a * b
  {
  }

  lemma SqrtZero(sqrt: real -> real)
    requires ExactSqrt(sqrt)
    ensures sqrt(0.0) == 0.0
  {
    SqrtSpec(sqrt, 0.0);
    SquareFacts(sqrt(0.0));
  }

  /** The exact square root of `x` is the non-negative `a` with a² = x. */
  lemma SqrtUnique(sqrt: real -> real, x: real, a: real)
    requires ExactSqrt(sqrt) && 0.0 <= a && a * a == x
    ensures sqrt(x) == a
  {
    SqrtSpec(sqrt, x);
    var r := sqrt(x);
    if r < a {
      SquareLess(r, a);
    } else if a < r {
      SquareLess(a, r);
    }
  }

  lemma SqrtAtLeast(sqrt: real -> real, x: real, a: real)
    requires ExactSqrt(sqrt) && 0.0 <= a && a * a <= x
    ensures a <= sqrt(x)
  {
    SqrtSpec(sqrt, x);
    var r := sqrt(x);
    if r < a {
      SquareLess(r, a);
    }
  }

  lemma SqrtBelowOne(sqrt: real -> real, x: real)
    requires ExactSqrt(sqrt) && 0.0 <= x < 1.0
    ensures 0.0 <= sqrt(x) < 1.0
  {
    SqrtSpec(sqrt, x);
    var r := sqrt(x);
  }

  lemma SqrtZeroIff(sqrt: real -> real, x: real)
    requires ExactSqrt(sqrt) && 0.0 <= x
    ensures sqrt(x) == 0.0 <==> x == 0.0
  {
    SqrtSpec(sqrt, x);
    SquareFacts(sqrt(x));
  }
}
