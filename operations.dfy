/**
 * Geometric and numeric helpers of the transport code: the transverse frame built
 * around a direction, and the degree-8 polynomial in ln(p).
 */
module Operations {
  import opened RealMath
  import opened Vectors
  import opened Wrappers

  const XAxis := Vec3(1.0, 0.0, 0.0)
  const YAxis := Vec3(0.0, 1.0, 0.0)

  /**
   * The axis picked from a direction: the x axis when its x-component is below
   * 0.999, otherwise the y axis. A missing (NaN) direction fails the comparison,
   * so it gets the y axis.
   */
  function ChooseAxis(d: Option<Vec3>): Vec3 {
    match d
    case Some(n) => if n.x < 0.999 then XAxis else YAxis
    case None => YAxis
  }

  /**
   * The axis picked from the direction of a nonzero `vec` is colinear with `vec`
   * exactly when `vec` points along the negative x axis.
   */
  lemma ChooseAxisColinear(sqrt: real -> real, vec: Vec3)
    ensures ExactSqrt(sqrt) && vec != Zero ==>
      (Cross(vec, ChooseAxis(Norm(sqrt, vec))) == Zero <==> OnNegativeXAxis(vec))
  {
    if ExactSqrt(sqrt) && vec != Zero {
      MagZeroIff(sqrt, vec);
      var t := ChooseAxis(Norm(sqrt, vec));
      if vec.y == 0.0 && vec.z == 0.0 {
        NormOfXMultiple(sqrt, vec);
      } else if vec.x == 0.0 {
        NormOfNoX(sqrt, vec);
        assert t == XAxis;
      }
      if t == XAxis {
        assert Cross(vec, t) == Vec3(0.0, vec.z, -vec.y);
      } else {
        assert Cross(vec, t) == Vec3(-vec.z, 0.0, vec.x);
      }
    }
  }

  /**
   * The helper vector crossed with `vec`: the axis chosen from `vec`'s direction.
   * For a nonzero `vec` it is colinear with `vec`, so that the first cross product
   * vanishes, exactly on the negative x axis.
   */
  function HelperAxis(sqrt: real -> real, vec: Vec3): (t: Vec3)
    ensures t == XAxis || t == YAxis
    ensures t == XAxis <==> Norm(sqrt, vec).Some? && Norm(sqrt, vec).value.x < 0.999
    ensures ExactSqrt(sqrt) && vec != Zero ==> (Cross(vec, t) == Zero <==> OnNegativeXAxis(vec))
  {
    ChooseAxisColinear(sqrt, vec);
    ChooseAxis(Norm(sqrt, vec))
  }

  /** u = norm(vec × temp) and v = norm(vec × u); None where a normalisation divides by zero. */
  function BasisFrom(sqrt: real -> real, vec: Vec3, temp: Vec3): Option<(Vec3, Vec3)> {
    match Norm(sqrt, Cross(vec, temp))
    case None => None
    case Some(u) =>
      match Norm(sqrt, Cross(vec, u))
      case None => None
      case Some(v) => Some((u, v))
  }

  /** The two vectors completing `vec` to an orthonormal basis (vec, u, v). */
  function OrthonormalBasis(sqrt: real -> real, vec: Vec3): Option<(Vec3, Vec3)> {
    BasisFrom(sqrt, vec, HelperAxis(sqrt, vec))
  }

  /**
   * `u` and `v` are unit vectors, orthogonal to each other and to `vec`, and
   * (vec, u, v) is right-handed: v points the same way as vec × u.
   */
  ghost predicate RightHandedFrame(sqrt: real -> real, vec: Vec3, u: Vec3, v: Vec3) {
    Dot(vec, u) == 0.0 && Dot(vec, v) == 0.0 && Dot(u, v) == 0.0 &&
    Mag(sqrt, u) == 1.0 && Mag(sqrt, v) == 1.0 && 0.0 < Dot(Cross(vec, u), v)
  }

  /** A negative multiple of the x axis. */
  predicate OnNegativeXAxis(v: Vec3) {
    v.x < 0.0 && v.y == 0.0 && v.z == 0.0
  }

  /** Normalising keeps orthogonality to any vector. */
  lemma NormKeepsOrthogonal(sqrt: real -> real, a: Vec3, w: Vec3)
    requires Dot(a, w) == 0.0 && Norm(sqrt, w).Some?
    ensures Dot(a, Norm(sqrt, w).value) == 0.0
  {
    var m, n := Mag(sqrt, w), Norm(sqrt, w).value;
    NormScales(sqrt, w);
    DotScaleRight(a, m, n);
    MulZero(m, Dot(a, n));
  }

  /**
   * Once `vec × temp` is nonzero, both normalisations succeed and the result is
   * orthonormal; a zero `vec × temp` makes the first normalisation fail.
   */
  lemma BasisFromCorrect(sqrt: real -> real, vec: Vec3, temp: Vec3)
    requires ExactSqrt(sqrt) && vec != Zero
    ensures BasisFrom(sqrt, vec, temp).Some? <==> Cross(vec, temp) != Zero
    ensures BasisFrom(sqrt, vec, temp).Some? ==>
      RightHandedFrame(sqrt, vec, BasisFrom(sqrt, vec, temp).value.0, BasisFrom(sqrt, vec, temp).value.1)
  {
    var w := Cross(vec, temp);
    MagZeroIff(sqrt, w);
    if w != Zero {
      NormIsUnit(sqrt, w);
      var u := Norm(sqrt, w).value;
      CrossOrthogonal(vec, temp);
      NormKeepsOrthogonal(sqrt, vec, w);
      DotSelf(u);
      CrossOfOrthogonal(vec, u);
      var w2 := Cross(vec, u);
      DotSelf(w2);
      NormIsUnit(sqrt, w2);
      var v := Norm(sqrt, w2).value;
      CrossOrthogonal(vec, u);
      NormKeepsOrthogonal(sqrt, vec, w2);
      NormKeepsOrthogonal(sqrt, u, w2);
      DotNormPositive(sqrt, w2);
      assert BasisFrom(sqrt, vec, temp) == Some((u, v));
    }
  }

  /** The first normalisation of a zero `vec` already fails. */
  lemma BasisFromZero(sqrt: real -> real, temp: Vec3)
    requires ExactSqrt(sqrt)
    ensures BasisFrom(sqrt, Zero, temp) == None
  {
    CrossZeroLeft(temp);
    NormOfZero(sqrt);
  }

  /** The direction of a nonzero multiple of the x axis is ±(1, 0, 0). */
  lemma NormOfXMultiple(sqrt: real -> real, vec: Vec3)
    requires ExactSqrt(sqrt) && vec.x != 0.0 && vec.y == 0.0 && vec.z == 0.0
    ensures Norm(sqrt, vec).Some?
    ensures Norm(sqrt, vec).value.x == if vec.x < 0.0 then -1.0 else 1.0
  {
    var a := Abs(vec.x);
    assert a * a == Dot(vec, vec);
    SqrtUnique(sqrt, Dot(vec, vec), a);
    assert Norm(sqrt, vec).value.x == vec.x / a;
    DivSelf(a);
  }

  /** The direction of a nonzero vector with no x-component has x-component 0. */
  lemma NormOfNoX(sqrt: real -> real, vec: Vec3)
    requires ExactSqrt(sqrt) && vec != Zero && vec.x == 0.0
    ensures Norm(sqrt, vec).Some? && Norm(sqrt, vec).value.x == 0.0
  {
    MagZeroIff(sqrt, vec);
  }

  /**
   * As written, the basis exists exactly for the nonzero vectors that do not point
   * along the negative x axis.
   */
  lemma OrthonormalBasisDefined(sqrt: real -> real, vec: Vec3)
    requires ExactSqrt(sqrt)
    ensures OrthonormalBasis(sqrt, vec).Some? <==> vec != Zero && !OnNegativeXAxis(vec)
  {
    if vec == Zero {
      BasisFromZero(sqrt, HelperAxis(sqrt, vec));
    } else {
      BasisFromCorrect(sqrt, vec, HelperAxis(sqrt, vec));
    }
  }

  /** Wherever the basis exists, it is orthonormal, orthogonal to `vec` and right-handed. */
  lemma OrthonormalBasisIsOrthonormal(sqrt: real -> real, vec: Vec3)
    requires ExactSqrt(sqrt) && vec != Zero && !OnNegativeXAxis(vec)
    ensures OrthonormalBasis(sqrt, vec).Some?
    ensures RightHandedFrame(sqrt, vec, OrthonormalBasis(sqrt, vec).value.0, OrthonormalBasis(sqrt, vec).value.1)
  {
    OrthonormalBasisDefined(sqrt, vec);
    BasisFromCorrect(sqrt, vec, HelperAxis(sqrt, vec));
  }

  /** A vector of unit length is its own direction. */
  lemma NormOfUnit(sqrt: real -> real, v: Vec3)
    requires ExactSqrt(sqrt) && Dot(v, v) == 1.0
    ensures Norm(sqrt, v) == Some(v)
  {
    SqrtUnique(sqrt, 1.0, 1.0);
  }

  /** When both cross products are already of unit length, they are the basis. */
  lemma BasisFromUnits(sqrt: real -> real, vec: Vec3, temp: Vec3, u: Vec3, v: Vec3)
    requires ExactSqrt(sqrt)
    requires Cross(vec, temp) == u && Dot(u, u) == 1.0
    requires Cross(vec, u) == v && Dot(v, v) == 1.0
    ensures BasisFrom(sqrt, vec, temp) == Some((u, v))
  {
    NormOfUnit(sqrt, u);
    NormOfUnit(sqrt, v);
  }

  /** For a unit vector the helper axis is decided on its own x-component. */
  lemma HelperAxisOfUnit(sqrt: real -> real, vec: Vec3)
    requires ExactSqrt(sqrt) && Dot(vec, vec) == 1.0
    ensures HelperAxis(sqrt, vec) == if vec.x < 0.999 then XAxis else YAxis
  {
    NormOfUnit(sqrt, vec);
  }

  /** The basis of a unit vector, once both cross products are known to be unit vectors. */
  lemma BasisOfUnit(sqrt: real -> real, vec: Vec3, u: Vec3, v: Vec3)
    requires ExactSqrt(sqrt) && Dot(vec, vec) == 1.0
    requires Cross(vec, if vec.x < 0.999 then XAxis else YAxis) == u && Dot(u, u) == 1.0
    requires Cross(vec, u) == v && Dot(v, v) == 1.0
    ensures OrthonormalBasis(sqrt, vec) == Some((u, v))
  {
    HelperAxisOfUnit(sqrt, vec);
    BasisFromUnits(sqrt, vec, if vec.x < 0.999 then XAxis else YAxis, u, v);
  }

  /** The basis around the x axis is (z, -y). */
  lemma BasisOfXAxis(sqrt: real -> real)
    requires ExactSqrt(sqrt)
    ensures OrthonormalBasis(sqrt, XAxis) == Some((Vec3(0.0, 0.0, 1.0), Vec3(0.0, -1.0, 0.0)))
  {
    AxisBasis(sqrt, XAxis, Vec3(0.0, 0.0, 1.0), Vec3(0.0, -1.0, 0.0));
  }

  /** The basis around the y axis is (-z, -x). */
  lemma BasisOfYAxis(sqrt: real -> real)
    requires ExactSqrt(sqrt)
    ensures OrthonormalBasis(sqrt, YAxis) == Some((Vec3(0.0, 0.0, -1.0), Vec3(-1.0, 0.0, 0.0)))
  {
    AxisBasis(sqrt, YAxis, Vec3(0.0, 0.0, -1.0), Vec3(-1.0, 0.0, 0.0));
  }

  /** The basis around the z axis is (y, -x). */
  lemma BasisOfZAxis(sqrt: real -> real)
    requires ExactSqrt(sqrt)
    ensures OrthonormalBasis(sqrt, Vec3(0.0, 0.0, 1.0)) == Some((YAxis, Vec3(-1.0, 0.0, 0.0)))
  {
    AxisBasis(sqrt, Vec3(0.0, 0.0, 1.0), YAxis, Vec3(-1.0, 0.0, 0.0));
  }

  /** The three coordinate-axis cases: each vector with the basis it is expected to produce. */
  predicate AxisCase(vec: Vec3, u: Vec3, v: Vec3) {
    || (vec == XAxis && u == Vec3(0.0, 0.0, 1.0) && v == Vec3(0.0, -1.0, 0.0))
    || (vec == YAxis && u == Vec3(0.0, 0.0, -1.0) && v == Vec3(-1.0, 0.0, 0.0))
    || (vec == Vec3(0.0, 0.0, 1.0) && u == YAxis && v == Vec3(-1.0, 0.0, 0.0))
  }

  /** One of the six vectors ±x, ±y, ±z. */
  predicate SignedAxis(w: Vec3) {
    || ((w.x == 1.0 || w.x == -1.0) && w.y == 0.0 && w.z == 0.0)
    || (w.x == 0.0 && (w.y == 1.0 || w.y == -1.0) && w.z == 0.0)
    || (w.x == 0.0 && w.y == 0.0 && (w.z == 1.0 || w.z == -1.0))
  }

  lemma SignedAxisUnit(w: Vec3)
    requires SignedAxis(w)
    ensures Dot(w, w) == 1.0
  {
  }

  /** In the axis cases the two cross products come out exactly as the expected basis. */
  lemma AxisCaseCrosses(vec: Vec3, u: Vec3, v: Vec3)
    requires AxisCase(vec, u, v)
    ensures Cross(vec, if vec.x < 0.999 then XAxis else YAxis) == u && Cross(vec, u) == v
  {
  }

  lemma AxisBasis(sqrt: real -> real, vec: Vec3, u: Vec3, v: Vec3)
    requires ExactSqrt(sqrt) && AxisCase(vec, u, v)
    ensures OrthonormalBasis(sqrt, vec) == Some((u, v))
  {
    SignedAxisUnit(vec);
    SignedAxisUnit(u);
    SignedAxisUnit(v);
    AxisCaseCrosses(vec, u, v);
    BasisOfUnit(sqrt, vec, u, v);
  }

  /** Counterexample: for (-1, 0, 0) the helper axis is colinear and no basis results. */
  lemma NegativeXAxisHasNoBasis(sqrt: real -> real)
    requires ExactSqrt(sqrt)
    ensures OrthonormalBasis(sqrt, Vec3(-1.0, 0.0, 0.0)) == None
  {
    OrthonormalBasisDefined(sqrt, Vec3(-1.0, 0.0, 0.0));
  }

  /** The axis picked on the magnitude of the direction's x-component, |x| < 0.999. */
  function ChooseAxisCorrected(d: Option<Vec3>): Vec3 {
    match d
    case Some(n) => if Abs(n.x) < 0.999 then XAxis else YAxis
    case None => YAxis
  }

  /** The corrected choice is never colinear with a nonzero `vec`. */
  lemma ChooseAxisCorrectedNotColinear(sqrt: real -> real, vec: Vec3)
    ensures ExactSqrt(sqrt) && vec != Zero ==> Cross(vec, ChooseAxisCorrected(Norm(sqrt, vec))) != Zero
  {
    if ExactSqrt(sqrt) && vec != Zero {
      MagZeroIff(sqrt, vec);
      var t := ChooseAxisCorrected(Norm(sqrt, vec));
      if vec.y == 0.0 && vec.z == 0.0 {
        NormOfXMultiple(sqrt, vec);
        assert t == YAxis;
      } else if vec.x == 0.0 {
        NormOfNoX(sqrt, vec);
        assert t == XAxis;
      }
      if t == XAxis {
        assert Cross(vec, t) == Vec3(0.0, vec.z, -vec.y);
      } else {
        assert Cross(vec, t) == Vec3(-vec.z, 0.0, vec.x);
      }
    }
  }

  /** The helper axis chosen on abs(x) < 0.999: never colinear with a nonzero `vec`. */
  function HelperAxisCorrected(sqrt: real -> real, vec: Vec3): (t: Vec3)
    ensures t == XAxis || t == YAxis
    ensures ExactSqrt(sqrt) && vec != Zero ==> Cross(vec, t) != Zero
  {
    ChooseAxisCorrectedNotColinear(sqrt, vec);
    ChooseAxisCorrected(Norm(sqrt, vec))
  }

  function OrthonormalBasisCorrected(sqrt: real -> real, vec: Vec3): Option<(Vec3, Vec3)> {
    BasisFrom(sqrt, vec, HelperAxisCorrected(sqrt, vec))
  }

  /** With the corrected helper axis the basis exists, and is orthonormal, for every nonzero vector. */
  lemma OrthonormalBasisCorrectedTotal(sqrt: real -> real, vec: Vec3)
    requires ExactSqrt(sqrt)
    ensures OrthonormalBasisCorrected(sqrt, vec).Some? <==> vec != Zero
    ensures vec != Zero ==>
      RightHandedFrame(sqrt, vec, OrthonormalBasisCorrected(sqrt, vec).value.0, OrthonormalBasisCorrected(sqrt, vec).value.1)
  {
    var t := HelperAxisCorrected(sqrt, vec);
    if vec == Zero {
      BasisFromZero(sqrt, t);
    } else {
      BasisFromCorrect(sqrt, vec, t);
    }
  }

  /** Σ cs[n]·x^n for n < |cs|, accumulated in index order as the iterator chain does. */
  function PolySum(x: real, cs: seq<real>): real {
    if cs == [] then 0.0 else PolySum(x, cs[..|cs| - 1]) + cs[|cs| - 1] * Pow(x, |cs| - 1)
  }

  /** The polynomial in x = ln(p) with coefficients cs[0], cs[1], ... */
  function LogPolynomial(ln: real -> real, p: real, cs: seq<real>): real {
    PolySum(ln(p), cs)
  }

  /** The same polynomial in Horner form, c0 + x·(c1 + x·(c2 + ...)). */
  function Horner(x: real, cs: seq<real>): real {
    if cs == [] then 0.0 else cs[0] + x * Horner(x, cs[1..])
  }

  lemma {:induction false} HornerAppend(x: real, cs: seq<real>, c: real)
    ensures Horner(x, cs + [c]) == Horner(x, cs) + c * Pow(x, |cs|)
  {
    if cs == [] {
      assert [c][1..] == [];
    } else {
      assert (cs + [c])[1..] == cs[1..] + [c];
      HornerAppend(x, cs[1..], c);
      var h, p := Horner(x, cs[1..]), Pow(x, |cs| - 1);
      assert Horner(x, cs + [c]) == cs[0] + x * (h + c * p);
      assert x * (h + c * p) == x * h + c * (p * x);
    }
  }

  /** The index-order sum and the Horner form agree for every coefficient list. */
  lemma {:induction false} PolySumIsHorner(x: real, cs: seq<real>)
    ensures PolySum(x, cs) == Horner(x, cs)
  {
    if cs != [] {
      var init := cs[..|cs| - 1];
      PolySumIsHorner(x, init);
      assert init + [cs[|cs| - 1]] == cs;
      HornerAppend(x, init, cs[|cs| - 1]);
    }
  }

  lemma PolySumAppend(x: real, cs: seq<real>, c: real)
    ensures PolySum(x, cs + [c]) == PolySum(x, cs) + c * Pow(x, |cs|)
  {
    var s := cs + [c];
    assert s[..|s| - 1] == cs;
  }

  /** An empty coefficient list gives 0. */
  lemma LogPolynomialEmpty(ln: real -> real, p: real)
    ensures LogPolynomial(ln, p, []) == 0.0
  {
  }

  /** Appending a coefficient c to k coefficients adds exactly c·ln(p)^k. */
  lemma LogPolynomialAppend(ln: real -> real, p: real, cs: seq<real>, c: real)
    ensures LogPolynomial(ln, p, cs + [c]) == LogPolynomial(ln, p, cs) + c * Pow(ln(p), |cs|)
  {
    PolySumAppend(ln(p), cs, c);
  }

  /** Prepending a coefficient c gives c + ln(p)·(the polynomial of the rest). */
  lemma LogPolynomialPrepend(ln: real -> real, p: real, c: real, cs: seq<real>)
    ensures LogPolynomial(ln, p, [c] + cs) == c + ln(p) * LogPolynomial(ln, p, cs)
  {
    PolySumIsHorner(ln(p), [c] + cs);
    PolySumIsHorner(ln(p), cs);
    assert ([c] + cs)[1..] == cs;
  }

  /** Where ln(p) is zero (p = 1), only the constant coefficient remains. */
  lemma LogPolynomialAtLogZero(ln: real -> real, p: real, cs: seq<real>)
    requires |cs| > 0 && ln(p) == 0.0
    ensures LogPolynomial(ln, p, cs) == cs[0]
  {
    PolySumIsHorner(ln(p), cs);
  }
}
