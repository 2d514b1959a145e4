/**
 * Three-component vectors over the reals (`Vec3(pub f64, pub f64, pub f64)`) with the
 * products, magnitude and normalisation the kinematics and the basis construction use.
 */
module Vectors {
  import opened RealMath
  import opened Wrappers

  datatype Vec3 = Vec3(x: real, y: real, z: real)

  const Zero := Vec3(0.0, 0.0, 0.0)

  function Dot(a: Vec3, b: Vec3): real {
    a.x * b.x + a.y * b.y + a.z * b.z
  }

  function Scale(k: real, v: Vec3): Vec3 {
    Vec3(k * v.x, k * v.y, k * v.z)
  }

  /** Right-handed cross product. */
  function Cross(a: Vec3, b: Vec3): Vec3 {
    Vec3(a.y * b.z - a.z * b.y, a.z * b.x - a.x * b.z, a.x * b.y - a.y * b.x)
  }

  /** The cross product is orthogonal to both factors. */
  lemma CrossOrthogonal(a: Vec3, b: Vec3)
    ensures Dot(a, Cross(a, b)) == 0.0 && Dot(b, Cross(a, b)) == 0.0
  {
  }

  lemma CrossZeroLeft(b: Vec3)
    ensures Cross(Zero, b) == Zero
  {
  }

  /** Euclidean length, computed with the given square-root routine. */
  function Mag(sqrt: real -> real, v: Vec3): real {
    sqrt(Dot(v, v))
  }

  /**
   * `v` divided by its magnitude. The `f64` division by a zero magnitude yields NaN
   * components; the model returns None there instead.
   */
  function Norm(sqrt: real -> real, v: Vec3): (n: Option<Vec3>)
    ensures n.None? <==> Mag(sqrt, v) == 0.0
  {
    var m := Mag(sqrt, v);
    if m == 0.0 then None else Some(Vec3(v.x / m, v.y / m, v.z / m))
  }

  /** A successful normalisation scaled back by the magnitude gives the original vector. */
  lemma NormScales(sqrt: real -> real, v: Vec3)
    requires Norm(sqrt, v).Some?
    ensures Scale(Mag(sqrt, v), Norm(sqrt, v).value) == v
  {
  }

  /** Normalising the zero vector fails. */
  lemma NormOfZero(sqrt: real -> real)
    requires ExactSqrt(sqrt)
    ensures Norm(sqrt, Zero) == None
  {
    MagOfZero(sqrt);
  }

  lemma DotSelf(v: Vec3)
    ensures 0.0 <= Dot(v, v)
    ensures Dot(v, v) == 0.0 <==> v == Zero
  {
    SquareFacts(v.x);
    SquareFacts(v.y);
    SquareFacts(v.z);
  }

  lemma DotScaleRight(a: Vec3, k: real, b: Vec3)
    ensures Dot(a, Scale(k, b)) == k * Dot(a, b)
  {
  }

  /** With an exact square root, the magnitude squares to `v · v`. */
  lemma MagSquared(sqrt: real -> real, v: Vec3)
    requires ExactSqrt(sqrt)
    ensures 0.0 <= Mag(sqrt, v) && Mag(sqrt, v) * Mag(sqrt, v) == Dot(v, v)
  {
    DotSelf(v);
    SqrtSpec(sqrt, Dot(v, v));
  }

  lemma MagOfZero(sqrt: real -> real)
    requires ExactSqrt(sqrt)
    ensures Mag(sqrt, Zero) == 0.0
  {
    SqrtZero(sqrt);
  }

  lemma MagZeroIff(sqrt: real -> real, v: Vec3)
    requires ExactSqrt(sqrt)
    ensures Mag(sqrt, v) == 0.0 <==> v == Zero
  {
    DotSelf(v);
    SqrtZeroIff(sqrt, Dot(v, v));
  }

  /** Normalising a nonzero vector succeeds and gives a vector of unit length. */
  lemma NormIsUnit(sqrt: real -> real, v: Vec3)
    requires ExactSqrt(sqrt) && v != Zero
    ensures Norm(sqrt, v).Some?
    ensures Dot(Norm(sqrt, v).value, Norm(sqrt, v).value) == 1.0
    ensures Mag(sqrt, Norm(sqrt, v).value) == 1.0
  {
    MagZeroIff(sqrt, v);
    MagSquared(sqrt, v);
    var m := Mag(sqrt, v);
    var n := Norm(sqrt, v).value;
    var k := 1.0 / m;
    assert k * m == 1.0;
    assert n == Scale(k, v);
    assert Dot(n, n) == (k * k) * Dot(v, v);
    assert (k * k) * (m * m) == (k * m) * (k * m);
    SqrtUnique(sqrt, Dot(n, n), 1.0);
  }

  /** A nonzero vector has a positive component along its own direction, namely its magnitude. */
  lemma DotNormPositive(sqrt: real -> real, w: Vec3)
    requires ExactSqrt(sqrt) && w != Zero
    ensures Norm(sqrt, w).Some? && 0.0 < Dot(w, Norm(sqrt, w).value)
  {
    var m := Mag(sqrt, w);
    MagSquared(sqrt, w);
    MagZeroIff(sqrt, w);
    var n := Norm(sqrt, w).value;
    NormScales(sqrt, w);
    DotScaleRight(w, m, n);
    DotSelf(w);
    assert m * Dot(w, n) == Dot(w, w);
  }

  /** Lagrange's identity: |a × b|² = |a|²|b|² − (a · b)². */
  lemma Lagrange(a: Vec3, b: Vec3)
    ensures Dot(Cross(a, b), Cross(a, b)) == Dot(a, a) * Dot(b, b) - Dot(a, b) * Dot(a, b)
  {
  }

  lemma LagrangeOrthogonal(a: Vec3, b: Vec3)
    requires Dot(a, b) == 0.0
    ensures Dot(Cross(a, b), Cross(a, b)) == Dot(a, a) * Dot(b, b)
  {
    Lagrange(a, b);
  }

  lemma PositiveProduct(a: Vec3, b: Vec3)
    requires a != Zero && b != Zero
    ensures 0.0 < Dot(a, a) * Dot(b, b)
  {
    DotSelf(a);
    DotSelf(b);
    MulPositive(Dot(a, a), Dot(b, b));
  }

  /** The cross product of two orthogonal nonzero vectors is nonzero. */
  lemma CrossOfOrthogonal(a: Vec3, b: Vec3)
    requires a != Zero && b != Zero && Dot(a, b) == 0.0
    ensures 0.0 < Dot(Cross(a, b), Cross(a, b))
  {
    LagrangeOrthogonal(a, b);
    PositiveProduct(a, b);
  }
}
