/**
 * Relativistic kinematics of a particle: total energy, Lorentz factor and velocity
 * fraction, each dispatching on the particle's species.
 */
module Physics {
  import opened RealMath
  import opened Vectors
  import opened Particles
  import opened Wrappers

  /** Total relativistic energy, sqrt(|p|² + m²). */
  function Energy(sqrt: real -> real, q: Particle): real {
    sqrt(Square(Mag(sqrt, q.state.p)) + Square(q.state.m))
  }

  /** The Lorentz factor divides by the rest mass of every species but the photon. */
  predicate GammaDefined(q: Particle) {
    q.species == Gamma || q.state.m != 0.0
  }

  /**
   * The Lorentz factor E/m; not applicable (None) for the massless photon, and
   * for every other species a factor that scales the rest mass up to the energy.
   */
  function GammaFactor(sqrt: real -> real, q: Particle): (g: Option<real>)
    requires GammaDefined(q)
    ensures g.None? <==> q.species == Gamma
    ensures g.Some? ==> g.value * q.state.m == Energy(sqrt, q)
  {
    var energy := Energy(sqrt, q);
    match q.species
    case Gamma => None
    case _ => Some(energy / q.state.m)
  }

  /**
   * Velocity as a fraction of the speed of light: 1 for a photon whatever its
   * momentum, sqrt(1 - 1/γ²) otherwise. The source unwraps the Lorentz factor with
   * `expect`; for a massive species it is always present, so the None branch is dead,
   * and with an exact square root γ is never 0.
   */
  function BetaFactor(sqrt: real -> real, q: Particle): (b: real)
    requires ExactSqrt(sqrt) && GammaDefined(q)
    ensures q.species == Gamma ==> b == 1.0
  {
    match q.species
    case Gamma => 1.0
    case _ =>
      match GammaFactor(sqrt, q)
      case Some(g) =>
        GammaNonzero(sqrt, q);
        sqrt(1.0 - 1.0 / Square(g))
      case None => assert false; 0.0
  }

  /** With a nonzero mass the energy, and with it the Lorentz factor, is nonzero. */
  lemma GammaNonzero(sqrt: real -> real, q: Particle)
    requires ExactSqrt(sqrt) && q.species != Gamma && q.state.m != 0.0
    ensures Energy(sqrt, q) != 0.0
    ensures GammaFactor(sqrt, q).Some? && Square(GammaFactor(sqrt, q).value) != 0.0
  {
    var x := Square(Mag(sqrt, q.state.p)) + Square(q.state.m);
    SquareFacts(Mag(sqrt, q.state.p));
    SquareFacts(q.state.m);
    SqrtZeroIff(sqrt, x);
    var g := GammaFactor(sqrt, q).value;
    assert g * q.state.m == Energy(sqrt, q);
    SquareFacts(g);
  }

  /** With an exact square root, E is non-negative and E² = |p|² + m², for every species. */
  lemma EnergySquared(sqrt: real -> real, q: Particle)
    requires ExactSqrt(sqrt)
    ensures 0.0 <= Energy(sqrt, q)
    ensures Energy(sqrt, q) * Energy(sqrt, q) == Dot(q.state.p, q.state.p) + q.state.m * q.state.m
  {
    MagSquared(sqrt, q.state.p);
    SquareFacts(Mag(sqrt, q.state.p));
    SquareFacts(q.state.m);
    SqrtSpec(sqrt, Square(Mag(sqrt, q.state.p)) + Square(q.state.m));
  }

  /** For a non-negative mass the energy never falls below the rest mass. */
  lemma EnergyAtLeastMass(sqrt: real -> real, q: Particle)
    requires ExactSqrt(sqrt) && 0.0 <= q.state.m
    ensures q.state.m <= Energy(sqrt, q)
  {
    SquareFacts(Mag(sqrt, q.state.p));
    SqrtAtLeast(sqrt, Square(Mag(sqrt, q.state.p)) + Square(q.state.m), q.state.m);
  }

  /** At zero momentum the energy is exactly the rest mass. */
  lemma EnergyAtRest(sqrt: real -> real, q: Particle)
    requires ExactSqrt(sqrt) && 0.0 <= q.state.m && q.state.p == Zero
    ensures Energy(sqrt, q) == q.state.m
  {
    SqrtUnique(sqrt, Dot(q.state.p, q.state.p), 0.0);
    SqrtUnique(sqrt, Square(Mag(sqrt, q.state.p)) + Square(q.state.m), q.state.m);
  }

  /** A freshly built particle at rest has the rest mass of its species as its energy. */
  lemma FreshParticleEnergyAtRest(sqrt: real -> real, pos: Vec3, species: ParticleType, e: real)
    requires ExactSqrt(sqrt)
    ensures Energy(sqrt, NewParticle(pos, Zero, species, e)) == MassOf(species)
  {
    EnergyAtRest(sqrt, NewParticle(pos, Zero, species, e));
  }

  /** The energy depends on the momentum only through its magnitude, and not on the position. */
  lemma EnergyDependsOnMagnitudeAndMass(sqrt: real -> real, q1: Particle, q2: Particle)
    requires Mag(sqrt, q1.state.p) == Mag(sqrt, q2.state.p) && q1.state.m == q2.state.m
    ensures Energy(sqrt, q1) == Energy(sqrt, q2)
  {
  }

  /** For a massive species the Lorentz factor is at least 1. */
  lemma GammaAtLeastOne(sqrt: real -> real, q: Particle)
    requires ExactSqrt(sqrt) && Consistent(q) && q.species != Gamma
    ensures GammaDefined(q) && GammaFactor(sqrt, q).Some?
    ensures 1.0 <= GammaFactor(sqrt, q).value
  {
    EnergyAtLeastMass(sqrt, q);
    var g, m := GammaFactor(sqrt, q).value, q.state.m;
    assert g * m == Energy(sqrt, q);
    if g < 1.0 {
      MulPositive(1.0 - g, m);
    }
  }

  /** A massive particle at rest has Lorentz factor exactly 1. */
  lemma GammaAtRest(sqrt: real -> real, q: Particle)
    requires ExactSqrt(sqrt) && Consistent(q) && q.species != Gamma && q.state.p == Zero
    ensures GammaDefined(q) && GammaFactor(sqrt, q) == Some(1.0)
  {
    EnergyAtRest(sqrt, q);
  }

  /** A massive particle moves strictly slower than light: 0 <= β < 1. */
  lemma BetaBelowOne(sqrt: real -> real, q: Particle)
    requires ExactSqrt(sqrt) && Consistent(q) && q.species != Gamma
    ensures GammaDefined(q)
    ensures 0.0 <= BetaFactor(sqrt, q) < 1.0
  {
    GammaAtLeastOne(sqrt, q);
    var g := GammaFactor(sqrt, q).value;
    var g2 := Square(g);
    assert 1.0 <= g2 by {
      SquareFacts(g - 1.0);
      assert g2 == 1.0 + 2.0 * (g - 1.0) + (g - 1.0) * (g - 1.0);
    }
    var inv := 1.0 / g2;
    assert 0.0 < inv <= 1.0;
    SqrtBelowOne(sqrt, 1.0 - inv);
  }
  /** Dividing out γ² from E² leaves m², where γ·m = E. */
  lemma InverseSquareScales(g: real, m: real, e: real)
    requires Square(g) != 0.0 && g * m == e
    ensures (1.0 - 1.0 / Square(g)) * Square(e) == Square(e) - Square(m)
  {
    var k := 1.0 / Square(g);
    assert k * Square(g) == 1.0;
    assert Square(e) == Square(g) * Square(m);
    assert k * Square(e) == (k * Square(g)) * Square(m);
  }

  /** β·E equals the momentum magnitude: β is |p|/E for a massive species. */
  lemma BetaTimesEnergy(sqrt: real -> real, q: Particle)
    requires ExactSqrt(sqrt) && Consistent(q) && q.species != Gamma
    ensures GammaDefined(q) && BetaFactor(sqrt, q) * Energy(sqrt, q) == Mag(sqrt, q.state.p)
  {
    BetaBelowOne(sqrt, q);
    GammaAtLeastOne(sqrt, q);
    var g := GammaFactor(sqrt, q).value;
    var e, m, pm := Energy(sqrt, q), q.state.m, Mag(sqrt, q.state.p);
    MagSquared(sqrt, q.state.p);
    SquareFacts(pm);
    SquareFacts(m);
    SqrtSpec(sqrt, Square(pm) + Square(m));
    assert Square(e) == Square(pm) + Square(m);
    var x := 1.0 - 1.0 / Square(g);
    var b := BetaFactor(sqrt, q);
    assert b == sqrt(x);
    assert 0.0 <= x by {
      SquareFacts(g - 1.0);
      assert Square(g) == 1.0 + 2.0 * (g - 1.0) + (g - 1.0) * (g - 1.0);
    }
    SqrtSpec(sqrt, x);
    GammaNonzero(sqrt, q);
    InverseSquareScales(g, m, e);
    assert (b * e) * (b * e) == x * Square(e);
    assert 0.0 <= b * e;
    SqrtUnique(sqrt, Square(pm), pm);
    SqrtUnique(sqrt, Square(pm), b * e);
  }
}
