/**
 * The particle record whose state the world's stepping loop mutates: a species tag and a
 * kinematic state (position, momentum, energy, rest mass and the alive flag).
 */
module Particles {
  import opened Vectors
  import Constants

  datatype ParticleType = Electron | Muon | Gamma

  /** The rest mass of each species; only the photon is massless. */
  function MassOf(species: ParticleType): (m: real)
    ensures 0.0 <= m
    ensures m == 0.0 <==> species == Gamma
  {
    match species
    case Electron => Constants.Me
    case Muon => Constants.Mmu
    case Gamma => Constants.Mg
  }

  /** Position `r` (mm), momentum `p` (MeV/c), energy `e` (MeV), rest mass `m` (MeV). */
  datatype ParticleState = ParticleState(r: Vec3, p: Vec3, e: real, m: real, alive: bool)

  datatype Particle = Particle(species: ParticleType, state: ParticleState)

  /** A fresh state stores its arguments unchanged and starts alive. */
  function NewParticleState(pos: Vec3, mom: Vec3, energy: real, mass: real): (s: ParticleState)
    ensures s.r == pos && s.p == mom && s.e == energy && s.m == mass
    ensures s.alive
  {
    ParticleState(pos, mom, energy, mass, true)
  }

  /** The mass stored on the state is the one its species prescribes. */
  predicate Consistent(q: Particle) {
    q.state.m == MassOf(q.species)
  }

  /** A fresh particle carries the rest mass of its species and starts alive. */
  function NewParticle(pos: Vec3, mom: Vec3, species: ParticleType, energy: real): (q: Particle)
    ensures q.species == species && q.state == NewParticleState(pos, mom, energy, MassOf(species))
    ensures Consistent(q) && q.state.alive
  {
    Particle(species, NewParticleState(pos, mom, energy, MassOf(species)))
  }
}
