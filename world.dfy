/**
 * The world that owns the particles and advances them one tick at a time. A particle is
 * alive until a step moves it out of the volume; dead is terminal, because the step skips
 * dead particles and only ever clears the alive flag.
 *
 * Propagation and the containment test are not defined in src/sim/world.rs or
 * src/particle/particle.rs, so `Step` takes them as parameters and every property below holds for any choice of them.
 */
module Sim {
  import opened Particles
  import opened Geometry
  import opened Vectors

  /** Moves a particle forward by a time step. */
  type Propagator = (Particle, real) -> Particle

  /** Decides whether a volume contains a particle. */
  type Containment = (Volume, Particle) -> bool

  /** The seed of the world's random generator, a `u64`. */
  newtype u64 = x: int | 0 <= x < 0x1_0000_0000_0000_0000

  /** `a` and `b` agree on species and on every state field except possibly the alive flag. */
  predicate SameExceptAlive(a: Particle, b: Particle) {
    a.species == b.species && a.state.r == b.state.r && a.state.p == b.state.p &&
    a.state.e == b.state.e && a.state.m == b.state.m
  }

  /**
   * One particle's share of a step: a dead particle is skipped; a live one is propagated
   * and then killed if the volume does not contain its new state.
   */
  function StepParticle(q: Particle, dt: real, vol: Volume, propagate: Propagator, contains: Containment): (r: Particle)
    ensures !q.state.alive ==> r == q
    ensures r.state.alive ==> q.state.alive
    ensures q.state.alive ==> SameExceptAlive(r, propagate(q, dt))
    ensures q.state.alive ==> (r.state.alive <==> propagate(q, dt).state.alive && contains(vol, propagate(q, dt)))
  {
    if !q.state.alive then q
    else
      var moved := propagate(q, dt);
      if !contains(vol, moved) then moved.(state := moved.state.(alive := false)) else moved
  }

  /** The whole collection after one step, particle by particle in collection order. */
  function StepAll(ps: seq<Particle>, dt: real, vol: Volume, propagate: Propagator, contains: Containment): (rs: seq<Particle>)
    ensures |rs| == |ps|
  {
    if ps == [] then []
    else [StepParticle(ps[0], dt, vol, propagate, contains)] + StepAll(ps[1..], dt, vol, propagate, contains)
  }

  /** Particle i after a step is particle i's own update: no particle influences another. */
  lemma {:induction false} StepAllAt(ps: seq<Particle>, dt: real, vol: Volume, propagate: Propagator, contains: Containment, i: int)
    requires 0 <= i < |ps|
    ensures StepAll(ps, dt, vol, propagate, contains)[i] == StepParticle(ps[i], dt, vol, propagate, contains)
  {
    if i > 0 {
      StepAllAt(ps[1..], dt, vol, propagate, contains, i - 1);
    }
  }

  /** Two collections that agree at index i agree there after a step, whatever the other particles are. */
  lemma StepIndependent(ps: seq<Particle>, qs: seq<Particle>, dt: real, vol: Volume,
                        propagate: Propagator, contains: Containment, i: int)
    requires 0 <= i < |ps| && i < |qs| && ps[i] == qs[i]
    ensures StepAll(ps, dt, vol, propagate, contains)[i] == StepAll(qs, dt, vol, propagate, contains)[i]
  {
    StepAllAt(ps, dt, vol, propagate, contains, i);
    StepAllAt(qs, dt, vol, propagate, contains, i);
  }

  /** Existence of a live particle, decided front to back like `Iterator::any`. */
  function AnyAlive(ps: seq<Particle>): (b: bool)
    ensures b <==> exists i :: 0 <= i < |ps| && ps[i].state.alive
  {
    if ps == [] then false
    else if ps[0].state.alive then true
    else
      var rest := AnyAlive(ps[1..]);
      assert forall i :: 1 <= i < |ps| ==> ps[i] == ps[1..][i - 1];
      rest
  }

  /** The number of live particles. */
  function CountAlive(ps: seq<Particle>): nat {
    if ps == [] then 0 else (if ps[0].state.alive then 1 else 0) + CountAlive(ps[1..])
  }

  /** A dead particle is left exactly as it was. */
  lemma StepKeepsDead(ps: seq<Particle>, dt: real, vol: Volume, propagate: Propagator, contains: Containment, i: int)
    requires 0 <= i < |ps| && !ps[i].state.alive
    ensures StepAll(ps, dt, vol, propagate, contains)[i] == ps[i]
  {
    StepAllAt(ps, dt, vol, propagate, contains, i);
  }

  /** No particle is alive after a step unless it was alive before it. */
  lemma StepNeverRevives(ps: seq<Particle>, dt: real, vol: Volume, propagate: Propagator, contains: Containment, i: int)
    requires 0 <= i < |ps| && StepAll(ps, dt, vol, propagate, contains)[i].state.alive
    ensures ps[i].state.alive
  {
    StepAllAt(ps, dt, vol, propagate, contains, i);
  }

  /**
   * A live particle ends up with its propagated state, and it survives exactly when the
   * propagated state is still alive and inside the volume.
   */
  lemma StepMovesAlive(ps: seq<Particle>, dt: real, vol: Volume, propagate: Propagator, contains: Containment, i: int)
    requires 0 <= i < |ps| && ps[i].state.alive
    ensures SameExceptAlive(StepAll(ps, dt, vol, propagate, contains)[i], propagate(ps[i], dt))
    ensures StepAll(ps, dt, vol, propagate, contains)[i].state.alive <==>
            propagate(ps[i], dt).state.alive && contains(vol, propagate(ps[i], dt))
  {
    StepAllAt(ps, dt, vol, propagate, contains, i);
  }

  /** With no live particle a step changes nothing. */
  lemma {:induction false} StepIdle(ps: seq<Particle>, dt: real, vol: Volume, propagate: Propagator, contains: Containment)
    requires !AnyAlive(ps)
    ensures StepAll(ps, dt, vol, propagate, contains) == ps
  {
    if ps != [] {
      StepIdle(ps[1..], dt, vol, propagate, contains);
      assert ps == [ps[0]] + ps[1..];
    }
  }

  /** A step never increases the number of live particles. */
  lemma {:induction false} StepCountAlive(ps: seq<Particle>, dt: real, vol: Volume, propagate: Propagator, contains: Containment)
    ensures CountAlive(StepAll(ps, dt, vol, propagate, contains)) <= CountAlive(ps)
  {
    if ps != [] {
      var rs := StepAll(ps, dt, vol, propagate, contains);
      assert rs[1..] == StepAll(ps[1..], dt, vol, propagate, contains);
      StepCountAlive(ps[1..], dt, vol, propagate, contains);
    }
  }

  /** The collection after n steps. */
  function StepN(ps: seq<Particle>, n: nat, dt: real, vol: Volume, propagate: Propagator, contains: Containment): (rs: seq<Particle>)
    ensures |rs| == |ps|
  {
    if n == 0 then ps else StepAll(StepN(ps, n - 1, dt, vol, propagate, contains), dt, vol, propagate, contains)
  }

  /** Dead is terminal: a dead particle stays unchanged for any number of further steps. */
  lemma {:induction false} DeadIsTerminal(ps: seq<Particle>, n: nat, dt: real, vol: Volume,
                                          propagate: Propagator, contains: Containment, i: int)
    requires 0 <= i < |ps| && !ps[i].state.alive
    ensures StepN(ps, n, dt, vol, propagate, contains)[i] == ps[i]
  {
    if n > 0 {
      DeadIsTerminal(ps, n - 1, dt, vol, propagate, contains, i);
      StepKeepsDead(StepN(ps, n - 1, dt, vol, propagate, contains), dt, vol, propagate, contains, i);
    }
  }

  /** A particle alive after n steps was alive at every earlier step, in particular at the start. */
  lemma {:induction false} AliveWasAlive(ps: seq<Particle>, n: nat, dt: real, vol: Volume,
                                         propagate: Propagator, contains: Containment, i: int)
    requires 0 <= i < |ps| && StepN(ps, n, dt, vol, propagate, contains)[i].state.alive
    ensures ps[i].state.alive
  {
    if n > 0 {
      StepNeverRevives(StepN(ps, n - 1, dt, vol, propagate, contains), dt, vol, propagate, contains, i);
      AliveWasAlive(ps, n - 1, dt, vol, propagate, contains, i);
    }
  }

  /** The particles built from (position, momentum, species, energy) arguments, in order. */
  function FreshParticles(args: seq<(Vec3, Vec3, ParticleType, real)>): (ps: seq<Particle>)
    ensures |ps| == |args|
    ensures forall i :: 0 <= i < |args| ==> ps[i].species == args[i].2 && ps[i].state.alive
  {
    seq(|args|, i requires 0 <= i < |args| => NewParticle(args[i].0, args[i].1, args[i].2, args[i].3))
  }

  /** A non-empty list of freshly constructed particles has a live particle. */
  lemma FreshParticlesAlive(args: seq<(Vec3, Vec3, ParticleType, real)>)
    requires |args| > 0
    ensures AnyAlive(FreshParticles(args))
  {
    assert FreshParticles(args)[0].state.alive;
  }

  class World {
    /** World time (ns); no operation advances it. */
    var time: real
    /** Time step (ns). */
    var dt: real
    var particles: array<Particle>
    var volume: Volume
    /** The generator is represented by its seed; nothing in the program draws from it. */
    var rngSeed: u64

    /** A world at time 0 holding exactly the given particles, in order. */
    constructor(particleList: seq<Particle>, vol: Volume, timestep: real, randomSeed: u64)
      ensures fresh(particles)
      ensures particles[..] == particleList
      ensures time == 0.0 && dt == timestep && volume == vol && rngSeed == randomSeed
    {
      time := 0.0;
      dt := timestep;
      particles := new Particle[|particleList|](i requires 0 <= i < |particleList| => particleList[i]);
      volume := vol;
      rngSeed := randomSeed;
    }

    /** True exactly when some particle is alive. */
    function HasAliveParticles(): (b: bool)
      reads this, particles
      ensures b <==> exists i :: 0 <= i < particles.Length && particles[i].state.alive
    {
      AnyAlive(particles[..])
    }

    /**
     * Advances every particle by one tick, in place and in order. Only the particle array
     * changes: the time, the time step, the volume and the seed stay as they were.
     */
    method Step(propagate: Propagator, contains: Containment)
      modifies particles
      ensures particles[..] == StepAll(old(particles[..]), dt, volume, propagate, contains)
      ensures !old(HasAliveParticles()) ==> particles[..] == old(particles[..])
    {
      ghost var before := particles[..];
      for i := 0 to particles.Length
        invariant forall j :: 0 <= j < i ==> particles[j] == StepParticle(before[j], dt, volume, propagate, contains)
        invariant forall j :: i <= j < particles.Length ==> particles[j] == before[j]
      {
        if !particles[i].state.alive {
          continue;
        }
        var moved := propagate(particles[i], dt);
        if !contains(volume, moved) {
          particles[i] := moved.(state := moved.state.(alive := false));
          continue;
        }
        particles[i] := moved;
      }
      forall j | 0 <= j < particles.Length
        ensures particles[j] == StepAll(before, dt, volume, propagate, contains)[j]
      {
        StepAllAt(before, dt, volume, propagate, contains, j);
      }
      if !AnyAlive(before) {
        StepIdle(before, dt, volume, propagate, contains);
      }
    }

    /**
     * The worlds the creation and liveness checks build, with their seeds: the creation
     * worlds hold three, two, one and no particles, and of the liveness worlds only the
     * empty ones report no live particle. The energies are not part of
     * those checks and are taken as arguments.
     */
    static method ExampleWorlds(e1: real, e2: real, e3: real) returns (counts: seq<int>, alive: seq<bool>)
      ensures counts == [3, 2, 1, 0]
      ensures alive == [true, false, true, false]
    {
      var v1, v2 := Volume(10.0), Volume(28.4);
      var p1 := NewParticle(Vec3(1.0, 2.0, -3.0), Vec3(5.0, 0.0, 0.0), Electron, e1);
      var p2 := NewParticle(Vec3(4.2, -1.5, 5.1), Vec3(3.4, -2.0, 0.7), Muon, e2);
      var p3 := NewParticle(Vec3(20.1, -10.3, -9.7), Vec3(-100.0, 0.0, -52.1), Gamma, e3);
      var w1 := new World([p1, p2, p3], v1, 0.1, 0);
      var w2 := new World([p1, p3], v2, 0.01, 1);
      var w3 := new World([p2], v2, 0.005, 2);
      var w4 := new World([], v1, 1.0, 3);
      counts := [w1.particles.Length, w2.particles.Length, w3.particles.Length, w4.particles.Length];
      var l1 := new World([p1, p2, p3], v1, 0.1, 15);
      var l2 := new World([], v2, 0.01, 837);
      var l3 := new World([p2], v2, 0.005, 9882);
      var l4 := new World([], v1, 1.0, 21);
      assert l1.particles[0].state.alive && l3.particles[0].state.alive;
      alive := [l1.HasAliveParticles(), l2.HasAliveParticles(), l3.HasAliveParticles(), l4.HasAliveParticles()];
    }
  }
}
