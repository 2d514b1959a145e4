# what-the-particle: the transport core in Dafny

This project models the core of a small particle-transport simulator. It covers:

- the particle record, whose state carries position, momentum, energy, rest mass and an alive flag;
- the relativistic kinematics, which dispatch on the particle species (electron, muon, photon):
  energy, the Lorentz factor γ and the velocity fraction β;
- the vector helpers: the orthonormal frame built around a direction, and the degree-8 polynomial
  in ln(p), which only its tests evaluate, on three nine-coefficient lists
  (src/utils/operations.rs:46-59);
- the world, which owns an array of particles and advances all of them by one tick.

Each particle follows a small state machine. It is alive until a tick moves it out of the
volume, and dead is terminal.

All arithmetic is over `real`. The square root and the natural logarithm are function
parameters (`sqrt`, `ln`). Properties that need an exact square root require
`RealMath.ExactSqrt(sqrt)`: for every `x >= 0`, `sqrt(x) >= 0` and `sqrt(x)*sqrt(x) == x`.
Nothing is required of `ln`. Propagation (`Particle::propagate`) and the containment test
(`Volume::contains`) are not defined in `src/sim/world.rs` or `src/particle/particle.rs`. `Sim.World.Step` takes them as
parameters, so every lifecycle property holds for any implementation of them.

Modules, one per file:

- `Wrappers`: `Option`.
- `RealMath`: squares, powers and the exact-square-root facts.
- `Vectors`: `Vec3` with `Dot`, `Cross`, `Mag` and `Norm`.
- `Constants`.
- `Particles`.
- `Geometry`: `Volume`.
- `Physics`.
- `Operations`.
- `Sim`: `World` and the stepping specification.

Differences between the sources and the model:

- `src/utils/physics.rs` reads `particle.species` and `state.m`, but
  `src/particle/particle.rs` defines only `ParticleState {r, p, e, alive}`. The model adds the
  rest mass `m` to the state and a `Particle(species, state)` record.
- `Particle::new` is called with three arguments (position, momentum, species) but is not
  defined in `src/particle/particle.rs`. `Particles.NewParticle` takes the energy as a fourth argument, because
  `ParticleState::new` needs one. It stores that energy unchanged and takes the rest mass from
  the species.
- The source's `norm` of a zero vector yields NaN components. `Vectors.Norm` returns `None`
  instead. Any NaN `x` fails the `< 0.999` comparison, so `Operations.HelperAxis` picks the
  y axis there, as the source does.
- The basis is described as always existing. The code does not produce one for vectors along
  the negative x axis; see Findings.
- The panic message in `beta` speaks of a zero Lorentz factor. In the code, γ is always present
  for a massive species. With an exact square root it is also never 0, so `expect` cannot panic.

## Model

| member | source | states |
|---|---|---|
| Particles.MassOf | src/utils/constants.rs:2-4 | every species' rest mass is non-negative and is zero exactly for the photon |
| Particles.NewParticleState | src/particle/particle.rs:12-14 | a new state holds the given position, momentum, energy and mass unchanged, and is alive |
| Particles.NewParticle | src/particle/particle.rs:12-14 | a new particle has the given species, the state built from the arguments, that species' rest mass (Consistent), and is alive |
| Vectors.Dot | src/utils/physics.rs:5 | the componentwise product sum; v·v is non-negative and zero only for v = 0 (DotSelf), and it is linear in a scaled factor (DotScaleRight) |
| Vectors.DotSelf | src/utils/physics.rs:5 | v·v >= 0, and v·v = 0 exactly for the zero vector |
| Vectors.Cross | src/utils/operations.rs:12-13 | the cross product; stated by CrossOrthogonal, CrossZeroLeft, Lagrange and CrossOfOrthogonal |
| Vectors.CrossOrthogonal | src/utils/operations.rs:12-13 | the cross product is orthogonal to both of its factors |
| Vectors.Mag | src/utils/physics.rs:5 | sqrt(v·v); stated by MagSquared and MagZeroIff |
| Vectors.MagSquared | src/utils/physics.rs:5 | with an exact square root the magnitude is non-negative and squares to v·v |
| Vectors.Norm | src/utils/operations.rs:12-13 | normalisation fails (the source's NaN) exactly when the magnitude is 0; otherwise the direction scaled by the magnitude is the vector (NormScales) and, with an exact square root, has magnitude 1 (NormIsUnit) |
| Vectors.NormScales | src/utils/operations.rs:12 | a normalised vector scaled by the original magnitude is the original vector |
| Vectors.NormIsUnit | src/utils/operations.rs:12-13 | with an exact square root, normalising a nonzero vector succeeds and yields magnitude 1 |
| Vectors.MagZeroIff | src/utils/operations.rs:12 | the magnitude is 0 exactly for the zero vector |
| Vectors.DotNormPositive | src/utils/operations.rs:13 | a nonzero vector has positive dot product with its own direction |
| Vectors.Lagrange | src/utils/operations.rs:13 | the squared length of a × b is (a·a)(b·b) − (a·b)² |
| Vectors.CrossOfOrthogonal | src/utils/operations.rs:13 | two nonzero orthogonal vectors have a nonzero cross product |
| Physics.Energy | src/utils/physics.rs:4-6 | sqrt(mag(p)² + m²); stated by EnergySquared, EnergyAtLeastMass, EnergyAtRest and EnergyDependsOnMagnitudeAndMass |
| Physics.EnergySquared | src/utils/physics.rs:5 | for every species, with an exact square root, E >= 0 and E² = p·p + m² |
| Physics.GammaFactor | src/utils/physics.rs:9-15 | γ is None exactly for the photon; otherwise γ·m equals the energy |
| Physics.BetaFactor | src/utils/physics.rs:18-23 | β of a photon is 1 for any momentum |
| Physics.GammaNonzero | src/utils/physics.rs:21 | for a massive species γ is present and γ² is nonzero, so the `expect` and the division in β are safe |
| Physics.EnergyAtLeastMass | src/utils/physics.rs:5 | for m >= 0 the energy is at least m |
| Physics.EnergyAtRest | src/utils/physics.rs:5 | at zero momentum the energy equals the rest mass |
| Physics.FreshParticleEnergyAtRest | src/utils/physics.rs:47-55 | a freshly built particle at rest has its species' rest mass as energy, for every species |
| Physics.EnergyDependsOnMagnitudeAndMass | src/utils/physics.rs:5 | particles with equal momentum magnitude and mass have equal energy, whatever their positions |
| Physics.GammaAtLeastOne | src/utils/physics.rs:13 | for a massive species with its own rest mass, γ is present and at least 1 |
| Physics.GammaAtRest | src/utils/physics.rs:63-70 | a massive particle at rest has γ = Some(1) |
| Physics.BetaBelowOne | src/utils/physics.rs:21 | for a massive species with its own rest mass, 0 <= β < 1 |
| Physics.BetaTimesEnergy | src/utils/physics.rs:21 | for a massive species with its own rest mass, β·E equals the momentum magnitude, so β = mag(p)/E |
| Operations.HelperAxis | src/utils/operations.rs:5-10 | HelperAxis = ChooseAxis(Norm(vec)), where ChooseAxis carries the `< 0.999` branch; the helper is one of the x and y axes, the x axis exactly when the direction exists with x-component below 0.999; for nonzero vec it is colinear with vec (so vec × temp = 0) exactly when vec lies on the negative x axis |
| Operations.BasisFrom | src/utils/operations.rs:11-13 | u = norm(vec × temp), v = norm(vec × u); its properties are stated by BasisFromCorrect and BasisFromZero |
| Operations.BasisFromCorrect | src/utils/operations.rs:11-13 | for nonzero vec, the two normalisations succeed exactly when vec × temp is nonzero, and then u and v are unit vectors orthogonal to vec and to each other and (vec, u, v) is right-handed: dot(vec × u, v) > 0 |
| Operations.BasisFromZero | src/utils/operations.rs:12 | for vec = 0 the first normalisation already fails |
| Operations.ChooseAxisColinear | src/utils/operations.rs:6-12 | the axis picked from the direction of a nonzero vec is colinear with vec exactly when vec is a negative multiple of (1,0,0) |
| Operations.OrthonormalBasis | src/utils/operations.rs:4-16 | the basis built from the helper axis; where it exists is stated by OrthonormalBasisDefined, what it is by OrthonormalBasisIsOrthonormal and the axis lemmas |
| Operations.OrthonormalBasisDefined | src/utils/operations.rs:4-16 | the basis exists exactly for nonzero vectors off the negative x axis |
| Operations.OrthonormalBasisIsOrthonormal | src/utils/operations.rs:12-13 | for every nonzero vec off the negative x axis the basis exists, and dot(vec,u), dot(vec,v) and dot(u,v) are 0, u and v have magnitude 1, and dot(vec × u, v) > 0 |
| Operations.BasisOfXAxis | src/utils/operations.rs:38 | (1,0,0) gives ((0,0,1),(0,-1,0)) |
| Operations.BasisOfYAxis | src/utils/operations.rs:39 | (0,1,0) gives ((0,0,-1),(-1,0,0)) |
| Operations.BasisOfZAxis | src/utils/operations.rs:40 | (0,0,1) gives ((0,1,0),(-1,0,0)) |
| Operations.NegativeXAxisHasNoBasis | src/utils/operations.rs:6-12 | for (-1,0,0) the helper axis is colinear and no basis results |
| Operations.HelperAxisCorrected | src/utils/operations.rs:5-10 | HelperAxisCorrected = ChooseAxisCorrected(Norm(vec)), where ChooseAxisCorrected carries the abs(x) < 0.999 branch; the corrected helper is one of the x and y axes and is never colinear with a nonzero vec |
| Operations.OrthonormalBasisCorrected | src/utils/operations.rs:4-16 | the basis built from the corrected helper; stated by OrthonormalBasisCorrectedTotal |
| Operations.OrthonormalBasisCorrectedTotal | src/utils/operations.rs:6-13 | with the helper axis chosen on abs(x) < 0.999, the basis exists exactly for the nonzero vectors and is a right-handed orthonormal frame |
| Operations.PolySum | src/utils/operations.rs:20 | the index-order sum of cs[n]·x^n; stated by PolySumIsHorner and PolySumAppend |
| Operations.PolySumAppend | src/utils/operations.rs:20 | appending c to k coefficients adds c·x^k to the sum |
| Operations.PolySumIsHorner | src/utils/operations.rs:20 | the index-order sum of cs[n]·x^n equals the Horner form for every coefficient list |
| Operations.LogPolynomial | src/utils/operations.rs:19-21 | the sum at x = ln(p); stated by the four LogPolynomial lemmas below |
| Operations.LogPolynomialEmpty | src/utils/operations.rs:19-21 | an empty coefficient list gives 0 |
| Operations.LogPolynomialAppend | src/utils/operations.rs:20 | appending c to k coefficients adds exactly c·ln(p)^k |
| Operations.LogPolynomialPrepend | src/utils/operations.rs:20 | prepending c gives c + ln(p)·(the polynomial of the rest) |
| Operations.LogPolynomialAtLogZero | src/utils/operations.rs:20 | where ln(p) = 0 the result is cs[0] |
| Sim.StepParticle | src/sim/world.rs:26-37 | a dead particle is unchanged; no particle is revived; a live one takes the propagated state and stays alive exactly when that state is alive and contained |
| Sim.StepAll | src/sim/world.rs:24-40 | a step keeps the number of particles |
| Sim.StepAllAt | src/sim/world.rs:24-40 | particle i after a step is the single-particle update of particle i |
| Sim.StepIndependent | src/sim/world.rs:24-40 | particle i's post-state depends only on its own pre-state, dt and the volume |
| Sim.AnyAlive | src/sim/world.rs:20 | true exactly when some particle is alive |
| Sim.StepKeepsDead | src/sim/world.rs:26-28 | a step leaves every dead particle exactly as it was |
| Sim.StepNeverRevives | src/sim/world.rs:35 | a particle alive after a step was alive before it |
| Sim.StepMovesAlive | src/sim/world.rs:31-37 | a live particle ends up with its propagated state, alive exactly when that state is alive and the volume contains it |
| Sim.StepIdle | src/sim/world.rs:26-28 | with no live particle a step is the identity |
| Sim.StepCountAlive | src/sim/world.rs:35 | a step never increases the number of live particles |
| Sim.DeadIsTerminal | src/sim/world.rs:26-28 | a dead particle stays unchanged for any number of further steps |
| Sim.AliveWasAlive | src/sim/world.rs:35 | a particle alive after n steps was alive at the start |
| Sim.FreshParticles | src/particle/particle.rs:13 | every freshly constructed particle has the given species and is alive |
| Sim.FreshParticlesAlive | src/sim/world.rs:80 | a world's list of freshly built particles, if non-empty, has a live particle |
| Sim.World.constructor | src/sim/world.rs:15-17 | the world holds exactly the given particles in order, time 0, the given time step, the volume and the seed |
| Sim.World.HasAliveParticles | src/sim/world.rs:19-21 | true exactly when some particle in the array is alive |
| Sim.World.Step | src/sim/world.rs:23-41 | the array becomes the specified step of its old contents, in place; a world with no live particle is left unchanged; dt, volume, time and seed are not modified |
| Sim.World.ExampleWorlds | src/sim/world.rs:52-84 | worlds of three, two, one and no particles report those counts; only the empty worlds report no live particle |

## Left out

- `Particle::propagate` and `Volume::contains` are not part of this model. They are parameters of `Sim.World.Step` and of the step specification.
- Floating point: `f64` rounding, NaN and infinities are not modelled; arithmetic is exact over `real`. `sqrt` and `ln` are parameters.
- Physics.GammaFactor: requires a nonzero mass for the massive species. With `m = 0` the source's `f64` division yields an infinity or NaN, and `real` has no counterpart. Particles built with their species' mass (`Particles.Consistent`) always meet this requirement.
- Physics.BetaFactor: requires the same nonzero mass and an exact square root. Without them the source can compute NaN, which is not modelled.
- The random generator is kept only as its seed (`rngSeed`, a `u64`). Nothing in the program draws from it, and the interaction step at src/sim/world.rs:39 is an empty placeholder.
- The bit-exact floating-point expected values in the tests cannot be reproduced with exact reals and abstract `sqrt`/`ln`. This covers the energy, γ and β values, the bases of (2,2,2) and (-3,-2,6), and the log-polynomial values. The relations those values satisfy are proved instead: E² = |p|² + m² for every species (`Physics.EnergySquared`), γ·m = E for every massive species (`Physics.GammaFactor`), β·E = |p| for a massive species with its own rest mass (`Physics.BetaTimesEnergy`), the basis being a right-handed orthonormal frame, and the polynomial's append and Horner forms.
- The kinetic-energy cutoff, stopping-power curves, position history and advancing of world time do not exist in the program. `time` is never advanced by `Step`.
- The wasm binding in `src/lib.rs`, the driver in `src/main.rs`, the JavaScript viewer and the test macro in `src/utils/macro.rs` are not part of this model. `lib.rs` and `main.rs` also call a three-argument `World::new` that does not match `src/sim/world.rs:15`.
- Rust's `Vec<Particle>` is an `array` in the model. The step never changes the particle count, and nothing in the program grows or shrinks the vector.

## Findings

| source | as written | input that shows it | evidently intended | confidence | as-written member | corrected member |
|---|---|---|---|---|---|---|
| src/utils/operations.rs:6-12 | the helper axis is (1,0,0) whenever the x-component of the direction is below 0.999, including -1 | vec = (-1,0,0): temp = (1,0,0), vec × temp = 0, and normalising it divides by zero (NaN basis) | choose (1,0,0) only when abs(x) < 0.999, so the helper is never colinear with vec | not executed | Operations.NegativeXAxisHasNoBasis | Operations.OrthonormalBasisCorrectedTotal |
