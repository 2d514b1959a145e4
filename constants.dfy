/** Physical constants, in the units the simulator uses. */
module Constants {
  /** Speed of light (mm/ns). Only the propagation step, which is not part of this model, uses it. */
  const C: real := 299.792458
  /** Electron rest mass (MeV). */
  const Me: real := 0.511
  /** Muon rest mass (MeV). */
  const Mmu: real := 105.66
  /** Photon rest mass (MeV). */
  const Mg: real := 0.0
}
