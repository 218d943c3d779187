/** The simulation's configuration constants and the quantities precomputed
    from them (vector.cpp, lines 10-36). */
module Parameters {
  import opened Smoothing

  /** Power-supply smoothing, per frame. */
  const PowerSupplySmoothing: real := 10.0

  /** Beam samples per frame. */
  const ElectronCount: nat := 10000
  /** Total energy the beam emits per frame. */
  const ElectronIntensity: real := 100.0

  /** Divides how much phosphor emittance remains after one frame. */
  const PhosphorPersistence: real := 10.0

  /** Screen dimensions at start-up; the buffers are allocated for these. */
  const InitialWidth: int := 480
  const InitialHeight: int := 360

  /** The range of the source's 32-bit `int`. */
  predicate IsInt32(v: int)
  {
    -0x8000_0000 <= v < 0x8000_0000
  }

  const IntensityPerElectron: real := ElectronIntensity / ElectronCount as real
  const ElectronDelta: real := 1.0 / ElectronCount as real
  const PhosphorDecay: real := DecayFor(PhosphorPersistence)
  const PowerSupplyDecay: real := DecayFor(PowerSupplySmoothing)

  /** The precomputed quantities: each electron carries 1/10000 of the frame's
      energy, the sweep advances by 1/10000 per sample, and both filters move
      1/11 of the way toward their target per frame. */
  lemma PrecomputedValues()
    ensures IntensityPerElectron == 0.01
    ensures ElectronDelta * ElectronCount as real == 1.0
    ensures PhosphorDecay == 1.0 / 11.0 && PowerSupplyDecay == 1.0 / 11.0
    ensures 0.0 < PhosphorDecay <= 1.0 && 0.0 < PowerSupplyDecay <= 1.0
  {
  }
}
