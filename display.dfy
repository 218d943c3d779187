/** The simulation state of vector.cpp and its per-frame `render` step: the
    power supply, the electron buffer the beam is accumulated into, and the
    phosphor buffer that glows after it. */
module Display {
  import opened Parameters
  import opened Smoothing
  import opened Beam

  class Simulation {
    var width: int
    var height: int
    /** Number of live cells, `width * height`. */
    var size: int
    /** Power input: 1 is normal, 0 is off. */
    var powerSupplyIn: real
    /** Smoothed output of the power supply. */
    var powerSupplyOut: real
    /** Energy of the electrons that hit the screen this frame. */
    const electronBuffer: array<real>
    /** Total emittance of the phosphor at each pixel. */
    const phosphorBuffer: array<real>

    /** The buffers are allocated once, for the start-up screen size; any later
        size must fit in them. */
    ghost predicate Valid()
      reads this
    {
      electronBuffer != phosphorBuffer
      && electronBuffer.Length == phosphorBuffer.Length
      && IsInt32(width) && IsInt32(height) && IsInt32(size)
      && size == width * height
      && size <= electronBuffer.Length
      && (powerSupplyIn == 0.0 || powerSupplyIn == 1.0)
      && 0.0 <= powerSupplyOut <= 1.0
    }

    /** The cells the per-frame loops touch: `size` of them, none when the
        product of the dimensions is negative. */
    function Live(): nat
      reads this
    {
      if size < 0 then 0 else size
    }

    /** Start-up state: a 480x360 screen, power switched on but not yet ramped
        up, both buffers dark. */
    constructor ()
      ensures Valid()
      ensures width == InitialWidth && height == InitialHeight && size == InitialWidth * InitialHeight
      ensures powerSupplyIn == 1.0 && powerSupplyOut == 0.0
      ensures fresh(electronBuffer) && fresh(phosphorBuffer)
      ensures electronBuffer.Length == size && phosphorBuffer.Length == size
      ensures forall i :: 0 <= i < size ==> electronBuffer[i] == 0.0 && phosphorBuffer[i] == 0.0
    {
      width := InitialWidth;
      height := InitialHeight;
      size := InitialWidth * InitialHeight;
      powerSupplyIn := 1.0;
      powerSupplyOut := 0.0;
      electronBuffer := new real[InitialWidth * InitialHeight](_ => 0.0);
      phosphorBuffer := new real[InitialWidth * InitialHeight](_ => 0.0);
    }

    /** Gives the simulation a new screen size; nothing else changes. The
        product must not overflow a 32-bit `int` and must fit the buffers. */
    method UpdateScreenSize(width: int, height: int)
      requires Valid()
      requires IsInt32(width) && IsInt32(height) && IsInt32(width * height)
      requires width * height <= electronBuffer.Length
      modifies this
      ensures Valid()
      ensures this.width == width && this.height == height && size == width * height
      ensures powerSupplyIn == old(powerSupplyIn) && powerSupplyOut == old(powerSupplyOut)
      ensures electronBuffer[..] == old(electronBuffer[..]) && phosphorBuffer[..] == old(phosphorBuffer[..])
    {
      this.width := width;
      this.height := height;
      size := width * height;
    }

    /** One power-supply update: the output moves `PowerSupplyDecay` of the way
        toward the input, staying in [0,1] and never moving away from it. */
    method StepPowerSupply()
      requires Valid()
      modifies this`powerSupplyOut
      ensures Valid()
      ensures powerSupplyOut == Smooth(old(powerSupplyOut), powerSupplyIn, PowerSupplyDecay)
      ensures Abs(powerSupplyIn - powerSupplyOut) <= Abs(powerSupplyIn - old(powerSupplyOut))
    {
      SmoothIsConvex(powerSupplyOut, powerSupplyIn, PowerSupplyDecay);
      SmoothStaysIn(powerSupplyOut, powerSupplyIn, PowerSupplyDecay, 0.0, 1.0);
      powerSupplyOut := powerSupplyOut + (powerSupplyIn - powerSupplyOut) * PowerSupplyDecay;
    }

    /** Zeroes the live cells of the electron buffer. */
    method ClearElectronBuffer()
      requires Valid()
      modifies electronBuffer
      ensures forall i :: 0 <= i < Live() ==> electronBuffer[i] == 0.0
      ensures forall i :: Live() <= i < electronBuffer.Length ==> electronBuffer[i] == old(electronBuffer[i])
      ensures phosphorBuffer[..] == old(phosphorBuffer[..])
    {
      var i := 0;
      while i < size
        invariant 0 <= i <= Live()
        invariant forall j :: 0 <= j < i ==> electronBuffer[j] == 0.0
        invariant forall j :: i <= j < electronBuffer.Length ==> electronBuffer[j] == old(electronBuffer[j])
      {
        electronBuffer[i] := 0.0;
        i := i + 1;
      }
    }

    /** Deposits one beam sample that landed on pixel `(x, y)` at sweep position
        `n`: a clipped sample changes nothing, any other adds its intensity to
        its own cell and to no other. */
    method Deposit(x: int, y: int, n: real)
      requires Valid()
      modifies electronBuffer
      ensures electronBuffer[..] == Deposited(old(electronBuffer[..]), width, height, Pixel(x, y), powerSupplyOut, n)
      ensures phosphorBuffer[..] == old(phosphorBuffer[..])
    {
      if x < 0 || y < 0 || x >= width || y >= height {
        return;
      }
      var decayCurve := 1.0 - n * n;
      var intensity := IntensityPerElectron * powerSupplyOut;
      intensity := intensity - IntensityPerElectron * PhosphorDecay * decayCurve;
      assert intensity == Intensity(powerSupplyOut, n);
      IndexInBounds(Pixel(x, y), width, height);
      electronBuffer[x + y * width] := electronBuffer[x + y * width] + intensity;
      assert electronBuffer[..] == old(electronBuffer[..])[x + y * width := old(electronBuffer[x + y * width]) + intensity];
    }

    /** Moves each live phosphor cell `PhosphorDecay` of the way toward the
        electron buffer, so that it lands between its old value and the new
        electron energy. */
    method UpdatePhosphor()
      requires Valid()
      modifies phosphorBuffer
      ensures forall i :: 0 <= i < Live() ==>
        phosphorBuffer[i] == Smooth(old(phosphorBuffer[i]), electronBuffer[i], PhosphorDecay)
      ensures forall i :: 0 <= i < Live() ==>
        Between(phosphorBuffer[i], old(phosphorBuffer[i]), electronBuffer[i])
      ensures forall i :: Live() <= i < phosphorBuffer.Length ==> phosphorBuffer[i] == old(phosphorBuffer[i])
      ensures electronBuffer[..] == old(electronBuffer[..])
    {
      var i := 0;
      while i < size
        invariant 0 <= i <= Live()
        invariant forall j :: 0 <= j < i ==>
          phosphorBuffer[j] == Smooth(old(phosphorBuffer[j]), electronBuffer[j], PhosphorDecay)
        invariant forall j :: 0 <= j < i ==>
          Between(phosphorBuffer[j], old(phosphorBuffer[j]), electronBuffer[j])
        invariant forall j :: i <= j < phosphorBuffer.Length ==> phosphorBuffer[j] == old(phosphorBuffer[j])
      {
        SmoothIsConvex(phosphorBuffer[i], electronBuffer[i], PhosphorDecay);
        phosphorBuffer[i] := phosphorBuffer[i] + (electronBuffer[i] - phosphorBuffer[i]) * PhosphorDecay;
        i := i + 1;
      }
    }

    /** One frame. `beam[k]` is the pixel the `k`-th sample lands on. Afterwards
        each live electron cell holds exactly the energy of the samples that hit
        it this frame, and the phosphor has moved toward it. */
    method Render(beam: seq<Pixel>)
      requires Valid()
      requires |beam| == ElectronCount
      modifies this`powerSupplyOut, electronBuffer, phosphorBuffer
      ensures Valid()
      ensures powerSupplyOut == Smooth(old(powerSupplyOut), powerSupplyIn, PowerSupplyDecay)
      ensures forall i :: 0 <= i < Live() ==>
        electronBuffer[i] == CellEnergy(i, width, height, powerSupplyOut, beam)
      ensures forall i :: Live() <= i < electronBuffer.Length ==> electronBuffer[i] == old(electronBuffer[i])
      ensures forall i :: 0 <= i < Live() ==>
        phosphorBuffer[i] == Smooth(old(phosphorBuffer[i]), electronBuffer[i], PhosphorDecay)
      ensures forall i :: Live() <= i < phosphorBuffer.Length ==> phosphorBuffer[i] == old(phosphorBuffer[i])
    {
      StepPowerSupply();
      ClearElectronBuffer();
      ghost var cleared := electronBuffer[..];
      var n := 0.0;
      var k := 0;
      while n < 1.0
        invariant 0 <= k <= ElectronCount
        invariant n == SamplePosition(k)
        invariant electronBuffer[..] == Sweep(cleared, width, height, powerSupplyOut, beam[..k])
        modifies electronBuffer
        decreases ElectronCount - k
      {
        PositionInSweep(k, ElectronCount);
        var p := beam[k];
        Deposit(p.x, p.y, n);
        assert beam[..k + 1][..k] == beam[..k];
        n := n + ElectronDelta;
        k := k + 1;
      }
      PositionInSweep(k, ElectronCount);
      assert beam[..k] == beam;
      forall i | 0 <= i < electronBuffer.Length
        ensures electronBuffer[i] == cleared[i] + CellEnergy(i, width, height, powerSupplyOut, beam)
      {
        SweepAt(cleared, width, height, powerSupplyOut, beam, i);
      }
      forall i | Live() <= i < electronBuffer.Length
        ensures CellEnergy(i, width, height, powerSupplyOut, beam) == 0.0
      {
        CellEnergyOutside(i, width, height, powerSupplyOut, beam);
      }
      UpdatePhosphor();
    }
  }

  /** The power supply's ramp from start-up: `k` frames with the input at 1
      take the output from 0 to `1 - (1 - decay)^k`, which stays in [0,1]. */
  lemma {:induction false} PowerSupplyRamp(k: nat)
    ensures Iterate(0.0, 1.0, PowerSupplyDecay, k) == 1.0 - Pow(1.0 - PowerSupplyDecay, k)
    ensures 0.0 <= Iterate(0.0, 1.0, PowerSupplyDecay, k) <= 1.0
  {
    IterateClosedForm(0.0, 1.0, PowerSupplyDecay, k);
    PowInUnit(1.0 - PowerSupplyDecay, k);
  }
}
