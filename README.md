# Vector display simulation: the per-frame render step

This project models the core of a CRT-style vector display simulator in Dafny:
the state kept in `vector.cpp` and its per-frame `render` step. An electron
beam sweeps a path once per frame in `electron_count` discrete samples. Each
sample that lands on the screen deposits energy into an electron buffer. A
power supply ramps the beam up or down by exponential smoothing. A phosphor
buffer follows the electron buffer with an exponential moving average, which
gives the afterglow.

Files:

- `parameters.dfy` (module `Parameters`): the configuration constants and the
  quantities precomputed from them (`intensity_per_electron`,
  `electron_delta`, `phosphor_decay`, `power_supply_decay`). All doubles are
  modelled as exact `real`s.
- `smoothing.dfy` (module `Smoothing`): the smoothing step
  `cur += (target - cur) * d` that both the power supply and the phosphor
  buffer use. It also holds what repeated steps do: a closed form and
  monotone approach without overshoot.
- `beam.dfy` (module `Beam`): the rasterizer's arithmetic. It covers the clip
  test, the row-major index `x + y*width`, the per-sample intensity
  `ipe*out - ipe*phosphor_decay*(1 - n*n)`, and the buffer after a whole sweep
  of samples as a function of the old buffer.
- `display.dfy` (module `Display`): class `Simulation`. It owns `width`,
  `height`, `size`, `powerSupplyIn`, `powerSupplyOut` and the two arrays. Its
  methods are `UpdateScreenSize`, `StepPowerSupply`, `ClearElectronBuffer`,
  `Deposit` (the body of the sample loop), `UpdatePhosphor` and `Render` (the
  whole frame). Each method is proved against the functions of `Beam` and
  `Smoothing`.

`vector.cpp` does not compile as written. The model follows its evident
intent:

- the power-supply smoothing constant (vector.cpp:11) is given a type, with
  value 10;
- `phosphor_peristence` (vector.cpp:35) is read as `phosphor_persistence`;
- `phosphor[i]` (vector.cpp:111) is read as `phosphor_buffer[i]`;
- `double electron_buffer[size]` and `double phosphor_buffer[size]`
  (vector.cpp:45, 49) use a non-constant bound at namespace scope. They are
  read as zero-filled arrays for the start-up 480x360 screen;
- `fill_n` (vector.cpp:78) is read as `std::fill_n`;
- the undefined `noise()` (vector.cpp:85-86) and the undeclared
  `cos`/`sin`/`tan`/`M_PI` (vector.cpp:65-66, 85-88) belong to path
  sampling and scattering, which are outside the model (see below).

What the code does, stated plainly:

- The power supply is updated once per frame (vector.cpp:75), with decay
  `1/(1 + smoothing)`. The TODO at vector.cpp:74 asks for a per-electron
  update instead.
- The intensity discount `phosphor_decay * (1 - n*n)` is largest at the start
  of the sweep (`n = 0`). So early samples are discounted more than late ones
  (`Beam.IntensityIncreasing`).
- The electron buffer is never clamped. A sample's contribution is negative
  whenever `out < phosphor_decay * (1 - n*n)` (`Beam.IntensityNegative`). This
  happens, for example, while the power is switched off and `out` decays
  toward 0.
- There is a single path through `render`: one monochrome electron buffer and
  one filtered phosphor buffer.

The arrays are sized once, from the start-up `size` of 480x360 (vector.cpp:45,
49). `update_screen_size` can later raise `size` past that, and the code would
then write past the end of both arrays. The model therefore fixes the array
length at construction. `UpdateScreenSize` requires `width * height` to fit in
it, and `Simulation.Valid()` keeps that bound as an object invariant.

`width`, `height` and `size` are 32-bit `int`s in the source. The model keeps
them as unbounded integers that `Simulation.Valid()` restricts to the 32-bit
range. `UpdateScreenSize` requires both arguments and their product to lie in
that range. An overflowing `width * height` (vector.cpp:55) is undefined
behaviour; if it wrapped, `fill_n` and the phosphor loop would run past both
arrays. Within that range, a negative product means `fill_n` and the
`i < size` loop touch no cells, so `Simulation.Live()` is `max(size, 0)`. A
negative width or height makes every sample clip.

## Model

| member | source | states |
|---|---|---|
| `Parameters.PrecomputedValues` | vector.cpp:10-36 | The configuration constants give `intensity_per_electron = 0.01`, `electron_delta * electron_count = 1`, and `phosphor_decay = power_supply_decay = 1/11`, both in (0,1] |
| `Smoothing.Smooth` | vector.cpp:75 | The update `cur += (target - cur) * d`, used for the power supply (line 75) and each phosphor cell (line 111). No contract of its own; its properties are `SmoothIsConvex`, `SmoothStaysIn` and `IterateClosedForm` |
| `Smoothing.Iterate` | vector.cpp:110-112 | `k` repeated smoothing steps toward a fixed target, as successive frames apply them. No contract of its own; its properties are `IterateClosedForm` and `IterateApproaches` |
| `Display.PowerSupplyRamp` | vector.cpp:39-40 | From the start-up state `out = 0`, `in = 1`, the output after `k` frames is `1 - (1 - power_supply_decay)^k` and stays in [0,1] |
| `Beam.Clipped` | vector.cpp:95-96 | The clip test: `x < 0`, `y < 0`, `x >= width` or `y >= height`. No contract of its own; its properties are `IndexInBounds`, `CellPixel` and `Deposited` |
| `Beam.Index` | vector.cpp:105 | The row-major cell `x + y*width`. No contract of its own; its properties are `IndexInBounds`, `IndexInjective` and `CellPixel` |
| `Beam.Intensity` | vector.cpp:100-102 | The intensity `ipe*out - ipe*phosphor_decay*(1 - n*n)`. No contract of its own; its properties are `IntensityRange`, `IntensityIncreasing` and `IntensityNegative` |
| `Beam.Sweep` | vector.cpp:79-106 | The electron buffer after the sample loop has deposited every sample in order; it keeps the buffer length. `Render`'s loop is proved equal to it, and `SweepAt` and `SweepTotal` state what it holds |
| `Display.Simulation.Valid` | vector.cpp:28-49 | The state's invariant: 32-bit `width`, `height` and `size`; `size = width*height`; `size` fits the buffers, which are distinct arrays of equal length; `in` is 0 or 1 and `out` lies in [0,1]. Every method preserves it |
| `Display.Simulation.Live` | vector.cpp:78 | The number of cells `fill_n` at line 78 and the loop at line 110 touch: `size`, or none when `size` is negative |
| `Smoothing.DecayFor` | vector.cpp:35-36 | For a non-negative persistence or smoothing constant `k`, `1/(1+k)` lies in (0,1], and multiplying it by `1+k` gives 1 |
| `Smoothing.SmoothIsConvex` | vector.cpp:75 | For a decay in (0,1], one smoothing step lands between the old value and the target and is no farther from the target than before |
| `Smoothing.SmoothStaysIn` | vector.cpp:39-40 | A smoothing step stays inside any interval that holds both the old value and the target. So with `in` in {0,1} and `out` in [0,1], the new `out` stays in [0,1] |
| `Smoothing.IterateClosedForm` | vector.cpp:75 | `k` steps toward a constant target leave the gap `(target - start) * (1 - d)^k`. From `out = 0` with `in = 1` the power supply reaches `1 - (1 - d)^k` after `k` frames |
| `Smoothing.IterateApproaches` | vector.cpp:110-112 | Repeated steps toward a constant target (a phosphor cell under constant electron input) stay between the start and the target. Each step lies between the previous value and the target and does not increase the distance |
| `Beam.IndexInBounds` | vector.cpp:95-105 | A pixel that passes the clip test has a cell index `x + y*width` in `[0, width*height)` |
| `Beam.IndexInjective` | vector.cpp:105 | Two unclipped pixels with the same cell index are the same pixel |
| `Beam.CellPixel` | vector.cpp:105 | For a non-negative width, every live cell `i < width*height` is the index of the unclipped pixel `(i % width, i / width)` |
| `Beam.PositionInSweep` | vector.cpp:79 | Under exact arithmetic, position `n = k/count` is non-negative, and `n < 1` holds exactly for `k < count`. So the sweep loop visits exactly `count` samples, all in [0,1) |
| `Beam.IntensityRange` | vector.cpp:100-102 | For `n` in [0,1), a sample's intensity is at least `ipe*(out - phosphor_decay)` and strictly below `ipe*out` |
| `Beam.IntensityIncreasing` | vector.cpp:100-102 | For `0 <= n1 <= n2`, a sample at `n1` deposits no more than a sample at `n2` |
| `Beam.IntensityNegative` | vector.cpp:100-102 | A sample's contribution is negative exactly when `out < phosphor_decay * (1 - n*n)`. The result is not clamped |
| `Beam.Deposited` | vector.cpp:94-105 | Buffer length is unchanged. A clipped sample leaves the buffer as it was. An unclipped one adds exactly its intensity to the cell `x + y*width`, which is in bounds. Every other cell is unchanged |
| `Beam.SweepAt` | vector.cpp:79-106 | After a sweep, each cell holds its old value plus exactly the intensities of the samples that landed on it |
| `Beam.CellEnergyOutside` | vector.cpp:95-96 | No sample ever reaches a cell below 0 or at or beyond `width*height` |
| `Beam.CellEnergyUnhit` | vector.cpp:79-106 | A cell that no unclipped sample lands on receives no energy |
| `Beam.SweepTotal` | vector.cpp:94-106 | A sweep adds to the buffer's total exactly the energy of its unclipped samples. Clipped energy is lost, not redistributed |
| `Display.Simulation.constructor` | vector.cpp:27-49 | Start-up state: a 480x360 screen with `size` 172800, buffers of that length and all zero, `power_supply_in = 1`, `power_supply_out = 0` |
| `Display.Simulation.UpdateScreenSize` | vector.cpp:52-56 | Sets `width` and `height` to the arguments and `size` to their product. The power supply and both buffers are unchanged. The arguments and their product must be 32-bit values that fit the buffers |
| `Display.Simulation.StepPowerSupply` | vector.cpp:75 | The new `out` is `out + (in - out) * power_supply_decay`. It stays in [0,1] and is no farther from `in` than before |
| `Display.Simulation.ClearElectronBuffer` | vector.cpp:78 | Every live cell of the electron buffer is 0. Cells beyond `size` and the phosphor buffer are unchanged |
| `Display.Simulation.Deposit` | vector.cpp:94-105 | The electron buffer becomes `Deposited` of the old one: clipped samples change nothing, an unclipped one changes exactly its own cell. The phosphor buffer is unchanged |
| `Display.Simulation.UpdatePhosphor` | vector.cpp:110-112 | Each live phosphor cell becomes `p + (e - p) * phosphor_decay`, which lies between its old value and the electron value. Cells beyond `size` and the electron buffer are unchanged |
| `Display.Simulation.Render` | vector.cpp:69-116 | One frame: the power supply takes one step. Each live electron cell then holds exactly the energy of this frame's samples that hit it, and cells beyond `size` keep their values. Each live phosphor cell takes one smoothing step toward its electron cell |

## Left out

- `sample_path` (vector.cpp:60-67) is a placeholder circle built from `cos` and `sin`. The scattering (vector.cpp:85-88) uses `tan`, `cos`, `sin` and a random source. The scaling by `power_supply_out` and the truncation to `int` (vector.cpp:91-92) finish the pixel computation. All of these produce the sample's pixel, so `Render` takes the resulting integer pixels as its input `beam`, one per sample.
- IEEE double arithmetic: every quantity is an exact `real`. In particular, the loop counter `n` is the exact `k * electron_delta`. Repeated floating-point addition of `electron_delta` could yield one sample more or fewer than `electron_count`, and the model does not capture that.
- `power_supply_in` is never assigned by the code. The input side that toggles it is not part of the program. The model keeps it as a field that `Valid()` restricts to 0 or 1.
- Render: its precondition `|beam| == ElectronCount` is the interface of the abstraction above (one given pixel per sample). The code places no such demand.
- The bloom parameters (vector.cpp:23-25), `phosphor_reflectance` (vector.cpp:20) and `electron_scattering` (vector.cpp:16) are declared but never used in a modelled step. Bloom rendering is a TODO (vector.cpp:114-115).
- Pixel coordinates are unbounded integers rather than 32-bit `int`s. This loses nothing, because the clip test rejects every value outside `[0, width)` and `[0, height)`.
- `main` (vector.cpp:118-121) is empty. The `vec2` struct (vector.cpp:4-8) only carries the sampled point, which is outside the model.
