/** The beam rasterizer's pure arithmetic: which pixels survive clipping, where a
    pixel lives in the row-major electron buffer, how much energy one sample
    deposits, and what a whole sweep of samples leaves in the buffer. */
module Beam {
  import opened Parameters

  /** A beam sample's final integer pixel, after path sampling, scattering,
      power-supply scaling and truncation to `int`. */
  datatype Pixel = Pixel(x: int, y: int)

  /** The clip test: samples outside `[0,width) x [0,height)` are dropped. */
  predicate Clipped(p: Pixel, width: int, height: int)
  {
    p.x < 0 || p.y < 0 || p.x >= width || p.y >= height
  }

  /** Row-major cell of a pixel. */
  function Index(p: Pixel, width: int): int
  {
    p.x + p.y * width
  }

  /** Every pixel that survives clipping addresses a live cell. */
  lemma IndexInBounds(p: Pixel, width: int, height: int)
    requires !Clipped(p, width, height)
    ensures 0 <= Index(p, width) < width * height
  {
    assert p.y * width <= (height - 1) * width;
  }

  /** Distinct unclipped pixels address distinct cells. */
  lemma IndexInjective(p: Pixel, q: Pixel, width: int, height: int)
    requires !Clipped(p, width, height) && !Clipped(q, width, height)
    requires Index(p, width) == Index(q, width)
    ensures p == q
  {
    if p.y != q.y {
      var lo := if p.y < q.y then p.y else q.y;
      var hi := if p.y < q.y then q.y else p.y;
      RowsApart(lo, hi, width);
    }
  }

  /** Whole rows lie between two different row numbers. */
  lemma RowsApart(a: int, b: int, width: int)
    requires 0 < width && a < b
    ensures a * width + width <= b * width
  {
    MulMonoInt(1, b - a, width);
    assert (b - a) * width == b * width - a * width;
  }

  lemma MulMonoInt(a: int, b: int, c: int)
    requires a <= b && 0 <= c
    ensures a * c <= b * c
  {
  }

  /** Every live cell of a screen with non-negative width is addressed by
      exactly the unclipped pixel `(i % width, i / width)`. */
  lemma CellPixel(i: int, width: int, height: int)
    requires 0 <= width && 0 <= i < width * height
    ensures 0 < width
    ensures !Clipped(Pixel(i % width, i / width), width, height)
    ensures Index(Pixel(i % width, i / width), width) == i
  {
  }

  /** The sweep position of the `k`-th sample: `n` starts at 0 and grows by
      `1 / count` per sample. */
  function Position(k: nat, count: nat): real
    requires 0 < count
  {
    k as real * (1.0 / count as real)
  }

  /** Under exact arithmetic the loop `n < 1` visits exactly `count` samples, all
      at positions in [0,1). */
  lemma PositionInSweep(k: nat, count: nat)
    requires 0 < count
    ensures 0.0 <= Position(k, count)
    ensures Position(k, count) < 1.0 <==> k < count
  {
  }

  function SamplePosition(k: nat): real
  {
    Position(k, ElectronCount)
  }

  /** Energy one sample deposits: the per-electron share scaled by the power
      supply, minus the part that has already decayed by the end of the frame
      (`1 - n*n` of one frame's phosphor decay). The result is not clamped. */
  function Intensity(out: real, n: real): real
  {
    IntensityPerElectron * out - IntensityPerElectron * PhosphorDecay * (1.0 - n * n)
  }

  /** Over a sweep a sample deposits at least `ipe*(out - decay)` (at `n = 0`) and
      strictly less than `ipe*out`. */
  lemma IntensityRange(out: real, n: real)
    requires 0.0 <= n < 1.0
    ensures IntensityPerElectron * (out - PhosphorDecay) <= Intensity(out, n)
    ensures Intensity(out, n) < IntensityPerElectron * out
  {
    assert n * n <= n;
  }

  /** Samples later in the sweep are discounted less. */
  lemma IntensityIncreasing(out: real, n1: real, n2: real)
    requires 0.0 <= n1 <= n2
    ensures Intensity(out, n1) <= Intensity(out, n2)
  {
  }

  /** A sample's contribution is negative exactly when the power supply output
      is below the decayed fraction `decay*(1 - n*n)`. */
  lemma IntensityNegative(out: real, n: real)
    ensures Intensity(out, n) < 0.0 <==> out < PhosphorDecay * (1.0 - n * n)
  {
  }

  /** One sample added to the electron buffer `e`. */
  function Deposited(e: seq<real>, width: int, height: int, p: Pixel, out: real, n: real): (r: seq<real>)
    requires width * height <= |e|
    ensures |r| == |e|
    ensures Clipped(p, width, height) ==> r == e
    ensures !Clipped(p, width, height) ==>
      0 <= Index(p, width) < |e| && r[Index(p, width)] == e[Index(p, width)] + Intensity(out, n)
    ensures forall i :: 0 <= i < |e| && i != Index(p, width) ==> r[i] == e[i]
  {
    if Clipped(p, width, height) then e
    else
      IndexInBounds(p, width, height);
      var i := Index(p, width);
      e[i := e[i] + Intensity(out, n)]
  }

  /** The electron buffer after the samples `hits` (sample `k` at sweep position
      `SamplePosition(k)`) have been deposited, in order, onto `e`. */
  function Sweep(e: seq<real>, width: int, height: int, out: real, hits: seq<Pixel>): (r: seq<real>)
    requires width * height <= |e|
    ensures |r| == |e|
    decreases |hits|
  {
    if hits == [] then e
    else
      var k := |hits| - 1;
      Deposited(Sweep(e, width, height, out, hits[..k]), width, height, hits[k], out, SamplePosition(k))
  }

  /** What sample `k` contributes to cell `i`. */
  function Contribution(i: int, width: int, height: int, out: real, p: Pixel, k: nat): real
  {
    if !Clipped(p, width, height) && Index(p, width) == i then Intensity(out, SamplePosition(k)) else 0.0
  }

  /** Total energy the samples `hits` deliver to cell `i`. */
  function CellEnergy(i: int, width: int, height: int, out: real, hits: seq<Pixel>): real
    decreases |hits|
  {
    if hits == [] then 0.0
    else
      var k := |hits| - 1;
      CellEnergy(i, width, height, out, hits[..k]) + Contribution(i, width, height, out, hits[k], k)
  }

  /** Total energy of the unclipped samples among `hits`; clipped samples lose
      their energy. */
  function BeamEnergy(width: int, height: int, out: real, hits: seq<Pixel>): real
    decreases |hits|
  {
    if hits == [] then 0.0
    else
      var k := |hits| - 1;
      BeamEnergy(width, height, out, hits[..k])
      + (if Clipped(hits[k], width, height) then 0.0 else Intensity(out, SamplePosition(k)))
  }

  /** After a sweep each cell holds its old value plus exactly the energy of the
      samples that landed on it. */
  lemma {:induction false} SweepAt(e: seq<real>, width: int, height: int, out: real, hits: seq<Pixel>, i: int)
    requires width * height <= |e|
    requires 0 <= i < |e|
    ensures Sweep(e, width, height, out, hits)[i] == e[i] + CellEnergy(i, width, height, out, hits)
  {
    if hits != [] {
      SweepAt(e, width, height, out, hits[..|hits| - 1], i);
    }
  }

  /** No sample reaches a cell at or beyond `width*height`. */
  lemma {:induction false} CellEnergyOutside(i: int, width: int, height: int, out: real, hits: seq<Pixel>)
    requires i < 0 || width * height <= i
    ensures CellEnergy(i, width, height, out, hits) == 0.0
  {
    if hits != [] {
      var k := |hits| - 1;
      CellEnergyOutside(i, width, height, out, hits[..k]);
      if !Clipped(hits[k], width, height) {
        IndexInBounds(hits[k], width, height);
      }
    }
  }

  /** A cell that no unclipped sample lands on receives nothing. */
  lemma {:induction false} CellEnergyUnhit(i: int, width: int, height: int, out: real, hits: seq<Pixel>)
    requires forall j :: 0 <= j < |hits| && !Clipped(hits[j], width, height) ==> Index(hits[j], width) != i
    ensures CellEnergy(i, width, height, out, hits) == 0.0
  {
    if hits != [] {
      var k := |hits| - 1;
      assert forall j :: 0 <= j < k ==> hits[..k][j] == hits[j];
      CellEnergyUnhit(i, width, height, out, hits[..k]);
    }
  }

  function Sum(s: seq<real>): real
  {
    if s == [] then 0.0 else s[0] + Sum(s[1..])
  }

  lemma {:induction false} SumUpdate(s: seq<real>, i: int, v: real)
    requires 0 <= i < |s|
    ensures Sum(s[i := v]) == Sum(s) - s[i] + v
  {
    if i == 0 {
      assert s[i := v][1..] == s[1..];
    } else {
      assert s[i := v][1..] == s[1..][i - 1 := v];
      SumUpdate(s[1..], i - 1, v);
    }
  }

  /** A sweep adds to the buffer exactly the energy of its unclipped samples:
      nothing is redistributed, clipped energy is lost. */
  lemma {:induction false} SweepTotal(e: seq<real>, width: int, height: int, out: real, hits: seq<Pixel>)
    requires width * height <= |e|
    ensures Sum(Sweep(e, width, height, out, hits)) == Sum(e) + BeamEnergy(width, height, out, hits)
  {
    if hits != [] {
      var k := |hits| - 1;
      var prev := Sweep(e, width, height, out, hits[..k]);
      SweepTotal(e, width, height, out, hits[..k]);
      if !Clipped(hits[k], width, height) {
        var i := Index(hits[k], width);
        IndexInBounds(hits[k], width, height);
        var v := prev[i] + Intensity(out, SamplePosition(k));
        assert Sweep(e, width, height, out, hits) == prev[i := v];
        SumUpdate(prev, i, v);
      }
    }
  }
}
