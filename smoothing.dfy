/** The exponential-smoothing step shared by the power supply and the phosphor
    buffer: a value moves a fixed fraction `d` of the way toward its target. */
module Smoothing {

  function Abs(x: real): real
  {
    if x < 0.0 then -x else x
  }

  /** `x` lies on the closed segment between `a` and `b`, in either order. */
  predicate Between(x: real, a: real, b: real)
  {
    (a <= x <= b) || (b <= x <= a)
  }

  /** The decay factor `1 / (1 + k)` derived from a smoothing or persistence
      constant `k`; a larger `k` means a slower filter. */
  function DecayFor(k: real): (d: real)
    requires 0.0 <= k
    ensures 0.0 < d <= 1.0
    ensures d * (1.0 + k) == 1.0
  {
    1.0 / (1.0 + k)
  }

  /** One filter step: `cur += (target - cur) * d`. */
  function Smooth(cur: real, target: real, d: real): real
  {
    cur + (target - cur) * d
  }

  /** After one step the remaining gap to the target is the old gap scaled by
      `1 - d`. */
  lemma SmoothGap(cur: real, target: real, d: real)
    ensures target - Smooth(cur, target, d) == (1.0 - d) * (target - cur)
  {
  }

  /** For a decay in (0,1] one step is a convex combination of the old value and
      the target: it lands between them and never moves away from the target. */
  lemma SmoothIsConvex(cur: real, target: real, d: real)
    requires 0.0 < d <= 1.0
    ensures Between(Smooth(cur, target, d), cur, target)
    ensures Abs(target - Smooth(cur, target, d)) <= Abs(target - cur)
  {
    SmoothGap(cur, target, d);
    ScaleWithin(1.0 - d, target - cur);
  }

  /** A step never leaves an interval that holds both the old value and the
      target (the power supply stays in [0,1] when its input is 0 or 1). */
  lemma SmoothStaysIn(cur: real, target: real, d: real, lo: real, hi: real)
    requires 0.0 < d <= 1.0
    requires lo <= cur <= hi && lo <= target <= hi
    ensures lo <= Smooth(cur, target, d) <= hi
  {
    SmoothIsConvex(cur, target, d);
  }

  /** Multiplying by a non-negative factor preserves order. */
  lemma MulMonoReal(a: real, b: real, c: real)
    requires 0.0 <= c && a <= b
    ensures a * c <= b * c
  {
  }

  /** Scaling `x` by a factor in [0,1] keeps it between 0 and `x`. */
  lemma ScaleWithin(f: real, x: real)
    requires 0.0 <= f <= 1.0
    ensures Between(f * x, 0.0, x)
  {
  }

  /** One more step on a value whose gap to the target is `(target - cur) * p`
      multiplies `p` by `1 - d`. */
  lemma ClosedFormStep(prev: real, target: real, cur: real, d: real, p: real)
    requires prev == target - (target - cur) * p
    ensures Smooth(prev, target, d) == target - (target - cur) * ((1.0 - d) * p)
  {
  }

  function Pow(b: real, k: nat): real
  {
    if k == 0 then 1.0 else b * Pow(b, k - 1)
  }

  lemma {:induction false} PowInUnit(b: real, k: nat)
    requires 0.0 <= b <= 1.0
    ensures 0.0 <= Pow(b, k) <= 1.0
  {
    if k > 0 {
      PowInUnit(b, k - 1);
      var p := Pow(b, k - 1);
      assert Pow(b, k) == b * p;
      MulMonoReal(0.0, b, p);
      MulMonoReal(b, 1.0, p);
      assert 0.0 <= b * p <= p;
    }
  }

  /** The value after `k` steps toward a constant target. */
  function Iterate(cur: real, target: real, d: real, k: nat): real
  {
    if k == 0 then cur else Smooth(Iterate(cur, target, d, k - 1), target, d)
  }

  /** Closed form of `k` steps: the initial gap shrinks geometrically with
      ratio `1 - d`. With `cur = 0` and `target = 1` this is the power-supply
      ramp `1 - (1 - d)^k`. */
  lemma {:induction false} IterateClosedForm(cur: real, target: real, d: real, k: nat)
    ensures Iterate(cur, target, d, k) == target - (target - cur) * Pow(1.0 - d, k)
  {
    if k > 0 {
      IterateClosedForm(cur, target, d, k - 1);
      ClosedFormStep(Iterate(cur, target, d, k - 1), target, cur, d, Pow(1.0 - d, k - 1));
    }
  }

  /** Repeated steps toward a constant target move monotonically toward it and
      never overshoot: every iterate lies between the start and the target, and
      each step lies between the previous iterate and the target. */
  lemma {:induction false} IterateApproaches(cur: real, target: real, d: real, k: nat)
    requires 0.0 < d <= 1.0
    ensures Between(Iterate(cur, target, d, k), cur, target)
    ensures Between(Iterate(cur, target, d, k + 1), Iterate(cur, target, d, k), target)
    ensures Abs(target - Iterate(cur, target, d, k + 1)) <= Abs(target - Iterate(cur, target, d, k))
  {
    SmoothIsConvex(Iterate(cur, target, d, k), target, d);
    if k > 0 {
      IterateApproaches(cur, target, d, k - 1);
    }
  }
}
