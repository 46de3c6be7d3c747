/**
 * The motor mass-flow table and its point-wise evaluation
 * (`mdot_piecewise_linear` in src/simulator.py).
 *
 * A table is two parallel sequences: sample times, strictly increasing, and
 * the propellant mass-flow rate at each of them.  Evaluation is 0 without a
 * usable table and outside the support, gives the tabulated value at either
 * endpoint (within EPS), and interpolates linearly strictly inside.
 */
module MotorCurve {
  import opened Options
  import opened RealArith

  /** The tolerance the simulator writes as `1e-12`. */
  const EPS: real := 1e-12

  /** Each sample time is strictly later than the one before it. */
  predicate StrictlyIncreasing(ts: seq<real>) {
    forall i :: 0 < i < |ts| ==> ts[i - 1] < ts[i]
  }

  predicate NonNegative(xs: seq<real>) {
    forall i :: 0 <= i < |xs| ==> xs[i] >= 0.0
  }

  /**
   * What the lookup needs of its inputs when both columns are present:
   * one flow per time and times in increasing order (the loader sorts them).
   */
  predicate WellFormed(times: Option<seq<real>>, flows: Option<seq<real>>) {
    times.Some? && flows.Some? ==>
      |times.value| == |flows.value| && StrictlyIncreasing(times.value)
  }

  /** A table the lookup can use: both columns present, at least two samples. */
  predicate HasSupport(times: Option<seq<real>>, flows: Option<seq<real>>) {
    times.Some? && flows.Some? && |times.value| >= 2
  }

  /** Strict increase between neighbours gives strict increase between any two samples. */
  lemma {:induction false} IncreasingAt(ts: seq<real>, i: int, j: int)
    requires StrictlyIncreasing(ts)
    requires 0 <= i < j < |ts|
    ensures ts[i] < ts[j]
  {
    if i + 1 < j {
      IncreasingAt(ts, i, j - 1);
    }
  }

  /**
   * The bracketing index for a time strictly inside the support, searched
   * upward from `lo`: the sample at or before `t` whose successor is after it.
   */
  function Bracket(ts: seq<real>, t: real, lo: nat): (k: nat)
    requires StrictlyIncreasing(ts)
    requires lo + 1 < |ts| && ts[lo] <= t < ts[|ts| - 1]
    ensures lo <= k && k + 1 < |ts|
    ensures ts[k] <= t < ts[k + 1]
    decreases |ts| - lo
  {
    if t < ts[lo + 1] then lo else Bracket(ts, t, lo + 1)
  }

  /** In an increasing table at most one interval `[ts[k], ts[k+1])` holds `t`. */
  lemma BracketUnique(ts: seq<real>, t: real, j: nat, k: nat)
    requires StrictlyIncreasing(ts)
    requires j + 1 < |ts| && ts[j] <= t < ts[j + 1]
    requires k + 1 < |ts| && ts[k] <= t < ts[k + 1]
    ensures j == k
  {
    if j < k {
      if j + 1 < k { IncreasingAt(ts, j + 1, k); }
    } else if k < j {
      if k + 1 < j { IncreasingAt(ts, k + 1, j); }
    }
  }

  /**
   * The value on the straight line through `(t0, f0)` and `(t1, f1)` at `t`,
   * written as the slope times the offset plus the left value.
   */
  function Interpolate(t0: real, f0: real, t1: real, f1: real, t: real): (r: real)
    requires t0 < t1 && t0 <= t <= t1
    ensures Min(f0, f1) <= r <= Max(f0, f1)
    ensures t == t0 ==> r == f0
    ensures t == t1 ==> r == f1
  {
    var slope := (f1 - f0) / (t1 - t0);
    var r := slope * (t - t0) + f0;
    InterpolateBetween(t0, f0, t1, f1, t);
    r
  }

  /** The interpolated value is a convex combination of the two samples. */
  lemma InterpolateBetween(t0: real, f0: real, t1: real, f1: real, t: real)
    requires t0 < t1 && t0 <= t <= t1
    ensures var r := (f1 - f0) / (t1 - t0) * (t - t0) + f0;
      Min(f0, f1) <= r <= Max(f0, f1) && (t == t1 ==> r == f1)
  {
    var theta := (t - t0) / (t1 - t0);
    assert 0.0 <= theta <= 1.0;
    assert (f1 - f0) / (t1 - t0) * (t - t0) == theta * (f1 - f0);
    if f0 <= f1 {
      assert 0.0 <= theta * (f1 - f0) <= f1 - f0;
    } else {
      assert f1 - f0 <= theta * (f1 - f0) <= 0.0;
    }
  }

  /**
   * Mass flow at time `t` from the table (`times`, `flows`), either of which
   * may be absent.  Without a table of at least two samples the flow is 0.
   * At or beyond either end of the support the flow is the endpoint's value
   * when `t` is within EPS of that endpoint and 0 otherwise.  Strictly inside
   * it interpolates between the two samples that bracket `t`.
   */
  function MdotPiecewiseLinear(t: real, times: Option<seq<real>>, flows: Option<seq<real>>): (r: real)
    requires WellFormed(times, flows)
    ensures !HasSupport(times, flows) ==> r == 0.0
    ensures HasSupport(times, flows) && NonNegative(flows.value) ==> r >= 0.0
  {
    if times.None? || flows.None? || |times.value| < 2 then 0.0
    else
      var ts, fs := times.value, flows.value;
      var last := |ts| - 1;
      if t <= ts[0] || t >= ts[last] then
        if Abs(t - ts[0]) < EPS then fs[0]
        else if Abs(t - ts[last]) < EPS then fs[last]
        else 0.0
      else
        var k := Bracket(ts, t, 0);
        Interpolate(ts[k], fs[k], ts[k + 1], fs[k + 1], t)
  }

  /** Away from the support by at least EPS the flow is 0. */
  lemma MdotOutsideSupport(t: real, times: Option<seq<real>>, flows: Option<seq<real>>)
    requires WellFormed(times, flows) && HasSupport(times, flows)
    requires t <= times.value[0] - EPS || t >= times.value[|times.value| - 1] + EPS
    ensures MdotPiecewiseLinear(t, times, flows) == 0.0
  {
    IncreasingAt(times.value, 0, |times.value| - 1);
  }

  /**
   * At or before the first sample time, within EPS of it, the flow is exactly
   * the first tabulated value.
   */
  lemma MdotAtFirstSample(t: real, times: Option<seq<real>>, flows: Option<seq<real>>)
    requires WellFormed(times, flows) && HasSupport(times, flows)
    requires times.value[0] - EPS < t <= times.value[0]
    ensures MdotPiecewiseLinear(t, times, flows) == flows.value[0]
  {
  }

  /**
   * At or after the last sample time, within EPS of it, the flow is exactly the
   * last tabulated value, provided `t` is not also within EPS of the first
   * sample time (that rule is checked first and wins).
   */
  lemma MdotAtLastSample(t: real, times: Option<seq<real>>, flows: Option<seq<real>>)
    requires WellFormed(times, flows) && HasSupport(times, flows)
    requires t >= times.value[0] + EPS
    requires times.value[|times.value| - 1] <= t < times.value[|times.value| - 1] + EPS
    ensures MdotPiecewiseLinear(t, times, flows) == flows.value[|flows.value| - 1]
  {
  }

  /**
   * Strictly inside the support the flow is the linear interpolation between
   * the two samples that bracket `t`, whichever way they are found, and so
   * lies between their flows.
   */
  lemma MdotInterior(t: real, times: Option<seq<real>>, flows: Option<seq<real>>, k: nat)
    requires WellFormed(times, flows) && HasSupport(times, flows)
    requires k + 1 < |times.value| && times.value[k] <= t < times.value[k + 1]
    requires times.value[0] < t < times.value[|times.value| - 1]
    ensures var r := MdotPiecewiseLinear(t, times, flows);
      && r == Interpolate(times.value[k], flows.value[k], times.value[k + 1], flows.value[k + 1], t)
      && Min(flows.value[k], flows.value[k + 1]) <= r <= Max(flows.value[k], flows.value[k + 1])
  {
    var j := Bracket(times.value, t, 0);
    BracketUnique(times.value, t, j, k);
  }

  /** At an interior sample time the flow is exactly that sample's value. */
  lemma MdotAtInteriorSample(times: Option<seq<real>>, flows: Option<seq<real>>, k: nat)
    requires WellFormed(times, flows) && HasSupport(times, flows)
    requires 0 < k < |times.value| - 1
    ensures MdotPiecewiseLinear(times.value[k], times, flows) == flows.value[k]
  {
    IncreasingAt(times.value, 0, k);
    IncreasingAt(times.value, k, |times.value| - 1);
    MdotInterior(times.value[k], times, flows, k);
  }
}
