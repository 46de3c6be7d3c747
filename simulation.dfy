/**
 * The integration loop of `simulate` in src/simulator.py: preallocated
 * sample arrays filled step by step with latched event detection and an
 * early exit at touchdown, then trimmed to the last sample with positive
 * time, with the maxima of altitude, velocity and acceleration.
 */
module Simulation {
  import opened Options
  import opened RealArith
  import opened MotorCurve
  import opened FlightModel
  import opened RunProperties

  /** The least integer not below `x`. */
  function Ceil(x: real): (k: int)
    ensures k as real - 1.0 < x <= k as real
  {
    if x.Floor as real == x then x.Floor else x.Floor + 1
  }

  /**
   * The index of the last positive entry, or 0 when no entry is positive
   * (the trimming point of the sample arrays).
   */
  function LastPositive(xs: seq<real>): (last: nat)
    ensures |xs| > 0 ==> last < |xs|
    ensures (exists k :: 0 <= k < |xs| && xs[k] > 0.0) ==>
      xs[last] > 0.0 && forall k :: last < k < |xs| ==> xs[k] <= 0.0
    ensures (forall k :: 0 <= k < |xs| ==> xs[k] <= 0.0) ==> last == 0
  {
    if |xs| == 0 then 0
    else if xs[|xs| - 1] > 0.0 then |xs| - 1
    else LastPositive(xs[..|xs| - 1])
  }

  /** The largest entry of a non-empty sequence. */
  function MaxOf(xs: seq<real>): (r: real)
    requires |xs| > 0
    ensures r in xs
    ensures forall k :: 0 <= k < |xs| ==> xs[k] <= r
  {
    if |xs| == 1 then xs[0] else Max(MaxOf(xs[..|xs| - 1]), xs[|xs| - 1])
  }

  /**
   * Entry `k` of the eight sample arrays of `simulate`: time, altitude,
   * velocity, mass, then acceleration, thrust, drag and weight.
   */
  datatype Sample = Sample(
    t: real, h: real, V: real, m: real,
    a: real, thrust: real, drag: real, weight: real)
  {
    function State(): State { FlightModel.State(t, h, V, m) }
    function Forces(): Forces { FlightModel.Forces(thrust, drag, weight, a) }
  }

  /** The event record, the maxima and the final time. */
  datatype Metrics = Metrics(
    meco: Option<MecoEvent>, apogee: Option<ApogeeEvent>, touchdown: Option<real>,
    hMax: real, VMax: real, aMax: real, tEnd: real)

  /** The trimmed samples and the metrics of a run. */
  datatype RunResult = RunResult(trace: seq<Sample>, metrics: Metrics)

  function Heights(tr: seq<Sample>): (hs: seq<real>)
    ensures |hs| == |tr| && forall k :: 0 <= k < |tr| ==> hs[k] == tr[k].h
  {
    seq(|tr|, k requires 0 <= k < |tr| => tr[k].h)
  }

  function Velocities(tr: seq<Sample>): (vs: seq<real>)
    ensures |vs| == |tr| && forall k :: 0 <= k < |tr| ==> vs[k] == tr[k].V
  {
    seq(|tr|, k requires 0 <= k < |tr| => tr[k].V)
  }

  function Accelerations(tr: seq<Sample>): (as_: seq<real>)
    ensures |as_| == |tr| && forall k :: 0 <= k < |tr| ==> as_[k] == tr[k].a
  {
    seq(|tr|, k requires 0 <= k < |tr| => tr[k].a)
  }

  function Times(tr: seq<Sample>): (ts: seq<real>)
    ensures |ts| == |tr| && forall k :: 0 <= k < |tr| ==> ts[k] == tr[k].t
  {
    seq(|tr|, k requires 0 <= k < |tr| => tr[k].t)
  }

  /** `fh` are the forces at the states of `hs`, one by one. */
  ghost predicate ForcesAlong(c: Config, curve: Curve, hs: seq<Snapshot>, fh: seq<Forces>)
    requires ValidConfig(c) && ValidCurve(curve)
    decreases |fh|
  {
    |hs| == |fh| &&
    (|fh| > 0 ==>
      ForcesAlong(c, curve, hs[..|hs| - 1], fh[..|fh| - 1]) &&
      ForcesMatch(c, curve, hs[|hs| - 1].s, fh[|fh| - 1]))
  }

  /** Forces recorded along a run, entry by entry. */
  lemma {:induction false} ForcesAlongAll(c: Config, curve: Curve, hs: seq<Snapshot>, fh: seq<Forces>)
    requires ValidConfig(c) && ValidCurve(curve) && ForcesAlong(c, curve, hs, fh)
    ensures |hs| == |fh| && forall k :: 0 <= k < |fh| ==> ForcesMatch(c, curve, hs[k].s, fh[k])
    decreases |fh|
  {
    if |fh| > 0 {
      ForcesAlongAll(c, curve, hs[..|hs| - 1], fh[..|fh| - 1]);
    }
  }

  /**
   * Trimming and metrics: the maxima of altitude, velocity and acceleration
   * over the kept samples and the time of the last one.
   */
  method Summarize(trace: seq<Sample>, ev: Events) returns (r: RunResult)
    requires |trace| > 0
    ensures r.trace == trace
    ensures Events(r.metrics.meco, r.metrics.apogee, r.metrics.touchdown) == ev
    ensures r.metrics.hMax in Heights(trace) && forall k :: 0 <= k < |trace| ==> trace[k].h <= r.metrics.hMax
    ensures r.metrics.VMax in Velocities(trace) && forall k :: 0 <= k < |trace| ==> trace[k].V <= r.metrics.VMax
    ensures r.metrics.aMax in Accelerations(trace) && forall k :: 0 <= k < |trace| ==> trace[k].a <= r.metrics.aMax
    ensures r.metrics.tEnd == trace[|trace| - 1].t
  {
    var hMax := MaxOf(Heights(trace));
    var VMax := MaxOf(Velocities(trace));
    var aMax := MaxOf(Accelerations(trace));
    r := RunResult(trace, Metrics(ev.meco, ev.apogee, ev.touchdown, hMax, VMax, aMax, trace[|trace| - 1].t));
  }

  /**
   * One pass of the loop body at sample `s` with the latches `ev`: the
   * forces stored at the sample and the snapshot of the next sample.
   */
  method Advance(c: Config, curve: Curve, s: State, ev: Events) returns (f: Forces, q: Snapshot)
    requires ValidConfig(c) && ValidCurve(curve) && s.m >= c.mDry
    ensures ForcesMatch(c, curve, s, f)
    ensures StepsTo(c, curve, Snapshot(s, ev), q) && q.s.m >= c.mDry
  {
    // Mass flow now (none once the propellant is spent), forces at the sample.
    var mdot := Flow(c, curve, s);
    f := ForcesAt(c, s, mdot);
    // Forward Euler step, or ground rest.
    var next := Propagate(c, s, mdot);
    // The three detectors, each latched.
    var touches := ev.touchdown.None? && s.h > 0.0 && next.h <= 0.0;
    var meco := DetectMeco(c, curve, s, next, ev.meco);
    var apo := DetectApogee(c, s, next, ev.apogee);
    var td := DetectTouchdown(c, s, next, ev.touchdown);
    // The next sample: pinned to the ground on touchdown, mass clamped at dry mass.
    var hNew := if touches then 0.0 else next.h;
    q := Snapshot(State(next.t, hNew, next.V, Max(next.m, c.mDry)), Events(meco, apo, td));
  }

  /** The sample holding state `s` and forces `f`. */
  function Entry(s: State, f: Forces): (x: Sample)
    ensures x.State() == s && x.Forces() == f
  {
    Sample(s.t, s.h, s.V, s.m, f.acc, f.thrust, f.drag, f.weight)
  }

  const NoForces := Forces(0.0, 0.0, 0.0, 0.0)

  /**
   * The arrays after `|fh|` iterations: the states of `hist` with the forces
   * of `fh`, the current sample repeating the forces of the one before, and
   * zeros after it.
   */
  ghost function Layout(hist: seq<Snapshot>, fh: seq<Forces>, n: nat): (ss: seq<Sample>)
    requires |hist| == |fh| + 1 <= n
    ensures |ss| == n
  {
    seq(n, k requires 0 <= k < n =>
      if k < |fh| then Entry(hist[k].s, fh[k])
      else if k == |fh| then Entry(hist[k].s, if k == 0 then NoForces else fh[k - 1])
      else Entry(State(0.0, 0.0, 0.0, 0.0), NoForces))
  }

  /**
   * Writes the forces at sample `i` and the next sample, which repeats
   * those forces.
   */
  method Record(xs: array<Sample>, i: nat, f: Forces, next: State)
    requires i + 1 < xs.Length
    modifies xs
    ensures xs[..] == old(xs[..])[i := Entry(old(xs[i]).State(), f)][i + 1 := Entry(next, f)]
  {
    xs[i] := xs[i].(a := f.acc, thrust := f.thrust, drag := f.drag, weight := f.weight);
    xs[i + 1] := Sample(next.t, next.h, next.V, next.m, f.acc, f.thrust, f.drag, f.weight);
  }

  /**
   * The loop invariant after `|fh|` iterations: `hist` is a run whose last
   * snapshot holds the latches `ev` and had not touched down one step
   * earlier, `fh` are the forces at its states but the last, and the arrays
   * hold `Layout(hist, fh, n)`.
   */
  ghost predicate Progress(c: Config, curve: Curve, n: nat, hist: seq<Snapshot>, fh: seq<Forces>, ss: seq<Sample>, ev: Events)
    requires ValidConfig(c) && ValidCurve(curve)
  {
    |hist| == |fh| + 1 <= n == |ss| && IsRun(c, curve, hist) &&
    ForcesAlong(c, curve, hist[..|fh|], fh) && ss == Layout(hist, fh, n) &&
    ss[|fh|].State() == hist[|fh|].s && hist[|fh|].s.m >= c.mDry &&
    ev == hist[|fh|].ev && (|fh| > 0 ==> hist[|fh| - 1].ev.touchdown.None?)
  }

  /** One pass of the loop body keeps `Progress`. */
  lemma ProgressStep(c: Config, curve: Curve, n: nat, hist: seq<Snapshot>, fh: seq<Forces>,
                     ss: seq<Sample>, ev: Events, f: Forces, q: Snapshot, ss': seq<Sample>)
    requires ValidConfig(c) && ValidCurve(curve) && Progress(c, curve, n, hist, fh, ss, ev)
    requires |fh| + 1 < n && ev.touchdown.None?
    requires ForcesMatch(c, curve, ss[|fh|].State(), f)
    requires StepsTo(c, curve, Snapshot(ss[|fh|].State(), ev), q) && q.s.m >= c.mDry
    requires ss' == ss[|fh| := Entry(ss[|fh|].State(), f)][|fh| + 1 := Entry(q.s, f)]
    ensures Progress(c, curve, n, hist + [q], fh + [f], ss', q.ev)
  {
  }

  /** The entries of the arrays described by `Layout`. */
  lemma LayoutEntries(hist: seq<Snapshot>, fh: seq<Forces>, n: nat, ss: seq<Sample>)
    requires |hist| == |fh| + 1 <= n && ss == Layout(hist, fh, n)
    ensures forall k :: 0 <= k <= |fh| ==> ss[k].State() == hist[k].s
    ensures forall k :: |fh| < k < n ==> ss[k] == Entry(State(0.0, 0.0, 0.0, 0.0), NoForces)
    ensures forall k :: 0 <= k < |fh| ==> ss[k].Forces() == fh[k]
    ensures |fh| > 0 ==> ss[|fh|].Forces() == ss[|fh| - 1].Forces()
  {
  }

  method Integrate(c: Config, curve: Curve)
    returns (xs: array<Sample>, steps: nat, ev: Events, ghost hist: seq<Snapshot>, ghost fh: seq<Forces>)
    requires ValidConfig(c) && ValidCurve(curve)
    ensures fresh(xs) && xs.Length == Ceil(c.tmax / c.dt) + 2
    ensures 1 <= steps < xs.Length
    ensures |hist| == steps + 1 && IsRun(c, curve, hist)
    ensures |fh| == steps && ForcesAlong(c, curve, hist[..steps], fh)
    ensures forall k :: 0 <= k <= steps ==> xs[k].State() == hist[k].s
    ensures forall k :: steps < k < xs.Length ==> xs[k] == Entry(State(0.0, 0.0, 0.0, 0.0), NoForces)
    ensures forall k :: 0 <= k < steps ==> xs[k].Forces() == fh[k]
    ensures xs[steps].Forces() == xs[steps - 1].Forces()
    ensures ev == hist[steps].ev && hist[steps - 1].ev.touchdown.None?
    ensures steps < xs.Length - 1 ==> ev.touchdown.Some?
  {
    var n := Ceil(c.tmax / c.dt) + 2;
    // The eight arrays, zero-filled; entry 0 is the launch state.
    xs := new Sample[n](_ => Entry(State(0.0, 0.0, 0.0, 0.0), NoForces));
    xs[0] := Entry(Initial(c).s, NoForces);
    // The latches: `None` until the event is detected.
    ev := Events(None, None, None);
    var i := 0;
    // The snapshots reached so far, and the forces stored before sample i.
    hist := [Initial(c)];
    fh := [];
    assert xs[..] == Layout(hist, fh, n);
    // The loop also ends right after the step that detects touchdown.
    while i < n - 1 && ev.touchdown.None?
      invariant xs.Length == n && i == |fh|
      invariant Progress(c, curve, n, hist, fh, xs[..], ev)
    {
      ghost var ss := xs[..];
      var f, q := Advance(c, curve, xs[i].State(), ev);
      Record(xs, i, f, q.s);
      ProgressStep(c, curve, n, hist, fh, ss, ev, f, q, xs[..]);
      ev := q.ev;
      hist, fh := hist + [q], fh + [f];
      i := i + 1;
    }
    steps := i;
    LayoutEntries(hist, fh, n, xs[..]);
  }

  /**
   * `simulate`: the curve selection, the integration loop, then the arrays
   * trimmed to the last sample with positive time and the metrics.  The kept samples are the
   * states of a run from launch (`run`), the forces stored at a sample are
   * those at its state, and the last sample repeats the forces of the one
   * before.  The run has not touched down before its last step, and has
   * touched down when the loop stopped early; the metrics hold the events
   * of the run's last snapshot, maxima attained in the trimmed trace that
   * bound it, and the final time.
   */
  method Simulate(c: Config, loaded: Option<Curve>) returns (r: RunResult, ghost run: seq<Snapshot>)
    requires ValidConfig(c) && (loaded.Some? ==> ValidCurve(loaded.value))
    ensures 2 <= |r.trace| <= Ceil(c.tmax / c.dt) + 2
    ensures |run| == |r.trace| && IsRun(c, SelectCurve(loaded), run)
    ensures forall k :: 0 <= k < |r.trace| ==> r.trace[k].State() == run[k].s
    ensures forall k :: 0 <= k < |r.trace| ==> r.trace[k].t == k as real * c.dt
    ensures forall k :: 0 <= k < |r.trace| - 1 ==> ForcesMatch(c, SelectCurve(loaded), run[k].s, r.trace[k].Forces())
    ensures r.trace[|r.trace| - 1].Forces() == r.trace[|r.trace| - 2].Forces()
    ensures forall k :: 0 <= k < |run| - 1 ==> run[k].ev.touchdown.None?
    ensures |r.trace| < Ceil(c.tmax / c.dt) + 2 ==> run[|run| - 1].ev.touchdown.Some?
    ensures Events(r.metrics.meco, r.metrics.apogee, r.metrics.touchdown) == run[|run| - 1].ev
    ensures r.metrics.hMax in Heights(r.trace) && forall k :: 0 <= k < |r.trace| ==> r.trace[k].h <= r.metrics.hMax
    ensures r.metrics.VMax in Velocities(r.trace) && forall k :: 0 <= k < |r.trace| ==> r.trace[k].V <= r.metrics.VMax
    ensures r.metrics.aMax in Accelerations(r.trace) && forall k :: 0 <= k < |r.trace| ==> r.trace[k].a <= r.metrics.aMax
    ensures r.metrics.tEnd == r.trace[|r.trace| - 1].t
  {
    // The loaded table, or the trapezoid.
    var curve := SelectCurve(loaded);
    var xs, steps, ev, hist, fh := Integrate(c, curve);
    RunClock(c, curve, hist);
    TouchdownNotBefore(c, curve, hist);
    ForcesAlongAll(c, curve, hist[..steps], fh);
    // Trim to the last sample with t > 0: the one the loop stopped at.
    var last := LastPositive(Times(xs[..]));
    assert last == steps;
    run := hist;
    r := Summarize(xs[..last + 1], ev);
  }
}
