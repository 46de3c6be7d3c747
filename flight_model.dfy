/**
 * One step of the fixed-step Forward Euler integrator of `simulate` in
 * src/simulator.py, as pure functions: the mass flow with its cut-off, the
 * forces and the acceleration, the Euler update with its ground-rest clamp,
 * and the three latched event detectors with their interpolation fractions.
 * A run is the sequence of snapshots the loop goes through from launch.
 */
module FlightModel {
  import opened Options
  import opened RealArith
  import opened MotorCurve

  /** The run parameters of `simulate` (the curve is passed separately). */
  datatype Config = Config(
    dt: real, tmax: real, g: real, rho: real, Cd: real, A: real,
    mDry: real, mProp: real, ue: real)

  /** Positive step, horizon and dry mass; no negative propellant. */
  predicate ValidConfig(c: Config) {
    c.dt > 0.0 && c.tmax > 0.0 && c.mDry > 0.0 && c.mProp >= 0.0
  }

  /** The motor table the run uses: sorted times, non-negative flows. */
  datatype Curve = Curve(times: seq<real>, flows: seq<real>)

  predicate ValidCurve(curve: Curve) {
    |curve.times| == |curve.flows| && StrictlyIncreasing(curve.times) && NonNegative(curve.flows)
  }

  /** The trapezoid used when no table is loaded: 3 kg/s from 0.5 s to 4.5 s. */
  const DefaultCurve: Curve := Curve([0.0, 0.5, 4.5, 5.0], [0.0, 3.0, 3.0, 0.0])

  /**
   * The table the run uses: the loaded one (the loader sorts it by time), or
   * the trapezoid when loading produced none.  A loaded table may have fewer
   * than two samples; the lookup then gives no flow.
   */
  function SelectCurve(loaded: Option<Curve>): (curve: Curve)
    requires loaded.Some? ==> ValidCurve(loaded.value)
    ensures ValidCurve(curve)
    ensures loaded.Some? ==> curve == loaded.value
    ensures loaded.None? ==> curve == DefaultCurve && |curve.times| >= 2
  {
    if loaded.None? then DefaultCurve else loaded.value
  }

  /** Flight state at one sample: time, altitude, velocity, total mass. */
  datatype State = State(t: real, h: real, V: real, m: real)

  /** Thrust, drag, weight and acceleration recorded at one sample. */
  datatype Forces = Forces(thrust: real, drag: real, weight: real, acc: real)

  /** Engine cut-off: time, altitude and velocity. */
  datatype MecoEvent = MecoEvent(t: real, h: real, V: real)

  /** Apogee: time and altitude. */
  datatype ApogeeEvent = ApogeeEvent(t: real, h: real)

  /** The events found so far; `None` until detected, then latched. */
  datatype Events = Events(meco: Option<MecoEvent>, apogee: Option<ApogeeEvent>, touchdown: Option<real>)

  /** What the loop carries from one iteration to the next. */
  datatype Snapshot = Snapshot(s: State, ev: Events)

  /** The tie-break for the sign of a velocity within EPS of zero. */
  const SignAtRest: real := 1.0

  /** The table's flow at time `t`. */
  function MdotAt(curve: Curve, t: real): (mdot: real)
    requires ValidCurve(curve)
    ensures mdot >= 0.0
  {
    MdotPiecewiseLinear(t, Some(curve.times), Some(curve.flows))
  }

  /** The fallback trapezoid ramps up at 6 kg/s^2 over its first half second. */
  lemma DefaultCurveRamp(t: real)
    requires 0.0 <= t <= 0.5
    ensures MdotAt(DefaultCurve, t) == 6.0 * t
  {
    var times, flows := Some(DefaultCurve.times), Some(DefaultCurve.flows);
    if t > 0.0 {
      MdotInterior(t, times, flows, if t < 0.5 then 0 else 1);
    }
  }

  /** The fallback trapezoid holds 3 kg/s from 0.5 s to 4.5 s. */
  lemma DefaultCurvePlateau(t: real)
    requires 0.5 <= t <= 4.5
    ensures MdotAt(DefaultCurve, t) == 3.0
  {
    MdotInterior(t, Some(DefaultCurve.times), Some(DefaultCurve.flows), if t < 4.5 then 1 else 2);
  }

  /**
   * The mass flow used in a step: the table's, except 0 once the mass is
   * within EPS of the dry mass.  It is never negative.
   */
  function Flow(c: Config, curve: Curve, s: State): (mdot: real)
    requires ValidCurve(curve)
    ensures mdot >= 0.0
    ensures s.m <= c.mDry + EPS ==> mdot == 0.0
    ensures s.m > c.mDry + EPS ==> mdot == MdotAt(curve, s.t)
  {
    var mdot := MdotAt(curve, s.t);
    if s.m <= c.mDry + EPS then 0.0 else mdot
  }

  /**
   * The sign of a velocity, with every velocity within EPS of zero counted
   * as upward so that a rocket at rest with thrust accelerates upward.
   */
  function SignV(v: real): (sg: real)
    ensures v <= -EPS ==> sg == -1.0
    ensures v > -EPS ==> sg == 1.0
  {
    if Abs(v) < EPS then SignAtRest
    else if v < 0.0 then
      assert v / Abs(v) == v / -v == -1.0;
      v / Abs(v)
    else
      assert v / Abs(v) == v / v == 1.0;
      v / Abs(v)
  }

  /** On (or within EPS of) the ground, not rising, and no net upward force. */
  predicate GroundRest(s: State, netForce: real) {
    s.h <= EPS && s.V <= EPS && netForce <= 0.0
  }

  /** The net vertical force: thrust against drag and weight. */
  function NetForce(f: Forces): real {
    f.thrust - f.drag - f.weight
  }

  /**
   * The forces at a sample, given the mass flow of the step.  Away from
   * ground rest the acceleration obeys Newton's second law with thrust along
   * the sign of the velocity; in ground rest it is 0.
   */
  function ForcesAt(c: Config, s: State, mdot: real): (f: Forces)
    requires s.m > 0.0
    ensures f.weight == s.m * c.g
    ensures mdot == 0.0 ==> f.thrust == 0.0
    ensures GroundRest(s, NetForce(f)) ==> f.acc == 0.0
    ensures !GroundRest(s, NetForce(f)) ==>
      s.m * f.acc == SignV(s.V) * f.thrust - f.drag - f.weight
  {
    var thrust := mdot * c.ue;
    var drag := 0.5 * c.rho * s.V * Abs(s.V) * c.Cd * c.A;
    var weight := s.m * c.g;
    var sg := SignV(s.V);
    var acc := -c.g - drag / s.m + sg * thrust / s.m;
    if GroundRest(s, thrust - drag - weight) then
      Forces(thrust, drag, weight, 0.0)
    else
      NewtonSecondLaw(s.m, c.g, drag, sg, thrust);
      Forces(thrust, drag, weight, acc)
  }

  /**
   * Drag acts along the velocity, so that in the acceleration it opposes the
   * motion, and vanishes at rest (given a non-negative density, drag
   * coefficient and area).
   */
  lemma DragAlongVelocity(c: Config, s: State, mdot: real)
    requires s.m > 0.0 && c.rho >= 0.0 && c.Cd >= 0.0 && c.A >= 0.0
    ensures s.V > 0.0 ==> ForcesAt(c, s, mdot).drag >= 0.0
    ensures s.V < 0.0 ==> ForcesAt(c, s, mdot).drag <= 0.0
    ensures s.V == 0.0 ==> ForcesAt(c, s, mdot).drag == 0.0
  {
  }

  lemma NewtonSecondLaw(m: real, g: real, drag: real, sg: real, thrust: real)
    requires m > 0.0
    ensures m * (-g - drag / m + sg * thrust / m) == sg * thrust - drag - m * g
  {
  }

  /**
   * The Euler update of one step with mass flow `mdot`, before the event
   * detectors touch it: time advances by dt, mass drops by the flow times dt,
   * altitude and velocity follow their derivatives, except in ground rest
   * where both become 0.
   */
  function Propagate(c: Config, s: State, mdot: real): (next: State)
    requires s.m > 0.0
    ensures next.t == s.t + c.dt
    ensures next.m == s.m - mdot * c.dt
    ensures GroundRest(s, NetForce(ForcesAt(c, s, mdot))) ==> next.h == 0.0 && next.V == 0.0
    ensures !GroundRest(s, NetForce(ForcesAt(c, s, mdot))) ==>
      next.h == s.h + s.V * c.dt && next.V == s.V + ForcesAt(c, s, mdot).acc * c.dt
  {
    var f := ForcesAt(c, s, mdot);
    var mNew := s.m - mdot * c.dt;
    var tNew := s.t + c.dt;
    if GroundRest(s, NetForce(f)) then State(tNew, 0.0, 0.0, mNew)
    else State(tNew, s.h + s.V * c.dt, s.V + f.acc * c.dt, mNew)
  }

  /** The fraction of the step at which the mass crosses the dry mass. */
  function MecoFraction(m: real, mNew: real, mDry: real): (theta: real)
    requires m > mDry + EPS && mNew <= mDry + EPS
    ensures 0.0 < theta <= 1.0
  {
    (m - mDry) / ((m - mNew) + EPS)
  }

  /**
   * The cut-off fraction reaches a whole step exactly when the new mass sits
   * EPS above the dry mass, so a cut-off by mass can fall on the next sample.
   */
  lemma MecoFractionIsOne(m: real, mNew: real, mDry: real)
    requires m > mDry + EPS && mNew <= mDry + EPS
    ensures MecoFraction(m, mNew, mDry) == 1.0 <==> mNew == mDry + EPS
  {
  }

  /** The fraction of the step at which a positive quantity reaches zero. */
  function CrossingFraction(x: real, xNew: real): (theta: real)
    requires x > 0.0 && xNew <= 0.0
    ensures 0.0 < theta < 1.0
  {
    x / (x - xNew + EPS)
  }

  /** The mass crosses the dry mass (within EPS) during the step. */
  predicate MassCrossing(c: Config, m: real, mNew: real) {
    m > c.mDry + EPS && mNew <= c.mDry + EPS
  }

  /** The flow used in the step is positive and the table's flow at the next sample is not. */
  predicate CurveEnds(c: Config, curve: Curve, s: State, tNew: real)
    requires ValidCurve(curve)
  {
    Flow(c, curve, s) > EPS && MdotAt(curve, tNew) <= EPS
  }

  /**
   * Engine cut-off detection.  A recorded cut-off is kept.  Otherwise a mass
   * crossing records a cut-off inside the step at the fraction where the mass
   * reaches the dry mass, with altitude and velocity interpolated to that
   * time; failing that, the end of the flow curve records the next sample
   * itself.
   */
  function DetectMeco(c: Config, curve: Curve, s: State, next: State, meco: Option<MecoEvent>): (r: Option<MecoEvent>)
    requires ValidConfig(c) && ValidCurve(curve) && next.t == s.t + c.dt
    ensures meco.Some? ==> r == meco
    ensures r.Some? <==> meco.Some? || MassCrossing(c, s.m, next.m) || CurveEnds(c, curve, s, next.t)
    ensures meco.None? && r.Some? ==> s.t < r.value.t <= next.t
    ensures meco.None? && r.Some? ==>
      Min(s.h, next.h) <= r.value.h <= Max(s.h, next.h) &&
      Min(s.V, next.V) <= r.value.V <= Max(s.V, next.V)
    ensures meco.None? && MassCrossing(c, s.m, next.m) ==>
      r.value.t == s.t + MecoFraction(s.m, next.m, c.mDry) * c.dt &&
      r.value.h == s.h + (r.value.t - s.t) / c.dt * (next.h - s.h) &&
      r.value.V == s.V + (r.value.t - s.t) / c.dt * (next.V - s.V)
    ensures meco.None? && !MassCrossing(c, s.m, next.m) && CurveEnds(c, curve, s, next.t) ==>
      r == Some(MecoEvent(next.t, next.h, next.V))
  {
    var byMass :=
      if meco.None? && MassCrossing(c, s.m, next.m) then
        var theta := MecoFraction(s.m, next.m, c.mDry);
        AlongSegment(s.h, next.h, theta);
        AlongSegment(s.V, next.V, theta);
        assert theta * c.dt <= c.dt && theta * c.dt / c.dt == theta;
        Some(MecoEvent(s.t + theta * c.dt, s.h + theta * (next.h - s.h), s.V + theta * (next.V - s.V)))
      else meco;
    if byMass.None? && CurveEnds(c, curve, s, next.t) then
      Some(MecoEvent(next.t, next.h, next.V))
    else byMass
  }

  /**
   * Apogee detection: the first step whose velocity goes from positive to
   * non-positive records an apogee strictly inside the step, at the fraction
   * where the velocity line reaches zero, with the altitude interpolated to
   * that time.
   */
  function DetectApogee(c: Config, s: State, next: State, apogee: Option<ApogeeEvent>): (r: Option<ApogeeEvent>)
    requires ValidConfig(c) && next.t == s.t + c.dt
    ensures apogee.Some? ==> r == apogee
    ensures r.Some? <==> apogee.Some? || (s.V > 0.0 && next.V <= 0.0)
    ensures apogee.None? && r.Some? ==>
      s.t < r.value.t < next.t && Min(s.h, next.h) <= r.value.h <= Max(s.h, next.h)
    ensures apogee.None? && r.Some? ==>
      r.value.t == s.t + CrossingFraction(s.V, next.V) * c.dt &&
      r.value.h == s.h + (r.value.t - s.t) / c.dt * (next.h - s.h)
  {
    if apogee.None? && s.V > 0.0 && next.V <= 0.0 then
      var theta := CrossingFraction(s.V, next.V);
      AlongSegment(s.h, next.h, theta);
      assert theta * c.dt < c.dt && theta * c.dt / c.dt == theta;
      Some(ApogeeEvent(s.t + theta * c.dt, s.h + theta * (next.h - s.h)))
    else apogee
  }

  /**
   * Touchdown detection: the first step whose altitude goes from positive to
   * non-positive records an interpolated touchdown time strictly inside it.
   */
  function DetectTouchdown(c: Config, s: State, next: State, touchdown: Option<real>): (r: Option<real>)
    requires ValidConfig(c) && next.t == s.t + c.dt
    ensures touchdown.Some? ==> r == touchdown
    ensures r.Some? <==> touchdown.Some? || (s.h > 0.0 && next.h <= 0.0)
    ensures touchdown.None? && r.Some? ==>
      s.t < r.value < next.t && r.value == s.t + CrossingFraction(s.h, next.h) * c.dt
  {
    if touchdown.None? && s.h > 0.0 && next.h <= 0.0 then
      var theta := CrossingFraction(s.h, next.h);
      assert theta * c.dt < c.dt;
      Some(s.t + theta * c.dt)
    else touchdown
  }

  /** Touchdown is newly detected in this step. */
  predicate Touches(p: Snapshot, next: State) {
    p.ev.touchdown.None? && p.s.h > 0.0 && next.h <= 0.0
  }

  /**
   * One loop iteration: Euler update, the detectors in the order cut-off,
   * apogee, touchdown, then the stored sample, whose altitude is pinned to
   * the ground on touchdown and whose mass is clamped at the dry mass.
   */
  function Step(c: Config, curve: Curve, p: Snapshot): (q: Snapshot)
    requires ValidConfig(c) && ValidCurve(curve) && p.s.m >= c.mDry
    ensures q.s.t == p.s.t + c.dt
    ensures c.mDry <= q.s.m <= p.s.m
    ensures p.s.m <= c.mDry + EPS ==> q.s.m == p.s.m
    ensures Touches(p, Propagate(c, p.s, Flow(c, curve, p.s))) ==> q.s.h == 0.0 && q.ev.touchdown.Some?
    ensures p.ev.meco.Some? ==> q.ev.meco == p.ev.meco
    ensures p.ev.apogee.Some? ==> q.ev.apogee == p.ev.apogee
    ensures p.ev.touchdown.Some? ==> q.ev.touchdown == p.ev.touchdown
  {
    var mdot := Flow(c, curve, p.s);
    var next := Propagate(c, p.s, mdot);
    assert p.s.m <= c.mDry + EPS ==> next.m == p.s.m;
    var meco := DetectMeco(c, curve, p.s, next, p.ev.meco);
    var apogee := DetectApogee(c, p.s, next, p.ev.apogee);
    var touchdown := DetectTouchdown(c, p.s, next, p.ev.touchdown);
    var h := if Touches(p, next) then 0.0 else next.h;
    Snapshot(State(next.t, h, next.V, Max(next.m, c.mDry)), Events(meco, apogee, touchdown))
  }

  /** The launch state: at rest on the ground with full propellant, no events. */
  function Initial(c: Config): (p: Snapshot)
    requires ValidConfig(c)
    ensures p.s.t == 0.0 && p.s.h == 0.0 && p.s.V == 0.0
    ensures p.s.m - c.mDry == c.mProp && p.s.m >= c.mDry
    ensures p.ev.meco.None? && p.ev.apogee.None? && p.ev.touchdown.None?
  {
    Snapshot(State(0.0, 0.0, 0.0, c.mDry + c.mProp), Events(None, None, None))
  }

  /**
   * `q` is the step from `p`.  The step is stated under a quantifier whose
   * trigger is the step itself, so that a proof unfolds the step's
   * arithmetic only where it mentions that step.
   */
  ghost predicate StepsTo(c: Config, curve: Curve, p: Snapshot, q: Snapshot)
    requires ValidConfig(c) && ValidCurve(curve)
  {
    p.s.m >= c.mDry &&
    forall u {:trigger Step(c, curve, u)} :: u == p ==> Step(c, curve, u) == q
  }

  /**
   * `f` are the forces at sample `s`; stated under a quantifier for the same
   * reason as `StepsTo`.
   */
  ghost predicate ForcesMatch(c: Config, curve: Curve, s: State, f: Forces)
    requires ValidConfig(c) && ValidCurve(curve)
  {
    s.m >= c.mDry &&
    forall u {:trigger ForcesAt(c, u, Flow(c, curve, u))} :: u == s ==> ForcesAt(c, u, Flow(c, curve, u)) == f
  }

  /**
   * `hist` is a prefix of a run: it starts at launch and every snapshot is
   * one step after the one before it.
   */
  ghost predicate IsRun(c: Config, curve: Curve, hist: seq<Snapshot>)
    requires ValidConfig(c) && ValidCurve(curve)
    decreases |hist|
  {
    |hist| >= 1 && hist[0] == Initial(c) &&
    (|hist| > 1 ==>
      IsRun(c, curve, hist[..|hist| - 1]) && StepsTo(c, curve, hist[|hist| - 2], hist[|hist| - 1]))
  }
}
