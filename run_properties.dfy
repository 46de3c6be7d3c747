/**
 * What holds along every run of the loop of `simulate` in src/simulator.py:
 * the sample clock, the mass bounds, the latching of the events and what
 * each detector records.
 */
module RunProperties {
  import opened Options
  import opened RealArith
  import opened MotorCurve
  import opened FlightModel

  /**
   * What a step keeps: the clock advances by dt, the mass stays between the
   * dry mass and the previous mass and does not change once within EPS of
   * the dry mass, and recorded events are kept.
   */
  lemma StepKeeps(c: Config, curve: Curve, p: Snapshot, q: Snapshot)
    requires ValidConfig(c) && ValidCurve(curve) && StepsTo(c, curve, p, q)
    ensures q.s.t == p.s.t + c.dt
    ensures c.mDry <= q.s.m <= p.s.m
    ensures p.s.m <= c.mDry + EPS ==> q.s.m == p.s.m
    ensures p.ev.meco.Some? ==> q.ev.meco == p.ev.meco
    ensures p.ev.apogee.Some? ==> q.ev.apogee == p.ev.apogee
    ensures p.ev.touchdown.Some? ==> q.ev.touchdown == p.ev.touchdown
  {
    assert q == Step(c, curve, p);
  }

  /** Every snapshot of a run after the first is the step from the one before. */
  lemma {:induction false} StepAt(c: Config, curve: Curve, hist: seq<Snapshot>, k: nat)
    requires ValidConfig(c) && ValidCurve(curve) && IsRun(c, curve, hist)
    requires 0 < k < |hist|
    ensures StepsTo(c, curve, hist[k - 1], hist[k])
    decreases |hist|
  {
    if k < |hist| - 1 {
      StepAt(c, curve, hist[..|hist| - 1], k);
    }
  }

  /** Sample `k` of a run is at time `k * dt`; every sample after launch is at least dt. */
  lemma {:induction false} RunClock(c: Config, curve: Curve, hist: seq<Snapshot>)
    requires ValidConfig(c) && ValidCurve(curve) && IsRun(c, curve, hist)
    ensures forall k :: 0 <= k < |hist| ==> hist[k].s.t == k as real * c.dt
    ensures forall k :: 0 < k < |hist| ==> hist[k].s.t >= c.dt
    decreases |hist|
  {
    if |hist| > 1 {
      var n := |hist| - 1;
      RunClock(c, curve, hist[..n]);
      StepAt(c, curve, hist, n);
      StepKeeps(c, curve, hist[n - 1], hist[n]);
      var x := (n - 1) as real;
      assert hist[n - 1].s.t == x * c.dt;
      assert x * c.dt + c.dt == (x + 1.0) * c.dt;
    }
  }

  /**
   * Each event is recorded at most once: once a snapshot of a run holds it,
   * every later snapshot holds the same record.
   */
  lemma {:induction false} EventsLatched(c: Config, curve: Curve, hist: seq<Snapshot>)
    requires ValidConfig(c) && ValidCurve(curve) && IsRun(c, curve, hist)
    ensures forall j, k :: 0 <= j <= k < |hist| && hist[j].ev.meco.Some? ==> hist[k].ev.meco == hist[j].ev.meco
    ensures forall j, k :: 0 <= j <= k < |hist| && hist[j].ev.apogee.Some? ==> hist[k].ev.apogee == hist[j].ev.apogee
    ensures forall j, k :: 0 <= j <= k < |hist| && hist[j].ev.touchdown.Some? ==> hist[k].ev.touchdown == hist[j].ev.touchdown
    decreases |hist|
  {
    if |hist| > 1 {
      var n := |hist| - 1;
      EventsLatched(c, curve, hist[..n]);
      StepAt(c, curve, hist, n);
      StepKeeps(c, curve, hist[n - 1], hist[n]);
    }
  }

  /** A run whose next-to-last snapshot has not touched down has not touched down before. */
  lemma TouchdownNotBefore(c: Config, curve: Curve, hist: seq<Snapshot>)
    requires ValidConfig(c) && ValidCurve(curve) && IsRun(c, curve, hist)
    requires |hist| >= 2 && hist[|hist| - 2].ev.touchdown.None?
    ensures forall k :: 0 <= k < |hist| - 1 ==> hist[k].ev.touchdown.None?
  {
    EventsLatched(c, curve, hist);
  }

  /**
   * What the cut-off detector records in one step, stated on the stored
   * snapshots: cut-off is recorded when the mass crosses the dry mass or the
   * flow curve ends, at a time inside the step or at its end, and at the
   * next sample itself when only the curve ended.
   */
  lemma StepMeco(c: Config, curve: Curve, p: Snapshot, q: Snapshot)
    requires ValidConfig(c) && ValidCurve(curve) && StepsTo(c, curve, p, q)
    ensures q.ev.meco.Some? <==>
      p.ev.meco.Some? || MassCrossing(c, p.s.m, q.s.m) || CurveEnds(c, curve, p.s, q.s.t)
    ensures p.ev.meco.Some? ==> q.ev.meco == p.ev.meco
    ensures p.ev.meco.None? && q.ev.meco.Some? ==> p.s.t < q.ev.meco.value.t <= q.s.t
    ensures p.ev.meco.None? && !MassCrossing(c, p.s.m, q.s.m) && CurveEnds(c, curve, p.s, q.s.t) ==>
      q.ev.meco.value.t == q.s.t && q.ev.meco.value.V == q.s.V
  {
    assert q == Step(c, curve, p);
    var next := Propagate(c, p.s, Flow(c, curve, p.s));
    assert q.s.m == Max(next.m, c.mDry) && q.s.V == next.V && q.s.t == next.t;
    assert MassCrossing(c, p.s.m, q.s.m) == MassCrossing(c, p.s.m, next.m);
  }

  /**
   * What the apogee detector records in one step: apogee is recorded when
   * the velocity goes from positive to non-positive, strictly inside the
   * step.
   */
  lemma StepApogee(c: Config, curve: Curve, p: Snapshot, q: Snapshot)
    requires ValidConfig(c) && ValidCurve(curve) && StepsTo(c, curve, p, q)
    ensures q.ev.apogee.Some? <==> p.ev.apogee.Some? || (p.s.V > 0.0 && q.s.V <= 0.0)
    ensures p.ev.apogee.Some? ==> q.ev.apogee == p.ev.apogee
    ensures p.ev.apogee.None? && q.ev.apogee.Some? ==> p.s.t < q.ev.apogee.value.t < q.s.t
  {
    assert q == Step(c, curve, p);
  }

  /**
   * What the touchdown detector records in one step: touchdown is recorded
   * when the altitude goes from positive to non-positive, strictly inside
   * the step, and the next sample is pinned to the ground.
   */
  lemma StepTouchdown(c: Config, curve: Curve, p: Snapshot, q: Snapshot)
    requires ValidConfig(c) && ValidCurve(curve) && StepsTo(c, curve, p, q)
    ensures q.ev.touchdown.Some? <==> p.ev.touchdown.Some? || (p.s.h > 0.0 && q.s.h <= 0.0)
    ensures p.ev.touchdown.Some? ==> q.ev.touchdown == p.ev.touchdown
    ensures p.ev.touchdown.None? && q.ev.touchdown.Some? ==>
      p.s.t < q.ev.touchdown.value < q.s.t && q.s.h == 0.0
  {
    assert q == Step(c, curve, p);
    var next := Propagate(c, p.s, Flow(c, curve, p.s));
    assert q.s.h == if Touches(p, next) then 0.0 else next.h;
  }

  /**
   * The mass of a run starts at dry mass plus propellant, never drops below
   * the dry mass and never increases.
   */
  lemma {:induction false} MassBounds(c: Config, curve: Curve, hist: seq<Snapshot>)
    requires ValidConfig(c) && ValidCurve(curve) && IsRun(c, curve, hist)
    ensures forall k :: 0 <= k < |hist| ==> c.mDry <= hist[k].s.m <= c.mDry + c.mProp
    ensures forall j, k :: 0 <= j <= k < |hist| ==> hist[k].s.m <= hist[j].s.m
    decreases |hist|
  {
    if |hist| > 1 {
      var n := |hist| - 1;
      MassBounds(c, curve, hist[..n]);
      StepAt(c, curve, hist, n);
      StepKeeps(c, curve, hist[n - 1], hist[n]);
    }
  }

  /** Step `k` of a run takes the velocity from positive to non-positive. */
  predicate ApogeeCrossing(hist: seq<Snapshot>, k: int)
    requires 0 < k < |hist|
  {
    hist[k - 1].s.V > 0.0 && hist[k].s.V <= 0.0
  }

  /** A run has recorded apogee exactly when one of its steps took the velocity from positive to non-positive. */
  lemma {:induction false} ApogeeRecorded(c: Config, curve: Curve, hist: seq<Snapshot>)
    requires ValidConfig(c) && ValidCurve(curve) && IsRun(c, curve, hist)
    ensures hist[|hist| - 1].ev.apogee.Some? <==> exists k :: 0 < k < |hist| && ApogeeCrossing(hist, k)
    decreases |hist|
  {
    if |hist| > 1 {
      var n := |hist| - 1;
      var pre := hist[..n];
      ApogeeRecorded(c, curve, pre);
      StepAt(c, curve, hist, n);
      StepApogee(c, curve, hist[n - 1], hist[n]);
      forall k | 0 < k < n
        ensures ApogeeCrossing(pre, k) == ApogeeCrossing(hist, k)
      {
      }
      if hist[n].ev.apogee.Some? && hist[n - 1].ev.apogee.None? {
        assert ApogeeCrossing(hist, n);
      }
    }
  }

  /**
   * The apogee a run records lies strictly inside the first step that took
   * the velocity from positive to non-positive.
   */
  lemma {:induction false} ApogeeAtFirstCrossing(c: Config, curve: Curve, hist: seq<Snapshot>, k: nat)
    requires ValidConfig(c) && ValidCurve(curve) && IsRun(c, curve, hist)
    requires 0 < k < |hist| && ApogeeCrossing(hist, k)
    requires forall j :: 0 < j < k ==> !ApogeeCrossing(hist, j)
    ensures hist[|hist| - 1].ev.apogee.Some?
    ensures hist[k - 1].s.t < hist[|hist| - 1].ev.apogee.value.t < hist[k].s.t
    decreases |hist|
  {
    var n := |hist| - 1;
    var pre := hist[..n];
    StepAt(c, curve, hist, n);
    StepApogee(c, curve, hist[n - 1], hist[n]);
    if k < n {
      assert ApogeeCrossing(pre, k);
      forall j | 0 < j < k
        ensures !ApogeeCrossing(pre, j)
      {
        assert !ApogeeCrossing(hist, j);
      }
      ApogeeAtFirstCrossing(c, curve, pre, k);
    } else {
      ApogeeRecorded(c, curve, pre);
      forall j | 0 < j < n
        ensures !ApogeeCrossing(pre, j)
      {
        assert !ApogeeCrossing(hist, j);
      }
    }
  }

  /** Step `k` of a run takes the altitude from positive to non-positive. */
  predicate TouchdownCrossing(hist: seq<Snapshot>, k: int)
    requires 0 < k < |hist|
  {
    hist[k - 1].s.h > 0.0 && hist[k].s.h <= 0.0
  }

  /** A run has recorded touchdown exactly when one of its steps took the altitude from positive to non-positive. */
  lemma {:induction false} TouchdownRecorded(c: Config, curve: Curve, hist: seq<Snapshot>)
    requires ValidConfig(c) && ValidCurve(curve) && IsRun(c, curve, hist)
    ensures hist[|hist| - 1].ev.touchdown.Some? <==> exists k :: 0 < k < |hist| && TouchdownCrossing(hist, k)
    decreases |hist|
  {
    if |hist| > 1 {
      var n := |hist| - 1;
      var pre := hist[..n];
      TouchdownRecorded(c, curve, pre);
      StepAt(c, curve, hist, n);
      StepTouchdown(c, curve, hist[n - 1], hist[n]);
      forall k | 0 < k < n
        ensures TouchdownCrossing(pre, k) == TouchdownCrossing(hist, k)
      {
      }
      if hist[n].ev.touchdown.Some? && hist[n - 1].ev.touchdown.None? {
        assert TouchdownCrossing(hist, n);
      }
    }
  }

  /**
   * The touchdown a run records lies strictly inside the first step that took
   * the altitude from positive to non-positive, and that step's sample is
   * pinned to the ground.
   */
  lemma {:induction false} TouchdownAtFirstCrossing(c: Config, curve: Curve, hist: seq<Snapshot>, k: nat)
    requires ValidConfig(c) && ValidCurve(curve) && IsRun(c, curve, hist)
    requires 0 < k < |hist| && TouchdownCrossing(hist, k)
    requires forall j :: 0 < j < k ==> !TouchdownCrossing(hist, j)
    ensures hist[|hist| - 1].ev.touchdown.Some?
    ensures hist[k].s.h == 0.0 &&
      hist[k - 1].s.t < hist[|hist| - 1].ev.touchdown.value < hist[k].s.t
    decreases |hist|
  {
    var n := |hist| - 1;
    var pre := hist[..n];
    StepAt(c, curve, hist, n);
    StepTouchdown(c, curve, hist[n - 1], hist[n]);
    if k < n {
      assert TouchdownCrossing(pre, k);
      forall j | 0 < j < k
        ensures !TouchdownCrossing(pre, j)
      {
        assert !TouchdownCrossing(hist, j);
      }
      TouchdownAtFirstCrossing(c, curve, pre, k);
    } else {
      TouchdownRecorded(c, curve, pre);
      forall j | 0 < j < n
        ensures !TouchdownCrossing(pre, j)
      {
        assert !TouchdownCrossing(hist, j);
      }
    }
  }

  /** Step `k` of a run ends the burn: the mass crosses the dry mass or the flow curve ends. */
  predicate BurnEnds(c: Config, curve: Curve, hist: seq<Snapshot>, k: int)
    requires ValidCurve(curve) && 0 < k < |hist|
  {
    MassCrossing(c, hist[k - 1].s.m, hist[k].s.m) || CurveEnds(c, curve, hist[k - 1].s, hist[k].s.t)
  }

  /** A run has recorded cut-off exactly when one of its steps ended the burn. */
  lemma {:induction false} MecoRecorded(c: Config, curve: Curve, hist: seq<Snapshot>)
    requires ValidConfig(c) && ValidCurve(curve) && IsRun(c, curve, hist)
    ensures hist[|hist| - 1].ev.meco.Some? <==> exists k :: 0 < k < |hist| && BurnEnds(c, curve, hist, k)
    decreases |hist|
  {
    if |hist| > 1 {
      var n := |hist| - 1;
      var pre := hist[..n];
      MecoRecorded(c, curve, pre);
      StepAt(c, curve, hist, n);
      StepMeco(c, curve, hist[n - 1], hist[n]);
      forall k | 0 < k < n
        ensures BurnEnds(c, curve, pre, k) == BurnEnds(c, curve, hist, k)
      {
      }
      if hist[n].ev.meco.Some? && hist[n - 1].ev.meco.None? {
        assert BurnEnds(c, curve, hist, n);
      }
    }
  }

  /**
   * The cut-off a run records lies inside the first step that ended the burn
   * or at its end, and is that step's sample time and velocity when the mass
   * did not cross in it (the curve ended).
   */
  lemma {:induction false} MecoAtFirstBurnEnd(c: Config, curve: Curve, hist: seq<Snapshot>, k: nat)
    requires ValidConfig(c) && ValidCurve(curve) && IsRun(c, curve, hist)
    requires 0 < k < |hist| && BurnEnds(c, curve, hist, k)
    requires forall j :: 0 < j < k ==> !BurnEnds(c, curve, hist, j)
    ensures hist[|hist| - 1].ev.meco.Some?
    ensures hist[k - 1].s.t < hist[|hist| - 1].ev.meco.value.t <= hist[k].s.t
    ensures !MassCrossing(c, hist[k - 1].s.m, hist[k].s.m) ==>
      hist[|hist| - 1].ev.meco.value.t == hist[k].s.t &&
      hist[|hist| - 1].ev.meco.value.V == hist[k].s.V
    decreases |hist|
  {
    var n := |hist| - 1;
    var pre := hist[..n];
    StepAt(c, curve, hist, n);
    StepMeco(c, curve, hist[n - 1], hist[n]);
    if k < n {
      assert BurnEnds(c, curve, pre, k);
      forall j | 0 < j < k
        ensures !BurnEnds(c, curve, pre, j)
      {
        assert !BurnEnds(c, curve, hist, j);
      }
      MecoAtFirstBurnEnd(c, curve, pre, k);
    } else {
      MecoRecorded(c, curve, pre);
      forall j | 0 < j < n
        ensures !BurnEnds(c, curve, pre, j)
      {
        assert !BurnEnds(c, curve, hist, j);
      }
    }
  }
  /**
   * In ground rest the stored acceleration is 0 and the next sample is on
   * the ground at rest.
   */
  lemma GroundRestStep(c: Config, curve: Curve, p: Snapshot, q: Snapshot, f: Forces)
    requires ValidConfig(c) && ValidCurve(curve) && StepsTo(c, curve, p, q)
    requires ForcesMatch(c, curve, p.s, f) && GroundRest(p.s, NetForce(f))
    ensures f.acc == 0.0 && q.s.h == 0.0 && q.s.V == 0.0
  {
    assert q == Step(c, curve, p);
    assert f == ForcesAt(c, p.s, Flow(c, curve, p.s));
  }

  /**
   * Once the mass of a run is within EPS of the dry mass the flow is cut
   * off for good: no later sample has a flow, and the mass stays put.
   */
  lemma {:induction false} BurnedOut(c: Config, curve: Curve, hist: seq<Snapshot>, j: nat)
    requires ValidConfig(c) && ValidCurve(curve) && IsRun(c, curve, hist)
    requires j < |hist| && hist[j].s.m <= c.mDry + EPS
    ensures forall k :: j <= k < |hist| ==> hist[k].s.m == hist[j].s.m && Flow(c, curve, hist[k].s) == 0.0
    decreases |hist|
  {
    var n := |hist| - 1;
    if j < n {
      BurnedOut(c, curve, hist[..n], j);
      StepAt(c, curve, hist, n);
      StepKeeps(c, curve, hist[n - 1], hist[n]);
    }
  }
}
