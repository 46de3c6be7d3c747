# Vertical rocket flight: trajectory integration and event detection

This project models the numerical core of `src/simulator.py`, a one-degree-of-freedom
simulator of a single-stage rocket's vertical flight. It covers two parts:

- `mdot_piecewise_linear`, the piecewise-linear propellant mass-flow table.
- The fixed-step Forward Euler loop of `simulate`. Each step does the following:
  - cuts the flow off at dry mass;
  - computes thrust, `V|V|` drag and weight;
  - takes the sign of the velocity, counting it as +1 at rest;
  - applies the ground-rest clamp;
  - updates mass and time.

  It also runs three latched detectors with sub-step interpolation: engine cut-off (MECO) by
  mass crossing or by the end of the flow curve, apogee, and touchdown. Touchdown pins the
  altitude to the ground and ends the loop. After the loop, `simulate` trims the sample arrays
  and takes the maxima.

All quantities are `real`. The tolerance `1e-12` is the named constant `MotorCurve.EPS`.

The modules are:

- `MotorCurve`: the table lookup.
- `FlightModel`: one loop iteration, written as pure functions (`Step`), plus what a run is
  (`IsRun`). A run is the sequence of snapshots (state plus event latches) that the loop
  goes through from launch.
- `RunProperties`: what holds along every run.
  - the clock;
  - mass bounds;
  - latching;
  - when each event is recorded and where its time lies;
  - ground rest;
  - burn-out.
- `Simulation`: `simulate` itself.
  - an imperative method over a preallocated `array` of samples;
  - proved to fill the array with a run of `Step`, and the forces at each state;
  - trimming and maxima.
- `RealArith` and `Options`: small helpers.

The lemmas of `RunProperties` apply to the result of `Simulation.Simulate` through its
ghost `run`. `Simulate` ensures the following:

- the kept samples are the run's states;
- the stored forces are those at each state;
- the metrics hold the events of the run's last snapshot.

## Model

| member | source | states |
|---|---|---|
| MotorCurve.Bracket | src/simulator.py:105 | for a time strictly inside the support, returns the sample index whose interval `[t_k, t_{k+1})` contains it |
| MotorCurve.BracketUnique | src/simulator.py:105 | in a strictly increasing table at most one interval holds a given time, so the interpolation segment is determined |
| MotorCurve.Interpolate | src/simulator.py:105 | the linear interpolant lies between the two sample values and equals them at the segment ends |
| MotorCurve.MdotPiecewiseLinear | src/simulator.py:93-105 | the flow is 0 without a table or with fewer than two samples, and non-negative for a non-negative table |
| MotorCurve.MdotOutsideSupport | src/simulator.py:97-102 | at least EPS before the first or after the last sample time the flow is 0 |
| MotorCurve.MdotAtFirstSample | src/simulator.py:97-99 | at or before the first sample time, within EPS, the flow is exactly the first tabulated value |
| MotorCurve.MdotAtLastSample | src/simulator.py:97-101 | at or after the last sample time, within EPS, the flow is exactly the last tabulated value, unless the time is also within EPS of the first sample time |
| MotorCurve.MdotInterior | src/simulator.py:104-105 | strictly inside the support the flow is the interpolation on the bracketing segment and lies between its two sample values |
| MotorCurve.MdotAtInteriorSample | src/simulator.py:104-105 | at an interior sample time the flow is exactly that sample's value |
| FlightModel.SelectCurve | src/simulator.py:146-149 | the run uses the loaded table when there is one (of any length, even below two samples), else the trapezoid `[0, 0.5, 4.5, 5.0] / [0, 3, 3, 0]`; either way a sorted, non-negative table |
| FlightModel.DefaultCurveRamp | src/simulator.py:148-149 | the fallback trapezoid's flow rises linearly as `6 t` over its first half second |
| FlightModel.DefaultCurvePlateau | src/simulator.py:148-149 | the fallback trapezoid's flow is 3 kg/s from 0.5 s to 4.5 s |
| FlightModel.MdotAt | src/simulator.py:167 | the table flow the run looks up is never negative |
| FlightModel.Flow | src/simulator.py:166-169 | the flow of a step is 0 once the mass is within EPS of the dry mass, the table's flow otherwise, never negative |
| FlightModel.SignV | src/simulator.py:177-178 | the sign of the velocity is -1 for velocities at or below -EPS and +1 otherwise, including at rest |
| FlightModel.ForcesAt | src/simulator.py:172-186 | weight is `m g`, no flow means no thrust, ground rest gives zero acceleration, otherwise `m a = sgn(V) thrust - drag - weight` |
| FlightModel.DragAlongVelocity | src/simulator.py:173 | with non-negative density, drag coefficient and area, drag has the sign of the velocity and vanishes at rest, so it opposes the motion |
| FlightModel.Propagate | src/simulator.py:184-196 | time advances by dt, mass drops by flow times dt; in ground rest altitude and velocity become 0, else they follow the Euler update |
| FlightModel.MecoFraction | src/simulator.py:202 | the interpolation fraction of a mass crossing lies in (0, 1] |
| FlightModel.MecoFractionIsOne | src/simulator.py:201-203 | the fraction is exactly 1 if and only if the new mass is exactly `m_dry + EPS`, so a mass cut-off can fall on the next sample |
| FlightModel.CrossingFraction | src/simulator.py:216-223 | the interpolation fraction of a velocity or altitude crossing lies strictly in (0, 1) |
| FlightModel.DetectMeco | src/simulator.py:200-212 | a recorded cut-off is kept; otherwise one is recorded iff the mass crosses or the curve ends, inside the step or at its end; a mass crossing is at the `MecoFraction` of the step with altitude and velocity linearly interpolated to that time, and the curve-end record is the next sample itself |
| FlightModel.DetectApogee | src/simulator.py:214-219 | a recorded apogee is kept; otherwise one is recorded iff the velocity goes from positive to non-positive, strictly inside the step at its `CrossingFraction`, with the altitude linearly interpolated to that time (so between the step's two altitudes) |
| FlightModel.DetectTouchdown | src/simulator.py:221-225 | a recorded touchdown is kept; otherwise one is recorded iff the altitude goes from positive to non-positive, strictly inside the step at its `CrossingFraction` |
| FlightModel.Step | src/simulator.py:165-236 | one iteration advances time by dt, keeps the mass between the dry mass and the previous mass, pins the altitude to 0 on touchdown, and keeps recorded events |
| FlightModel.Initial | src/simulator.py:157-162 | the launch snapshot is at time 0, altitude 0, velocity 0, with the propellant on top of the dry mass, and no event recorded |
| RunProperties.StepKeeps | src/simulator.py:194-232 | a step of a run advances the clock by dt, keeps the mass at or above dry mass and non-increasing (unchanged once within EPS of dry mass), and keeps every recorded event |
| RunProperties.RunClock | src/simulator.py:157-196 | sample k of a run is at time `k dt`, and every sample after launch is at least dt |
| RunProperties.EventsLatched | src/simulator.py:201-225 | each event is recorded at most once: once held, every later snapshot holds the same record; in particular the curve end cannot overwrite a mass cut-off |
| RunProperties.TouchdownNotBefore | src/simulator.py:238-239 | a run not touched down one step before its end was not touched down at any earlier snapshot |
| RunProperties.StepMeco | src/simulator.py:199-212 | on stored samples: cut-off recorded iff mass crossed or curve ended, inside the step or at its end, and at the next sample's time and velocity when only the curve ended |
| RunProperties.StepApogee | src/simulator.py:214-219 | on stored samples: apogee recorded iff velocity went from positive to non-positive, strictly inside the step |
| RunProperties.StepTouchdown | src/simulator.py:221-226 | on stored samples: touchdown recorded iff altitude went from positive to non-positive, strictly inside the step, and the next sample sits at altitude 0 |
| RunProperties.MassBounds | src/simulator.py:157-232 | along a run the mass stays between `m_dry` and `m_dry + m_prop` and never increases |
| RunProperties.ApogeeRecorded | src/simulator.py:215-219 | a run has an apogee iff some step took the velocity from positive to non-positive |
| RunProperties.ApogeeAtFirstCrossing | src/simulator.py:215-219 | the recorded apogee time lies strictly inside the first such step |
| RunProperties.TouchdownRecorded | src/simulator.py:222-226 | a run has a touchdown iff some step took the altitude from positive to non-positive |
| RunProperties.TouchdownAtFirstCrossing | src/simulator.py:222-226 | the recorded touchdown time lies strictly inside the first such step, whose sample is pinned to the ground |
| RunProperties.MecoRecorded | src/simulator.py:201-212 | a run has a cut-off iff some step crossed the dry mass or reached the end of the flow curve |
| RunProperties.MecoAtFirstBurnEnd | src/simulator.py:201-212 | the recorded cut-off time lies in the first such step (end included), and is that sample's time and velocity when the curve, not the mass, ended the burn |
| RunProperties.GroundRestStep | src/simulator.py:184-188 | in ground rest the stored acceleration is 0 and the next sample has altitude 0 and velocity 0 |
| RunProperties.BurnedOut | src/simulator.py:166-169 | once the mass is within EPS of the dry mass, every later sample has zero flow and the same mass |
| Simulation.Ceil | src/simulator.py:152 | the least integer not below its argument, as `math.ceil` |
| Simulation.LastPositive | src/simulator.py:242 | the index of the last positive time, with no positive time after it, or 0 when there is none |
| Simulation.MaxOf | src/simulator.py:247-249 | the maximum is one of the entries and bounds all of them, as `np.max` |
| Simulation.Summarize | src/simulator.py:246-257 | the metrics carry the events, maxima of altitude, velocity and acceleration that occur in the trace and bound it, and the last sample's time |
| Simulation.Advance | src/simulator.py:166-232 | one pass of the loop body computes the forces at the sample and the next snapshot, exactly as `Step` |
| Simulation.Record | src/simulator.py:229-236 | writing the forces at sample i and the next sample, which repeats those forces, changes exactly those two entries |
| Simulation.Integrate | src/simulator.py:151-239 | the array has `ceil(tmax/dt) + 2` entries; the first steps+1 hold a run of `Step` from launch with the forces at each state, the rest stay all-zero samples; the loop stops early only on touchdown |
| Simulation.Simulate | src/simulator.py:146-257 | for the selected curve, the trimmed trace has 2 to `ceil(tmax/dt) + 2` samples (at most `ceil(tmax/dt) + 1` iterations), is a run from launch with sample k at `k dt`; forces match each state; touchdown only at the last sample, and an early stop means touchdown; metrics as in `Summarize` |

## Left out

- `load_motor_curve` (CSV reading, column lookup, sorting) is file I/O and is not part of this model. `SelectCurve` takes its result as a parameter and assumes the loader produced a table with strictly increasing times and non-negative flows.
- Plot rendering, the JSON metrics file, the `main` command line and `app.py` are output and user interface, not computation.
- Floating point is modelled as exact `real` arithmetic, including `np.interp` and the `1e-12` comparisons, so no rounding behaviour of a concrete run is captured.
- The eight parallel numpy arrays are one array of `Sample` records. Python's flag-plus-value event variables are `Option` values.
- The `break` after touchdown is written as the loop condition. The iterations are the same.
- Simulation.Simulate: its contract does not restate the altitude and velocity recorded with each event at the run level. `DetectMeco` and `DetectApogee` state them per step, as the linear interpolation to the event time.
- Simulation.Simulate: requires positive `dt`, `tmax` and `m_dry` and non-negative `m_prop` and flows, which `simulate` assumes but does not check.
- `simulate` caps the flow only by switching it off once the mass is within `1e-12` of the dry mass, and clamps the stored mass at the dry mass; it does not limit the flow to the propellant left in a step, and neither does the model.
- `simulate` raises no errors of its own and runs the integration once; there is no error path or step-size comparison to model.
- Mass conservation to within one step's flow is not proved. `MassBounds` gives only that the mass stays within `[m_dry, m_dry + m_prop]` and does not increase.
- The cut-off fraction in the code adds `1e-12` to the denominator and tests `m_new <= m_dry + 1e-12`. It therefore lies in (0, 1] rather than (0, 1), and the model follows the code.
- A code comment says the velocity sign is 0 at rest. The code uses +1, and the model follows the code (`SignAtRest`).
- Thrust is multiplied by the sign of the velocity, as the code does, so it points downward while descending.
