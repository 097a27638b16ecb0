# Following-leader traffic control: lane estimator and GM dispatch

This project models, in Dafny, the control core of a SUMO-driven car-following
experiment: a per-lane traffic-state estimator and the General-Motors (GM)
car-following rule that turns a lane's sensitivity into one speed command per
vehicle per tick.

- **Lanes** (`lane.dfy`, after `utils/lane.py`). A `Lane` is a class with an
  append-only `history` of `LaneState(v, rho, q)` records and the set
  `prevVehicles` of ids seen at the previous tick. `Lane.Step` takes what the
  simulator reports for the lane (mean speed, occupancy, current vehicle ids) as
  an `Observation`, appends one record and remembers the ids. `q` is the number
  of ids that were not on the lane at the previous tick (a set difference), not
  density times speed. The sensitivity `alpha` (`AlphaOf`) is zero after one
  record and otherwise `-rho * (v_prev - v) / (rho_prev - rho + eps)` over the
  last two records. The source's `state_history` property is the `history` field
  itself. `Trace` is the history a fresh lane builds from a run of observations,
  and `Replay` drives a real `Lane` object through such a run. `LanesSimulation`
  holds the lanes (one per listed lane id), steps each of them once per tick and
  exposes `Alphas` and `State` keyed by lane id.
- **Vehicles** (`vehicles.dfy`, after `utils/vehicles.py`). A `Vehicle` is the
  snapshot of one vehicle at the start of a tick. Its fields are the length and
  acceleration cap, which the source reads once when it builds the vehicle
  table, and the lane, lane position, speed and answer of the nearest-leader
  query, which the source reads lazily from the simulator. `StepGm` is the GM
  rule. Without a leader it yields `Resume`, which goes on the wire as the speed
  `-1`. With a leader it computes `gap = leader.x - x - l` (the follower's own
  length), `a = min(alpha * (v_leader - v) / gap, maxA)` and commands
  `max(0, v + a * dt)`. Before setting that speed the source divides by `dt`
  to compute the realised acceleration, so with a leader both the gap and `dt`
  must be non-zero. `GetLeader` resolves the query against the vehicle table
  of the tick. `VehiclesSimulation.Step` rebuilds the table from the reported
  fleet and handles every vehicle once, in the order reported. Under the model
  tag `"gm"` a vehicle gets the GM command computed with its own lane's alpha.
  Under `"platoon"` or any other tag nothing is issued, because the platoon step
  of the source is empty. The exceptions the source can raise in a tick
  (`KeyError` for a lane missing from the lane table, `IndexError` for a lane
  with no record, `ZeroDivisionError` for a zero alpha denominator, a zero gap
  or a zero `dt`) become a `Fault`. A fault stops the tick; the commands issued before it stand.
- **Wrappers** (`wrappers.dfy`): `Option` and `Result`.

The code departs from the usual GM / traffic-estimator formulation in these
ways, and the model follows the code:
- the flow `q` is a count of newly arrived ids, not `rho * v`;
- there is no calibration-curve sensitivity, only the finite difference;
- the gap subtracts the follower's length, not the leader's;
- without a leader the command is the sentinel `-1`, not the allowed maximum speed;
- the gap is not floored, so a zero gap is a division error (`ZeroGap`);
- the realised acceleration `(new_v - v) / dt` is computed but not used, yet a zero `dt` makes it a division error (`ZeroStep`);
- the `"platoon"` model issues no command (there is no blended CACC controller).

## Model

| member | source | states |
|---|---|---|
| Lanes.ToSetBound | utils/lane.py:19 | a reported id list has at least as many entries as distinct ids, and exactly as many when no id repeats |
| Lanes.Arrived | utils/lane.py:19-20 | an id has arrived exactly when it is reported now and was not on the lane at the previous tick |
| Lanes.ArrivedBound | utils/lane.py:19-25 | the arrival count is at most the number of distinct ids reported, hence at most the number of ids reported |
| Lanes.ArrivedFromEmpty | utils/lane.py:16 | with nothing remembered (a fresh lane), every reported vehicle counts as arrived |
| Lanes.ArrivedRepeat | utils/lane.py:20-21 | reporting exactly the remembered ids counts no arrival |
| Lanes.Record | utils/lane.py:23-25 | the recorded state carries the reported mean speed and occupancy and the number of arrived ids, which is at most the number of reported ids |
| Lanes.AlphaOf | utils/lane.py:27-36 | alpha is 0 with one record; with two or more, alpha times the guarded density difference equals `-rho_last * (v_prev - v_last)` |
| Lanes.AlphaResult | utils/lane.py:27-36 | alpha succeeds exactly when something is recorded and the guarded denominator is non-zero, then equals `AlphaOf`; it fails with `EmptyHistory` exactly when nothing is recorded |
| Lanes.AlphaLastTwo | utils/lane.py:32-35 | alpha depends only on the last two records: any older prefix gives the same value |
| Lanes.AlphaOfEntries | utils/lane.py:32-35 | alpha is `-rho * (v_prev - v) / (rho_prev - rho + eps)` in terms of the speeds and occupancies of the last two entries |
| Lanes.AlphaSteadySpeed | utils/lane.py:32-35 | unchanged speed over the last two records gives alpha 0 |
| Lanes.AlphaSteadyDensity | utils/lane.py:33-35 | unchanged density over the last two records (with `eps != 0`) gives alpha `-rho * dv / eps` |
| Lanes.Lane.constructor | utils/lane.py:12-16 | a new lane has an empty history and remembers no ids |
| Lanes.Lane.Step | utils/lane.py:18-25 | appends exactly one state, the `Record` of the observation against the previously remembered ids, keeps all earlier entries, and remembers the current id set |
| Lanes.Lane.Alpha | utils/lane.py:27-36 | the lane's alpha is 0 after one record and the finite difference of its last two records afterwards |
| Lanes.Lane.CurState | utils/lane.py:38-40 | the current state is the last history entry |
| Lanes.Trace | utils/lane.py:18-25 | a run of n observations leaves a history of n entries |
| Lanes.TraceAt | utils/lane.py:18-25 | entry k of a run's history is the record of observation k against the ids of observation k-1 (none for k = 0) |
| Lanes.Replay | utils/lane.py:12-25 | a fresh `Lane` object stepped through a run holds exactly `Trace` of that run |
| Lanes.TraceFirst | utils/lane.py:16-25 | on the first tick the arrival count is the number of distinct vehicles present, and the number of ids reported when they are distinct |
| Lanes.TraceRepeat | utils/lane.py:19-25 | the same id set on two consecutive ticks gives arrival count 0 on the second |
| Lanes.TraceAlpha | utils/lane.py:23-36 | after two or more ticks alpha is the finite difference of the last two observations' mean speed and occupancy |
| Lanes.TraceRepeatedObservation | utils/lane.py:18-36 | stepping twice with the same observation records no arrival on the second step and leaves alpha 0 |
| Lanes.LanesSimulation.constructor | utils/lane.py:60-63 | one fresh, empty lane per listed lane id, in the listed order, all with the same `eps` |
| Lanes.LanesSimulation.Step | utils/lane.py:65-66 | every lane is stepped exactly once, with its own observation |
| Lanes.LanesSimulation.Alphas | utils/lane.py:68-70 | the keys are exactly the lane ids, and each maps to that lane's own alpha |
| Lanes.LanesSimulation.State | utils/lane.py:72-74 | the keys are exactly the lane ids, and each maps to that lane's last recorded state |
| Vehicles.Min | utils/vehicles.py:105 | Python's `min` of two values: at most both and equal to one of them |
| Vehicles.ClampNonNegative | utils/vehicles.py:107 | `np.max([0, x])`: non-negative, at least `x`, and either 0 or `x` |
| Vehicles.Gap | utils/vehicles.py:104 | the gap is the leader's position minus the follower's position and the follower's own length |
| Vehicles.Acceleration | utils/vehicles.py:105 | the acceleration estimate is the relative-speed response capped at `maxA`: at most both, equal to one |
| Vehicles.StepGm | utils/vehicles.py:97-110 | defined with a leader only for a non-zero gap and a non-zero `dt` (the two divisions); no leader gives `Resume` whatever the follower's state; a leader gives a speed that is non-negative, at least `v + a * dt`, and either 0 or `v + a * dt` |
| Vehicles.GmSpeedCap | utils/vehicles.py:105-107 | with `dt > 0`, `maxA >= 0` and `v >= 0` the commanded speed is at most `v + maxA * dt` |
| Vehicles.GmEqualSpeeds | utils/vehicles.py:105-110 | a leader at the follower's speed (`v >= 0`, `maxA >= 0`, `dt != 0`) keeps the follower's speed |
| Vehicles.GmBrakesBehindSlowerLeader | utils/vehicles.py:104-107 | with positive alpha, gap and `dt`, a moving follower behind a slower leader is commanded a lower speed |
| Vehicles.GmWorkedExample | utils/vehicles.py:104-107 | speed 10, leader speed 5, gap 20, alpha 1, cap 2, `dt` 1 give acceleration -0.25 and speed 9.75 |
| Vehicles.GmFromRest | utils/vehicles.py:104-107 | a follower at rest 15 m behind a leader at 8 m/s (alpha 2, cap 3, `dt` 1) is commanded 16/15 m/s, above 0 and below the leader's speed |
| Vehicles.GmSentinelUnambiguous | utils/vehicles.py:97-110 | the wire value is `-1` exactly when there is no leader, since a commanded speed is never negative |
| Vehicles.GetLeader | utils/vehicles.py:36-44 | none exactly when the query found nothing, answered the empty id, or named an id not in the table; otherwise that table entry; the distance is ignored |
| Vehicles.TableOf | utils/vehicles.py:26 | every reported vehicle is in the table under its own id, and the table holds nothing else |
| Vehicles.AlphaLookup | utils/vehicles.py:31 | the lane lookup succeeds exactly when the lane is in the lane table and its alpha can be evaluated, and then gives that alpha |
| Vehicles.VehicleTick | utils/vehicles.py:28-33 | other model tags issue nothing; under `"gm"` a vehicle whose lane alpha evaluates and which, with a resolved leader, has a non-zero gap and `dt` gets its GM command; any other vehicle raises its fault: the lane's, else `ZeroGap`, else `ZeroStep` (the `dt` division of vehicles.py:109) |
| Vehicles.Dispatch | utils/vehicles.py:28-33 | a tick issues at most one command per vehicle handled |
| Vehicles.DispatchStep | utils/vehicles.py:28-33 | handling the first vehicle of the remaining queue either ends the tick with its fault or adds its command, if any, before the rest of the queue |
| Vehicles.DispatchIdle | utils/vehicles.py:32-33 | under any model other than `"gm"` (including `"platoon"`, whose step is empty) a tick issues nothing and raises nothing |
| Vehicles.DispatchGm | utils/vehicles.py:28-31 | under `"gm"` the k-th command goes to the k-th vehicle and is its GM step with its own lane's alpha; every vehicle gets one unless the tick stops, and it stops exactly at the first vehicle whose step cannot be evaluated, with that vehicle's fault |
| Vehicles.DispatchAtMostOnce | utils/vehicles.py:26-33 | with distinct vehicle ids no vehicle receives two commands in one tick |
| Vehicles.VehiclesSimulation.constructor | utils/vehicles.py:7-17 | keeps the lane table, step length and model tag, with an empty vehicle table |
| Vehicles.VehiclesSimulation.Step | utils/vehicles.py:19-33 | rebuilds the vehicle table from the reported fleet and returns exactly the commands and fault of `Dispatch` over the fleet in reported order, with the lane alphas as they stand at the start of the tick |

## Left out

- All simulator queries and commands (`traci.lane.*`, `traci.vehicle.*`): their answers are inputs (`Observation`, the `Vehicle` snapshot), and `setSpeed` becomes the returned list of issued commands.
- Commands take effect in the simulator only at its next step, so reading speeds after an earlier vehicle's `setSpeed` sees the old speed; the snapshot models exactly that, and no interleaving of commands and reads is modelled.
- `utils/simulation.py` (process launch, connection, argument parsing, the tick loop) and `test.py` (driver script, printing, plotting) are not part of this model.
- `Lane.fundamental_diagram` (plotting) is not modelled.
- IEEE floating point: values are Dafny `real`s, and float division by zero is modelled as the precondition `!= 0` or as a `Fault`, not as infinity or NaN.
- Unused values: `LanesSimulation._state`, `LanesSimulation.dt`, `Vehicle.min_gap`, `Vehicle.v_max`, the value of `a_actual` (only its division by `dt` is modelled, as `ZeroStep`), and the parameter defaults (`eps = 1e-5`, `dt = 0.05`, `model = 'gm'`), which are supplied explicitly.
- Lanes.LanesSimulation.constructor: requires distinct lane ids (the simulator's lane ids are unique); duplicate ids are not modelled.
- Lanes.LanesSimulation.Alphas: requires every lane's alpha to be defined; the exception the comprehension raises otherwise is modelled per lane by `AlphaResult` and `LaneAlphas`, not by this function.
- Lanes.LanesSimulation.State: requires every lane to have a record; the `IndexError` of an empty history is not modelled here.
- Vehicles.VehiclesSimulation.Step: requires distinct vehicle ids (the simulator's vehicle ids are unique), so the table does not collapse duplicates.
- Vehicles.StepGm: requires a non-zero gap and a non-zero `dt` when a leader exists; the two division errors are modelled by `VehicleTick` as the `ZeroGap` and `ZeroStep` faults.
