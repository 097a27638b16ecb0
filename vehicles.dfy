/**
  The GM car-following rule and the per-tick dispatch of speed commands.

  A `Vehicle` is the snapshot of one vehicle that the simulator reports at the
  start of a tick (length, acceleration cap, lane, position along the lane,
  speed, and the answer of the nearest-leader query). Every tick the vehicle
  table is rebuilt from the reported fleet, each vehicle's leader is resolved
  against that table, and under the `"gm"` model each vehicle receives one
  speed command computed with the sensitivity `alpha` of its lane.
*/
module Vehicles {
  import opened Wrappers
  import opened Lanes

  /** The answer of the simulator's nearest-leader query: the leader's id and its distance. */
  datatype LeaderInfo = LeaderInfo(id: string, dist: real)

  /** One vehicle as reported at the start of a tick. */
  datatype Vehicle = Vehicle(
    id: string,
    l: real,                    // length in meters
    maxA: real,                 // acceleration cap in m/s^2
    laneId: string,
    x: real,                    // position along the lane in meters
    v: real,                    // speed in m/s
    leader: Option<LeaderInfo>  // nearest leader within the sensing range, if any
  )

  /** A speed command sent to the simulator. */
  datatype Command =
    | Resume             // hand the vehicle back to the simulator's own speed rule
    | SetSpeed(speed: real)

  /** The speed value by which the simulator is told to resume its own rule. */
  const ResumeSpeed: real := -1.0

  /** The speed value a command puts on the wire. */
  function Wire(c: Command): real
  {
    match c
    case Resume => ResumeSpeed
    case SetSpeed(s) => s
  }

  /** Python's `min(a, b)`: `a` unless `b` is smaller. */
  function Min(a: real, b: real): (r: real)
    ensures r <= a && r <= b && (r == a || r == b)
  {
    if b < a then b else a
  }

  /** The larger of `0` and `x`, as `np.max([0, x])` computes it. */
  function ClampNonNegative(x: real): (r: real)
    ensures r >= 0.0 && r >= x && (r == 0.0 || r == x)
  {
    if x > 0.0 then x else 0.0
  }

  /** The distance from the follower's position, plus the FOLLOWER's length, to the leader's position. */
  function Gap(follower: Vehicle, leader: Vehicle): (g: real)
    ensures follower.x + follower.l + g == leader.x
  {
    leader.x - follower.x - follower.l
  }

  /** The GM acceleration estimate: the relative-speed response, capped at `maxA`. */
  function Acceleration(alpha: real, v: real, vLeader: real, gap: real, maxA: real): (a: real)
    requires gap != 0.0
    ensures a <= maxA && a <= alpha * (vLeader - v) / gap
    ensures a == maxA || a == alpha * (vLeader - v) / gap
  {
    Min(alpha * (vLeader - v) / gap, maxA)
  }

  /**
    The GM step can be evaluated: with a leader, neither the division by the
    gap nor the division by `dt` (the realised acceleration, computed before the
    speed is set) is by zero.
  */
  predicate GmDefined(follower: Vehicle, leader: Option<Vehicle>, dt: real)
  {
    leader.Some? ==> Gap(follower, leader.value) != 0.0 && dt != 0.0
  }

  /**
    The GM step of one follower: without a leader, resume the simulator's rule;
    with one, the current speed plus `dt` times the acceleration estimate,
    never below zero.
  */
  function StepGm(follower: Vehicle, leader: Option<Vehicle>, alpha: real, dt: real): (c: Command)
    requires GmDefined(follower, leader, dt)
    ensures leader.None? <==> c == Resume
    ensures leader.Some? ==>
      var a := Acceleration(alpha, follower.v, leader.value.v, Gap(follower, leader.value), follower.maxA);
      && c.SetSpeed?
      && c.speed >= 0.0
      && c.speed >= follower.v + a * dt
      && (c.speed == 0.0 || c.speed == follower.v + a * dt)
  {
    match leader
    case None => Resume
    case Some(lead) =>
      var gap := Gap(follower, lead);
      var aEstimate := Acceleration(alpha, follower.v, lead.v, gap, follower.maxA);
      var newV := follower.v + aEstimate * dt;
      SetSpeed(ClampNonNegative(newV))
  }

  /** The commanded speed rises by at most `maxA * dt` over the current speed. */
  lemma {:induction false} GmSpeedCap(follower: Vehicle, leader: Vehicle, alpha: real, dt: real)
    requires Gap(follower, leader) != 0.0
    requires dt > 0.0 && follower.maxA >= 0.0 && follower.v >= 0.0
    ensures StepGm(follower, Some(leader), alpha, dt).speed <= follower.v + follower.maxA * dt
  {
  }

  /** Following a leader at the same speed keeps the current speed. */
  lemma {:induction false} GmEqualSpeeds(follower: Vehicle, leader: Vehicle, alpha: real, dt: real)
    requires Gap(follower, leader) != 0.0 && dt != 0.0
    requires leader.v == follower.v && follower.v >= 0.0 && follower.maxA >= 0.0
    ensures StepGm(follower, Some(leader), alpha, dt) == SetSpeed(follower.v)
  {
    var gap := Gap(follower, leader);
    assert alpha * (leader.v - follower.v) / gap == 0.0;
  }

  /** Behind a slower leader, with positive sensitivity and gap, a moving follower slows down. */
  lemma {:induction false} GmBrakesBehindSlowerLeader(follower: Vehicle, leader: Vehicle, alpha: real, dt: real)
    requires Gap(follower, leader) > 0.0 && alpha > 0.0 && dt > 0.0
    requires leader.v < follower.v && follower.v > 0.0
    ensures StepGm(follower, Some(leader), alpha, dt).speed < follower.v
  {
    var gap := Gap(follower, leader);
    var response := alpha * (leader.v - follower.v) / gap;
    assert alpha * (leader.v - follower.v) < 0.0;
    assert response < 0.0;
    var a := Acceleration(alpha, follower.v, leader.v, gap, follower.maxA);
    assert a * dt < 0.0;
  }

  /**
    The worked example: speed 10, leader speed 5, gap 20, alpha 1, cap 2, dt 1
    give the acceleration -0.25 and the commanded speed 9.75.
  */
  lemma {:induction false} GmWorkedExample()
    ensures
      var follower := Vehicle("f", 5.0, 2.0, "lane", 0.0, 10.0, Some(LeaderInfo("l", 25.0)));
      var leader := Vehicle("l", 4.0, 3.0, "lane", 25.0, 5.0, None);
      && Gap(follower, leader) == 20.0
      && Acceleration(1.0, 10.0, 5.0, 20.0, 2.0) == -0.25
      && StepGm(follower, Some(leader), 1.0, 1.0) == SetSpeed(9.75)
  {
  }

  /**
    A follower at rest 15 m behind a leader holding 8 m/s, with alpha 2, cap 3
    and dt 1, is commanded 16/15 m/s: it speeds up, but stays below the leader.
  */
  lemma {:induction false} GmFromRest()
    ensures
      var follower := Vehicle("f", 5.0, 3.0, "lane", 0.0, 0.0, Some(LeaderInfo("l", 20.0)));
      var leader := Vehicle("l", 5.0, 3.0, "lane", 20.0, 8.0, None);
      var c := StepGm(follower, Some(leader), 2.0, 1.0);
      && Gap(follower, leader) == 15.0
      && c == SetSpeed(16.0 / 15.0)
      && 0.0 < c.speed < leader.v
  {
    var follower := Vehicle("f", 5.0, 3.0, "lane", 0.0, 0.0, Some(LeaderInfo("l", 20.0)));
    var leader := Vehicle("l", 5.0, 3.0, "lane", 20.0, 8.0, None);
    assert Acceleration(2.0, 0.0, 8.0, 15.0, 3.0) == 16.0 / 15.0;
  }

  /** A command from the GM step puts `-1` on the wire exactly when it is `Resume`. */
  lemma {:induction false} GmSentinelUnambiguous(follower: Vehicle, leader: Option<Vehicle>, alpha: real, dt: real)
    requires GmDefined(follower, leader, dt)
    ensures Wire(StepGm(follower, leader, alpha, dt)) == ResumeSpeed <==> leader.None?
  {
  }

  /**
    The leader object of a vehicle: none when the query found no leader, when
    it answered with the empty id, or when the id is not in the current table.
    The reported distance plays no part.
  */
  function GetLeader(table: map<string, Vehicle>, query: Option<LeaderInfo>): (r: Option<Vehicle>)
    ensures r.None? <==> query.None? || query.value.id == "" || query.value.id !in table
    ensures r.Some? ==> r.value == table[query.value.id]
  {
    match query
    case None => None
    case Some(LeaderInfo(leaderId, _)) =>
      if leaderId == "" then None
      else if leaderId in table then Some(table[leaderId])
      else None
  }

  /** No two vehicles of the fleet share an id. */
  predicate DistinctIds(fleet: seq<Vehicle>)
  {
    forall i, j :: 0 <= i < j < |fleet| ==> fleet[i].id != fleet[j].id
  }

  /** The vehicle table of a tick: every reported vehicle under its own id. */
  function TableOf(fleet: seq<Vehicle>): (table: map<string, Vehicle>)
    requires DistinctIds(fleet)
    ensures forall i :: 0 <= i < |fleet| ==> fleet[i].id in table && table[fleet[i].id] == fleet[i]
    ensures forall id :: id in table ==> exists i :: 0 <= i < |fleet| && fleet[i].id == id
  {
    map i | 0 <= i < |fleet| :: fleet[i].id := fleet[i]
  }

  /** Why a tick stops before every vehicle has been handled. */
  datatype Fault =
    | UnknownLane(laneId: string)                          // the lane table has no entry for the lane
    | LaneAlphaFailed(laneId: string, cause: AlphaFault)   // evaluating the lane's alpha raised
    | ZeroGap(vehicleId: string)                           // the GM step divides by a zero gap
    | ZeroStep(vehicleId: string)                          // the realised acceleration divides by a zero dt

  /** One command issued to one vehicle. */
  datatype Issued = Issued(id: string, command: Command)

  /** The commands a tick issued, in order, and the fault that stopped it, if any. */
  datatype Tick = Tick(issued: seq<Issued>, fault: Option<Fault>)

  /** The sensitivity of every lane of the lane table, or why evaluating it raises. */
  function LaneAlphas(lanes: map<string, Lane>): map<string, Result<real, AlphaFault>>
    reads lanes.Values
  {
    map id | id in lanes :: AlphaResult(lanes[id].history, lanes[id].eps)
  }

  /** Looking a lane's sensitivity up in the lane table. */
  function AlphaLookup(alphas: map<string, Result<real, AlphaFault>>, laneId: string): (r: Result<real, Fault>)
    ensures r.Success? <==> laneId in alphas && alphas[laneId].Success?
    ensures r.Success? ==> r.value == alphas[laneId].value
  {
    if laneId !in alphas then Failure(UnknownLane(laneId))
    else match alphas[laneId]
      case Success(alpha) => Success(alpha)
      case Failure(cause) => Failure(LaneAlphaFailed(laneId, cause))
  }

  /**
    The GM step of `veh` can be evaluated: its lane's alpha exists and, when a
    leader is resolved, neither the gap nor `dt` is zero.
  */
  predicate GmReady(table: map<string, Vehicle>, veh: Vehicle, alphas: map<string, Result<real, AlphaFault>>, dt: real)
  {
    && AlphaLookup(alphas, veh.laneId).Success?
    && GmDefined(veh, GetLeader(table, veh.leader), dt)
  }

  /** The command the GM step gives `veh`, with its lane's alpha and its resolved leader. */
  function GmCommand(table: map<string, Vehicle>, veh: Vehicle, alphas: map<string, Result<real, AlphaFault>>, dt: real): Command
    requires GmReady(table, veh, alphas, dt)
  {
    StepGm(veh, GetLeader(table, veh.leader), AlphaLookup(alphas, veh.laneId).value, dt)
  }

  /** The fault raised for `veh` when its GM step cannot be evaluated: the lane lookup first, then the gap, then `dt`. */
  function GmFault(table: map<string, Vehicle>, veh: Vehicle, alphas: map<string, Result<real, AlphaFault>>, dt: real): Fault
    requires !GmReady(table, veh, alphas, dt)
  {
    match AlphaLookup(alphas, veh.laneId)
    case Failure(f) => f
    case Success(_) =>
      var leader := GetLeader(table, veh.leader);
      if Gap(veh, leader.value) == 0.0 then ZeroGap(veh.id) else ZeroStep(veh.id)
  }

  /** What handling one vehicle does: no command, one command, or a fault. */
  function VehicleTick(table: map<string, Vehicle>, veh: Vehicle, alphas: map<string, Result<real, AlphaFault>>,
                       model: string, dt: real): (r: Result<Option<Command>, Fault>)
    ensures model != "gm" ==> r == Success(None)
    ensures model == "gm" && GmReady(table, veh, alphas, dt) ==> r == Success(Some(GmCommand(table, veh, alphas, dt)))
    ensures model == "gm" && !GmReady(table, veh, alphas, dt) ==> r == Failure(GmFault(table, veh, alphas, dt))
  {
    if model != "gm" then Success(None)
    else match AlphaLookup(alphas, veh.laneId)
      case Failure(f) => Failure(f)
      case Success(alpha) =>
        var leader := GetLeader(table, veh.leader);
        if leader.Some? && Gap(veh, leader.value) == 0.0 then Failure(ZeroGap(veh.id))
        else if leader.Some? && dt == 0.0 then Failure(ZeroStep(veh.id))
        else Success(Some(StepGm(veh, leader, alpha, dt)))
  }

  /** One tick over the vehicles in `queue`, in order, stopping at the first fault. */
  function Dispatch(table: map<string, Vehicle>, queue: seq<Vehicle>, alphas: map<string, Result<real, AlphaFault>>,
                    model: string, dt: real): (t: Tick)
    ensures |t.issued| <= |queue|
  {
    if queue == [] then Tick([], None)
    else match VehicleTick(table, queue[0], alphas, model, dt)
      case Failure(f) => Tick([], Some(f))
      case Success(None) => Dispatch(table, queue[1..], alphas, model, dt)
      case Success(Some(c)) =>
        var rest := Dispatch(table, queue[1..], alphas, model, dt);
        Tick([Issued(queue[0].id, c)] + rest.issued, rest.fault)
  }

  /**
    The loop step of a tick: if the commands `issued` so far followed by the
    tick over `queue` make up the tick `whole`, the outcome `r` of handling the
    first vehicle of `queue` either ends `whole` there or leaves the same true
    of the rest of the queue.
  */
  lemma {:induction false} DispatchStep(table: map<string, Vehicle>, queue: seq<Vehicle>,
                                        alphas: map<string, Result<real, AlphaFault>>, model: string, dt: real,
                                        issued: seq<Issued>, whole: Tick, r: Result<Option<Command>, Fault>)
    requires queue != [] && r == VehicleTick(table, queue[0], alphas, model, dt)
    requires
      var t := Dispatch(table, queue, alphas, model, dt);
      whole == Tick(issued + t.issued, t.fault)
    ensures
      var rest := Dispatch(table, queue[1..], alphas, model, dt);
      && (r.Failure? ==> whole == Tick(issued, Some(r.error)))
      && (r.Success? && r.value.None? ==> whole == Tick(issued + rest.issued, rest.fault))
      && (r.Success? && r.value.Some? ==>
            whole == Tick((issued + [Issued(queue[0].id, r.value.value)]) + rest.issued, rest.fault))
  {
    var rest := Dispatch(table, queue[1..], alphas, model, dt);
    if r.Failure? {
      assert issued + [] == issued;
    } else if r.value.Some? {
      var c := r.value.value;
      assert issued + ([Issued(queue[0].id, c)] + rest.issued) == (issued + [Issued(queue[0].id, c)]) + rest.issued;
    }
  }

  /** Under any model other than `"gm"` a tick issues nothing and raises nothing. */
  lemma {:induction false} DispatchIdle(table: map<string, Vehicle>, queue: seq<Vehicle>,
                                        alphas: map<string, Result<real, AlphaFault>>, model: string, dt: real)
    requires model != "gm"
    ensures Dispatch(table, queue, alphas, model, dt) == Tick([], None)
  {
    if queue != [] {
      DispatchIdle(table, queue[1..], alphas, model, dt);
    }
  }

  /**
    Under `"gm"` the k-th command goes to the k-th vehicle and is its GM step with
    its own lane's alpha. Either every vehicle gets one, or the tick stops at the
    first vehicle whose step cannot be evaluated, with that vehicle's fault.
  */
  lemma {:induction false} DispatchGm(table: map<string, Vehicle>, queue: seq<Vehicle>,
                                      alphas: map<string, Result<real, AlphaFault>>, dt: real)
    ensures
      var t := Dispatch(table, queue, alphas, "gm", dt);
      && (forall k :: 0 <= k < |t.issued| ==>
            && GmReady(table, queue[k], alphas, dt)
            && t.issued[k] == Issued(queue[k].id, GmCommand(table, queue[k], alphas, dt)))
      && (t.fault.None? <==> |t.issued| == |queue|)
      && (t.fault.Some? ==>
            && !GmReady(table, queue[|t.issued|], alphas, dt)
            && t.fault.value == GmFault(table, queue[|t.issued|], alphas, dt))
  {
    if queue != [] {
      DispatchGm(table, queue[1..], alphas, dt);
      var rest := Dispatch(table, queue[1..], alphas, "gm", dt);
      var t := Dispatch(table, queue, alphas, "gm", dt);
      if GmReady(table, queue[0], alphas, dt) {
        assert t.issued == [Issued(queue[0].id, GmCommand(table, queue[0], alphas, dt))] + rest.issued;
        forall k | 1 <= k < |t.issued|
          ensures GmReady(table, queue[k], alphas, dt)
          ensures t.issued[k] == Issued(queue[k].id, GmCommand(table, queue[k], alphas, dt))
        {
          assert t.issued[k] == rest.issued[k - 1] && queue[k] == queue[1..][k - 1];
        }
      }
    }
  }

  /** No vehicle receives two commands in one tick. */
  lemma {:induction false} DispatchAtMostOnce(table: map<string, Vehicle>, queue: seq<Vehicle>,
                                              alphas: map<string, Result<real, AlphaFault>>, model: string, dt: real)
    requires DistinctIds(queue)
    ensures
      var t := Dispatch(table, queue, alphas, model, dt);
      forall i, j :: 0 <= i < j < |t.issued| ==> t.issued[i].id != t.issued[j].id
  {
    if model == "gm" {
      DispatchGm(table, queue, alphas, dt);
    } else {
      DispatchIdle(table, queue, alphas, model, dt);
    }
  }

  /** The vehicle control of a run: the lane table, the step length and the model tag. */
  class VehiclesSimulation {
    const dt: real
    const model: string
    const lanes: map<string, Lane>
    /** The vehicle table of the current tick. */
    var vehicles: map<string, Vehicle>

    constructor (lanes: map<string, Lane>, dt: real, model: string)
      ensures this.lanes == lanes && this.dt == dt && this.model == model
      ensures vehicles == map[]
    {
      this.dt := dt;
      this.model := model;
      this.lanes := lanes;
      vehicles := map[];
    }

    /**
      One tick: rebuilds the vehicle table from the reported fleet, then handles
      every vehicle once, in the order reported, and returns the commands issued
      and the fault that stopped the tick, if any.
    */
    method Step(fleet: seq<Vehicle>) returns (t: Tick)
      requires DistinctIds(fleet)
      modifies this`vehicles
      ensures vehicles == TableOf(fleet)
      ensures t == Dispatch(vehicles, fleet, old(LaneAlphas(lanes)), model, dt)
    {
      var table := TableOf(fleet);
      var alphas := LaneAlphas(lanes);
      var issued: seq<Issued> := [];
      var fault: Option<Fault> := None;
      ghost var whole := Dispatch(table, fleet, alphas, model, dt);
      var queue := fleet;
      while queue != [] && fault.None?
        invariant fault.None? ==>
          var rest := Dispatch(table, queue, alphas, model, dt);
          whole == Tick(issued + rest.issued, rest.fault)
        invariant fault.Some? ==> whole == Tick(issued, fault)
      {
        var veh := queue[0];
        var r := VehicleTick(table, veh, alphas, model, dt);
        DispatchStep(table, queue, alphas, model, dt, issued, whole, r);
        if r.Failure? {
          fault := Some(r.error);
        } else if r.value.Some? {
          issued := issued + [Issued(veh.id, r.value.value)];
        }
        queue := queue[1..];
      }
      if fault.None? {
        assert issued + [] == issued;
      }
      t := Tick(issued, fault);
      assert t == whole;
      vehicles := table;
    }
  }
}
