/**
  The per-lane traffic-state estimator.

  Every tick each lane records one state: the lane's mean speed `v`, its
  occupancy `rho`, and `q`, the number of vehicle ids on the lane that were not
  on it at the previous tick. The GM sensitivity `alpha` of a lane is a finite
  difference over its last two recorded states. What the simulator reports for
  a lane (mean speed, occupancy, the ids of the vehicles on it) is passed in as
  an `Observation`.
*/
module Lanes {
  import opened Wrappers

  /** One recorded tick of a lane. */
  datatype LaneState = LaneState(v: real, rho: real, q: nat)

  /** What the simulator reports for one lane at the end of a tick. */
  datatype Observation = Observation(meanSpeed: real, occupancy: real, ids: seq<string>)

  /** Why a lane's `alpha` cannot be computed. */
  datatype AlphaFault =
    | EmptyHistory     // nothing recorded yet: indexing the last entry fails
    | ZeroDenominator  // the guarded density difference is exactly zero

  /** The set of ids in a reported id list. */
  function ToSet(ids: seq<string>): set<string>
  {
    set x | x in ids
  }

  /** No id occurs twice in the list. */
  predicate Distinct(ids: seq<string>)
  {
    forall i, j :: 0 <= i < j < |ids| ==> ids[i] != ids[j]
  }

  /** A list has at least as many entries as distinct ids, and exactly as many when no id repeats. */
  lemma {:induction false} ToSetBound(ids: seq<string>)
    ensures |ToSet(ids)| <= |ids|
    ensures Distinct(ids) ==> |ToSet(ids)| == |ids|
  {
    if ids != [] {
      var init, last := ids[..|ids| - 1], ids[|ids| - 1];
      assert ids == init + [last];
      ToSetBound(init);
      assert ToSet(ids) == ToSet(init) + {last};
      if last in ToSet(init) {
        assert ToSet(ids) == ToSet(init);
      } else {
        assert |ToSet(ids)| == |ToSet(init)| + 1;
      }
      if Distinct(ids) {
        assert Distinct(init);
        assert last !in ToSet(init) by {
          forall k | 0 <= k < |init| ensures init[k] != last {
            assert ids[k] != ids[|ids| - 1];
          }
        }
      }
    }
  }

  /** The ids reported now that were not on the lane at the previous tick. */
  function Arrived(prev: set<string>, ids: seq<string>): (r: set<string>)
    ensures forall x :: x in r <==> x in ids && x !in prev
  {
    ToSet(ids) - prev
  }

  /** At most as many vehicles arrive as are reported now. */
  lemma {:induction false} ArrivedBound(prev: set<string>, ids: seq<string>)
    ensures |Arrived(prev, ids)| <= |ToSet(ids)| <= |ids|
  {
    ToSetBound(ids);
    assert Arrived(prev, ids) <= ToSet(ids);
  }

  /** With nothing remembered, every reported vehicle counts as arrived. */
  lemma {:induction false} ArrivedFromEmpty(ids: seq<string>)
    ensures Arrived({}, ids) == ToSet(ids)
    ensures Distinct(ids) ==> |Arrived({}, ids)| == |ids|
  {
    ToSetBound(ids);
  }

  /** Reporting the same vehicles again counts no arrival. */
  lemma {:induction false} ArrivedRepeat(prev: set<string>, ids: seq<string>)
    requires prev == ToSet(ids)
    ensures Arrived(prev, ids) == {}
  {
  }

  /** The state a lane records for observation `o` when it remembers the ids `prev`. */
  function Record(prev: set<string>, o: Observation): (s: LaneState)
    ensures s.v == o.meanSpeed && s.rho == o.occupancy
    ensures s.q == |Arrived(prev, o.ids)| <= |o.ids|
  {
    ArrivedBound(prev, o.ids);
    LaneState(o.meanSpeed, o.occupancy, |ToSet(o.ids) - prev|)
  }

  /** The guarded density difference of the last two entries. */
  function Denominator(h: seq<LaneState>, eps: real): real
    requires |h| >= 2
  {
    h[|h| - 2].rho - h[|h| - 1].rho + eps
  }

  /** `alpha` can be evaluated: something is recorded, and the division is defined. */
  predicate AlphaDefined(h: seq<LaneState>, eps: real)
  {
    |h| >= 1 && (|h| >= 2 ==> Denominator(h, eps) != 0.0)
  }

  /**
    The GM sensitivity of a lane with history `h`: zero after one tick,
    otherwise `-rho * dv / (drho + eps)` over the last two entries, where
    `dv` and `drho` are the previous entry's speed and occupancy minus the last's.
  */
  function AlphaOf(h: seq<LaneState>, eps: real): (r: real)
    requires AlphaDefined(h, eps)
    ensures |h| == 1 ==> r == 0.0
    ensures |h| >= 2 ==> r * Denominator(h, eps) == -h[|h| - 1].rho * (h[|h| - 2].v - h[|h| - 1].v)
  {
    if |h| == 1 then 0.0
    else
      var v, rho := h[|h| - 1].v, h[|h| - 1].rho;
      var dRho := h[|h| - 2].rho - rho;
      var dV := h[|h| - 2].v - v;
      -rho * dV / (dRho + eps)
  }

  /** `alpha` with its failure cases: what the lane returns, or why evaluating it raises. */
  function AlphaResult(h: seq<LaneState>, eps: real): (r: Result<real, AlphaFault>)
    ensures r.Success? <==> AlphaDefined(h, eps)
    ensures r.Success? ==> r.value == AlphaOf(h, eps)
    ensures r == Failure(EmptyHistory) <==> h == []
  {
    if |h| == 1 then Success(0.0)
    else if |h| == 0 then Failure(EmptyHistory)
    else if Denominator(h, eps) == 0.0 then Failure(ZeroDenominator)
    else Success(AlphaOf(h, eps))
  }

  /** `alpha` looks at the last two entries only. */
  lemma {:induction false} AlphaLastTwo(h: seq<LaneState>, older: seq<LaneState>, eps: real)
    requires |h| >= 2 && AlphaDefined(h, eps)
    ensures AlphaDefined(older + h[|h| - 2..], eps)
    ensures AlphaOf(h, eps) == AlphaOf(older + h[|h| - 2..], eps)
  {
    var g := older + h[|h| - 2..];
    assert g[|g| - 1] == h[|h| - 1] && g[|g| - 2] == h[|h| - 2];
  }

  /** `alpha` from the speeds and occupancies of the last two entries. */
  lemma {:induction false} AlphaOfEntries(h: seq<LaneState>, eps: real, vPrev: real, rhoPrev: real, v: real, rho: real)
    requires |h| >= 2 && rhoPrev - rho + eps != 0.0
    requires h[|h| - 2].v == vPrev && h[|h| - 2].rho == rhoPrev
    requires h[|h| - 1].v == v && h[|h| - 1].rho == rho
    ensures AlphaDefined(h, eps) && AlphaOf(h, eps) == -rho * (vPrev - v) / (rhoPrev - rho + eps)
  {
  }

  /** Unchanged speed between the last two ticks gives zero sensitivity. */
  lemma {:induction false} AlphaSteadySpeed(h: seq<LaneState>, eps: real)
    requires |h| >= 2 && AlphaDefined(h, eps)
    requires h[|h| - 2].v == h[|h| - 1].v
    ensures AlphaOf(h, eps) == 0.0
  {
  }

  /** Unchanged density between the last two ticks leaves only the guard in the denominator. */
  lemma {:induction false} AlphaSteadyDensity(h: seq<LaneState>, eps: real)
    requires |h| >= 2 && eps != 0.0
    requires h[|h| - 2].rho == h[|h| - 1].rho
    ensures AlphaDefined(h, eps)
    ensures AlphaOf(h, eps) == -h[|h| - 1].rho * (h[|h| - 2].v - h[|h| - 1].v) / eps
  {
  }

  /** One lane of the road network and its recorded states. */
  class Lane {
    const id: string
    const eps: real
    /** Every state recorded so far, oldest first (the lane's state history). */
    var history: seq<LaneState>
    /** The ids on the lane at the previous tick. */
    var prevVehicles: set<string>

    constructor (id: string, eps: real)
      ensures this.id == id && this.eps == eps
      ensures history == [] && prevVehicles == {}
    {
      this.id := id;
      this.eps := eps;
      history := [];
      prevVehicles := {};
    }

    /** Records one tick: appends one state and remembers the ids now on the lane. */
    method Step(o: Observation)
      modifies this
      ensures history == old(history) + [Record(old(prevVehicles), o)]
      ensures prevVehicles == ToSet(o.ids)
    {
      var vehicles := ToSet(o.ids);
      var newVehicles := vehicles - prevVehicles;
      prevVehicles := vehicles;
      history := history + [LaneState(o.meanSpeed, o.occupancy, |newVehicles|)];
    }

    /** The lane's current sensitivity: zero after one tick, else the finite difference of the last two states. */
    function Alpha(): (r: real)
      reads this
      requires AlphaDefined(history, eps)
      ensures |history| == 1 ==> r == 0.0
      ensures |history| >= 2 ==> r == AlphaOf(history, eps)
    {
      AlphaOf(history, eps)
    }

    /** The most recently recorded state. */
    function CurState(): (s: LaneState)
      reads this
      requires history != []
      ensures history == history[..|history| - 1] + [s]
    {
      history[|history| - 1]
    }
  }

  /** The ids a lane remembers just before tick `k` of a run. */
  function PrevIds(ticks: seq<Observation>, k: nat): set<string>
    requires k <= |ticks|
  {
    if k == 0 then {} else ToSet(ticks[k - 1].ids)
  }

  /** The history a fresh lane builds from a run of observations, one append per tick. */
  function Trace(ticks: seq<Observation>): (h: seq<LaneState>)
    ensures |h| == |ticks|
  {
    if ticks == [] then []
    else Trace(ticks[..|ticks| - 1]) + [Record(PrevIds(ticks, |ticks| - 1), ticks[|ticks| - 1])]
  }

  /** Entry `k` of a run's history is what tick `k` records, given the ids of tick `k - 1`. */
  lemma {:induction false} TraceAt(ticks: seq<Observation>, k: nat)
    requires k < |ticks|
    ensures Trace(ticks)[k] == Record(PrevIds(ticks, k), ticks[k])
  {
    var n := |ticks| - 1;
    if k < n {
      TraceAt(ticks[..n], k);
      assert PrevIds(ticks[..n], k) == PrevIds(ticks, k);
    }
  }

  /** A fresh lane driven through `ticks` records exactly `Trace(ticks)`. */
  method Replay(id: string, eps: real, ticks: seq<Observation>) returns (h: seq<LaneState>)
    ensures h == Trace(ticks)
  {
    var lane := new Lane(id, eps);
    for i := 0 to |ticks|
      invariant lane.history == Trace(ticks[..i])
      invariant lane.prevVehicles == PrevIds(ticks, i)
    {
      lane.Step(ticks[i]);
      assert Trace(ticks[..i + 1]) == Trace(ticks[..i]) + [Record(PrevIds(ticks, i), ticks[i])] by {
        assert ticks[..i + 1][..i] == ticks[..i];
        assert PrevIds(ticks[..i + 1], i) == PrevIds(ticks, i);
      }
    }
    assert ticks[..|ticks|] == ticks;
    h := lane.history;
  }

  /** On the first tick every vehicle present counts as arrived. */
  lemma {:induction false} TraceFirst(ticks: seq<Observation>)
    requires ticks != []
    ensures Trace(ticks)[0].q == |ToSet(ticks[0].ids)| <= |ticks[0].ids|
    ensures Distinct(ticks[0].ids) ==> Trace(ticks)[0].q == |ticks[0].ids|
  {
    TraceAt(ticks, 0);
    ArrivedFromEmpty(ticks[0].ids);
    ToSetBound(ticks[0].ids);
  }

  /** The same vehicles on two consecutive ticks give no arrival on the second. */
  lemma {:induction false} TraceRepeat(ticks: seq<Observation>, k: nat)
    requires 0 < k < |ticks|
    requires ToSet(ticks[k].ids) == ToSet(ticks[k - 1].ids)
    ensures Trace(ticks)[k].q == 0
  {
    TraceAt(ticks, k);
    ArrivedRepeat(PrevIds(ticks, k), ticks[k].ids);
  }

  /** After two or more ticks, `alpha` is the finite difference of the last two observations. */
  lemma {:induction false} TraceAlpha(ticks: seq<Observation>, eps: real)
    requires |ticks| >= 2
    requires ticks[|ticks| - 2].occupancy - ticks[|ticks| - 1].occupancy + eps != 0.0
    ensures AlphaDefined(Trace(ticks), eps)
    ensures
      var p, c := ticks[|ticks| - 2], ticks[|ticks| - 1];
      AlphaOf(Trace(ticks), eps) == -c.occupancy * (p.meanSpeed - c.meanSpeed) / (p.occupancy - c.occupancy + eps)
  {
    var h, n := Trace(ticks), |ticks| - 1;
    TraceAt(ticks, n);
    TraceAt(ticks, n - 1);
    AlphaOfEntries(h, eps, ticks[n - 1].meanSpeed, ticks[n - 1].occupancy, ticks[n].meanSpeed, ticks[n].occupancy);
  }

  /**
    Stepping a lane twice with the same observation: the second step records
    no arrival and leaves a zero sensitivity, whatever the first one recorded.
  */
  lemma {:induction false} TraceRepeatedObservation(ticks: seq<Observation>, eps: real)
    requires |ticks| >= 2 && ticks[|ticks| - 1] == ticks[|ticks| - 2] && eps != 0.0
    ensures Trace(ticks)[|ticks| - 1].q == 0
    ensures AlphaDefined(Trace(ticks), eps) && AlphaOf(Trace(ticks), eps) == 0.0
  {
    var n := |ticks| - 1;
    TraceRepeat(ticks, n);
    TraceAlpha(ticks, eps);
  }

  /** All lanes of the network, each stepped once per tick. */
  class LanesSimulation {
    const eps: real
    const lanes: seq<Lane>

    /** The lane ids, in the order the network lists them. */
    function Ids(): (ids: seq<string>)
      ensures |ids| == |lanes| && forall i :: 0 <= i < |lanes| ==> ids[i] == lanes[i].id
    {
      seq(|lanes|, i requires 0 <= i < |lanes| => lanes[i].id)
    }

    /** Lane ids are unique (so the lanes are distinct objects). */
    ghost predicate Valid()
    {
      forall i, j :: 0 <= i < j < |lanes| ==> lanes[i].id != lanes[j].id
    }

    /** One fresh lane per listed id, all with the same guard `eps`. */
    constructor (eps: real, laneIds: seq<string>)
      requires Distinct(laneIds)
      ensures Valid() && this.eps == eps && Ids() == laneIds
      ensures forall i :: 0 <= i < |lanes| ==>
        fresh(lanes[i]) && lanes[i].eps == eps && lanes[i].history == [] && lanes[i].prevVehicles == {}
    {
      var ls: seq<Lane> := [];
      for i := 0 to |laneIds|
        invariant |ls| == i
        invariant forall j :: 0 <= j < i ==>
          fresh(ls[j]) && ls[j].id == laneIds[j] && ls[j].eps == eps && ls[j].history == [] && ls[j].prevVehicles == {}
      {
        var lane := new Lane(laneIds[i], eps);
        ls := ls + [lane];
      }
      this.eps := eps;
      lanes := ls;
    }

    /** Steps every lane exactly once with its own observation; nothing else changes. */
    method Step(obs: map<string, Observation>)
      requires Valid()
      requires forall i :: 0 <= i < |lanes| ==> lanes[i].id in obs
      modifies set l | l in lanes
      ensures forall i :: 0 <= i < |lanes| ==>
        && lanes[i].history == old(lanes[i].history) + [Record(old(lanes[i].prevVehicles), obs[lanes[i].id])]
        && lanes[i].prevVehicles == ToSet(obs[lanes[i].id].ids)
    {
      for i := 0 to |lanes|
        invariant forall j :: 0 <= j < i ==>
          && lanes[j].history == old(lanes[j].history) + [Record(old(lanes[j].prevVehicles), obs[lanes[j].id])]
          && lanes[j].prevVehicles == ToSet(obs[lanes[j].id].ids)
        invariant forall j :: i <= j < |lanes| ==>
          lanes[j].history == old(lanes[j].history) && lanes[j].prevVehicles == old(lanes[j].prevVehicles)
      {
        // distinct ids make the other lanes distinct objects, so they keep their state
        assert forall j :: 0 <= j < |lanes| && j != i ==> lanes[j].id != lanes[i].id;
        lanes[i].Step(obs[lanes[i].id]);
      }
    }

    /** The sensitivity of every lane, keyed by lane id. */
    function Alphas(): (r: map<string, real>)
      reads set l | l in lanes
      requires Valid()
      requires forall i :: 0 <= i < |lanes| ==> AlphaDefined(lanes[i].history, lanes[i].eps)
      ensures r.Keys == ToSet(Ids())
      ensures forall i :: 0 <= i < |lanes| ==> r[lanes[i].id] == AlphaOf(lanes[i].history, lanes[i].eps)
    {
      map i | 0 <= i < |lanes| :: lanes[i].id := lanes[i].Alpha()
    }

    /** The current state of every lane, keyed by lane id. */
    function State(): (r: map<string, LaneState>)
      reads set l | l in lanes
      requires Valid()
      requires forall i :: 0 <= i < |lanes| ==> lanes[i].history != []
      ensures r.Keys == ToSet(Ids())
      ensures forall i :: 0 <= i < |lanes| ==>
        r[lanes[i].id] == lanes[i].history[|lanes[i].history| - 1]
    {
      map i | 0 <= i < |lanes| :: lanes[i].id := lanes[i].CurState()
    }
  }
}
