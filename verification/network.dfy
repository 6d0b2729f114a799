/** Several intersections on one shared clock, and the corridor coordinator that
    biases their decisions towards a green wave along a set of corridor lanes. */
module Network {
  import opened Base
  import opened Arithmetic
  import opened Sums
  import opened Config
  import opened Entities
  import opened Observations
  import opened Policy
  import opened Simulator

  // ---------------------------------------------------------------- the network

  /** What the network records of one intersection per tick: its phase and queues. */
  datatype IntersectionSummary = IntersectionSummary(phase: string, queues: map<string, int>)

  /** One network history entry. */
  datatype NetworkSnapshot = NetworkSnapshot(time: int, intersections: map<string, IntersectionSummary>)

  /** Intersections by identifier, their clock offsets, the network clock and history. */
  datatype TrafficNetwork = TrafficNetwork(
    intersections: map<string, Intersection>,
    offsets: map<string, int>,
    time: int,
    history: seq<NetworkSnapshot>)

  /** Every intersection is well formed and can be jumped to a phase by name. */
  predicate Ready(net: TrafficNetwork)
  {
    forall id :: id in net.intersections ==>
      WellFormed(net.intersections[id]) && UniqueNames(net.intersections[id].phases)
  }

  /** `s` was taken at time `t` of the intersections `xs` as they stand: one summary per
      intersection, holding its current phase's name and every lane's queue. */
  predicate SnapshotOf(s: NetworkSnapshot, t: int, xs: map<string, Intersection>)
    requires forall id :: id in xs ==> 0 <= xs[id].index < |xs[id].phases|
  {
    && s.time == t
    && s.intersections.Keys == xs.Keys
    && forall id :: id in xs ==> s.intersections[id] == IntersectionSummary(CurrentPhase(xs[id]).name, Queues(xs[id].lanes))
  }

  /** Appends a snapshot of the network clock and of every intersection's current
      phase and queues; earlier entries stay as they were. */
  function RecordNetwork(net: TrafficNetwork): (r: TrafficNetwork)
    requires Ready(net)
    ensures r.intersections == net.intersections && r.offsets == net.offsets && r.time == net.time
    ensures |r.history| == |net.history| + 1 && r.history[..|net.history|] == net.history
    ensures SnapshotOf(r.history[|net.history|], net.time, net.intersections)
  {
    var summary := map id | id in net.intersections ::
      IntersectionSummary(CurrentPhase(net.intersections[id]).name, Queues(net.intersections[id].lanes));
    var r := net.(history := net.history + [NetworkSnapshot(net.time, summary)]);
    assert r.history[..|net.history|] == net.history;
    r
  }

  /** The position of the last layout carrying identifier `id`. */
  function LastLayoutWithId(layouts: seq<Layout>, id: string): (k: nat)
    requires exists k :: 0 <= k < |layouts| && layouts[k].id == id
    ensures k < |layouts| && layouts[k].id == id
    ensures forall k' :: k < k' < |layouts| ==> layouts[k'].id != id
  {
    if layouts[|layouts| - 1].id == id then |layouts| - 1
    else
      var init := layouts[..|layouts| - 1];
      assert exists k :: 0 <= k < |init| && init[k].id == id by {
        var k :| 0 <= k < |layouts| && layouts[k].id == id;
        assert init[k].id == id;
      }
      LastLayoutWithId(init, id)
  }

  /** The identifiers the layouts carry. */
  function LayoutIds(layouts: seq<Layout>): set<string>
  {
    set k | 0 <= k < |layouts| :: layouts[k].id
  }

  /** The intersections of a list of layouts, keyed by layout identifier; a later
      layout with the same identifier replaces an earlier one. */
  function BuildIntersections(layouts: seq<Layout>): (r: map<string, Intersection>)
    ensures r.Keys == LayoutIds(layouts)
    ensures forall id :: id in r <==> exists k :: 0 <= k < |layouts| && layouts[k].id == id
    ensures forall id :: id in r ==>
              exists k :: 0 <= k < |layouts| && layouts[k].id == id && r[id] == BuildIntersection(layouts[k])
                          && forall k' :: k < k' < |layouts| ==> layouts[k'].id != id
  {
    map id | id in LayoutIds(layouts) :: BuildIntersection(layouts[LastLayoutWithId(layouts, id)])
  }

  /** Offset zero for every identifier in `ids`, overridden by the supplied offsets. */
  function DefaultOffsets(ids: set<string>, offsets: map<string, int>): (m: map<string, int>)
    ensures m.Keys == ids + offsets.Keys
    ensures forall id :: id in m ==> m[id] == GetOrZero(offsets, id)
  {
    (map id | id in ids :: 0) + offsets
  }

  /** Builds every intersection and gives each an offset: zero unless the supplied
      offsets say otherwise. Supplied offsets for unknown identifiers are kept. */
  function BuildNetwork(layouts: seq<Layout>, offsets: map<string, int>): (r: TrafficNetwork)
    ensures r.intersections == BuildIntersections(layouts)
    ensures r.time == 0 && r.history == []
    ensures r.intersections.Keys <= r.offsets.Keys
    ensures r.offsets.Keys == r.intersections.Keys + offsets.Keys
    ensures forall id :: id in r.offsets ==> r.offsets[id] == GetOrZero(offsets, id)
  {
    var intersections := BuildIntersections(layouts);
    TrafficNetwork(intersections, DefaultOffsets(intersections.Keys, offsets), 0, [])
  }

  /** Some intersection the layouts build has no phases (a layout whose identifier a
      later layout reuses builds nothing, so its phases do not matter). */
  predicate SomeWithoutPhases(layouts: seq<Layout>)
  {
    exists id :: id in BuildIntersections(layouts) && BuildIntersections(layouts)[id].phases == []
  }

  /** When every layout has a phase, so does every intersection built from them. */
  lemma LayoutsWithPhases(layouts: seq<Layout>)
    requires forall k :: 0 <= k < |layouts| ==> |layouts[k].phases| > 0
    ensures !SomeWithoutPhases(layouts)
  {
    var m := BuildIntersections(layouts);
    forall id | id in m ensures m[id].phases != [] {
      var k := LastLayoutWithId(layouts, id);
      assert m[id] == BuildIntersection(layouts[k]);
    }
  }

  /** Building from layouts with distinct phase names gives a ready network exactly
      when every intersection built has a phase. */
  lemma BuildNetworkReady(layouts: seq<Layout>, offsets: map<string, int>)
    requires forall k :: 0 <= k < |layouts| ==> DistinctNames(layouts[k])
    ensures Ready(BuildNetwork(layouts, offsets)) <==> !SomeWithoutPhases(layouts)
  {
    var m := BuildIntersections(layouts);
    forall id | id in m && m[id].phases != []
      ensures WellFormed(m[id]) && UniqueNames(m[id].phases)
    {
      var k := LastLayoutWithId(layouts, id);
      assert m[id] == BuildIntersection(layouts[k]);
    }
  }

  /** A freshly built network has every clock at zero and every history empty. */
  lemma BuildNetworkFresh(layouts: seq<Layout>, offsets: map<string, int>)
    ensures forall id :: id in BuildNetwork(layouts, offsets).intersections ==>
              BuildNetwork(layouts, offsets).intersections[id].time == 0 &&
              BuildNetwork(layouts, offsets).intersections[id].history == []
  {
  }

  // ---------------------------------------------------------------- the coordinator

  /** The corridor's lanes, the signal cycle length and the green-band width. Its local
      controllers are all the default reference controller, which keeps no state. */
  datatype CoordinatedSignalManager = CoordinatedSignalManager(corridorLanes: set<string>, cycleLength: int, greenBand: int)

  /** Python's `a % n`: the remainder takes the sign of the divisor. */
  function PyMod(a: int, n: int): (r: int)
    requires n != 0
    ensures n > 0 ==> r == a % n && 0 <= r < n
    ensures n < 0 ==> n < r <= 0
  {
    var e := a % n;
    if n < 0 && e != 0 then e + n else e
  }

  /** The offset-adjusted network time falls inside the green band of the cycle. */
  predicate WithinGreenBand(c: CoordinatedSignalManager, networkTime: int, offset: int)
    requires c.cycleLength != 0
  {
    PyMod(networkTime + offset, c.cycleLength) < c.greenBand
  }

  /** The band repeats with the cycle. */
  lemma GreenBandPeriodic(c: CoordinatedSignalManager, t: int, offset: int)
    requires c.cycleLength > 0
    ensures WithinGreenBand(c, t + c.cycleLength, offset) <==> WithinGreenBand(c, t, offset)
  {
    ModShift(t + offset, c.cycleLength, 1);
  }

  /** From a tick where the cycle starts, the band is the first `greenBand` ticks of the cycle. */
  lemma GreenBandFromCycleStart(c: CoordinatedSignalManager, s: int, offset: int, j: int)
    requires c.cycleLength > 0 && (s + offset) % c.cycleLength == 0 && 0 <= j < c.cycleLength
    ensures WithinGreenBand(c, s + j, offset) <==> j < c.greenBand
  {
    ModAdvance(s + offset, c.cycleLength, j);
  }

  /** The number of ticks among `t0, ..., t0 + k - 1` inside the band. */
  function BandCount(c: CoordinatedSignalManager, offset: int, t0: int, k: nat): nat
    requires c.cycleLength != 0
  {
    if k == 0 then 0
    else BandCount(c, offset, t0, k - 1) + if WithinGreenBand(c, t0 + k - 1, offset) then 1 else 0
  }

  /** Counting through the part of the cycle before it wraps. */
  lemma {:induction false} BandCountBeforeWrap(c: CoordinatedSignalManager, offset: int, t0: int, k: nat)
    requires c.cycleLength > 0 && 0 <= c.greenBand <= c.cycleLength
    requires k <= c.cycleLength - (t0 + offset) % c.cycleLength
    ensures BandCount(c, offset, t0, k) == Min(k, Max(0, c.greenBand - (t0 + offset) % c.cycleLength))
  {
    if k > 0 {
      BandCountBeforeWrap(c, offset, t0, k - 1);
      ModAdvance(t0 + offset, c.cycleLength, k - 1);
    }
  }

  /** Counting on past the wrap, up to a whole cycle. */
  lemma {:induction false} BandCountAfterWrap(c: CoordinatedSignalManager, offset: int, t0: int, k: nat)
    requires c.cycleLength > 0 && 0 <= c.greenBand <= c.cycleLength
    requires c.cycleLength - (t0 + offset) % c.cycleLength <= k <= c.cycleLength
    ensures var r0 := (t0 + offset) % c.cycleLength;
            BandCount(c, offset, t0, k) == Max(0, c.greenBand - r0) + Min(k - (c.cycleLength - r0), c.greenBand)
    decreases k
  {
    var r0 := (t0 + offset) % c.cycleLength;
    if k == c.cycleLength - r0 {
      BandCountBeforeWrap(c, offset, t0, k);
    } else {
      BandCountAfterWrap(c, offset, t0, k - 1);
      ModAdvance(t0 + offset, c.cycleLength, k - 1);
    }
  }

  /** Green-band determinism: any `cycleLength` consecutive ticks contain exactly
      `greenBand` ticks inside the band. */
  lemma GreenBandCount(c: CoordinatedSignalManager, offset: int, t0: int)
    requires c.cycleLength > 0 && 0 <= c.greenBand <= c.cycleLength
    ensures BandCount(c, offset, t0, c.cycleLength) == c.greenBand
  {
    BandCountAfterWrap(c, offset, t0, c.cycleLength);
  }

  /** The band at its extremes. With a positive cycle a band of zero or less is never
      open and a band of a whole cycle or more is always open; with a negative cycle
      the remainder is at most zero, so any positive band is always open. */
  lemma GreenBandDegenerate(c: CoordinatedSignalManager, t: int, offset: int)
    requires c.cycleLength != 0
    ensures c.cycleLength > 0 && c.greenBand <= 0 ==> !WithinGreenBand(c, t, offset)
    ensures c.cycleLength > 0 && c.greenBand >= c.cycleLength ==> WithinGreenBand(c, t, offset)
    ensures c.cycleLength < 0 && c.greenBand > 0 ==> WithinGreenBand(c, t, offset)
    ensures c.cycleLength < 0 && c.greenBand <= c.cycleLength + 1 ==> !WithinGreenBand(c, t, offset)
  {
  }

  /** The phase serves at least one corridor lane. */
  predicate ServesCorridor(p: Phase, corridor: set<string>)
  {
    exists j :: 0 <= j < |p.lanes| && p.lanes[j] in corridor
  }

  /** The index of the first phase, in declaration order, serving a corridor lane. */
  function CorridorPhaseIndex(phases: seq<Phase>, corridor: set<string>): (r: Option<nat>)
    ensures r.Some? ==> r.value < |phases| && ServesCorridor(phases[r.value], corridor)
    ensures r.Some? ==> forall k :: 0 <= k < r.value ==> !ServesCorridor(phases[k], corridor)
    ensures r.None? <==> forall k :: 0 <= k < |phases| ==> !ServesCorridor(phases[k], corridor)
  {
    if |phases| == 0 then None
    else if ServesCorridor(phases[0], corridor) then Some(0)
    else
      match CorridorPhaseIndex(phases[1..], corridor)
      case None =>
        assert forall k :: 1 <= k < |phases| ==> phases[k] == phases[1..][k - 1];
        None
      case Some(k) =>
        assert forall k' :: 1 <= k' <= k ==> phases[k'] == phases[1..][k' - 1];
        Some(k + 1)
  }

  /** The name of the intersection's first corridor phase, if it has one. */
  function CorridorPhase(c: CoordinatedSignalManager, x: Intersection): (r: Option<string>)
    ensures r.Some? <==> CorridorPhaseIndex(x.phases, c.corridorLanes).Some?
    ensures r.Some? ==> r.value == x.phases[CorridorPhaseIndex(x.phases, c.corridorLanes).value].name
  {
    match CorridorPhaseIndex(x.phases, c.corridorLanes)
    case None => None
    case Some(k) => Some(x.phases[k].name)
  }

  /** Vehicles on corridor lanes, summed over every observation; a corridor lane an
      observation does not report counts as zero. */
  ghost function CorridorPressure(c: CoordinatedSignalManager, obs: map<string, DetectorObservation>): int
  {
    SumSet(obs.Keys, id => if id in obs then SumSet(c.corridorLanes, l => GetOrZero(obs[id].vehicles, l)) else 0)
  }

  /** Vehicles on every reported lane that is not a corridor lane, summed over every observation. */
  ghost function CrossPressure(c: CoordinatedSignalManager, obs: map<string, DetectorObservation>): int
  {
    SumSet(obs.Keys, id => if id in obs then SumSet(obs[id].vehicles.Keys - c.corridorLanes, l => GetOrZero(obs[id].vehicles, l)) else 0)
  }

  /** All reported vehicles, summed over every observation. */
  ghost function TotalVehicles(obs: map<string, DetectorObservation>): int
  {
    SumSet(obs.Keys, id => if id in obs then MapTotal(obs[id].vehicles) else 0)
  }

  /** The single network-wide flag: the corridor carries at least as many vehicles as
      everything else. */
  ghost predicate PrioritizeCorridor(c: CoordinatedSignalManager, obs: map<string, DetectorObservation>)
  {
    CorridorPressure(c, obs) >= CrossPressure(c, obs)
  }

  /** The two pressures split the observed vehicles: every reported vehicle is counted
      exactly once, on the corridor side or on the cross side. */
  lemma PressuresPartitionVehicles(c: CoordinatedSignalManager, obs: map<string, DetectorObservation>)
    ensures CorridorPressure(c, obs) + CrossPressure(c, obs) == TotalVehicles(obs)
  {
    var corridor := id => if id in obs then SumSet(c.corridorLanes, l => GetOrZero(obs[id].vehicles, l)) else 0;
    var cross := id => if id in obs then SumSet(obs[id].vehicles.Keys - c.corridorLanes, l => GetOrZero(obs[id].vehicles, l)) else 0;
    var total := id => if id in obs then MapTotal(obs[id].vehicles) else 0;
    forall id | id in obs.Keys
      ensures total(id) == corridor(id) + cross(id)
    {
      var v := obs[id].vehicles;
      var f := l => GetOrZero(v, l);
      SumSetDropZeros(c.corridorLanes, v.Keys, f);
      SumSetSplit(v.Keys, c.corridorLanes, f);
      assert c.corridorLanes * v.Keys == v.Keys * c.corridorLanes;
    }
    SumSetAdd(obs.Keys, corridor, cross, total);
  }

  /** The corridor gets priority exactly when it carries at least half of all reported vehicles. */
  lemma PrioritizeCorridorHalf(c: CoordinatedSignalManager, obs: map<string, DetectorObservation>)
    ensures PrioritizeCorridor(c, obs) <==> 2 * CorridorPressure(c, obs) >= TotalVehicles(obs)
  {
    PressuresPartitionVehicles(c, obs);
  }

  /** When no cross lane reports a vehicle and no count is negative, the corridor gets priority. */
  lemma IdleCrossPrioritizesCorridor(c: CoordinatedSignalManager, obs: map<string, DetectorObservation>)
    requires forall id, l :: id in obs && l in obs[id].vehicles ==> obs[id].vehicles[l] >= 0
    requires forall id, l :: id in obs && l in obs[id].vehicles && l !in c.corridorLanes ==> obs[id].vehicles[l] == 0
    ensures PrioritizeCorridor(c, obs)
  {
    var corridor := id => if id in obs then SumSet(c.corridorLanes, l => GetOrZero(obs[id].vehicles, l)) else 0;
    var cross := id => if id in obs then SumSet(obs[id].vehicles.Keys - c.corridorLanes, l => GetOrZero(obs[id].vehicles, l)) else 0;
    forall id | id in obs.Keys
      ensures corridor(id) >= 0 && cross(id) == 0
    {
      var v := obs[id].vehicles;
      SumSetNonNegative(c.corridorLanes, l => GetOrZero(v, l));
      SumSetZero(v.Keys - c.corridorLanes, l => GetOrZero(v, l));
    }
    SumSetNonNegative(obs.Keys, corridor);
    SumSetZero(obs.Keys, cross);
  }

  /** The coordinator consults the band for intersection `id` this tick: priority is
      on and the intersection has a corridor phase with a non-empty name (an empty
      name is false in the code's test). */
  ghost predicate Contested(c: CoordinatedSignalManager, net: TrafficNetwork, obs: map<string, DetectorObservation>, id: string)
    requires id in net.intersections
  {
    var target := CorridorPhase(c, net.intersections[id]);
    PrioritizeCorridor(c, obs) && target.Some? && target.value != ""
  }

  /** The coordinator overrides intersection `id` this tick: it consults the band and
      the offset-adjusted time is inside it. */
  ghost predicate Forced(c: CoordinatedSignalManager, net: TrafficNetwork, obs: map<string, DetectorObservation>, id: string)
    requires id in net.intersections
  {
    Contested(c, net, obs, id) && c.cycleLength != 0 && WithinGreenBand(c, net.time, GetOrZero(net.offsets, id))
  }

  /** With a zero cycle length, consulting the band divides by zero. */
  ghost predicate BandCheckFails(c: CoordinatedSignalManager, net: TrafficNetwork, obs: map<string, DetectorObservation>)
  {
    c.cycleLength == 0 && exists id :: id in net.intersections && Contested(c, net, obs, id)
  }

  /** Forced alignment: jump to the target phase unless it is already current. */
  function Align(x: Intersection, target: string): (r: Intersection)
    requires WellFormed(x) && UniqueNames(x.phases)
    requires exists k :: 0 <= k < |x.phases| && x.phases[k].name == target
    ensures WellFormed(r) && SameShape(x, r) && UniqueNames(r.phases)
    ensures CurrentPhase(r).name == target
    ensures r.time == x.time && r.history == x.history && r.lanes == x.lanes
    ensures CurrentPhase(x).name == target ==> r == x
    ensures CurrentPhase(x).name != target ==>
              && CurrentPhase(r).elapsed == 0
              && forall i :: 0 <= i < |x.phases| && i != r.index ==> r.phases[i] == x.phases[i]
  {
    if CurrentPhase(x).name != target then SetPhase(x, target) else x
  }

  /** The alignment step as the code is written: `set_phase` is not a method of the
      intersection, so any alignment that has to change the phase raises. */
  function AlignAsWritten(x: Intersection, target: string): (r: Result<Intersection>)
    requires WellFormed(x)
    ensures r.Failure? <==> CurrentPhase(x).name != target
    ensures r.Success? ==> r.value == x
  {
    if CurrentPhase(x).name != target then Failure(MissingMethod) else Success(x)
  }

  /** What one coordination round may do to intersection `id`: leave its layout, clock,
      history and lanes alone; when forced, put it on its corridor phase and hold,
      leaving it untouched when it is already there and otherwise restarting only the
      corridor phase's timer; when not forced, leave it untouched and return its local
      controller's decision. */
  ghost predicate CoordinatedAs(c: CoordinatedSignalManager, net: TrafficNetwork, obs: map<string, DetectorObservation>,
                                id: string, y: Intersection, d: ActuationDecision)
  {
    && Ready(net) && id in net.intersections && id in obs
    && var x := net.intersections[id];
       && WellFormed(y) && UniqueNames(y.phases)
       && SameShape(x, y) && y.time == x.time && y.history == x.history && y.lanes == x.lanes
       && (Forced(c, net, obs, id) ==>
             && CurrentPhase(y).name == CorridorPhase(c, x).value
             && y.index == CorridorPhaseIndex(x.phases, c.corridorLanes).value
             && d == Hold
             && (CurrentPhase(x).name == CorridorPhase(c, x).value ==> y == x)
             && (CurrentPhase(x).name != CorridorPhase(c, x).value ==>
                   && CurrentPhase(y).elapsed == 0
                   && forall i :: 0 <= i < |x.phases| && i != y.index ==> y.phases[i] == x.phases[i]))
       && (!Forced(c, net, obs, id) ==> y == x && Decide(DefaultController, x, obs[id]) == Success(d))
  }

  /** What the coordinator does with one intersection whose observation is at hand:
      force it onto its corridor phase and hold, or leave it alone and return its
      local reference controller's decision. */
  ghost function Coordinate(c: CoordinatedSignalManager, net: TrafficNetwork, obs: map<string, DetectorObservation>, id: string)
    : (r: (Intersection, ActuationDecision))
    requires Ready(net) && id in net.intersections && id in obs
    requires Forced(c, net, obs, id) || Decide(DefaultController, net.intersections[id], obs[id]).Success?
    ensures CoordinatedAs(c, net, obs, id, r.0, r.1)
  {
    var x := net.intersections[id];
    if Forced(c, net, obs, id) then
      var k := CorridorPhaseIndex(x.phases, c.corridorLanes).value;
      var y := Align(x, x.phases[k].name);
      assert UniqueNames(y.phases) by {
        forall i, j | 0 <= i < j < |y.phases| ensures y.phases[i].name != y.phases[j].name {
          assert x.phases[i].name != x.phases[j].name;
        }
      }
      (y, Hold)
    else
      (x, Decide(DefaultController, x, obs[id]).value)
  }

  /** The coordinator hands intersection `id` to its local controller: it does not
      consult the band, or it consults it with a non-zero cycle length and the time is
      outside it. A contested intersection with a zero cycle length is neither forced
      nor handed on: the band check raises first. */
  ghost predicate Delegated(c: CoordinatedSignalManager, net: TrafficNetwork, obs: map<string, DetectorObservation>, id: string)
    requires id in net.intersections
  {
    !Contested(c, net, obs, id) || (c.cycleLength != 0 && !WithinGreenBand(c, net.time, GetOrZero(net.offsets, id)))
  }

  /** Some intersection the coordinator hands to its local controller has an
      observation missing a lane of its current phase. */
  ghost predicate LocalLookupFails(c: CoordinatedSignalManager, net: TrafficNetwork, obs: map<string, DetectorObservation>)
    requires Ready(net)
  {
    exists id :: id in net.intersections && id in obs && Delegated(c, net, obs, id)
                 && Decide(DefaultController, net.intersections[id], obs[id]).Failure?
  }

  /** Every intersection coordinated on its own, with the decision that goes with it. */
  ghost function CoordinatePairs(c: CoordinatedSignalManager, net: TrafficNetwork, obs: map<string, DetectorObservation>)
    : (r: map<string, (Intersection, ActuationDecision)>)
    requires Ready(net)
    requires net.intersections.Keys <= obs.Keys && !LocalLookupFails(c, net, obs) && !BandCheckFails(c, net, obs)
    ensures r.Keys == net.intersections.Keys
  {
    map id | id in net.intersections :: (LocalLookupSucceeds(c, net, obs, id); Coordinate(c, net, obs, id))
  }

  /** Each pair is what coordinating its intersection allows. */
  lemma CoordinatePairsCoordinated(c: CoordinatedSignalManager, net: TrafficNetwork, obs: map<string, DetectorObservation>, id: string)
    requires Ready(net)
    requires net.intersections.Keys <= obs.Keys && !LocalLookupFails(c, net, obs) && !BandCheckFails(c, net, obs)
    requires id in net.intersections
    ensures CoordinatedAs(c, net, obs, id, CoordinatePairs(c, net, obs)[id].0, CoordinatePairs(c, net, obs)[id].1)
  {
    LocalLookupSucceeds(c, net, obs, id);
    var p := Coordinate(c, net, obs, id);
    assert CoordinatePairs(c, net, obs)[id] == p;
  }

  /** Without a failing local lookup, every intersection is forced or decided locally. */
  lemma LocalLookupSucceeds(c: CoordinatedSignalManager, net: TrafficNetwork, obs: map<string, DetectorObservation>, id: string)
    requires Ready(net) && id in net.intersections && id in obs
    requires !LocalLookupFails(c, net, obs) && !BandCheckFails(c, net, obs)
    ensures Forced(c, net, obs, id) || Decide(DefaultController, net.intersections[id], obs[id]).Success?
  {
    if !Forced(c, net, obs, id) && Contested(c, net, obs, id) {
      assert c.cycleLength != 0;
    }
  }

  /** The coordination round once every lookup is known to succeed: each intersection
      coordinated on its own, the rest of the network unchanged. */
  ghost function CoordinateAll(c: CoordinatedSignalManager, net: TrafficNetwork, obs: map<string, DetectorObservation>)
    : (r: (TrafficNetwork, map<string, ActuationDecision>))
    requires Ready(net)
    requires net.intersections.Keys <= obs.Keys && !LocalLookupFails(c, net, obs) && !BandCheckFails(c, net, obs)
    ensures Ready(r.0)
    ensures r.0.offsets == net.offsets && r.0.time == net.time && r.0.history == net.history
    ensures r.0.intersections.Keys == net.intersections.Keys && r.1.Keys == net.intersections.Keys
    ensures forall id :: id in net.intersections ==> CoordinatedAs(c, net, obs, id, r.0.intersections[id], r.1[id])
  {
    var pairs := CoordinatePairs(c, net, obs);
    var r := net.(intersections := map id | id in pairs :: pairs[id].0);
    var decisions := map id | id in pairs :: pairs[id].1;
    assert forall id :: id in net.intersections ==> CoordinatedAs(c, net, obs, id, r.intersections[id], decisions[id]) by {
      forall id | id in net.intersections ensures CoordinatedAs(c, net, obs, id, r.intersections[id], decisions[id]) {
        CoordinatePairsCoordinated(c, net, obs, id);
      }
    }
    (r, decisions)
  }

  /** One coordination round. Looks up every intersection's observation, then either
      forces it onto its corridor phase and holds, or asks its local reference
      controller. Missing observations or a local controller's failed lookup fail the
      call with a missing key; a band consulted with a zero cycle length fails it with
      a division by zero. When both happen, which is raised first depends on the
      order of the intersections. */
  ghost function SyncAndDecide(c: CoordinatedSignalManager, net: TrafficNetwork, obs: map<string, DetectorObservation>)
    : (r: Result<(TrafficNetwork, map<string, ActuationDecision>)>)
    requires Ready(net)
    ensures r.Failure? <==>
              !(net.intersections.Keys <= obs.Keys) || LocalLookupFails(c, net, obs) || BandCheckFails(c, net, obs)
    ensures r.Failure? ==>
              || (r.error == MissingKey && (!(net.intersections.Keys <= obs.Keys) || LocalLookupFails(c, net, obs)))
              || (r.error == DivisionByZero && BandCheckFails(c, net, obs))
    ensures r.Success? ==>
              && Ready(r.value.0)
              && r.value.0.offsets == net.offsets && r.value.0.time == net.time && r.value.0.history == net.history
              && r.value.0.intersections.Keys == net.intersections.Keys
              && r.value.1.Keys == net.intersections.Keys
    ensures r.Success? ==> forall id :: id in net.intersections ==>
              CoordinatedAs(c, net, obs, id, r.value.0.intersections[id], r.value.1[id])
  {
    if !(net.intersections.Keys <= obs.Keys) || LocalLookupFails(c, net, obs) then Failure(MissingKey)
    else if BandCheckFails(c, net, obs) then Failure(DivisionByZero)
    else Success(CoordinateAll(c, net, obs))
  }

  // ---------------------------------------------------------------- the network loop

  /** Demand injected into every intersection, each with its own draws. */
  function InjectAll(net: TrafficNetwork, draws: string -> LaneDraws): (r: TrafficNetwork)
    requires Ready(net)
    ensures Ready(r) && r.offsets == net.offsets && r.time == net.time && r.history == net.history
    ensures r.intersections.Keys == net.intersections.Keys
    ensures forall id :: id in net.intersections ==> r.intersections[id] == InjectDemand(net.intersections[id], draws(id))
  {
    net.(intersections := map id | id in net.intersections :: InjectDemand(net.intersections[id], draws(id)))
  }

  /** The observation of every intersection, keyed by identifier. */
  function ObserveAll(net: TrafficNetwork): (obs: map<string, DetectorObservation>)
    ensures obs.Keys == net.intersections.Keys
    ensures forall id :: id in obs ==> obs[id] == CaptureObservations(net.intersections[id])
  {
    map id | id in net.intersections :: CaptureObservations(net.intersections[id])
  }

  /** Observations captured from the network itself never make a lookup fail: the
      round fails only by consulting the band with a zero cycle length. */
  lemma CapturedNetworkSucceeds(c: CoordinatedSignalManager, net: TrafficNetwork)
    requires Ready(net)
    ensures !LocalLookupFails(c, net, ObserveAll(net))
    ensures SyncAndDecide(c, net, ObserveAll(net)).Success? <==> !BandCheckFails(c, net, ObserveAll(net))
  {
    var obs := ObserveAll(net);
    forall id | id in net.intersections
      ensures Decide(DefaultController, net.intersections[id], obs[id]).Success?
    {
      CapturedObservationSuffices(DefaultController, net.intersections[id]);
    }
  }

  /** Switches exactly the intersections whose decision says so. */
  function ApplySwitches(net: TrafficNetwork, decisions: map<string, ActuationDecision>): (r: TrafficNetwork)
    requires Ready(net)
    ensures Ready(r) && r.offsets == net.offsets && r.time == net.time && r.history == net.history
    ensures r.intersections.Keys == net.intersections.Keys
    ensures forall id :: id in net.intersections ==>
              r.intersections[id] == if id in decisions && decisions[id].switchPhase
                                     then SwitchPhase(net.intersections[id]) else net.intersections[id]
    ensures Advanced(net.intersections, r.intersections, 0)
  {
    var r := net.(intersections := map id | id in net.intersections ::
                    if id in decisions && decisions[id].switchPhase
                    then SwitchPhase(net.intersections[id]) else net.intersections[id]);
    assert Ready(r) by {
      forall id | id in r.intersections
        ensures WellFormed(r.intersections[id]) && UniqueNames(r.intersections[id].phases)
      {
        SameShapeUniqueNames(net.intersections[id], r.intersections[id]);
      }
    }
    r
  }

  /** Discharges, records and ticks every intersection, each exactly as a lone
      intersection completes its tick; the network stays ready. */
  function CompleteAll(net: TrafficNetwork): (r: TrafficNetwork)
    requires Ready(net)
    ensures Ready(r) && r.offsets == net.offsets && r.time == net.time && r.history == net.history
    ensures r.intersections.Keys == net.intersections.Keys
    ensures forall id :: id in net.intersections ==> r.intersections[id] == CompleteTick(net.intersections[id])
  {
    var r := net.(intersections := map id | id in net.intersections :: CompleteTick(net.intersections[id]));
    assert Ready(r) by {
      forall id | id in r.intersections
        ensures WellFormed(r.intersections[id]) && UniqueNames(r.intersections[id].phases)
      {
        SameShapeUniqueNames(net.intersections[id], r.intersections[id]);
      }
    }
    r
  }

  /** `after` holds every intersection of `before`, switched when `decisions` says so,
      then discharged, recorded and ticked exactly as a lone intersection is. */
  ghost predicate Completed(before: map<string, Intersection>, decisions: map<string, ActuationDecision>,
                            after: map<string, Intersection>)
  {
    forall id :: id in before ==>
      && id in after && WellFormed(before[id])
      && after[id] == CompleteTick(if id in decisions && decisions[id].switchPhase
                                   then SwitchPhase(before[id]) else before[id])
  }

  /** Completing the tick moves every intersection's clock and history on by one and
      keeps every intersection on its phase. */
  lemma CompleteAllAdvances(net: TrafficNetwork)
    requires Ready(net)
    ensures Advanced(net.intersections, CompleteAll(net).intersections, 1)
    ensures forall id :: id in net.intersections ==>
              CurrentPhase(CompleteAll(net).intersections[id]).name == CurrentPhase(net.intersections[id]).name
  {
  }

  /** Every intersection of `before` is in `after`, its clock and its history `n` ticks further on. */
  predicate Advanced(before: map<string, Intersection>, after: map<string, Intersection>, n: int)
  {
    forall id :: id in before ==>
      && id in after
      && after[id].time == before[id].time + n
      && |after[id].history| == |before[id].history| + n
  }

  /** Every intersection's clock reads `n` and its history holds `n` entries. */
  predicate AllAt(m: map<string, Intersection>, n: int)
  {
    forall id :: id in m ==> m[id].time == n && |m[id].history| == n
  }

  /** Advancing `n` ticks from all clocks at zero leaves all clocks at `n`. */
  lemma AdvancedFromStart(before: map<string, Intersection>, after: map<string, Intersection>, n: int)
    requires AllAt(before, 0) && Advanced(before, after, n) && after.Keys == before.Keys
    ensures AllAt(after, n)
  {
  }

  /** Advancing twice advances by the sum. */
  lemma AdvancedTransitive(a: map<string, Intersection>, b: map<string, Intersection>, c: map<string, Intersection>, m: int, n: int)
    requires Advanced(a, b, m) && Advanced(b, c, n)
    ensures Advanced(a, c, m + n)
  {
  }

  /** `after` is `before` followed by `n` snapshots stamped `t`, `t + 1`, ... */
  predicate Stamped(before: seq<NetworkSnapshot>, after: seq<NetworkSnapshot>, t: int, n: nat)
  {
    && |after| == |before| + n
    && after[..|before|] == before
    && forall i :: |before| <= i < |after| ==> after[i].time == t + (i - |before|)
  }

  /** `after` is `before` run forward `n` ticks: still ready, with the same offsets and
      intersections; the network clock, every intersection's clock and every history
      have moved on by `n`, and the new network snapshots are stamped consecutively
      from `before`'s clock. */
  predicate RanTicks(before: TrafficNetwork, after: TrafficNetwork, n: nat)
  {
    && Ready(after) && after.offsets == before.offsets
    && after.intersections.Keys == before.intersections.Keys
    && after.time == before.time + n
    && Stamped(before.history, after.history, before.time, n)
    && Advanced(before.intersections, after.intersections, n)
  }

  /** Snapshots stamped from tick zero onto an empty history are stamped with their positions. */
  lemma StampedFromStart(after: seq<NetworkSnapshot>, n: nat)
    requires Stamped([], after, 0, n)
    ensures |after| == n && forall i :: 0 <= i < |after| ==> after[i].time == i
  {
  }

  /** Appending `m` stamped snapshots and then `n` more appends `m + n` stamped snapshots. */
  lemma StampedTransitive(a: seq<NetworkSnapshot>, b: seq<NetworkSnapshot>, c: seq<NetworkSnapshot>, t: int, m: nat, n: nat)
    requires Stamped(a, b, t, m) && Stamped(b, c, t + m, n)
    ensures Stamped(a, c, t, m + n)
  {
    assert c[..|a|] == c[..|b|][..|a|];
    forall i | |a| <= i < |b| ensures c[i].time == t + (i - |a|) {
      assert c[i] == c[..|b|][i];
    }
  }

  /** Running `m` ticks and then `n` more is running `m + n` ticks. */
  lemma RanTicksTransitive(a: TrafficNetwork, b: TrafficNetwork, c: TrafficNetwork, m: nat, n: nat)
    requires RanTicks(a, b, m) && RanTicks(b, c, n)
    ensures RanTicks(a, c, m + n)
  {
    StampedTransitive(a.history, b.history, c.history, a.time, m, n);
    AdvancedTransitive(a.intersections, b.intersections, c.intersections, m, n);
  }

  /** The coordination half of a network tick: demand into every intersection, one
      observation each, and a coordination round on them, which fails only by
      consulting the band with a zero cycle length. A forced intersection ends the
      round on its corridor phase with a hold. */
  ghost function CoordinateTick(c: CoordinatedSignalManager, net: TrafficNetwork, draws: string -> LaneDraws)
    : (r: Result<(TrafficNetwork, map<string, ActuationDecision>)>)
    requires Ready(net)
    ensures r.Failure? ==> c.cycleLength == 0 && r.error == DivisionByZero
    ensures r.Success? ==>
              && Ready(r.value.0) && r.value.0.offsets == net.offsets
              && r.value.0.time == net.time && r.value.0.history == net.history
    ensures r.Success? ==> r.value.0.intersections.Keys == net.intersections.Keys && r.value.1.Keys == net.intersections.Keys
    ensures r.Success? ==> Advanced(net.intersections, r.value.0.intersections, 0)
    ensures r.Success? ==>
              forall id :: id in net.intersections && Forced(c, InjectAll(net, draws), ObserveAll(InjectAll(net, draws)), id) ==>
                && CurrentPhase(r.value.0.intersections[id]).name == CorridorPhase(c, net.intersections[id]).value
                && r.value.1[id] == Hold
  {
    var arrived := InjectAll(net, draws);
    CapturedNetworkSucceeds(c, arrived);
    SyncAndDecide(c, arrived, ObserveAll(arrived))
  }

  /** The switches the round asked for, then discharge, record and tick in every
      intersection. An intersection told to hold keeps its phase. */
  function SwitchAndComplete(net: TrafficNetwork, decisions: map<string, ActuationDecision>): (r: TrafficNetwork)
    requires Ready(net)
    ensures Ready(r) && r.offsets == net.offsets && r.time == net.time && r.history == net.history
    ensures r.intersections.Keys == net.intersections.Keys
    ensures Advanced(net.intersections, r.intersections, 1)
    ensures forall id :: id in net.intersections && !(id in decisions && decisions[id].switchPhase) ==>
              CurrentPhase(r.intersections[id]).name == CurrentPhase(net.intersections[id]).name
    ensures Completed(net.intersections, decisions, r.intersections)
  {
    var switched := ApplySwitches(net, decisions);
    var completed := CompleteAll(switched);
    CompleteAllAdvances(switched);
    AdvancedTransitive(net.intersections, switched.intersections, completed.intersections, 0, 1);
    completed
  }

  /** The second half of a network tick: the switches the round asked for, then
      discharge, record and tick everywhere, a network snapshot, and the clock
      advanced. An intersection told to hold keeps its phase. */
  function FinishTick(net: TrafficNetwork, decisions: map<string, ActuationDecision>): (r: TrafficNetwork)
    requires Ready(net)
    ensures Ready(r) && r.offsets == net.offsets && r.intersections.Keys == net.intersections.Keys
    ensures r.time == net.time + 1
    ensures Stamped(net.history, r.history, net.time, 1)
    ensures Advanced(net.intersections, r.intersections, 1)
    ensures forall id :: id in net.intersections && !(id in decisions && decisions[id].switchPhase) ==>
              CurrentPhase(r.intersections[id]).name == CurrentPhase(net.intersections[id]).name
    ensures Completed(net.intersections, decisions, r.intersections)
    ensures SnapshotOf(r.history[|net.history|], net.time, r.intersections)
  {
    var recorded := RecordNetwork(SwitchAndComplete(net, decisions));
    recorded.(time := recorded.time + 1)
  }

  /** One network tick: demand into every intersection, one observation each, a
      coordination round, the switches it asked for, then discharge, record and tick
      everywhere, a network snapshot, and the network clock advanced. Only a zero
      cycle length can make it fail. */
  ghost function NetworkStep(c: CoordinatedSignalManager, net: TrafficNetwork, draws: string -> LaneDraws)
    : (r: Result<TrafficNetwork>)
    requires Ready(net)
    ensures r.Failure? ==> c.cycleLength == 0 && r.error == DivisionByZero
    ensures r.Success? ==> RanTicks(net, r.value, 1)
    ensures r.Success? ==>
              var round := CoordinateTick(c, net, draws);
              round.Success? && Completed(round.value.0.intersections, round.value.1, r.value.intersections)
    ensures r.Success? ==> SnapshotOf(r.value.history[|net.history|], net.time, r.value.intersections)
  {
    match CoordinateTick(c, net, draws)
    case Failure(e) => Failure(e)
    case Success(coordinated) =>
      var r := FinishTick(coordinated.0, coordinated.1);
      AdvancedTransitive(net.intersections, coordinated.0.intersections, r.intersections, 0, 1);
      Success(r)
  }

  /** An intersection the coordinator forces in a tick ends that tick, discharged and
      recorded, still on its corridor phase. */
  lemma NetworkStepKeepsCorridor(c: CoordinatedSignalManager, net: TrafficNetwork, draws: string -> LaneDraws, id: string)
    requires Ready(net) && id in net.intersections
    requires Forced(c, InjectAll(net, draws), ObserveAll(InjectAll(net, draws)), id)
    ensures NetworkStep(c, net, draws).Success?
    ensures CurrentPhase(NetworkStep(c, net, draws).value.intersections[id]).name == CorridorPhase(c, net.intersections[id]).value
  {
    var coordinated := CoordinateTick(c, net, draws);
    assert coordinated.Success?;
    assert NetworkStep(c, net, draws) == Success(FinishTick(coordinated.value.0, coordinated.value.1));
  }

  /** Runs one network tick per entry of `draws`, stopping at the first failure. The
      network clock, every intersection's clock and every history move forward
      together, one per tick. */
  ghost function RunNetworkFrom(c: CoordinatedSignalManager, net: TrafficNetwork, draws: seq<string -> LaneDraws>)
    : (r: Result<TrafficNetwork>)
    requires Ready(net)
    ensures r.Failure? ==> |draws| > 0 && c.cycleLength == 0 && r.error == DivisionByZero
    ensures r.Success? ==> RanTicks(net, r.value, |draws|)
    decreases |draws|
  {
    if |draws| == 0 then
      assert net.history[..|net.history|] == net.history;
      Success(net)
    else
      match NetworkStep(c, net, draws[0])
      case Failure(e) => Failure(e)
      case Success(next) =>
        var r := RunNetworkFrom(c, next, draws[1..]);
        if r.Success? then
          RanTicksTransitive(net, next, r.value, 1, |draws| - 1);
          r
        else r
  }

  /** The network a run starts from: built from the layouts, ready, every clock at
      zero and every history empty. */
  function StartNetwork(layouts: seq<Layout>, offsets: map<string, int>): (net: TrafficNetwork)
    requires forall k :: 0 <= k < |layouts| ==> DistinctNames(layouts[k])
    requires !SomeWithoutPhases(layouts)
    ensures Ready(net) && net.time == 0 && net.history == []
    ensures net.intersections.Keys == LayoutIds(layouts) && net.intersections.Keys <= net.offsets.Keys
    ensures AllAt(net.intersections, 0)
  {
    BuildNetworkReady(layouts, offsets);
    BuildNetworkFresh(layouts, offsets);
    BuildNetwork(layouts, offsets)
  }

  /** A run of the network the layouts build, when every intersection has a phase:
      only a zero cycle length can make it fail. */
  ghost function RunBuiltNetwork(layouts: seq<Layout>, c: CoordinatedSignalManager,
                                 draws: seq<string -> LaneDraws>, offsets: map<string, int>)
    : (r: Result<TrafficNetwork>)
    requires forall k :: 0 <= k < |layouts| ==> DistinctNames(layouts[k])
    requires !SomeWithoutPhases(layouts)
    ensures r.Failure? ==> |draws| > 0 && c.cycleLength == 0 && r.error == DivisionByZero
    ensures r.Success? ==>
              && r.value.intersections.Keys == LayoutIds(layouts)
              && r.value.time == |draws| && |r.value.history| == |draws|
              && (forall i :: 0 <= i < |r.value.history| ==> r.value.history[i].time == i)
              && AllAt(r.value.intersections, |draws|)
              && r.value.intersections.Keys <= r.value.offsets.Keys
  {
    var net := StartNetwork(layouts, offsets);
    match RunNetworkFrom(c, net, draws)
    case Failure(e) => Failure(e)
    case Success(r) =>
      StampedFromStart(r.history, |draws|);
      AdvancedFromStart(net.intersections, r.intersections, |draws|);
      Success(r)
  }

  /** Builds the network from its layouts and offsets and runs one tick per entry of
      `draws`. An intersection without phases makes the first tick fail, and so can a
      zero cycle length. Otherwise the network clock and every intersection's clock
      end at the number of ticks, every history has one entry per tick, and the
      network history is stamped 0, 1, 2, ... */
  ghost function RunNetworkSimulation(layouts: seq<Layout>, c: CoordinatedSignalManager,
                                      draws: seq<string -> LaneDraws>, offsets: map<string, int>)
    : (r: Result<TrafficNetwork>)
    requires forall k :: 0 <= k < |layouts| ==> DistinctNames(layouts[k])
    ensures |draws| > 0 && SomeWithoutPhases(layouts) ==> r.Failure?
    ensures r.Failure? ==> |draws| > 0 && (SomeWithoutPhases(layouts) || c.cycleLength == 0)
    ensures r.Failure? ==>
              || (r.error == IndexOutOfRange && SomeWithoutPhases(layouts))
              || (r.error == DivisionByZero && c.cycleLength == 0)
    ensures r.Success? ==>
              && r.value.intersections.Keys == LayoutIds(layouts)
              && r.value.time == |draws| && |r.value.history| == |draws|
              && (forall i :: 0 <= i < |r.value.history| ==> r.value.history[i].time == i)
              && AllAt(r.value.intersections, |draws|)
              && r.value.intersections.Keys <= r.value.offsets.Keys
  {
    if !SomeWithoutPhases(layouts) then RunBuiltNetwork(layouts, c, draws, offsets)
    else if |draws| == 0 then
      BuildNetworkFresh(layouts, offsets);
      Success(BuildNetwork(layouts, offsets))
    else Failure(IndexOutOfRange)
  }

}
