/** The single-intersection simulator: building an intersection from its layout,
    injecting demand, capturing observations, discharging the green lanes, and the
    per-tick loop that composes them with a controller. The random draws of the
    demand step are inputs (`LaneDraws`), so every run is a function of its inputs. */
module Simulator {
  import opened Base
  import opened Config
  import opened Entities
  import opened Observations
  import opened Policy

  /** Vehicles a green lane discharges per tick when the caller does not say. */
  const DefaultSaturationFlow := 5

  /** One tick's random draws for one intersection: the integer Gaussian draw of
      arriving vehicles per lane (before it is floored at zero), and whether the
      uniform draw for a lane fell below the crossing rate. */
  datatype LaneDraws = LaneDraws(arrival: string -> int, crossing: string -> bool)

  /** Every lane served by some phase of the layout. */
  function LayoutLanes(phases: seq<PhaseConfig>): set<string>
  {
    set i, j | 0 <= i < |phases| && 0 <= j < |phases[i].lanes| :: phases[i].lanes[j]
  }

  /** Builds the intersection a layout describes: one empty lane per lane any phase
      serves, the phases in layout order with their timers at zero, the first phase
      current, the clock at zero and no history. */
  function BuildIntersection(layout: Layout): (r: Intersection)
    ensures r.layoutId == layout.id && r.index == 0 && r.time == 0 && r.history == []
    ensures |r.phases| == |layout.phases|
    ensures forall i :: 0 <= i < |layout.phases| ==>
              r.phases[i] == Phase(layout.phases[i].name, layout.phases[i].lanes,
                                   layout.phases[i].minGreen, layout.phases[i].maxGreen, 0)
    ensures forall i, j :: 0 <= i < |layout.phases| && 0 <= j < |layout.phases[i].lanes| ==>
              layout.phases[i].lanes[j] in r.lanes
    ensures r.lanes.Keys == LayoutLanes(layout.phases)
    ensures forall l :: l in r.lanes ==> r.lanes[l] == Lane(0, 0)
    ensures |layout.phases| > 0 ==> WellFormed(r)
    ensures DistinctNames(layout) ==> UniqueNames(r.phases)
  {
    var ps := layout.phases;
    var lanes := map l | l in LayoutLanes(ps) :: Lane(0, 0);
    var phases := seq(|ps|, i requires 0 <= i < |ps| =>
                        Phase(ps[i].name, ps[i].lanes, ps[i].minGreen, ps[i].maxGreen, 0));
    Intersection(layout.id, phases, lanes, 0, 0, [])
  }

  /** A layout the loader accepts, with the assumptions the engine makes of it, builds a
      well-formed intersection with distinct phase names and no lane twice in a phase,
      in which every phase, fresh, must still be extended: nothing can cut a phase off
      before it has been green for the loader's floor of five ticks. */
  lemma BuildValidLayout(layout: Layout)
    requires ValidLayout(layout)
    ensures var x := BuildIntersection(layout);
            && WellFormed(x) && UniqueNames(x.phases)
            && forall i :: 0 <= i < |x.phases| ==>
                 && Distinct(x.phases[i].lanes)
                 && x.phases[i].minGreen >= MinimumGreenFloor
                 && MustExtend(x.phases[i]) && CanExtend(x.phases[i])
  {
    var x := BuildIntersection(layout);
    forall i | 0 <= i < |x.phases|
      ensures && Distinct(x.phases[i].lanes)
              && x.phases[i].minGreen >= MinimumGreenFloor
              && MustExtend(x.phases[i]) && CanExtend(x.phases[i])
    {
      assert LoaderAccepts(layout.phases[i]);
      assert x.phases[i].lanes == layout.phases[i].lanes;
    }
  }

  /** Adds each lane's arrivals, the draw floored at zero. */
  function SimulateArrivals(lanes: map<string, Lane>, arrival: string -> int): (r: map<string, Lane>)
    ensures r.Keys == lanes.Keys
    ensures forall l :: l in lanes ==>
              && r[l].queue >= lanes[l].queue
              && r[l].pedestrians == lanes[l].pedestrians
              && (lanes[l].queue >= 0 ==> r[l].queue == lanes[l].queue + Max(0, arrival(l)))
  {
    map l | l in lanes :: AddVehicle(lanes[l], Max(0, arrival(l)))
  }

  /** Adds one pedestrian to each lane whose crossing draw came up. */
  function SimulatePedestrians(lanes: map<string, Lane>, crossing: string -> bool): (r: map<string, Lane>)
    ensures r.Keys == lanes.Keys
    ensures forall l :: l in lanes ==>
              && r[l].queue == lanes[l].queue
              && (r[l].pedestrians == lanes[l].pedestrians + 1 <==> crossing(l))
              && (r[l].pedestrians == lanes[l].pedestrians <==> !crossing(l))
  {
    map l | l in lanes :: lanes[l].(pedestrians := lanes[l].pedestrians + if crossing(l) then 1 else 0)
  }

  /** Arrivals then pedestrians, on every lane of the intersection. */
  function InjectDemand(x: Intersection, d: LaneDraws): (r: Intersection)
    requires WellFormed(x)
    ensures WellFormed(r) && SameShape(x, r)
    ensures r.index == x.index && r.phases == x.phases && r.time == x.time && r.history == x.history
    ensures forall l :: l in x.lanes ==>
              && r.lanes[l].queue >= x.lanes[l].queue
              && (x.lanes[l].queue >= 0 ==> r.lanes[l].queue == x.lanes[l].queue + Max(0, d.arrival(l)))
              && r.lanes[l].pedestrians - x.lanes[l].pedestrians == (if d.crossing(l) then 1 else 0)
  {
    var r := x.(lanes := SimulatePedestrians(SimulateArrivals(x.lanes, d.arrival), d.crossing));
    SameShapeWellFormed(x, r);
    r
  }

  /** Reads the lane counts into an observation, changing nothing. */
  function CaptureObservations(x: Intersection): (o: DetectorObservation)
    ensures o.vehicles.Keys == x.lanes.Keys && o.pedestrians.Keys == x.lanes.Keys
    ensures forall l :: l in x.lanes ==> o.vehicles[l] == x.lanes[l].queue && o.pedestrians[l] == x.lanes[l].pedestrians
  {
    DetectorObservation(Queues(x.lanes), Pedestrians(x.lanes))
  }

  /** A captured observation has an entry for every lane of every phase, so the
      reference controller never fails on it. */
  lemma CapturedObservationSuffices(c: DemandResponsiveController, x: Intersection)
    requires WellFormed(x)
    ensures Decide(c, x, CaptureObservations(x)).Success?
  {
    var o := CaptureObservations(x);
    assert Covers(o.vehicles, CurrentPhase(x).lanes) by {
      forall j | 0 <= j < |CurrentPhase(x).lanes| ensures CurrentPhase(x).lanes[j] in o.vehicles {
        assert x.phases[x.index].lanes[j] in x.lanes;
      }
    }
  }

  /** Discharges the listed lanes in order, each up to `flow` vehicles, recording per
      lane the amount removed (a lane listed twice is discharged twice and keeps the
      second amount). */
  function DischargeLanes(lanes: map<string, Lane>, ids: seq<string>, flow: int): (r: (map<string, Lane>, map<string, int>))
    requires forall j :: 0 <= j < |ids| ==> ids[j] in lanes
    ensures r.0.Keys == lanes.Keys
    ensures forall l :: l in r.1 <==> l in ids
    ensures forall l :: l in lanes && l !in ids ==> r.0[l] == lanes[l]
    ensures forall l :: l in lanes ==> r.0[l].pedestrians == lanes[l].pedestrians
    ensures forall l :: l in r.1 ==> r.1[l] <= flow
    decreases |ids|
  {
    if |ids| == 0 then (lanes, map[])
    else
      var id := ids[|ids| - 1];
      var prefix := ids[..|ids| - 1];
      assert forall l :: l in ids ==> l in prefix || l == id;
      var before := DischargeLanes(lanes, prefix, flow);
      var cleared := ClearWithCapacity(before.0[id], flow);
      (before.0[id := cleared.0], before.1[id := cleared.1])
  }

  /** With a non-negative flow, discharge keeps every queue non-negative and removes a
      non-negative amount. */
  lemma {:induction false} DischargeLanesNonNegative(lanes: map<string, Lane>, ids: seq<string>, flow: int)
    requires forall j :: 0 <= j < |ids| ==> ids[j] in lanes
    ensures flow >= 0 && (forall l :: l in lanes ==> lanes[l].queue >= 0) ==>
              && (forall l :: l in lanes ==> DischargeLanes(lanes, ids, flow).0[l].queue >= 0)
              && (forall l :: l in DischargeLanes(lanes, ids, flow).1 ==> DischargeLanes(lanes, ids, flow).1[l] >= 0)
    decreases |ids|
  {
    if |ids| > 0 {
      DischargeLanesNonNegative(lanes, ids[..|ids| - 1], flow);
    }
  }

  /** When no lane is listed twice, each listed lane loses exactly what is reported for
      it, which is its whole queue or the full flow, whichever is smaller. */
  lemma {:induction false} DischargeLanesExact(lanes: map<string, Lane>, ids: seq<string>, flow: int)
    requires forall j :: 0 <= j < |ids| ==> ids[j] in lanes
    ensures var r := DischargeLanes(lanes, ids, flow);
            Distinct(ids) ==> forall l :: l in ids ==>
              && r.0[l].queue + r.1[l] == lanes[l].queue
              && r.1[l] <= lanes[l].queue
              && (r.1[l] == lanes[l].queue || r.1[l] == flow)
    decreases |ids|
  {
    if |ids| > 0 && Distinct(ids) {
      var id := ids[|ids| - 1];
      var prefix := ids[..|ids| - 1];
      assert Distinct(prefix);
      assert id !in prefix;
      DischargeLanesExact(lanes, prefix, flow);
      var r := DischargeLanes(lanes, ids, flow);
      var before := DischargeLanes(lanes, prefix, flow);
      var cleared := ClearWithCapacity(lanes[id], flow);
      assert r == (before.0[id := cleared.0], before.1[id := cleared.1]);
      forall l | l in ids
        ensures && r.0[l].queue + r.1[l] == lanes[l].queue
                && r.1[l] <= lanes[l].queue
                && (r.1[l] == lanes[l].queue || r.1[l] == flow)
      {
        if l != id {
          assert l in prefix;
        }
      }
    }
  }

  /** Every lane's pedestrian count goes down by one, floored at zero. */
  function DecayPedestrians(lanes: map<string, Lane>): (r: map<string, Lane>)
    ensures r.Keys == lanes.Keys
    ensures forall l :: l in lanes ==>
              && r[l].queue == lanes[l].queue
              && r[l].pedestrians >= 0
              && (r[l].pedestrians == lanes[l].pedestrians - 1 || (r[l].pedestrians == 0 && lanes[l].pedestrians <= 0))
  {
    map l | l in lanes :: lanes[l].(pedestrians := Max(0, lanes[l].pedestrians - 1))
  }

  /** Every lane's queue and pedestrian count is non-negative. */
  predicate NonNegative(lanes: map<string, Lane>)
  {
    forall l :: l in lanes ==> lanes[l].queue >= 0 && lanes[l].pedestrians >= 0
  }

  /** Discharges the lanes of the current phase only, then lets pedestrians clear on
      every lane whatever the phase; returns the intersection and the amount removed
      per current-phase lane. */
  function ApplyDischarge(x: Intersection, flow: int): (r: (Intersection, map<string, int>))
    requires WellFormed(x)
    ensures WellFormed(r.0) && SameShape(x, r.0)
    ensures r.0.index == x.index && r.0.phases == x.phases && r.0.time == x.time && r.0.history == x.history
    ensures forall l :: l in r.1 <==> l in CurrentPhase(x).lanes
    ensures forall l :: l in x.lanes && l !in CurrentPhase(x).lanes ==> r.0.lanes[l].queue == x.lanes[l].queue
    ensures forall l :: l in x.lanes ==> r.0.lanes[l].pedestrians == Max(0, x.lanes[l].pedestrians - 1)
    ensures forall l :: l in r.1 ==> r.1[l] <= flow
    ensures flow >= 0 && NonNegative(x.lanes) ==> NonNegative(r.0.lanes) && forall l :: l in r.1 ==> r.1[l] >= 0
  {
    var phase := CurrentPhase(x);
    assert forall j :: 0 <= j < |phase.lanes| ==> phase.lanes[j] in x.lanes;
    var (lanes, discharged) := DischargeLanes(x.lanes, phase.lanes, flow);
    DischargeLanesNonNegative(x.lanes, phase.lanes, flow);
    var r := x.(lanes := DecayPedestrians(lanes));
    SameShapeWellFormed(x, r);
    (r, discharged)
  }

  /** When the current phase lists each lane once, each of its lanes loses exactly what
      is reported discharged there: its whole queue when that is within the flow, and
      the flow otherwise. */
  lemma ApplyDischargeExact(x: Intersection, flow: int)
    requires WellFormed(x) && Distinct(CurrentPhase(x).lanes)
    ensures var r := ApplyDischarge(x, flow);
            forall l :: l in CurrentPhase(x).lanes ==>
              && r.0.lanes[l].queue + r.1[l] == x.lanes[l].queue
              && r.1[l] <= x.lanes[l].queue
              && (r.1[l] == x.lanes[l].queue || r.1[l] == flow)
  {
    DischargeLanesExact(x.lanes, CurrentPhase(x).lanes, flow);
  }

  /** The queues and pedestrian counts recorded so far are non-negative. */
  predicate HistoryNonNegative(history: seq<Snapshot>)
  {
    forall i, l :: 0 <= i < |history| && l in history[i].queues ==> history[i].queues[l] >= 0
  }

  /** The second half of a tick, after the decision: discharge under the phase now
      current, record the snapshot, then advance both clocks. */
  function CompleteTick(x: Intersection): (r: Intersection)
    requires WellFormed(x)
    ensures WellFormed(r) && SameShape(x, r) && r.index == x.index
    ensures r.time == x.time + 1
    ensures CurrentPhase(r).elapsed == CurrentPhase(x).elapsed + 1
    ensures |r.history| == |x.history| + 1 && r.history[..|x.history|] == x.history
    ensures r.history[|x.history|].time == x.time && r.history[|x.history|].phase == CurrentPhase(x).name
    ensures forall l :: l in x.lanes && l !in CurrentPhase(x).lanes ==> r.lanes[l].queue == x.lanes[l].queue
    ensures NonNegative(x.lanes) && HistoryNonNegative(x.history) ==>
              NonNegative(r.lanes) && HistoryNonNegative(r.history)
  {
    var discharged := ApplyDischarge(x, DefaultSaturationFlow).0;
    var recorded := Record(discharged);
    assert HistoryNonNegative(x.history) && NonNegative(discharged.lanes) ==> HistoryNonNegative(recorded.history) by {
      if HistoryNonNegative(x.history) && NonNegative(discharged.lanes) {
        forall i, l | 0 <= i < |recorded.history| && l in recorded.history[i].queues
          ensures recorded.history[i].queues[l] >= 0
        {
          if i < |x.history| {
            assert recorded.history[i] == recorded.history[..|x.history|][i];
          }
        }
      }
    }
    Tick(recorded, 1)
  }

  /** What completing a tick leaves in the lanes and records: every lane's pedestrians
      drop by one, floored at zero, and the snapshot holds the lanes as they stand
      after the discharge. */
  lemma CompleteTickRecords(x: Intersection)
    requires WellFormed(x)
    ensures var r := CompleteTick(x);
            forall l :: l in x.lanes ==>
              && l in r.lanes
              && r.lanes[l].pedestrians == Max(0, x.lanes[l].pedestrians - 1)
              && r.history[|x.history|].queues[l] == r.lanes[l].queue
              && r.history[|x.history|].pedestrians[l] == r.lanes[l].pedestrians
  {
    var discharged := ApplyDischarge(x, DefaultSaturationFlow).0;
    var recorded := Record(discharged);
    assert CompleteTick(x) == Tick(recorded, 1);
  }

  /** When the current phase lists each lane once, completing the tick takes from each
      of its lanes the smaller of its queue and the saturation flow. */
  lemma CompleteTickDischarges(x: Intersection)
    requires WellFormed(x) && Distinct(CurrentPhase(x).lanes)
    ensures forall l :: l in CurrentPhase(x).lanes ==>
              CompleteTick(x).lanes[l].queue == x.lanes[l].queue - Min(x.lanes[l].queue, DefaultSaturationFlow)
  {
    var discharged := ApplyDischarge(x, DefaultSaturationFlow);
    ApplyDischargeExact(x, DefaultSaturationFlow);
    var recorded := Record(discharged.0);
    assert CompleteTick(x) == Tick(recorded, 1);
  }

  /** The controller's answer in a tick: it is asked after demand has arrived, about
      what the detectors then read. */
  function Answer(x: Intersection, ctl: PhaseController, d: LaneDraws): Result<ActuationDecision>
    requires WellFormed(x) && Admissible(ctl)
  {
    var a := InjectDemand(x, d);
    ctl(a, CaptureObservations(a))
  }

  /** One tick of the single-intersection loop: inject demand, observe, ask the
      controller, switch if told to, then discharge under the phase now current,
      record and advance the clocks. */
  function Step(x: Intersection, ctl: PhaseController, d: LaneDraws): (r: Result<Intersection>)
    requires WellFormed(x) && Admissible(ctl)
    ensures r.Failure? <==> Answer(x, ctl, d).Failure?
    ensures r.Success? ==> r.value == Actuate(InjectDemand(x, d), Answer(x, ctl, d).value.switchPhase)
    ensures r.Success? ==>
              && WellFormed(r.value) && SameShape(x, r.value) && Extends(x, r.value, 1)
              && r.value.history[|x.history|].phase == CurrentPhase(r.value).name
    ensures r.Success? && NonNegative(x.lanes) && HistoryNonNegative(x.history) ==>
              NonNegative(r.value.lanes) && HistoryNonNegative(r.value.history)
  {
    var arrived := InjectDemand(x, d);
    match Answer(x, ctl, d)
    case Failure(e) => Failure(e)
    case Success(decision) =>
      var r := Actuate(arrived, decision.switchPhase);
      SameShapeTransitive(x, arrived, r);
      assert NonNegative(x.lanes) ==> NonNegative(arrived.lanes);
      Success(r)
  }

  /** The rest of a tick once the controller has answered: switch if told to, then
      discharge under the phase now current, record and advance the clocks. */
  function Actuate(a: Intersection, switchPhase: bool): (r: Intersection)
    requires WellFormed(a)
    ensures r == CompleteTick(if switchPhase then SwitchPhase(a) else a)
    ensures WellFormed(r) && SameShape(a, r) && Extends(a, r, 1)
    ensures r.index == if switchPhase then SwitchPhase(a).index else a.index
    ensures CurrentPhase(r).elapsed == if switchPhase then 1 else CurrentPhase(a).elapsed + 1
    ensures r.history[|a.history|].phase == CurrentPhase(r).name
    ensures forall l :: l in a.lanes && l !in CurrentPhase(r).lanes ==> r.lanes[l].queue == a.lanes[l].queue
    ensures NonNegative(a.lanes) && HistoryNonNegative(a.history) ==>
              NonNegative(r.lanes) && HistoryNonNegative(r.history)
  {
    var switched := if switchPhase then SwitchPhase(a) else a;
    assert NonNegative(a.lanes) ==> NonNegative(switched.lanes);
    CompleteTick(switched)
  }

  /** Discharge in a tick serves the phase in force after the switch: when that phase
      lists each lane once, each of its lanes ends the tick with its post-arrival queue
      less `min(queue, flow)` at the default flow. */
  lemma StepDischargesPhaseInForce(x: Intersection, ctl: PhaseController, d: LaneDraws)
    requires WellFormed(x) && Admissible(ctl)
    requires Step(x, ctl, d).Success? && Distinct(CurrentPhase(Step(x, ctl, d).value).lanes)
    ensures var a := InjectDemand(x, d);
            var r := Step(x, ctl, d).value;
            forall l :: l in CurrentPhase(r).lanes ==>
              r.lanes[l].queue == a.lanes[l].queue - Min(a.lanes[l].queue, DefaultSaturationFlow)
  {
    var a := InjectDemand(x, d);
    var s := if ctl(a, CaptureObservations(a)).value.switchPhase then SwitchPhase(a) else a;
    assert Step(x, ctl, d).value == CompleteTick(s);
    assert s.lanes == a.lanes;
    CompleteTickDischarges(s);
  }

  /** Runs the loop over one tick per entry of `draws`, stopping at the first failure. */
  function RunFrom(x: Intersection, ctl: PhaseController, draws: seq<LaneDraws>): (r: Result<Intersection>)
    requires WellFormed(x) && Admissible(ctl)
    ensures r.Success? ==> WellFormed(r.value) && SameShape(x, r.value) && Extends(x, r.value, |draws|)
    ensures r.Success? && NonNegative(x.lanes) && HistoryNonNegative(x.history) ==>
              NonNegative(r.value.lanes) && HistoryNonNegative(r.value.history)
    decreases |draws|
  {
    if |draws| == 0 then
      assert x.history[..|x.history|] == x.history;
      Success(x)
    else
      match Step(x, ctl, draws[0])
      case Failure(e) => Failure(e)
      case Success(next) =>
        var r := RunFrom(next, ctl, draws[1..]);
        if r.Success? then
          ExtendsTransitive(x, next, r.value, 1, |draws| - 1);
          SameShapeTransitive(x, next, r.value);
          r
        else r
  }

  /** What the first tick on an intersection without phases (and so without lanes)
      raises: the controller's own failure, or, when it answers, a remainder modulo
      zero phases on a switch and the current phase of an empty list on a hold. */
  function PhaselessFailure(x: Intersection, ctl: PhaseController): Error
    requires |x.phases| == 0 && Admissible(ctl)
  {
    match ctl(x, CaptureObservations(x))
    case Failure(e) => e
    case Success(decision) => if decision.switchPhase then DivisionByZero else IndexOutOfRange
  }

  /** Builds the intersection from its layout and runs one tick per entry of `draws`.
      A layout without phases survives only a run of no ticks: the first tick fails
      with what the controller, the switch or the discharge raises on it. A successful
      run ends with the clock at the number of ticks, one history entry per tick
      stamped 0, 1, 2, ..., and no negative count anywhere. */
  function RunSimulation(layout: Layout, ctl: PhaseController, draws: seq<LaneDraws>): (r: Result<Intersection>)
    requires Admissible(ctl)
    ensures |layout.phases| == 0 ==> (r.Success? <==> |draws| == 0)
    ensures r.Failure? && |layout.phases| == 0 ==>
              var x := BuildIntersection(layout);
              var answer := ctl(x, CaptureObservations(x));
              r.error == if answer.Failure? then answer.error
                         else if answer.value.switchPhase then DivisionByZero else IndexOutOfRange
    ensures r.Success? ==>
              && SameShape(BuildIntersection(layout), r.value)
              && r.value.time == |draws| && |r.value.history| == |draws|
              && (forall i :: 0 <= i < |r.value.history| ==> r.value.history[i].time == i)
              && NonNegative(r.value.lanes) && HistoryNonNegative(r.value.history)
    ensures r.Success? && |layout.phases| > 0 ==> WellFormed(r.value)
  {
    var x := BuildIntersection(layout);
    if |layout.phases| == 0 then
      if |draws| == 0 then Success(x) else Failure(PhaselessFailure(x, ctl))
    else
      RunFrom(x, ctl, draws)
  }

  /** With the reference controller the loop never fails: every observation it
      captures covers every lane. */
  lemma {:induction false} RunFromDemandResponsiveSucceeds(x: Intersection, c: DemandResponsiveController, draws: seq<LaneDraws>)
    requires WellFormed(x)
    ensures RunFrom(x, AsController(c), draws).Success?
    decreases |draws|
  {
    if |draws| > 0 {
      var a := InjectDemand(x, draws[0]);
      CapturedObservationSuffices(c, a);
      var next := Step(x, AsController(c), draws[0]);
      assert next.Success?;
      RunFromDemandResponsiveSucceeds(next.value, c, draws[1..]);
    }
  }

  /** A run of the reference controller fails only when the layout has no phases and
      at least one tick is asked for, and then on the current-phase lookup. */
  lemma RunSimulationDemandResponsiveSucceeds(layout: Layout, c: DemandResponsiveController, draws: seq<LaneDraws>)
    ensures RunSimulation(layout, AsController(c), draws).Success? <==> |layout.phases| > 0 || |draws| == 0
    ensures RunSimulation(layout, AsController(c), draws).Failure? ==>
              RunSimulation(layout, AsController(c), draws).error == IndexOutOfRange
  {
    if |layout.phases| > 0 {
      RunFromDemandResponsiveSucceeds(BuildIntersection(layout), c, draws);
    }
  }
}
