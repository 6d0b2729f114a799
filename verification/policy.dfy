/** The decision contract every signal controller meets, and the demand-responsive
    reference controller: a pure hold/advance rule evaluated against the current
    phase only. */
module Policy {
  import opened Base
  import opened Entities
  import opened Observations

  /** A controller's verdict for one tick: advance to the next phase, or hold. */
  datatype ActuationDecision = ActuationDecision(switchPhase: bool)

  const Hold := ActuationDecision(false)
  const Advance := ActuationDecision(true)

  /** The controller contract: an intersection and an observation in, a decision out.
      A controller may fail (a Python exception propagates out of the simulation loop). */
  type PhaseController = (Intersection, DetectorObservation) --> Result<ActuationDecision>

  /** The controller can be asked about any well-formed intersection, and about an
      intersection with no phases at all, with any observation. */
  ghost predicate Admissible(ctl: PhaseController)
  {
    forall x, o :: WellFormed(x) || |x.phases| == 0 ==> ctl.requires(x, o)
  }

  /** The reference controller's two settings. */
  datatype DemandResponsiveController = DemandResponsiveController(vehicleThreshold: int, pedestrianPriority: bool)

  /** The settings a controller gets when none are given. */
  const DefaultController := DemandResponsiveController(12, true)

  /** `sum(m[lane] for lane in lanes)`: a lane listed twice counts twice. */
  function SumLanes(m: map<string, int>, lanes: seq<string>): int
    requires Covers(m, lanes)
  {
    if |lanes| == 0 then 0 else SumLanes(m, lanes[..|lanes| - 1]) + m[lanes[|lanes| - 1]]
  }

  /** The sum only reads the entries of the listed lanes. */
  lemma {:induction false} SumLanesLocal(m: map<string, int>, m': map<string, int>, lanes: seq<string>)
    requires Covers(m, lanes) && Covers(m', lanes)
    requires forall j :: 0 <= j < |lanes| ==> m[lanes[j]] == m'[lanes[j]]
    ensures SumLanes(m, lanes) == SumLanes(m', lanes)
  {
    if |lanes| > 0 {
      SumLanesLocal(m, m', lanes[..|lanes| - 1]);
    }
  }

  /** The sum over two lists of lanes one after the other is the sum of the two sums, so a
      lane listed twice is counted twice. */
  lemma {:induction false} SumLanesConcat(m: map<string, int>, a: seq<string>, b: seq<string>)
    requires Covers(m, a) && Covers(m, b)
    ensures Covers(m, a + b)
    ensures SumLanes(m, a + b) == SumLanes(m, a) + SumLanes(m, b)
    decreases |b|
  {
    if |b| > 0 {
      var init := b[..|b| - 1];
      assert (a + b)[..|a + b| - 1] == a + init;
      SumLanesConcat(m, a, init);
    } else {
      assert a + b == a;
    }
  }

  /** A single lane sums to its own entry. */
  lemma SumLanesSingle(m: map<string, int>, l: string)
    requires l in m
    ensures Covers(m, [l]) && SumLanes(m, [l]) == m[l]
  {
    assert [l][..0] == [];
  }

  /** With non-negative entries the sum is positive exactly when some listed lane's entry is. */
  lemma {:induction false} SumLanesPositive(m: map<string, int>, lanes: seq<string>)
    requires Covers(m, lanes)
    requires forall j :: 0 <= j < |lanes| ==> m[lanes[j]] >= 0
    ensures SumLanes(m, lanes) >= 0
    ensures SumLanes(m, lanes) > 0 <==> exists j :: 0 <= j < |lanes| && m[lanes[j]] > 0
  {
    if |lanes| > 0 {
      var init := lanes[..|lanes| - 1];
      SumLanesPositive(m, init);
      if exists j :: 0 <= j < |init| && m[init[j]] > 0 {
        var j :| 0 <= j < |init| && m[init[j]] > 0;
        assert lanes[j] == init[j];
      }
    }
  }

  /** The demand-responsive rule for the current phase, in order: minimum green not yet
      served holds; else waiting pedestrians hold when pedestrian priority is on; else
      a queue below the threshold holds while maximum green remains; else advance.
      Both sums are taken before any rule, so a lane of the current phase missing from
      either observation map fails the call whatever the rules would say. */
  function Decide(c: DemandResponsiveController, x: Intersection, o: DetectorObservation): (r: Result<ActuationDecision>)
    requires WellFormed(x)
    ensures r.Failure? <==> !Covers(o.vehicles, CurrentPhase(x).lanes) || !Covers(o.pedestrians, CurrentPhase(x).lanes)
    ensures r.Success? && MustExtend(CurrentPhase(x)) ==> r.value == Hold
    ensures r.Success? ==>
              (r.value.switchPhase <==>
                 && !MustExtend(CurrentPhase(x))
                 && !(c.pedestrianPriority && SumLanes(o.pedestrians, CurrentPhase(x).lanes) > 0)
                 && (SumLanes(o.vehicles, CurrentPhase(x).lanes) >= c.vehicleThreshold || !CanExtend(CurrentPhase(x))))
  {
    var phase := CurrentPhase(x);
    if !Covers(o.vehicles, phase.lanes) || !Covers(o.pedestrians, phase.lanes) then Failure(MissingKey)
    else
      var totalQueue := SumLanes(o.vehicles, phase.lanes);
      var pedestrianPressure := SumLanes(o.pedestrians, phase.lanes);
      if MustExtend(phase) then Success(Hold)
      else if c.pedestrianPriority && pedestrianPressure > 0 then Success(Hold)
      else if totalQueue < c.vehicleThreshold && CanExtend(phase) then Success(Hold)
      else Success(Advance)
  }

  /** The reference controller seen through the controller contract. Asked about an
      intersection without phases it fails looking up the current phase. */
  function AsController(c: DemandResponsiveController): (ctl: PhaseController)
    ensures Admissible(ctl)
    ensures forall x: Intersection, o: DetectorObservation :: WellFormed(x) ==> ctl(x, o) == Decide(c, x, o)
    ensures forall x: Intersection, o: DetectorObservation :: |x.phases| == 0 ==> ctl(x, o) == Failure(IndexOutOfRange)
  {
    (x: Intersection, o: DetectorObservation) requires WellFormed(x) || |x.phases| == 0 =>
      if |x.phases| == 0 then Failure(IndexOutOfRange) else Decide(c, x, o)
  }

  /** Only the current phase's lanes matter: observations that agree on them get the same decision. */
  lemma DecideLocal(c: DemandResponsiveController, x: Intersection, o: DetectorObservation, o': DetectorObservation)
    requires WellFormed(x)
    requires forall l :: l in CurrentPhase(x).lanes ==>
               && (l in o.vehicles <==> l in o'.vehicles) && (l in o.pedestrians <==> l in o'.pedestrians)
               && (l in o.vehicles ==> o.vehicles[l] == o'.vehicles[l])
               && (l in o.pedestrians ==> o.pedestrians[l] == o'.pedestrians[l])
    ensures Decide(c, x, o) == Decide(c, x, o')
  {
    var lanes := CurrentPhase(x).lanes;
    if Covers(o.vehicles, lanes) && Covers(o.pedestrians, lanes) {
      SumLanesLocal(o.vehicles, o'.vehicles, lanes);
      SumLanesLocal(o.pedestrians, o'.pedestrians, lanes);
    }
  }

  /** Pedestrian hold: once minimum green is served, a waiting pedestrian on any lane of
      the current phase holds the phase whatever the queues, when priority is on. */
  lemma PedestrianHold(c: DemandResponsiveController, x: Intersection, o: DetectorObservation, lane: string)
    requires WellFormed(x) && c.pedestrianPriority
    requires Covers(o.vehicles, CurrentPhase(x).lanes) && Covers(o.pedestrians, CurrentPhase(x).lanes)
    requires forall l :: l in o.pedestrians ==> o.pedestrians[l] >= 0
    requires lane in CurrentPhase(x).lanes && o.pedestrians[lane] > 0
    ensures Decide(c, x, o) == Success(Hold)
  {
    var lanes := CurrentPhase(x).lanes;
    SumLanesPositive(o.pedestrians, lanes);
    var j :| 0 <= j < |lanes| && lanes[j] == lane;
  }

  /** Maximum-green bound: with no pedestrian hold, a phase past both its minimum and its
      maximum green is advanced even when its queue is below the threshold. */
  lemma MaximumGreenBound(c: DemandResponsiveController, x: Intersection, o: DetectorObservation)
    requires WellFormed(x)
    requires Covers(o.vehicles, CurrentPhase(x).lanes) && Covers(o.pedestrians, CurrentPhase(x).lanes)
    requires !(c.pedestrianPriority && SumLanes(o.pedestrians, CurrentPhase(x).lanes) > 0)
    requires CurrentPhase(x).elapsed >= CurrentPhase(x).minGreen
    requires CurrentPhase(x).elapsed >= CurrentPhase(x).maxGreen
    ensures Decide(c, x, o) == Success(Advance)
  {
  }

  /** Minimum-green guarantee: a phase that has not served its minimum green is held,
      whatever the observation reports. */
  lemma MinimumGreenHold(c: DemandResponsiveController, x: Intersection, o: DetectorObservation)
    requires WellFormed(x) && MustExtend(CurrentPhase(x))
    requires Covers(o.vehicles, CurrentPhase(x).lanes) && Covers(o.pedestrians, CurrentPhase(x).lanes)
    ensures Decide(c, x, o) == Success(Hold)
  {
  }

  /** A one-phase intersection serving lane "A" (min 5, max 10), with lanes "A" and "B". */
  function ScenarioIntersection(elapsed: int): (x: Intersection)
    ensures WellFormed(x) && CurrentPhase(x).lanes == ["A"] && CurrentPhase(x).elapsed == elapsed
  {
    Intersection("test", [Phase("phase_one", ["A"], 5, 10, elapsed)],
                 map["A" := Lane(10, 0), "B" := Lane(0, 0)], 0, 0, [])
  }

  /** Within minimum green the phase holds even though lane "A" reports a vehicle. */
  lemma ScenarioHoldWithinMinimumGreen()
    ensures Decide(DemandResponsiveController(5, true), ScenarioIntersection(0),
                   DetectorObservation(map["A" := 1, "B" := 0], map["A" := 0, "B" := 0])) == Success(Hold)
  {
    var o := DetectorObservation(map["A" := 1, "B" := 0], map["A" := 0, "B" := 0]);
    assert Covers(o.vehicles, ["A"]) && Covers(o.pedestrians, ["A"]);
  }

  /** Past minimum green, a queue of 12 against a threshold of 5 advances the phase. */
  lemma ScenarioSwitchAtThreshold()
    ensures Decide(DemandResponsiveController(5, true), ScenarioIntersection(6),
                   DetectorObservation(map["A" := 12, "B" := 0], map["A" := 0, "B" := 0])) == Success(Advance)
  {
    var o := DetectorObservation(map["A" := 12, "B" := 0], map["A" := 0, "B" := 0]);
    assert Covers(o.vehicles, ["A"]) && Covers(o.pedestrians, ["A"]);
    assert SumLanes(o.vehicles, ["A"]) == 12 && SumLanes(o.pedestrians, ["A"]) == 0;
  }
}
