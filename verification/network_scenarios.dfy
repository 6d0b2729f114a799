/** The scenarios of the network tests, worked through the model. The first is the
    corridor alignment: two identical intersections A and B, B offset by five ticks and
    moved to its side-street phase, observed at network time 3 with traffic only on the
    corridor. The second is the frame export after a short network run. */
module NetworkScenarios {
  import opened Base
  import opened Config
  import opened Entities
  import opened Observations
  import opened Policy
  import opened Simulator
  import opened Network
  import opened Omniverse

  /** The tests' layout: a corridor phase serving N_S, then a side-street phase serving E_W. */
  function TestLayout(id: string): Layout
  {
    Layout(id, [PhaseConfig("main_corridor", ["N_S"], 5, 10), PhaseConfig("side_street", ["E_W"], 5, 10)])
  }

  /** The coordinator of the alignment test: corridor N_S, a 60-tick cycle, a 15-tick band. */
  const TestCoordinator := CoordinatedSignalManager({"N_S"}, 60, 15)

  /** Vehicles on the corridor at both intersections, none on the cross street, no pedestrians. */
  function TestObservations(): map<string, DetectorObservation>
  {
    map["A" := DetectorObservation(map["N_S" := 15, "E_W" := 0], map["N_S" := 0, "E_W" := 0]),
        "B" := DetectorObservation(map["N_S" := 10, "E_W" := 0], map["N_S" := 0, "E_W" := 0])]
  }

  /** The intersection built from the tests' layout. */
  function TestIntersection(id: string): (x: Intersection)
    ensures x == BuildIntersection(TestLayout(id))
    ensures WellFormed(x) && UniqueNames(x.phases) && x.index == 0 && x.time == 0 && x.history == []
    ensures x.phases == [Phase("main_corridor", ["N_S"], 5, 10, 0), Phase("side_street", ["E_W"], 5, 10, 0)]
  {
    var x := BuildIntersection(TestLayout(id));
    assert DistinctNames(TestLayout(id));
    x
  }

  /** The layouts of the tests, in order. */
  function TestLayouts(): seq<Layout>
  {
    [TestLayout("A"), TestLayout("B")]
  }

  /** The offsets of the alignment test. */
  function TestOffsets(): map<string, int>
  {
    map["A" := 0, "B" := 5]
  }

  /** The tests' layouts carry identifiers A and B. */
  lemma TestLayoutIds()
    ensures LayoutIds(TestLayouts()) == {"A", "B"}
  {
    var layouts := TestLayouts();
    assert layouts[0].id == "A" && layouts[1].id == "B";
    forall id | id in LayoutIds(layouts) ensures id in {"A", "B"} {
      var k :| 0 <= k < |layouts| && layouts[k].id == id;
      assert k == 0 || k == 1;
    }
  }

  /** Building the tests' network creates exactly intersections A and B. */
  lemma BuildTestNetworkKeys()
    ensures BuildNetwork(TestLayouts(), TestOffsets()).intersections.Keys == {"A", "B"}
  {
    TestLayoutIds();
  }

  /** Each of them is the intersection its layout describes, and its offset is the test's. */
  lemma BuildTestNetworkEntry(id: string)
    requires id == "A" || id == "B"
    ensures var net := BuildNetwork(TestLayouts(), TestOffsets());
            && id in net.intersections
            && net.intersections[id] == TestIntersection(id)
            && GetOrZero(net.offsets, id) == GetOrZero(TestOffsets(), id)
  {
    var layouts := TestLayouts();
    var k := if id == "A" then 0 else 1;
    assert layouts[k].id == id;
    assert forall k' :: 0 <= k' < |layouts| && layouts[k'].id == id ==> k' == k;
  }

  /** Intersection B of the built network, put on its side-street phase. */
  function SideStreetB(): (b: Intersection)
    ensures WellFormed(b) && UniqueNames(b.phases)
    ensures CurrentPhase(b).name == "side_street"
    ensures b.phases[0].lanes == ["N_S"] && b.phases[0].name == "main_corridor"
  {
    var b := TestIntersection("B");
    assert b.phases[1].name == "side_street";
    var b' := SetPhase(b, "side_street");
    SameShapeUniqueNames(b, b');
    b'
  }

  /** The built network (see BuildTestNetworkKeys and BuildTestNetworkEntry) with B put on its side-street phase and
      the clock set to 3. */
  function TestNetwork(): (net: TrafficNetwork)
    ensures Ready(net) && net.time == 3
    ensures net.intersections.Keys == {"A", "B"}
    ensures GetOrZero(net.offsets, "A") == 0 && GetOrZero(net.offsets, "B") == 5
    ensures CurrentPhase(net.intersections["A"]).name == "main_corridor"
    ensures CurrentPhase(net.intersections["B"]).name == "side_street"
    ensures forall id :: id in net.intersections ==>
              net.intersections[id].phases[0].lanes == ["N_S"] && net.intersections[id].phases[0].name == "main_corridor"
  {
    TrafficNetwork(map["A" := TestIntersection("A"), "B" := SideStreetB()], TestOffsets(), 3, [])
  }

  /** The corridor carries every observed vehicle, so the corridor has priority. */
  lemma TestObservationsPrioritizeCorridor()
    ensures PrioritizeCorridor(TestCoordinator, TestObservations())
  {
    var obs := TestObservations();
    assert obs.Keys == {"A", "B"};
    assert obs["A"].vehicles.Keys == {"N_S", "E_W"} && obs["B"].vehicles.Keys == {"N_S", "E_W"};
    IdleCrossPrioritizesCorridor(TestCoordinator, obs);
  }

  /** Both intersections of the test network are forced at time 3. */
  lemma TestNetworkForced(id: string)
    requires id == "A" || id == "B"
    ensures id in TestNetwork().intersections
    ensures CorridorPhase(TestCoordinator, TestNetwork().intersections[id]) == Some("main_corridor")
    ensures Forced(TestCoordinator, TestNetwork(), TestObservations(), id)
  {
    var c, net, obs := TestCoordinator, TestNetwork(), TestObservations();
    TestObservationsPrioritizeCorridor();
    var x := net.intersections[id];
    assert CorridorPhaseIndex(x.phases, c.corridorLanes) == Some(0) by {
      assert ServesCorridor(x.phases[0], c.corridorLanes) by {
        assert x.phases[0].lanes[0] == "N_S";
      }
    }
    if id == "A" {
      assert PyMod(3, 60) == 3;
    } else {
      assert PyMod(8, 60) == 8;
    }
  }

  /** The coordination round on the test network succeeds: both intersections are forced. */
  lemma TestRoundSucceeds()
    ensures SyncAndDecide(TestCoordinator, TestNetwork(), TestObservations()).Success?
  {
    var c, net, obs := TestCoordinator, TestNetwork(), TestObservations();
    assert !LocalLookupFails(c, net, obs) by {
      forall id | id in net.intersections ensures Forced(c, net, obs, id) {
        TestNetworkForced(id);
      }
    }
  }

  /** In that round each intersection ends on its corridor phase with a hold. */
  lemma TestRoundHolds(id: string)
    requires id == "A" || id == "B"
    ensures var r := SyncAndDecide(TestCoordinator, TestNetwork(), TestObservations());
            && r.Success?
            && CurrentPhase(r.value.0.intersections[id]).name == "main_corridor"
            && r.value.1[id] == Hold
  {
    var c, net, obs := TestCoordinator, TestNetwork(), TestObservations();
    TestRoundSucceeds();
    TestNetworkForced(id);
    var r := SyncAndDecide(c, net, obs);
    assert "A" in obs && "B" in obs;
    assert CoordinatedAs(c, net, obs, id, r.value.0.intersections[id], r.value.1[id]);
  }

  /** The round decides for A and B. */
  lemma TestRoundKeys()
    ensures var r := SyncAndDecide(TestCoordinator, TestNetwork(), TestObservations());
            r.Success? && r.value.1.Keys == {"A", "B"}
  {
    TestRoundSucceeds();
  }

  /** At time 3 both intersections are inside the band (3 for A, 3 + 5 = 8 for B), the
      corridor carries all the traffic, so both are forced: B is put back on its
      corridor phase and neither is told to switch. */
  lemma CorridorAlignmentAtTimeThree()
    ensures var r := SyncAndDecide(TestCoordinator, TestNetwork(), TestObservations());
            && r.Success?
            && CurrentPhase(r.value.0.intersections["B"]).name == "main_corridor"
            && r.value.1.Keys == {"A", "B"}
            && !r.value.1["A"].switchPhase && !r.value.1["B"].switchPhase
  {
    TestRoundHolds("A");
    TestRoundHolds("B");
    TestRoundKeys();
  }

  /** The alignment exactly as the coordinator calls it fails on B: it has to change
      B's phase, and the intersection has no `set_phase`. */
  lemma AlignmentAsWrittenRaises()
    ensures var b := TestNetwork().intersections["B"];
            AlignAsWritten(b, "main_corridor") == Failure(MissingMethod)
  {
  }

  /** The corrected alignment puts B on the corridor phase. */
  lemma AlignmentCorrectedSucceeds()
    ensures var b := TestNetwork().intersections["B"];
            CurrentPhase(Align(b, "main_corridor")).name == "main_corridor"
  {
    var b := TestNetwork().intersections["B"];
    assert b.phases[0].name == "main_corridor";
  }

  /** A coordinator with corridor N_S, a zero cycle length and a 15-tick band. */
  const ZeroCycleCoordinator := CoordinatedSignalManager({"N_S"}, 0, 15)

  /** A network of one intersection X whose single phase `main` serves the corridor. */
  function LoneNetwork(): (net: TrafficNetwork)
    ensures Ready(net) && net.intersections.Keys == {"X"}
    ensures CorridorPhase(ZeroCycleCoordinator, net.intersections["X"]) == Some("main")
  {
    var x := BuildIntersection(Layout("X", [PhaseConfig("main", ["N_S"], 5, 10)]));
    assert ServesCorridor(x.phases[0], {"N_S"}) by {
      assert x.phases[0].lanes[0] == "N_S";
    }
    TrafficNetwork(map["X" := x], map[], 0, [])
  }

  /** One corridor vehicle at X and no pedestrian entries at all. */
  function LoneObservations(): map<string, DetectorObservation>
  {
    map["X" := DetectorObservation(map["N_S" := 1], map[])]
  }

  /** With a zero cycle length the band check divides by zero before any local lookup:
      X's own controller would fail its pedestrian lookup, yet the round fails with a
      division by zero. */
  lemma ZeroCycleBandCheckComesFirst()
    ensures Decide(DefaultController, LoneNetwork().intersections["X"], LoneObservations()["X"]).Failure?
    ensures SyncAndDecide(ZeroCycleCoordinator, LoneNetwork(), LoneObservations()) == Failure(DivisionByZero)
  {
    var c, net, obs := ZeroCycleCoordinator, LoneNetwork(), LoneObservations();
    assert obs.Keys == {"X"} && obs["X"].vehicles.Keys == {"N_S"};
    IdleCrossPrioritizesCorridor(c, obs);
    assert Contested(c, net, obs, "X");
    assert !LocalLookupFails(c, net, obs) by {
      forall id | id in net.intersections ensures !Delegated(c, net, obs, id) {
        assert id == "X";
      }
    }
    assert BandCheckFails(c, net, obs);
    assert "N_S" !in obs["X"].pedestrians;
    assert CurrentPhase(net.intersections["X"]).lanes == ["N_S"];
  }

  /** The intersections a network run ends with, listed by identifier, the form an
      export receives them in. Each has run one tick per entry of `draws`. */
  ghost function RunIntersections(layouts: seq<Layout>, c: CoordinatedSignalManager, draws: seq<string -> LaneDraws>,
                                  offsets: map<string, int>, ids: seq<string>): (xs: seq<Intersection>)
    requires c.cycleLength != 0
    requires forall k :: 0 <= k < |layouts| ==> DistinctNames(layouts[k])
    requires !SomeWithoutPhases(layouts)
    requires forall k :: 0 <= k < |ids| ==> ids[k] in LayoutIds(layouts)
    ensures |xs| == |ids|
    ensures forall k :: 0 <= k < |xs| ==> xs[k].time == |draws| && |xs[k].history| == |draws|
  {
    var m := RunNetworkSimulation(layouts, c, draws, offsets).value.intersections;
    LookupAllAt(m, |draws|, ids);
    Lookup(m, ids)
  }

  /** Entries looked up in a map whose clocks all read `n` read `n` too. */
  lemma LookupAllAt(m: map<string, Intersection>, n: int, ids: seq<string>)
    requires AllAt(m, n) && forall k :: 0 <= k < |ids| ==> ids[k] in m
    ensures forall k :: 0 <= k < |ids| ==> Lookup(m, ids)[k].time == n && |Lookup(m, ids)[k].history| == n
  {
  }

  /** The entries of `m` under `ids`, in order. */
  function Lookup(m: map<string, Intersection>, ids: seq<string>): (xs: seq<Intersection>)
    requires forall k :: 0 <= k < |ids| ==> ids[k] in m
    ensures |xs| == |ids| && forall k :: 0 <= k < |ids| ==> xs[k] == m[ids[k]]
  {
    if |ids| == 0 then [] else [m[ids[0]]] + Lookup(m, ids[1..])
  }

  /** After a network run, the frames of any list of its intersections number the
      ticks times the length of the list: every intersection has one sample per tick. */
  lemma RunFramesCount(layouts: seq<Layout>, c: CoordinatedSignalManager, draws: seq<string -> LaneDraws>,
                       offsets: map<string, int>, ids: seq<string>)
    requires c.cycleLength != 0
    requires forall k :: 0 <= k < |layouts| ==> DistinctNames(layouts[k])
    requires !SomeWithoutPhases(layouts)
    requires forall k :: 0 <= k < |ids| ==> ids[k] in LayoutIds(layouts)
    ensures |SynthesizeFrames(RunIntersections(layouts, c, draws, offsets, ids))| == |draws| * |ids|
  {
    UniformHistoryFrames(RunIntersections(layouts, c, draws, offsets, ids), |draws|);
  }

  /** The tests' layouts have distinct phase names, and every intersection they build has phases. */
  lemma TestLayoutsRunnable()
    ensures forall k :: 0 <= k < |TestLayouts()| ==> DistinctNames(TestLayouts()[k])
    ensures !SomeWithoutPhases(TestLayouts())
  {
    assert DistinctNames(TestLayout("A")) && DistinctNames(TestLayout("B"));
    LayoutsWithPhases(TestLayouts());
  }

  /** The coordinator of the export test: corridor N_S, a 30-tick cycle, a 10-tick band. */
  const ExportCoordinator := CoordinatedSignalManager({"N_S"}, 30, 10)

  /** A run of the tests' network holds intersections A and B. */
  lemma TestRunKeys(draws: seq<string -> LaneDraws>)
    ensures var r := RunNetworkSimulation(TestLayouts(), ExportCoordinator, draws, map[]);
            r.Success? && r.value.intersections.Keys == {"A", "B"}
  {
    TestLayoutsRunnable();
    TestLayoutIds();
    var r := RunBuiltNetwork(TestLayouts(), ExportCoordinator, draws, map[]);
    assert RunNetworkSimulation(TestLayouts(), ExportCoordinator, draws, map[]) == r;
    assert r.Success?;
  }

  /** The frames the export test synthesizes from a run of the tests' network:
      those of intersections A and B. */
  ghost function TestExportFrames(draws: seq<string -> LaneDraws>): seq<Frame>
  {
    TestLayoutsRunnable();
    TestLayoutIds();
    SynthesizeFrames(RunIntersections(TestLayouts(), ExportCoordinator, draws, map[], ["A", "B"]))
  }

  /** The export test: five ticks of the two-intersection network on a 30-tick cycle
      with a 10-tick band give ten frames, so the export is not empty. */
  lemma ExportAfterFiveTicks(draws: seq<string -> LaneDraws>)
    requires |draws| == 5
    ensures |TestExportFrames(draws)| == 10
  {
    TestLayoutsRunnable();
    TestLayoutIds();
    RunFramesCount(TestLayouts(), ExportCoordinator, draws, map[], ["A", "B"]);
  }
}
