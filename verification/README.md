# Traffic signal control: a Dafny model of the simulation core

This project models the signal-control simulation engine of `traffic_lights_optimization`:

- the lane, phase and intersection entities;
- the demand-responsive phase controller;
- the single-intersection simulation loop;
- the corridor coordinator that runs several intersections as a green wave;
- the synthesis of digital-twin frames from intersection histories;
- the per-lane tally of camera detections.

Every Python mutation becomes a pure function that returns the updated value. Python's run-time errors become a `Result`:

- `KeyError` becomes `MissingKey`.
- `AttributeError` becomes `MissingMethod`.
- `IndexError` becomes `IndexOutOfRange`.
- `ZeroDivisionError` becomes `DivisionByZero`.

The random draws are inputs. A `LaneDraws` value gives the integer Gaussian draw and the crossing outcome for each lane. A run takes one such value per tick for a single intersection, and one per intersection per tick for a network.

Modules, one per source file:

| file | module | source |
|---|---|---|
| `base.dfy` | `Base` | `Option`, `Result`, `Error`, `max`/`min`/`dict.get` |
| `sums.dfy` | `Sums` | sums of `lane -> int` maps over sets of keys |
| `arithmetic.dfy` | `Arithmetic` | remainder facts for the cyclic phase index and the green band |
| `config.dfy` | `Config` | `PhaseConfig`, `LayoutConfig` and the loader's `ge=5` floors |
| `entities.dfy` | `Entities` | `LaneState`, `PhaseState`, `IntersectionState` |
| `observation.dfy` | `Observations` | `DetectorObservation` |
| `policy.dfy` | `Policy` | `ActuationDecision`, `PhaseController`, `DemandResponsiveController` |
| `simulator.dfy` | `Simulator` | `build_intersection`, arrivals, pedestrians, observation capture, discharge, `run_simulation` |
| `network.dfy` | `Network` | `TrafficNetwork`, `build_network`, `CoordinatedSignalManager`, `run_network_simulation` |
| `network_scenarios.dfy` | `NetworkScenarios` | the two scenarios of `tests/test_network.py` |
| `omniverse.dfy` | `Omniverse` | `synthesize_frames` |
| `vision.dfy` | `Vision` | `Detection`, `detections_to_counts` |

Three invariants carry the proofs:

- `WellFormed` on an intersection: at least one phase, an index in range, and every phase lane present in the lane map.
- `Ready` on a network: every intersection is well formed, and no two phases of an intersection share a name.
- `SameShape`: the phase names, lanes and green bounds never change after the intersection is built.

## Model

| member | source | states |
|---|---|---|
| Entities.AddVehicle | src/simulation/entities.py:13-14 | The new queue is never negative, whatever the count (negative counts included). It is exactly old queue plus count whenever that is non-negative, and zero otherwise. The pedestrian count is untouched. |
| Entities.ClearWithCapacity | src/simulation/entities.py:16-19 | The amount cleared is the smaller of queue and capacity: at most each, and equal to one of them. What is cleared plus what remains equals the old queue, and both are non-negative when queue and capacity are. |
| Entities.MustExtendImpliesCanExtend | src/simulation/entities.py:36-42 | With minimum green not above maximum green, a phase that must still extend can extend. |
| Entities.GreenWindow | src/simulation/entities.py:30-42 | k ticks after a reset the timer reads k. From then on the phase must extend exactly while k is below minimum green, and can extend exactly while k is below maximum green. |
| Entities.CurrentPhaseServed | src/simulation/entities.py:54-56 | The current phase is one of the intersection's phases, and every lane it serves is in the lane map. |
| Entities.SwitchPhase | src/simulation/entities.py:58-60 | The index moves to the next phase and wraps from the last phase to the first. It stays in range. Only the newly current phase's timer restarts. Every other phase, the lanes, the clock and the history are unchanged. |
| Entities.SwitchTimes | src/simulation/entities.py:58-59 | After k switches the index is the start index plus k, taken modulo the number of phases. |
| Entities.SwitchCycleReturns | src/simulation/entities.py:58-59 | Switching once per phase brings the intersection back to its starting phase. |
| Entities.SwitchCycleDistinct | src/simulation/entities.py:58-59 | Within fewer switches than there are phases, no phase is visited twice. |
| Entities.SwitchCycleCovers | src/simulation/entities.py:58-59 | One full cycle of switches visits every phase index and nothing else. |
| Entities.Tick | src/simulation/entities.py:62-64 | The clock advances by `dt` and the current phase's timer by exactly one. The index, the other phases, the lanes and the history are unchanged. |
| Entities.Record | src/simulation/entities.py:66-73 | Exactly one snapshot is appended, and earlier entries are kept. It holds the current clock, the current phase's name, and every lane's queue and pedestrian count, keyed by exactly the lanes of the intersection. Nothing else changes. |
| Entities.SetPhase | src/simulation/network.py:99 | The corrected `set_phase`: the current phase becomes the first phase with the given name, and its timer restarts. No other phase changes, and the lanes, clock and history are kept. |
| Policy.Decide | src/control/policy.py:25-39 | The lookup fails exactly when the observation lacks a vehicle or pedestrian entry for a lane of the current phase. Within minimum green the decision is hold. It is switch exactly when three things hold: minimum green has passed; there is no pedestrian hold; and the queue reaches the threshold or maximum green is reached. |
| Policy.AsController | src/control/policy.py:15-17 | The reference controller meets the controller protocol. It answers as `Decide` on every well-formed intersection, and fails with an index error on an intersection without phases, where reading the current phase raises. |
| Policy.SumLanesLocal | src/control/policy.py:27-28 | The sum over a phase's lanes reads only the entries of those lanes. |
| Policy.SumLanesConcat | src/control/policy.py:27-28 | Summing over two lane lists in turn gives the sum of the two sums, so a lane listed twice counts twice, as in the generator the code sums. |
| Policy.SumLanesSingle | src/control/policy.py:27-28 | A one-lane list sums to that lane's entry. |

| Policy.SumLanesPositive | src/control/policy.py:27-28 | A sum over the phase's lanes of non-negative counts is non-negative, and positive exactly when some lane's count is. |
| Policy.DecideLocal | src/control/policy.py:26-28 | Two observations that agree on the current phase's lanes give the same decision, whatever they hold for other lanes. |
| Policy.MinimumGreenHold | src/control/policy.py:30-31 | Before minimum green, any observation covering the phase's lanes gives hold. |
| Policy.PedestrianHold | src/control/policy.py:33-34 | With pedestrian priority on and a pedestrian waiting on a current-phase lane, the decision is hold whatever the queue. |
| Policy.MaximumGreenBound | src/control/policy.py:36-39 | Past both minimum and maximum green and with no pedestrian hold, the decision is switch, even with a short queue. |
| Policy.ScenarioHoldWithinMinimumGreen | tests/test_policy.py:12-18 | At elapsed 0 with threshold 5, the first policy test's observation gives hold. |
| Policy.ScenarioSwitchAtThreshold | tests/test_policy.py:21-28 | At elapsed 6 with 12 vehicles against threshold 5, the decision is switch. |
| Simulator.BuildIntersection | src/simulation/simulator.py:12-23 | Phases are copied in layout order with their timers at zero. The lanes are exactly the union of the phases' lanes, each empty. Index and clock are zero and the history is empty. A layout with a phase gives a well-formed intersection, and distinct phase names stay distinct. |
| Simulator.BuildValidLayout | src/utils/config.py:10-14 | A layout satisfying the loader's floors and the engine's assumptions gives a well-formed intersection. Every phase starts with minimum green at least 5, inside its minimum green, and with distinct lanes. |
| Simulator.SimulateArrivals | src/simulation/simulator.py:26-29 | No queue shrinks. A non-negative queue grows by exactly the draw clamped at zero. Pedestrian counts and the set of lanes are unchanged. |
| Simulator.SimulatePedestrians | src/simulation/simulator.py:32-35 | A lane gains one pedestrian exactly when its crossing draw succeeds, and otherwise none. Queues are unchanged. |
| Simulator.InjectDemand | src/simulation/simulator.py:64-65 | Arrivals, then crossings: no queue shrinks, and a non-negative queue grows by exactly the arrival draw clamped at zero. Pedestrians rise by the crossing bit, and phases, index, clock and history are kept. |
| Simulator.CaptureObservations | src/simulation/simulator.py:38-41 | The observation reports every lane's queue and pedestrian count, and no other lane. |
| Simulator.CapturedObservationSuffices | src/simulation/simulator.py:38-41 | On an observation captured from the intersection itself, the reference controller's lookups never fail. |
| Simulator.DischargeLanes | src/simulation/simulator.py:47-49 | Only the listed lanes' queues change, and pedestrians are untouched. The result has one discharge entry per listed lane, none other, each at most the flow. |
| Simulator.DischargeLanesExact | src/simulation/simulator.py:47-49 | When no lane is listed twice, each listed lane loses exactly what is reported: its whole queue or the flow, whichever is smaller. |
| Simulator.DischargeLanesNonNegative | src/simulation/simulator.py:47-49 | With a non-negative flow and queues, no queue and no discharged amount is negative. |
| Simulator.DecayPedestrians | src/simulation/simulator.py:50-51 | Every lane's pedestrian count drops by one, floored at zero. Queues are unchanged. |
| Simulator.ApplyDischarge | src/simulation/simulator.py:44-52 | Only the current phase's lanes discharge, with one returned entry per such lane, each at most the flow. Every lane's pedestrians decay whatever the phase, and counts stay non-negative. |
| Simulator.ApplyDischargeExact | src/simulation/simulator.py:44-52 | When the current phase lists each lane once, each of its lanes loses exactly `min(queue, flow)`, and that is the amount returned. |
| Simulator.CompleteTickRecords | src/simulation/simulator.py:72-74 | Every lane's pedestrian count after the tick is the old one less one, floored at zero. The snapshot recorded in the tick holds each lane's queue and pedestrian count as they stand after discharge. |
| Simulator.CompleteTickDischarges | src/simulation/simulator.py:44-49 | When the current phase lists each lane once, each of its lanes ends the tick with its queue less `min(queue, flow)` at the default flow. |
| Simulator.CompleteTick | src/simulation/simulator.py:72-74 | Discharge, record, then tick. The recorded snapshot carries the clock from before the tick and the phase in force. The clock and the phase timer advance by one. Lanes outside the phase keep their queues, and counts stay non-negative. |
| Simulator.Step | src/simulation/simulator.py:64-74 | A tick fails exactly when the controller, asked after demand has arrived, fails. Otherwise the result is `Actuate` of the post-arrival intersection with the controller's answer. It is well formed with the same shape, the clock and history advance by one, the new entry names the phase in force, and counts stay non-negative. |
| Simulator.Actuate | src/simulation/simulator.py:69-74 | The half of a tick after the answer. The switch happens exactly when asked for, and before discharge. The phase timer reads 1 after a switch and one more than before after a hold. Lanes outside the phase in force keep their queues, and the result is that intersection discharged, recorded and ticked as `CompleteTick` states. |
| Simulator.StepDischargesPhaseInForce | src/simulation/simulator.py:69-74 | Discharge serves the phase in force after the switch. When that phase lists each lane once, each of its lanes ends the tick with its post-arrival queue less `min(queue, 5)`. |
| Simulator.RunFrom | src/simulation/simulator.py:63-74 | After n ticks the clock and the history have advanced by n, with the new entries stamped consecutively. The shape is kept, and counts stay non-negative. |
| Simulator.RunSimulation | src/simulation/simulator.py:55-76 | A successful run of n ticks ends with clock n, n history entries stamped 0, 1, ..., n-1, and no negative count. A layout without phases fails exactly when at least one tick is asked for. The error is then the controller's own failure if it fails; a division by zero if it answers switch, since the index is taken modulo zero phases; and an index error otherwise, when the current phase is read. |
| Simulator.RunSimulationDemandResponsiveSucceeds | src/simulation/simulator.py:55-76 | With the reference controller, a run fails only when the layout has no phases and some tick is asked for, and the failure is then an index error. |
| Network.RecordNetwork | src/simulation/network.py:26-37 | Exactly one network snapshot is appended, and earlier ones are kept. It carries the network clock and, for exactly the network's intersections, their current phase name and queues. |
| Network.BuildIntersections | src/simulation/network.py:40-41 | One intersection per layout identifier. A later layout with the same identifier replaces an earlier one. |
| Network.DefaultOffsets | src/simulation/network.py:42-44 | Every intersection gets an offset, zero unless the supplied offsets say otherwise. Supplied offsets for unknown identifiers are kept. |
| Network.BuildNetwork | src/simulation/network.py:40-45 | The network starts at time zero with an empty history. Its offsets cover every intersection and agree with the supplied ones. |
| Network.BuildNetworkReady | src/simulation/network.py:40-45 | From layouts with distinct phase names, the built network is ready exactly when every intersection it holds has a phase. |
| Network.LayoutsWithPhases | src/simulation/network.py:40-41 | When every layout has a phase, so does every intersection built from the layouts. |
| Network.BuildNetworkFresh | src/simulation/network.py:40-45 | Every built intersection has its clock at zero and an empty history. |
| Network.PyMod | src/simulation/network.py:69 | Python's remainder takes the sign of the divisor: for a positive cycle it is in [0, cycle) and agrees with Dafny's, and for a negative cycle it is in (cycle, 0]. |
| Network.GreenBandDegenerate | src/simulation/network.py:68-69 | At the extremes of the band: with a positive cycle, a band of zero or less is never open and a band of a whole cycle or more always is. With a negative cycle the remainder is at most zero, so a positive band is always open and a band at most one more than the cycle never is. |
| Network.GreenBandPeriodic | src/simulation/network.py:68-69 | The band test repeats with the cycle length. |
| Network.GreenBandFromCycleStart | src/simulation/network.py:68-69 | From a tick where the offset-adjusted cycle starts, the band is exactly the first `greenBand` ticks. |
| Network.GreenBandCount | src/simulation/network.py:68-69 | For 0 <= band <= cycle, any `cycle` consecutive ticks contain exactly `band` ticks inside the band. |
| Network.CorridorPhaseIndex | src/simulation/network.py:62-66 | The result is the first phase in declaration order that serves a corridor lane. It is none exactly when no phase does. |
| Network.CorridorPhase | src/simulation/network.py:62-66 | The corridor phase's name is that of the first phase serving a corridor lane, and it is present exactly when such a phase exists. |
| Network.PressuresPartitionVehicles | src/simulation/network.py:76-86 | Corridor pressure plus cross pressure is the total of all reported vehicles. Each reported vehicle counts on exactly one side, and a missing corridor lane counts zero. |
| Network.PrioritizeCorridorHalf | src/simulation/network.py:76-88 | The corridor gets priority exactly when it carries at least half of all reported vehicles. |
| Network.IdleCrossPrioritizesCorridor | src/simulation/network.py:76-88 | With no vehicle on any cross lane and no negative count, the corridor gets priority. |
| Network.Align | src/simulation/network.py:96-101 | Forced alignment, corrected: the current phase becomes the target, and the clock, history, lanes and shape are kept. An intersection already on the target is left exactly as it was, timers included. Otherwise only the target phase's timer changes, restarting at zero. |
| Network.AlignAsWritten | src/simulation/network.py:98-99 | As written, alignment raises `AttributeError` exactly when the intersection is not already on the target phase, and otherwise leaves it as it is. |
| Network.Coordinate | src/simulation/network.py:91-103 | One intersection's part of the round. If forced, it ends on its first corridor phase with a hold. It is left exactly as it was when already on that phase, and otherwise only the corridor phase's timer changes, restarting at zero. Otherwise it is left as it was, and the decision is its reference controller's. |
| Network.CoordinateAll | src/simulation/network.py:89-105 | There is one decision per intersection, no more. Each intersection is handled as `Coordinate` says, and the rest of the network is unchanged. |
| Network.SyncAndDecide | src/simulation/network.py:71-105 | With the corrected `set_phase`, the round fails exactly in three cases: an intersection lacks an observation; an intersection handed to its local controller has a failed lookup; or the band is consulted with a zero cycle length. A contested intersection with a zero cycle length raises at the band check, before any local lookup. The error is the matching one. On success the result has one decision per intersection, each intersection is coordinated as `Coordinate` says, and the network clock, offsets and history are unchanged. |
| Network.InjectAll | src/simulation/network.py:119-121 | Each intersection receives its own arrivals and crossings, and the rest of the network is unchanged. |
| Network.ObserveAll | src/simulation/network.py:123-126 | One captured observation per intersection, keyed by identifier. |
| Network.CapturedNetworkSucceeds | src/simulation/network.py:123-128 | Captured observations never make a lookup fail. A round on them fails only when the band is consulted with a zero cycle length. |
| Network.ApplySwitches | src/simulation/network.py:129-131 | Exactly the intersections told to switch advance their phase; the others are unchanged. |
| Network.CompleteAll | src/simulation/network.py:133-136 | Every intersection is discharged, recorded and ticked exactly as a single-intersection tick completes it. The network stays ready, and its own fields are unchanged. |
| Network.CompleteAllAdvances | src/simulation/network.py:133-136 | Every intersection's clock and history move on by one, and each stays on its phase. |
| Network.SwitchAndComplete | src/simulation/network.py:129-136 | Every intersection's clock and history move on by one. An intersection told to hold keeps its phase. Each intersection ends as a single-intersection tick completes it, after switching exactly when its decision says so. |
| Network.FinishTick | src/simulation/network.py:129-139 | As `SwitchAndComplete`, including the per-intersection completion, then one network snapshot stamped with the old network time, and the network clock advances by one. The snapshot is taken after completion: it holds each completed intersection's current phase name and queues, for exactly the network's intersections. |
| Network.CoordinateTick | src/simulation/network.py:119-128 | With the corrected `set_phase`, demand, observation and the round fail only with a zero cycle length. A forced intersection ends the round on its corridor phase with a hold, and no clock moves. |
| Network.NetworkStep | src/simulation/network.py:118-139 | One network tick moves the network clock and every intersection's clock and history forward by one, in lock-step, stamping the new network snapshot with the old time. The snapshot holds the intersections as the tick leaves them. Each intersection ends as the coordination round and a single-intersection completion leave it. With the corrected `set_phase`, only a zero cycle length can make it fail, with a division by zero. |
| Network.NetworkStepKeepsCorridor | src/simulation/network.py:96-101 | An intersection forced in a tick ends the whole tick, discharged and recorded, on its corridor phase. |
| Network.RunNetworkFrom | src/simulation/network.py:118-139 | With the corrected `set_phase`: after n ticks the network clock, every intersection's clock and every history have advanced by n, and the new network snapshots are stamped consecutively. |
| Network.StartNetwork | src/simulation/network.py:116 | The starting network is ready, with all clocks at zero and every history empty. It holds one intersection per layout identifier, each with an offset. |
| Network.RunBuiltNetwork | src/simulation/network.py:116-141 | With the corrected `set_phase`, a run over intersections that all have phases fails only with a zero cycle length. |
| Network.RunNetworkSimulation | src/simulation/network.py:108-141 | With the corrected `set_phase`: after n ticks the network clock and history length are n, history entries are stamped 0, ..., n-1, and every intersection's clock and history length are n. Intersections without phases fail any run of at least one tick. |
| NetworkScenarios.TestIntersection | tests/test_network.py:13-21 | The tests' layout builds a well-formed intersection with two phases: `main_corridor` on N_S, then `side_street` on E_W. |
| NetworkScenarios.TestNetwork | tests/test_network.py:25-35 | The alignment test's network at time 3 has A on `main_corridor` and B on `side_street`, with offsets 0 and 5. |
| NetworkScenarios.TestNetworkForced | tests/test_network.py:24-36 | In that test both A and B are forced: corridor traffic only, a corridor phase, and cycle positions 3 and 8 (network time 3 plus offsets 0 and 5) inside the first 15 ticks of a 60-tick cycle. |
| NetworkScenarios.CorridorAlignmentAtTimeThree | tests/test_network.py:36-39 | With the corrected `set_phase`, after the round, B is on `main_corridor`, there are decisions for A and B only, and neither switches. |
| NetworkScenarios.AlignmentAsWrittenRaises | tests/test_network.py:24-39 | As written, the alignment of B raises `AttributeError`. |
| NetworkScenarios.AlignmentCorrectedSucceeds | tests/test_network.py:24-39 | With `set_phase` supplied, B is aligned onto `main_corridor`. |
| NetworkScenarios.ZeroCycleBandCheckComesFirst | src/simulation/network.py:91-103 | A lone intersection on its corridor phase with corridor traffic only and a zero cycle length: its own controller lookup would fail, yet the round raises the division by zero, because the band check comes first. |
| NetworkScenarios.TestRunKeys | tests/test_network.py:43-50 | A run of the export test's network succeeds and holds intersections A and B. |
| NetworkScenarios.RunFramesCount | src/simulation/omniverse.py:10-23 | After a network run of n ticks, any list of m of its intersections gives n times m frames. |
| NetworkScenarios.ExportAfterFiveTicks | tests/test_network.py:42-58 | Five ticks of the two-intersection network give ten frames, so the export is not empty. |
| Omniverse.FramesOf | src/simulation/omniverse.py:13-22 | One frame per history sample, in order. Each frame copies the sample's time, phase, queues and pedestrians, tagged with the layout identifier. |
| Omniverse.Flatten | src/simulation/omniverse.py:11-22 | The count is the total history length. Every frame comes from some sample, and every sample appears as a frame. |
| Omniverse.StrLeIsLexicographic | src/simulation/omniverse.py:23 | The character-by-character string order is the textbook lexicographic order: a prefix comes first, and otherwise the first differing character decides. |
| Omniverse.StrLeReflexive | src/simulation/omniverse.py:23 | Every string sorts no later than itself. |
| Omniverse.StrLeTotal | src/simulation/omniverse.py:23 | Any two strings compare one way or the other. |
| Omniverse.StrLeTransitive | src/simulation/omniverse.py:23 | The string order is transitive. |
| Omniverse.StrLeAntisymmetric | src/simulation/omniverse.py:23 | Two strings each sorting no later than the other are equal. |
| Omniverse.FrameLeTotal | src/simulation/omniverse.py:23 | Any two frames compare one way or the other on (time, intersection). |
| Omniverse.FrameLeTransitive | src/simulation/omniverse.py:23 | The frame order on (time, intersection) is transitive. |
| Omniverse.FrameLeAntisymmetric | src/simulation/omniverse.py:23 | Two frames each sorting no later than the other share their (time, intersection) key. |
| Omniverse.SortFrames | src/simulation/omniverse.py:23 | The sort keeps the length and is a permutation of its input. |
| Omniverse.SortFramesSorted | src/simulation/omniverse.py:23 | The output is ordered by time, then by intersection identifier compared as Python compares strings. |
| Omniverse.SortFramesStable | src/simulation/omniverse.py:23 | The sort is stable: frames with equal (time, intersection) keep their input order. |
| Omniverse.SynthesizeFrames | src/simulation/omniverse.py:10-23 | The output is sorted, has the total history length as its count, and is a permutation of the flattened frames. Every frame comes from a sample, and every sample appears. |
| Omniverse.SynthesizeFramesStable | src/simulation/omniverse.py:10-23 | Frames sharing a (time, intersection) key appear in the order in which the intersections and their histories supply them. |
| Omniverse.NoSamplesNoFrames | src/simulation/omniverse.py:11-23 | No intersections, or only empty histories, give no frames. |
| Omniverse.UniformHistoryFrames | src/simulation/omniverse.py:10-23 | m intersections with n samples each give n times m frames. |
| Vision.DetectionsToCounts | src/vision/nvidia_inference.py:40-44 | The lanes counted are exactly those some detection lies in, and each count is at least one. An empty list gives an empty map. |
| Vision.CountsAreMultiplicities | src/vision/nvidia_inference.py:40-44 | Every lane's count is the number of detections in that lane, whatever their labels and confidences. |
| Vision.CountsTotal | src/vision/nvidia_inference.py:40-44 | The counts add up to the number of detections. |
| Vision.CountsOrderIndependent | src/vision/nvidia_inference.py:41-44 | The counts depend only on how many detections lie in each lane, not on their order. |

## Left out

- The web application, the command-line entry point, the reinforcement-learning agent and the YAML/pydantic loading are outside the simulation core. The loader's floors on the green bounds are kept as `Config.LoaderAccepts`.
- `NvidiaInferenceEngine.load` and `infer` are left out. They are a GPU runtime, a file read and stubbed detections. Detections are an input.
- `export_omniverse_synthetic_data` is left out: it writes JSON to a file. Only `synthesize_frames` is modelled.
- The Gaussian and uniform draws and the float `arrival_intensity` and `crossing_rate` are inputs. An arrival is the integer the code takes from `random.gauss`, which the model clamps at zero as the code does. A crossing is the outcome of `random.random() < crossing_rate`.
- A run takes a sequence of per-tick draws instead of `steps`. A negative `steps` runs no ticks in the code, which is the empty sequence here.
- Python mutates in place, and a run that raises part-way leaves earlier mutations behind; the model returns only the failure. One example is a coordination round that realigns some intersections before a `KeyError`.
- The coordinator's `local_controllers` cache is left out. It creates a default `DemandResponsiveController` per intersection with `setdefault`, and that controller keeps no state. The model uses the default controller directly (threshold 12, pedestrian priority on).
- Dictionary iteration order is not modelled. It decides only which error surfaces first when several apply, and the order of frames before sorting (the model takes the intersections as a sequence).
- `PhaseState.reset` and `PhaseState.tick` are `Entities.Reset` and `Entities.TickPhase`. Their effect is stated through `Entities.SwitchPhase`, `Entities.SetPhase` and `Entities.Tick`.
- `LaneState.id` is left out: a lane is stored under its identifier, and `build_intersection` always makes the two agree.
- `Entities.ClearWithCapacity` follows the code for a negative capacity. The code does not reject one: the amount is then negative and the queue grows. The stated conservation and bounds still hold.
- `Entities.SetPhase`: the repository defines no `set_phase`. The model restarts the new phase's timer, as `switch_phase` does for the phase it lands on (src/simulation/entities.py:58-60).
- `Entities.SwitchPhase`, `Entities.Tick`, `Entities.Record`, `Policy.Decide` and the simulator step functions require a well-formed intersection. That is an intersection with a phase, an index in range and every phase lane in the lane map. `build_intersection` establishes it, and every operation keeps it. Python's negative list indices are not modelled.
- `Network.RunNetworkSimulation` requires distinct phase names within each layout (the network's `Ready` invariant). The coordinator jumps to a phase by name, and the only such operation is the corrected one, which picks the first phase with that name. With repeated names, which phase "the phase named X" means is ambiguous.
- `Network.RunNetworkSimulation`: with a zero cycle length it states only that a failure is a division by zero after at least one tick. Whether it fails depends on the pressures observed in each tick.
- `Network.RunNetworkFrom`: it states that only a zero cycle length can make it fail, not exactly when it does.
- `Network.SyncAndDecide`, `Network.CoordinateTick`, `Network.NetworkStep`, `Network.RunNetworkFrom`, `Network.RunBuiltNetwork`, `Network.RunNetworkSimulation` and `NetworkScenarios.CorridorAlignmentAtTimeThree` use the corrected `set_phase` (see Findings). As written, any round that forces an intersection off its current phase onto the corridor phase raises `AttributeError` instead; `Network.AlignAsWritten` states exactly when. Their failure statements therefore hold only for the corrected code.
- `Network.SyncAndDecide`: when several failures apply at once, it states only that the error is one of those that apply. Which one is raised depends on dictionary order.
- `Simulator.SimulateArrivals` and `Simulator.InjectDemand`: for a negative starting queue it states only that the queue does not shrink. No run reaches a negative queue, since `build_intersection` starts every queue at zero.
- `Simulator.DischargeLanesExact` and `Simulator.ApplyDischargeExact` require each lane to appear once in the phase. The code clears a repeated lane twice and reports only the second amount.
- `NetworkScenarios.ExportAfterFiveTicks`: it states the frame count of the export test, not the metadata it checks, because metadata belongs to the file export.

## Findings

| source | as written | input that shows it | evidently intended | confidence | as-written member | corrected member |
|---|---|---|---|---|---|---|
| src/simulation/network.py:99 | Forced alignment calls `intersection.set_phase(target_phase)`, but `IntersectionState` (src/simulation/entities.py:45-73) defines no `set_phase`, so the call raises `AttributeError`. | tests/test_network.py:24-39. B sits on `side_street` at network time 3 with offset 5 and corridor-only traffic, so it must be moved to `main_corridor`. The test's own call at line 29 raises the same way. | Jump the intersection to the phase with that name and restart its timer. | high, not executed | Network.AlignAsWritten, NetworkScenarios.AlignmentAsWrittenRaises | Entities.SetPhase, Network.Align, NetworkScenarios.AlignmentCorrectedSucceeds |
