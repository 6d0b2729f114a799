/** Lanes, phases and intersections: the passive state of the signal-control engine
    and the small mutators the simulation loop applies to it. Every mutator is a pure
    function returning the updated value. */
module Entities {
  import opened Base
  import opened Arithmetic

  /** A lane's waiting vehicles and pedestrians. The lane identifier is the key under
      which the lane is stored in its intersection's lane map. */
  datatype Lane = Lane(queue: int, pedestrians: int)

  /** A phase: a named set of lanes that move together, its green bounds and the
      ticks elapsed since it was last activated. */
  datatype Phase = Phase(name: string, lanes: seq<string>, minGreen: int, maxGreen: int, elapsed: int)

  /** One history entry: the clock, the active phase and every lane's counts. */
  datatype Snapshot = Snapshot(time: int, phase: string, queues: map<string, int>, pedestrians: map<string, int>)

  /** An intersection: its cyclic phase sequence, its lanes, the index of the current
      phase, its clock and its append-only history. */
  datatype Intersection = Intersection(
    layoutId: string,
    phases: seq<Phase>,
    lanes: map<string, Lane>,
    index: int,
    time: int,
    history: seq<Snapshot>)

  // ---------------------------------------------------------------- lanes

  /** Adds `count` vehicles (negative for a correction), clamping the queue at zero. */
  function AddVehicle(lane: Lane, count: int): (r: Lane)
    ensures r.queue >= 0 && r.queue >= lane.queue + count
    ensures r.queue == lane.queue + count || (r.queue == 0 && lane.queue + count < 0)
    ensures r.pedestrians == lane.pedestrians
  {
    lane.(queue := Max(0, lane.queue + count))
  }

  /** Discharges up to `capacity` vehicles and returns the lane and the number removed.
      The code does not reject a negative capacity; it then adds vehicles. */
  function ClearWithCapacity(lane: Lane, capacity: int): (r: (Lane, int))
    ensures r.1 <= lane.queue && r.1 <= capacity && (r.1 == lane.queue || r.1 == capacity)
    ensures r.0.queue + r.1 == lane.queue
    ensures r.0.pedestrians == lane.pedestrians
    ensures lane.queue >= 0 && capacity >= 0 ==> r.1 >= 0 && r.0.queue >= 0
  {
    var cleared := Min(lane.queue, capacity);
    (lane.(queue := lane.queue - cleared), cleared)
  }

  // ---------------------------------------------------------------- phases

  /** Restarts the phase's green timer. */
  function Reset(p: Phase): Phase
  {
    p.(elapsed := 0)
  }

  /** Advances the phase's green timer by one tick. */
  function TickPhase(p: Phase): Phase
  {
    p.(elapsed := p.elapsed + 1)
  }

  /** The phase has not yet used up its maximum green. */
  predicate CanExtend(p: Phase)
  {
    p.elapsed < p.maxGreen
  }

  /** The phase has not yet served its minimum green and may not be cut off. */
  predicate MustExtend(p: Phase)
  {
    p.elapsed < p.minGreen
  }

  /** A phase that may not yet be cut off has green time left. */
  lemma MustExtendImpliesCanExtend(p: Phase)
    requires p.minGreen <= p.maxGreen
    ensures MustExtend(p) ==> CanExtend(p)
  {
  }

  /** The phase after a reset and `k` ticks of its timer. */
  function TickedFromReset(p: Phase, k: nat): Phase
  {
    if k == 0 then Reset(p) else TickPhase(TickedFromReset(p, k - 1))
  }

  /** The green window of a phase: after a reset and `k` ticks it may not be cut off
      exactly while `k` is below its minimum green, and may be extended exactly while
      `k` is below its maximum green. */
  lemma {:induction false} GreenWindow(p: Phase, k: nat)
    ensures TickedFromReset(p, k).elapsed == k
    ensures MustExtend(TickedFromReset(p, k)) <==> k < p.minGreen
    ensures CanExtend(TickedFromReset(p, k)) <==> k < p.maxGreen
  {
    if k > 0 {
      GreenWindow(p, k - 1);
      assert TickedFromReset(p, k - 1).minGreen == p.minGreen && TickedFromReset(p, k - 1).maxGreen == p.maxGreen by {
        TickedFromResetBounds(p, k - 1);
      }
    }
  }

  /** Resetting and ticking a phase never changes its green bounds. */
  lemma {:induction false} TickedFromResetBounds(p: Phase, k: nat)
    ensures TickedFromReset(p, k).minGreen == p.minGreen && TickedFromReset(p, k).maxGreen == p.maxGreen
  {
    if k > 0 {
      TickedFromResetBounds(p, k - 1);
    }
  }

  // ---------------------------------------------------------------- intersections

  /** The invariant every built intersection keeps: at least one phase, the current
      index in range, and every lane a phase serves present in the lane map. */
  predicate WellFormed(x: Intersection)
  {
    && |x.phases| > 0
    && 0 <= x.index < |x.phases|
    && (forall i, j :: 0 <= i < |x.phases| && 0 <= j < |x.phases[i].lanes| ==> x.phases[i].lanes[j] in x.lanes)
  }

  /** No two phases of the intersection share a name. */
  predicate UniqueNames(phases: seq<Phase>)
  {
    forall i, j :: 0 <= i < j < |phases| ==> phases[i].name != phases[j].name
  }

  /** `y` has the layout of `x`: same identifier, same phases up to their timers, same lanes. */
  predicate SameShape(x: Intersection, y: Intersection)
  {
    && x.layoutId == y.layoutId
    && |x.phases| == |y.phases|
    && (forall i :: 0 <= i < |x.phases| ==>
          && x.phases[i].name == y.phases[i].name
          && x.phases[i].lanes == y.phases[i].lanes
          && x.phases[i].minGreen == y.phases[i].minGreen
          && x.phases[i].maxGreen == y.phases[i].maxGreen)
    && x.lanes.Keys == y.lanes.Keys
  }

  /** Having the same shape is transitive. */
  lemma SameShapeTransitive(x: Intersection, y: Intersection, z: Intersection)
    requires SameShape(x, y) && SameShape(y, z)
    ensures SameShape(x, z)
  {
  }

  /** `y` is `x` run `n` ticks further: the clock moved by `n`, and the history grew by
      `n` snapshots appended to the old one, stamped with the ticks they were taken at. */
  predicate Extends(x: Intersection, y: Intersection, n: nat)
  {
    && y.time == x.time + n
    && |y.history| == |x.history| + n
    && y.history[..|x.history|] == x.history
    && (forall i :: |x.history| <= i < |y.history| ==> y.history[i].time == x.time + (i - |x.history|))
  }

  /** Running `m` ticks and then `n` more is running `m + n` ticks. */
  lemma ExtendsTransitive(x: Intersection, y: Intersection, z: Intersection, m: nat, n: nat)
    requires Extends(x, y, m) && Extends(y, z, n)
    ensures Extends(x, z, m + n)
  {
    assert z.history[..|x.history|] == z.history[..|y.history|][..|x.history|];
    forall i | |x.history| <= i < |y.history|
      ensures z.history[i].time == x.time + (i - |x.history|)
    {
      assert z.history[i] == z.history[..|y.history|][i];
    }
  }

  /** Phase names survive any change that keeps the shape. */
  lemma SameShapeUniqueNames(x: Intersection, y: Intersection)
    requires UniqueNames(x.phases) && SameShape(x, y)
    ensures UniqueNames(y.phases)
  {
    forall i, j | 0 <= i < j < |y.phases| ensures y.phases[i].name != y.phases[j].name {
      assert x.phases[i].name != x.phases[j].name;
    }
  }

  /** A well-formed intersection with the same shape as a well-formed one, and an index in range, is well formed. */
  lemma SameShapeWellFormed(x: Intersection, y: Intersection)
    requires WellFormed(x) && SameShape(x, y) && 0 <= y.index < |y.phases|
    ensures WellFormed(y)
  {
    forall i, j | 0 <= i < |y.phases| && 0 <= j < |y.phases[i].lanes|
      ensures y.phases[i].lanes[j] in y.lanes
    {
      assert x.phases[i].lanes[j] in x.lanes;
    }
  }

  /** The phase currently green. */
  function CurrentPhase(x: Intersection): Phase
    requires 0 <= x.index < |x.phases|
  {
    x.phases[x.index]
  }

  /** The current phase of a well-formed intersection is one of its phases, and every
      lane it serves is a lane the intersection tracks. */
  lemma CurrentPhaseServed(x: Intersection)
    requires WellFormed(x)
    ensures CurrentPhase(x) in x.phases
    ensures forall l :: l in CurrentPhase(x).lanes ==> l in x.lanes
  {
  }

  /** Every lane's queue, as a `lane -> int` map. */
  function Queues(lanes: map<string, Lane>): (r: map<string, int>)
    ensures r.Keys == lanes.Keys
    ensures forall l :: l in lanes ==> r[l] == lanes[l].queue
  {
    map l | l in lanes :: lanes[l].queue
  }

  /** Every lane's pedestrian count, as a `lane -> int` map. */
  function Pedestrians(lanes: map<string, Lane>): (r: map<string, int>)
    ensures r.Keys == lanes.Keys
    ensures forall l :: l in lanes ==> r[l] == lanes[l].pedestrians
  {
    map l | l in lanes :: lanes[l].pedestrians
  }

  /** Advances to the next phase in the cycle, wrapping from the last to the first,
      and restarts the newly current phase's timer. */
  function SwitchPhase(x: Intersection): (r: Intersection)
    requires WellFormed(x)
    ensures WellFormed(r) && SameShape(x, r)
    ensures r.index == if x.index + 1 < |x.phases| then x.index + 1 else 0
    ensures r.phases[r.index].elapsed == 0
    ensures forall i :: 0 <= i < |x.phases| && i != r.index ==> r.phases[i] == x.phases[i]
    ensures r.lanes == x.lanes && r.time == x.time && r.history == x.history
  {
    var next := (x.index + 1) % |x.phases|;
    ModOnce(x.index + 1, |x.phases|);
    var r := x.(index := next, phases := x.phases[next := Reset(x.phases[next])]);
    SameShapeWellFormed(x, r);
    r
  }

  /** Advances the clock by `dt` and the current phase's timer by exactly one tick. */
  function Tick(x: Intersection, dt: int): (r: Intersection)
    requires WellFormed(x)
    ensures WellFormed(r) && SameShape(x, r)
    ensures r.time == x.time + dt
    ensures r.index == x.index
    ensures r.phases[r.index].elapsed == x.phases[x.index].elapsed + 1
    ensures forall i :: 0 <= i < |x.phases| && i != x.index ==> r.phases[i] == x.phases[i]
    ensures r.lanes == x.lanes && r.history == x.history
  {
    var r := x.(time := x.time + dt, phases := x.phases[x.index := TickPhase(x.phases[x.index])]);
    SameShapeWellFormed(x, r);
    r
  }

  /** Appends one snapshot of the clock, the current phase's name and every lane's
      counts to the history; earlier entries stay as they were. */
  function Record(x: Intersection): (r: Intersection)
    requires WellFormed(x)
    ensures WellFormed(r) && SameShape(x, r)
    ensures |r.history| == |x.history| + 1 && r.history[..|x.history|] == x.history
    ensures r.history[|x.history|].time == x.time
    ensures r.history[|x.history|].phase == x.phases[x.index].name
    ensures r.history[|x.history|].queues.Keys == x.lanes.Keys
    ensures r.history[|x.history|].pedestrians.Keys == x.lanes.Keys
    ensures forall l :: l in x.lanes ==>
              && r.history[|x.history|].queues[l] == x.lanes[l].queue
              && r.history[|x.history|].pedestrians[l] == x.lanes[l].pedestrians
    ensures r.phases == x.phases && r.index == x.index && r.lanes == x.lanes && r.time == x.time
  {
    var snapshot := Snapshot(x.time, CurrentPhase(x).name, Queues(x.lanes), Pedestrians(x.lanes));
    var r := x.(history := x.history + [snapshot]);
    assert r.history[..|x.history|] == x.history;
    r
  }

  /** The first index whose phase carries `name`. */
  function IndexOfName(phases: seq<Phase>, name: string): (i: nat)
    requires exists k :: 0 <= k < |phases| && phases[k].name == name
    ensures i < |phases| && phases[i].name == name
    ensures forall k :: 0 <= k < i ==> phases[k].name != name
  {
    if phases[0].name == name then 0
    else
      assert exists k :: 0 <= k < |phases[1..]| && phases[1..][k].name == name by {
        var k :| 0 <= k < |phases| && phases[k].name == name;
        assert phases[1..][k - 1].name == name;
      }
      1 + IndexOfName(phases[1..], name)
  }

  /** Jumps straight to the first phase called `name` and restarts its timer; no other
      phase changes. The intersection code does not define this operation although the
      corridor coordinator calls it. */
  function SetPhase(x: Intersection, name: string): (r: Intersection)
    requires WellFormed(x)
    requires exists k :: 0 <= k < |x.phases| && x.phases[k].name == name
    ensures WellFormed(r) && SameShape(x, r)
    ensures r.phases[r.index].name == name && r.phases[r.index].elapsed == 0
    ensures forall k :: 0 <= k < r.index ==> x.phases[k].name != name
    ensures forall i :: 0 <= i < |x.phases| && i != r.index ==> r.phases[i] == x.phases[i]
    ensures r.lanes == x.lanes && r.time == x.time && r.history == x.history
  {
    var i := IndexOfName(x.phases, name);
    var r := x.(index := i, phases := x.phases[i := Reset(x.phases[i])]);
    SameShapeWellFormed(x, r);
    r
  }

  // ---------------------------------------------------------------- cyclic advancement

  /** The intersection after `k` consecutive phase switches. */
  function SwitchTimes(x: Intersection, k: nat): (r: Intersection)
    requires WellFormed(x)
    ensures WellFormed(r) && SameShape(x, r)
    ensures r.index == (x.index + k) % |x.phases|
    decreases k
  {
    if k == 0 then x
    else
      var prev := SwitchTimes(x, k - 1);
      ModSuccessor(x.index + k - 1, |x.phases|);
      SwitchPhase(prev)
  }

  /** The current index after `k < |phases|` switches, without the modulus. */
  lemma SwitchTimesIndex(x: Intersection, k: nat)
    requires WellFormed(x) && k < |x.phases|
    ensures SwitchTimes(x, k).index == if x.index + k < |x.phases| then x.index + k else x.index + k - |x.phases|
  {
    ModOnce(x.index + k, |x.phases|);
  }

  /** The indices current after 0, 1, ..., k - 1 switches. */
  function Visited(x: Intersection, k: nat): set<int>
    requires WellFormed(x)
  {
    set j | 0 <= j < k :: SwitchTimes(x, j).index
  }

  /** Switching |phases| times returns to the starting phase: the index lands on
      `(index + n) % n`, the start. */
  lemma SwitchCycleReturns(x: Intersection)
    requires WellFormed(x)
    ensures SwitchTimes(x, |x.phases|).index == x.index
  {
    SwitchTimesWrap(x, |x.phases|);
  }

  /** SwitchCycleReturns with the phase count bound to a name of its own. */
  lemma SwitchTimesWrap(x: Intersection, n: nat)
    requires WellFormed(x) && n == |x.phases|
    ensures SwitchTimes(x, n).index == x.index
  {
    WrapAround(x.index, n);
  }

  /** Adding the modulus once to an index already below it changes nothing. */
  lemma WrapAround(i: int, n: nat)
    requires 0 <= i < n
    ensures (i + n) % n == i
  {
    ModShift(i, n, 1);
    ModOnce(i, n);
  }

  /** Within one cycle no phase is current twice. */
  lemma SwitchCycleDistinct(x: Intersection, j: nat, k: nat)
    requires WellFormed(x) && j < k < |x.phases|
    ensures SwitchTimes(x, j).index != SwitchTimes(x, k).index
  {
    SwitchTimesIndex(x, j);
    SwitchTimesIndex(x, k);
  }

  /** Within one cycle every phase is current once. */
  lemma SwitchCycleCovers(x: Intersection)
    requires WellFormed(x)
    ensures forall i :: i in Visited(x, |x.phases|) <==> 0 <= i < |x.phases|
  {
    var n := |x.phases|;
    forall i | 0 <= i < n
      ensures i in Visited(x, n)
    {
      var k := if i >= x.index then i - x.index else i + n - x.index;
      SwitchTimesIndex(x, k);
    }
  }
}
