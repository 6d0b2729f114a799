/** Turning camera detections into per-lane vehicle counts. Loading the inference
    engine and running it on frames are not modelled; the detections are the input. */
module Vision {
  import opened Base
  import opened Sums

  /** One detection: its `label` (what was seen), how sure the detector is, and the lane it lies in. */
  datatype Detection = Detection(labelName: string, confidence: real, laneId: string)

  /** The lane of every detection, in order. */
  function LaneIds(ds: seq<Detection>): (r: seq<string>)
    ensures |r| == |ds|
    ensures forall i :: 0 <= i < |ds| ==> r[i] == ds[i].laneId
  {
    seq(|ds|, i requires 0 <= i < |ds| => ds[i].laneId)
  }

  /** The tally: one more for the lane of each detection in turn, whatever its label
      or confidence. The lanes counted are exactly those some detection lies in, and
      each is counted at least once. */
  function DetectionsToCounts(ds: seq<Detection>): (r: map<string, int>)
    ensures forall l :: l in r <==> l in multiset(LaneIds(ds))
    ensures forall l :: l in r ==> r[l] >= 1
    decreases |ds|
  {
    if |ds| == 0 then map[]
    else
      var counts := DetectionsToCounts(ds[..|ds| - 1]);
      var lane := ds[|ds| - 1].laneId;
      LaneIdsSnoc(ds);
      counts[lane := GetOrZero(counts, lane) + 1]
  }

  /** The lanes of the detections, counted with multiplicity, are those of all but the
      last detection plus the last one's. */
  lemma LaneIdsSnoc(ds: seq<Detection>)
    requires |ds| > 0
    ensures multiset(LaneIds(ds)) == multiset(LaneIds(ds[..|ds| - 1])) + multiset{ds[|ds| - 1].laneId}
  {
    assert LaneIds(ds) == LaneIds(ds[..|ds| - 1]) + [ds[|ds| - 1].laneId];
  }

  /** Every lane's count is the number of detections in that lane. */
  lemma {:induction false} CountsAreMultiplicities(ds: seq<Detection>, l: string)
    ensures GetOrZero(DetectionsToCounts(ds), l) == multiset(LaneIds(ds))[l]
    decreases |ds|
  {
    if |ds| > 0 {
      CountsAreMultiplicities(ds[..|ds| - 1], l);
      LaneIdsSnoc(ds);
    }
  }

  /** The counts add up to the number of detections. */
  lemma {:induction false} CountsTotal(ds: seq<Detection>)
    ensures MapTotal(DetectionsToCounts(ds)) == |ds|
    decreases |ds|
  {
    if |ds| == 0 {
      SumSetZero({}, k => GetOrZero(map[], k));
    } else {
      CountsTotal(ds[..|ds| - 1]);
      MapTotalIncrement(DetectionsToCounts(ds[..|ds| - 1]), ds[|ds| - 1].laneId);
    }
  }

  /** The counts depend only on how many detections lie in each lane, not on their
      order, labels or confidences. */
  lemma CountsOrderIndependent(ds: seq<Detection>, es: seq<Detection>)
    requires multiset(LaneIds(ds)) == multiset(LaneIds(es))
    ensures DetectionsToCounts(ds) == DetectionsToCounts(es)
  {
    var a, b := DetectionsToCounts(ds), DetectionsToCounts(es);
    forall l | l in a ensures l in b && a[l] == b[l] {
      CountsAreMultiplicities(ds, l);
      CountsAreMultiplicities(es, l);
    }
    assert a.Keys == b.Keys;
  }
}
