/** What a detector reports to a decision policy for one tick. */
module Observations {

  /** Per-lane vehicle counts and, in parallel, per-lane pedestrian counts. */
  datatype DetectorObservation = DetectorObservation(vehicles: map<string, int>, pedestrians: map<string, int>)

  /** Every lane of `lanes` has an entry in `m`. */
  predicate Covers(m: map<string, int>, lanes: seq<string>)
  {
    forall j :: 0 <= j < |lanes| ==> lanes[j] in m
  }
}
