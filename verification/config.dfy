/** The validated layout an intersection is built from (the configuration loader's
    output). Loading and validating the YAML file itself is not part of the model. */
module Config {
  import opened Base

  /** One phase of a layout: a name, the lanes it serves, and its green bounds. */
  datatype PhaseConfig = PhaseConfig(name: string, lanes: seq<string>, minGreen: int, maxGreen: int)

  /** One intersection layout: its identifier and its phases in declaration order.
      The sensor description carried by the loader is not used by the engine. */
  datatype Layout = Layout(id: string, phases: seq<PhaseConfig>)

  /** The floor the configuration loader enforces on both green bounds. */
  const MinimumGreenFloor := 5

  /** What the loader checks of one phase: both bounds at least the floor. */
  predicate LoaderAccepts(p: PhaseConfig)
  {
    p.minGreen >= MinimumGreenFloor && p.maxGreen >= MinimumGreenFloor
  }

  /** No phase name occurs twice in the layout. */
  predicate DistinctNames(layout: Layout)
  {
    forall i, j :: 0 <= i < j < |layout.phases| ==> layout.phases[i].name != layout.phases[j].name
  }

  /** The loader's checks plus the assumptions the engine relies on and nobody checks:
      at least one phase, minimum green not above maximum green, no lane twice in a
      phase, and no phase name twice in a layout. */
  predicate ValidLayout(layout: Layout)
  {
    && |layout.phases| > 0
    && (forall i :: 0 <= i < |layout.phases| ==> LoaderAccepts(layout.phases[i]))
    && (forall i :: 0 <= i < |layout.phases| ==> layout.phases[i].minGreen <= layout.phases[i].maxGreen)
    && (forall i :: 0 <= i < |layout.phases| ==> Distinct(layout.phases[i].lanes))
    && DistinctNames(layout)
  }
}
