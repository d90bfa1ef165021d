/** The older copy of the engine in mainHelper.py. Its functions have the
    same bodies as those of util/mainHelper.py, except that `createTables`
    takes the number of levels first; each one is stated here through the
    shared model, with the promise the older copy makes. */
module LegacyHelper {
  import opened Wrappers
  import Binning
  import LevelTables
  import Severity
  import IE = InclusionExclusion
  import Propagation
  import OutageModel
  import opened Topology

  /** `assign_values_to_ranges(values, num_bins)`: `num_bins` bins whose
      counts add up to the number of values, the maximum in the last bin. */
  method AssignValuesToRanges(values: Option<seq<real>>, numBins: int) returns (r: Result<seq<Binning.BinCount>>)
    ensures values.None? ==> r == Ok([])
    ensures values.Some? && |values.value| == 0 ==> r == Err(ValueError)
    ensures values.Some? && |values.value| > 0 && numBins == 0 ==> r == Err(ZeroDivisionError)
    ensures values.Some? && |values.value| > 0 && numBins < 0 ==> r == Err(IndexError)
    ensures values.Some? && |values.value| > 0 && numBins > 0 ==>
      && r.Ok? && |r.value| == numBins
      && Binning.SumCounts(r.value, numBins) == |values.value|
      && r.value[numBins - 1].count >= 1
      && r.value[0].low == Binning.Min(values.value)
      && r.value[numBins - 1].high == Binning.Max(values.value)
    ensures values.Some? && |values.value| > 0 && numBins > 0 ==>
      r.Ok? && Binning.IsHistogram(values.value, numBins, r.value)
  {
    r := Binning.AssignValuesToRanges(values, numBins);
  }

  /** `createLevels(minValue, maxValue, levels)`: evenly spaced values from
      the minimum to the maximum; a single level divides by zero. */
  function CreateLevels(lo: real, hi: real, levels: int): (r: Result<seq<real>>)
    ensures r.Err? <==> levels == 1
    ensures r.Ok? ==> |r.value| == (if levels < 0 then 0 else levels)
    ensures r.Err? ==> r.error == ZeroDivisionError
    ensures r.Ok? && levels >= 2 ==>
      && r.value[0] == lo
      && r.value[levels - 1] == hi
      && forall i :: 0 <= i < levels - 1 ==> r.value[i + 1] - r.value[i] == (hi - lo) / (levels - 1) as real
  {
    LevelTables.CreateLevels(lo, hi, levels)
  }

  /** `createTables(levels, stdRange, meanRange)`: the same tables as the
      newer version, whose arguments come in the order
      `(stdRange, meanRange, levels)`. Every category gets the keys 1 to
      `levels - 1`, and key `levels - 1` holds the configured maximum. */
  function CreateTables(levels: int, stdRange: map<string, LevelTables.Range>,
                        meanRange: map<string, LevelTables.Range>): (r: Result<LevelTables.Tables>)
    ensures r.Err? <==> levels == 1 && (|stdRange| > 0 || |meanRange| > 0)
    ensures r.Ok? ==>
      && r.value.mean.Keys == meanRange.Keys && r.value.std.Keys == stdRange.Keys
      && (forall f :: f in meanRange ==> f in r.value.mean && LevelTables.HasLevelKeys(r.value.mean[f], levels))
      && (forall f :: f in stdRange ==> f in r.value.std && LevelTables.HasLevelKeys(r.value.std[f], levels))
    ensures r.Ok? && levels >= 2 ==>
      && (forall f :: f in meanRange ==> f in r.value.mean && levels - 1 in r.value.mean[f] && r.value.mean[f][levels - 1] == meanRange[f].1)
      && (forall f :: f in stdRange ==> f in r.value.std && levels - 1 in r.value.std[f] && r.value.std[f][levels - 1] == stdRange[f].1)
    ensures r.Ok? && levels != 1 ==>
      && (forall f :: f in meanRange ==> f in r.value.mean && r.value.mean[f] == LevelTables.BuildTable(meanRange[f], levels))
      && (forall f :: f in stdRange ==> f in r.value.std && r.value.std[f] == LevelTables.BuildTable(stdRange[f], levels))
  {
    LevelTables.CreateTables(stdRange, meanRange, levels)
  }

  /** `findLevel(observedVal, featureName, forecastedRange, numOfBins)`:
      one more than the first matching bin, in either orientation, else
      `numOfBins`. */
  function FindLevel(observed: real, feature: string, ranges: Severity.ForecastedRanges, numOfBins: int): (r: Result<int>)
    ensures feature !in ranges <==> r.Err?
    ensures r.Err? ==> r == Err(KeyError(feature))
    ensures r.Ok? ==>
      var ivs := ranges[feature];
      || (&& 1 <= r.value <= |ivs|
          && Severity.Within(observed, ivs[r.value - 1])
          && forall j :: 0 <= j < r.value - 1 ==> !Severity.Within(observed, ivs[j]))
      || (&& r.value == numOfBins
          && forall j :: 0 <= j < |ivs| ==> !Severity.Within(observed, ivs[j]))
  {
    Severity.FindLevel(observed, feature, ranges, numOfBins)
  }

  /** `inclusionExclusion(pr_list)`: the union probability of independent
      events; 0 for none. */
  function InclusionExclusion(prList: seq<real>): (r: real)
    ensures r == 1.0 - IE.Prod(IE.Complements(prList))
    ensures |prList| == 0 ==> r == 0.0
    ensures IE.AreProbabilities(prList) ==> 0.0 <= r <= 1.0
  {
    IE.InclusionExclusion(prList)
  }

  /** `generateProb(...)`: the node's probability when a node row is given,
      otherwise the edge's; with neither, `prob[0]` raises. */
  function GenerateProb(node: Option<OutageModel.Row>, edge: Option<OutageModel.Row>,
                        nodeFeatures: seq<string>, edgeFeatures: seq<string>,
                        meanT: map<string, LevelTables.LevelTable>, stdT: map<string, LevelTables.LevelTable>,
                        ranges: Severity.ForecastedRanges,
                        impactN: Option<map<string, real>>, impactE: Option<map<string, real>>,
                        levels: int, cdf: OutageModel.Cdf): (r: Result<real>)
    ensures var n := OutageModel.Component(node, nodeFeatures, ranges, meanT, stdT, impactN, levels, cdf);
            var e := OutageModel.Component(edge, edgeFeatures, ranges, meanT, stdT, impactE, levels, cdf);
      && (r.Ok? <==> (n.Some? || e.Some?) && (n.Some? ==> n.value.Ok?) && (e.Some? ==> e.value.Ok?))
      && (r.Ok? ==> r == (if n.Some? then n.value else e.value))
      && (n.None? && e.None? ==> r == Err(IndexError))
      && (n.Some? && n.value.Err? ==> r == n.value)
      && (r.Err? && (n.None? || n.value.Ok?) && e.Some? ==> r == e.value)
    ensures (forall a, b, c :: 0.0 <= cdf(a, b, c) <= 1.0) && r.Ok? ==> 0.0 <= r.value <= 1.0
  {
    OutageModel.GenerateProb(node, edge, nodeFeatures, edgeFeatures, meanT, stdT, ranges,
                             impactN, impactE, levels, cdf)
  }

  /** `probOfNodeAndParent(probN, probE, graph)`: the same breadth-first fold
      from node 0 for both entries, unreached nodes left as they were. */
  method ProbOfNodeAndParent(probN: seq<Propagation.Bound>, probE: seq<Propagation.Bound>, g: Graph,
                             ghost rank: map<nat, nat>) returns (r: Result<seq<Propagation.Bound>>)
    requires Ranked(g, rank)
    ensures r.Ok? <==> Propagation.ValidArcs(g, rank, |probN|, |probE|)
    ensures r.Err? ==> r.error == IndexError
    ensures r.Ok? ==> |r.value| == |probN|
    ensures r.Ok? ==> forall x :: 0 <= x < |probN| && (x == Root || x !in Reachable(g, rank)) ==>
              r.value[x] == probN[x]
    ensures r.Ok? && Propagation.AllInRange(probN) && Propagation.AllInRange(probE) ==>
              Propagation.AllInRange(r.value) && forall x :: 0 <= x < |probN| ==> Propagation.Dominates(r.value[x], probN[x])
    ensures r.Ok? && IsTree(g, rank) ==> Propagation.FoldedAlongTree(g, rank, probN, probE, r.value)
  {
    r := Propagation.ProbOfNodeAndParent(probN, probE, g, rank);
  }
}
