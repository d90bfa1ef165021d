/** Severity lookup of an observed value against a feature's forecasted
    bin ranges (`findLevel` in util/mainHelper.py). */
module Severity {
  import opened Wrappers

  /** One forecasted `(low, high)` bin range. */
  type Interval = (real, real)

  /** Forecasted ranges: feature name -> its bins, in level order. */
  type ForecastedRanges = map<string, seq<Interval>>

  /** `v` lies between the two ends, whichever of them is larger. */
  predicate Within(v: real, iv: Interval)
  {
    (iv.0 <= v && v <= iv.1) || (iv.1 <= v && v <= iv.0)
  }

  /** The index of the first interval at or after `from` that contains `v`. */
  function FirstMatch(ivs: seq<Interval>, v: real, from: nat): (r: Option<nat>)
    requires from <= |ivs|
    ensures r.Some? ==>
      && from <= r.value < |ivs|
      && Within(v, ivs[r.value])
      && forall j :: from <= j < r.value ==> !Within(v, ivs[j])
    ensures r.None? ==> forall j :: from <= j < |ivs| ==> !Within(v, ivs[j])
    decreases |ivs| - from
  {
    if from == |ivs| then None
    else if Within(v, ivs[from]) then Some(from)
    else FirstMatch(ivs, v, from + 1)
  }

  /** `findLevel(observedVal, featureName, forecastedRange, levels)`: one
      more than the index of the first bin containing the value, or
      `levels` (the most severe level) when none does. An unknown feature
      is a missing dictionary key. */
  function FindLevel(observed: real, feature: string, ranges: ForecastedRanges, levels: int): (r: Result<int>)
    ensures feature !in ranges <==> r.Err?
    ensures r.Err? ==> r.error == KeyError(feature)
    ensures r.Ok? ==>
      var ivs := ranges[feature];
      || (&& 1 <= r.value <= |ivs|
          && Within(observed, ivs[r.value - 1])
          && forall j :: 0 <= j < r.value - 1 ==> !Within(observed, ivs[j]))
      || (&& r.value == levels
          && forall j :: 0 <= j < |ivs| ==> !Within(observed, ivs[j]))
  {
    if feature !in ranges then Err(KeyError(feature))
    else
      match FirstMatch(ranges[feature], observed, 0)
      case Some(index) => Ok(index + 1)
      case None => Ok(levels)
  }

  /** With no more bins than levels the lookup always names a level in
      `[1, levels]`. */
  lemma LevelInRange(observed: real, feature: string, ranges: ForecastedRanges, levels: int)
    requires feature in ranges && 1 <= levels && |ranges[feature]| <= levels
    ensures FindLevel(observed, feature, ranges, levels).Ok?
    ensures 1 <= FindLevel(observed, feature, ranges, levels).value <= levels
  {
  }

  /** A value inside bin `i` gets level `i + 1` or lower: on an endpoint
      shared by two bins the lower level wins. */
  lemma FirstMatchWins(observed: real, feature: string, ranges: ForecastedRanges, levels: int, i: nat)
    requires feature in ranges && i < |ranges[feature]|
    requires Within(observed, ranges[feature][i])
    ensures FindLevel(observed, feature, ranges, levels).Ok?
    ensures 1 <= FindLevel(observed, feature, ranges, levels).value <= i + 1
  {
  }

  /** A value no bin contains gets the sentinel, most severe level. */
  lemma UnmatchedIsMostSevere(observed: real, feature: string, ranges: ForecastedRanges, levels: int)
    requires feature in ranges
    requires forall j :: 0 <= j < |ranges[feature]| ==> !Within(observed, ranges[feature][j])
    ensures FindLevel(observed, feature, ranges, levels) == Ok(levels)
  {
  }
}
