/** The outage-probability assembly of util/mainHelper.py: the per-feature
    weather impact (`weatherImpact`), the vectors `generateProb` hands to
    the multivariate normal CDF, and how the tables built in main.py make
    every severity lookup succeed. */
module OutageModel {
  import opened Wrappers
  import opened Strings
  import opened Severity
  import opened LevelTables
  import opened Binning

  // ---------------------------------------------------------------------
  // weatherImpact

  /** `np.dot` of two 1-D arrays of equal length. */
  function Dot(a: seq<real>, x: seq<real>): real
    requires |a| == |x|
  {
    if |a| == 0 then 0.0 else a[0] * x[0] + Dot(a[1..], x[1..])
  }

  /** `weatherImpact(alpha, observed)`: every feature of `alpha` mapped to
      the dot product of its coefficients with the observed weather. A
      coefficient list whose length differs from the observations makes
      `np.dot` raise. */
  function WeatherImpact(alpha: map<string, seq<real>>, observed: seq<real>): (r: Result<map<string, real>>)
    ensures r.Err? <==> exists f :: f in alpha && |alpha[f]| != |observed|
    ensures r.Err? ==> r.error == ValueError
    ensures r.Ok? ==> r.value.Keys == alpha.Keys
    ensures r.Ok? ==> forall f :: f in alpha ==> r.value[f] == Dot(alpha[f], observed)
  {
    if exists f :: f in alpha && |alpha[f]| != |observed| then Err(ValueError)
    else Ok(map f | f in alpha :: Dot(alpha[f], observed))
  }

  /** Column `j` of a 2-D array: the observations of component `j`, one
      per weather variable. */
  function ComponentObservations(observed: seq<seq<real>>, cols: nat, j: nat): (x: seq<real>)
    requires j < cols && forall i :: 0 <= i < |observed| ==> |observed[i]| == cols
    ensures |x| == |observed|
  {
    seq(|observed|, i requires 0 <= i < |observed| => observed[i][j])
  }

  /** `weatherImpact(alpha, observed)` with a 2-D `observed` of one row per
      weather variable and one column per component, as findWeatherImpact.py
      passes it: `np.dot` of a coefficient list with the array gives one
      impact per column, and raises unless the list has one coefficient per
      row. */
  function WeatherImpactOfArray(alpha: map<string, seq<real>>, observed: seq<seq<real>>, cols: nat)
    : (r: Result<map<string, seq<real>>>)
    requires forall i :: 0 <= i < |observed| ==> |observed[i]| == cols
    ensures r.Err? <==> exists f :: f in alpha && |alpha[f]| != |observed|
    ensures r.Err? ==> r.error == ValueError
    ensures r.Ok? ==> r.value.Keys == alpha.Keys
    ensures r.Ok? ==> forall f :: f in alpha ==>
      && |r.value[f]| == cols
      && forall j :: 0 <= j < cols ==> r.value[f][j] == Dot(alpha[f], ComponentObservations(observed, cols, j))
  {
    if exists f :: f in alpha && |alpha[f]| != |observed| then Err(ValueError)
    else Ok(map f | f in alpha ::
              seq(cols, j requires 0 <= j < cols => Dot(alpha[f], ComponentObservations(observed, cols, j))))
  }

  /** The 2-D call is the 1-D call once per component: it fails exactly
      when the call on any column fails, and otherwise column `j` of every
      feature's impacts is that feature's impact on component `j`. */
  lemma WeatherImpactPerComponent(alpha: map<string, seq<real>>, observed: seq<seq<real>>, cols: nat, j: nat)
    requires j < cols && forall i :: 0 <= i < |observed| ==> |observed[i]| == cols
    ensures WeatherImpactOfArray(alpha, observed, cols).Ok?
        <==> WeatherImpact(alpha, ComponentObservations(observed, cols, j)).Ok?
    ensures WeatherImpactOfArray(alpha, observed, cols).Ok? ==>
      forall f :: f in alpha ==>
        WeatherImpactOfArray(alpha, observed, cols).value[f][j]
        == WeatherImpact(alpha, ComponentObservations(observed, cols, j)).value[f]
  {
  }

  /** The unit observation that sets weather variable `j` to one and every
      other to zero. */
  function Unit(n: nat, j: nat): (u: seq<real>)
    requires j < n
    ensures |u| == n
  {
    seq(n, i requires 0 <= i < n => if i == j then 1.0 else 0.0)
  }

  /** Observing one unit of weather variable `j` alone yields, for every
      feature, exactly its `j`-th coefficient. */
  lemma {:induction false} DotUnit(a: seq<real>, j: nat)
    requires j < |a|
    ensures Dot(a, Unit(|a|, j)) == a[j]
  {
    var u := Unit(|a|, j);
    if j == 0 {
      DotZero(a[1..], u[1..]);
    } else {
      assert u[1..] == Unit(|a| - 1, j - 1);
      DotUnit(a[1..], j - 1);
    }
  }

  /** Weights against an all-zero observation give zero. */
  lemma {:induction false} DotZero(a: seq<real>, x: seq<real>)
    requires |a| == |x| && forall i :: 0 <= i < |x| ==> x[i] == 0.0
    ensures Dot(a, x) == 0.0
  {
    if |a| > 0 {
      DotZero(a[1..], x[1..]);
    }
  }

  /** The impact is additive in the observations. */
  lemma {:induction false} DotAdditive(a: seq<real>, x: seq<real>, y: seq<real>)
    requires |a| == |x| == |y|
    ensures Dot(a, seq(|x|, i requires 0 <= i < |x| => x[i] + y[i])) == Dot(a, x) + Dot(a, y)
  {
    var s := seq(|x|, i requires 0 <= i < |x| => x[i] + y[i]);
    if |a| > 0 {
      assert s[1..] == seq(|x[1..]|, i requires 0 <= i < |x[1..]| => x[1..][i] + y[1..][i]);
      DotAdditive(a[1..], x[1..], y[1..]);
    }
  }

  /** The impact of unit weather is the coefficient, for every feature. */
  lemma WeatherImpactOfUnit(alpha: map<string, seq<real>>, n: nat, j: nat)
    requires j < n && forall f :: f in alpha ==> |alpha[f]| == n
    ensures WeatherImpact(alpha, Unit(n, j)).Ok?
    ensures forall f :: f in alpha ==> WeatherImpact(alpha, Unit(n, j)).value[f] == alpha[f][j]
  {
    forall f | f in alpha
      ensures Dot(alpha[f], Unit(n, j)) == alpha[f][j]
    {
      DotUnit(alpha[f], j);
    }
  }

  // ---------------------------------------------------------------------
  // generateProb

  /** One row of a node or edge data frame: column name -> value. */
  type Row = map<string, real>

  /** The three numbers `generateProb` collects for one feature: the
      weather impact, the mean impact at the observed severity level and
      the variance (the squared deviation) at that level. */
  datatype Entry = Entry(impact: real, mean: real, variance: real)

  /** The three vectors handed to the multivariate normal. */
  datatype Vectors = Vectors(impact: seq<real>, mean: seq<real>, variance: seq<real>)

  /** The column a feature is read from: its name up to the first space. */
  function Column(feature: string): (c: string)
    ensures c <= feature && ' ' !in c
  {
    SplitFirst(feature, ' ')
  }

  /** One round of the per-feature loop: read the observed value from the
      feature's column, find its severity level, look that level up in the
      mean and deviation tables, and read the feature's weather impact, in
      this order; the first lookup that fails raises. */
  function FeatureEntry(row: Row, feature: string, ranges: ForecastedRanges,
                        meanT: map<string, LevelTable>, stdT: map<string, LevelTable>,
                        impact: Option<map<string, real>>, levels: int): (r: Result<Entry>)
    ensures r.Ok? ==>
      && Column(feature) in row
      && FindLevel(row[Column(feature)], feature, ranges, levels).Ok?
      && var level := FindLevel(row[Column(feature)], feature, ranges, levels).value;
         && feature in meanT && level in meanT[feature]
         && feature in stdT && level in stdT[feature]
         && impact.Some? && feature in impact.value
         && r.value == Entry(impact.value[feature], meanT[feature][level],
                             stdT[feature][level] * stdT[feature][level])
    ensures r.Ok? <==> LookupsPresent(row, feature, ranges, meanT, stdT, impact, levels)
    ensures Column(feature) !in row ==> r == Err(KeyError(Column(feature)))
    ensures Column(feature) in row && feature !in ranges ==> r == Err(KeyError(feature))
  {
    var col := Column(feature);
    if col !in row then Err(KeyError(col))
    else match FindLevel(row[col], feature, ranges, levels)
      case Err(e) => Err(e)
      case Ok(level) =>
        if feature !in meanT then Err(KeyError(feature))
        else if level !in meanT[feature] then Err(LevelKeyError(level))
        else if feature !in stdT then Err(KeyError(feature))
        else if level !in stdT[feature] then Err(LevelKeyError(level))
        else if impact.None? then Err(TypeError)
        else if feature !in impact.value then Err(KeyError(feature))
        else
          var sd := stdT[feature][level];
          Ok(Entry(impact.value[feature], meanT[feature][level], sd * sd))
  }

  /** The error of a feature whose column and ranges are present: the first
      missing lookup after `findLevel`, in the order the code reads them. */
  lemma FeatureEntryErrors(row: Row, feature: string, ranges: ForecastedRanges,
                           meanT: map<string, LevelTable>, stdT: map<string, LevelTable>,
                           impact: Option<map<string, real>>, levels: int)
    requires Column(feature) in row && feature in ranges
    ensures var r := FeatureEntry(row, feature, ranges, meanT, stdT, impact, levels);
            var level := FindLevel(row[Column(feature)], feature, ranges, levels).value;
      && (feature !in meanT ==> r == Err(KeyError(feature)))
      && (feature in meanT && level !in meanT[feature] ==> r == Err(LevelKeyError(level)))
      && (feature in meanT && level in meanT[feature] && feature !in stdT ==> r == Err(KeyError(feature)))
      && (feature in meanT && level in meanT[feature] && feature in stdT && level !in stdT[feature] ==>
            r == Err(LevelKeyError(level)))
      && (TablesHave(meanT, stdT, feature, level) && impact.None? ==> r == Err(TypeError))
      && (TablesHave(meanT, stdT, feature, level) && impact.Some? && feature !in impact.value ==>
            r == Err(KeyError(feature)))
  {
  }

  /** Every lookup of one feature's round finds its key: the column, the
      feature's ranges, the level in both tables, and the impact. */
  predicate LookupsPresent(row: Row, feature: string, ranges: ForecastedRanges,
                           meanT: map<string, LevelTable>, stdT: map<string, LevelTable>,
                           impact: Option<map<string, real>>, levels: int)
  {
    && Column(feature) in row
    && feature in ranges
    && var level := FindLevel(row[Column(feature)], feature, ranges, levels).value;
       && TablesHave(meanT, stdT, feature, level)
       && impact.Some? && feature in impact.value
  }

  /** Both tables have the feature, and the feature's tables have the level. */
  predicate TablesHave(meanT: map<string, LevelTable>, stdT: map<string, LevelTable>, feature: string, level: int)
  {
    feature in meanT && level in meanT[feature] && feature in stdT && level in stdT[feature]
  }

  /** The loop over the features, in order: the vectors hold one entry per
      feature, and the first feature that fails decides the exception. */
  function Assemble(row: Row, features: seq<string>, ranges: ForecastedRanges,
                    meanT: map<string, LevelTable>, stdT: map<string, LevelTable>,
                    impact: Option<map<string, real>>, levels: int): (r: Result<Vectors>)
    ensures r.Ok? <==> forall i :: 0 <= i < |features| ==>
                          FeatureEntry(row, features[i], ranges, meanT, stdT, impact, levels).Ok?
    ensures r.Ok? ==>
      && |r.value.impact| == |r.value.mean| == |r.value.variance| == |features|
      && forall i :: 0 <= i < |features| ==>
           FeatureEntry(row, features[i], ranges, meanT, stdT, impact, levels).value
           == Entry(r.value.impact[i], r.value.mean[i], r.value.variance[i])
    ensures r.Err? ==> exists i :: 0 <= i < |features| && FirstFailure(row, features, ranges, meanT, stdT, impact, levels, i)
                                   && r.error == FeatureEntry(row, features[i], ranges, meanT, stdT, impact, levels).error
  {
    if |features| == 0 then Ok(Vectors([], [], []))
    else
      match FeatureEntry(row, features[0], ranges, meanT, stdT, impact, levels)
      case Err(e) =>
        assert FirstFailure(row, features, ranges, meanT, stdT, impact, levels, 0);
        Err(e)
      case Ok(entry) =>
        var rest := Assemble(row, features[1..], ranges, meanT, stdT, impact, levels);
        if rest.Err? then
          FirstFailureShift(row, features, ranges, meanT, stdT, impact, levels, rest.error);
          Err(rest.error)
        else
          Ok(Vectors([entry.impact] + rest.value.impact, [entry.mean] + rest.value.mean,
                     [entry.variance] + rest.value.variance))
  }

  /** A first failure after a succeeding first feature is a first failure of
      the whole list, one position later. */
  lemma FirstFailureShift(row: Row, features: seq<string>, ranges: ForecastedRanges,
                          meanT: map<string, LevelTable>, stdT: map<string, LevelTable>,
                          impact: Option<map<string, real>>, levels: int, e: Error)
    requires |features| > 0 && FeatureEntry(row, features[0], ranges, meanT, stdT, impact, levels).Ok?
    requires exists i :: 0 <= i < |features[1..]| && FirstFailure(row, features[1..], ranges, meanT, stdT, impact, levels, i)
                         && e == FeatureEntry(row, features[1..][i], ranges, meanT, stdT, impact, levels).error
    ensures exists i :: 0 <= i < |features| && FirstFailure(row, features, ranges, meanT, stdT, impact, levels, i)
                        && e == FeatureEntry(row, features[i], ranges, meanT, stdT, impact, levels).error
  {
    var i :| 0 <= i < |features[1..]| && FirstFailure(row, features[1..], ranges, meanT, stdT, impact, levels, i)
             && e == FeatureEntry(row, features[1..][i], ranges, meanT, stdT, impact, levels).error;
    assert FirstFailure(row, features, ranges, meanT, stdT, impact, levels, i + 1);
  }

  /** Feature `i` is the first one whose lookups fail. */
  predicate FirstFailure(row: Row, features: seq<string>, ranges: ForecastedRanges,
                         meanT: map<string, LevelTable>, stdT: map<string, LevelTable>,
                         impact: Option<map<string, real>>, levels: int, i: nat)
  {
    && i < |features|
    && FeatureEntry(row, features[i], ranges, meanT, stdT, impact, levels).Err?
    && forall j :: 0 <= j < i ==> FeatureEntry(row, features[j], ranges, meanT, stdT, impact, levels).Ok?
  }

  /** The multivariate normal CDF at the impact vector, with the given
      means and a diagonal covariance of the given variances. */
  type Cdf = (seq<real>, seq<real>, seq<real>) -> real

  /** The probability of one component, when a row is given and not empty. */
  function Component(row: Option<Row>, features: seq<string>, ranges: ForecastedRanges,
                     meanT: map<string, LevelTable>, stdT: map<string, LevelTable>,
                     impact: Option<map<string, real>>, levels: int, cdf: Cdf): Option<Result<real>>
  {
    if row.None? || |row.value| == 0 then None
    else match Assemble(row.value, features, ranges, meanT, stdT, impact, levels)
      case Err(e) => Some(Err(e))
      case Ok(v) => Some(Ok(cdf(v.impact, v.mean, v.variance)))
  }

  /** `generateProb(node, edge, ...)`: the node's probability when a node
      row is given, otherwise the edge's; with neither, `prob[0]` of an
      empty list raises. Both components are computed when both rows are
      given, node first, so a failing edge raises even then. */
  function GenerateProb(node: Option<Row>, edge: Option<Row>,
                        nodeFeatures: seq<string>, edgeFeatures: seq<string>,
                        meanT: map<string, LevelTable>, stdT: map<string, LevelTable>,
                        ranges: ForecastedRanges,
                        impactN: Option<map<string, real>>, impactE: Option<map<string, real>>,
                        levels: int, cdf: Cdf): (r: Result<real>)
    ensures var n := Component(node, nodeFeatures, ranges, meanT, stdT, impactN, levels, cdf);
            var e := Component(edge, edgeFeatures, ranges, meanT, stdT, impactE, levels, cdf);
      && (r.Ok? <==> (n.Some? || e.Some?) && (n.Some? ==> n.value.Ok?) && (e.Some? ==> e.value.Ok?))
      && (r.Ok? ==> r == (if n.Some? then n.value else e.value))
      && (n.None? && e.None? ==> r == Err(IndexError))
      && (n.Some? && n.value.Err? ==> r == n.value)
      && (r.Err? && (n.None? || n.value.Ok?) && e.Some? ==> r == e.value)
    ensures (forall a, b, c :: 0.0 <= cdf(a, b, c) <= 1.0) && r.Ok? ==> 0.0 <= r.value <= 1.0
  {
    var n := Component(node, nodeFeatures, ranges, meanT, stdT, impactN, levels, cdf);
    var e := Component(edge, edgeFeatures, ranges, meanT, stdT, impactE, levels, cdf);
    if n.Some? && n.value.Err? then n.value
    else if e.Some? && e.value.Err? then e.value
    else if n.Some? then n.value
    else if e.Some? then e.value
    else Err(IndexError)
  }

  // ---------------------------------------------------------------------
  // How main.py fits the pieces together.

  /** The forecasted ranges of one feature: the `(low, high)` of each bin. */
  function Intervals(bins: seq<BinCount>): (ivs: seq<Interval>)
    ensures |ivs| == |bins|
    ensures forall i :: 0 <= i < |bins| ==> ivs[i] == (bins[i].low, bins[i].high)
  {
    seq(|bins|, i requires 0 <= i < |bins| => (bins[i].low, bins[i].high))
  }

  /** With `numOfBins` bins per feature and tables built for
      `numOfBins + 1` levels, whatever value is observed, its severity
      level is a key of both the mean and the deviation table of every
      configured feature: the lookups `meanRange[feature][level]` and
      `stdRange[feature][level]` never fail. */
  lemma TableLookupTotal(vals: seq<real>, bins: seq<BinCount>, numOfBins: int, ranges: ForecastedRanges,
                         feature: string, stdRange: map<string, Range>, meanRange: map<string, Range>,
                         observed: real)
    requires |vals| > 0 && numOfBins > 0 && IsHistogram(vals, numOfBins, bins)
    requires feature in ranges && ranges[feature] == Intervals(bins)
    requires feature in meanRange && feature in stdRange
    ensures CreateTables(stdRange, meanRange, numOfBins + 1).Ok?
    ensures FindLevel(observed, feature, ranges, numOfBins).Ok?
    ensures var level := FindLevel(observed, feature, ranges, numOfBins).value;
            var t := CreateTables(stdRange, meanRange, numOfBins + 1).value;
      level in t.mean[feature] && level in t.std[feature]
  {
    LevelInRange(observed, feature, ranges, numOfBins);
  }

  /** Every value of the binned population gets a level no higher than one
      more than the bin it was counted in: a value on the shared endpoint of
      two bins takes the lower level. */
  lemma PopulationLevel(vals: seq<real>, bins: seq<BinCount>, numOfBins: int, ranges: ForecastedRanges,
                        feature: string, j: nat)
    requires |vals| > 0 && numOfBins > 0 && IsHistogram(vals, numOfBins, bins)
    requires feature in ranges && ranges[feature] == Intervals(bins) && j < |vals|
    ensures InPopulationRange(vals, j)
    ensures var b := BinIndex(vals[j], Min(vals), Max(vals), numOfBins);
      && FindLevel(vals[j], feature, ranges, numOfBins).Ok?
      && 1 <= FindLevel(vals[j], feature, ranges, numOfBins).value <= b + 1
  {
    var b := BinIndex(vals[j], Min(vals), Max(vals), numOfBins);
    assert Within(vals[j], ranges[feature][b]);
    FirstMatchWins(vals[j], feature, ranges, numOfBins, b);
  }

  /** Every value of a population lies between its minimum and maximum. */
  predicate InPopulationRange(vals: seq<real>, j: nat)
    requires |vals| > 0
  {
    j < |vals| && Min(vals) <= vals[j] <= Max(vals)
  }
}
