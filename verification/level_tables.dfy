/** Per-severity-level mean and standard-deviation tables
    (`createLevels` and `createTables` in util/mainHelper.py). */
module LevelTables {
  import opened Wrappers

  /** A configured `[minimum, maximum]` pair for one feature. */
  type Range = (real, real)

  /** A feature's table: severity level -> interpolated value. */
  type LevelTable = map<int, real>

  /** The pair `(mean, std)` that `createTables` returns. */
  datatype Tables = Tables(mean: map<string, LevelTable>, std: map<string, LevelTable>)

  /** `createLevels(minValue, maxValue, levels)`: `levels` evenly spaced
      values from the minimum to the maximum. The step divides by
      `levels - 1`, so one level divides by zero; no level at all (or a
      negative count) gives the empty list. */
  function CreateLevels(lo: real, hi: real, levels: int): (r: Result<seq<real>>)
    ensures r.Err? <==> levels == 1
    ensures r.Err? ==> r.error == ZeroDivisionError
    ensures r.Ok? ==> |r.value| == (if levels < 0 then 0 else levels)
    ensures r.Ok? && levels >= 2 ==>
      && r.value[0] == lo
      && r.value[levels - 1] == hi
      && forall i :: 0 <= i < levels - 1 ==> r.value[i + 1] - r.value[i] == (hi - lo) / (levels - 1) as real
  {
    if levels == 1 then Err(ZeroDivisionError)
    else if levels <= 0 then Ok([])
    else
      var step := (hi - lo) / (levels - 1) as real;
      var r := seq(levels, i requires 0 <= i < levels => lo + step * i as real);
      assert r[levels - 1] == hi by {
        assert step * (levels - 1) as real == hi - lo;
      }
      assert forall i :: 0 <= i < levels - 1 ==> r[i + 1] - r[i] == step by {
        forall i | 0 <= i < levels - 1
          ensures r[i + 1] - r[i] == step
        {
          assert step * (i + 1) as real == step * i as real + step;
        }
      }
      Ok(r)
  }

  /** A table built for `levels` interpolated values has exactly the
      severity levels 1 to `levels - 1` as keys. */
  ghost predicate HasLevelKeys(t: LevelTable, levels: int)
  {
    forall k :: k in t <==> 1 <= k < levels
  }

  /** One feature's table: `createLevels(...)[1:]` re-indexed from 1, so
      level `k` holds the `k`-th interpolated value and the configured
      minimum (index 0) is never a level. */
  function BuildTable(range: Range, levels: int): (t: LevelTable)
    requires levels != 1
    ensures HasLevelKeys(t, levels)
    ensures levels >= 2 ==>
      && levels - 1 in t && t[levels - 1] == range.1
      && t[1] == range.0 + (range.1 - range.0) / (levels - 1) as real
      && forall k :: 1 <= k < levels - 1 ==> t[k + 1] - t[k] == (range.1 - range.0) / (levels - 1) as real
    ensures levels >= 2 ==> forall k :: 1 <= k < levels ==> t[k] == CreateLevels(range.0, range.1, levels).value[k]
  {
    var values := CreateLevels(range.0, range.1, levels).value;
    map k | 1 <= k < |values| :: values[k]
  }

  /** `createTables(stdRange, meanRange, levels)`: for every configured
      feature a table with keys 1 to `levels - 1`; the means come only from
      `meanRange` and the deviations only from `stdRange`. A single level
      divides by zero as soon as there is any feature to build. */
  function CreateTables(stdRange: map<string, Range>, meanRange: map<string, Range>, levels: int): (r: Result<Tables>)
    ensures r.Err? <==> levels == 1 && (|stdRange| > 0 || |meanRange| > 0)
    ensures r.Err? ==> r.error == ZeroDivisionError
    ensures r.Ok? ==>
      && r.value.mean.Keys == meanRange.Keys
      && r.value.std.Keys == stdRange.Keys
      && (forall f :: f in meanRange ==> f in r.value.mean && HasLevelKeys(r.value.mean[f], levels))
      && (forall f :: f in stdRange ==> f in r.value.std && HasLevelKeys(r.value.std[f], levels))
    ensures r.Ok? && levels >= 2 ==>
      && (forall f :: f in meanRange ==> f in r.value.mean && levels - 1 in r.value.mean[f] && r.value.mean[f][levels - 1] == meanRange[f].1)
      && (forall f :: f in stdRange ==> f in r.value.std && levels - 1 in r.value.std[f] && r.value.std[f][levels - 1] == stdRange[f].1)
    ensures r.Ok? && levels != 1 ==>
      && (forall f :: f in meanRange ==> f in r.value.mean && r.value.mean[f] == BuildTable(meanRange[f], levels))
      && (forall f :: f in stdRange ==> f in r.value.std && r.value.std[f] == BuildTable(stdRange[f], levels))
  {
    if levels == 1 && (|stdRange| > 0 || |meanRange| > 0) then
      Err(ZeroDivisionError)
    else if levels == 1 then
      Ok(Tables(map[], map[]))
    else
      Ok(Tables(BuildTables(meanRange, levels), BuildTables(stdRange, levels)))
  }

  /** The dictionary comprehension over one configuration: a table per
      configured feature. */
  function BuildTables(ranges: map<string, Range>, levels: int): (ts: map<string, LevelTable>)
    requires levels != 1
    ensures ts.Keys == ranges.Keys
    ensures forall f :: f in ranges ==> f in ts && ts[f] == BuildTable(ranges[f], levels)
    ensures forall f :: f in ranges ==> f in ts && HasLevelKeys(ts[f], levels)
    ensures levels >= 2 ==> forall f :: f in ranges ==> f in ts && levels - 1 in ts[f] && ts[f][levels - 1] == ranges[f].1
  {
    map f | f in ranges :: BuildTable(ranges[f], levels)
  }

  /** The deviation tables depend on `stdRange` alone: changing the mean
      ranges leaves them as they were. */
  lemma StdIgnoresMeanRange(stdRange: map<string, Range>, meanRange: map<string, Range>,
                            otherMeanRange: map<string, Range>, levels: int)
    requires levels >= 2
    ensures CreateTables(stdRange, meanRange, levels).value.std
         == CreateTables(stdRange, otherMeanRange, levels).value.std
  {
  }

  /** The mean tables depend on `meanRange` alone. */
  lemma MeanIgnoresStdRange(stdRange: map<string, Range>, otherStdRange: map<string, Range>,
                            meanRange: map<string, Range>, levels: int)
    requires levels >= 2
    ensures CreateTables(stdRange, meanRange, levels).value.mean
         == CreateTables(otherStdRange, meanRange, levels).value.mean
  {
  }
}
