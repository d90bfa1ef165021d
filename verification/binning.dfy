/** Equal-width severity binning of a value population
    (`assign_values_to_ranges` in util/mainHelper.py). */
module Binning {
  import opened Wrappers

  /** One bin: its (low, high) range and how many values fell into it. */
  datatype BinCount = BinCount(low: real, high: real, count: nat)

  /** Python's `min` of a non-empty list. */
  function Min(s: seq<real>): (m: real)
    requires |s| > 0
    ensures m in s
    ensures forall i :: 0 <= i < |s| ==> m <= s[i]
  {
    if |s| == 1 then s[0]
    else
      var rest := Min(s[1..]);
      assert forall i :: 1 <= i < |s| ==> s[i] == s[1..][i - 1];
      if s[0] <= rest then s[0] else rest
  }

  /** Python's `max` of a non-empty list. */
  function Max(s: seq<real>): (m: real)
    requires |s| > 0
    ensures m in s
    ensures forall i :: 0 <= i < |s| ==> s[i] <= m
  {
    if |s| == 1 then s[0]
    else
      var rest := Max(s[1..]);
      assert forall i :: 1 <= i < |s| ==> s[i] == s[1..][i - 1];
      if rest <= s[0] then s[0] else rest
  }

  /** Every element of `s` lies in the closed interval [lo, hi]. */
  predicate AllWithin(s: seq<real>, lo: real, hi: real)
  {
    forall i :: 0 <= i < |s| ==> lo <= s[i] <= hi
  }

  /** The width `(max - min) / levels` of each of the `levels` bins. */
  function Width(lo: real, hi: real, levels: int): real
    requires levels > 0
  {
    (hi - lo) / levels as real
  }

  /** The bin a value goes to: the maximum always goes to the last bin,
      every other value to `int((value - min) / range_size)`, where Python's
      `int` truncates toward zero, which on a non-negative quotient is the floor. */
  function BinIndex(v: real, lo: real, hi: real, levels: int): (i: nat)
    requires levels > 0 && lo <= v <= hi
    ensures i < levels
    ensures lo + i as real * Width(lo, hi, levels) <= v <= lo + (i + 1) as real * Width(lo, hi, levels)
  {
    if v == hi then
      LastBinEndsAtMax(lo, hi, levels);
      levels - 1
    else
      var w := Width(lo, hi, levels);
      QuotientBin(v - lo, w, levels);
      ((v - lo) / w).Floor
  }

  /** The last bin's upper end is the maximum, over the reals. */
  lemma LastBinEndsAtMax(lo: real, hi: real, levels: int)
    requires levels > 0 && lo <= hi
    ensures lo + levels as real * Width(lo, hi, levels) == hi
    ensures lo + (levels - 1) as real * Width(lo, hi, levels) <= hi
  {
    var w := Width(lo, hi, levels);
    assert levels as real * w == hi - lo;
    assert w >= 0.0;
  }

  /** A non-negative offset `d` below `levels * w` has its floor quotient in
      [0, levels) and lies within the bin that quotient names. */
  lemma QuotientBin(d: real, w: real, levels: int)
    requires levels > 0 && w > 0.0 && 0.0 <= d < levels as real * w
    ensures 0 <= (d / w).Floor < levels
    ensures (d / w).Floor as real * w <= d <= ((d / w).Floor + 1) as real * w
  {
    var q := d / w;
    var f := q.Floor;
    assert q * w == d;
    assert f as real <= q < f as real + 1.0;
    ScaleMonotone(f as real, q, w);
    ScaleMonotone(q, f as real + 1.0, w);
    assert d <= (f as real + 1.0) * w;
    assert (f + 1) as real == f as real + 1.0;
    assert q < levels as real by {
      if q >= levels as real {
        ScaleMonotone(levels as real, q, w);
        assert false;
      }
    }
  }

  /** Multiplying by a non-negative factor keeps order. */
  lemma ScaleMonotone(a: real, b: real, w: real)
    requires a <= b && w >= 0.0
    ensures a * w <= b * w
  {
    assert b * w - a * w == (b - a) * w;
  }

  /** Reference count: how many values of `s` go to bin `b`. */
  function CountIn(s: seq<real>, lo: real, hi: real, levels: int, b: int): (n: nat)
    requires levels > 0 && AllWithin(s, lo, hi)
    ensures n <= |s|
  {
    if |s| == 0 then 0
    else
      var last := s[|s| - 1];
      CountIn(s[..|s| - 1], lo, hi, levels, b) + (if BinIndex(last, lo, hi, levels) == b then 1 else 0)
  }

  /** The sum of the first `k` counts of `bins`. */
  function SumCounts(bins: seq<BinCount>, k: nat): nat
    requires k <= |bins|
  {
    if k == 0 then 0 else SumCounts(bins, k - 1) + bins[k - 1].count
  }

  /** `assign_values_to_ranges(values, levels)`. `None` gives the empty list;
      an empty list makes `min` raise; `levels == 0` divides by zero; a
      negative `levels` leaves no bins, so the first count update is out of
      range. Otherwise `levels` equal-width bins from the minimum to the
      maximum, each with the number of values it received. */
  method AssignValuesToRanges(values: Option<seq<real>>, levels: int) returns (r: Result<seq<BinCount>>)
    ensures values.None? ==> r == Ok([])
    ensures values.Some? && |values.value| == 0 ==> r == Err(ValueError)
    ensures values.Some? && |values.value| > 0 && levels == 0 ==> r == Err(ZeroDivisionError)
    ensures values.Some? && |values.value| > 0 && levels < 0 ==> r == Err(IndexError)
    ensures values.Some? && |values.value| > 0 && levels > 0 ==>
      r.Ok? && IsHistogram(values.value, levels, r.value)
  {
    if values.None? {
      return Ok([]);
    }
    var vals := values.value;
    if |vals| == 0 {
      return Err(ValueError);
    }
    if levels == 0 {
      return Err(ZeroDivisionError);
    }
    if levels < 0 {
      return Err(IndexError);
    }
    var lo := Min(vals);
    var hi := Max(vals);
    var counts: seq<nat> := seq(levels, _ => 0);
    var k := 0;
    while k < |vals|
      invariant 0 <= k <= |vals|
      invariant |counts| == levels
      invariant forall b :: 0 <= b < levels ==> counts[b] == CountIn(vals[..k], lo, hi, levels, b)
    {
      var index := BinIndex(vals[k], lo, hi, levels);
      counts := counts[index := counts[index] + 1];
      assert vals[..k + 1][..k] == vals[..k];
      k := k + 1;
    }
    assert vals[..k] == vals;
    var bins := ZipBins(lo, hi, levels, counts);
    HistogramFacts(vals, levels, lo, hi, counts);
    return Ok(bins);
  }

  /** The bins `(min + i * range_size, min + (i + 1) * range_size)` paired
      with their counts. */
  function ZipBins(lo: real, hi: real, levels: int, counts: seq<nat>): (bins: seq<BinCount>)
    requires levels > 0 && |counts| == levels
    ensures |bins| == levels
    ensures forall i :: 0 <= i < levels ==>
      && bins[i].low == lo + i as real * Width(lo, hi, levels)
      && bins[i].high == lo + (i + 1) as real * Width(lo, hi, levels)
      && bins[i].count == counts[i]
  {
    var w := Width(lo, hi, levels);
    seq(levels, i requires 0 <= i < levels =>
      BinCount(lo + i as real * w, lo + (i + 1) as real * w, counts[i]))
  }

  /** What a correct histogram of `vals` into `levels` bins satisfies. */
  predicate IsHistogram(vals: seq<real>, levels: int, bins: seq<BinCount>)
    requires |vals| > 0 && levels > 0
  {
    var lo, hi := Min(vals), Max(vals);
    && |bins| == levels
    && BinsTile(lo, hi, levels, bins)
    && CountsAgree(vals, lo, hi, levels, bins)
    // no value is lost, and the maximum lands in the last bin
    && SumCounts(bins, levels) == |vals|
    && bins[levels - 1].count >= 1
    // when all values are equal, all land in the last bin
    && (lo == hi ==> bins[levels - 1].count == |vals|)
  }

  /** The bins run from `lo` to `hi` in equal widths, adjacent bins sharing
      their endpoints. */
  predicate BinsTile(lo: real, hi: real, levels: int, bins: seq<BinCount>)
    requires levels > 0 && |bins| == levels
  {
    && bins[0].low == lo
    && bins[levels - 1].high == hi
    && (forall i :: 0 <= i < levels ==> bins[i].high - bins[i].low == Width(lo, hi, levels))
    && (forall i :: 0 <= i < levels - 1 ==> bins[i].high == bins[i + 1].low)
  }

  /** Each count is the number of values sent to that bin, and each value
      lies within the range of the bin it is sent to. */
  predicate CountsAgree(vals: seq<real>, lo: real, hi: real, levels: int, bins: seq<BinCount>)
    requires levels > 0 && |bins| == levels && AllWithin(vals, lo, hi)
  {
    && (forall b :: 0 <= b < levels ==> bins[b].count == CountIn(vals, lo, hi, levels, b))
    && (forall j :: 0 <= j < |vals| ==>
          var b := BinIndex(vals[j], lo, hi, levels);
          bins[b].low <= vals[j] <= bins[b].high)
  }

  lemma HistogramFacts(vals: seq<real>, levels: int, lo: real, hi: real, counts: seq<nat>)
    requires |vals| > 0 && levels > 0
    requires lo == Min(vals) && hi == Max(vals)
    requires |counts| == levels
    requires forall b :: 0 <= b < levels ==> counts[b] == CountIn(vals, lo, hi, levels, b)
    ensures IsHistogram(vals, levels, ZipBins(lo, hi, levels, counts))
  {
    var bins := ZipBins(lo, hi, levels, counts);
    BinGeometry(levels, lo, hi, counts);
    forall j | 0 <= j < |vals|
      ensures var b := BinIndex(vals[j], lo, hi, levels); bins[b].low <= vals[j] <= bins[b].high
    {
      ValueInOwnBin(vals[j], lo, hi, levels, counts);
    }
    TotalCount(vals, lo, hi, levels);
    SumCountsMatches(vals, lo, hi, levels, bins, levels);
    MaxInLastBin(vals, lo, hi, levels);
    if lo == hi {
      AllInLastBin(vals, lo, levels);
    }
  }

  lemma ValueInOwnBin(v: real, lo: real, hi: real, levels: int, counts: seq<nat>)
    requires levels > 0 && lo <= v <= hi && |counts| == levels
    ensures var b := BinIndex(v, lo, hi, levels);
      ZipBins(lo, hi, levels, counts)[b].low <= v <= ZipBins(lo, hi, levels, counts)[b].high
  {
    var bins := ZipBins(lo, hi, levels, counts);
    var b := BinIndex(v, lo, hi, levels);
    assert bins[b].low == lo + b as real * Width(lo, hi, levels);
  }

  lemma BinGeometry(levels: int, lo: real, hi: real, counts: seq<nat>)
    requires levels > 0 && lo <= hi && |counts| == levels
    ensures BinsTile(lo, hi, levels, ZipBins(lo, hi, levels, counts))
  {
    BinEnds(lo, hi, levels, counts);
    BinWidths(lo, hi, levels, counts);
    BinsAdjacent(lo, hi, levels, counts);
  }

  /** The first bin starts at the minimum and the last ends at the maximum. */
  lemma BinEnds(lo: real, hi: real, levels: int, counts: seq<nat>)
    requires levels > 0 && lo <= hi && |counts| == levels
    ensures ZipBins(lo, hi, levels, counts)[0].low == lo
    ensures ZipBins(lo, hi, levels, counts)[levels - 1].high == hi
  {
    LastBinEndsAtMax(lo, hi, levels);
  }

  /** Each bin ends where the next one starts. */
  lemma BinsAdjacent(lo: real, hi: real, levels: int, counts: seq<nat>)
    requires levels > 0 && |counts| == levels
    ensures forall i :: 0 <= i < levels - 1 ==>
      ZipBins(lo, hi, levels, counts)[i].high == ZipBins(lo, hi, levels, counts)[i + 1].low
  {
  }

  /** Every bin is one width wide. */
  lemma BinWidths(lo: real, hi: real, levels: int, counts: seq<nat>)
    requires levels > 0 && |counts| == levels
    ensures forall i :: 0 <= i < levels ==>
      ZipBins(lo, hi, levels, counts)[i].high - ZipBins(lo, hi, levels, counts)[i].low == Width(lo, hi, levels)
  {
    forall i | 0 <= i < levels
      ensures ZipBins(lo, hi, levels, counts)[i].high - ZipBins(lo, hi, levels, counts)[i].low == Width(lo, hi, levels)
    {
      BinHasWidth(lo, hi, levels, counts, i);
    }
  }

  /** Bin `i` is one width wide. */
  lemma BinHasWidth(lo: real, hi: real, levels: int, counts: seq<nat>, i: nat)
    requires levels > 0 && |counts| == levels && i < levels
    ensures ZipBins(lo, hi, levels, counts)[i].high - ZipBins(lo, hi, levels, counts)[i].low == Width(lo, hi, levels)
  {
    var w := Width(lo, hi, levels);
    assert (i + 1) as real * w == i as real * w + w;
  }

  /** Reference total: the counts of bins `0..k-1`. */
  function CountBelow(s: seq<real>, lo: real, hi: real, levels: int, k: nat): nat
    requires levels > 0 && AllWithin(s, lo, hi)
  {
    if k == 0 then 0 else CountBelow(s, lo, hi, levels, k - 1) + CountIn(s, lo, hi, levels, k - 1)
  }

  lemma {:induction false} SumCountsMatches(vals: seq<real>, lo: real, hi: real, levels: int,
                                            bins: seq<BinCount>, k: nat)
    requires levels > 0 && AllWithin(vals, lo, hi) && k <= |bins| == levels
    requires forall b :: 0 <= b < levels ==> bins[b].count == CountIn(vals, lo, hi, levels, b)
    ensures SumCounts(bins, k) == CountBelow(vals, lo, hi, levels, k)
  {
    if k > 0 {
      SumCountsMatches(vals, lo, hi, levels, bins, k - 1);
    }
  }

  /** The bin counts of every value of `s` add up to `|s|`. */
  lemma {:induction false} TotalCount(s: seq<real>, lo: real, hi: real, levels: int)
    requires levels > 0 && AllWithin(s, lo, hi)
    ensures CountBelow(s, lo, hi, levels, levels) == |s|
  {
    if |s| == 0 {
      NothingCounted(s, lo, hi, levels, levels);
    } else {
      var init := s[..|s| - 1];
      assert AllWithin(init, lo, hi);
      TotalCount(init, lo, hi, levels);
      LastValueCountedOnce(s, lo, hi, levels, levels);
    }
  }

  lemma {:induction false} NothingCounted(s: seq<real>, lo: real, hi: real, levels: int, k: nat)
    requires levels > 0 && |s| == 0
    ensures CountBelow(s, lo, hi, levels, k) == 0
  {
    if k > 0 {
      NothingCounted(s, lo, hi, levels, k - 1);
    }
  }

  /** Adding the last value of `s` adds one to the totals of bins `0..k-1`
      exactly when its bin is below `k`. */
  lemma {:induction false} LastValueCountedOnce(s: seq<real>, lo: real, hi: real, levels: int, k: nat)
    requires levels > 0 && AllWithin(s, lo, hi) && |s| > 0
    ensures AllWithin(s[..|s| - 1], lo, hi)
    ensures CountBelow(s, lo, hi, levels, k) ==
      CountBelow(s[..|s| - 1], lo, hi, levels, k) +
      (if BinIndex(s[|s| - 1], lo, hi, levels) < k then 1 else 0)
  {
    assert AllWithin(s[..|s| - 1], lo, hi);
    if k > 0 {
      LastValueCountedOnce(s, lo, hi, levels, k - 1);
    }
  }

  /** At least one value is counted in the last bin: the maximum. */
  lemma MaxInLastBin(s: seq<real>, lo: real, hi: real, levels: int)
    requires levels > 0 && AllWithin(s, lo, hi) && hi in s
    ensures CountIn(s, lo, hi, levels, levels - 1) >= 1
  {
    var init := s[..|s| - 1];
    if s[|s| - 1] != hi {
      assert hi in init by {
        var j :| 0 <= j < |s| && s[j] == hi;
        assert j < |s| - 1 && init[j] == hi;
      }
      assert AllWithin(init, lo, hi);
      MaxInLastBin(init, lo, hi, levels);
    }
  }

  /** With no spread every value equals the maximum, so all of them go to
      the last bin and there is no division. */
  lemma AllInLastBin(s: seq<real>, v: real, levels: int)
    requires levels > 0 && AllWithin(s, v, v)
    ensures CountIn(s, v, v, levels, levels - 1) == |s|
  {
    if |s| > 0 {
      assert AllWithin(s[..|s| - 1], v, v);
      AllInLastBin(s[..|s| - 1], v, levels);
    }
  }
}
