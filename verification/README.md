# OutageMap outage-probability core in Dafny

This project models the computational core of OutageMap. OutageMap estimates the probability that each node of a power distribution network fails during a weather event. The core has four parts:

- **Forecast binning.** `assign_values_to_ranges` cuts the forecast values of each weather feature into equal-width severity bins. `findLevel` maps an observed value to a severity level.
- **Impact tables.** `createLevels` and `createTables` build, for every feature, tables of the mean and standard deviation of the weather impact at each severity level. `weatherImpact` turns observations into per-feature impacts with a dot product.
- **Probability.** `generateProb` draws the outage probability of a node or an edge from a multivariate normal CDF. `inclusionExclusion` combines independent events. `probOfNodeAndParent` folds each node's bounds with its parent's and its feeding edge's, breadth first from node 0.
- **Network helpers.** These come from `util/NetworkFunctions.py` and from the copies in `getWeather/NetworkFunctions.py`: rounding to hundreds, zero-padding clock times, stripping phase suffixes from bus names, and linear searches over loads and nodes. Two functions exist only in the getWeather copy: the recursive walk that disables every line downstream of a bus, and the elevation of an edge.

Numbers are `real`. A Python exception becomes an `Err` value of the `Result` type in `wrappers.dfy`, with one variant per exception class the code can raise (`KeyError`, `IndexError`, `ZeroDivisionError`, `ValueError`, `TypeError`, `UnboundLocalError`). A missing key of an inner severity table is `LevelKeyError`.

Modules, one file each:

- `Wrappers` holds `Option`, `Result` and the errors.
- `Strings` holds `str.split(sep)[0]` and substring search.
- `Binning` holds `assign_values_to_ranges`.
- `LevelTables` holds `createLevels` and `createTables`.
- `Severity` holds `findLevel`.
- `InclusionExclusion` holds `inclusionExclusion` and `prod`. The combinatorial sum is defined literally over all combinations and proved equal to `1 - prod(1 - p)`.
- `Topology` holds the `defaultdict(list)` graph, its reachable part and tree shape.
- `Propagation` holds `probOfNodeAndParent`.
- `OutageModel` holds `weatherImpact`, the per-feature lookups of `generateProb`, `generateProb` itself, and facts about the table lookups that `main.py` performs.
- `LegacyHelper` holds the older copy `mainHelper.py`.
- `NetworkFunctions` holds the util helpers.
- `WeatherNetwork` holds the getWeather helpers.

When every forecast value is equal, the width of every bin is 0, and each value equals the maximum, so the code counts all of them in the **last** bin; it does not divide by zero.

## Model

| member | source | states |
|---|---|---|
| Binning.AssignValuesToRanges | util/mainHelper.py:12-45 | `None` gives `[]`. An empty list fails as `min([])` does (ValueError). Zero bins divide by zero; a negative count fails at the index. Otherwise the result is a histogram: `levels` bins tiling [min, max], with counts equal to the number of values in each bin. |
| Binning.BinIndex | util/mainHelper.py:34-40 | The bin chosen for a value lies below `levels`, and the value is inside that bin's bounds. |
| Binning.HistogramFacts | util/mainHelper.py:25-45 | Bins built from the computed counts form a histogram, and every value lies within the bin it was counted in. |
| Binning.ValueInOwnBin | util/mainHelper.py:34-43 | The bin a value is counted in contains the value between its low and high bounds. |
| Binning.BinGeometry | util/mainHelper.py:27-30 | Bins are contiguous and each has width `(max - min) / levels`. |
| Binning.LastBinEndsAtMax | util/mainHelper.py:27-30 | The upper bound of the last bin is the maximum value. |
| Binning.QuotientBin | util/mainHelper.py:39 | `int((value - min) / size)` of a value below the maximum is a valid bin index whose bin holds the value. |
| Binning.SumCountsMatches | util/mainHelper.py:31-43 | The counts of the first `k` bins add up to the number of values falling in those bins. |
| Binning.TotalCount | util/mainHelper.py:34-40 | Every value is counted in exactly one bin: the counts add up to the number of values. |
| Binning.LastValueCountedOnce | util/mainHelper.py:34-40 | Appending one value adds one to exactly one bin's count. |
| Binning.MaxInLastBin | util/mainHelper.py:35-37 | The last bin always counts at least the maximum. |
| Binning.AllInLastBin | util/mainHelper.py:35-37 | When all values are equal, every value is counted in the last bin. |
| LevelTables.CreateLevels | util/mainHelper.py:47-58 | Fails with ZeroDivisionError exactly for one level. Otherwise it gives `max(levels, 0)` values, from the minimum to the maximum, with a constant step. |
| LevelTables.BuildTable | util/mainHelper.py:76 | A feature's table has exactly the keys 1 to `levels - 1`, and key `levels - 1` holds the maximum. |
| LevelTables.CreateTables | util/mainHelper.py:60-82 | Fails exactly when one level is asked for and some feature is configured. Otherwise it has one table per configured feature, keyed 1 to `levels - 1`, with the configured maximum at the top; each feature's table is `BuildTable` of its range, so key `k` holds `createLevels(...)[k]`. |
| LevelTables.StdIgnoresMeanRange | util/mainHelper.py:73-76 | The std tables depend only on the std ranges. |
| LevelTables.MeanIgnoresStdRange | util/mainHelper.py:77-80 | The mean tables depend only on the mean ranges. |
| Severity.FirstMatch | util/mainHelper.py:97-100 | Finds the first interval containing the value, in either orientation, and no earlier interval contains it. |
| Severity.FindLevel | util/mainHelper.py:84-102 | KeyError exactly when the feature has no ranges. Otherwise the level is one more than the first matching interval, or `levels` when no interval matches. |
| Severity.LevelInRange | util/mainHelper.py:97-102 | With at most `levels` intervals, the level is between 1 and `levels`. |
| Severity.FirstMatchWins | util/mainHelper.py:97-100 | A value inside interval `i` gets a level of at most `i + 1`. |
| Severity.UnmatchedIsMostSevere | util/mainHelper.py:102 | A value outside every interval gets the highest level. |
| InclusionExclusion.InclusionExclusion | util/mainHelper.py:104-119 | The alternating sum over all combinations equals `1 - prod(1 - p)`, and lies in [0, 1] for probabilities. |
| InclusionExclusion.ProdConcat | util/mainHelper.py:121-134 | The product of a concatenation is the product of the products. |
| InclusionExclusion.CombinationsCount | util/mainHelper.py:116 | `combinations(pr, k)` yields `C(n, k)` tuples. |
| InclusionExclusion.CombinationsShape | util/mainHelper.py:116 | Every combination has `k` elements, all taken from the input. |
| InclusionExclusion.CombinationsSum | util/mainHelper.py:115-117 | The sum of products over the `k`-combinations is the `k`-th elementary symmetric polynomial. |
| InclusionExclusion.SumOfProductsAppend | util/mainHelper.py:117 | The sum of products over two lists of combinations is the sum of the two sums. |
| InclusionExclusion.SumOfProductsPrepend | util/mainHelper.py:117 | Prepending `x` to every combination scales the sum of products by `x`. |
| InclusionExclusion.UnionUpToAltSum | util/mainHelper.py:114-118 | After `i` rounds the running union equals 1 minus the alternating sum of the first elementary polynomials. |
| InclusionExclusion.AltSumIsProduct | util/mainHelper.py:114-119 | The full alternating sum of elementary polynomials equals `prod(1 - p)`. |
| InclusionExclusion.ClosedForm | util/mainHelper.py:104-119 | The union returned equals `1 - prod(1 - p)`, the probability that at least one independent event occurs. |
| InclusionExclusion.ProdOfProbabilities | util/mainHelper.py:121-134 | A product of probabilities is a probability. |
| InclusionExclusion.UnionOfProbabilities | util/mainHelper.py:104-119 | The union of probabilities lies in [0, 1]. |
| InclusionExclusion.ProdAtMostFactor | util/mainHelper.py:121-134 | A product of probabilities is at most each factor. |
| InclusionExclusion.UnionAtLeastEach | util/mainHelper.py:104-119 | The union is at least each event's own probability. |
| InclusionExclusion.NoEvents | util/mainHelper.py:114-119 | The union of no events is 0. |
| InclusionExclusion.OneEvent | util/mainHelper.py:114-119 | The union of one event is its probability. |
| InclusionExclusion.TwoEvents | util/mainHelper.py:114-119 | Two events give `p + q - pq`. |
| InclusionExclusion.ThreeEvents | util/mainHelper.py:114-119 | Three events give the three-term inclusion-exclusion formula. |
| Topology.ReachClosed | util/mainHelper.py:219-224 | Every child of a node reached from node 0 is reached too. |
| Topology.ReachLeast | util/mainHelper.py:219-224 | The nodes reached from node 0 lie inside every arc-closed set holding node 0. |
| Topology.RootNotTarget | util/mainHelper.py:216-224 | On an acyclic graph no arc from a reached node leads back to node 0. |
| Propagation.FoldClosedForm | util/mainHelper.py:222-223 | The fold of three bounds equals the three-term inclusion-exclusion polynomial, entry by entry. |
| Propagation.FoldBounds | util/mainHelper.py:222-223 | Folding bounds in [0, 1] stays in [0, 1] and is at least each of the three inputs. |
| Propagation.ProbOfNodeAndParent | util/mainHelper.py:204-225 | Fails with IndexError exactly when a reached arc names a node or edge out of range. Otherwise it keeps the length and leaves node 0 and unreached nodes unchanged. It keeps bounds in [0, 1] and never lowers a node's bound. On a tree, every child holds the fold of its parent's final bound, its own input and its edge. |
| OutageModel.WeatherImpact | util/mainHelper.py:255-272 | For 1-D observations: ValueError exactly when some coefficient vector's length differs from the observations'. Otherwise it has the same keys as `alpha`, each mapped to the dot product. |
| OutageModel.WeatherImpactOfArray | util/mainHelper.py:266-271 | For a 2-D array of one row per weather variable: ValueError exactly when some coefficient vector's length differs from the number of rows. Otherwise every feature maps to one impact per column, the dot product with that column. |
| OutageModel.WeatherImpactPerComponent | findWeatherImpact.py:34-35 | The 2-D call fails exactly when the 1-D call on a column fails, and otherwise each column's impacts are those of the 1-D call on that column. |
| OutageModel.DotUnit | util/mainHelper.py:268-271 | The impact of a unit observation picks out one coefficient. |
| OutageModel.DotZero | util/mainHelper.py:268-271 | Zero observations have zero impact. |
| OutageModel.DotAdditive | util/mainHelper.py:268-271 | The impact is additive in the observations. |
| OutageModel.WeatherImpactOfUnit | util/mainHelper.py:255-272 | With a unit observation, every feature's impact is its coefficient for that observation. |
| OutageModel.Column | util/mainHelper.py:162 | The data column of a feature is its name up to the first space. |
| OutageModel.FeatureEntry | util/mainHelper.py:161-169 | Succeeds exactly when the column, the feature's ranges, both tables' feature and level keys and the impact entry are all present, giving the impact, the table mean at the level found and the squared std. A missing column or missing ranges give their KeyError. |
| OutageModel.FeatureEntryErrors | util/mainHelper.py:163-167 | Once the column and ranges are present, the first missing lookup in the code's order decides the error: KeyError for a table or the impact without the feature, the level's KeyError for a table without the level, TypeError for a `None` impact. |
| OutageModel.Assemble | util/mainHelper.py:158-173 | Succeeds exactly when every feature succeeds, giving entries in feature order. Otherwise it fails with the first failing feature's error. |
| OutageModel.GenerateProb | util/mainHelper.py:137-202 | Succeeds exactly when some row is given and every given row's component succeeds; the value is then the node's, or the edge's when there is no node row. With neither row, `prob[0]` raises IndexError; a node row's error comes before an edge row's. A CDF in [0, 1] gives a probability in [0, 1]. |
| OutageModel.TableLookupTotal | main.py:50-62 | With ranges from the histogram and tables built for `numOfBins + 1` levels, every observed value finds a level that is a key of both tables. |
| OutageModel.PopulationLevel | main.py:50-59 | A forecast value's level is at most one more than the bin it was counted in. |
| LegacyHelper.AssignValuesToRanges | mainHelper.py:12-46 | The same histogram contract: `numBins` bins whose counts add up to the number of values, with the maximum in the last bin. Each bin's count is the number of values sent to it, and the bins tile [min, max] with equal widths. The error cases are those of the newer copy. |
| LegacyHelper.CreateLevels | mainHelper.py:48-50 | Fails exactly for one level, with ZeroDivisionError. Otherwise it gives `max(levels, 0)` values from the minimum to the maximum with the constant step `(max - min) / (levels - 1)`. |
| LegacyHelper.CreateTables | mainHelper.py:52-63 | The same tables with the level count as first argument: keys 1 to `levels - 1`, the maximum at the top, each feature's table `BuildTable` of its range. |
| LegacyHelper.FindLevel | mainHelper.py:65-71 | Succeeds exactly when the feature has ranges, with the first matching interval plus one, else `numOfBins`. A missing feature is a KeyError. |
| LegacyHelper.InclusionExclusion | mainHelper.py:73-85 | The union `1 - prod(1 - p)` of the events; 0 for none; in [0, 1] for probabilities. |
| LegacyHelper.GenerateProb | mainHelper.py:88-136 | The same dispatch: success exactly when some row is given and every given row succeeds, the node's value before the edge's, a node error before an edge error, IndexError with neither. A CDF in [0, 1] gives a probability in [0, 1]. |
| LegacyHelper.ProbOfNodeAndParent | mainHelper.py:138-148 | The same breadth-first fold: IndexError exactly on out-of-range arcs, node 0 and unreached nodes unchanged, bounds kept in [0, 1] and never decreased, tree nodes folded. |
| NetworkFunctions.Roundup | util/NetworkFunctions.py:513-525 | The result is a multiple of 100, not below `x` and less than 100 above it. |
| NetworkFunctions.RoundupUnique | util/NetworkFunctions.py:524 | That window determines the result: no other multiple of 100 satisfies it. |
| NetworkFunctions.RoundupLeast | util/NetworkFunctions.py:524 | The result is the least multiple of 100 not below `x`. |
| NetworkFunctions.RoundupOfMultiple | util/NetworkFunctions.py:524 | Multiples of 100 are unchanged. |
| NetworkFunctions.RoundupIdempotent | util/NetworkFunctions.py:524 | Rounding twice equals rounding once. |
| NetworkFunctions.RoundupMonotone | util/NetworkFunctions.py:524 | Rounding preserves order. |
| NetworkFunctions.ParseTime | util/NetworkFunctions.py:563-579 | The result has length `max(4, len)`, ends with the input and starts with zeros. |
| NetworkFunctions.ParseTimeKeepsLong | util/NetworkFunctions.py:577-578 | A text of four or more characters comes back unchanged, because `"0" * n` with `n <= 0` is empty. |
| NetworkFunctions.ParseTimeIdempotent | util/NetworkFunctions.py:576-579 | Padding a padded time changes nothing. |
| NetworkFunctions.ValueOfDigits | util/NetworkFunctions.py:576 | `str(n)` is a digit string that reads back as `n`. |
| NetworkFunctions.LeadingZeros | util/NetworkFunctions.py:578 | The zeros prepended do not change the number the digits stand for. |
| NetworkFunctions.ParseTimeOfInteger | util/NetworkFunctions.py:576-579 | An integer time `HHMM` below 10000 becomes exactly four digits that read back as the same time. |
| NetworkFunctions.NodeNameSplit | util/NetworkFunctions.py:581-591 | The result is a prefix of the name, has no '.', and is followed in the name by '.' when shorter. |
| NetworkFunctions.NodeNameSplitIdempotent | util/NetworkFunctions.py:591 | Stripping twice equals stripping once. |
| NetworkFunctions.NodeNameSplitOfSuffixed | util/NetworkFunctions.py:591 | A plain bus name with any phase suffix attached strips back to the bus name. |
| NetworkFunctions.FindNumLoads | util/NetworkFunctions.py:372-390 | The count is how often `bus` occurs in the multiset of load buses. It is at most the number of loads, and 0 exactly when no load is on `bus`. |
| NetworkFunctions.FindNodeByName | util/NetworkFunctions.py:352-370 | The first index whose name equals the target. `None` exactly when no name does. |
| NetworkFunctions.FirstIsUnique | util/NetworkFunctions.py:364-368 | Only one index can be the first match, so the search's contract determines its answer. |
| NetworkFunctions.SearchKey | util/NetworkFunctions.py:407-408 | The searched name has no '.' and is a prefix of the bus. |
| NetworkFunctions.SearchKeyIsSplit | util/NetworkFunctions.py:407-408 | Guarding the split on `'.' in bus` changes nothing: the key is always the text before the first '.'. |
| NetworkFunctions.FindNodeNum | util/NetworkFunctions.py:392-412 | The `num` of the first node whose name equals the suffix-stripped bus. `None` exactly when there is none. |
| Strings.SplitFirst | util/NetworkFunctions.py:591 | `split(sep)[0]` is a prefix without `sep`, followed by `sep` when shorter. |
| Strings.SplitFirstIdempotent | util/NetworkFunctions.py:591 | Splitting the first part again returns it unchanged. |
| WeatherNetwork.Descend | getWeather/NetworkFunctions.py:551-553 | Skipping or visiting a fed bus only adds to both sets, and the bus ends up visited. |
| WeatherNetwork.Scan | getWeather/NetworkFunctions.py:544-553 | The loop over a bus's connections only adds to both sets. Its decreases clause shows the recursion ends: every descent enters a bus not yet visited. |
| WeatherNetwork.Visit | getWeather/NetworkFunctions.py:522-555 | The starting bus is visited, and the sets passed in are only extended. |
| WeatherNetwork.ScanComplete | getWeather/NetworkFunctions.py:544-553 | When a bus's scan ends, each of its outgoing connections has its line disabled and its fed buses visited. |
| WeatherNetwork.ScanSound | getWeather/NetworkFunctions.py:546-548 | Every name the walk disables belongs to a "Line" connection leaving a visited bus. |
| WeatherNetwork.ScanWithin | getWeather/NetworkFunctions.py:550-553 | The walk never leaves a downstream-closed set holding the bus it scans. |
| WeatherNetwork.DownstreamIsClosed | getWeather/NetworkFunctions.py:522-555 | The visited buses are closed downstream, and every line leaving one of them is disabled. |
| WeatherNetwork.DownstreamIsLeast | getWeather/NetworkFunctions.py:541-553 | The visited buses lie inside every downstream-closed set holding the start: the walk visits exactly the downstream buses. |
| WeatherNetwork.DisabledAreDownstreamLines | getWeather/NetworkFunctions.py:544-548 | Nothing but downstream lines is disabled. |
| WeatherNetwork.DisableDownstreamExact | getWeather/NetworkFunctions.py:522-555 | The disabled set is exactly the names containing "Line" among the outgoing connections of the downstream buses. |
| WeatherNetwork.LastElevationIsLast | getWeather/NetworkFunctions.py:377-381 | The remembered elevation is that of the last node with the number. The variable is unbound exactly when no node has it. |
| WeatherNetwork.EdgeElevation | getWeather/NetworkFunctions.py:376-382 | Succeeds only when both ends were found and both have an elevation. |
| WeatherNetwork.FindEdgeElevationByNum | getWeather/NetworkFunctions.py:376-382 | The single pass agrees with the last-match definition. UnboundLocalError exactly when no node carries one of the two numbers. |
| WeatherNetwork.EdgeElevationSymmetric | getWeather/NetworkFunctions.py:382 | The edge's elevation does not depend on the order of its ends. |
| WeatherNetwork.EdgeElevationBetween | getWeather/NetworkFunctions.py:382 | The edge's elevation lies between its ends' elevations. |
| WeatherNetwork.Roundup | getWeather/NetworkFunctions.py:19-20 | The copy rounds up to the least multiple of 100 not below `x`, as in the util copy. |
| WeatherNetwork.ParseTime | getWeather/NetworkFunctions.py:29-33 | The copy zero-pads to length `max(4, len)` and keeps the input as suffix. |
| WeatherNetwork.FindNodeByName | getWeather/NetworkFunctions.py:40-58 | The copy returns the first index with the target name, or `None` exactly when there is none. |
| WeatherNetwork.FindNumLoads | getWeather/NetworkFunctions.py:313-331 | The copy counts the loads on the bus, between 0 and the number of loads. |
| WeatherNetwork.NodeNameSplit | getWeather/NetworkFunctions.py:333-334 | The copy returns the prefix before the first '.'. |
| WeatherNetwork.FindNodeNum | getWeather/NetworkFunctions.py:337-357 | The copy returns the first suffix-stripped match's `num`, or `None` exactly when there is none. |

## Left out

- The plotting functions (`plotTreeWithProb`) and all file, CSV, Excel and DSS readers (`readBusData`, `readLineData`, ...). They only do input and output.
- The network APIs `getWeatherByCoords`, `getLandCover`, `getElevationByCoords`, `findEdgeElevation`, `graphFromDSS` and `graphAndProcess`. They call remote services or write files.
- `cft` and `parseDate`. They parse text with `float` and `datetime.strptime`; no property of the core depends on them.
- `multivariate_normal(...).cdf` is SciPy code that is not part of this model. `generateProb` takes the CDF as a function parameter `cdf(impacts, means, variances)`. Its only assumed property is a value in [0, 1], which appears as a hypothesis.
- Floating-point rounding. All arithmetic is exact on `real`, so `np.round(..., 1)` in `main.py` and the float division in `roundup` are exact here.
- `str(time)` in `parseTime` is modelled for non-negative integers (`Digits`) and for text. Other Python objects are not modelled.
- Python's negative list indices. An index in `probOfNodeAndParent` below 0 would wrap around in Python. Node and edge numbers are `nat` here, so only the too-large index (IndexError) is modelled.
- Propagation.ProbOfNodeAndParent: takes a ghost `rank` map showing that the part of the graph reached from node 0 has no cycle. On a cyclic graph whose every reached arc is in range the Python loop never ends, and that run is not modelled.
- Propagation.ProbOfNodeAndParent: states the folded value of each child only when the reached part of the graph is a tree. When a node has two parents it is folded once per path, and the contract then says only that the bounds stay in [0, 1] and never decrease.
- A node or edge data frame handed to `generateProb` is modelled as exactly one row, a map from column to value, and `.empty` as a row with no columns. A frame with columns but no rows, which pandas also calls empty, and a frame of several rows, on which `float(node[col])` raises TypeError, are not modelled; `main.py` always passes the single row `iloc[[i]]`.
- `findNodeNum`, `find_node_by_name` and `findNumLoads` receive only the fields they read: names, numbers, buses. `find_node_by_name` receives the list of the elements' names.
- WeatherNetwork.Visit: the network is a map from bus name to its connection list, and a connection names its fed buses. A bus absent from the map has no connections. In Python every bus object carries its own list. Python's recursion limit is not modelled: a downstream walk deeper than that limit raises RecursionError in Python (getWeather/NetworkFunctions.py:551-553), while `Visit` returns normally.
- The scripts `main.py`, `importData.py`, `findWeatherImpact.py`, `getWeather.py` and the `getWeather/` scripts only read and write files. `getRain.py`'s `roundup`, `parseDate` and `parseTime` are further copies of helpers modelled above.
