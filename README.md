# Nearest-neighbour core of a kline trading bot, in Dafny

The bot predicts from candlestick data ("klines": timestamp, open, high, low,
close, volume) by comparing the feature vector of the current kline with those of
a training series. This project models the two parts of the repository that
compute something.

- `decisionMaker.py`, the feature extractor and the first k-nearest-neighbour
  class:
  - `sma`, a trailing simple moving average over one kline field. It is
    undefined (`None`) until `interval` klines of history exist.
  - `euclideanDistance`, which refuses points of unequal length.
  - `Knn.extractDataPoints`, which gives each kline the data point
    `[close - open, smaClose - smaOpen]` with a window of 5.
  - The `Knn` object, which stores the training data points.
  - `Knn.getKnn`, whose neighbour selection is still unwritten. It returns `[]`
    only for an empty training series. Otherwise the first stored data point has
    an undefined second component, so its distance raises TypeError.
- `gridTesting.py`, the faster grid draft:
  - `extractDataPoints`, which gives each kline `[close - open, volume]`.
  - `distributeDp`, which hashes each point into a dictionary of buckets keyed
    by `(floor(x / w), floor(y / w))`.
  - `getKnnNew`, which gathers the 3-by-3 block of buckets around the key of
    the module-level `dp` (gridTesting.py:104), not of its `dataPoint` argument.
    In `__main__` the two are the same point (gridTesting.py:153-154). It
    returns `None` when fewer than `k` candidates are found. Otherwise it runs
    a worst-of-k scan: append until `k` are held; after that, sort by distance
    and overwrite the last entry when the new candidate is strictly closer.

Modules:

- `Results`: `Option` and the `Result`/`Error` the source raises as exceptions.
- `Klines`: the kline record and field selector.
- `Distance`: the squared distance both files compute.
- `Neighbours`: the `{"distance", "index"}` record and Python's stable
  `sorted(..., key=distance)`, modelled as a stable insertion sort.
- `DecisionMaker` and `GridTesting`: one module per source file.

The loops of the source are methods with loop invariants. Most of them are
proved equal to a specification function, and the properties are proved about
those functions:

- `Sma` equals `SmaOf`.
- Both `EuclideanDistance` methods equal `SquaredDistance`.
- `DecisionMaker.ExtractDataPoints` equals `DataPointAt` at every index.
- `DistributeDp` equals `Bucket` on every key.
- `GatherCandidates` equals `Candidates`.
- `GetKnnNew` equals `Scan`.

The contracts of `GridTesting.ExtractDataPoints`, the `Knn` constructor and
`Knn.GetKnn` state their results directly.

Conventions:

- Prices and volumes are `real`.
- Distances are squared: the source's final `sqrt` is monotone, so every
  comparison in the scan has the same outcome.
- Python's floor division `//` is `(x / w).Floor`.
- The bucket width `w` is a parameter. In the source it is
  `knnConfig["threshold"]`, which is 1 at `config.py:14`.
- `k` is a parameter too. `getKnnNew`'s `k` defaults to 3 (gridTesting.py:81),
  and its only caller relies on that default (gridTesting.py:154). `Knn`'s `k`
  is a constructor argument (decisionMaker.py:66). No source file reads
  `knnConfig["k"]`.
- The stored `index` of a neighbour is its position in the concatenated
  candidate list `closeNn`, not a training index, as in the source.
- The list `getKnnNew` returns is not sorted again after the final replacement,
  so it need not be ascending (`ResultNotAlwaysAscending`).

## Model

| member | source | states |
|---|---|---|
| `Distance.SquaredDistance` | decisionMaker.py:57-60 | the accumulated sum of squared coordinate differences is never negative |
| `Distance.SquaredDistanceSymmetric` | decisionMaker.py:57-60 | the distance of `a` to `b` equals that of `b` to `a` |
| `Distance.SquaredDistanceToSelf` | decisionMaker.py:57-60 | a point is at distance zero from itself |
| `Neighbours.Insert` | gridTesting.py:133 | inserting into an ascending list gives an ascending list one longer holding exactly the old entries and the new one |
| `Neighbours.SortByDistance` | gridTesting.py:133 | `sorted(knn, key=distance)` keeps the length and the entries and is ascending by distance |
| `Neighbours.InsertIsPermutation` | gridTesting.py:133 | insertion adds exactly one occurrence of the new entry (multiset) |
| `Neighbours.SortIsPermutation` | gridTesting.py:133 | sorting is a permutation: every entry occurs as often as before |
| `Neighbours.InsertKeepsDistinct` | gridTesting.py:133 | inserting a neighbour with a fresh index keeps all indices distinct |
| `Neighbours.SortKeepsDistinct` | gridTesting.py:133 | sorting a list with distinct indices keeps them distinct |
| `Neighbours.MaxDistance` | gridTesting.py:136 | the worst distance held is attained by some entry and bounds all entries |
| `Neighbours.MaxDistanceOfSameEntries` | gridTesting.py:133-136 | lists with the same entries have the same worst distance, so the sorted list's last entry is the worst of the unsorted one |
| `DecisionMaker.Sma` | decisionMaker.py:20-42 | `None` exactly when `index < interval - 1` (defined at `index = interval - 1`); otherwise the sum of the field over klines `index - interval + 1 .. index` divided by `interval` |
| `DecisionMaker.WindowSumReadsOnlyWindow` | decisionMaker.py:36-38 | the window sum depends only on the klines `index - n + 1 .. index` |
| `DecisionMaker.SmaReadsOnlyWindow` | decisionMaker.py:32-42 | two series agreeing on the window give the same moving average, defined or not |
| `DecisionMaker.WindowSumBounds` | decisionMaker.py:36-38 | a window of `n` values within `[lo, hi]` sums to between `n * lo` and `n * hi` |
| `DecisionMaker.SmaWithinWindowRange` | decisionMaker.py:36-40 | a defined moving average lies between the smallest and largest value of its window |
| `DecisionMaker.EuclideanDistance` | decisionMaker.py:45-62 | points of unequal length are refused with `LengthMismatch`; otherwise the result is the squared distance |
| `DecisionMaker.ExtractDataPoints` | decisionMaker.py:128-150 | one data point per kline, in order; component 0 is `close - open` of the same kline; component 1 is `None` exactly for `i < 4` and otherwise the close average minus the open average over the window of 5 |
| `DecisionMaker.FirstDataPointUndefined` | decisionMaker.py:128-141 | the first kline's data point never has a defined second component |
| `DecisionMaker.Knn.constructor` | decisionMaker.py:66-70 | stores the training klines and `k`, and one data point per training kline equal to what `extractDataPoints` gives |
| `DecisionMaker.Knn.GetKnn` | decisionMaker.py:152-170 | succeeds exactly when every stored data point and the query have a defined second component, and then returns the empty list; otherwise fails with `UndefinedComponent`; on a constructed object it succeeds exactly when the training series is empty |
| `GridTesting.EuclideanDistance` | gridTesting.py:12-18 | the squared distance over `a`'s coordinates; extra coordinates of `b` are ignored |
| `GridTesting.PointDistanceIsSumOfSquares` | gridTesting.py:12-18 | the distance of two 2-D points is the sum of the squared differences of both coordinates |
| `GridTesting.ExtractDataPoints` | gridTesting.py:21-34 | one `[close - open, volume]` point per kline, in order |
| `GridTesting.DistributeDp` | gridTesting.py:55-74 | the keys are exactly the keys of the input points, and each key's list is the input points with that key, in input order |
| `GridTesting.DistributeStep` | gridTesting.py:64-70 | one more point adds its own key and extends only its own bucket, at the end |
| `GridTesting.BucketOfUnusedKey` | gridTesting.py:67-70 | a key no point has gets no entry, so a first point starts a new list |
| `GridTesting.BucketMembers` | gridTesting.py:64-70 | a point is in a bucket exactly when it is an input point whose key is the bucket's |
| `GridTesting.BucketSizesAddUp` | gridTesting.py:64-70 | over distinct keys covering all points, the bucket sizes add up to the number of points |
| `GridTesting.MooreKeysAreTheNeighbourhood` | gridTesting.py:107-108 | the scanned keys are exactly the nine keys at offsets -1, 0, +1 in both coordinates |
| `GridTesting.MooreKeysDistinct` | gridTesting.py:107-108 | the nine scanned keys are pairwise different, so no bucket is gathered twice |
| `GridTesting.GatheredMembers` | gridTesting.py:107-112 | a point is gathered exactly when it is in the bucket of one of the scanned keys |
| `GridTesting.CandidateMembers` | gridTesting.py:107-112 | a point is a candidate exactly when it lies in one of the nine buckets around the key; missing buckets contribute nothing |
| `GridTesting.GatheredAppend` | gridTesting.py:107-112 | gathering two key lists one after the other gathers their concatenation |
| `GridTesting.GatheredRow` | gridTesting.py:108-112 | the inner loop over one row gathers the row's three buckets in order |
| `GridTesting.CandidatesByRows` | gridTesting.py:107-112 | gathering row by row, as the nested loops do, yields the candidate list |
| `GridTesting.GatherCandidates` | gridTesting.py:105-112 | the nested loops concatenate the nine buckets in loop order |
| `GridTesting.KeysOfNearbyCoordinates` | gridTesting.py:65 | coordinates at most `w` apart have floor keys at most one apart |
| `GridTesting.NearbyPointIsCandidate` | gridTesting.py:104-112 | a training point within `w` of the query in each coordinate is among the candidates of the query's key |
| `GridTesting.CandidatesAreNearbyTrainingPoints` | gridTesting.py:107-112 | every candidate is a training point whose key is within one of the given `key` in both coordinates |
| `GridTesting.ScanStepReplacesWorst` | gridTesting.py:131-137 | once `k` are held, a step keeps `k`, never raises the worst kept distance, admits the new candidate exactly when it is strictly closer than the current worst; then it takes the place of one entry at the worst distance and every other entry stays (multiset), otherwise the entries are unchanged (multiset) |
| `GridTesting.ReplaceLastEntries` | gridTesting.py:137 | overwriting the last entry `knn[-1]` removes exactly that entry and adds exactly the new one (multiset) |
| `GridTesting.ScanKeepsNearest` | gridTesting.py:117-139 | after `n` candidates the list holds `min(n, k)` entries with distinct valid indices and true distances, and no dropped candidate is closer than a kept one |
| `GridTesting.ScanAppendStep` | gridTesting.py:127-129 | while fewer than `k` are held every scanned candidate is kept, at its own position, with its true distance |
| `GridTesting.ScanReplacementStep` | gridTesting.py:131-137 | a sort-and-replace step on `k` entries keeps the scan's invariant |
| `GridTesting.ReplaceWorstStep` | gridTesting.py:136-137 | overwriting the worst entry with a strictly closer candidate keeps the scan's invariant |
| `GridTesting.GetKnnNew` | gridTesting.py:81-139 | `None` exactly when fewer than `k` candidates are gathered; otherwise `k` entries with distinct valid indices into the candidate list, true distances, and no dropped candidate closer than a kept one; with `k <= 0` it fails with `IndexOutOfRange` exactly when some candidate exists |
| `GridTesting.GetKnnAroundQuery` | gridTesting.py:151-154 | keyed on the query itself: the scan's guarantees, and every training point within `w` of the query in each coordinate is a candidate |
| `GridTesting.GlobalKeyMissesTheQuery` | gridTesting.py:104 | keying on a different module-level point can leave a query with no candidate although a training point coincides with it |
| `GridTesting.ResultNotAlwaysAscending` | gridTesting.py:133-139 | with `k = 2` and squared distances 1, 4, 0 the returned list is not ascending |

## Left out

- `DecisionMaker` (the abstract base class) and `Knn.getPosition`, at decisionMaker.py:10-17 and 72-85: the first declares an abstract method, and the second calls `getKnn` for each current data point and returns nothing.
- The outcome simulator, the consensus rule and the backtest loop: `bot.py`'s `backtest` is empty, and the rest has no source here.
- `math.sqrt` and `np.sqrt`, and IEEE floating point: distances are squared reals, which keeps every comparison the scan makes.
- `DecisionMaker.Sma`: requires `interval > 0`. With interval 0 the source divides by zero (ZeroDivisionError); a negative interval is not a moving average. It also requires `index < |klines|`. For a larger index the source returns `None` when `index < interval - 1` and otherwise raises IndexError. Its only callers (decisionMaker.py:134-135) always pass an index inside the series. The default `klineValue="close"` (decisionMaker.py:20) is not modelled; the field is always passed.
- `DecisionMaker.Knn.GetKnn`: the Python `TypeError` raised when a `None` component reaches the distance is the `UndefinedComponent` error. The distances it computes are discarded, as in the source.
- `GridTesting.GetKnnNew`: the source's default `k = 3` is not modelled; `k` is always passed.
- `GridTesting.EuclideanDistance`: requires `|a| <= |b|`. For a shorter `b` the source raises IndexError (gridTesting.py:15-16); its only caller passes two 2-D points.
- `Neighbours.SortByDistance`: the model is a stable insertion sort. Stability itself, the order of entries at equal distance, is not stated as a separate property.
- `Distance.SquaredDistanceToSelf`: the converse, that distance zero implies equal points, is not proved.
- `dataGetter.py` and `klineData/binanceData/merger.py` (file input and output), `tradingClasses.py`, `bot.py`'s `plotChart` and `gridTesting.py`'s `plotPoints` (drawing), and `loadingBar.py` and the messages `distributeDp` prints (gridTesting.py:59, 72) (console output).
- `gridTesting.py`'s `__main__` timing loop (clock and printing) and `getEverySquareRecursive` (its body is `pass`).
- The `config.py` constants: `k`, `threshold`, `sameDirectionRatio` and the position-simulation settings are parameters or unused.

## Findings

| source | as written | input that shows it | evidently intended | confidence | as-written member | corrected member |
|---|---|---|---|---|---|---|
| gridTesting.py:104 | the neighbourhood key comes from the module-level `dp`, not from the `dataPoint` parameter | one training point `(0, 0)`, threshold 1, `dp = (10, 10)`, `dataPoint = (0, 0)`: no candidate is gathered, so `None` is returned although the training point is at distance 0 | the key of `dataPoint` | not executed; inside `__main__` the two coincide (lines 153-154), so the bug only shows for other callers | `GridTesting.GetKnnNew`, `GridTesting.GlobalKeyMissesTheQuery` | `GridTesting.GetKnnAroundQuery` |
