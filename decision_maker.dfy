/** The feature extractor and the first k-nearest-neighbour predictor: trailing
    simple moving averages, the length-checked Euclidean distance, one data point
    per kline, and the `Knn` object that stores the training data points. */
module DecisionMaker {
  import opened Results
  import opened Klines
  import opened Distance
  import opened Neighbours

  /** The moving-average window `extractDataPoints` uses. */
  const SmaInterval: nat := 5

  // ---------------------------------------------------------------- sma

  /** Sum of `Value(klines[index - j], f)` for `j` in `0 .. n - 1`: the last `n`
      klines up to and including `index`. */
  function WindowSum(klines: seq<Kline>, index: int, n: nat, f: Field): real
    requires n <= index + 1 && index < |klines|
  {
    if n == 0 then 0.0
    else WindowSum(klines, index, n - 1, f) + Value(klines[index - (n - 1)], f)
  }

  /** The trailing simple moving average of field `f` at `index`, undefined while
      fewer than `interval` klines of history exist. */
  function SmaOf(klines: seq<Kline>, index: int, interval: nat, f: Field): Option<real>
    requires index < |klines| && interval > 0
  {
    if index < interval - 1 then None
    else Some(WindowSum(klines, index, interval, f) / interval as real)
  }

  /** `sma(klines, index, interval, klineValue)`: accumulates the window in a loop
      and divides by the interval. */
  method Sma(klines: seq<Kline>, index: int, interval: nat, f: Field) returns (r: Option<real>)
    requires index < |klines| && interval > 0
    ensures r.None? <==> index < interval - 1
    ensures r.Some? ==> r.value == WindowSum(klines, index, interval, f) / interval as real
    ensures r == SmaOf(klines, index, interval, f)
  {
    if index < interval - 1 {
      return None;
    }
    var sum := 0.0;
    for j := 0 to interval
      invariant sum == WindowSum(klines, index, j, f)
    {
      sum := sum + Value(klines[index - j], f);
    }
    return Some(sum / interval as real);
  }

  /** The window sum reads only the klines `index - n + 1 .. index`. */
  lemma {:induction false} WindowSumReadsOnlyWindow(a: seq<Kline>, b: seq<Kline>, index: int, n: nat, f: Field)
    requires n <= index + 1 && index < |a| && index < |b|
    requires forall j :: index - n < j <= index ==> Value(a[j], f) == Value(b[j], f)
    ensures WindowSum(a, index, n, f) == WindowSum(b, index, n, f)
  {
    if n > 0 {
      WindowSumReadsOnlyWindow(a, b, index, n - 1, f);
    }
  }

  /** Two kline series that agree on the window give the same moving average,
      whatever they hold elsewhere. */
  lemma SmaReadsOnlyWindow(a: seq<Kline>, b: seq<Kline>, index: int, interval: nat, f: Field)
    requires index < |a| && index < |b| && interval > 0
    requires forall j :: index - interval < j <= index && 0 <= j ==> Value(a[j], f) == Value(b[j], f)
    ensures SmaOf(a, index, interval, f) == SmaOf(b, index, interval, f)
  {
    if index >= interval - 1 {
      WindowSumReadsOnlyWindow(a, b, index, interval, f);
    }
  }

  lemma {:induction false} WindowSumBounds(klines: seq<Kline>, index: int, n: nat, f: Field, lo: real, hi: real)
    requires n <= index + 1 && index < |klines|
    requires forall j :: index - n < j <= index ==> lo <= Value(klines[j], f) <= hi
    ensures n as real * lo <= WindowSum(klines, index, n, f) <= n as real * hi
  {
    if n > 0 {
      WindowSumBounds(klines, index, n - 1, f, lo, hi);
      assert n as real * lo == (n - 1) as real * lo + lo;
      assert n as real * hi == (n - 1) as real * hi + hi;
    }
  }

  lemma DivideBounds(s: real, n: real, lo: real, hi: real)
    requires n > 0.0 && n * lo <= s <= n * hi
    ensures lo <= s / n <= hi
  {
  }

  /** A defined moving average lies between the smallest and the largest value
      in its window. */
  lemma SmaWithinWindowRange(klines: seq<Kline>, index: int, interval: nat, f: Field, lo: real, hi: real)
    requires index < |klines| && interval > 0 && index >= interval - 1
    requires forall j :: index - interval < j <= index ==> lo <= Value(klines[j], f) <= hi
    ensures SmaOf(klines, index, interval, f).Some?
    ensures lo <= SmaOf(klines, index, interval, f).value <= hi
  {
    WindowSumBounds(klines, index, interval, f, lo, hi);
    DivideBounds(WindowSum(klines, index, interval, f), interval as real, lo, hi);
  }

  // ---------------------------------------------------------------- distance

  /** `euclideanDistance(a, b)`: refuses points of unequal length, otherwise
      sums the squared coordinate differences (the square root is left out). */
  method EuclideanDistance(a: seq<real>, b: seq<real>) returns (r: Result<real>)
    ensures |a| != |b| ==> r == Err(LengthMismatch)
    ensures |a| == |b| ==> r == Ok(SquaredDistance(a, b))
  {
    if |a| != |b| {
      return Err(LengthMismatch);
    }
    var dist := 0.0;
    for i := 0 to |a|
      invariant dist == SquaredDistance(a[..i], b[..i])
    {
      assert a[..i + 1][..i] == a[..i] && b[..i + 1][..i] == b[..i];
      dist := dist + Square(a[i] - b[i]);
    }
    assert a[..|a|] == a && b[..|b|] == b;
    return Ok(dist);
  }

  // ---------------------------------------------------------------- data points

  /** A kline's data point `[close - open, smaClose - smaOpen]`; the second
      component is `None` while the moving averages are undefined. */
  datatype DataPoint = DataPoint(priceChange: real, smaChange: Option<real>)

  /** The data point `extractDataPoints` assigns to kline `i`. */
  function DataPointAt(klines: seq<Kline>, i: nat): DataPoint
    requires i < |klines|
  {
    var smaOpen := SmaOf(klines, i, SmaInterval, Open);
    var smaClose := SmaOf(klines, i, SmaInterval, Close);
    var smaDiff := if smaClose.Some? && smaOpen.Some? then Some(smaClose.value - smaOpen.value) else None;
    DataPoint(klines[i].close - klines[i].open, smaDiff)
  }

  /** `Knn.extractDataPoints(klines)`: one data point per kline, in input order. */
  method ExtractDataPoints(klines: seq<Kline>) returns (dataPoints: seq<DataPoint>)
    ensures |dataPoints| == |klines|
    ensures forall i :: 0 <= i < |klines| ==> dataPoints[i] == DataPointAt(klines, i)
    ensures forall i :: 0 <= i < |klines| ==> dataPoints[i].priceChange == klines[i].close - klines[i].open
    ensures forall i :: 0 <= i < |klines| ==> (dataPoints[i].smaChange.None? <==> i < SmaInterval - 1)
    ensures forall i :: 0 <= i < |klines| && dataPoints[i].smaChange.Some? ==>
      dataPoints[i].smaChange.value
        == WindowSum(klines, i, SmaInterval, Close) / SmaInterval as real
         - WindowSum(klines, i, SmaInterval, Open) / SmaInterval as real
  {
    dataPoints := [];
    for i := 0 to |klines|
      invariant |dataPoints| == i
      invariant forall j :: 0 <= j < i ==> dataPoints[j] == DataPointAt(klines, j)
    {
      var kline := klines[i];
      var smaOpen := Sma(klines, i, SmaInterval, Open);
      var smaClose := Sma(klines, i, SmaInterval, Close);
      var smaDiff: Option<real>;
      if smaClose.Some? && smaOpen.Some? {
        smaDiff := Some(smaClose.value - smaOpen.value);
      } else {
        // the moving averages are None: not enough history yet
        smaDiff := None;
      }
      var dp := DataPoint(kline.close - kline.open, smaDiff);
      dataPoints := dataPoints + [dp];
    }
  }

  // ---------------------------------------------------------------- Knn

  /** Both components of a data point, once both are defined. */
  function Coordinates(dp: DataPoint): seq<real>
    requires dp.smaChange.Some?
  {
    [dp.priceChange, dp.smaChange.value]
  }

  /** Comparing `trainDp` with `query` gets past its first coordinate and then
      needs both second components (Python raises TypeError on `None`). */
  predicate Comparable(trainDp: DataPoint, query: DataPoint)
  {
    trainDp.smaChange.Some? && query.smaChange.Some?
  }

  class Knn {
    var trainKlines: seq<Kline>
    var dataPoints: seq<DataPoint>
    var k: int

    /** The stored data points are those of the training klines. */
    ghost predicate Valid()
      reads this
    {
      && |dataPoints| == |trainKlines|
      && forall i :: 0 <= i < |trainKlines| ==> dataPoints[i] == DataPointAt(trainKlines, i)
    }

    /** `Knn(trainKlines, k)` */
    constructor (trainKlines: seq<Kline>, k: int)
      ensures Valid()
      ensures this.trainKlines == trainKlines && this.k == k
      ensures |dataPoints| == |trainKlines|
    {
      this.trainKlines := trainKlines;
      var dataPoints := ExtractDataPoints(trainKlines);
      this.dataPoints := dataPoints;
      this.k := k;
    }

    /** `getKnn(dataPoint)` as written: the selection is still a TODO, so each
        distance it measures is dropped and the result is the empty list. A
        `None` component makes the distance raise. The first data point of any
        non-empty training series has one, so only an empty series succeeds. */
    method GetKnn(query: DataPoint) returns (r: Result<seq<Neighbour>>)
      ensures r.Ok? <==> forall i :: 0 <= i < |dataPoints| ==> Comparable(dataPoints[i], query)
      ensures r.Ok? ==> r.value == []
      ensures r.Err? ==> r.error == UndefinedComponent
      ensures Valid() ==> (r.Ok? <==> |trainKlines| == 0)
    {
      var knn: seq<Neighbour> := [];
      for i := 0 to |dataPoints|
        invariant forall j :: 0 <= j < i ==> Comparable(dataPoints[j], query)
      {
        var trainDp := dataPoints[i];
        if !Comparable(trainDp, query) {
          return Err(UndefinedComponent);
        }
        var distance := EuclideanDistance(Coordinates(trainDp), Coordinates(query));
      }
      // Dead branch: the loop invariant makes `dataPoints[0]` comparable, while
      // `Valid()` and `FirstDataPointUndefined` make its second component `None`.
      if Valid() && |trainKlines| > 0 {
        FirstDataPointUndefined(trainKlines);
        assert false;
      }
      r := Ok(knn);
    }
  }

  /** Kline 0 never has enough history for a moving average. */
  lemma FirstDataPointUndefined(klines: seq<Kline>)
    requires |klines| > 0
    ensures DataPointAt(klines, 0).smaChange.None?
  {
  }
}
