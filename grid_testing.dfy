/** The grid draft of the neighbour index: data points are hashed into square
    buckets of width `w`, and a query scans the 3-by-3 block of buckets around the
    key of the module-level `dp` (the query itself only when the caller made them
    the same point), keeping the `k` closest candidates by worst-of-k replacement. */
module GridTesting {
  import opened Results
  import opened Klines
  import opened Distance
  import opened Neighbours

  /** A data point `[priceChange, volume]` of this draft. */
  datatype Point = Point(x: real, y: real)

  function Coords(p: Point): seq<real>
  {
    [p.x, p.y]
  }

  /** The (squared) distance the scan compares. */
  function PointDistance(p: Point, q: Point): real
  {
    SquaredDistance(Coords(p), Coords(q))
  }

  /** The distance of two points in closed form. */
  lemma PointDistanceIsSumOfSquares(p: Point, q: Point)
    ensures PointDistance(p, q) == Square(p.x - q.x) + Square(p.y - q.y)
  {
    var a, b := Coords(p), Coords(q);
    assert a[..1] == [p.x] && b[..1] == [q.x];
    assert [p.x][..0] == [] && [q.x][..0] == [];
    assert SquaredDistance([p.x], [q.x]) == Square(p.x - q.x);
    assert SquaredDistance(a, b) == SquaredDistance([p.x], [q.x]) + Square(p.y - q.y);
  }

  // ---------------------------------------------------------------- distance

  /** `euclideanDistance(a, b)` of this draft: no length check, the loop runs over
      `a`'s coordinates, so a longer `b` has its extra coordinates ignored (and a
      shorter one would raise IndexError, which callers never provoke). */
  method EuclideanDistance(a: seq<real>, b: seq<real>) returns (d: real)
    requires |a| <= |b|
    ensures d == SquaredDistance(a, b[..|a|])
    ensures |a| == |b| ==> d == SquaredDistance(a, b)
  {
    d := 0.0;
    for i := 0 to |a|
      invariant d == SquaredDistance(a[..i], b[..i])
    {
      assert a[..i + 1][..i] == a[..i] && b[..i + 1][..i] == b[..i];
      d := d + Square(a[i] - b[i]);
    }
    assert a[..|a|] == a && b[..|a|][..|a|] == b[..|a|];
    assert |a| == |b| ==> b[..|a|] == b;
  }

  // ---------------------------------------------------------------- data points

  /** `extractDataPoints(klines)` of this draft: `[close - open, volume]` per kline. */
  method ExtractDataPoints(klines: seq<Kline>) returns (dataPoints: seq<Point>)
    ensures |dataPoints| == |klines|
    ensures forall i :: 0 <= i < |klines| ==>
      dataPoints[i] == Point(klines[i].close - klines[i].open, klines[i].volume)
  {
    dataPoints := [];
    for i := 0 to |klines|
      invariant |dataPoints| == i
      invariant forall j :: 0 <= j < i ==>
        dataPoints[j] == Point(klines[j].close - klines[j].open, klines[j].volume)
    {
      var kline := klines[i];
      dataPoints := dataPoints + [Point(kline.close - kline.open, kline.volume)];
    }
  }

  // ---------------------------------------------------------------- buckets

  type GridKey = (int, int)

  /** `(dp[0] // w, dp[1] // w)`: floor division in both coordinates. */
  function KeyOf(p: Point, w: real): GridKey
    requires w > 0.0
  {
    ((p.x / w).Floor, (p.y / w).Floor)
  }

  /** The points of `points` whose key is `key`, in input order. */
  function Bucket(points: seq<Point>, w: real, key: GridKey): seq<Point>
    requires w > 0.0
    decreases |points|
  {
    if |points| == 0 then []
    else
      var n := |points| - 1;
      Bucket(points[..n], w, key) + (if KeyOf(points[n], w) == key then [points[n]] else [])
  }

  /** The keys some point of `points` falls in. */
  ghost function Keys(points: seq<Point>, w: real): set<GridKey>
    requires w > 0.0
  {
    set i | 0 <= i < |points| :: KeyOf(points[i], w)
  }

  /** `buckets` is what `distributeDp` builds from `points`. */
  ghost predicate IsDistribution(buckets: map<GridKey, seq<Point>>, points: seq<Point>, w: real)
    requires w > 0.0
  {
    && buckets.Keys == Keys(points, w)
    && forall key :: key in buckets ==> buckets[key] == Bucket(points, w, key)
  }

  lemma {:induction false} BucketOfUnusedKey(points: seq<Point>, w: real, key: GridKey)
    requires w > 0.0 && key !in Keys(points, w)
    ensures Bucket(points, w, key) == []
    decreases |points|
  {
    if |points| > 0 {
      var n := |points| - 1;
      assert Keys(points[..n], w) <= Keys(points, w) by {
        forall c | c in Keys(points[..n], w) ensures c in Keys(points, w) {
          var i :| 0 <= i < n && KeyOf(points[..n][i], w) == c;
          assert points[i] == points[..n][i];
        }
      }
      assert KeyOf(points[n], w) in Keys(points, w);
      BucketOfUnusedKey(points[..n], w, key);
    }
  }

  /** One more point adds its key and extends its own bucket only. */
  lemma DistributeStep(points: seq<Point>, w: real, i: nat)
    requires w > 0.0 && i < |points|
    ensures Keys(points[..i + 1], w) == Keys(points[..i], w) + {KeyOf(points[i], w)}
    ensures forall key ::
      Bucket(points[..i + 1], w, key) == Bucket(points[..i], w, key) + (if KeyOf(points[i], w) == key then [points[i]] else [])
  {
    var before, after := points[..i], points[..i + 1];
    assert after[..i] == before && after[i] == points[i];
    forall c | c in Keys(after, w) ensures c in Keys(before, w) + {KeyOf(points[i], w)} {
      var j :| 0 <= j < i + 1 && KeyOf(after[j], w) == c;
      if j < i {
        assert after[j] == before[j];
      }
    }
    forall c | c in Keys(before, w) ensures c in Keys(after, w) {
      var j :| 0 <= j < i && KeyOf(before[j], w) == c;
      assert after[j] == before[j];
    }
    assert KeyOf(after[i], w) in Keys(after, w);
  }

  /** `distributeDp(dataPoints)`: appends every point to the list under its key,
      creating the list the first time the key is met. */
  method DistributeDp(dataPoints: seq<Point>, w: real) returns (distributed: map<GridKey, seq<Point>>)
    requires w > 0.0
    ensures distributed.Keys == Keys(dataPoints, w)
    ensures forall key :: key in distributed ==> distributed[key] == Bucket(dataPoints, w, key)
  {
    distributed := map[];
    for i := 0 to |dataPoints|
      invariant distributed.Keys == Keys(dataPoints[..i], w)
      invariant forall key :: key in distributed ==> distributed[key] == Bucket(dataPoints[..i], w, key)
    {
      var dp := dataPoints[i];
      var key := KeyOf(dp, w);
      ghost var before := dataPoints[..i];
      DistributeStep(dataPoints, w, i);
      if key in distributed {
        distributed := distributed[key := distributed[key] + [dp]];
      } else {
        BucketOfUnusedKey(before, w, key);
        distributed := distributed[key := [dp]];
      }
    }
    assert dataPoints[..|dataPoints|] == dataPoints;
  }

  /** A point is in exactly the bucket of its own key: every input point is in
      its key's bucket, and a bucket holds only input points with that key. */
  lemma {:induction false} BucketMembers(points: seq<Point>, w: real, key: GridKey, p: Point)
    requires w > 0.0
    ensures p in Bucket(points, w, key) <==> p in points && KeyOf(p, w) == key
    decreases |points|
  {
    if |points| > 0 {
      var n := |points| - 1;
      BucketMembers(points[..n], w, key, p);
      assert points == points[..n] + [points[n]];
    }
  }

  /** Sum of the sizes of the buckets of `keys`. */
  function BucketSizes(points: seq<Point>, w: real, keys: seq<GridKey>): nat
    requires w > 0.0
  {
    if |keys| == 0 then 0
    else |Bucket(points, w, keys[0])| + BucketSizes(points, w, keys[1..])
  }

  lemma {:induction false} BucketSizesStep(points: seq<Point>, w: real, keys: seq<GridKey>)
    requires w > 0.0 && |points| > 0
    requires forall j1, j2 :: 0 <= j1 < j2 < |keys| ==> keys[j1] != keys[j2]
    ensures BucketSizes(points, w, keys)
      == BucketSizes(points[..|points| - 1], w, keys) + (if KeyOf(points[|points| - 1], w) in keys then 1 else 0)
    decreases |keys|
  {
    if |keys| > 0 {
      BucketSizesStep(points, w, keys[1..]);
      assert keys == [keys[0]] + keys[1..];
      var last := KeyOf(points[|points| - 1], w);
      if last == keys[0] {
        assert last !in keys[1..];
      }
    }
  }

  /** Bucketing loses nothing and invents nothing: over any list of distinct keys
      that covers every point's key, the bucket sizes add up to the number of
      points. */
  lemma {:induction false} BucketSizesAddUp(points: seq<Point>, w: real, keys: seq<GridKey>)
    requires w > 0.0
    requires forall j1, j2 :: 0 <= j1 < j2 < |keys| ==> keys[j1] != keys[j2]
    requires forall i :: 0 <= i < |points| ==> KeyOf(points[i], w) in keys
    ensures BucketSizes(points, w, keys) == |points|
    decreases |points|
  {
    if |points| == 0 {
      BucketSizesEmpty(w, keys);
    } else {
      var n := |points| - 1;
      BucketSizesStep(points, w, keys);
      assert forall i :: 0 <= i < n ==> points[..n][i] == points[i];
      BucketSizesAddUp(points[..n], w, keys);
    }
  }

  lemma {:induction false} BucketSizesEmpty(w: real, keys: seq<GridKey>)
    requires w > 0.0
    ensures BucketSizes([], w, keys) == 0
    decreases |keys|
  {
    if |keys| > 0 {
      BucketSizesEmpty(w, keys[1..]);
    }
  }

  // ---------------------------------------------------------------- candidates

  /** The 3-by-3 block of keys around `key`, in the order of the source's nested
      loops: first coordinate outer, second inner, each from -1 to +1. */
  function MooreKeys(key: GridKey): seq<GridKey>
  {
    var (x, y) := key;
    [ (x - 1, y - 1), (x - 1, y), (x - 1, y + 1),
      (x, y - 1),     (x, y),     (x, y + 1),
      (x + 1, y - 1), (x + 1, y), (x + 1, y + 1) ]
  }

  /** A missing bucket contributes nothing (the source's `except KeyError: pass`). */
  function BucketAt(buckets: map<GridKey, seq<Point>>, key: GridKey): seq<Point>
  {
    if key in buckets then buckets[key] else []
  }

  /** The concatenation of the buckets of `keys`, in order. */
  function Gathered(buckets: map<GridKey, seq<Point>>, keys: seq<GridKey>): seq<Point>
    decreases |keys|
  {
    if |keys| == 0 then []
    else
      var n := |keys| - 1;
      Gathered(buckets, keys[..n]) + BucketAt(buckets, keys[n])
  }

  /** The candidate list `closeNn` of a query whose key is `key`. */
  function Candidates(buckets: map<GridKey, seq<Point>>, key: GridKey): seq<Point>
  {
    Gathered(buckets, MooreKeys(key))
  }

  /** No key of the block is listed twice, so no bucket is gathered twice. */
  lemma MooreKeysDistinct(key: GridKey)
    ensures |MooreKeys(key)| == 9
    ensures forall n1, n2 :: 0 <= n1 < n2 < 9 ==> MooreKeys(key)[n1] != MooreKeys(key)[n2]
  {
  }

  /** The block is exactly the nine keys that differ from `key` by at most one in
      each coordinate. */
  lemma MooreKeysAreTheNeighbourhood(key: GridKey)
    ensures |MooreKeys(key)| == 9
    ensures forall c :: c in MooreKeys(key) <==> -1 <= c.0 - key.0 <= 1 && -1 <= c.1 - key.1 <= 1
  {
    var keys := MooreKeys(key);
    forall c: GridKey | -1 <= c.0 - key.0 <= 1 && -1 <= c.1 - key.1 <= 1
      ensures c in keys
    {
      var row := if c.0 == key.0 - 1 then 0 else if c.0 == key.0 then 3 else 6;
      var n := row + (c.1 - key.1 + 1);
      assert keys[n] == c;
    }
  }

  lemma {:induction false} GatheredMembers(buckets: map<GridKey, seq<Point>>, keys: seq<GridKey>, p: Point)
    ensures p in Gathered(buckets, keys) <==> exists j :: 0 <= j < |keys| && p in BucketAt(buckets, keys[j])
    decreases |keys|
  {
    if |keys| > 0 {
      var n := |keys| - 1;
      GatheredMembers(buckets, keys[..n], p);
      if p in Gathered(buckets, keys) && p !in BucketAt(buckets, keys[n]) {
        var j :| 0 <= j < n && p in BucketAt(buckets, keys[..n][j]);
        assert keys[..n][j] == keys[j];
      }
      if exists j :: 0 <= j < |keys| && p in BucketAt(buckets, keys[j]) {
        var j :| 0 <= j < |keys| && p in BucketAt(buckets, keys[j]);
        if j < n {
          assert keys[..n][j] == keys[j];
        }
      }
    }
  }

  /** A point is a candidate exactly when it lies in one of the nine buckets
      around `key`. */
  lemma CandidateMembers(buckets: map<GridKey, seq<Point>>, key: GridKey, p: Point)
    ensures p in Candidates(buckets, key) <==>
      exists c: GridKey :: -1 <= c.0 - key.0 <= 1 && -1 <= c.1 - key.1 <= 1 && p in BucketAt(buckets, c)
  {
    var keys := MooreKeys(key);
    MooreKeysAreTheNeighbourhood(key);
    GatheredMembers(buckets, keys, p);
    if p in Gathered(buckets, keys) {
      var j :| 0 <= j < |keys| && p in BucketAt(buckets, keys[j]);
      var c := keys[j];
      assert c in keys;
      assert -1 <= c.0 - key.0 <= 1 && -1 <= c.1 - key.1 <= 1 && p in BucketAt(buckets, c);
    }
    if exists c: GridKey :: -1 <= c.0 - key.0 <= 1 && -1 <= c.1 - key.1 <= 1 && p in BucketAt(buckets, c) {
      var c: GridKey :| -1 <= c.0 - key.0 <= 1 && -1 <= c.1 - key.1 <= 1 && p in BucketAt(buckets, c);
      assert c in keys;
      var j :| 0 <= j < |keys| && keys[j] == c;
      assert p in BucketAt(buckets, keys[j]);
    }
  }

  /** The buckets `(x, y - 1) .. (x, y - 2 + j)`: the first `j` of one row. */
  function RowPrefix(buckets: map<GridKey, seq<Point>>, x: int, y: int, j: nat): seq<Point>
  {
    if j == 0 then [] else RowPrefix(buckets, x, y, j - 1) + BucketAt(buckets, (x, y - 2 + j))
  }

  /** The first `i` full rows of the block around `key`. */
  function Rows(buckets: map<GridKey, seq<Point>>, key: GridKey, i: nat): seq<Point>
  {
    if i == 0 then [] else Rows(buckets, key, i - 1) + RowPrefix(buckets, key.0 - 2 + i, key.1, 3)
  }

  /** Gathering two key lists one after the other gathers their concatenation. */
  lemma {:induction false} GatheredAppend(buckets: map<GridKey, seq<Point>>, a: seq<GridKey>, b: seq<GridKey>)
    ensures Gathered(buckets, a + b) == Gathered(buckets, a) + Gathered(buckets, b)
    decreases |b|
  {
    if |b| == 0 {
      assert a + b == a;
    } else {
      var n := |b| - 1;
      assert (a + b)[..|a| + n] == a + b[..n];
      GatheredAppend(buckets, a, b[..n]);
    }
  }

  /** The keys of one row of the block. */
  function RowKeys(x: int, y: int): seq<GridKey>
  {
    [(x, y - 1), (x, y), (x, y + 1)]
  }

  lemma GatheredRow(buckets: map<GridKey, seq<Point>>, x: int, y: int)
    ensures Gathered(buckets, RowKeys(x, y)) == RowPrefix(buckets, x, y, 3)
  {
    var r := RowKeys(x, y);
    var r2, r1 := [(x, y - 1), (x, y)], [(x, y - 1)];
    assert r[..2] == r2 && r2[..1] == r1 && r1[..0] == [];
    assert Gathered(buckets, r1) == BucketAt(buckets, (x, y - 1));
    assert Gathered(buckets, r2) == Gathered(buckets, r1) + BucketAt(buckets, (x, y));
    assert Gathered(buckets, r) == Gathered(buckets, r2) + BucketAt(buckets, (x, y + 1));
    assert RowPrefix(buckets, x, y, 1) == BucketAt(buckets, (x, y - 1));
  }

  /** Gathering the block row by row gives the candidates. */
  lemma CandidatesByRows(buckets: map<GridKey, seq<Point>>, key: GridKey)
    ensures Rows(buckets, key, 3) == Candidates(buckets, key)
  {
    var (x, y) := key;
    var r0, r1, r2 := RowKeys(x - 1, y), RowKeys(x, y), RowKeys(x + 1, y);
    assert MooreKeys(key) == (r0 + r1) + r2;
    GatheredAppend(buckets, r0 + r1, r2);
    GatheredAppend(buckets, r0, r1);
    GatheredRow(buckets, x - 1, y);
    GatheredRow(buckets, x, y);
    GatheredRow(buckets, x + 1, y);
    assert Rows(buckets, key, 1) == RowPrefix(buckets, x - 1, y, 3);
  }

  /** The nested loops over `k1` and `k2` that concatenate the buckets around `key`. */
  method GatherCandidates(buckets: map<GridKey, seq<Point>>, key: GridKey) returns (closeNn: seq<Point>)
    ensures closeNn == Candidates(buckets, key)
  {
    closeNn := [];
    for k1 := key.0 - 1 to key.0 + 2
      invariant closeNn == Rows(buckets, key, k1 - key.0 + 1)
    {
      for k2 := key.1 - 1 to key.1 + 2
        invariant closeNn == Rows(buckets, key, k1 - key.0 + 1) + RowPrefix(buckets, k1, key.1, k2 - key.1 + 1)
      {
        if (k1, k2) in buckets {
          closeNn := closeNn + buckets[(k1, k2)];
        }
      }
    }
    CandidatesByRows(buckets, key);
  }

  /** Dividing a gap of at most `w` by `w` gives at most one. */
  lemma DivideGap(a: real, b: real, w: real)
    requires w > 0.0 && a - b <= w
    ensures a / w - b / w <= 1.0
  {
  }

  /** Coordinates at most `w` apart have keys at most one apart. */
  lemma KeysOfNearbyCoordinates(a: real, b: real, w: real)
    requires w > 0.0 && -w <= a - b <= w
    ensures -1 <= (a / w).Floor - (b / w).Floor <= 1
  {
    DivideGap(a, b, w);
    DivideGap(b, a, w);
  }

  /** No false negative within one bucket width: a training point whose
      coordinates each differ from the query's by at most `w` is a candidate. */
  lemma NearbyPointIsCandidate(buckets: map<GridKey, seq<Point>>, points: seq<Point>, w: real, query: Point, p: Point)
    requires w > 0.0 && IsDistribution(buckets, points, w)
    requires p in points
    requires -w <= p.x - query.x <= w && -w <= p.y - query.y <= w
    ensures p in Candidates(buckets, KeyOf(query, w))
  {
    var key, c := KeyOf(query, w), KeyOf(p, w);
    KeysOfNearbyCoordinates(p.x, query.x, w);
    KeysOfNearbyCoordinates(p.y, query.y, w);
    var i :| 0 <= i < |points| && points[i] == p;
    assert c in Keys(points, w);
    BucketMembers(points, w, c, p);
    CandidateMembers(buckets, key, p);
  }

  /** The candidates are training points from the nine buckets around `key`,
      and nothing else. */
  lemma CandidatesAreNearbyTrainingPoints(buckets: map<GridKey, seq<Point>>, points: seq<Point>, w: real, key: GridKey, p: Point)
    requires w > 0.0 && IsDistribution(buckets, points, w)
    requires p in Candidates(buckets, key)
    ensures p in points
    ensures -1 <= KeyOf(p, w).0 - key.0 <= 1 && -1 <= KeyOf(p, w).1 - key.1 <= 1
  {
    CandidateMembers(buckets, key, p);
    var c: GridKey :| -1 <= c.0 - key.0 <= 1 && -1 <= c.1 - key.1 <= 1 && p in BucketAt(buckets, c);
    BucketMembers(points, w, c, p);
  }

  // ---------------------------------------------------------------- scan

  /** One pass of the scan loop: append while fewer than `k` are held; after that
      sort and overwrite the last (worst) entry if the new one is strictly closer. */
  function ScanStep(knn: seq<Neighbour>, nb: Neighbour, k: nat): seq<Neighbour>
    requires k >= 1
  {
    if |knn| < k then knn + [nb]
    else
      var sorted := SortByDistance(knn);
      var last := |sorted| - 1;
      if nb.distance < sorted[last].distance then sorted[last := nb] else sorted
  }

  /** The list `knn` after the first `n` candidates have been scanned. */
  function Scan(candidates: seq<Point>, query: Point, k: nat, n: nat): seq<Neighbour>
    requires k >= 1 && n <= |candidates|
  {
    if n == 0 then []
    else
      ScanStep(Scan(candidates, query, k, n - 1), Neighbour(PointDistance(candidates[n - 1], query), n - 1), k)
  }

  /** Every entry refers to one of the first `n` candidates and carries that
      candidate's distance to the query. */
  ghost predicate Measured(knn: seq<Neighbour>, candidates: seq<Point>, query: Point, n: nat)
    requires n <= |candidates|
  {
    forall x :: x in knn ==> x.index < n && x.distance == PointDistance(candidates[x.index], query)
  }

  ghost predicate Kept(knn: seq<Neighbour>, j: nat)
  {
    exists x :: x in knn && x.index == j
  }

  /** No scanned candidate that was left out is closer than any kept entry. */
  ghost predicate NoCloserDropped(knn: seq<Neighbour>, candidates: seq<Point>, query: Point, n: nat)
    requires n <= |candidates|
  {
    forall j :: 0 <= j < n && !Kept(knn, j) ==>
      forall x :: x in knn ==> x.distance <= PointDistance(candidates[j], query)
  }

  /** Overwriting the last entry trades exactly that entry for the new one. */
  lemma ReplaceLastEntries(s: seq<Neighbour>, nb: Neighbour)
    requires |s| > 0
    ensures multiset(s[|s| - 1 := nb]) == multiset(s) - multiset{s[|s| - 1]} + multiset{nb}
  {
    var last := |s| - 1;
    assert s == s[..last] + [s[last]];
    assert s[last := nb] == s[..last] + [nb];
  }

  /** Once `k` entries are held, a step keeps `k` entries and never raises the
      largest kept distance. A candidate strictly closer than the current worst
      takes the place of one worst entry, and the other entries stay; any other
      candidate leaves the entries as they were. */
  lemma ScanStepReplacesWorst(knn: seq<Neighbour>, nb: Neighbour, k: nat)
    requires k >= 1 && |knn| == k
    requires forall x :: x in knn ==> x.index != nb.index
    ensures |ScanStep(knn, nb, k)| == k
    ensures MaxDistance(ScanStep(knn, nb, k)) <= MaxDistance(knn)
    ensures nb in ScanStep(knn, nb, k) <==> nb.distance < MaxDistance(knn)
    ensures forall x :: x in ScanStep(knn, nb, k) && x != nb ==> x in knn
    ensures nb.distance >= MaxDistance(knn) ==> multiset(ScanStep(knn, nb, k)) == multiset(knn)
    ensures nb.distance < MaxDistance(knn) ==>
      exists m :: 0 <= m < k && knn[m].distance == MaxDistance(knn) &&
        multiset(ScanStep(knn, nb, k)) == multiset(knn) - multiset{knn[m]} + multiset{nb}
  {
    var sorted := SortByDistance(knn);
    var last := |sorted| - 1;
    MaxDistanceOfSameEntries(sorted, knn);
    SortIsPermutation(knn);
    assert sorted[last].distance == MaxDistance(sorted);
    var r := ScanStep(knn, nb, k);
    if nb.distance < sorted[last].distance {
      assert r == sorted[last := nb];
      ReplaceLastEntries(sorted, nb);
      assert sorted[last] in knn;
      var w :| 0 <= w < k && knn[w] == sorted[last];
      assert multiset(r) == multiset(knn) - multiset{knn[w]} + multiset{nb};
      forall x | x in r && x != nb
        ensures x in knn
      {
        var m :| 0 <= m < |r| && r[m] == x;
        assert sorted[m] in sorted;
      }
      var mr :| 0 <= mr < |r| && r[mr].distance == MaxDistance(r);
      if mr < last {
        assert r[mr] == sorted[mr];
      }
    } else {
      assert r == sorted;
    }
  }

  /** What the scan keeps after `n` candidates: `min(n, k)` distinct candidates,
      each with its true distance, and no dropped candidate closer than a kept
      one, so that the kept entries are `k` nearest of the scanned candidates.
      Until `k` are held, entry `m` is candidate `m`. */
  lemma {:induction false} ScanKeepsNearest(candidates: seq<Point>, query: Point, k: nat, n: nat)
    requires k >= 1 && n <= |candidates|
    ensures |Scan(candidates, query, k, n)| == if n < k then n else k
    ensures Measured(Scan(candidates, query, k, n), candidates, query, n)
    ensures DistinctIndices(Scan(candidates, query, k, n))
    ensures NoCloserDropped(Scan(candidates, query, k, n), candidates, query, n)
    ensures n <= k ==> forall m :: 0 <= m < n ==> Scan(candidates, query, k, n)[m].index == m
  {
    if n > 0 {
      ScanKeepsNearest(candidates, query, k, n - 1);
      var prev := Scan(candidates, query, k, n - 1);
      var nb := Neighbour(PointDistance(candidates[n - 1], query), n - 1);
      var r := Scan(candidates, query, k, n);
      assert r == ScanStep(prev, nb, k);
      if |prev| < k {
        assert r == prev + [nb];
        ScanAppendStep(candidates, query, n, prev, nb);
      } else {
        ScanReplacementStep(candidates, query, k, n, prev, nb);
      }
    }
  }

  /** While fewer than `k` are held every scanned candidate is kept, at its own
      position. */
  lemma ScanAppendStep(candidates: seq<Point>, query: Point, n: nat, prev: seq<Neighbour>, nb: Neighbour)
    requires 0 < n <= |candidates| && |prev| == n - 1
    requires nb == Neighbour(PointDistance(candidates[n - 1], query), n - 1)
    requires Measured(prev, candidates, query, n - 1)
    requires forall m :: 0 <= m < n - 1 ==> prev[m].index == m
    ensures Measured(prev + [nb], candidates, query, n)
    ensures DistinctIndices(prev + [nb])
    ensures forall m :: 0 <= m < n ==> (prev + [nb])[m].index == m
    ensures forall j :: 0 <= j < n ==> Kept(prev + [nb], j)
  {
    var r := prev + [nb];
    forall j | 0 <= j < n
      ensures Kept(r, j)
    {
      assert r[j] in r;
    }
  }

  lemma ScanReplacementStep(candidates: seq<Point>, query: Point, k: nat, n: nat, prev: seq<Neighbour>, nb: Neighbour)
    requires k >= 1 && 0 < n <= |candidates| && |prev| == k
    requires nb == Neighbour(PointDistance(candidates[n - 1], query), n - 1)
    requires Measured(prev, candidates, query, n - 1)
    requires DistinctIndices(prev)
    requires NoCloserDropped(prev, candidates, query, n - 1)
    ensures |ScanStep(prev, nb, k)| == k
    ensures Measured(ScanStep(prev, nb, k), candidates, query, n)
    ensures DistinctIndices(ScanStep(prev, nb, k))
    ensures NoCloserDropped(ScanStep(prev, nb, k), candidates, query, n)
  {
    var sorted := SortByDistance(prev);
    SortKeepsDistinct(prev);
    SortKeepsScanFacts(prev, candidates, query, n - 1);
    var last := |sorted| - 1;
    if nb.distance < sorted[last].distance {
      assert ScanStep(prev, nb, k) == sorted[last := nb];
      ReplaceWorstStep(sorted, candidates, query, n, nb);
    } else {
      assert ScanStep(prev, nb, k) == sorted;
      KeepSortedStep(sorted, candidates, query, n, nb);
    }
  }

  /** Sorting changes no entry, so what the scan knows about its list survives it. */
  lemma SortKeepsScanFacts(knn: seq<Neighbour>, candidates: seq<Point>, query: Point, n: nat)
    requires n <= |candidates|
    requires Measured(knn, candidates, query, n)
    requires NoCloserDropped(knn, candidates, query, n)
    ensures Measured(SortByDistance(knn), candidates, query, n)
    ensures NoCloserDropped(SortByDistance(knn), candidates, query, n)
  {
  }

  lemma ReplaceWorstStep(sorted: seq<Neighbour>, candidates: seq<Point>, query: Point, n: nat, nb: Neighbour)
    requires 0 < n <= |candidates| && |sorted| > 0 && Sorted(sorted)
    requires nb == Neighbour(PointDistance(candidates[n - 1], query), n - 1)
    requires Measured(sorted, candidates, query, n - 1)
    requires DistinctIndices(sorted)
    requires NoCloserDropped(sorted, candidates, query, n - 1)
    requires nb.distance < sorted[|sorted| - 1].distance
    ensures Measured(sorted[|sorted| - 1 := nb], candidates, query, n)
    ensures DistinctIndices(sorted[|sorted| - 1 := nb])
    ensures NoCloserDropped(sorted[|sorted| - 1 := nb], candidates, query, n)
  {
    var last := |sorted| - 1;
    var worst := sorted[last];
    var r := sorted[last := nb];
    assert worst in sorted;
    forall x | x in r
      ensures x == nb || (x in sorted && x.distance <= worst.distance)
    {
      var m :| 0 <= m < |r| && r[m] == x;
      if m < last {
        assert x == sorted[m];
      }
    }
    assert r[last] == nb;
    forall j | Kept(sorted, j) && j != worst.index
      ensures Kept(r, j)
    {
      var x :| x in sorted && x.index == j;
      var m :| 0 <= m < |sorted| && sorted[m] == x;
      assert r[m] == x;
    }
    forall j | 0 <= j < n && !Kept(r, j)
      ensures worst.distance <= PointDistance(candidates[j], query)
    {
      assert nb in r;
    }
  }

  lemma KeepSortedStep(sorted: seq<Neighbour>, candidates: seq<Point>, query: Point, n: nat, nb: Neighbour)
    requires 0 < n <= |candidates| && |sorted| > 0 && Sorted(sorted)
    requires nb == Neighbour(PointDistance(candidates[n - 1], query), n - 1)
    requires Measured(sorted, candidates, query, n - 1)
    requires NoCloserDropped(sorted, candidates, query, n - 1)
    requires sorted[|sorted| - 1].distance <= nb.distance
    ensures Measured(sorted, candidates, query, n)
    ensures NoCloserDropped(sorted, candidates, query, n)
  {
  }

  /** `knn` holds `k` distinct candidates, each with its true distance to the
      query, and no candidate left out is closer than one kept. */
  ghost predicate NearestOf(knn: seq<Neighbour>, candidates: seq<Point>, query: Point, k: nat)
  {
    && |knn| == k
    && Measured(knn, candidates, query, |candidates|)
    && DistinctIndices(knn)
    && NoCloserDropped(knn, candidates, query, |candidates|)
  }

  /** `getKnnNew(distributedDp, dataPoint, k)` as written: the key of the
      neighbourhood comes from the module-level `dp` (here `globalDp`), the
      distances from `dataPoint`. It gives up with `None` when fewer than `k`
      candidates are found, and otherwise returns what the worst-of-k scan keeps,
      not sorted again after the last replacement. With `k <= 0` the first
      candidate makes it read the last entry of an empty list. */
  method GetKnnNew(buckets: map<GridKey, seq<Point>>, globalDp: Point, dataPoint: Point, k: int, w: real)
    returns (r: Result<Option<seq<Neighbour>>>)
    requires w > 0.0
    ensures k >= 1 ==> r.Ok?
    ensures k < 1 ==> (r.Err? <==> |Candidates(buckets, KeyOf(globalDp, w))| > 0)
    ensures r.Err? ==> r.error == IndexOutOfRange
    ensures k < 1 && r.Ok? ==> r.value == Some([])
    ensures k >= 1 ==> (r.value.None? <==> |Candidates(buckets, KeyOf(globalDp, w))| < k)
    ensures k >= 1 && r.value.Some? ==>
      var candidates := Candidates(buckets, KeyOf(globalDp, w));
      && NearestOf(r.value.value, candidates, dataPoint, k)
      && r.value.value == Scan(candidates, dataPoint, k, |candidates|)
  {
    var key := KeyOf(globalDp, w);
    var closeNn := GatherCandidates(buckets, key);
    if |closeNn| < k {
      return Ok(None);
    }
    var knn: seq<Neighbour> := [];
    for index := 0 to |closeNn|
      invariant k >= 1 ==> knn == Scan(closeNn, dataPoint, k, index)
      invariant k < 1 ==> index == 0 && knn == []
    {
      var trainDp := closeNn[index];
      var distance := EuclideanDistance(Coords(trainDp), Coords(dataPoint));
      var neighbour := Neighbour(distance, index);
      if |knn| < k {
        knn := knn + [neighbour];
      } else {
        knn := SortByDistance(knn);
        if |knn| == 0 {
          return Err(IndexOutOfRange);
        }
        if distance < knn[|knn| - 1].distance {
          knn := knn[|knn| - 1 := neighbour];
        }
      }
    }
    if k >= 1 {
      ScanKeepsNearest(closeNn, dataPoint, k, |closeNn|);
    }
    return Ok(Some(knn));
  }

  /** The query keyed on itself, as the only caller uses it (the module-level `dp`
      is the query there): besides the scan's guarantees, every training point
      within one bucket width of the query in both coordinates is a candidate. */
  method GetKnnAroundQuery(buckets: map<GridKey, seq<Point>>, ghost points: seq<Point>, dataPoint: Point, k: int, w: real)
    returns (r: Result<Option<seq<Neighbour>>>)
    requires w > 0.0 && IsDistribution(buckets, points, w)
    ensures k >= 1 ==> r.Ok?
    ensures r.Err? ==> r.error == IndexOutOfRange
    ensures k >= 1 ==> (r.value.None? <==> |Candidates(buckets, KeyOf(dataPoint, w))| < k)
    ensures k >= 1 && r.value.Some? ==>
      NearestOf(r.value.value, Candidates(buckets, KeyOf(dataPoint, w)), dataPoint, k)
    ensures forall p :: p in points && -w <= p.x - dataPoint.x <= w && -w <= p.y - dataPoint.y <= w ==>
      p in Candidates(buckets, KeyOf(dataPoint, w))
  {
    r := GetKnnNew(buckets, dataPoint, dataPoint, k, w);
    forall p | p in points && -w <= p.x - dataPoint.x <= w && -w <= p.y - dataPoint.y <= w
      ensures p in Candidates(buckets, KeyOf(dataPoint, w))
    {
      NearbyPointIsCandidate(buckets, points, w, dataPoint, p);
    }
  }

  /** Keying on the module-level `dp` instead of the query loses the query's
      neighbourhood: with one training point at the origin, bucket width 1 and
      `dp = (10, 10)`, a query at the origin gets no candidate at all, although
      the training point is at distance zero from it. */
  lemma GlobalKeyMissesTheQuery()
    ensures IsDistribution(map[(0, 0) := [Point(0.0, 0.0)]], [Point(0.0, 0.0)], 1.0)
    ensures Candidates(map[(0, 0) := [Point(0.0, 0.0)]], KeyOf(Point(10.0, 10.0), 1.0)) == []
    ensures Point(0.0, 0.0) in Candidates(map[(0, 0) := [Point(0.0, 0.0)]], KeyOf(Point(0.0, 0.0), 1.0))
  {
    var points := [Point(0.0, 0.0)];
    var buckets := map[(0, 0) := points];
    assert KeyOf(points[0], 1.0) == (0, 0);
    assert Keys(points, 1.0) == {(0, 0)};
    assert Bucket(points, 1.0, (0, 0)) == points by {
      assert points[..0] == [];
    }
    var far := KeyOf(Point(10.0, 10.0), 1.0);
    assert far == (10, 10);
    var candidates := Candidates(buckets, far);
    if |candidates| > 0 {
      CandidateMembers(buckets, far, candidates[0]);
    }
    NearbyPointIsCandidate(buckets, points, 1.0, Point(0.0, 0.0), Point(0.0, 0.0));
  }

  /** The returned list need not be ascending: with `k = 2` and candidates at
      squared distances 1, 4, 0 the last step overwrites the 4 with the 0. */
  lemma ResultNotAlwaysAscending()
    ensures !Sorted(Scan([Point(1.0, 0.0), Point(2.0, 0.0), Point(0.0, 0.0)], Point(0.0, 0.0), 2, 3))
  {
    var candidates := [Point(1.0, 0.0), Point(2.0, 0.0), Point(0.0, 0.0)];
    var q := Point(0.0, 0.0);
    var a, b, c := Neighbour(1.0, 0), Neighbour(4.0, 1), Neighbour(0.0, 2);
    PointDistanceIsSumOfSquares(candidates[0], q);
    PointDistanceIsSumOfSquares(candidates[1], q);
    PointDistanceIsSumOfSquares(candidates[2], q);
    assert Square(1.0) == 1.0 && Square(2.0) == 4.0 && Square(0.0) == 0.0;
    assert PointDistance(candidates[0], q) == 1.0;
    assert PointDistance(candidates[1], q) == 4.0;
    assert PointDistance(candidates[2], q) == 0.0;
    assert Scan(candidates, q, 2, 1) == [a];
    assert Scan(candidates, q, 2, 2) == [a, b];
    assert [a, b][1..] == [b] && [b][1..] == [];
    assert SortByDistance([b]) == [b];
    assert SortByDistance([a, b]) == Insert(a, [b]) == [a, b];
    assert Scan(candidates, q, 2, 3) == [a, c];
    assert [a, c][0].distance > [a, c][1].distance;
  }
}
