/** The neighbour record `{"distance": d, "index": i}` and Python's
    `sorted(knn, key=lambda x: x["distance"])`, modelled as a stable insertion sort:
    a stable sort's output is unique, so any stable sort gives the same list. */
module Neighbours {

  datatype Neighbour = Neighbour(distance: real, index: nat)

  /** Ascending by distance. */
  ghost predicate Sorted(s: seq<Neighbour>)
  {
    forall m1, m2 :: 0 <= m1 < m2 < |s| ==> s[m1].distance <= s[m2].distance
  }

  /** No two entries refer to the same candidate. */
  ghost predicate DistinctIndices(s: seq<Neighbour>)
  {
    forall m1, m2 :: 0 <= m1 < m2 < |s| ==> s[m1].index != s[m2].index
  }

  /** Places `e` before the first entry at least as far as it, so that `e`, which
      came earlier in the input, stays ahead of entries at the same distance. */
  function Insert(e: Neighbour, s: seq<Neighbour>): (r: seq<Neighbour>)
    requires Sorted(s)
    ensures |r| == |s| + 1
    ensures forall x :: x in r <==> x == e || x in s
    ensures Sorted(r)
  {
    if s == [] || e.distance <= s[0].distance then
      [e] + s
    else
      var t := Insert(e, s[1..]);
      assert forall m :: 1 <= m < |s| ==> s[0].distance <= s[m].distance;
      assert forall x :: x in s[1..] ==> s[0].distance <= x.distance;
      assert forall m :: 0 <= m < |t| ==> t[m] in t && s[0].distance <= t[m].distance;
      [s[0]] + t
  }

  /** Python's stable `sorted` by distance. */
  function SortByDistance(s: seq<Neighbour>): (r: seq<Neighbour>)
    ensures |r| == |s|
    ensures forall x :: x in r <==> x in s
    ensures Sorted(r)
  {
    if s == [] then [] else Insert(s[0], SortByDistance(s[1..]))
  }

  lemma {:induction false} InsertIsPermutation(e: Neighbour, s: seq<Neighbour>)
    requires Sorted(s)
    ensures multiset(Insert(e, s)) == multiset(s) + multiset{e}
  {
    if s != [] && e.distance > s[0].distance {
      InsertIsPermutation(e, s[1..]);
      assert s == [s[0]] + s[1..];
    }
  }

  /** Sorting only reorders: every entry is kept as often as it occurs. */
  lemma {:induction false} SortIsPermutation(s: seq<Neighbour>)
    ensures multiset(SortByDistance(s)) == multiset(s)
  {
    if s != [] {
      SortIsPermutation(s[1..]);
      InsertIsPermutation(s[0], SortByDistance(s[1..]));
      assert s == [s[0]] + s[1..];
    }
  }

  lemma {:induction false} InsertKeepsDistinct(e: Neighbour, s: seq<Neighbour>)
    requires Sorted(s) && DistinctIndices(s)
    requires forall x :: x in s ==> x.index != e.index
    ensures DistinctIndices(Insert(e, s))
  {
    if s != [] && e.distance > s[0].distance {
      InsertKeepsDistinct(e, s[1..]);
      var t := Insert(e, s[1..]);
      forall m | 0 <= m < |t|
        ensures t[m].index != s[0].index
      {
        assert t[m] in t;
      }
    }
  }

  /** Sorting a list of distinct candidates keeps the candidates distinct. */
  lemma {:induction false} SortKeepsDistinct(s: seq<Neighbour>)
    requires DistinctIndices(s)
    ensures DistinctIndices(SortByDistance(s))
  {
    if s != [] {
      SortKeepsDistinct(s[1..]);
      forall x | x in SortByDistance(s[1..])
        ensures x.index != s[0].index
      {
        var m :| 0 <= m < |s[1..]| && s[1..][m] == x;
      }
      InsertKeepsDistinct(s[0], SortByDistance(s[1..]));
    }
  }

  /** The largest distance held. */
  function MaxDistance(s: seq<Neighbour>): (d: real)
    requires |s| > 0
    ensures exists m :: 0 <= m < |s| && s[m].distance == d
    ensures forall m :: 0 <= m < |s| ==> s[m].distance <= d
  {
    if |s| == 1 then s[0].distance
    else
      var d := MaxDistance(s[..|s| - 1]);
      if s[|s| - 1].distance <= d then d else s[|s| - 1].distance
  }

  /** Two lists holding the same entries have the same largest distance. */
  lemma MaxDistanceOfSameEntries(s: seq<Neighbour>, t: seq<Neighbour>)
    requires |s| > 0 && |t| > 0
    requires forall x :: x in s <==> x in t
    ensures MaxDistance(s) == MaxDistance(t)
  {
    var ms :| 0 <= ms < |s| && s[ms].distance == MaxDistance(s);
    var mt :| 0 <= mt < |t| && t[mt].distance == MaxDistance(t);
    assert s[ms] in t;
    assert t[mt] in s;
  }
}
