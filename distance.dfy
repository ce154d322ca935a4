/** The squared Euclidean distance that both nearest-neighbour drafts compute.
    The square root the source applies last is left out: it is monotone, so
    every comparison between distances keeps its outcome. */
module Distance {

  function Square(x: real): (s: real)
    ensures s >= 0.0
  {
    x * x
  }

  /** Sum of `(a[i] - b[i])^2` over all coordinates, accumulated from the first
      coordinate to the last, as the source's loops do. */
  function SquaredDistance(a: seq<real>, b: seq<real>): (d: real)
    requires |a| == |b|
    ensures d >= 0.0
    decreases |a|
  {
    if |a| == 0 then 0.0
    else
      var n := |a| - 1;
      SquaredDistance(a[..n], b[..n]) + Square(a[n] - b[n])
  }

  /** The distance does not depend on the order of its arguments. */
  lemma {:induction false} SquaredDistanceSymmetric(a: seq<real>, b: seq<real>)
    requires |a| == |b|
    ensures SquaredDistance(a, b) == SquaredDistance(b, a)
    decreases |a|
  {
    if |a| > 0 {
      var n := |a| - 1;
      SquaredDistanceSymmetric(a[..n], b[..n]);
      assert Square(a[n] - b[n]) == Square(b[n] - a[n]);
    }
  }

  /** A point is at distance zero from itself. */
  lemma {:induction false} SquaredDistanceToSelf(a: seq<real>)
    ensures SquaredDistance(a, a) == 0.0
    decreases |a|
  {
    if |a| > 0 {
      SquaredDistanceToSelf(a[..|a| - 1]);
    }
  }
}
