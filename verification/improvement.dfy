/** Phase B of the route builder: a bounded first-improvement 2-opt pass
    over an open tour. */
module Improvement {
  import opened Geo
  import opened Tours

  /** Why the improvement loop stopped. */
  datatype Stop =
    | ShortRoute    // fewer than four stops: no pair of non-adjacent inner edges exists
    | Converged     // a full pass accepted no move
    | IterationCap  // `maxIter` passes ran and the last one accepted a move, or `maxIter` is 0 and no pass ran

  /** Reverse the stops at positions `i+1..k`, keeping the rest in place. */
  function TwoOptMove(route: seq<nat>, i: nat, k: nat): (r: seq<nat>)
    requires i < k < |route|
    ensures |r| == |route|
    ensures forall p | 0 <= p <= i :: r[p] == route[p]
    ensures forall p | i < p <= k :: r[p] == route[i + 1 + k - p]
    ensures forall p | k < p < |route| :: r[p] == route[p]
    ensures multiset(r) == multiset(route)
  {
    var head, middle, tail := route[..i + 1], route[i + 1..k + 1], route[k + 1..];
    assert route == head + middle + tail;
    ReverseKeepsMultiset(middle);
    head + Reverse(middle) + tail
  }

  /** Reversing a segment keeps a route within the point set and keeps its
      stops distinct, so a permutation stays a permutation. */
  lemma MovePreservesPermutation(route: seq<nat>, i: nat, k: nat, n: nat)
    requires i < k < |route|
    ensures InRange(route, n) ==> InRange(TwoOptMove(route, i, k), n)
    ensures Distinct(route) ==> Distinct(TwoOptMove(route, i, k))
    ensures IsPermutation(route, n) ==> IsPermutation(TwoOptMove(route, i, k), n)
  {
    var r := TwoOptMove(route, i, k);
    if Distinct(route) {
      forall p, q | 0 <= p < q < |r|
        ensures r[p] != r[q]
      {
        var sp := if i < p <= k then i + 1 + k - p else p;
        var sq := if i < q <= k then i + 1 + k - q else q;
        assert r[p] == route[sp] && r[q] == route[sq];
        assert sp != sq;
      }
    }
  }

  /** The legs removed by the move `(i, k)`. */
  function RemovedLegs(dist: Metric, points: seq<Point>, route: seq<nat>, i: nat, k: nat): real
    requires InRange(route, |points|)
    requires i < k && k + 1 < |route|
  {
    Leg(dist, points, route[i], route[i + 1]) + Leg(dist, points, route[k], route[k + 1])
  }

  /** The legs the move `(i, k)` puts in their place. */
  function AddedLegs(dist: Metric, points: seq<Point>, route: seq<nat>, i: nat, k: nat): real
    requires InRange(route, |points|)
    requires i < k && k + 1 < |route|
  {
    Leg(dist, points, route[i], route[k]) + Leg(dist, points, route[i + 1], route[k + 1])
  }

  /** The move `(i, k)` is accepted: it saves more than `eps`. */
  ghost predicate Improves(dist: Metric, points: seq<Point>, route: seq<nat>, i: nat, k: nat, eps: real)
    requires InRange(route, |points|)
    requires i < k && k + 1 < |route|
  {
    AddedLegs(dist, points, route, i, k) + eps < RemovedLegs(dist, points, route, i, k)
  }

  /** No move of the scanned range, two non-adjacent inner edges `(i, i+1)`
      and `(k, k+1)`, is accepted: the route is 2-opt locally optimal. */
  ghost predicate NoImprovingMove(dist: Metric, points: seq<Point>, route: seq<nat>, eps: real) {
    && InRange(route, |points|)
    && forall i: nat, k: nat | i + 2 <= k && k + 1 < |route| :: !Improves(dist, points, route, i, k, eps)
  }

  /** With a symmetric metric, a move changes the open length by exactly the
      added legs minus the removed ones: the reversed segment costs the same
      in either direction. */
  lemma MoveLength(dist: Metric, points: seq<Point>, route: seq<nat>, i: nat, k: nat)
    requires Symmetric(dist)
    requires InRange(route, |points|)
    requires i < k && k + 1 < |route|
    ensures InRange(TwoOptMove(route, i, k), |points|)
    ensures OpenLength(dist, points, TwoOptMove(route, i, k))
         == OpenLength(dist, points, route)
            - RemovedLegs(dist, points, route, i, k) + AddedLegs(dist, points, route, i, k)
  {
    var n := |points|;
    var head, middle, tail := route[..i + 1], route[i + 1..k + 1], route[k + 1..];
    var rev := Reverse(middle);
    SliceInRange(route, n, 0, i + 1);
    SliceInRange(route, n, i + 1, k + 1);
    SliceInRange(route, n, k + 1, |route|);
    LengthReverse(dist, points, middle);
    assert route == head + middle + tail;
    assert TwoOptMove(route, i, k) == head + rev + tail;
    assert head[|head| - 1] == route[i] && tail[0] == route[k + 1];
    assert middle[0] == route[i + 1] && middle[|middle| - 1] == route[k];
    assert rev[0] == route[k] && rev[|rev| - 1] == route[i + 1];
    LengthAppend3(dist, points, head, middle, tail);
    LengthAppend3(dist, points, head, rev, tail);
  }

  /** One pass of the improvement loop: `i` runs upwards and, for each, `k`
      runs upwards; an accepted move rewrites the route at once, so later
      comparisons in the same pass read the rewritten route. `improved` says
      whether any move was accepted. */
  method Pass(dist: Metric, points: seq<Point>, route: seq<nat>, eps: real)
    returns (r: seq<nat>, improved: bool)
    requires 4 <= |route| && InRange(route, |points|)
    ensures |r| == |route| && InRange(r, |points|) && multiset(r) == multiset(route)
    ensures r[0] == route[0] && r[|r| - 1] == route[|route| - 1]
    ensures Distinct(route) ==> Distinct(r)
    ensures !improved ==> r == route && NoImprovingMove(dist, points, r, eps)
    ensures NoImprovingMove(dist, points, route, eps) ==> !improved
    ensures Symmetric(dist) && 0.0 <= eps ==>
              && OpenLength(dist, points, r) <= OpenLength(dist, points, route)
              && (improved ==> OpenLength(dist, points, r) + eps < OpenLength(dist, points, route))
  {
    var n := |route|;
    ghost var shrinks := Symmetric(dist) && 0.0 <= eps;
    r, improved := route, false;
    var i := 0;
    while i < n - 3
      invariant 0 <= i <= n - 3
      invariant |r| == n && InRange(r, |points|) && multiset(r) == multiset(route)
      invariant r[0] == route[0] && r[n - 1] == route[n - 1]
      invariant Distinct(route) ==> Distinct(r)
      invariant shrinks ==> OpenLength(dist, points, r) <= OpenLength(dist, points, route)
      invariant shrinks && improved ==> OpenLength(dist, points, r) + eps < OpenLength(dist, points, route)
      invariant !improved ==> r == route
      invariant !improved ==> forall i': nat, k': nat | i' < i && i' + 2 <= k' && k' + 1 < n ::
                  !Improves(dist, points, r, i', k', eps)
      invariant NoImprovingMove(dist, points, route, eps) ==> !improved
    {
      var k := i + 2;
      while k < n - 1
        invariant i + 2 <= k <= n - 1
        invariant |r| == n && InRange(r, |points|) && multiset(r) == multiset(route)
        invariant r[0] == route[0] && r[n - 1] == route[n - 1]
        invariant Distinct(route) ==> Distinct(r)
        invariant shrinks ==> OpenLength(dist, points, r) <= OpenLength(dist, points, route)
        invariant shrinks && improved ==> OpenLength(dist, points, r) + eps < OpenLength(dist, points, route)
        invariant !improved ==> r == route
        invariant !improved ==> forall i': nat, k': nat | i' < i && i' + 2 <= k' && k' + 1 < n ::
                    !Improves(dist, points, r, i', k', eps)
        invariant !improved ==> forall k': nat | i + 2 <= k' < k :: !Improves(dist, points, r, i, k', eps)
        invariant NoImprovingMove(dist, points, route, eps) ==> !improved
      {
        var d1 := dist(points[r[i]], points[r[i + 1]]) + dist(points[r[k]], points[r[k + 1]]);
        var d2 := dist(points[r[i]], points[r[k]]) + dist(points[r[i + 1]], points[r[k + 1]]);
        if d2 + eps < d1 {
          assert Improves(dist, points, r, i, k, eps);
          MovePreservesPermutation(r, i, k, |points|);
          if shrinks {
            MoveLength(dist, points, r, i, k);
          }
          r := TwoOptMove(r, i, k);
          improved := true;
        }
        k := k + 1;
      }
      i := i + 1;
    }
  }

  /** Passes repeat while the previous one accepted a move, at most
      `maxIter` times. `passes` and `stop` record how the loop ended. The
      result is a 2-opt local optimum, or every one of the `maxIter` passes
      shortened the route by more than `eps`. */
  method TwoOpt(dist: Metric, points: seq<Point>, route: seq<nat>, maxIter: nat, eps: real)
    returns (r: seq<nat>, ghost passes: nat, ghost stop: Stop)
    requires |route| < 4 || InRange(route, |points|)
    ensures |route| < 4 <==> stop == ShortRoute
    ensures |route| < 4 ==> r == route && passes == 0
    ensures |r| == |route| && multiset(r) == multiset(route)
    ensures |route| > 0 ==> r[0] == route[0] && r[|r| - 1] == route[|route| - 1]
    ensures InRange(route, |points|) ==> InRange(r, |points|)
    ensures IsPermutation(route, |points|) ==> IsPermutation(r, |points|)
    ensures InRange(route, |points|) && Symmetric(dist) && 0.0 <= eps ==>
              && OpenLength(dist, points, r) <= OpenLength(dist, points, route)
              && (r != route ==> OpenLength(dist, points, r) + eps < OpenLength(dist, points, route))
    ensures passes <= maxIter
    ensures passes == 0 ==> r == route
    ensures stop == Converged ==> 1 <= passes && NoImprovingMove(dist, points, r, eps)
    ensures stop == IterationCap ==> passes == maxIter
    ensures 4 <= |route| && NoImprovingMove(dist, points, route, eps) ==>
              r == route && (1 <= maxIter ==> stop == Converged)
    ensures 4 <= |route| && 1 <= maxIter && Symmetric(dist) && 0.0 <= eps ==>
              || NoImprovingMove(dist, points, r, eps)
              || OpenLength(dist, points, r) + (maxIter as real) * eps < OpenLength(dist, points, route)
  {
    var n := |route|;
    r, passes, stop := route, 0, ShortRoute;
    if n < 4 {
      return;
    }
    ghost var shrinks := Symmetric(dist) && 0.0 <= eps;
    ghost var optimal := NoImprovingMove(dist, points, route, eps);
    ghost var changed := false;
    var improved := true;
    var iter := 0;
    while improved && iter < maxIter
      invariant 0 <= iter <= maxIter && passes == iter
      invariant |r| == n && InRange(r, |points|) && multiset(r) == multiset(route)
      invariant r[0] == route[0] && r[n - 1] == route[n - 1]
      invariant Distinct(route) ==> Distinct(r)
      invariant !changed ==> r == route
      invariant iter == 0 ==> !changed
      invariant shrinks ==> OpenLength(dist, points, r) <= OpenLength(dist, points, route)
      invariant shrinks && changed ==> OpenLength(dist, points, r) + eps < OpenLength(dist, points, route)
      invariant shrinks && improved && 1 <= iter ==>
                  OpenLength(dist, points, r) + (iter as real) * eps < OpenLength(dist, points, route)
      invariant !improved ==> 1 <= iter && NoImprovingMove(dist, points, r, eps)
      invariant optimal ==> !changed && (1 <= iter ==> !improved)
      decreases maxIter - iter
    {
      iter := iter + 1;
      passes := iter;
      r, improved := Pass(dist, points, r, eps);
      changed := changed || improved;
    }
    stop := if improved then IterationCap else Converged;
  }
}
