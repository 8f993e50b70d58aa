/** Routes over a point set: visiting orders given as indices into the list
    of selected points, and the open-tour length the 2-opt pass minimises. */
module Tours {
  import opened Geo

  /** Every stop of `route` indexes one of `n` points. */
  predicate InRange(route: seq<nat>, n: nat) {
    forall p | 0 <= p < |route| :: route[p] < n
  }

  /** No point is visited twice. */
  predicate Distinct(route: seq<nat>) {
    forall p, q | 0 <= p < q < |route| :: route[p] != route[q]
  }

  /** `route` visits each of the points `0..n-1` exactly once. */
  predicate IsPermutation(route: seq<nat>, n: nat) {
    |route| == n && InRange(route, n) && Distinct(route)
  }

  /** The indices `0..n-1` as a set. */
  function Indices(n: nat): (r: set<nat>)
    ensures forall u: nat :: u in r <==> u < n
  {
    if n == 0 then {} else Indices(n - 1) + {n - 1}
  }

  /** The points a route visits, as a set. */
  function Elements(route: seq<nat>): set<nat> {
    set x | x in route
  }

  /** Sum of the legs between consecutive stops. The tour is open: there is
      no leg from the last stop back to the first. */
  function OpenLength(dist: Metric, points: seq<Point>, route: seq<nat>): real
    requires InRange(route, |points|)
  {
    if |route| <= 1 then 0.0
    else Leg(dist, points, route[0], route[1]) + OpenLength(dist, points, route[1..])
  }

  /** `s` read backwards. */
  function Reverse(s: seq<nat>): (r: seq<nat>)
    ensures |r| == |s|
    ensures forall p | 0 <= p < |s| :: r[p] == s[|s| - 1 - p]
  {
    if s == [] then [] else Reverse(s[1..]) + [s[0]]
  }

  lemma {:induction false} ReverseKeepsMultiset(s: seq<nat>)
    ensures multiset(Reverse(s)) == multiset(s)
  {
    if s != [] {
      ReverseKeepsMultiset(s[1..]);
      assert s == [s[0]] + s[1..];
    }
  }

  lemma {:induction false} IndicesSize(n: nat)
    ensures |Indices(n)| == n
  {
    if n > 0 {
      IndicesSize(n - 1);
    }
  }

  lemma SubsetSize(a: set<nat>, b: set<nat>)
    requires a <= b
    ensures |a| <= |b|
  {
    assert b == a + (b - a);
    assert a !! (b - a);
  }

  lemma {:induction false} ElementsSize(route: seq<nat>)
    ensures |Elements(route)| <= |route|
    ensures Distinct(route) ==> |Elements(route)| == |route|
  {
    if route != [] {
      var rest := route[1..];
      ElementsSize(rest);
      assert Elements(route) == {route[0]} + Elements(rest) by {
        assert route == [route[0]] + rest;
      }
      if Distinct(route) {
        assert Distinct(rest) by {
          forall p, q | 0 <= p < q < |rest|
            ensures rest[p] != rest[q]
          {
            assert route[p + 1] != route[q + 1];
          }
        }
        assert route[0] !in Elements(rest) by {
          forall q | 0 <= q < |rest|
            ensures rest[q] != route[0]
          {
            assert route[0] != route[q + 1];
          }
        }
      }
    }
  }

  /** While fewer than `n` stops have been placed, some index below `n` is
      still unplaced: a route shorter than the point set cannot cover it. */
  lemma UnplacedExists(route: seq<nat>, n: nat)
    requires |route| < n
    ensures exists u: nat :: u < n && u !in route
  {
    if forall u: nat :: u < n ==> u in route {
      assert Indices(n) <= Elements(route);
      IndicesSize(n);
      ElementsSize(route);
      SubsetSize(Indices(n), Elements(route));
      assert false;
    }
  }

  /** A permutation is a bijection: it visits every index below `n`. */
  lemma PermutationCoversAll(route: seq<nat>, n: nat)
    requires IsPermutation(route, n)
    ensures forall u: nat :: u < n ==> u in route
  {
    IndicesSize(n);
    ElementsSize(route);
    var e, all := Elements(route), Indices(n);
    assert e <= all;
    assert |all - e| == 0 by {
      assert all == e + (all - e);
      assert e !! (all - e);
    }
    assert all == e;
    forall u: nat | u < n
      ensures u in route
    {
      assert u in all;
    }
  }

  /** Cutting a route between two stops splits its length into the two parts
      and the leg that joined them. */
  lemma {:induction false} LengthAppend(dist: Metric, points: seq<Point>, a: seq<nat>, b: seq<nat>)
    requires |a| > 0 && |b| > 0
    requires InRange(a, |points|) && InRange(b, |points|)
    ensures InRange(a + b, |points|)
    ensures OpenLength(dist, points, a + b)
         == OpenLength(dist, points, a) + Leg(dist, points, a[|a| - 1], b[0]) + OpenLength(dist, points, b)
  {
    assert InRange(a + b, |points|) by {
      forall p | 0 <= p < |a + b|
        ensures (a + b)[p] < |points|
      {
        if p < |a| { assert (a + b)[p] == a[p]; } else { assert (a + b)[p] == b[p - |a|]; }
      }
    }
    if |a| == 1 {
      assert (a + b)[1..] == b;
    } else {
      LengthAppend(dist, points, a[1..], b);
      assert (a + b)[1..] == a[1..] + b;
    }
  }

  /** A slice of a route stays within the point set. */
  lemma SliceInRange(route: seq<nat>, n: nat, a: nat, b: nat)
    requires InRange(route, n)
    requires a <= b <= |route|
    ensures InRange(route[a..b], n)
  {
    forall p | 0 <= p < b - a
      ensures route[a..b][p] < n
    {
      assert route[a..b][p] == route[a + p];
    }
  }

  /** The length of a route cut into three nonempty parts. */
  lemma LengthAppend3(dist: Metric, points: seq<Point>, a: seq<nat>, b: seq<nat>, c: seq<nat>)
    requires |a| > 0 && |b| > 0 && |c| > 0
    requires InRange(a, |points|) && InRange(b, |points|) && InRange(c, |points|)
    ensures InRange(a + b + c, |points|)
    ensures OpenLength(dist, points, a + b + c)
         == OpenLength(dist, points, a) + Leg(dist, points, a[|a| - 1], b[0])
            + OpenLength(dist, points, b) + Leg(dist, points, b[|b| - 1], c[0])
            + OpenLength(dist, points, c)
  {
    LengthAppend(dist, points, a, b);
    LengthAppend(dist, points, a + b, c);
    assert (a + b)[|a + b| - 1] == b[|b| - 1];
  }

  /** With a symmetric metric, walking a route backwards costs the same. */
  lemma {:induction false} LengthReverse(dist: Metric, points: seq<Point>, s: seq<nat>)
    requires Symmetric(dist)
    requires InRange(s, |points|)
    ensures InRange(Reverse(s), |points|)
    ensures OpenLength(dist, points, Reverse(s)) == OpenLength(dist, points, s)
  {
    var r := Reverse(s);
    assert InRange(r, |points|) by {
      forall p | 0 <= p < |r|
        ensures r[p] < |points|
      {
        assert r[p] == s[|s| - 1 - p];
      }
    }
    if |s| > 1 {
      var t := s[1..];
      LengthReverse(dist, points, t);
      LengthAppend(dist, points, Reverse(t), [s[0]]);
      assert Reverse(t)[|t| - 1] == t[0];
      assert Leg(dist, points, t[0], s[0]) == Leg(dist, points, s[0], s[1]);
    }
  }
}
