/** Phase A of the route builder: greedy nearest-neighbour construction. */
module Construction {
  import opened Geo
  import opened Tours

  /** The best distance seen so far in a scan; it starts at `Infinity`, so
      the first unvisited candidate always beats it. */
  datatype Bound = Infinity | Finite(value: real)

  /** `d` is strictly below the bound. */
  predicate Below(d: real, b: Bound) {
    match b
    case Infinity => true
    case Finite(v) => d < v
  }

  /** `j` is the stop the construction appends after `placed`, whose last
      stop is `last`: it is unvisited, no unvisited point is closer to `last`,
      and every unvisited point with a lower index is strictly farther (the
      scan runs upwards and only a strictly shorter leg replaces the best). */
  ghost predicate IsNearestChoice(dist: Metric, points: seq<Point>, last: nat, placed: seq<nat>, j: nat)
    requires last < |points|
  {
    && j < |points|
    && j !in placed
    && forall u: nat | u < |points| && u !in placed ::
         && Leg(dist, points, last, j) <= Leg(dist, points, last, u)
         && (u < j ==> Leg(dist, points, last, j) < Leg(dist, points, last, u))
  }

  /** `tour` is a complete nearest-neighbour tour of `points` from `start`:
      it has one stop per point, begins at `start`, and each later stop is
      the nearest choice from the stop before it. */
  ghost predicate IsGreedyTour(dist: Metric, points: seq<Point>, start: nat, tour: seq<nat>) {
    && |tour| == |points|
    && 0 < |tour|
    && tour[0] == start
    && InRange(tour, |points|)
    && forall s | 1 <= s < |tour| :: IsNearestChoice(dist, points, tour[s - 1], tour[..s], tour[s])
  }

  /** Starting at `start`, repeatedly append the unvisited point closest to
      the last stop, lowest index first on ties. */
  method NearestNeighbor(dist: Metric, points: seq<Point>, start: nat) returns (route: seq<nat>)
    requires |points| == 0 || start < |points|
    ensures |points| == 0 ==> route == []
    ensures |points| > 0 ==> IsGreedyTour(dist, points, start, route)
    ensures IsPermutation(route, |points|)
  {
    var n := |points|;
    if n == 0 {
      return [];
    }
    var visited := seq(n, u => u == start);
    route := [start];
    var i := 1;
    while i < n
      invariant 1 <= i <= n
      invariant |route| == i && |visited| == n
      invariant route[0] == start
      invariant InRange(route, n) && Distinct(route)
      invariant forall u | 0 <= u < n :: visited[u] <==> u in route
      invariant forall s | 1 <= s < i :: IsNearestChoice(dist, points, route[s - 1], route[..s], route[s])
    {
      var last := route[|route| - 1];
      var best: int := -1;
      var bestD := Infinity;
      var j := 0;
      while j < n
        invariant 0 <= j <= n
        invariant best == -1 <==> bestD == Infinity
        invariant best == -1 ==> forall u | 0 <= u < j :: visited[u]
        invariant best != -1 ==>
          && 0 <= best < j
          && !visited[best]
          && bestD == Finite(Leg(dist, points, last, best))
          && forall u | 0 <= u < j && !visited[u] ::
               && Leg(dist, points, last, best) <= Leg(dist, points, last, u)
               && (u < best ==> Leg(dist, points, last, best) < Leg(dist, points, last, u))
      {
        if !visited[j] {
          var d := dist(points[last], points[j]);
          if Below(d, bestD) {
            bestD := Finite(d);
            best := j;
          }
        }
        j := j + 1;
      }
      if best == -1 {
        UnplacedExists(route, n);
        assert false;
      }
      assert IsNearestChoice(dist, points, last, route, best);
      ghost var prev := route;
      visited := visited[best := true];
      route := route + [best];
      i := i + 1;
      forall s | 1 <= s < i
        ensures IsNearestChoice(dist, points, route[s - 1], route[..s], route[s])
      {
        if s < i - 1 {
          assert route[..s] == prev[..s];
        } else {
          assert route[..s] == prev;
        }
      }
    }
  }

  /** The nearest choice after a given prefix is unique. */
  lemma NearestChoiceUnique(dist: Metric, points: seq<Point>, last: nat, placed: seq<nat>, j1: nat, j2: nat)
    requires last < |points|
    requires IsNearestChoice(dist, points, last, placed, j1)
    requires IsNearestChoice(dist, points, last, placed, j2)
    ensures j1 == j2
  {
  }

  /** Construction is deterministic: the points and the start fix the tour. */
  lemma GreedyTourUnique(dist: Metric, points: seq<Point>, start: nat, t1: seq<nat>, t2: seq<nat>)
    requires IsGreedyTour(dist, points, start, t1)
    requires IsGreedyTour(dist, points, start, t2)
    ensures t1 == t2
  {
    var s := 1;
    while s < |t1|
      invariant 1 <= s <= |t1|
      invariant t1[..s] == t2[..s]
    {
      assert t1[s - 1] == t2[s - 1] by {
        assert t1[s - 1] == t1[..s][s - 1];
        assert t2[s - 1] == t2[..s][s - 1];
      }
      NearestChoiceUnique(dist, points, t1[s - 1], t1[..s], t1[s], t2[s]);
      assert t1[..s + 1] == t1[..s] + [t1[s]];
      assert t2[..s + 1] == t2[..s] + [t2[s]];
      s := s + 1;
    }
    assert t1 == t1[..s];
    assert t2 == t2[..s];
  }
}
