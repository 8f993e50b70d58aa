/** The caller glue: the route drawn on the map and listed in tour order. */
module Planner {
  import opened Geo
  import opened Tours
  import opened Construction
  import opened Improvement

  /** The default pass budget of the improvement loop. */
  const MaxPasses: nat := 100

  /** The saving below which a 2-opt move is not taken (1e-9 km). */
  const Slack: real := 0.000000001

  /** Fewer than two selected points give no route; otherwise the greedy
      tour from point 0 of the point list, improved by 2-opt. The caller lists
      the selected quests in catalog order, then the selected items, so point
      0 is not necessarily the entry the player picked first. `seed` is that
      greedy tour, the only one there is (`GreedyTourUnique`). */
  method RouteOrder(dist: Metric, points: seq<Point>) returns (order: seq<nat>, ghost seed: seq<nat>)
    ensures |points| < 2 ==> order == []
    ensures 2 <= |points| ==> IsGreedyTour(dist, points, 0, seed)
    ensures 2 <= |points| ==> IsPermutation(order, |points|) && order[0] == 0
    ensures 2 <= |points| ==> order[|order| - 1] == seed[|seed| - 1]
    ensures 2 <= |points| < 4 ==> order == seed
    ensures 2 <= |points| && Symmetric(dist) ==> OpenLength(dist, points, order) <= OpenLength(dist, points, seed)
    ensures 4 <= |points| && Symmetric(dist) ==>
              || NoImprovingMove(dist, points, order, Slack)
              || OpenLength(dist, points, order) + 100.0 * Slack < OpenLength(dist, points, seed)
  {
    seed := [];
    if |points| < 2 {
      return [], seed;
    }
    var tour := NearestNeighbor(dist, points, 0);
    seed := tour;
    ghost var passes, stop;
    order, passes, stop := TwoOpt(dist, points, tour, MaxPasses, Slack);
    assert (MaxPasses as real) * Slack == 100.0 * Slack;
  }
}
