/** Waypoints and the distance between them.

    The planner measures legs with the haversine great-circle distance. Its
    trigonometry is not modelled: every operation takes the metric as a
    parameter, and the facts the route builder relies on (symmetry) are
    stated as hypotheses where they are needed. */
module Geo {

  /** A selected turn-in point: latitude and longitude in degrees, and the
      label shown in the numbered route list. */
  datatype Point = Point(lat: real, lng: real, name: string)

  /** A distance between two points, in kilometres for the haversine metric. */
  type Metric = (Point, Point) -> real

  /** The great-circle distance does not depend on the direction of travel. */
  ghost predicate Symmetric(dist: Metric) {
    forall a: Point, b: Point :: dist(a, b) == dist(b, a)
  }

  /** The length of the leg between the points at indices `a` and `b`. */
  function Leg(dist: Metric, points: seq<Point>, a: nat, b: nat): real
    requires a < |points| && b < |points|
  {
    dist(points[a], points[b])
  }
}
