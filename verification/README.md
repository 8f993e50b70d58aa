# Route ordering for the TBC quest stacker, in Dafny

The planner lets a player pick quest and item turn-ins. It then orders the
selected turn-in points into a short walking route. The route builder works in
two phases:

- **Nearest-neighbour construction** (`nearestNeighbor`). Start at one point.
  Then keep appending the unvisited point closest to the last stop. Ties go to
  the lowest index.
- **Bounded first-improvement 2-opt** (`twoOpt`). Each pass scans pairs of
  non-adjacent inner edges `(i, i+1)` and `(k, k+1)`. When reconnecting them
  saves more than a small slack, the stops at positions `i+1..k` are reversed
  on the spot. Later comparisons in the same pass read the rewritten route.
  Passes repeat while the previous pass accepted a move, at most `maxIter`
  times.

`routeOrder` chains the two phases from point 0 of the point list. That list
holds the selected quests in catalog order, then the selected items, so point
0 is not necessarily the entry the player picked first. The quest
and item lists change through a toggle: a selected id is removed, an
unselected one is appended.

Modules:

- `Geo` (`geo.dfy`): the `Point` record and the metric. The metric is an
  abstract parameter `Metric = (Point, Point) -> real`. `Symmetric` is assumed
  only where a proof needs it.
- `Tours` (`tours.dfy`): routes as `seq<nat>` of point indices. It defines
  `IsPermutation`, the open-tour length `OpenLength` (no closing leg) and
  `Reverse`, with the counting and length lemmas they need.
- `Construction` (`construction.dfy`): `NearestNeighbor` and its reference
  predicate `IsGreedyTour`.
- `Improvement` (`improvement.dfy`): the move `TwoOptMove`, one scan `Pass`,
  and the bounded loop `TwoOpt`.
- `Planner` (`planner.dfy`): `RouteOrder`, with the source's constants: 100
  passes and a slack of 1e-9.
- `Selection` (`selection.dfy`): `Toggle` and `RemoveAll`.

Two edge cases:

- With a single point, `nearestNeighbor` returns `[0]`. `routeOrder` returns
  the empty route for fewer than two points, and `Planner.RouteOrder` does
  the same.
- Re-running the improvement on its own output is guaranteed to leave it
  unchanged when the first run stopped because a pass accepted no move. When
  the pass budget ran out, it need not. `Improvement.TwoOpt` states the first
  case. It also states that a budget of 0 passes returns the input unchanged.

## Model

| member | source | states |
|---|---|---|
| Construction.NearestNeighbor | wo_w_tbc_quest_stacker_route_planner_shareable_web_app.jsx:87-107 | An empty point list gives the empty route. Otherwise the route has one stop per point, starts at `startIndex` and is a permutation of `0..n-1`. Each later stop is unvisited and no farther from the previous stop than any other unvisited point. Every unvisited point with a lower index is strictly farther, so ties go to the first index scanned. |
| Construction.GreedyTourUnique | wo_w_tbc_quest_stacker_route_planner_shareable_web_app.jsx:93-105 | Construction is deterministic: two tours that both follow the greedy rule from the same start are equal. |
| Tours.UnplacedExists | wo_w_tbc_quest_stacker_route_planner_shareable_web_app.jsx:95-104 | While fewer than `n` stops are placed, some index below `n` is unvisited. So the scan always finds a candidate, and the `best = -1` sentinel is never appended. |
| Tours.PermutationCoversAll | wo_w_tbc_quest_stacker_route_planner_shareable_web_app.jsx:90-106 | A route of `n` distinct in-range stops visits every index below `n`, so it is a bijection onto the point set. |
| Tours.Reverse | wo_w_tbc_quest_stacker_route_planner_shareable_web_app.jsx:125 | The reversed segment has the same length, and position `p` holds the element at mirror position `len-1-p`. |
| Tours.ReverseKeepsMultiset | wo_w_tbc_quest_stacker_route_planner_shareable_web_app.jsx:125 | Reversing a segment keeps exactly the same stops, with the same multiplicities. |
| Tours.LengthAppend | wo_w_tbc_quest_stacker_route_planner_shareable_web_app.jsx:112-116 | The open-tour length of two joined routes is the sum of their lengths plus the one leg that joins them. |
| Tours.LengthReverse | wo_w_tbc_quest_stacker_route_planner_shareable_web_app.jsx:122-125 | With a symmetric distance, a segment costs the same walked in either direction. |
| Improvement.TwoOptMove | wo_w_tbc_quest_stacker_route_planner_shareable_web_app.jsx:125 | The move reverses exactly positions `i+1..k`. Positions `0..i` and `k+1..n-1` are unchanged, the length is kept, and the multiset of stops is kept. |
| Improvement.MovePreservesPermutation | wo_w_tbc_quest_stacker_route_planner_shareable_web_app.jsx:125 | The move keeps every stop in range and keeps stops distinct, so a permutation stays a permutation. |
| Improvement.MoveLength | wo_w_tbc_quest_stacker_route_planner_shareable_web_app.jsx:122-127 | With a symmetric distance, a move changes the open-tour length by exactly `d2 - d1`. So an accepted move (`d2 + eps < d1`) shortens the route by more than `eps`. |
| Improvement.Pass | wo_w_tbc_quest_stacker_route_planner_shareable_web_app.jsx:119-130 | One pass keeps the stops, the length and both endpoints. With a symmetric metric and `eps >= 0` the route never gets longer, and an improving pass makes it shorter by more than `eps`. A pass that accepts nothing leaves the route unchanged and leaves no accepted move in the scanned range. A pass started from a locally optimal route accepts nothing. |
| Improvement.TwoOpt | wo_w_tbc_quest_stacker_route_planner_shareable_web_app.jsx:109-133 | Routes shorter than 4 are returned unchanged. The result keeps the input's stops, its permutation property and its first and last stop. With a symmetric metric and `eps >= 0`, the result is no longer than the input, and strictly shorter (by more than `eps`) when it differs. At most `maxIter` passes run, and when none runs (`maxIter = 0`) the input comes back unchanged. A run that stops for lack of an accepted move leaves a 2-opt local optimum. A locally optimal input comes back unchanged for every `maxIter`, and with `maxIter >= 1` the run stops as converged. With `maxIter >= 1`, a symmetric metric and `eps >= 0`, the result is a 2-opt local optimum, or it is shorter than the input by more than `maxIter * eps` because every pass accepted a move. |
| Planner.RouteOrder | wo_w_tbc_quest_stacker_route_planner_shareable_web_app.jsx:216-220 | Fewer than two points give `[]`. Otherwise `seed` is the greedy tour from point 0, and the order is a permutation that starts at point 0 and ends where `seed` ends. With a symmetric metric the order is no longer than `seed`. For two or three points the order is `seed` itself. For four or more points and a symmetric metric, the order is a 2-opt local optimum, or it is shorter than `seed` by more than `100 * 1e-9` because all 100 passes accepted a move. |
| Selection.RemoveAll | wo_w_tbc_quest_stacker_route_planner_shareable_web_app.jsx:225 | Filtering out `id` removes every occurrence. Every other id keeps its count and its relative order. |
| Selection.Toggle | wo_w_tbc_quest_stacker_route_planner_shareable_web_app.jsx:224-229 | A selected id is removed entirely and the others keep their order and counts. An unselected id is appended at the end. Membership of every other id is unchanged. |
| Selection.ToggleTwice | wo_w_tbc_quest_stacker_route_planner_shareable_web_app.jsx:224-229 | Toggling the same id twice restores membership. If the id was not selected, it restores the exact list. |

## Left out

- Haversine distance (lines 77-85): `sin`, `cos`, `asin` and `sqrt` on doubles are not modelled. The distance is an abstract parameter, and symmetry is a hypothesis where a proof needs it. The ~111 km per degree check and the square end-to-end scenario depend on the real formula, so they are not stated.
- Floating point: distances and the test `d2 + 1e-9 < d1` are computed on exact reals. Rounding, `NaN` and `Infinity` distances are not modelled. (A `NaN` leg would let the source append `-1`.)
- Improvement.TwoOpt: the slack `1e-9` is a parameter `eps`. `Planner.RouteOrder` passes `1e-9`. `maxIter` is a natural number; the source's JavaScript number could also be negative or fractional.
- Improvement.TwoOpt: requires every stop to index a point once the route has four or more stops. The source fails only when it reads such an entry, which never happens when `maxIter` is 0.
- Construction.NearestNeighbor: requires `startIndex < n` when there are points. With an out-of-range start, the source returns `[startIndex]` for one point and throws a `TypeError` for two or more.
- Construction.NearestNeighbor: the `visited` array is a `seq<bool>` that is replaced on each update, not an array updated in place.
- Planner.RouteOrder: returns the greedy tour as a ghost output `seed`, so the contract can compare against it; the source returns only the order. Methods are deterministic, so determinism of the whole route builder is not stated separately. Determinism of the construction phase is `GreedyTourUnique`.
- URL encode/decode of selections (lines 136-149): depends on `window.location` and `URLSearchParams` percent-encoding.
- `useLocalStorage` and JSON export/import (lines 151-158, 238-263): browser storage, `Blob`, `FileReader` and `JSON.parse` I/O.
- React components, the Leaflet map, animation, clipboard and alerts: UI plumbing.
- The static catalog `HUBS`/`QUESTS`/`ITEM_TURNINS` and the quest filter and XP totals (lines 203-222): reference data and plain filtering and summing.
- `clearAll`: two plain assignments of the empty list.
