# Route builder of the TrailynSafe k-means service, in Dafny

The service builds a school-bus pickup route. Given the confirmed pickup
points, the school and a departure time, `ejecutar_kmeans_tsp` does the following:

1. groups the points into `max(1, min(ceil(N / 10), N))` clusters, using
   k-means when more than one is needed and the mean of all points otherwise;
2. visits the clusters farthest from the school first;
3. orders the points of each cluster by a nearest-neighbour tour
   (`resolver_tsp_vecino_cercano`), starting from the last point of the
   previous cluster;
4. charges every stop a distance, a time and an estimated arrival
   (`calcular_distancias_tiempos`);
5. reports the rounded totals and the run parameters.

The model is a set of pure functions over immutable sequences. The modules
follow the steps above:

| module | models |
|---|---|
| `Wrappers` | `Option` |
| `Points` | pickup points, the destination, stops tagged with a cluster, the distance as a parameter |
| `Selection` | `min`/`max` with a key (first of equal candidates wins), `list.remove` (first occurrence) |
| `Clustering` | cluster count, mean centroid, labels used |
| `Sequencing` | stable descending sort of cluster ids by centroid-to-school distance |
| `Tour` | the nearest-neighbour tour, and an algorithm-free description of it |
| `Chaining` | the per-cluster tours concatenated in cluster order |
| `Rounding` | Python `round` on exact reals (half-even) |
| `Estimation` | per-stop legs, the clock, per-stop records, totals |
| `Pipeline` | `ejecutar_kmeans_tsp` end to end |

The following parts of the computation are parameters:

- **Straight-line distance**: an uninterpreted `dist: (Coord, Coord) -> real`. Every call keeps the argument order of the source. Properties that need a fact about it take the fact as a hypothesis: `dist(a, b) >= 0` for the arrival spacing.
- **k-means fit**: labels plus centroids, given as an input. It is used only when more than one cluster is asked for.
- **Directions provider**: whether a key is configured, plus a reply per leg. A reply is a distance in metres and a duration in seconds, or nothing when the call fails.
- **Departure time**: real minutes.

## Model

| member | source | states |
|---|---|---|
| `Clustering.ClusterCount` | trailynsafe/trailynapp/views.py:116 | for N ≥ 1 the count lies in [1, N]; it is 1 when N ≤ 10; it is the least count with at most ten points per cluster: 10(k−1) < N ≤ 10k |
| `Clustering.AssignClusters` | trailynsafe/trailynapp/views.py:118-130 | the result labels all N points below k with k centroids; with one cluster every label is 0 and the centroid is the mean; otherwise the fit is used unchanged |
| `Clustering.Mean` | trailynsafe/trailynapp/views.py:130 | `np.mean(axis=0)`; its meaning is stated by `MeanWithinBounds` and `MeanOfCoincidentPoints` |
| `Clustering.MeanWithinBounds` | trailynsafe/trailynapp/views.py:130 | the single-cluster centroid lies inside every latitude/longitude box that holds all the points |
| `Clustering.AverageBounded` | trailynsafe/trailynapp/views.py:130 | a bound that every point's component meets, the mean of that component meets too |
| `Clustering.MeanOfCoincidentPoints` | trailynsafe/trailynapp/views.py:130 | points that all sit at one coordinate have that coordinate as centroid |
| `Sequencing.CentroidDistances` | trailynsafe/trailynapp/views.py:133-138 | key i is the distance from centroid i to the school, in that argument order |
| `Sequencing.ClusterOrder` | trailynsafe/trailynapp/views.py:140-144 | the order is a permutation of 0..k−1 (as multisets); keys never increase along it; equal keys keep ascending id order |
| `Sequencing.ClusterOrderUnique` | trailynsafe/trailynapp/views.py:140-144 | any sequence with those four properties is the order, so the stable descending sort is fully pinned down |
| `Sequencing.ClusterOrderIsPermutation` | trailynsafe/trailynapp/views.py:136-144 | the order has k entries, holds exactly the ids below k, and repeats none |
| `Selection.ArgMin` | trailynsafe/trailynapp/views.py:242-248 | `min` with a key returns an index whose key is minimal and strictly below every earlier element's key |
| `Selection.ArgMax` | trailynsafe/trailynapp/views.py:235 | `max` with a key returns an index whose key is maximal and strictly above every earlier element's key |
| `Selection.ArgMinIsFirstMin` | trailynsafe/trailynapp/views.py:226-232 | an element is what `min` returns iff no key is smaller and no equal key occurs before its first occurrence |
| `Selection.ArgMaxIsFirstMax` | trailynsafe/trailynapp/views.py:234-235 | the same characterisation for `max` |
| `Selection.RemoveFirst` | trailynsafe/trailynapp/views.py:250 | `list.remove` of an element that occurs shortens the list by one; the absent case, where Python raises, is modelled as no change and never arises in the tour |
| `Selection.RemoveFirstMultiset` | trailynsafe/trailynapp/views.py:238 | `list.remove` takes exactly one copy of the element out, and nothing else |
| `Selection.ArgMinRemoval` | trailynsafe/trailynapp/views.py:242-250 | removing the element `min` chose deletes exactly the position it was found at; the others keep their order |
| `Selection.ArgMaxRemoval` | trailynsafe/trailynapp/views.py:235-238 | the same for the element `max` chose |
| `Tour.StartIndexMeetsRule` | trailynsafe/trailynapp/views.py:223-235 | the first stop is the first nearest to the entry point when there is one, else the first northernmost; both directions of the iff |
| `Tour.StartIndex` | trailynsafe/trailynapp/views.py:223-235 | the start position is a valid index; which one is stated by `StartIndexMeetsRule` |
| `Tour.Greedy` | trailynsafe/trailynapp/views.py:240-251 | the loop returns the remaining stops permuted; each is no farther from its predecessor than any stop placed after it |
| `Tour.NearestNeighbourTour` | trailynsafe/trailynapp/views.py:210-253 | the tour is a permutation of its input; up to one stop is returned unchanged; every stop with a predecessor is nearest to it among the stops not yet visited |
| `Tour.ChosenIsNearest` | trailynsafe/trailynapp/views.py:242-250 | the stop `min` picks is no farther than any stop left after its removal |
| `Tour.GreedyMakesChoices` | trailynsafe/trailynapp/views.py:241-251 | every position of the loop's output is the first nearest, to the stop before it, among the stops `list.remove` has left |
| `Tour.GreedyChoicesUnique` | trailynsafe/trailynapp/views.py:241-251 | a sequence making those first-nearest choices is the loop's output |
| `Tour.TourCharacterisation` | trailynsafe/trailynapp/views.py:214-253 | a sequence satisfies the start rule plus first-nearest choices iff it is the tour |
| `Tour.TourMeetsDescription` | trailynsafe/trailynapp/views.py:214-253 | the tour starts by the start rule and then makes first-wins nearest choices |
| `Tour.DescriptionIsTour` | trailynsafe/trailynapp/views.py:214-253 | any sequence that starts by the start rule and then makes first-wins nearest choices is the tour |
| `Tour.SmallTours` | trailynsafe/trailynapp/views.py:214-218 | the empty list gives the empty tour; a single stop is returned as it is, whatever the entry point |
| `Chaining.Tag` | trailynsafe/trailynapp/views.py:155-157 | stop i is point i with label i as its cluster |
| `Chaining.Members` | trailynsafe/trailynapp/views.py:152-153 | a stop is selected iff it is an input stop with the given label |
| `Chaining.MembersAppend` | trailynsafe/trailynapp/views.py:152-153 | selection keeps input order and multiplicity: selecting from a + b is selecting from a, then from b |
| `Chaining.MembersSingle` | trailynsafe/trailynapp/views.py:152-153 | a single stop is selected iff it carries the label, so with `MembersAppend` the selection is fully determined |
| `Chaining.HeadInCluster` | trailynsafe/trailynapp/views.py:150-163 | every stop of a cluster's tour is an input stop of that cluster |
| `Chaining.ChainMembers` | trailynsafe/trailynapp/views.py:150-166 | the chained route holds only input stops whose cluster is in the order |
| `Chaining.ChainPermutation` | trailynsafe/trailynapp/views.py:150-166 | with no repeated id in the order, the route holds the stops of the listed clusters exactly as often as the input does |
| `Chaining.EmptyClusterResetsEntry` | trailynsafe/trailynapp/views.py:166 | after an empty cluster the next tour has no entry point and starts at its northernmost stop |
| `Chaining.ChainSplit` | trailynsafe/trailynapp/views.py:160-166 | the route is the first cluster's tour, which enters from the given entry point, followed by the rest chained from that tour's last stop; the rest holds no stop of the first cluster |
| `Chaining.Chain` | trailynsafe/trailynapp/views.py:147-166 | the chaining loop; stated by `ChainSplit`, `ChainPermutation`, `ChainFollowsOrder`, `ChainContiguous` and `ChainNearest` |
| `Chaining.Exit` | trailynsafe/trailynapp/views.py:166 | `puntos_ordenados[-1] if puntos_ordenados else None`; stated by `ChainSplit` and `EmptyClusterResetsEntry` |
| `Chaining.ChainFollowsOrder` | trailynsafe/trailynapp/views.py:150-165 | a stop never follows a stop of a cluster that comes later in the order |
| `Chaining.ChainContiguous` | trailynsafe/trailynapp/views.py:150-165 | each cluster's stops form one contiguous block of the route |
| `Chaining.ChainNearest` | trailynsafe/trailynapp/views.py:159-166 | when no cluster is empty, every stop with a predecessor is nearest to it among the unvisited stops of its own cluster, so each block is entered from the last stop of the previous block |
| `Rounding.RoundHalfEven` | trailynsafe/trailynapp/views.py:310 | `round(x)` is within ½ of x, and of two equally near integers it is the even one |
| `Rounding.RoundHalfEvenUnique` | trailynsafe/trailynapp/views.py:310 | only one integer meets that description |
| `Rounding.RoundInteger` | trailynsafe/trailynapp/views.py:182 | an integer rounds to itself |
| `Rounding.RoundCents` | trailynsafe/trailynapp/views.py:309 | `round(x, 2)` is a whole number of hundredths within 0.005 of x, and of two equally near ones it is the one with an even count of hundredths |
| `Rounding.RoundCentsUnique` | trailynsafe/trailynapp/views.py:309 | only one value meets that description, so it pins `round(x, 2)` down completely |
| `Rounding.RoundCentsOfCents` | trailynsafe/trailynapp/views.py:181 | a value already in whole hundredths is left unchanged by `round(x, 2)` |
| `Rounding.WholeCentsAdd` | trailynsafe/trailynapp/views.py:176 | a sum of two whole numbers of hundredths is a whole number of hundredths |
| `Rounding.RoundCentsIdempotent` | trailynsafe/trailynapp/views.py:181 | rounding to hundredths twice is rounding once |
| `Estimation.DirectionsLeg` | trailynsafe/trailynapp/views.py:333-337 | a provider leg has km × 1000 = metres and minutes × 60 = seconds |
| `Estimation.FallbackLeg` | trailynsafe/trailynapp/views.py:286 | a straight-line leg takes its time at 20 km/h: minutes × 20 = km × 60 |
| `Estimation.TravelLeg` | trailynsafe/trailynapp/views.py:270-294 | the leg before the dwell: the provider's answer when configured and it replies, else the straight-line fallback; stated by `FallbackStop` and `ProviderStop` |
| `Estimation.StopLeg` | trailynsafe/trailynapp/views.py:264-297 | what a stop is charged; stated by `FirstStop`, `FallbackStop`, `ProviderStop` and `StopMinutesAtLeastDwell` |
| `Estimation.Legs` | trailynsafe/trailynapp/views.py:264-297 | one leg per stop, leg i being what stop i is charged |
| `Estimation.EstimateFromRecords` | trailynsafe/trailynapp/views.py:296-312 | record k of the loop from stop i describes stop i+k; its arrival is the clock plus all minutes charged from stop i through stop i+k |
| `Estimation.EstimateFrom` | trailynsafe/trailynapp/views.py:296-312 | the loop from stop i with the clock at a given time: one record per remaining stop; its records are stated by `EstimateFromRecords` |
| `Estimation.Record` | trailynsafe/trailynapp/views.py:302-311 | one output record; its fields are stated by `EstimateRecords` |
| `Estimation.RecordAt` | trailynsafe/trailynapp/views.py:300-311 | record k is stop k's record, with stop k's leg and reached at the departure plus the minutes of stops 0..k |
| `Estimation.EstimateRecords` | trailynsafe/trailynapp/views.py:300-311 | record k carries stop k's identifiers, coordinates and cluster; its arrival is the departure plus the unrounded minutes of stops 0..k; its reported km and minutes are stop k's, rounded |
| `Estimation.Estimate` | trailynsafe/trailynapp/views.py:256-314 | one record per route stop |
| `Estimation.FirstStop` | trailynsafe/trailynapp/views.py:265-268 | stop 0 is charged 0 km and 5 + 2 = 7 minutes and reached 7 minutes after departure, whatever the provider |
| `Estimation.FallbackStop` | trailynsafe/trailynapp/views.py:279-297 | with no provider, or a failed call, a later stop is charged d = dist(previous, current) km and d/20·60 + 2 minutes |
| `Estimation.ProviderStop` | trailynsafe/trailynapp/views.py:274-278 | with a provider reply, a later stop is charged metres/1000 km and seconds/60 + 2 minutes |
| `Estimation.StopMinutesAtLeastDwell` | trailynsafe/trailynapp/views.py:296-297 | with non-negative distances, every stop is charged at least the 2-minute dwell and a non-negative distance |
| `Estimation.ArrivalsIncrease` | trailynsafe/trailynapp/views.py:300 | each arrival is the previous arrival plus the stop's unrounded minutes, hence at least 2 minutes later |
| `Estimation.TotalKm` | trailynsafe/trailynapp/views.py:176-181 | the total distance is within 0.005 of the sum of the reported per-stop distances, for any records |
| `Estimation.SumKmWholeCents` | trailynsafe/trailynapp/views.py:176 | reported distances that are each whole hundredths add up to whole hundredths |
| `Estimation.TotalKmExact` | trailynsafe/trailynapp/views.py:176-181 | when each reported distance is in whole hundredths, the rounded total equals their sum exactly |
| `Estimation.EstimateWholeCents` | trailynsafe/trailynapp/views.py:309 | every record reports its distance in whole hundredths |
| `Estimation.TotalMinutes` | trailynsafe/trailynapp/views.py:177-182 | the total time equals the sum of the reported per-stop minutes: rounding an integer sum changes nothing |
| `Estimation.SumKm` | trailynsafe/trailynapp/views.py:176 | `sum(... distancia_desde_anterior_km ...)`; related to the charged distance by `SumKmError` and to the total by `TotalKmExact` |
| `Estimation.SumMinutes` | trailynsafe/trailynapp/views.py:177 | `sum(... tiempo_desde_anterior_min ...)`; related to the charged minutes by `SumMinutesError` |
| `Estimation.SumKmError` | trailynsafe/trailynapp/views.py:176 | the first n reported distances sum to within 0.005·n of the distance charged to those stops |
| `Estimation.TotalKmError` | trailynsafe/trailynapp/views.py:176-181 | the total distance is within 0.005·(N+1) of the unrounded distance charged |
| `Estimation.SumMinutesError` | trailynsafe/trailynapp/views.py:177 | the first n reported minutes sum to within n/2 of the unrounded minutes charged to those stops |
| `Estimation.TotalMinutesError` | trailynsafe/trailynapp/views.py:177-182 | the last arrival is the departure plus all unrounded minutes; the reported total time is within N/2 of that span |
| `Pipeline.Coords` | trailynsafe/trailynapp/views.py:109-112 | coordinate i is point i's |
| `Pipeline.Grouping` | trailynsafe/trailynapp/views.py:116-130 | the labels and centroids used partition the N points into k clusters |
| `Pipeline.Keys` | trailynsafe/trailynapp/views.py:133-138 | there is one key per cluster |
| `Pipeline.OrderFacts` | trailynsafe/trailynapp/views.py:136-144 | the sequenced order repeats no id and holds exactly the ids below k |
| `Pipeline.ChainOfAllClusters` | trailynsafe/trailynapp/views.py:146-166 | chaining all clusters in that order loses and repeats no point |
| `Pipeline.Route` | trailynsafe/trailynapp/views.py:146-166 | the route is a permutation of the input points, each tagged with its own label |
| `Pipeline.PairFarthestFirst` | trailynsafe/trailynapp/views.py:141-165 | of two stops, the earlier one's cluster is at least as far from the school; of two equally far clusters, the lower id comes first |
| `Pipeline.RouteVisitsFarthestFirst` | trailynsafe/trailynapp/views.py:141-166 | along the route, cluster distance to the school never increases; equal distances go in ascending id order; clusters are contiguous |
| `Pipeline.RouteNearest` | trailynsafe/trailynapp/views.py:159-166 | when every cluster has a point, each stop after the first is at least as near to the stop before it as any unvisited stop of its cluster; the tie-break is per cluster in `Tour.TourCharacterisation`, entered as `Chaining.ChainSplit` states |
| `Pipeline.MembersOfOneCluster` | trailynsafe/trailynapp/views.py:129 | with every label equal, the cluster's points are all points in input order |
| `Pipeline.SmallGroupIsOneTour` | trailynsafe/trailynapp/views.py:116-166 | with at most ten points every label is 0, and the route is one nearest-neighbour tour started at the northernmost point |
| `Pipeline.SmallGroupOrder` | trailynsafe/trailynapp/views.py:116-144 | with at most ten points the cluster order is the single cluster 0 |
| `Pipeline.OptimiseRoute` | trailynsafe/trailynapp/views.py:104-189 | the result has one stop per point; the total time is the sum of the stop times and the total distance the sum of the stop distances; the parameters report k, the method `tsp-nearest-neighbor`, and N points at N capacity used |
| `Pipeline.StopIsAPoint` | trailynsafe/trailynapp/views.py:302-311 | output stop k reports route stop k, which is some input point with its own label |
| `Pipeline.RouteStopIsTagged` | trailynsafe/trailynapp/views.py:146-166 | every route stop is some input point tagged with its own label |
| `Pipeline.PointIsAStop` | trailynsafe/trailynapp/views.py:302-311 | every input point, with its label, is reported by some output stop |
| `Pipeline.StopsAreThePoints` | trailynsafe/trailynapp/views.py:150-189 | both directions together: the output stops and the input points correspond |
| `Pipeline.SinglePoint` | trailynsafe/trailynapp/views.py:104-189 | a single point gives one stop in cluster 0, charged 0 km and 7 minutes, reached 7 minutes after departure; totals 0 km and 7 minutes; parameters (1, tsp-nearest-neighbor, 1, 1) |

## Left out

- The HTTP endpoints `generar_ruta` and `health_check` (trailynsafe/trailynapp/views.py:17-101) are request plumbing. That covers payload checks, 400/500 responses and the webhook call. The model starts at `ejecutar_kmeans_tsp` with N ≥ 1, which `generar_ruta` guarantees.
- The scikit-learn `KMeans` fit (trailynsafe/trailynapp/views.py:119-126) is a randomised foreign library call. Its labels and centroids are an input, required to have one label below k per point and k centroids.
- The Haversine formula (trailynsafe/trailynapp/views.py:192-207) is transcendental floating-point arithmetic. The distance is an uninterpreted function, with no symmetry or zero-on-diagonal assumed.
- The Google Directions request (trailynsafe/trailynapp/views.py:317-339) and the webhook POST (trailynsafe/trailynapp/views.py:342-364) are network I/O. The provider is an oracle giving a reply or a failure per leg; its answers are not tied to the coordinates sent.
- `datetime.strptime` / `strftime` formatting is left out. The clock is real minutes, with no wrap past midnight and no microsecond rounding of `timedelta`.
- Floating-point behaviour is left out: sums, divisions and `round` are computed on exact reals. `round(x, 2)` on a binary float can differ from the exact-real result near a tie, for example 2.675 stored just below the tie.
- Rounding.RoundCents: does not model the conversion of the rounded value back to the nearest binary float.
- `ejecutar_kmeans_tsp` never reads its `capacidad` argument; `capacidad_utilizada` reports N (trailynsafe/trailynapp/views.py:187). `calcular_distancias_tiempos` never reads its `destino` argument either. Neither argument appears in the model.
- The `parada.get('cluster', 0)` default is not modelled. Every stop reaching the estimation has its cluster written by the chaining loop, so the default never applies.
- diagnose.py (startup diagnostics that print the environment) and trailynsafe/trailynsafe/urls.py (a routing table) are not part of this model.
- Chaining.ChainNearest: the nearest-choice property across cluster boundaries is stated only when no listed cluster is empty. An empty cluster, possible only with a degenerate k-means fit, resets the entry point to none; `EmptyClusterResetsEntry` states exactly that.
- Pipeline.RouteNearest: carries the same hypothesis as `Chaining.ChainNearest`: every cluster id below k labels at least one point.
- Estimation.StopMinutesAtLeastDwell: takes non-negative distances as a hypothesis. Haversine distances are non-negative, but the distance here is a parameter.
- Estimation.ArrivalsIncrease: takes the same hypothesis for the whole lemma. Only its "at least 2 minutes later" half needs it.
- Selection.RemoveFirst: an absent element is removed as no change, where Python's `list.remove` raises `ValueError`. Both calls (trailynsafe/trailynapp/views.py:238, 250) remove an element just picked from the same list, so the case never arises there.
