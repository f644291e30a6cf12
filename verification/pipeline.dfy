/** `ejecutar_kmeans_tsp`: the whole route builder. The pickup points are
    grouped into clusters, the clusters are sequenced farthest from the school
    first, each cluster is toured nearest-neighbour from where the previous one
    ended, and every stop gets a distance, a time and an arrival estimate. */
module Pipeline {
  import opened Wrappers
  import opened Points
  import opened Selection
  import opened Clustering
  import opened Sequencing
  import opened Tour
  import opened Chaining
  import opened Rounding
  import opened Estimation

  /** The name the result gives for the sequencing method. */
  const SequencingMethod: string := "tsp-nearest-neighbor"

  /** The `parametros` part of the result. */
  datatype Parameters = Parameters(clusterCount: nat, sequencingMethod: string, totalPoints: nat, capacityUsed: nat)

  /** The result: the stops in visiting order, the totals, the parameters. */
  datatype RouteResult = RouteResult(stops: seq<Waypoint>, totalKm: real, totalMinutes: int, parameters: Parameters)

  /** Step 1: the coordinates of the points, in input order. */
  function Coords(points: seq<PickupPoint>): (cs: seq<Coord>)
    ensures |cs| == |points|
    ensures forall i :: 0 <= i < |cs| ==> cs[i] == points[i].coord
  {
    seq(|points|, i requires 0 <= i < |points| => points[i].coord)
  }

  /** A k-means fit the builder can use for these points: one label below k
      per point and k centroids, whenever more than one cluster is asked for. */
  predicate ValidFit(points: seq<PickupPoint>, fit: Clusters) {
    ClusterCount(|points|) > 1 ==> Partitions(fit, |points|, ClusterCount(|points|))
  }

  /** Steps 2 and 3: the labels and centroids used. */
  function Grouping(points: seq<PickupPoint>, fit: Clusters): (c: Clusters)
    requires |points| >= 1 && ValidFit(points, fit)
    ensures Partitions(c, |points|, ClusterCount(|points|))
  {
    AssignClusters(Coords(points), fit)
  }

  /** Distance from each centroid to the school. */
  function Keys(dist: DistanceFn, points: seq<PickupPoint>, dest: Destination, fit: Clusters): (keys: seq<real>)
    requires |points| >= 1 && ValidFit(points, fit)
    ensures |keys| == ClusterCount(|points|)
  {
    CentroidDistances(dist, Grouping(points, fit).centroids, dest.coord)
  }

  /** Step 4: `clusters_ordenados`. */
  function Order(dist: DistanceFn, points: seq<PickupPoint>, dest: Destination, fit: Clusters): seq<nat>
    requires |points| >= 1 && ValidFit(points, fit)
  {
    ClusterOrder(Keys(dist, points, dest, fit))
  }

  /** Every point with its own label. */
  function Tagged(points: seq<PickupPoint>, fit: Clusters): seq<Stop>
    requires |points| >= 1 && ValidFit(points, fit)
  {
    Tag(points, Grouping(points, fit).labels)
  }

  /** Step 5: `ruta_optimizada`, the chained tours with no entry point for the
      first cluster. It visits every input point exactly once, each tagged
      with its own label as its cluster. */
  function Route(dist: DistanceFn, points: seq<PickupPoint>, dest: Destination, fit: Clusters): (route: seq<Stop>)
    requires |points| >= 1 && ValidFit(points, fit)
    ensures multiset(route) == multiset(Tagged(points, fit))
    ensures |route| == |points|
  {
    ChainOfAllClusters(dist, points, dest, fit);
    Chain(dist, Order(dist, points, dest, fit), Tagged(points, fit), None)
  }

  /** The cluster order lists every cluster id below k exactly once. */
  lemma OrderFacts(dist: DistanceFn, points: seq<PickupPoint>, dest: Destination, fit: Clusters)
    requires |points| >= 1 && ValidFit(points, fit)
    ensures var order := Order(dist, points, dest, fit);
            && Distinct(order)
            && forall c: nat :: c in order <==> c < ClusterCount(|points|)
  {
    ClusterOrderIsPermutation(Keys(dist, points, dest, fit));
  }

  /** Chaining the tours of all clusters, in the sequenced order, loses and
      repeats no point. */
  lemma ChainOfAllClusters(dist: DistanceFn, points: seq<PickupPoint>, dest: Destination, fit: Clusters)
    requires |points| >= 1 && ValidFit(points, fit)
    ensures var route := Chain(dist, Order(dist, points, dest, fit), Tagged(points, fit), None);
            multiset(route) == multiset(Tagged(points, fit)) && |route| == |points|
  {
    var order := Order(dist, points, dest, fit);
    var ts := Tagged(points, fit);
    var labels := Grouping(points, fit).labels;
    OrderFacts(dist, points, dest, fit);
    ChainPermutation(dist, order, ts, None);
    forall i | 0 <= i < |ts|
      ensures ts[i].cluster in order
    {
      assert ts[i].cluster == labels[i];
    }
    RestrictAll(ts, order);
    var route := Chain(dist, order, ts, None);
    assert |route| == |ts| by {
      assert |multiset(route)| == |route| && |multiset(ts)| == |ts|;
    }
  }

  /** For two stops of a route that follows the cluster order, the earlier
      one's cluster is at least as far from the school, and the lower id of
      two equally far clusters comes first. */
  lemma PairFarthestFirst(keys: seq<real>, route: seq<Stop>, i: nat, j: nat)
    requires FollowsOrder(ClusterOrder(keys), route)
    requires forall s :: s in route ==> s.cluster in ClusterOrder(keys)
    requires i < j < |route|
    ensures route[i].cluster < |keys| && route[j].cluster < |keys|
    ensures keys[route[i].cluster] >= keys[route[j].cluster]
    ensures route[i].cluster != route[j].cluster && keys[route[i].cluster] == keys[route[j].cluster] ==>
              route[i].cluster < route[j].cluster
  {
    var order := ClusterOrder(keys);
    assert route[i] in route && route[j] in route;
    var a, b := Rank(order, route[i]), Rank(order, route[j]);
    assert a <= b;
    assert order[a] == route[i].cluster && order[b] == route[j].cluster;
    if a < b {
      assert keys[order[a]] >= keys[order[b]];
    }
  }

  /** Clusters are visited farthest from the school first, clusters at equal
      distance in ascending id order; a cluster's stops are never interleaved
      with another's. */
  lemma RouteVisitsFarthestFirst(dist: DistanceFn, points: seq<PickupPoint>, dest: Destination, fit: Clusters)
    requires |points| >= 1 && ValidFit(points, fit)
    ensures var route := Route(dist, points, dest, fit);
            var keys := Keys(dist, points, dest, fit);
            && (forall i :: 0 <= i < |route| ==> route[i].cluster < |keys|)
            && (forall i, j :: 0 <= i < j < |route| ==>
                  keys[route[i].cluster] >= keys[route[j].cluster])
            && (forall i, j :: 0 <= i < j < |route| ==>
                  (route[i].cluster != route[j].cluster && keys[route[i].cluster] == keys[route[j].cluster]) ==>
                    route[i].cluster < route[j].cluster)
            && Contiguous(route)
  {
    var order := Order(dist, points, dest, fit);
    var ts := Tagged(points, fit);
    var route := Route(dist, points, dest, fit);
    var keys := Keys(dist, points, dest, fit);
    OrderFacts(dist, points, dest, fit);
    ChainMembers(dist, order, ts, None);
    ChainFollowsOrder(dist, order, ts, None);
    ChainContiguous(dist, order, ts, None);
    forall i | 0 <= i < |route|
      ensures route[i].cluster < |keys|
    {
      assert route[i] in route;
    }
    forall i, j | 0 <= i < j < |route|
      ensures keys[route[i].cluster] >= keys[route[j].cluster]
      ensures route[i].cluster != route[j].cluster && keys[route[i].cluster] == keys[route[j].cluster] ==>
                route[i].cluster < route[j].cluster
    {
      PairFarthestFirst(keys, route, i, j);
    }
  }

  /** When every cluster has at least one point, each stop after the first is
      at least as near to the stop before it as every not yet visited stop of
      its own cluster. Which of equally near stops is taken is stated per
      cluster by `Tour.TourCharacterisation`, with `Chaining.ChainSplit`
      naming each cluster's entry point. */
  lemma RouteNearest(dist: DistanceFn, points: seq<PickupPoint>, dest: Destination, fit: Clusters)
    requires |points| >= 1 && ValidFit(points, fit)
    requires forall c: nat :: c < ClusterCount(|points|) ==> c in Grouping(points, fit).labels
    ensures NearestWithinCluster(dist, None, Route(dist, points, dest, fit))
  {
    var order := Order(dist, points, dest, fit);
    var ts := Tagged(points, fit);
    var labels := Grouping(points, fit).labels;
    OrderFacts(dist, points, dest, fit);
    forall c | c in order
      ensures Members(ts, c) != []
    {
      assert c < ClusterCount(|points|);
      assert c in labels;
      var i :| 0 <= i < |labels| && labels[i] == c;
      assert ts[i] in ts && ts[i].cluster == c;
      assert ts[i] in Members(ts, c);
    }
    ChainNearest(dist, order, ts, None);
  }

  lemma {:induction false} MembersOfOneCluster(ts: seq<Stop>, c: nat)
    requires forall i :: 0 <= i < |ts| ==> ts[i].cluster == c
    ensures Members(ts, c) == ts
    decreases |ts|
  {
    if ts != [] {
      MembersOfOneCluster(ts[1..], c);
      assert ts == [ts[0]] + ts[1..];
    }
  }

  /** With ten points or fewer the order is the single cluster 0. */
  lemma SmallGroupOrder(dist: DistanceFn, points: seq<PickupPoint>, dest: Destination, fit: Clusters)
    requires 1 <= |points| <= GroupSize
    ensures ValidFit(points, fit)
    ensures Order(dist, points, dest, fit) == [0]
  {
    var order := Order(dist, points, dest, fit);
    OrderFacts(dist, points, dest, fit);
    assert |order| == 1 by {
      ClusterOrderIsPermutation(Keys(dist, points, dest, fit));
    }
    assert 0 in order;
  }

  /** With ten points or fewer, every point carries label 0. */
  lemma SmallGroupTags(points: seq<PickupPoint>, fit: Clusters)
    requires 1 <= |points| <= GroupSize
    ensures ValidFit(points, fit)
    ensures var ts := Tagged(points, fit);
            |ts| == |points| && forall i :: 0 <= i < |ts| ==> ts[i] == Stop(points[i], 0)
  {
  }

  /** With ten points or fewer there is one cluster: the route is a single
      nearest-neighbour tour of all points, started at the northernmost. */
  lemma SmallGroupIsOneTour(dist: DistanceFn, points: seq<PickupPoint>, dest: Destination, fit: Clusters)
    requires 1 <= |points| <= GroupSize
    ensures ValidFit(points, fit)
    ensures var ts := Tagged(points, fit);
            && (forall i :: 0 <= i < |ts| ==> ts[i] == Stop(points[i], 0))
            && Route(dist, points, dest, fit) == NearestNeighbourTour(dist, ts, None)
  {
    SmallGroupOrder(dist, points, dest, fit);
    SmallGroupTags(points, fit);
    var order := Order(dist, points, dest, fit);
    var ts := Tagged(points, fit);
    MembersOfOneCluster(ts, 0);
    var tour := Head(dist, order, ts, None);
    assert tour == NearestNeighbourTour(dist, ts, None);
    assert order[1..] == [];
    assert Chain(dist, order, ts, None) == tour + Chain(dist, [], ts, Exit(tour));
  }

  /** `ejecutar_kmeans_tsp(puntos, destino, hora_salida, capacidad)`, the
      departure time given in minutes; `capacidad` does not influence the
      result. */
  function OptimiseRoute(dist: DistanceFn, provider: Provider, points: seq<PickupPoint>, dest: Destination,
                         departure: real, fit: Clusters): (r: RouteResult)
    requires |points| >= 1 && ValidFit(points, fit)
    ensures |r.stops| == |points|
    ensures r.totalMinutes == SumMinutes(r.stops)
    ensures r.totalKm == SumKm(r.stops)
    ensures r.parameters.clusterCount == ClusterCount(|points|)
    ensures r.parameters.sequencingMethod == SequencingMethod
    ensures r.parameters.totalPoints == r.parameters.capacityUsed == |points|
  {
    var route := Route(dist, points, dest, fit);
    var ws := Estimate(dist, provider, route, departure);
    EstimateWholeCents(dist, provider, route, departure);
    TotalKmExact(ws);
    RouteResult(ws, TotalKm(ws), TotalMinutes(ws),
                Parameters(ClusterCount(|points|), SequencingMethod, |points|, |points|))
  }

  /** Output record `w` reports pickup point `p` with label `c`. */
  ghost predicate Reports(w: Waypoint, p: PickupPoint, c: nat) {
    && w.confirmationId == p.confirmationId
    && w.childId == p.childId
    && w.address == p.address
    && w.coord == p.coord
    && w.cluster == c
  }

  /** Output record `k` reports the route's `k`-th stop, which is an input
      point tagged with its own label. */
  lemma StopIsAPoint(dist: DistanceFn, provider: Provider, points: seq<PickupPoint>, dest: Destination,
                     departure: real, fit: Clusters, k: nat)
    requires |points| >= 1 && ValidFit(points, fit)
    requires k < |points|
    ensures var route := Route(dist, points, dest, fit);
            k < |route| && Reports(Estimate(dist, provider, route, departure)[k], route[k].point, route[k].cluster)
    ensures exists i :: 0 <= i < |points| &&
              Reports(Estimate(dist, provider, Route(dist, points, dest, fit), departure)[k],
                      points[i], Grouping(points, fit).labels[i])
  {
    var route := Route(dist, points, dest, fit);
    var labels := Grouping(points, fit).labels;
    EstimateRecords(dist, provider, route, departure, k);
    RouteStopIsTagged(dist, points, dest, fit, k);
    var i :| 0 <= i < |points| && route[k] == Stop(points[i], labels[i]);
    assert Reports(Estimate(dist, provider, route, departure)[k], points[i], labels[i]);
  }

  /** Stop `k` of the route is some input point tagged with its own label. */
  lemma RouteStopIsTagged(dist: DistanceFn, points: seq<PickupPoint>, dest: Destination, fit: Clusters, k: nat)
    requires |points| >= 1 && ValidFit(points, fit)
    requires k < |points|
    ensures k < |Route(dist, points, dest, fit)|
    ensures exists i :: 0 <= i < |points| &&
              Route(dist, points, dest, fit)[k] == Stop(points[i], Grouping(points, fit).labels[i])
  {
    var route := Route(dist, points, dest, fit);
    var ts := Tagged(points, fit);
    assert route[k] in multiset(ts);
    var i :| 0 <= i < |ts| && ts[i] == route[k];
    assert ts[i] == Stop(points[i], Grouping(points, fit).labels[i]);
  }

  /** Input point `i`, with its label, is the stop at some position of the
      route, and the output record there reports it. */
  lemma PointIsAStop(dist: DistanceFn, provider: Provider, points: seq<PickupPoint>, dest: Destination,
                     departure: real, fit: Clusters, i: nat)
    requires |points| >= 1 && ValidFit(points, fit)
    requires i < |points|
    ensures exists k :: 0 <= k < |points| &&
              Reports(Estimate(dist, provider, Route(dist, points, dest, fit), departure)[k],
                      points[i], Grouping(points, fit).labels[i])
  {
    var route := Route(dist, points, dest, fit);
    var ts := Tagged(points, fit);
    assert ts[i] in multiset(route);
    var k :| 0 <= k < |route| && route[k] == ts[i];
    assert ts[i] == Stop(points[i], Grouping(points, fit).labels[i]);
    EstimateRecords(dist, provider, route, departure, k);
    assert Reports(Estimate(dist, provider, route, departure)[k], points[i], Grouping(points, fit).labels[i]);
  }

  /** Every output stop reports an input point with its own label as its
      cluster, and every input point is reported by an output stop. */
  lemma StopsAreThePoints(dist: DistanceFn, provider: Provider, points: seq<PickupPoint>, dest: Destination,
                          departure: real, fit: Clusters)
    requires |points| >= 1 && ValidFit(points, fit)
    ensures forall k :: 0 <= k < |points| ==>
              exists i :: 0 <= i < |points| &&
                Reports(OptimiseRoute(dist, provider, points, dest, departure, fit).stops[k],
                        points[i], Grouping(points, fit).labels[i])
    ensures forall i :: 0 <= i < |points| ==>
              exists k :: 0 <= k < |points| &&
                Reports(OptimiseRoute(dist, provider, points, dest, departure, fit).stops[k],
                        points[i], Grouping(points, fit).labels[i])
  {
    var stops := OptimiseRoute(dist, provider, points, dest, departure, fit).stops;
    assert stops == Estimate(dist, provider, Route(dist, points, dest, fit), departure);
    forall k | 0 <= k < |points|
      ensures exists i :: 0 <= i < |points| && Reports(stops[k], points[i], Grouping(points, fit).labels[i])
    {
      StopIsAPoint(dist, provider, points, dest, departure, fit, k);
    }
    forall i | 0 <= i < |points|
      ensures exists k :: 0 <= k < |points| && Reports(stops[k], points[i], Grouping(points, fit).labels[i])
    {
      PointIsAStop(dist, provider, points, dest, departure, fit, i);
    }
  }

  /** A single pickup point: one cluster, one stop, charged 0 km and 7
      minutes and reached 7 minutes after departure. */
  lemma SinglePoint(dist: DistanceFn, provider: Provider, p: PickupPoint, dest: Destination, departure: real, fit: Clusters)
    ensures ValidFit([p], fit)
    ensures OptimiseRoute(dist, provider, [p], dest, departure, fit) ==
            RouteResult([Waypoint(p.confirmationId, p.childId, p.address, p.coord, departure + 7.0, 0.0, 7, 0)],
                         0.0, 7, Parameters(1, SequencingMethod, 1, 1))
  {
    var route := Route(dist, [p], dest, fit);
    SmallGroupIsOneTour(dist, [p], dest, fit);
    var ts := Tagged([p], fit);
    assert ts == [Stop(p, 0)];
    SmallTours(dist, Stop(p, 0), None);
    assert route == [Stop(p, 0)];
    var ws := Estimate(dist, provider, route, departure);
    FirstStop(dist, provider, route, departure);
    EstimateRecords(dist, provider, route, departure, 0);
    assert ws == [Waypoint(p.confirmationId, p.childId, p.address, p.coord, departure + 7.0, 0.0, 7, 0)];
    assert ws[..0] == [];
    assert SumKm(ws) == 0.0;
    RoundCentsOfCents(0.0);
    assert SumMinutes(ws) == 7;
  }
}
