/** How many clusters the route builder asks for, and the labels and centroids
    it works with afterwards. The k-means fit itself (random seeding, restarts)
    is not modelled: when more than one cluster is asked for, its labels and
    centroids are an input. */
module Clustering {
  import opened Points

  /** Children per cluster the builder aims for. */
  const GroupSize: nat := 10

  /** `max(1, min(ceil(n / 10), n))`. */
  function ClusterCount(n: nat): (k: nat)
    ensures n >= 1 ==> 1 <= k <= n
    ensures n <= GroupSize ==> k == 1
    ensures n >= 1 ==> GroupSize * (k - 1) < n <= GroupSize * k
  {
    var groups := (n + GroupSize - 1) / GroupSize;
    var capped := if groups <= n then groups else n;
    if capped >= 1 then capped else 1
  }

  /** Sum of one component over a list of coordinates. */
  function Total(cs: seq<Coord>, part: Coord -> real): real
    decreases |cs|
  {
    if cs == [] then 0.0 else Total(cs[..|cs| - 1], part) + part(cs[|cs| - 1])
  }

  /** `np.mean(coordenadas, axis=0)`: the component-wise arithmetic mean. */
  function Mean(cs: seq<Coord>): Coord
    requires |cs| > 0
  {
    Coord(Total(cs, Latitude) / |cs| as real, Total(cs, Longitude) / |cs| as real)
  }

  lemma {:induction false} TotalBounds(cs: seq<Coord>, part: Coord -> real, lo: real, hi: real)
    requires forall i :: 0 <= i < |cs| ==> lo <= part(cs[i]) <= hi
    ensures |cs| as real * lo <= Total(cs, part) <= |cs| as real * hi
    decreases |cs|
  {
    if cs != [] {
      var init := cs[..|cs| - 1];
      forall i | 0 <= i < |init|
        ensures lo <= part(init[i]) <= hi
      {
        assert init[i] == cs[i];
      }
      TotalBounds(init, part, lo, hi);
      assert |cs| as real * lo == |init| as real * lo + lo;
      assert |cs| as real * hi == |init| as real * hi + hi;
    }
  }

  lemma MeanBounded(n: real, total: real, lo: real, hi: real)
    requires n > 0.0 && n * lo <= total <= n * hi
    ensures lo <= total / n <= hi
  {
    assert total / n * n == total;
  }

  /** A bound every point's component meets, the mean of that component meets. */
  lemma AverageBounded(cs: seq<Coord>, part: Coord -> real, lo: real, hi: real)
    requires |cs| > 0
    requires forall i :: 0 <= i < |cs| ==> lo <= part(cs[i]) <= hi
    ensures lo <= Total(cs, part) / |cs| as real <= hi
  {
    TotalBounds(cs, part, lo, hi);
    MeanBounded(|cs| as real, Total(cs, part), lo, hi);
  }

  /** The single-cluster centroid lies inside the bounding box of the points:
      a latitude bound (or longitude bound) that every point meets, the mean
      meets too. */
  lemma MeanWithinBounds(cs: seq<Coord>, south: real, north: real, west: real, east: real)
    requires |cs| > 0
    requires forall i :: 0 <= i < |cs| ==> south <= cs[i].lat <= north && west <= cs[i].lon <= east
    ensures south <= Mean(cs).lat <= north
    ensures west <= Mean(cs).lon <= east
  {
    assert forall i :: 0 <= i < |cs| ==> south <= Latitude(cs[i]) <= north;
    assert forall i :: 0 <= i < |cs| ==> west <= Longitude(cs[i]) <= east;
    AverageBounded(cs, Latitude, south, north);
    AverageBounded(cs, Longitude, west, east);
  }

  /** Points that all sit at one coordinate have that coordinate as centroid. */
  lemma MeanOfCoincidentPoints(cs: seq<Coord>, c: Coord)
    requires |cs| > 0
    requires forall i :: 0 <= i < |cs| ==> cs[i] == c
    ensures Mean(cs) == c
  {
    MeanWithinBounds(cs, c.lat, c.lat, c.lon, c.lon);
  }

  /** What clustering hands on: a label per point and a centroid per cluster. */
  datatype Clusters = Clusters(labels: seq<nat>, centroids: seq<Coord>)

  /** `c` labels `n` points with cluster ids below `k` and has `k` centroids. */
  predicate Partitions(c: Clusters, n: nat, k: nat) {
    && |c.labels| == n
    && |c.centroids| == k
    && forall i :: 0 <= i < n ==> c.labels[i] < k
  }

  /** Step 3 of the builder: with one cluster every label is 0 and the centroid
      is the mean of all points; otherwise the k-means `fit` is used as it is. */
  function AssignClusters(coords: seq<Coord>, fit: Clusters): (c: Clusters)
    requires |coords| >= 1
    requires ClusterCount(|coords|) > 1 ==> Partitions(fit, |coords|, ClusterCount(|coords|))
    ensures Partitions(c, |coords|, ClusterCount(|coords|))
    ensures ClusterCount(|coords|) == 1 ==>
              && c.centroids == [Mean(coords)]
              && forall i :: 0 <= i < |c.labels| ==> c.labels[i] == 0
    ensures ClusterCount(|coords|) > 1 ==> c == fit
  {
    if ClusterCount(|coords|) > 1 then fit
    else Clusters(seq(|coords|, _ => 0), [Mean(coords)])
  }
}
