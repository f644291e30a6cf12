/** Step 5 of the route builder: the clusters are visited in the sequenced
    order, each cluster's stops by a nearest-neighbour tour, and the last stop
    of one tour is the entry point of the next. */
module Chaining {
  import opened Wrappers
  import opened Points
  import opened Selection
  import opened Tour

  /** Every point with its own label written as its cluster. */
  function Tag(points: seq<PickupPoint>, labels: seq<nat>): (ts: seq<Stop>)
    requires |labels| == |points|
    ensures |ts| == |points|
    ensures forall i :: 0 <= i < |ts| ==> ts[i] == Stop(points[i], labels[i])
  {
    seq(|points|, i requires 0 <= i < |points| => Stop(points[i], labels[i]))
  }

  /** The stops labelled `c`, in input order (`np.where(labels == cluster_id)`). */
  function Members(ts: seq<Stop>, c: nat): (m: seq<Stop>)
    ensures forall s :: s in m <==> s in ts && s.cluster == c
    decreases |ts|
  {
    if ts == [] then []
    else
      assert forall s :: s in ts <==> s == ts[0] || s in ts[1..];
      (if ts[0].cluster == c then [ts[0]] else []) + Members(ts[1..], c)
  }

  /** `Members` keeps input order and multiplicity: selecting from `a + b`
      selects from `a`, then from `b`. */
  lemma {:induction false} MembersAppend(a: seq<Stop>, b: seq<Stop>, c: nat)
    ensures Members(a + b, c) == Members(a, c) + Members(b, c)
    decreases |a|
  {
    if a == [] {
      assert a + b == b;
    } else {
      assert (a + b)[0] == a[0];
      assert (a + b)[1..] == a[1..] + b;
      MembersAppend(a[1..], b, c);
    }
  }

  /** A single stop is selected iff it carries the label. */
  lemma MembersSingle(s: Stop, c: nat)
    ensures Members([s], c) == if s.cluster == c then [s] else []
  {
    assert [s][1..] == [];
  }

  /** The stops whose cluster is listed in `ids`, in input order. */
  function Restrict(ts: seq<Stop>, ids: seq<nat>): seq<Stop>
    decreases |ts|
  {
    if ts == [] then []
    else (if ts[0].cluster in ids then [ts[0]] else []) + Restrict(ts[1..], ids)
  }

  lemma {:induction false} RestrictSplit(ts: seq<Stop>, c: nat, ids: seq<nat>)
    requires c !in ids
    ensures multiset(Restrict(ts, [c] + ids)) == multiset(Members(ts, c)) + multiset(Restrict(ts, ids))
    decreases |ts|
  {
    if ts != [] {
      RestrictSplit(ts[1..], c, ids);
      assert ts[0].cluster in [c] + ids <==> ts[0].cluster == c || ts[0].cluster in ids;
    }
  }

  lemma {:induction false} RestrictNone(ts: seq<Stop>)
    ensures Restrict(ts, []) == []
    decreases |ts|
  {
    if ts != [] {
      RestrictNone(ts[1..]);
    }
  }

  lemma {:induction false} RestrictAll(ts: seq<Stop>, ids: seq<nat>)
    requires forall i :: 0 <= i < |ts| ==> ts[i].cluster in ids
    ensures Restrict(ts, ids) == ts
    decreases |ts|
  {
    if ts != [] {
      assert forall i :: 0 <= i < |ts[1..]| ==> ts[1..][i] == ts[i + 1];
      RestrictAll(ts[1..], ids);
      assert ts == [ts[0]] + ts[1..];
    }
  }

  /** The tour of the first cluster of `order`. */
  function Head(dist: DistanceFn, order: seq<nat>, ts: seq<Stop>, entry: Option<Stop>): seq<Stop>
    requires order != []
  {
    NearestNeighbourTour(dist, Members(ts, order[0]), entry)
  }

  /** The entry point a tour hands to the next cluster: its last stop, or
      none when it is empty (`ultimo_punto = None` for an empty cluster). */
  function Exit(tour: seq<Stop>): Option<Stop> {
    if tour == [] then None else Some(tour[|tour| - 1])
  }

  /** The loop over `clusters_ordenados`: each cluster's tour appended in turn,
      the exit of one tour being the entry point of the next. */
  function Chain(dist: DistanceFn, order: seq<nat>, ts: seq<Stop>, entry: Option<Stop>): seq<Stop>
    decreases |order|
  {
    if order == [] then []
    else
      var tour := Head(dist, order, ts, entry);
      tour + Chain(dist, order[1..], ts, Exit(tour))
  }

  /** Every stop of the head tour belongs to the first cluster. */
  lemma HeadInCluster(dist: DistanceFn, order: seq<nat>, ts: seq<Stop>, entry: Option<Stop>)
    requires order != []
    ensures forall s :: s in Head(dist, order, ts, entry) ==> s in ts && s.cluster == order[0]
  {
    var m := Members(ts, order[0]);
    forall s | s in Head(dist, order, ts, entry)
      ensures s in ts && s.cluster == order[0]
    {
      assert s in multiset(m);
    }
  }

  /** Dropping the first id of a list without repeats leaves a list without
      repeats that does not hold it. */
  lemma DistinctTail(order: seq<nat>)
    requires Distinct(order) && order != []
    ensures Distinct(order[1..]) && order[0] !in order[1..]
  {
    var tail := order[1..];
    forall i, j | 0 <= i < j < |tail|
      ensures tail[i] != tail[j]
    {
      assert tail[i] == order[i + 1] && tail[j] == order[j + 1];
    }
  }

  /** The route holds input stops only, each of a cluster in the order. */
  lemma {:induction false} ChainMembers(dist: DistanceFn, order: seq<nat>, ts: seq<Stop>, entry: Option<Stop>)
    ensures forall s :: s in Chain(dist, order, ts, entry) ==> s in ts && s.cluster in order
    decreases |order|
  {
    if order != [] {
      var tour := Head(dist, order, ts, entry);
      var rest := Chain(dist, order[1..], ts, Exit(tour));
      ChainMembers(dist, order[1..], ts, Exit(tour));
      HeadInCluster(dist, order, ts, entry);
      assert Chain(dist, order, ts, entry) == tour + rest;
      forall s | s in rest
        ensures s.cluster in order
      {
        var m :| 0 <= m < |order[1..]| && order[1..][m] == s.cluster;
        assert order[m + 1] == s.cluster;
      }
    }
  }

  /** An empty cluster resets the entry point: the next cluster starts at its
      northernmost stop again. */
  lemma EmptyClusterResetsEntry(dist: DistanceFn, order: seq<nat>, ts: seq<Stop>, entry: Option<Stop>)
    requires order != [] && Members(ts, order[0]) == []
    ensures Chain(dist, order, ts, entry) == Chain(dist, order[1..], ts, None)
  {
  }

  /** With every cluster id listed once, the route holds exactly the stops of
      the listed clusters, each as often as in the input. */
  lemma {:induction false} ChainPermutation(dist: DistanceFn, order: seq<nat>, ts: seq<Stop>, entry: Option<Stop>)
    requires Distinct(order)
    ensures multiset(Chain(dist, order, ts, entry)) == multiset(Restrict(ts, order))
    decreases |order|
  {
    if order != [] {
      var tour := Head(dist, order, ts, entry);
      var tail := order[1..];
      DistinctTail(order);
      ChainPermutation(dist, tail, ts, Exit(tour));
      RestrictSplit(ts, order[0], tail);
      var rest := Chain(dist, tail, ts, Exit(tour));
      assert Chain(dist, order, ts, entry) == tour + rest;
      assert order == [order[0]] + tail;
      assert Restrict(ts, [order[0]] + tail) == Restrict(ts, order);
      calc {
        multiset(tour + rest);
        multiset(tour) + multiset(rest);
        multiset(Members(ts, order[0])) + multiset(Restrict(ts, tail));
        multiset(Restrict(ts, order));
      }
    } else {
      RestrictNone(ts);
    }
  }

  /** The route starts with the first cluster's tour, whose stops are all of
      that cluster, and continues with stops of the later clusters only. */
  lemma ChainSplit(dist: DistanceFn, order: seq<nat>, ts: seq<Stop>, entry: Option<Stop>)
    requires order != [] && Distinct(order)
    ensures var tour := Head(dist, order, ts, entry);
            var rest := Chain(dist, order[1..], ts, Exit(tour));
            && Chain(dist, order, ts, entry) == tour + rest
            && (forall s :: s in tour ==> s.cluster == order[0])
            && (forall s :: s in rest ==> s.cluster in order[1..] && s.cluster != order[0])
  {
    var tour := Head(dist, order, ts, entry);
    DistinctTail(order);
    ChainMembers(dist, order[1..], ts, Exit(tour));
    HeadInCluster(dist, order, ts, entry);
  }

  /** Position of a stop's cluster in the visiting order (past the end for a
      cluster not in it). */
  function Rank(order: seq<nat>, s: Stop): nat {
    if s.cluster in order then IndexOf(order, s.cluster) else |order|
  }

  lemma RankOfFirst(order: seq<nat>, s: Stop)
    requires order != [] && s.cluster == order[0]
    ensures Rank(order, s) == 0
  {
  }

  /** Ranks in `order[1..]` are one less than in `order` for every cluster
      other than the first. */
  lemma RankInTail(order: seq<nat>, s: Stop)
    requires order != [] && s.cluster in order[1..] && s.cluster != order[0]
    ensures Rank(order, s) == 1 + Rank(order[1..], s)
  {
  }

  /** A stop never follows a stop of a cluster visited later. */
  ghost predicate FollowsOrder(order: seq<nat>, route: seq<Stop>) {
    forall i, j :: 0 <= i < j < |route| ==> Rank(order, route[i]) <= Rank(order, route[j])
  }

  lemma FollowsOrderAppend(order: seq<nat>, tour: seq<Stop>, rest: seq<Stop>)
    requires order != []
    requires forall s :: s in tour ==> s.cluster == order[0]
    requires forall s :: s in rest ==> s.cluster in order[1..] && s.cluster != order[0]
    requires FollowsOrder(order[1..], rest)
    ensures FollowsOrder(order, tour + rest)
  {
    var route := tour + rest;
    forall i, j | 0 <= i < j < |route|
      ensures Rank(order, route[i]) <= Rank(order, route[j])
    {
      if i < |tour| {
        assert route[i] in tour;
        RankOfFirst(order, route[i]);
      } else {
        var a, b := rest[i - |tour|], rest[j - |tour|];
        assert route[i] == a && route[j] == b;
        RankInTail(order, a);
        RankInTail(order, b);
      }
    }
  }

  /** Clusters appear along the route in the visiting order. */
  lemma {:induction false} ChainFollowsOrder(dist: DistanceFn, order: seq<nat>, ts: seq<Stop>, entry: Option<Stop>)
    requires Distinct(order)
    ensures FollowsOrder(order, Chain(dist, order, ts, entry))
    decreases |order|
  {
    if order != [] {
      var tour := Head(dist, order, ts, entry);
      ChainSplit(dist, order, ts, entry);
      DistinctTail(order);
      ChainFollowsOrder(dist, order[1..], ts, Exit(tour));
      FollowsOrderAppend(order, tour, Chain(dist, order[1..], ts, Exit(tour)));
    }
  }

  /** A stop between two stops of one cluster is of that cluster too. */
  ghost predicate Contiguous(route: seq<Stop>) {
    forall i, j, l :: 0 <= i < j < l < |route| && route[i].cluster == route[l].cluster ==>
      route[j].cluster == route[i].cluster
  }

  lemma ContiguousAppend(c: nat, tour: seq<Stop>, rest: seq<Stop>)
    requires forall s :: s in tour ==> s.cluster == c
    requires forall s :: s in rest ==> s.cluster != c
    requires Contiguous(rest)
    ensures Contiguous(tour + rest)
  {
    var route := tour + rest;
    var m := |tour|;
    forall i, l | 0 <= i < m <= l < |route|
      ensures route[i].cluster != route[l].cluster
    {
      assert route[i] in tour && route[l] == rest[l - m] && route[l] in rest;
    }
    forall i, j, l | 0 <= i < j < l < |route| && route[i].cluster == route[l].cluster
      ensures route[j].cluster == route[i].cluster
    {
      if l < m {
        assert route[i] in tour && route[j] in tour && route[l] in tour;
      } else if i >= m {
        assert route[i] == rest[i - m] && route[j] == rest[j - m] && route[l] == rest[l - m];
      }
    }
  }

  /** Every cluster forms one contiguous block of the route. */
  lemma {:induction false} ChainContiguous(dist: DistanceFn, order: seq<nat>, ts: seq<Stop>, entry: Option<Stop>)
    requires Distinct(order)
    ensures Contiguous(Chain(dist, order, ts, entry))
    decreases |order|
  {
    if order != [] {
      var tour := Head(dist, order, ts, entry);
      ChainSplit(dist, order, ts, entry);
      DistinctTail(order);
      ChainContiguous(dist, order[1..], ts, Exit(tour));
      ContiguousAppend(order[0], tour, Chain(dist, order[1..], ts, Exit(tour)));
    }
  }

  /** `route[i]`, if it has a predecessor and `route[j]` is in its cluster, is
      at least as near to that predecessor as `route[j]`. */
  ghost predicate NoFartherInCluster(dist: DistanceFn, from: Option<Stop>, route: seq<Stop>, i: nat, j: nat)
    requires i <= j < |route|
  {
    route[j].cluster == route[i].cluster ==> NoFartherThan(dist, from, route, i, j)
  }

  /** Each stop is the nearest to the stop visited before it among the stops
      of its cluster not yet visited. */
  ghost predicate NearestWithinCluster(dist: DistanceFn, from: Option<Stop>, route: seq<Stop>) {
    forall i, j :: 0 <= i <= j < |route| ==> NoFartherInCluster(dist, from, route, i, j)
  }

  lemma NearestAppend(dist: DistanceFn, entry: Option<Stop>, c: nat, tour: seq<Stop>, rest: seq<Stop>)
    requires tour != []
    requires forall s :: s in tour ==> s.cluster == c
    requires forall s :: s in rest ==> s.cluster != c
    requires NearestNext(dist, entry, tour)
    requires NearestWithinCluster(dist, Exit(tour), rest)
    ensures NearestWithinCluster(dist, entry, tour + rest)
  {
    var route := tour + rest;
    var m := |tour|;
    forall i, j | 0 <= i <= j < |route|
      ensures NoFartherInCluster(dist, entry, route, i, j)
    {
      if i < m {
        assert route[i] == tour[i] && route[i] in tour;
        if j < m {
          assert route[j] == tour[j];
          assert NoFartherThan(dist, entry, tour, i, j);
          assert Pred(entry, route, i) == Pred(entry, tour, i);
        } else {
          assert route[j] == rest[j - m] && route[j] in rest;
        }
      } else {
        assert route[i] == rest[i - m] && route[j] == rest[j - m];
        assert NoFartherInCluster(dist, Exit(tour), rest, i - m, j - m);
        assert Pred(entry, route, i) == Pred(Exit(tour), rest, i - m);
      }
    }
  }

  /** When no cluster in the order is empty, the entry point of every cluster
      is the last stop of the previous one, so each stop is the nearest
      unvisited stop of its cluster to the stop before it (the very first one
      to `entry`, when there is one). */
  lemma {:induction false} ChainNearest(dist: DistanceFn, order: seq<nat>, ts: seq<Stop>, entry: Option<Stop>)
    requires Distinct(order)
    requires forall c :: c in order ==> Members(ts, c) != []
    ensures NearestWithinCluster(dist, entry, Chain(dist, order, ts, entry))
    decreases |order|
  {
    if order != [] {
      var tour := Head(dist, order, ts, entry);
      var tail := order[1..];
      assert tour != [] by {
        assert |Members(ts, order[0])| > 0;
      }
      ChainSplit(dist, order, ts, entry);
      DistinctTail(order);
      assert forall c :: c in tail ==> c in order;
      ChainNearest(dist, tail, ts, Exit(tour));
      NearestAppend(dist, entry, order[0], tour, Chain(dist, tail, ts, Exit(tour)));
    }
  }
}
