/** Step 4 of the route builder: cluster ids ordered by the distance from their
    centroid to the destination, farthest first. Python's `sorted(...,
    reverse=True)` is stable, so clusters at equal distance keep ascending id
    order; the result of that sort is computed here by insertion. */
module Sequencing {
  import opened Points

  /** `[lo, lo + 1, ..., hi - 1]`. */
  function Range(lo: nat, hi: nat): (r: seq<nat>)
    ensures |r| == if lo <= hi then hi - lo else 0
    ensures forall i :: 0 <= i < |r| ==> r[i] == lo + i
    decreases hi - lo
  {
    if lo >= hi then [] else [lo] + Range(lo + 1, hi)
  }

  /** Distance from each centroid to the destination, in cluster-id order. */
  function CentroidDistances(dist: DistanceFn, centroids: seq<Coord>, dest: Coord): (keys: seq<real>)
    ensures |keys| == |centroids|
    ensures forall i :: 0 <= i < |keys| ==> keys[i] == dist(centroids[i], dest)
  {
    seq(|centroids|, i requires 0 <= i < |centroids| => dist(centroids[i], dest))
  }

  /** Every id names a cluster that has a key. */
  ghost predicate KeyedIds(keys: seq<real>, ids: seq<nat>) {
    forall i :: 0 <= i < |ids| ==> ids[i] < |keys|
  }

  /** Cluster `a` is visited before cluster `b`: its centroid is farther, or
      equally far with the lower id. */
  predicate Precedes(keys: seq<real>, a: nat, b: nat)
    requires a < |keys| && b < |keys|
  {
    keys[a] > keys[b] || (keys[a] == keys[b] && a < b)
  }

  ghost predicate SortedFarthestFirst(keys: seq<real>, ids: seq<nat>) {
    && KeyedIds(keys, ids)
    && forall i, j :: 0 <= i < j < |ids| ==> Precedes(keys, ids[i], ids[j])
  }

  /** Inserts `x` in front of every id whose key is not larger than its own. */
  function Insert(keys: seq<real>, x: nat, sorted: seq<nat>): (r: seq<nat>)
    requires x < |keys| && KeyedIds(keys, sorted)
    ensures |r| == |sorted| + 1
    ensures forall y :: y in r <==> y == x || y in sorted
    ensures KeyedIds(keys, r)
  {
    if sorted == [] then [x]
    else if keys[x] >= keys[sorted[0]] then [x] + sorted
    else
      assert forall y :: y in sorted <==> y == sorted[0] || y in sorted[1..];
      [sorted[0]] + Insert(keys, x, sorted[1..])
  }

  lemma {:induction false} InsertMultiset(keys: seq<real>, x: nat, sorted: seq<nat>)
    requires x < |keys| && KeyedIds(keys, sorted)
    ensures multiset(Insert(keys, x, sorted)) == multiset(sorted) + multiset{x}
  {
    if sorted != [] && keys[x] < keys[sorted[0]] {
      InsertMultiset(keys, x, sorted[1..]);
      assert sorted == [sorted[0]] + sorted[1..];
    }
  }

  /** Inserting an id smaller than every sorted id keeps the list sorted: it
      goes after the farther clusters and before the equally far ones. */
  lemma {:induction false} InsertSorted(keys: seq<real>, x: nat, sorted: seq<nat>)
    requires x < |keys| && SortedFarthestFirst(keys, sorted)
    requires forall i :: 0 <= i < |sorted| ==> x < sorted[i]
    ensures SortedFarthestFirst(keys, Insert(keys, x, sorted))
  {
    if sorted != [] && keys[x] < keys[sorted[0]] {
      var tail := sorted[1..];
      assert SortedFarthestFirst(keys, tail) by {
        forall i, j | 0 <= i < j < |tail|
          ensures Precedes(keys, tail[i], tail[j])
        {
          assert tail[i] == sorted[i + 1] && tail[j] == sorted[j + 1];
        }
      }
      InsertSorted(keys, x, tail);
      var rest := Insert(keys, x, tail);
      var r := [sorted[0]] + rest;
      forall i, j | 0 <= i < j < |r|
        ensures Precedes(keys, r[i], r[j])
      {
        if i == 0 {
          assert r[j] in rest;
          if r[j] != x {
            var m :| 0 <= m < |tail| && tail[m] == r[j];
            assert sorted[m + 1] == r[j];
          }
        } else {
          assert r[i] == rest[i - 1] && r[j] == rest[j - 1];
        }
      }
    }
  }

  /** The stable descending sort of `ids` by key. */
  function SortFarthestFirst(keys: seq<real>, ids: seq<nat>): (r: seq<nat>)
    requires KeyedIds(keys, ids)
    ensures |r| == |ids|
    ensures forall y :: y in r <==> y in ids
    ensures KeyedIds(keys, r)
  {
    if ids == [] then []
    else
      assert forall y :: y in ids <==> y == ids[0] || y in ids[1..];
      Insert(keys, ids[0], SortFarthestFirst(keys, ids[1..]))
  }

  lemma {:induction false} SortMultiset(keys: seq<real>, ids: seq<nat>)
    requires KeyedIds(keys, ids)
    ensures multiset(SortFarthestFirst(keys, ids)) == multiset(ids)
  {
    if ids != [] {
      SortMultiset(keys, ids[1..]);
      InsertMultiset(keys, ids[0], SortFarthestFirst(keys, ids[1..]));
      assert ids == [ids[0]] + ids[1..];
    }
  }

  /** Sorting ids given in ascending order yields the farthest-first order
      with ties in ascending id order. */
  lemma {:induction false} SortSorted(keys: seq<real>, ids: seq<nat>)
    requires KeyedIds(keys, ids)
    requires forall i, j :: 0 <= i < j < |ids| ==> ids[i] < ids[j]
    ensures SortedFarthestFirst(keys, SortFarthestFirst(keys, ids))
  {
    if ids != [] {
      var tail := ids[1..];
      assert forall i, j :: 0 <= i < j < |tail| ==> tail[i] < tail[j] by {
        forall i, j | 0 <= i < j < |tail|
          ensures tail[i] < tail[j]
        {
          assert tail[i] == ids[i + 1] && tail[j] == ids[j + 1];
        }
      }
      SortSorted(keys, tail);
      var rest := SortFarthestFirst(keys, tail);
      forall i | 0 <= i < |rest|
        ensures ids[0] < rest[i]
      {
        assert rest[i] in tail;
        var m :| 0 <= m < |tail| && tail[m] == rest[i];
        assert ids[m + 1] == rest[i];
      }
      InsertSorted(keys, ids[0], rest);
    }
  }

  /** `clusters_ordenados`: cluster ids 0..k-1, farthest centroid first, ties
      in ascending id order. */
  function ClusterOrder(keys: seq<real>): (order: seq<nat>)
    ensures multiset(order) == multiset(Range(0, |keys|))
    ensures forall i :: 0 <= i < |order| ==> order[i] < |keys|
    ensures forall i, j :: 0 <= i < j < |order| ==> keys[order[i]] >= keys[order[j]]
    ensures forall i, j :: 0 <= i < j < |order| && keys[order[i]] == keys[order[j]] ==> order[i] < order[j]
  {
    SortMultiset(keys, Range(0, |keys|));
    SortSorted(keys, Range(0, |keys|));
    SortFarthestFirst(keys, Range(0, |keys|))
  }

  lemma SortedTail(keys: seq<real>, a: seq<nat>)
    requires SortedFarthestFirst(keys, a) && a != []
    ensures SortedFarthestFirst(keys, a[1..])
  {
    var tail := a[1..];
    forall i, j | 0 <= i < j < |tail|
      ensures Precedes(keys, tail[i], tail[j])
    {
      assert tail[i] == a[i + 1] && tail[j] == a[j + 1];
    }
  }

  /** The first of a sorted list is at least as far as any element, and of
      equally far ones it has the lowest id. */
  lemma SortedFirst(keys: seq<real>, a: seq<nat>, x: nat)
    requires SortedFarthestFirst(keys, a) && x in a
    ensures a[0] < |keys| && x < |keys|
    ensures keys[a[0]] >= keys[x]
    ensures keys[a[0]] == keys[x] ==> a[0] <= x
  {
    var j :| 0 <= j < |a| && a[j] == x;
    if j > 0 {
      assert Precedes(keys, a[0], a[j]);
    }
  }

  /** Two sorted lists with the same elements start alike. */
  lemma SortedHeads(keys: seq<real>, a: seq<nat>, b: seq<nat>)
    requires SortedFarthestFirst(keys, a) && SortedFarthestFirst(keys, b)
    requires a != [] && b != [] && multiset(a) == multiset(b)
    ensures a[0] == b[0]
  {
    assert a[0] in multiset(b);
    assert b[0] in multiset(a);
    SortedFirst(keys, a, b[0]);
    SortedFirst(keys, b, a[0]);
  }

  /** Two lists sorted by `Precedes` with the same elements are the same list. */
  lemma {:induction false} SortedUnique(keys: seq<real>, a: seq<nat>, b: seq<nat>)
    requires SortedFarthestFirst(keys, a) && SortedFarthestFirst(keys, b)
    requires multiset(a) == multiset(b)
    ensures a == b
    decreases |a|
  {
    assert |b| == |a| by { assert |multiset(a)| == |a| && |multiset(b)| == |b|; }
    if a != [] {
      SortedHeads(keys, a, b);
      SortedTail(keys, a);
      SortedTail(keys, b);
      assert a == [a[0]] + a[1..] && b == [b[0]] + b[1..];
      assert multiset(a[1..]) == multiset(a) - multiset{a[0]};
      assert multiset(b[1..]) == multiset(b) - multiset{b[0]};
      SortedUnique(keys, a[1..], b[1..]);
    }
  }

  /** The four properties of `ClusterOrder` pin it down: any permutation of
      0..k-1 that is farthest-first with ties in id order IS the order. */
  lemma ClusterOrderUnique(keys: seq<real>, other: seq<nat>)
    requires multiset(other) == multiset(Range(0, |keys|))
    requires forall i :: 0 <= i < |other| ==> other[i] < |keys|
    requires forall i, j :: 0 <= i < j < |other| ==> keys[other[i]] >= keys[other[j]]
    requires forall i, j :: 0 <= i < j < |other| && keys[other[i]] == keys[other[j]] ==> other[i] < other[j]
    ensures other == ClusterOrder(keys)
  {
    var order := ClusterOrder(keys);
    forall i, j | 0 <= i < j < |other|
      ensures Precedes(keys, other[i], other[j])
    {
    }
    forall i, j | 0 <= i < j < |order|
      ensures Precedes(keys, order[i], order[j])
    {
    }
    SortedUnique(keys, other, order);
  }

  /** The order names every cluster exactly once. */
  lemma ClusterOrderIsPermutation(keys: seq<real>)
    ensures var order := ClusterOrder(keys);
            && |order| == |keys|
            && (forall c: nat :: c in order <==> c < |keys|)
            && (forall i, j :: 0 <= i < j < |order| ==> order[i] != order[j])
  {
    var order := ClusterOrder(keys);
    var r := Range(0, |keys|);
    assert |r| == |keys|;
    assert |order| == |keys| by { assert |multiset(order)| == |order| && |multiset(r)| == |r|; }
    forall c: nat
      ensures c in order <==> c < |keys|
    {
      assert c in order <==> c in multiset(r);
      if c < |keys| {
        assert r[c] == c;
      }
    }
  }
}
