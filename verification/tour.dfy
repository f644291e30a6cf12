/** `resolver_tsp_vecino_cercano`: the nearest-neighbour tour through the stops
    of one cluster. */
module Tour {
  import opened Wrappers
  import opened Points
  import opened Selection

  /** Distance from `from` to a candidate: the key of every `min` in the tour. */
  function NearKey(dist: DistanceFn, from: Stop): Stop -> real {
    s => Dist(dist, from, s)
  }

  /** Index of the first stop: the one nearest the entry point when there is
      one, else the northernmost (largest latitude). */
  function StartIndex(dist: DistanceFn, ps: seq<Stop>, entry: Option<Stop>): (i: nat)
    requires |ps| > 0
    ensures i < |ps|
  {
    match entry
    case None => ArgMax(ps, Lat)
    case Some(e) => ArgMin(ps, NearKey(dist, e))
  }

  /** The stop visited just before position `i` of `g`, `from` being the one
      before `g[0]` (if any). */
  function Pred(from: Option<Stop>, g: seq<Stop>, i: nat): Option<Stop>
    requires i <= |g|
  {
    if i == 0 then from else Some(g[i - 1])
  }

  /** `g[i]`, if it has a predecessor, is at least as near to it as `g[j]`. */
  ghost predicate NoFartherThan(dist: DistanceFn, from: Option<Stop>, g: seq<Stop>, i: nat, j: nat)
    requires i <= j < |g|
  {
    Pred(from, g, i).Some? ==>
      Dist(dist, Pred(from, g, i).value, g[i]) <= Dist(dist, Pred(from, g, i).value, g[j])
  }

  /** Every stop that has a predecessor is at least as near to it as any stop
      visited later. */
  ghost predicate NearestNext(dist: DistanceFn, from: Option<Stop>, g: seq<Stop>) {
    forall i, j :: 0 <= i <= j < |g| ==> NoFartherThan(dist, from, g, i, j)
  }

  lemma PrependNearest(dist: DistanceFn, from: Option<Stop>, x: Stop, g: seq<Stop>)
    requires from.Some? ==> forall y :: y in g ==> Dist(dist, from.value, x) <= Dist(dist, from.value, y)
    requires NearestNext(dist, Some(x), g)
    ensures NearestNext(dist, from, [x] + g)
  {
    var xg := [x] + g;
    forall i, j | 0 <= i <= j < |xg|
      ensures NoFartherThan(dist, from, xg, i, j)
    {
      if i == 0 {
        if j > 0 {
          assert xg[j] == g[j - 1];
          assert g[j - 1] in g;
        }
      } else {
        assert NoFartherThan(dist, Some(x), g, i - 1, j - 1);
        assert Pred(from, xg, i) == Pred(Some(x), g, i - 1);
        assert xg[i] == g[i - 1] && xg[j] == g[j - 1];
      }
    }
  }

  /** A stop chosen by `min` over `rest` is no farther than anything left in
      `rest` once it is removed. */
  lemma ChosenIsNearest(dist: DistanceFn, from: Stop, rest: seq<Stop>, tail: seq<Stop>)
    requires |rest| > 0
    requires multiset(tail) == multiset(RemoveFirst(rest, rest[ArgMin(rest, NearKey(dist, from))]))
    ensures forall y :: y in tail ==>
              Dist(dist, from, rest[ArgMin(rest, NearKey(dist, from))]) <= Dist(dist, from, y)
  {
    var i := ArgMin(rest, NearKey(dist, from));
    RemoveFirstMultiset(rest, rest[i]);
    forall y | y in tail
      ensures Dist(dist, from, rest[i]) <= Dist(dist, from, y)
    {
      assert y in multiset(tail);
      assert y in rest;
      var m :| 0 <= m < |rest| && rest[m] == y;
      assert NearKey(dist, from)(rest[i]) <= NearKey(dist, from)(rest[m]);
    }
  }

  /** The `while puntos_restantes` loop: from `cur`, repeatedly take the
      nearest remaining stop (first wins) and remove it. */
  function Greedy(dist: DistanceFn, cur: Stop, rest: seq<Stop>): (g: seq<Stop>)
    ensures |g| == |rest|
    ensures multiset(g) == multiset(rest)
    ensures NearestNext(dist, Some(cur), g)
    decreases |rest|
  {
    if rest == [] then []
    else
      var next := rest[ArgMin(rest, NearKey(dist, cur))];
      var tail := Greedy(dist, next, RemoveFirst(rest, next));
      RemoveFirstMultiset(rest, next);
      ChosenIsNearest(dist, cur, rest, tail);
      PrependNearest(dist, Some(cur), next, tail);
      [next] + tail
  }

  /** The tour of one cluster, started next to `entry` (the last stop of the
      previous cluster) when there is one. */
  function NearestNeighbourTour(dist: DistanceFn, ps: seq<Stop>, entry: Option<Stop>): (t: seq<Stop>)
    ensures |t| == |ps|
    ensures multiset(t) == multiset(ps)
    ensures |ps| <= 1 ==> t == ps
    ensures NearestNext(dist, entry, t)
  {
    if |ps| == 0 then []
    else if |ps| == 1 then ps
    else
      var first := ps[StartIndex(dist, ps, entry)];
      var tail := Greedy(dist, first, RemoveFirst(ps, first));
      RemoveFirstMultiset(ps, first);
      assert entry.Some? ==> forall y :: y in tail ==> Dist(dist, entry.value, first) <= Dist(dist, entry.value, y) by {
        if entry.Some? {
          ChosenIsNearest(dist, entry.value, ps, tail);
        }
      }
      PrependNearest(dist, entry, first, tail);
      [first] + tail
  }

  /** `g` is what first-wins nearest choices produce: each `g[k]` is the first
      nearest, to the stop before it, of the stops not yet placed (in the order
      `list.remove` leaves them). */
  ghost predicate GreedyChoices(dist: DistanceFn, from: Stop, rest: seq<Stop>, g: seq<Stop>) {
    && |g| == |rest|
    && forall k :: 0 <= k < |g| ==> ChoiceAt(dist, from, rest, g, k)
  }

  /** `g[k]` is the first nearest, to the stop before it, of the stops of
      `rest` not placed by `g[..k]`. */
  ghost predicate ChoiceAt(dist: DistanceFn, from: Stop, rest: seq<Stop>, g: seq<Stop>, k: nat)
    requires k < |g|
  {
    IsFirstMin(RemoveAll(rest, g[..k]), NearKey(dist, Pred(Some(from), g, k).value), g[k])
  }

  /** Which stop a tour starts at. */
  ghost predicate StartRule(dist: DistanceFn, ps: seq<Stop>, entry: Option<Stop>, x: Stop) {
    match entry
    case None => IsFirstMax(ps, Lat, x)
    case Some(e) => IsFirstMin(ps, NearKey(dist, e), x)
  }

  /** The nearest-neighbour tour described without reference to the algorithm. */
  ghost predicate IsNearestNeighbourTour(dist: DistanceFn, ps: seq<Stop>, entry: Option<Stop>, t: seq<Stop>) {
    && |t| == |ps|
    && (|ps| > 0 ==>
          && StartRule(dist, ps, entry, t[0])
          && GreedyChoices(dist, t[0], RemoveFirst(ps, t[0]), t[1..]))
  }

  lemma RemoveAllPrefix(rest: seq<Stop>, g: seq<Stop>, k: nat)
    requires 0 < k <= |g|
    ensures RemoveAll(rest, g[..k]) == RemoveAll(RemoveFirst(rest, g[0]), g[1..][..k - 1])
  {
    assert g[..k][0] == g[0];
    assert g[..k][1..] == g[1..][..k - 1];
  }

  lemma {:induction false} GreedyMakesChoices(dist: DistanceFn, from: Stop, rest: seq<Stop>)
    ensures GreedyChoices(dist, from, rest, Greedy(dist, from, rest))
    decreases |rest|
  {
    var g := Greedy(dist, from, rest);
    if rest != [] {
      var next := rest[ArgMin(rest, NearKey(dist, from))];
      var rest' := RemoveFirst(rest, next);
      var tail := Greedy(dist, next, rest');
      assert g == [next] + tail;
      GreedyMakesChoices(dist, next, rest');
      forall k | 0 <= k < |g|
        ensures ChoiceAt(dist, from, rest, g, k)
      {
        if k == 0 {
          assert g[..0] == [];
          ArgMinIsFirstMin(rest, NearKey(dist, from), next);
        } else {
          assert ChoiceAt(dist, next, rest', tail, k - 1);
          RemoveAllPrefix(rest, g, k);
          assert g[1..] == tail;
          assert Pred(Some(from), g, k).value == Pred(Some(next), tail, k - 1).value;
          assert g[k] == tail[k - 1];
        }
      }
    }
  }

  /** First-wins choices after the first place are first-wins choices from
      the stop placed first, among what `list.remove` leaves. */
  lemma ChoicesShift(dist: DistanceFn, from: Stop, rest: seq<Stop>, g: seq<Stop>)
    requires |rest| > 0 && GreedyChoices(dist, from, rest, g)
    ensures GreedyChoices(dist, g[0], RemoveFirst(rest, g[0]), g[1..])
  {
    var tail := g[1..];
    assert g[..0] == [];
    assert ChoiceAt(dist, from, rest, g, 0);
    forall k | 0 <= k < |tail|
      ensures ChoiceAt(dist, g[0], RemoveFirst(rest, g[0]), tail, k)
    {
      assert ChoiceAt(dist, from, rest, g, k + 1);
      RemoveAllPrefix(rest, g, k + 1);
      assert Pred(Some(from), g, k + 1).value == Pred(Some(g[0]), tail, k).value;
      assert g[k + 1] == tail[k];
    }
  }

  lemma {:induction false} GreedyChoicesUnique(dist: DistanceFn, from: Stop, rest: seq<Stop>, g: seq<Stop>)
    requires GreedyChoices(dist, from, rest, g)
    ensures g == Greedy(dist, from, rest)
    decreases |rest|
  {
    if rest != [] {
      var next := rest[ArgMin(rest, NearKey(dist, from))];
      assert g[..0] == [];
      assert ChoiceAt(dist, from, rest, g, 0);
      ArgMinIsFirstMin(rest, NearKey(dist, from), g[0]);
      assert g[0] == next;
      ChoicesShift(dist, from, rest, g);
      GreedyChoicesUnique(dist, next, RemoveFirst(rest, next), g[1..]);
      assert g == [g[0]] + g[1..];
    }
  }

  lemma StartIndexMeetsRule(dist: DistanceFn, ps: seq<Stop>, entry: Option<Stop>, x: Stop)
    requires |ps| > 0
    ensures StartRule(dist, ps, entry, x) <==> x == ps[StartIndex(dist, ps, entry)]
  {
    match entry
    case None => ArgMaxIsFirstMax(ps, Lat, x);
    case Some(e) => ArgMinIsFirstMin(ps, NearKey(dist, e), x);
  }

  /** The tour starts by the start rule and then makes first-wins nearest
      choices. */
  lemma TourMeetsDescription(dist: DistanceFn, ps: seq<Stop>, entry: Option<Stop>)
    ensures IsNearestNeighbourTour(dist, ps, entry, NearestNeighbourTour(dist, ps, entry))
  {
    if |ps| > 0 {
      var tour := NearestNeighbourTour(dist, ps, entry);
      var first := ps[StartIndex(dist, ps, entry)];
      StartIndexMeetsRule(dist, ps, entry, first);
      assert tour[0] == first && tour[1..] == Greedy(dist, first, RemoveFirst(ps, first));
      GreedyMakesChoices(dist, first, RemoveFirst(ps, first));
    }
  }

  /** Only the tour meets that description. */
  lemma DescriptionIsTour(dist: DistanceFn, ps: seq<Stop>, entry: Option<Stop>, t: seq<Stop>)
    requires IsNearestNeighbourTour(dist, ps, entry, t)
    ensures t == NearestNeighbourTour(dist, ps, entry)
  {
    if |ps| > 0 {
      var tour := NearestNeighbourTour(dist, ps, entry);
      var first := ps[StartIndex(dist, ps, entry)];
      StartIndexMeetsRule(dist, ps, entry, t[0]);
      assert t[0] == first;
      GreedyChoicesUnique(dist, first, RemoveFirst(ps, first), t[1..]);
      assert tour[0] == first && tour[1..] == Greedy(dist, first, RemoveFirst(ps, first));
      assert t == [t[0]] + t[1..];
      assert tour == [tour[0]] + tour[1..];
    }
  }

  /** The tour is exactly the sequence that starts by the start rule and then
      makes first-wins nearest choices among the stops not yet placed. */
  lemma TourCharacterisation(dist: DistanceFn, ps: seq<Stop>, entry: Option<Stop>, t: seq<Stop>)
    ensures IsNearestNeighbourTour(dist, ps, entry, t) <==> t == NearestNeighbourTour(dist, ps, entry)
  {
    TourMeetsDescription(dist, ps, entry);
    if IsNearestNeighbourTour(dist, ps, entry, t) {
      DescriptionIsTour(dist, ps, entry, t);
    }
  }

  /** `if not puntos: return []` and `if len(puntos) == 1: return puntos`,
      whatever the entry point. */
  lemma SmallTours(dist: DistanceFn, p: Stop, entry: Option<Stop>)
    ensures NearestNeighbourTour(dist, [], entry) == []
    ensures NearestNeighbourTour(dist, [p], entry) == [p]
  {
  }
}
