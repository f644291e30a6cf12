/** Choosing and removing elements of a list the way Python's builtins do:
    `min`/`max` with a key return the FIRST of the equally good elements, and
    `list.remove` deletes the FIRST element equal to its argument. */
module Selection {

  /** The index `min(xs, key=key)` returns: scanning left to right, a later
      element replaces the running best only when its key is strictly smaller. */
  function ArgMin<T>(xs: seq<T>, key: T -> real): (i: nat)
    requires |xs| > 0
    ensures i < |xs|
    ensures forall j :: 0 <= j < |xs| ==> key(xs[i]) <= key(xs[j])
    ensures forall j :: 0 <= j < i ==> key(xs[i]) < key(xs[j])
    decreases |xs|
  {
    if |xs| == 1 then 0
    else
      var best := ArgMin(xs[..|xs| - 1], key);
      if key(xs[|xs| - 1]) < key(xs[best]) then |xs| - 1 else best
  }

  /** The index `max(xs, key=key)` returns: a later element replaces the
      running best only when its key is strictly larger. */
  function ArgMax<T>(xs: seq<T>, key: T -> real): (i: nat)
    requires |xs| > 0
    ensures i < |xs|
    ensures forall j :: 0 <= j < |xs| ==> key(xs[j]) <= key(xs[i])
    ensures forall j :: 0 <= j < i ==> key(xs[j]) < key(xs[i])
    decreases |xs|
  {
    if |xs| == 1 then 0
    else
      var best := ArgMax(xs[..|xs| - 1], key);
      if key(xs[|xs| - 1]) > key(xs[best]) then |xs| - 1 else best
  }

  /** `x` is the element a first-wins minimum picks from `xs`: nothing in `xs`
      has a smaller key, and no element with an equal key comes before the
      first occurrence of `x`. */
  ghost predicate IsFirstMin<T>(xs: seq<T>, key: T -> real, x: T) {
    && x in xs
    && (forall j :: 0 <= j < |xs| ==> key(x) <= key(xs[j]))
    && (forall j :: 0 <= j < |xs| && key(xs[j]) == key(x) ==> IndexOf(xs, x) <= j)
  }

  /** `x` is the element a first-wins maximum picks from `xs`. */
  ghost predicate IsFirstMax<T>(xs: seq<T>, key: T -> real, x: T) {
    && x in xs
    && (forall j :: 0 <= j < |xs| ==> key(xs[j]) <= key(x))
    && (forall j :: 0 <= j < |xs| && key(xs[j]) == key(x) ==> IndexOf(xs, x) <= j)
  }

  /** No element occurs twice. */
  ghost predicate Distinct<T>(xs: seq<T>) {
    forall i, j :: 0 <= i < j < |xs| ==> xs[i] != xs[j]
  }

  /** Position of the first occurrence of `x`. */
  function IndexOf<T(==)>(xs: seq<T>, x: T): (i: nat)
    requires x in xs
    ensures i < |xs| && xs[i] == x
    ensures x !in xs[..i]
  {
    if xs[0] == x then 0
    else
      assert x in xs[1..];
      var i := 1 + IndexOf(xs[1..], x);
      assert xs[..i] == [xs[0]] + xs[1..][..i - 1];
      i
  }

  /** `list.remove(x)`: deletes the first occurrence of `x`, if any. */
  function RemoveFirst<T(==)>(xs: seq<T>, x: T): (r: seq<T>)
    ensures x in xs ==> |r| == |xs| - 1
    ensures x !in xs ==> r == xs
  {
    if xs == [] then []
    else if xs[0] == x then xs[1..]
    else
      assert x in xs[1..] ==> x in xs;
      [xs[0]] + RemoveFirst(xs[1..], x)
  }

  /** `list.remove(x)` takes exactly one copy of `x` out of the list when there
      is one, and nothing else. */
  lemma {:induction false} RemoveFirstMultiset<T>(xs: seq<T>, x: T)
    ensures multiset(RemoveFirst(xs, x)) == multiset(xs) - multiset{x}
  {
    if xs != [] {
      assert xs == [xs[0]] + xs[1..];
      if xs[0] != x {
        RemoveFirstMultiset(xs[1..], x);
      }
    }
  }

  /** Removes the elements of `placed` one `list.remove` at a time. */
  function RemoveAll<T(==)>(xs: seq<T>, placed: seq<T>): seq<T>
    decreases |placed|
  {
    if placed == [] then xs else RemoveAll(RemoveFirst(xs, placed[0]), placed[1..])
  }

  /** Removing the first occurrence of the element at `i` deletes position `i`
      and keeps every other element in place. */
  lemma {:induction false} RemoveFirstAt<T>(xs: seq<T>, i: nat)
    requires i < |xs|
    requires forall j :: 0 <= j < i ==> xs[j] != xs[i]
    ensures RemoveFirst(xs, xs[i]) == xs[..i] + xs[i + 1..]
  {
    if i > 0 {
      var tail := xs[1..];
      assert tail[i - 1] == xs[i];
      forall j | 0 <= j < i - 1
        ensures tail[j] != tail[i - 1]
      {
        assert tail[j] == xs[j + 1];
      }
      RemoveFirstAt(tail, i - 1);
      assert xs[0] != xs[i];
      assert [xs[0]] + tail[..i - 1] == xs[..i];
      assert tail[i..] == xs[i + 1..];
    } else {
      assert xs[..0] + xs[1..] == xs[1..];
    }
  }

  /** The element `min` picks is removed by `list.remove` at exactly the
      position `min` found it, and nothing else in the list changes. */
  lemma ArgMinRemoval<T>(xs: seq<T>, key: T -> real)
    requires |xs| > 0
    ensures var i := ArgMin(xs, key);
            RemoveFirst(xs, xs[i]) == xs[..i] + xs[i + 1..]
  {
    var i := ArgMin(xs, key);
    forall j | 0 <= j < i
      ensures xs[j] != xs[i]
    {
      assert key(xs[i]) < key(xs[j]);
    }
    RemoveFirstAt(xs, i);
  }

  /** The same for the element `max` picks. */
  lemma ArgMaxRemoval<T>(xs: seq<T>, key: T -> real)
    requires |xs| > 0
    ensures var i := ArgMax(xs, key);
            RemoveFirst(xs, xs[i]) == xs[..i] + xs[i + 1..]
  {
    var i := ArgMax(xs, key);
    forall j | 0 <= j < i
      ensures xs[j] != xs[i]
    {
      assert key(xs[j]) < key(xs[i]);
    }
    RemoveFirstAt(xs, i);
  }

  /** `min` returns the one element satisfying the first-wins description. */
  lemma ArgMinIsFirstMin<T>(xs: seq<T>, key: T -> real, x: T)
    requires |xs| > 0
    ensures IsFirstMin(xs, key, x) <==> x == xs[ArgMin(xs, key)]
  {
    var i := ArgMin(xs, key);
    FirstOccurrenceAtMost(xs, i);
    assert IsFirstMin(xs, key, xs[i]);
    if IsFirstMin(xs, key, x) {
      FirstMinUnique(xs, key, x, xs[i]);
    }
  }

  /** `max` returns the one element satisfying the first-wins description. */
  lemma ArgMaxIsFirstMax<T>(xs: seq<T>, key: T -> real, x: T)
    requires |xs| > 0
    ensures IsFirstMax(xs, key, x) <==> x == xs[ArgMax(xs, key)]
  {
    var i := ArgMax(xs, key);
    FirstOccurrenceAtMost(xs, i);
    assert IsFirstMax(xs, key, xs[i]);
    if IsFirstMax(xs, key, x) {
      FirstMaxUnique(xs, key, x, xs[i]);
    }
  }

  /** The first occurrence of `xs[i]` is at or before `i`. */
  lemma FirstOccurrenceAtMost<T>(xs: seq<T>, i: nat)
    requires i < |xs|
    ensures IndexOf(xs, xs[i]) <= i
  {
  }

  lemma FirstMinUnique<T>(xs: seq<T>, key: T -> real, x: T, y: T)
    requires IsFirstMin(xs, key, x) && IsFirstMin(xs, key, y)
    ensures x == y
  {
    var ix, iy := IndexOf(xs, x), IndexOf(xs, y);
    assert key(x) <= key(xs[iy]) && key(y) <= key(xs[ix]);
    assert ix <= iy && iy <= ix;
  }

  lemma FirstMaxUnique<T>(xs: seq<T>, key: T -> real, x: T, y: T)
    requires IsFirstMax(xs, key, x) && IsFirstMax(xs, key, y)
    ensures x == y
  {
    var ix, iy := IndexOf(xs, x), IndexOf(xs, y);
    assert key(xs[iy]) <= key(x) && key(xs[ix]) <= key(y);
    assert ix <= iy && iy <= ix;
  }
}
