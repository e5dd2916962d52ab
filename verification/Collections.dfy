/** Small facts about collections that several components use. */
module Collections {
  function Min(a: int, b: int): int {
    if a < b then a else b
  }

  function Max(a: int, b: int): int {
    if a < b then b else a
  }

  predicate Distinct<T(==)>(xs: seq<T>) {
    forall i, j :: 0 <= i < j < |xs| ==> xs[i] != xs[j]
  }

  lemma PrefixDistinct<T>(xs: seq<T>, n: nat)
    requires Distinct(xs) && n <= |xs|
    ensures Distinct(xs[..n]) && forall x :: x in xs[..n] ==> x in xs
  {
  }

  /** A distinct sequence has as many elements as the set of its elements. */
  lemma {:induction false} ElementsCount<T>(xs: seq<T>)
    requires Distinct(xs)
    ensures |set x | x in xs| == |xs|
  {
    if xs != [] {
      var front, x := xs[..|xs| - 1], xs[|xs| - 1];
      assert xs == front + [x];
      ElementsCount(front);
      assert (set y | y in xs) == (set y | y in front) + {x};
    }
  }

  lemma {:induction false} DistinctCount<T>(xs: seq<T>, x: T)
    requires Distinct(xs)
    ensures multiset(xs)[x] <= 1
  {
    if xs != [] {
      var front, last := xs[..|xs| - 1], xs[|xs| - 1];
      assert xs == front + [last];
      DistinctCount(front, x);
      if x == last {
        assert x !in front;
      }
    }
  }

  lemma CountedTwice<T>(xs: seq<T>, i: nat, j: nat)
    requires i < j < |xs|
    ensures xs[i] == xs[j] ==> multiset(xs)[xs[i]] >= 2
  {
    assert xs == xs[..j] + xs[j..];
    assert xs[i] in multiset(xs[..j]) && xs[j] in multiset(xs[j..]);
  }

  /** A permutation of a distinct sequence is distinct and has the same elements. */
  lemma PermutationDistinct<T>(a: seq<T>, b: seq<T>)
    requires multiset(a) == multiset(b) && Distinct(a)
    ensures Distinct(b) && |a| == |b| && forall x :: x in b <==> x in a
  {
    assert |multiset(a)| == |a| && |multiset(b)| == |b|;
    assert forall x :: x in b <==> x in multiset(b);
    assert forall x :: x in a <==> x in multiset(a);
    forall i, j | 0 <= i < j < |b|
      ensures b[i] != b[j]
    {
      DistinctCount(a, b[i]);
      CountedTwice(b, i, j);
    }
  }

  // ---- tables that remember the order of insertion ---------------------------------------

  /** The order lists the keys of a table, each once. */
  ghost predicate Lists<K(!new)>(order: seq<K>, keys: set<K>) {
    Distinct(order) && forall k :: k in keys <==> k in order
  }

  lemma ListsAppend<K(!new)>(order: seq<K>, keys: set<K>, k: K)
    requires Lists(order, keys) && k !in keys
    ensures Lists(order + [k], keys + {k})
  {
  }

  lemma ListsDropFirst<K(!new)>(order: seq<K>, keys: set<K>)
    requires Lists(order, keys) && order != []
    ensures order[0] in keys && Lists(order[1..], keys - {order[0]})
  {
    assert order == [order[0]] + order[1..];
  }

  lemma ListsSize<K(!new)>(order: seq<K>, keys: set<K>)
    requires Lists(order, keys)
    ensures |order| == |keys|
  {
    ElementsCount(order);
    assert keys == set k | k in order;
  }
}
