/** Stable sorting by a total preorder, as the built-in `sorted` does it. */
module Sorting {
  /** Any two elements compare, and the order is transitive. */
  ghost predicate TotalPreorder<T(!new)>(le: (T, T) -> bool) {
    && (forall a, b :: le(a, b) || le(b, a))
    && (forall a, b, c :: le(a, b) && le(b, c) ==> le(a, c))
  }

  ghost predicate Ordered<T>(xs: seq<T>, le: (T, T) -> bool) {
    forall i, j :: 0 <= i < j < |xs| ==> le(xs[i], xs[j])
  }

  function Insert<T>(x: T, xs: seq<T>, le: (T, T) -> bool): seq<T> {
    if xs == [] || le(x, xs[0]) then [x] + xs else [xs[0]] + Insert(x, xs[1..], le)
  }

  function SortBy<T>(xs: seq<T>, le: (T, T) -> bool): seq<T> {
    if xs == [] then [] else Insert(xs[0], SortBy(xs[1..], le), le)
  }

  /** The elements that compare equal to `t`, in order. */
  function Tied<T>(xs: seq<T>, t: T, le: (T, T) -> bool): seq<T> {
    if xs == [] then []
    else (if le(xs[0], t) && le(t, xs[0]) then [xs[0]] else []) + Tied(xs[1..], t, le)
  }

  lemma {:induction false} InsertKeeps<T>(x: T, xs: seq<T>, le: (T, T) -> bool)
    ensures multiset(Insert(x, xs, le)) == multiset(xs) + multiset{x}
  {
    if xs != [] && !le(x, xs[0]) {
      InsertKeeps(x, xs[1..], le);
      assert xs == [xs[0]] + xs[1..];
    }
  }

  lemma {:induction false} InsertOrders<T(!new)>(x: T, xs: seq<T>, le: (T, T) -> bool)
    requires TotalPreorder(le) && Ordered(xs, le)
    ensures Ordered(Insert(x, xs, le), le)
  {
    if xs != [] && !le(x, xs[0]) {
      var rest := Insert(x, xs[1..], le);
      InsertOrders(x, xs[1..], le);
      InsertKeeps(x, xs[1..], le);
      forall j | 0 <= j < |rest|
        ensures le(xs[0], rest[j])
      {
        assert rest[j] in multiset(rest);
        assert rest[j] == x || rest[j] in xs[1..];
      }
    }
  }

  /** An element goes before its equals, so that sorting from the right keeps their order. */
  lemma {:induction false} InsertTies<T(!new)>(x: T, xs: seq<T>, t: T, le: (T, T) -> bool)
    requires TotalPreorder(le)
    ensures Tied(Insert(x, xs, le), t, le) == Tied([x] + xs, t, le)
  {
    if xs != [] && !le(x, xs[0]) {
      InsertTies(x, xs[1..], t, le);
      assert ([x] + xs)[1..] == xs;
      assert ([x] + xs[1..])[1..] == xs[1..];
    }
  }

  lemma {:induction false} SortTies<T(!new)>(xs: seq<T>, t: T, le: (T, T) -> bool)
    requires TotalPreorder(le)
    ensures Tied(SortBy(xs, le), t, le) == Tied(xs, t, le)
  {
    hide TotalPreorder;
    if xs != [] {
      var rest := SortBy(xs[1..], le);
      SortTies(xs[1..], t, le);
      InsertTies(xs[0], rest, t, le);
      assert ([xs[0]] + rest)[1..] == rest;
    }
  }

  /** Sorting permutes, orders, and keeps elements that compare equal in their order. */
  lemma {:induction false} SortSorts<T(!new)>(xs: seq<T>, le: (T, T) -> bool)
    requires TotalPreorder(le)
    ensures multiset(SortBy(xs, le)) == multiset(xs) && |SortBy(xs, le)| == |xs|
    ensures Ordered(SortBy(xs, le), le)
    ensures forall t :: Tied(SortBy(xs, le), t, le) == Tied(xs, t, le)
  {
    hide TotalPreorder, Tied, Ordered;
    if xs == [] {
      NothingOrdered(le);
    } else {
      var rest := SortBy(xs[1..], le);
      SortSorts(xs[1..], le);
      InsertKeeps(xs[0], rest, le);
      InsertOrders(xs[0], rest, le);
      assert xs == [xs[0]] + xs[1..];
    }
    forall t
      ensures Tied(SortBy(xs, le), t, le) == Tied(xs, t, le)
    {
      SortTies(xs, t, le);
    }
    assert |multiset(SortBy(xs, le))| == |multiset(xs)|;
  }

  lemma NothingOrdered<T>(le: (T, T) -> bool)
    ensures Ordered([], le)
  {
  }
}
