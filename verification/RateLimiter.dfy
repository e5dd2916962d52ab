/** The sliding-window rate limiter of the network manager (bmchat/net/manager.py). */
module RateLimiter {
  import opened Collections

  type Key = (string, int)
  type Time = real

  const TABLE_MAX: nat := 4096

  /** The hit lists of the keys, and the order in which the keys were inserted. */
  datatype State = State(order: seq<Key>, hits: map<Key, seq<Time>>)

  datatype Call = Call(key: Key, limit: nat, window: Time, now: Time)

  /** Drops leading hits from before the cutoff. */
  function Kept(hits: seq<Time>, cutoff: Time): (kept: seq<Time>)
    ensures kept != [] ==> kept[0] >= cutoff
  {
    if hits != [] && hits[0] < cutoff then Kept(hits[1..], cutoff) else hits
  }

  /** The hits that count against a call. */
  function Against(s: State, c: Call): seq<Time> {
    Kept(if c.key in s.hits then s.hits[c.key] else [], c.now - c.window)
  }

  predicate Allowed(s: State, c: Call) {
    |Against(s, c)| < c.limit
  }

  function Listed(s: State, k: Key): seq<Key> {
    if k in s.hits then s.order else s.order + [k]
  }

  function After(s: State, c: Call): State {
    var order := Listed(s, c.key);
    if !Allowed(s, c) then State(order, s.hits[c.key := Against(s, c)])
    else
      var hits := s.hits[c.key := Against(s, c) + [c.now]];
      if |hits| > TABLE_MAX && order != [] then State(order[1..], hits - {order[0]}) else State(order, hits)
  }

  ghost predicate IsRun(states: seq<State>, calls: seq<Call>) {
    && |states| == |calls| + 1 && states[0] == State([], map[])
    && (forall i :: 0 <= i < |calls| ==> states[i + 1] == After(states[i], calls[i]))
    && (forall i, j :: 0 <= i < j < |calls| ==> calls[i].now <= calls[j].now)
  }

  predicate Grants(s: State, c: Call, k: Key) {
    c.key == k && Allowed(s, c)
  }

  /** How many of the calls numbered from `lo` to `hi` were for `k`, at time `since` or later, and allowed. */
  function Granted(states: seq<State>, calls: seq<Call>, k: Key, since: Time, lo: nat, hi: nat): nat
    requires lo <= hi <= |calls| <= |states|
    decreases hi - lo
  {
    if lo == hi then 0
    else Granted(states, calls, k, since, lo, hi - 1)
         + if Grants(states[hi - 1], calls[hi - 1], k) && calls[hi - 1].now >= since then 1 else 0
  }

  function CountSince(hits: seq<Time>, since: Time): (n: nat)
    ensures n <= |hits|
  {
    if hits == [] then 0 else CountSince(hits[..|hits| - 1], since) + if hits[|hits| - 1] >= since then 1 else 0
  }

  function HitsOf(s: State, k: Key): seq<Time> {
    if k in s.hits then s.hits[k] else []
  }

  lemma {:induction false} CountFirst(hits: seq<Time>, since: Time)
    requires hits != []
    ensures CountSince(hits, since) == CountSince(hits[1..], since) + if hits[0] >= since then 1 else 0
  {
    if |hits| > 1 {
      CountFirst(hits[..|hits| - 1], since);
      assert hits[..|hits| - 1][1..] == hits[1..][..|hits| - 2];
    }
  }

  lemma {:induction false} KeptCounts(hits: seq<Time>, cutoff: Time, since: Time)
    ensures cutoff <= since ==> CountSince(Kept(hits, cutoff), since) == CountSince(hits, since)
    ensures CountSince(Kept(hits, cutoff), since) <= CountSince(hits, since)
  {
    if hits != [] && hits[0] < cutoff {
      KeptCounts(hits[1..], cutoff, since);
      CountFirst(hits, since);
    }
  }

  lemma CountAppend(hits: seq<Time>, t: Time, since: Time)
    ensures CountSince(hits + [t], since) == CountSince(hits, since) + if t >= since then 1 else 0
  {
    assert (hits + [t])[..|hits|] == hits;
  }

  /** What a call does to the hits of a key that stays in the table. */
  lemma CallCounts(s: State, c: Call, k: Key, since: Time)
    requires k in After(s, c).hits
    ensures var n := CountSince(HitsOf(s, k), since) + if Grants(s, c, k) && c.now >= since then 1 else 0;
      && CountSince(HitsOf(After(s, c), k), since) <= n
      && (c.key != k || c.now - c.window <= since ==> CountSince(HitsOf(After(s, c), k), since) == n)
  {
    hide Kept, CountSince;
    if c.key == k {
      KeptCounts(HitsOf(s, k), c.now - c.window, since);
      CountAppend(Against(s, c), c.now, since);
    }
  }

  // ---- never too many -------------------------------------------------------------------

  /** Calls for `k` between two points of a run use one limit and window, and `k` is not evicted. */
  ghost predicate Steady(states: seq<State>, calls: seq<Call>, k: Key, limit: nat, window: Time, lo: nat, hi: nat)
    requires lo <= hi <= |calls| < |states|
  {
    && (forall i :: lo <= i < hi && calls[i].key == k ==> calls[i].limit == limit && calls[i].window == window)
    && (forall i :: lo < i <= hi ==> k in states[i].hits)
  }

  lemma {:induction false} HitsAreKept(states: seq<State>, calls: seq<Call>, k: Key, limit: nat, window: Time, lo: nat,
          hi: nat)
    requires IsRun(states, calls) && lo < hi < |calls| && Steady(states, calls, k, limit, window, lo, hi)
    requires calls[hi].now - calls[lo].now <= window
    ensures CountSince(HitsOf(states[hi], k), calls[lo].now) >= Granted(states, calls, k, calls[lo].now, lo, hi)
    decreases hi
  {
    hide After, CountSince, Grants, HitsOf;
    if hi - 1 > lo {
      HitsAreKept(states, calls, k, limit, window, lo, hi - 1);
    }
    assert states[hi] == After(states[hi - 1], calls[hi - 1]);
    CallCounts(states[hi - 1], calls[hi - 1], k, calls[lo].now);
    assert hi - 1 == lo ==> Granted(states, calls, k, calls[lo].now, lo, lo) == 0;
  }

  /** Over any run: a stretch between two allowed calls for a key that holds more allowed calls than the limit
      lasts strictly longer than the window, as long as the key stays in the table. */
  lemma WindowHolds(states: seq<State>, calls: seq<Call>, k: Key, limit: nat, window: Time, i: nat, j: nat)
    requires IsRun(states, calls) && i < j < |calls| && Steady(states, calls, k, limit, window, i, j)
    requires Call(k, limit, window, calls[j].now) == calls[j] && Allowed(states[j], calls[j])
    requires Granted(states, calls, k, calls[i].now, i, j + 1) > limit
    ensures calls[j].now - calls[i].now > window
  {
    hide CountSince, Kept, After;
    if calls[j].now - calls[i].now <= window {
      HitsAreKept(states, calls, k, limit, window, i, j);
      KeptCounts(HitsOf(states[j], k), calls[j].now - window, calls[i].now);
    }
  }

  // ---- never without cause --------------------------------------------------------------

  predicate Ordered(hits: seq<Time>, upTo: Time) {
    && (forall i, j :: 0 <= i < j < |hits| ==> hits[i] <= hits[j])
    && (forall i :: 0 <= i < |hits| ==> hits[i] <= upTo)
  }

  lemma {:induction false} KeptOrdered(hits: seq<Time>, cutoff: Time, upTo: Time)
    requires Ordered(hits, upTo)
    ensures Ordered(Kept(hits, cutoff), upTo) && CountSince(Kept(hits, cutoff), cutoff) == |Kept(hits, cutoff)|
  {
    if hits != [] && hits[0] < cutoff {
      KeptOrdered(hits[1..], cutoff, upTo);
    } else {
      AllCount(hits, cutoff);
    }
  }

  lemma {:induction false} AllCount(hits: seq<Time>, since: Time)
    requires forall i :: 0 <= i < |hits| ==> hits[i] >= since
    ensures CountSince(hits, since) == |hits|
  {
    if hits != [] {
      AllCount(hits[..|hits| - 1], since);
    }
  }

  lemma CallOrders(s: State, c: Call, k: Key)
    requires Ordered(HitsOf(s, k), c.now)
    ensures Ordered(HitsOf(After(s, c), k), c.now)
  {
    hide Kept, CountSince;
    if c.key == k {
      KeptOrdered(HitsOf(s, k), c.now - c.window, c.now);
    }
  }

  lemma NoHits(k: Key, upTo: Time)
    ensures Ordered(HitsOf(State([], map[]), k), upTo)
  {
  }

  lemma OrderedLater(hits: seq<Time>, t: Time, u: Time)
    requires Ordered(hits, t) && t <= u
    ensures Ordered(hits, u)
  {
  }

  lemma {:induction false} HitsAreOrdered(states: seq<State>, calls: seq<Call>, k: Key, n: nat)
    requires IsRun(states, calls) && n < |calls|
    ensures Ordered(HitsOf(states[n], k), calls[n].now)
    decreases n
  {
    hide After, HitsOf, Ordered;
    if n == 0 {
      NoHits(k, calls[n].now);
    } else {
      HitsAreOrdered(states, calls, k, n - 1);
      CallOrders(states[n - 1], calls[n - 1], k);
      OrderedLater(HitsOf(states[n], k), calls[n - 1].now, calls[n].now);
    }
  }

  lemma {:induction false} HitsWereGranted(states: seq<State>, calls: seq<Call>, k: Key, since: Time, n: nat)
    requires IsRun(states, calls) && n < |states|
    ensures CountSince(HitsOf(states[n], k), since) <= Granted(states, calls, k, since, 0, n)
    decreases n
  {
    hide After, Grants;
    if n > 0 {
      HitsWereGranted(states, calls, k, since, n - 1);
      assert states[n] == After(states[n - 1], calls[n - 1]);
      if k in states[n].hits {
        CallCounts(states[n - 1], calls[n - 1], k, since);
      }
    }
  }

  /** Over any run: a call is refused only when at least `limit` calls for its key were allowed within the window. */
  lemma RefusedOnlyWhenFull(states: seq<State>, calls: seq<Call>, j: nat)
    requires IsRun(states, calls) && j < |calls| && !Allowed(states[j], calls[j])
    ensures Granted(states, calls, calls[j].key, calls[j].now - calls[j].window, 0, j) >= calls[j].limit
  {
    hide CountSince, Kept, After, Ordered;
    var c := calls[j];
    var cutoff := c.now - c.window;
    HitsAreOrdered(states, calls, c.key, j);
    KeptOrdered(HitsOf(states[j], c.key), cutoff, c.now);
    KeptCounts(HitsOf(states[j], c.key), cutoff, cutoff);
    HitsWereGranted(states, calls, c.key, cutoff, j);
  }

  // ---- the table stays small ------------------------------------------------------------

  /** The insertion order lists the keys of the table, each once. */
  ghost predicate Inv(s: State) {
    Lists(s.order, s.hits.Keys)
  }

  lemma AddedKey(hits: map<Key, seq<Time>>, k: Key, v: seq<Time>)
    ensures hits[k := v].Keys == hits.Keys + {k}
    ensures |hits[k := v]| == |hits| + if k in hits then 0 else 1
  {
    assert |hits[k := v]| == |hits[k := v].Keys| && |hits| == |hits.Keys|;
    if k in hits {
      assert hits.Keys + {k} == hits.Keys;
    }
  }

  lemma DroppedKey(hits: map<Key, seq<Time>>, k: Key)
    requires k in hits
    ensures (hits - {k}).Keys == hits.Keys - {k} && |hits - {k}| == |hits| - 1
  {
    assert |hits - {k}| == |(hits - {k}).Keys| && |hits| == |hits.Keys|;
  }

  /** With a positive limit a new key is never refused, so eviction on allowed calls is enough to bound the table. */
  lemma CallKeepsInv(s: State, c: Call)
    requires Inv(s)
    ensures Inv(After(s, c))
    ensures c.limit > 0 && |s.hits| <= TABLE_MAX ==> |After(s, c).hits| <= TABLE_MAX
  {
    hide Lists, Kept;
    var order := Listed(s, c.key);
    var hits := s.hits[c.key := if Allowed(s, c) then Against(s, c) + [c.now] else Against(s, c)];
    AddedKey(s.hits, c.key, hits[c.key]);
    if c.key !in s.hits {
      NothingAgainst(s, c);
      ListsAppend(s.order, s.hits.Keys, c.key);
    } else {
      assert hits.Keys == s.hits.Keys;
    }
    if |hits| > TABLE_MAX {
      ListsSize(order, hits.Keys);
      assert |hits| == |hits.Keys|;
      ListsDropFirst(order, hits.Keys);
      DroppedKey(hits, order[0]);
    }
  }

  /** From call number `i` on up to call number `n` the key is in the table. */
  ghost predicate Stays(states: seq<State>, i: nat, n: nat, k: Key)
    requires n < |states|
  {
    forall m :: i < m <= n ==> k in states[m].hits
  }

  /** A call for the key, with a number from `lo` to below `hi`. */
  ghost predicate CalledIn(calls: seq<Call>, lo: nat, hi: nat, k: Key)
    requires hi <= |calls|
  {
    exists m :: lo <= m < hi && calls[m].key == k
  }

  /** A call lists its key and may drop the first one listed, when there are more than 4096. */
  lemma OrderAfter(s: State, c: Call)
    ensures var order, keys, r := Listed(s, c.key), s.hits.Keys + {c.key}, After(s, c);
      || (r.order == order && r.hits.Keys == keys)
      || (order != [] && r.order == order[1..] && r.hits.Keys == keys - {order[0]} && |keys| > 4096)
  {
    hide Kept, Against;
    var hits := s.hits[c.key := Against(s, c) + [c.now]];
    assert |hits| == |hits.Keys| && hits.Keys == s.hits.Keys + {c.key};
  }

  /** In the order of insertion, behind a key that has stayed since its insertion there are only keys called since. */
  lemma {:induction false} BehindAreCalled(states: seq<State>, calls: seq<Call>, i: nat, n: nat, k: Key)
    returns (p: nat)
    requires IsRun(states, calls) && i < n <= |calls|
    requires k !in states[i].hits && calls[i].key == k && Stays(states, i, n, k)
    ensures p < |states[n].order| && states[n].order[p] == k
    ensures forall q :: p < q < |states[n].order| ==> CalledIn(calls, i + 1, n, states[n].order[q])
    decreases n
  {
    hide After, CalledIn;
    var before, after, key := states[n - 1], states[n], calls[n - 1].key;
    assert after == After(before, calls[n - 1]);
    OrderAfter(before, calls[n - 1]);
    assert k in after.hits.Keys;
    var order := Listed(before, key);
    var dropped := if after.order == order then 0 else 1;
    if n == i + 1 {
      p := |before.order| - dropped;
    } else {
      var p0 := BehindAreCalled(states, calls, i, n - 1, k);
      assert order[p0] == k;
      p := p0 - dropped;
      forall q | p < q < |after.order|
        ensures CalledIn(calls, i + 1, n, after.order[q])
      {
        assert after.order[q] == order[q + dropped];
        StillCalled(calls, i + 1, n, order[q + dropped]);
      }
    }
  }

  lemma StillCalled(calls: seq<Call>, lo: nat, n: nat, k: Key)
    requires lo < n <= |calls|
    ensures CalledIn(calls, lo, n - 1, k) || calls[n - 1].key == k ==> CalledIn(calls, lo, n, k)
  {
  }

  lemma {:induction false} RunKeepsLists(states: seq<State>, calls: seq<Call>, n: nat)
    requires IsRun(states, calls) && n <= |calls|
    ensures Inv(states[n])
  {
    hide After;
    if n > 0 {
      RunKeepsLists(states, calls, n - 1);
      CallKeepsInv(states[n - 1], calls[n - 1]);
    }
  }

  /** A key leaves the table only after calls for 4096 other keys since it came in: so long is it remembered. */
  lemma LeavesAfterOthers(states: seq<State>, calls: seq<Call>, i: nat, n: nat, k: Key) returns (others: seq<Key>)
    requires IsRun(states, calls) && i < n < |calls|
    requires k !in states[i].hits && calls[i].key == k && Stays(states, i, n, k) && k !in states[n + 1].hits
    ensures Distinct(others) && |others| >= 4096
    ensures forall o :: o in others ==> o != k && CalledIn(calls, i + 1, n + 1, o)
  {
    hide After, CalledIn;
    var p := BehindAreCalled(states, calls, i, n, k);
    var s, c := states[n], calls[n];
    assert k in s.hits && states[n + 1] == After(s, c);
    RunKeepsLists(states, calls, n);
    LeavingIsFull(s, c, k);
    var order := Listed(s, c.key);
    others := order[1..];
    assert order == [k] + others;
    forall o | o in others
      ensures o != k && CalledIn(calls, i + 1, n + 1, o)
    {
      var q :| 0 <= q < |others| && others[q] == o;
      assert order[q + 1] == o && order[p] == k;
      StillCalled(calls, i + 1, n + 1, o);
    }
  }

  /** When a call drops a key from the table, the key is the first inserted, and 4096 others are there. */
  lemma LeavingIsFull(s: State, c: Call, k: Key)
    requires Inv(s) && k in s.hits && k !in After(s, c).hits
    ensures Distinct(Listed(s, c.key)) && |Listed(s, c.key)| >= 4097 && Listed(s, c.key)[0] == k
  {
    hide After, Lists;
    OrderAfter(s, c);
    assert k !in After(s, c).hits.Keys;
    var keys := s.hits.Keys + {c.key};
    if c.key !in s.hits {
      ListsAppend(s.order, s.hits.Keys, c.key);
    } else {
      assert keys == s.hits.Keys;
    }
    ListsSize(Listed(s, c.key), keys);
    ListsDistinct(Listed(s, c.key), keys);
  }

  lemma ListsDistinct(order: seq<Key>, keys: set<Key>)
    requires Lists(order, keys)
    ensures Distinct(order)
  {
  }

  lemma NotEmpty(s: State, key: Key)
    requires Inv(s)
    ensures Listed(s, key) != []
  {
    if key in s.hits {
      assert key in s.order;
    }
  }

  lemma NothingAgainst(s: State, c: Call)
    requires c.key !in s.hits
    ensures Against(s, c) == []
  {
  }

  /** The tables, one per kind of request. */
  class Limiter {
    var order: seq<Key>
    var hits: map<Key, seq<Time>>

    constructor ()
      ensures Valid() && Table() == State([], map[])
    {
      order, hits := [], map[];
    }

    function Table(): State
      reads this
    {
      State(order, hits)
    }

    ghost predicate Valid()
      reads this
    {
      Inv(Table())
    }

    /** Drops the key's hits from before the cutoff. */
    method Refresh(key: Key, cutoff: Time) returns (recent: seq<Time>)
      modifies this
      ensures order == Listed(old(Table()), key) && hits == old(hits)[key := recent]
      ensures recent == Kept(if key in old(hits) then old(hits)[key] else [], cutoff)
    {
      if key !in hits {
        order := order + [key];
        hits := hits[key := []];
      }
      recent := hits[key];
      ghost var all := recent;
      while recent != [] && recent[0] < cutoff
        invariant Kept(recent, cutoff) == Kept(all, cutoff)
        decreases |recent|
      {
        recent := recent[1..];
      }
      hits := hits[key := recent];
    }

    method RateLimited(key: Key, limit: nat, window: Time, now: Time) returns (limited: bool)
      requires Valid()
      modifies this
      ensures Valid() && limited == !Allowed(old(Table()), Call(key, limit, window, now))
      ensures Table() == After(old(Table()), Call(key, limit, window, now))
      ensures limit > 0 && |old(hits)| <= TABLE_MAX ==> |hits| <= TABLE_MAX
    {
      hide Kept, Inv;
      ghost var before, call := Table(), Call(key, limit, window, now);
      CallKeepsInv(before, call);
      var recent := Refresh(key, now - window);
      assert recent == Against(before, call);
      if |recent| >= limit {
        return true;
      }
      hits := hits[key := recent + [now]];
      assert hits == before.hits[key := recent + [now]];
      NotEmpty(before, key);
      if |hits| > TABLE_MAX {
        var oldest := order[0];
        order := order[1..];
        hits := hits - {oldest};
      }
      limited := false;
    }
  }
}
