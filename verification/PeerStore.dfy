/** The store of known peers: ratings, backoff and whom to dial next (bmchat/net/peers.py). */
module PeerStore {
  import opened Bytes
  import opened Collections
  import opened Sorting

  type Key = (string, int)

  const BACKOFF_BASE_SECONDS: real := 60.0
  const BACKOFF_CAP_SECONDS: real := 3600.0
  const MAX_CONSECUTIVE_FAILURES := 5
  const MAX_PEERS := 5000

  datatype Info = Info(
    stream: int, services: int, lastSeen: int, rating: real, lastTry: int,
    invCount: int, lastInv: int, muteCount: int, failCount: int)

  /** An entry of the store; entries keep the order in which their keys were first added. */
  datatype Entry = Entry(key: Key, info: Info)

  // ---- backoff -------------------------------------------------------------------------

  function MinReal(a: real, b: real): real {
    if a < b then a else b
  }

  function Pow2(n: nat): (p: real)
    ensures p >= 1.0
  {
    if n == 0 then 1.0 else 2.0 * Pow2(n - 1)
  }

  function Fails(info: Info): nat {
    if info.failCount < 0 then 0 else info.failCount
  }

  /** Doubles with every failure in a row, up to an hour. */
  function Window(info: Info, base: real): real {
    MinReal(base * Pow2(if Fails(info) < 10 then Fails(info) else 10), BACKOFF_CAP_SECONDS)
  }

  /** A random part of a minute or of a quarter of the window; `luck` is the random number. */
  function Jitter(window: real, luck: real): real {
    luck * MinReal(60.0, window / 4.0)
  }

  function BackoffFor(info: Info, base: real, luck: real): real {
    if base <= 0.0 then 0.0 else Window(info, base) + Jitter(Window(info, base), luck)
  }

  predicate Penalised(info: Info) {
    info.rating < 0.0 || info.failCount > 0
  }

  predicate InBackoff(info: Info, cooldown: real, luck: real, now: int) {
    && Penalised(info) && BackoffFor(info, cooldown, luck) > 0.0
    && (now - info.lastTry) as real < BackoffFor(info, cooldown, luck)
  }

  lemma {:induction false} Pow2Monotone(m: nat, n: nat)
    requires m <= n
    ensures Pow2(m) <= Pow2(n)
    decreases n
  {
    if m < n {
      Pow2Monotone(m, n - 1);
    }
  }

  lemma NonNegative(a: real, b: real)
    requires a >= 0.0 && b >= 0.0
    ensures a * b >= 0.0
  {
  }

  lemma JitterBounds(window: real, luck: real)
    requires 0.0 <= luck <= 1.0 && window >= 0.0
    ensures 0.0 <= Jitter(window, luck) <= MinReal(60.0, window / 4.0)
  {
    var spread := MinReal(60.0, window / 4.0);
    NonNegative(luck, spread);
    NonNegative(1.0 - luck, spread);
    assert luck * spread + (1.0 - luck) * spread == spread;
  }

  /** With the default cooldown and whatever jitter: a penalised peer waits at least a minute, doubled for each
      failure and at most an hour; after that and the most that jitter can add, nobody waits. */
  lemma BackoffBounds(info: Info, luck: real, now: int)
    requires 0.0 <= luck <= 1.0
    ensures info.rating >= 0.0 && info.failCount <= 0 ==> !InBackoff(info, 60.0, luck, now)
    ensures var wait := MinReal(60.0 * Pow2(if Fails(info) < 10 then Fails(info) else 10), 3600.0);
      var waited := (now - info.lastTry) as real;
      && ((info.rating < 0.0 || info.failCount > 0) && waited < wait ==> InBackoff(info, 60.0, luck, now))
      && (waited >= wait + MinReal(60.0, wait / 4.0) ==> !InBackoff(info, 60.0, luck, now))
    ensures now - info.lastTry >= 3660 ==> !InBackoff(info, 60.0, luck, now)
  {
    hide Pow2, Jitter;
    var w := Window(info, 60.0);
    assert 60.0 <= w <= 3600.0;
    JitterBounds(w, luck);
  }

  /** The wait without any luck and with all of it: for any cooldown, doubled for each of up to ten failures and at most
      an hour, and up to a quarter or a minute more. Without a cooldown nobody waits. */
  lemma BackoffIs(info: Info, base: real, now: int)
    requires base > 0.0
    ensures var wait := MinReal(base * Pow2(Min(Max(info.failCount, 0), 10)), 3600.0);
      var penalised, waited := info.rating < 0.0 || info.failCount > 0, (now - info.lastTry) as real;
      && (InBackoff(info, base, 0.0, now) <==> penalised && waited < wait)
      && (InBackoff(info, base, 1.0, now) <==> penalised && waited < wait + MinReal(60.0, wait / 4.0))
    ensures forall luck :: !InBackoff(info, 0.0, luck, now)
  {
    hide Pow2, Window, Jitter;
    var wait := Window(info, base);
    BasePositive(info, base);
    JitterExtremes(wait);
    assert BackoffFor(info, base, 0.0) == wait;
    assert BackoffFor(info, base, 1.0) == wait + MinReal(60.0, wait / 4.0);
  }

  lemma JitterExtremes(window: real)
    ensures Jitter(window, 0.0) == 0.0 && Jitter(window, 1.0) == MinReal(60.0, window / 4.0)
  {
  }

  lemma BasePositive(info: Info, base: real)
    requires base > 0.0
    ensures Window(info, base) == MinReal(base * Pow2(Min(Max(info.failCount, 0), 10)), 3600.0) > 0.0
  {
    var n := if Fails(info) < 10 then Fails(info) else 10;
    NonNegative(base, Pow2(n) - 1.0);
    assert base * Pow2(n) == base * (Pow2(n) - 1.0) + base;
  }

  /** The peer is dropped at its fifth failure in a row, so what is in the store has failed at most four times and
      waits at most twenty minutes: the cap of an hour is never reached. */
  lemma BackoffIsShort(info: Info, luck: real, now: int)
    requires 0.0 <= luck <= 1.0 && info.failCount < MAX_CONSECUTIVE_FAILURES
    ensures Window(info, 60.0) <= 960.0
    ensures now - info.lastTry >= 1020 ==> !InBackoff(info, 60.0, luck, now)
  {
    Pow2Monotone(Fails(info), 4);
    assert Pow2(4) == 16.0 by {
      assert Pow2(2) == 4.0;
    }
    BackoffBounds(info, luck, now);
  }

  // ---- ranking -------------------------------------------------------------------------

  function EffectiveRating(info: Info): real {
    info.rating + (if info.invCount > 0 then 2.0 else 0.0) - (if Fails(info) < 8 then Fails(info) else 8) as real
  }

  /** Higher ratings first; between equals, the one not seen for longest. */
  predicate Ahead(a: Entry, b: Entry) {
    var ra, rb := EffectiveRating(a.info), EffectiveRating(b.info);
    ra > rb || (ra == rb && a.info.lastSeen <= b.info.lastSeen)
  }

  /** The worst rated first; between equals, the one not seen for longest. */
  predicate Worse(a: Entry, b: Entry) {
    a.info.rating < b.info.rating || (a.info.rating == b.info.rating && a.info.lastSeen <= b.info.lastSeen)
  }

  lemma Orders()
    ensures TotalPreorder(Ahead) && TotalPreorder(Worse)
  {
  }

  /** What one call of `best` depends on. */
  datatype Query = Query(limit: Option<nat>, exclude: set<Key>, cooldown: real, now: int, luck: Key -> real)

  predicate Eligible(e: Entry, q: Query) {
    e.key !in q.exclude && !InBackoff(e.info, q.cooldown, q.luck(e.key), q.now)
  }

  function Filtered(es: seq<Entry>, q: Query): seq<Entry> {
    if es == [] then []
    else Filtered(es[..|es| - 1], q) + if Eligible(es[|es| - 1], q) then [es[|es| - 1]] else []
  }

  /** No limit when it is absent or zero. */
  predicate Reaches(n: nat, limit: Option<nat>) {
    limit.Some? && limit.value > 0 && n >= limit.value
  }

  function Limited(es: seq<Entry>, limit: Option<nat>): seq<Entry> {
    if Reaches(|es|, limit) then es[..limit.value] else es
  }

  function Choice(es: seq<Entry>, q: Query): seq<Entry> {
    Limited(Filtered(SortBy(es, Ahead), q), q.limit)
  }

  lemma {:induction false} FilteredHas(es: seq<Entry>, q: Query)
    ensures forall e :: e in Filtered(es, q) <==> e in es && Eligible(e, q)
    ensures |Filtered(es, q)| <= |es|
  {
    hide Eligible;
    if es != [] {
      FilteredHas(es[..|es| - 1], q);
      assert es == es[..|es| - 1] + [es[|es| - 1]];
    }
  }

  lemma {:induction false} FilteredOrdered(es: seq<Entry>, q: Query)
    requires Ordered(es, Ahead)
    ensures Ordered(Filtered(es, q), Ahead)
  {
    hide Eligible, Ahead;
    if es != [] {
      var front, last := es[..|es| - 1], es[|es| - 1];
      FilteredOrdered(front, q);
      FilteredHas(front, q);
      forall i | 0 <= i < |Filtered(front, q)|
        ensures Ahead(Filtered(front, q)[i], last)
      {
        assert Filtered(front, q)[i] in front;
      }
    }
  }

  lemma {:induction false} FilteredPrefix(es: seq<Entry>, q: Query, n: nat)
    requires n <= |es|
    ensures Filtered(es[..n], q) <= Filtered(es, q)
    decreases |es| - n
  {
    if n == |es| {
      assert es[..n] == es;
    } else {
      assert es[..n + 1][..n] == es[..n];
      FilteredPrefix(es, q, n + 1);
    }
  }

  ghost predicate DistinctKeys(es: seq<Entry>) {
    forall i, j :: 0 <= i < j < |es| ==> es[i].key != es[j].key
  }

  lemma RankedEligible(es: seq<Entry>, q: Query) returns (all: seq<Entry>)
    ensures all == Filtered(SortBy(es, Ahead), q) && Ordered(all, Ahead)
    ensures forall e :: e in all <==> e in es && Eligible(e, q)
  {
    hide Eligible, Ahead, SortBy, Filtered, TotalPreorder, Tied, Ordered;
    var ranked := SortBy(es, Ahead);
    all := Filtered(ranked, q);
    Orders();
    SortSorts(es, Ahead);
    FilteredHas(ranked, q);
    FilteredOrdered(ranked, q);
    assert forall e :: e in es <==> e in multiset(es);
    assert forall e :: e in ranked <==> e in multiset(ranked);
  }

  /** The peers chosen are eligible and in order of rank; whoever is eligible and not chosen ranks no higher than
      all who are, and nobody is left out below the limit. */
  lemma ChoiceIsBest(es: seq<Entry>, q: Query)
    ensures var best := Choice(es, q);
      && (forall e :: e in best ==> e in es && Eligible(e, q))
      && Ordered(best, Ahead)
      && (forall e, b :: e in es && Eligible(e, q) && e !in best && b in best ==> Ahead(b, e))
      && (q.limit.None? || q.limit.value == 0 || |best| < q.limit.value ==>
            forall e :: e in es && Eligible(e, q) ==> e in best)
      && (q.limit.Some? && q.limit.value > 0 ==> |best| <= q.limit.value)
  {
    hide Eligible, Ahead, SortBy, Filtered;
    var all := RankedEligible(es, q);
    var best := Choice(es, q);
    assert best == all[..|best|];
    forall e, b | e in all && e !in best && b in best
      ensures Ahead(b, e)
    {
      var i :| 0 <= i < |all| && all[i] == e;
      var j :| 0 <= j < |best| && best[j] == b;
      assert i >= |best| && all[j] == b;
    }
  }

  lemma {:induction false} FilteredDistinct(es: seq<Entry>, q: Query)
    requires Distinct(es)
    ensures Distinct(Filtered(es, q))
  {
    hide Eligible;
    if es != [] {
      var front, last := es[..|es| - 1], es[|es| - 1];
      FilteredDistinct(front, q);
      FilteredHas(front, q);
      forall i | 0 <= i < |Filtered(front, q)|
        ensures Filtered(front, q)[i] != last
      {
        assert Filtered(front, q)[i] in front;
      }
    }
  }

  /** No peer is chosen twice. */
  lemma ChoiceIsDistinct(es: seq<Entry>, q: Query)
    requires DistinctKeys(es)
    ensures DistinctKeys(Choice(es, q))
  {
    hide Eligible, Ahead, SortBy, Filtered, TotalPreorder, Tied, Ordered;
    var ranked := SortBy(es, Ahead);
    Orders();
    SortSorts(es, Ahead);
    PermutationDistinct(es, ranked);
    FilteredDistinct(ranked, q);
    FilteredHas(ranked, q);
    var best := Choice(es, q);
    forall i, j | 0 <= i < j < |best|
      ensures best[i].key != best[j].key
    {
      var all := Filtered(ranked, q);
      assert all[i] in ranked && all[j] in ranked && all[i] != all[j];
    }
  }

  /** Whenever the second is chosen, the first is chosen before it. */
  ghost predicate ChosenFirst(best: seq<Entry>, a: Entry, b: Entry) {
    forall j :: 0 <= j < |best| && best[j] == b ==> exists i :: 0 <= i < j && best[i] == a
  }

  lemma AheadIsChosenFirst(es: seq<Entry>, q: Query, a: Entry, b: Entry)
    requires a in es && b in es && Eligible(a, q) && !Ahead(b, a)
    ensures ChosenFirst(Choice(es, q), a, b)
  {
    hide Eligible, Ahead, SortBy, Filtered;
    var all := RankedEligible(es, q);
    var best := Choice(es, q);
    assert Ahead(b, b) by { Orders(); }
    forall j | 0 <= j < |best| && best[j] == b
      ensures exists i :: 0 <= i < j && best[i] == a
    {
      var i :| 0 <= i < |all| && all[i] == a;
      assert all[j] == b;
      assert best[i] == a;
    }
  }

  /** Of two peers free to be dialed, the one with more points comes first, and with as many points the one seen longer
      ago: a point for each point of rating, two for having ever made an offer, and one less for each of up to eight
      failures in a row. */
  lemma PointsDecide(es: seq<Entry>, q: Query, a: Entry, b: Entry, fa: int, fb: int)
    requires a in es && b in es && Eligible(a, q) && Eligible(b, q)
    requires fa == Min(Max(a.info.failCount, 0), 8) && fb == Min(Max(b.info.failCount, 0), 8)
    requires var pa := a.info.rating + (if a.info.invCount > 0 then 2.0 else 0.0) - fa as real;
      var pb := b.info.rating + (if b.info.invCount > 0 then 2.0 else 0.0) - fb as real;
      pa > pb || (pa == pb && a.info.lastSeen < b.info.lastSeen)
    ensures ChosenFirst(Choice(es, q), a, b)
  {
    AheadIsChosenFirst(es, q, a, b);
  }

  /** A peer that has made an offer is worth as much as one that has not and is rated two points higher or has failed
      two times less: one point more or less on either side decides. */
  lemma OfferIsWorthTwo(es: seq<Entry>, q: Query, a: Entry, b: Entry)
    requires a in es && b in es && Eligible(a, q) && Eligible(b, q) && a.info.invCount > 0 && b.info.invCount == 0
    requires 0 <= a.info.failCount <= 8 && 0 <= b.info.failCount <= 8
    ensures a.info.failCount == b.info.failCount && a.info.rating > b.info.rating - 2.0 ==>
              ChosenFirst(Choice(es, q), a, b)
    ensures a.info.failCount == b.info.failCount && a.info.rating < b.info.rating - 2.0 ==>
              ChosenFirst(Choice(es, q), b, a)
    ensures a.info.rating == b.info.rating && a.info.failCount < b.info.failCount + 2 ==>
              ChosenFirst(Choice(es, q), a, b)
    ensures a.info.rating == b.info.rating && a.info.failCount > b.info.failCount + 2 ==>
              ChosenFirst(Choice(es, q), b, a)
  {
    hide Choice, Eligible, ChosenFirst;
    if a.info.rating + 2.0 - a.info.failCount as real > b.info.rating - b.info.failCount as real {
      PointsDecide(es, q, a, b, a.info.failCount, b.info.failCount);
    } else if a.info.rating + 2.0 - a.info.failCount as real < b.info.rating - b.info.failCount as real {
      PointsDecide(es, q, b, a, b.info.failCount, a.info.failCount);
    }
  }

  /** Nobody dialed on the strength of this choice is dialed again too soon. */
  lemma ChosenHaveWaited(es: seq<Entry>, q: Query, e: Entry)
    requires q.cooldown == BACKOFF_BASE_SECONDS && 0.0 <= q.luck(e.key) <= 1.0
    requires e in Choice(es, q) && (e.info.rating < 0.0 || e.info.failCount > 0)
    ensures (q.now - e.info.lastTry) as real >=
            MinReal(60.0 * Pow2(if Fails(e.info) < 10 then Fails(e.info) else 10), 3600.0)
  {
    hide InBackoff, SortBy;
    ChoiceIsBest(es, q);
    BackoffBounds(e.info, q.luck(e.key), q.now);
  }

  // ---- the entries ---------------------------------------------------------------------

  function Find(es: seq<Entry>, key: Key): (r: Option<nat>)
    ensures r.Some? ==> r.value < |es| && es[r.value].key == key
    ensures r.None? <==> forall i :: 0 <= i < |es| ==> es[i].key != key
  {
    if es == [] then None
    else if es[|es| - 1].key == key then Some(|es| - 1)
    else Find(es[..|es| - 1], key)
  }

  /** `entries[key] = info` */
  function Put(es: seq<Entry>, key: Key, info: Info): seq<Entry> {
    match Find(es, key)
    case Some(i) => es[i := Entry(key, info)]
    case None => es + [Entry(key, info)]
  }

  function Without(es: seq<Entry>, gone: set<Key>): seq<Entry> {
    if es == [] then []
    else Without(es[..|es| - 1], gone) + if es[|es| - 1].key in gone then [] else [es[|es| - 1]]
  }

  lemma {:induction false} WithoutHas(es: seq<Entry>, gone: set<Key>)
    requires DistinctKeys(es)
    ensures forall e :: e in Without(es, gone) <==> e in es && e.key !in gone
    ensures DistinctKeys(Without(es, gone))
  {
    if es != [] {
      var front, last := es[..|es| - 1], es[|es| - 1];
      assert es == front + [last];
      WithoutHas(front, gone);
      forall i | 0 <= i < |Without(front, gone)|
        ensures Without(front, gone)[i].key != last.key
      {
        assert Without(front, gone)[i] in front;
      }
    }
  }

  function InfoOf(es: seq<Entry>, key: Key): Option<Info> {
    match Find(es, key)
    case Some(i) => Some(es[i].info)
    case None => None
  }

  /** Setting an entry changes no other, and no key comes twice. */
  lemma PutKeeps(es: seq<Entry>, key: Key, info: Info)
    requires DistinctKeys(es)
    ensures var r := Put(es, key, info); DistinctKeys(r) && |r| == |es| + if InfoOf(es, key).Some? then 0 else 1
    ensures forall e :: e in Put(es, key, info) <==> e == Entry(key, info) || (e in es && e.key != key)
  {
    hide Find;
    var r := Put(es, key, info);
    forall e | e in es && e.key != key
      ensures e in r
    {
      var i :| 0 <= i < |es| && es[i] == e;
      assert r[i] == e;
    }
    assert r[match Find(es, key) case Some(i) => i case None => |es|] == Entry(key, info);
    forall e | e in r && e != Entry(key, info)
      ensures e in es && e.key != key
    {
      var i :| 0 <= i < |r| && r[i] == e;
      assert es[i] == e;
    }
  }

  lemma InfoInStore(es: seq<Entry>, e: Entry)
    requires DistinctKeys(es)
    ensures e in es <==> InfoOf(es, e.key) == Some(e.info)
  {
    hide Find;
    if e in es {
      var i :| 0 <= i < |es| && es[i] == e;
      var j := Find(es, e.key).value;
      assert i == j;
    }
  }

  lemma {:induction false} WithoutSize(es: seq<Entry>, gone: set<Key>)
    requires DistinctKeys(es) && forall k :: k in gone ==> exists e :: e in es && e.key == k
    ensures |Without(es, gone)| == |es| - |gone|
  {
    if es == [] {
      assert gone == {};
    } else {
      var front, last := es[..|es| - 1], es[|es| - 1];
      assert es == front + [last];
      forall k | k in gone - {last.key}
        ensures exists e :: e in front && e.key == k
      {
        var e :| e in es && e.key == k;
        assert e in front;
      }
      WithoutSize(front, gone - {last.key});
      WithoutOther(front, gone, last.key);
    }
  }

  lemma {:induction false} WithoutOther(es: seq<Entry>, gone: set<Key>, key: Key)
    requires forall e :: e in es ==> e.key != key
    ensures Without(es, gone) == Without(es, gone - {key})
  {
    if es != [] {
      assert es == es[..|es| - 1] + [es[|es| - 1]];
      WithoutOther(es[..|es| - 1], gone, key);
    }
  }

  // ---- what the operations do ------------------------------------------------------------

  predicate IsAddress(key: Key) {
    key.0 != "" && 1 <= key.1 <= 65535
  }

  /** The store with the peer noted as seen now. */
  function Seen(es: seq<Entry>, key: Key, stream: int, services: int, rating: real, now: int): seq<Entry> {
    match InfoOf(es, key)
    case Some(info) => Put(es, key, info.(lastSeen := now, stream := stream, services := services))
    case None => Put(es, key, Info(stream, services, now, rating, 0, 0, 0, 0, 0))
  }

  /** Over the limit, the worst rated are dropped. */
  ghost predicate CutDown(full: seq<Entry>, kept: seq<Entry>) {
    if |full| <= 5000 then kept == full
    else
      && |kept| == 5000 && (forall e :: e in kept ==> e in full)
      && forall e, d :: e in kept && d in full && d !in kept ==>
        d.info.rating < e.info.rating || (d.info.rating == e.info.rating && d.info.lastSeen <= e.info.lastSeen)
  }

  /** No peer in the store has failed five times in a row. */
  ghost predicate FewFailures(es: seq<Entry>) {
    forall e :: e in es ==> e.info.failCount < MAX_CONSECUTIVE_FAILURES
  }

  function Failed(info: Info, now: int): Info {
    info.(rating := info.rating - 1.0, lastTry := now, failCount := info.failCount + 1)
  }

  /** Forgives the failures; the rating grows by a point until it is ten. */
  function Succeeded(info: Info, now: int): (r: Info)
    ensures r == info.(rating := r.rating, lastTry := now, failCount := 0)
    ensures info.rating <= 9.0 ==> r.rating == info.rating + 1.0
    ensures info.rating >= 9.0 ==> r.rating == 10.0
  {
    info.(rating := MinReal(info.rating + 1.0, 10.0), lastTry := now, failCount := 0)
  }

  /** Costs as much rating as two failures, but counts as none. */
  function Muted(info: Info, now: int): (r: Info)
    ensures r == info.(rating := Failed(Failed(info, now), now).rating, lastTry := now, muteCount := info.muteCount + 1)
  {
    info.(rating := info.rating - 2.0, lastTry := now, muteCount := info.muteCount + 1)
  }

  function Productive(info: Info, now: int): (r: Info)
    ensures info.invCount >= 0 ==> r.invCount > 0
    ensures r == info.(invCount := r.invCount, lastInv := now)
  {
    info.(invCount := info.invCount + 1, lastInv := now)
  }

  /** The store after an attempt to dial the peer. */
  function AfterAttempt(es: seq<Entry>, key: Key, now: int): seq<Entry> {
    match InfoOf(es, key)
    case Some(info) => Put(es, key, info.(lastTry := now))
    case None => es
  }

  /** The fifth failure in a row removes the peer. */
  function AfterFailure(es: seq<Entry>, key: Key, now: int): seq<Entry> {
    match InfoOf(es, key)
    case Some(info) =>
      if info.failCount + 1 >= MAX_CONSECUTIVE_FAILURES then Without(es, {key}) else Put(es, key, Failed(info, now))
    case None => es
  }

  function AfterMute(es: seq<Entry>, key: Key, now: int): seq<Entry> {
    match InfoOf(es, key)
    case Some(info) => Put(es, key, Muted(info, now))
    case None => es
  }

  /** A failure that does not remove the peer keeps it from being chosen for a minute, doubled for every failure in
      a row before it. */
  lemma FailureDelays(es: seq<Entry>, key: Key, info: Info, failedAt: int, q: Query)
    requires DistinctKeys(es) && InfoOf(es, key) == Some(Failed(info, failedAt)) && info.failCount >= 0
    requires q.cooldown == BACKOFF_BASE_SECONDS && 0.0 <= q.luck(key) <= 1.0
    requires (q.now - failedAt) as real <
             MinReal(60.0 * Pow2(if info.failCount < 9 then info.failCount + 1 else 10), 3600.0)
    ensures forall e :: e in Choice(es, q) ==> e.key != key
  {
    hide InBackoff, Choice, Find;
    ChoiceIsBest(es, q);
    forall e | e in Choice(es, q)
      ensures e.key != key
    {
      if e.key == key {
        InfoInStore(es, e);
        BackoffBounds(e.info, q.luck(key), q.now);
      }
    }
  }

  function AllFailed(es: seq<Entry>, key: Key, times: seq<int>): seq<Entry> {
    if times == [] then es else AfterFailure(AllFailed(es, key, times[..|times| - 1]), key, times[|times| - 1])
  }

  /** Failures in a row: each costs a point of rating and starts the wait anew; the one that makes five drops the peer
      and nobody else, and without the peer nothing happens. */
  lemma {:induction false} FailuresInRow(es: seq<Entry>, key: Key, times: seq<int>)
    requires DistinctKeys(es)
    ensures DistinctKeys(AllFailed(es, key, times))
    ensures var n := |times|; var before, after := InfoOf(es, key), InfoOf(AllFailed(es, key, times), key);
      if n == 0 then after == before
      else if before.None? || before.value.failCount + n >= 5 then after == None
      else after == Some(before.value.(rating := before.value.rating - n as real, lastTry := times[n - 1],
                                       failCount := before.value.failCount + n))
    ensures forall e: Entry :: e.key != key ==> (e in AllFailed(es, key, times) <==> e in es)
  {
    hide Find, Put, Without;
    if times != [] {
      var front, t := times[..|times| - 1], times[|times| - 1];
      var mid := AllFailed(es, key, front);
      FailuresInRow(es, key, front);
      WithoutHas(mid, {key});
      match InfoOf(mid, key) {
        case Some(info) =>
          PutKeeps(mid, key, Failed(info, t));
          InfoInStore(Put(mid, key, Failed(info, t)), Entry(key, Failed(info, t)));
        case None =>
      }
      NotInStore(Without(mid, {key}), key);
      NotInStore(mid, key);
    }
  }

  lemma NotInStore(es: seq<Entry>, key: Key)
    ensures InfoOf(es, key).None? <==> forall e :: e in es ==> e.key != key
  {
    hide Find;
    if InfoOf(es, key).Some? {
      assert es[Find(es, key).value] in es;
    }
  }

  class Store {
    var entries: seq<Entry>

    constructor ()
      ensures entries == []
    {
      entries := [];
    }

    ghost predicate Valid()
      reads this
    {
      DistinctKeys(entries)
    }

    method Add(key: Key, stream: int, services: int, rating: real, now: int)
      requires Valid()
      modifies this
      ensures Valid() && (FewFailures(old(entries)) ==> FewFailures(entries))
      ensures if key.0 != "" && 1 <= key.1 <= 65535
              then CutDown(Seen(old(entries), key, stream, services, rating, now), entries)
              else entries == old(entries)
    {
      hide Find, Put, Worse, InfoOf;
      if !IsAddress(key) {
        return;
      }
      ghost var before := entries;
      match InfoOf(entries, key) {
        case Some(info) =>
          entries := Put(entries, key, info.(lastSeen := now, stream := stream, services := services));
          PutKeeps(before, key, info.(lastSeen := now, stream := stream, services := services));
          InfoInStore(before, Entry(key, info));
        case None =>
          entries := Put(entries, key, Info(stream, services, now, rating, 0, 0, 0, 0, 0));
          PutKeeps(before, key, Info(stream, services, now, rating, 0, 0, 0, 0, 0));
      }
      EvictWorst();
    }

    method EvictWorst()
      requires Valid()
      modifies this
      ensures Valid() && CutDown(old(entries), entries)
      ensures forall e :: e in entries ==> e in old(entries)
    {
      hide Worse, Without, DistinctKeys, SortBy, CutDown;
      if |entries| > MAX_PEERS {
        ghost var full := entries;
        var ranked := SortBy(entries, Worse);
        RankedIsSame(full, ranked);
        var excess := |entries| - MAX_PEERS;
        for i := 0 to excess
          invariant Valid() && |entries| == |full| - i
          invariant forall e :: e in entries <==> e in full && e !in ranked[..i]
        {
          DropOne(full, ranked, i, entries);
          entries := Without(entries, {ranked[i].key});
        }
        CutWorst(full, ranked, excess, entries);
      } else {
        NothingCut(entries);
      }
    }

    method RecordAttempt(key: Key, now: int)
      requires Valid()
      modifies this
      ensures Valid() && (FewFailures(old(entries)) ==> FewFailures(entries))
      ensures entries == AfterAttempt(old(entries), key, now)
    {
      hide Find, Put;
      match InfoOf(entries, key)
      case Some(info) => Set(key, info.(lastTry := now));
      case None =>
    }

    /** Says whether the peer was dropped, which it is at the fifth failure in a row. */
    method RecordFailure(key: Key, now: int) returns (pruned: bool)
      requires Valid()
      modifies this
      ensures Valid() && (FewFailures(old(entries)) ==> FewFailures(entries))
      ensures entries == AfterFailure(old(entries), key, now)
      ensures var info := InfoOf(old(entries), key);
        pruned == (info.Some? && info.value.failCount + 1 >= MAX_CONSECUTIVE_FAILURES)
    {
      hide Find, Put;
      match InfoOf(entries, key)
      case None => pruned := false;
      case Some(info) =>
        InfoInStore(entries, Entry(key, info));
        pruned := info.failCount + 1 >= MAX_CONSECUTIVE_FAILURES;
        if pruned {
          WithoutHas(entries, {key});
          entries := Without(entries, {key});
        } else {
          Set(key, Failed(info, now));
        }
    }

    method RecordSuccess(key: Key, now: int)
      requires Valid()
      modifies this
      ensures Valid() && (FewFailures(old(entries)) ==> FewFailures(entries))
      ensures entries == match InfoOf(old(entries), key)
                case Some(info) => Put(old(entries), key, Succeeded(info, now))
                case None => old(entries)
    {
      hide Find, Put;
      match InfoOf(entries, key)
      case Some(info) => Set(key, Succeeded(info, now));
      case None =>
    }

    method RecordInv(key: Key, now: int)
      requires Valid()
      modifies this
      ensures Valid() && (FewFailures(old(entries)) ==> FewFailures(entries))
      ensures entries == match InfoOf(old(entries), key)
                case Some(info) =>
                  Put(old(entries), key, info.(invCount := info.invCount + 1, lastInv := now))
                case None => old(entries)
    {
      hide Find, Put;
      match InfoOf(entries, key)
      case Some(info) =>
        InfoInStore(entries, Entry(key, info));
        Set(key, Productive(info, now));
      case None =>
    }

    method RecordMute(key: Key, now: int)
      requires Valid()
      modifies this
      ensures Valid() && (FewFailures(old(entries)) ==> FewFailures(entries))
      ensures entries == AfterMute(old(entries), key, now)
    {
      hide Find, Put;
      match InfoOf(entries, key)
      case Some(info) =>
        InfoInStore(entries, Entry(key, info));
        Set(key, Muted(info, now));
      case None =>
    }

    method Set(key: Key, info: Info)
      requires Valid()
      modifies this
      ensures Valid() && entries == Put(old(entries), key, info)
      ensures FewFailures(old(entries)) && info.failCount < MAX_CONSECUTIVE_FAILURES ==> FewFailures(entries)
    {
      hide Put;
      PutKeeps(entries, key, info);
      entries := Put(entries, key, info);
    }

    /** Whom to dial: the choice of the ranking, by walking down it. */
    method Best(q: Query) returns (result: seq<Entry>)
      ensures result == Choice(entries, q)
    {
      hide Eligible, SortBy;
      var ranked := SortBy(entries, Ahead);
      result := [];
      for i := 0 to |ranked|
        invariant result == Filtered(ranked[..i], q) && !Reaches(|result|, q.limit)
      {
        assert ranked[..i + 1][..i] == ranked[..i];
        FilteredPrefix(ranked, q, i + 1);
        if !Eligible(ranked[i], q) {
          continue;
        }
        result := result + [ranked[i]];
        if Reaches(|result|, q.limit) {
          return;
        }
      }
      assert ranked[..|ranked|] == ranked;
    }
  }

  lemma RankedIsSame(full: seq<Entry>, ranked: seq<Entry>)
    requires DistinctKeys(full) && ranked == SortBy(full, Worse)
    ensures |ranked| == |full| && Ordered(ranked, Worse) && Distinct(ranked) && (forall e :: e in ranked <==> e in full)
  {
    hide SortBy, Worse, TotalPreorder, Tied, Ordered;
    Orders();
    SortSorts(full, Worse);
    PermutationDistinct(full, ranked);
  }

  lemma NothingCut(es: seq<Entry>)
    requires |es| <= MAX_PEERS
    ensures CutDown(es, es)
  {
  }

  lemma DropOne(full: seq<Entry>, ranked: seq<Entry>, i: nat, es: seq<Entry>)
    requires i < |ranked| && DistinctKeys(full) && DistinctKeys(es) && ranked[i] in full
    requires forall j :: 0 <= j < i ==> ranked[j] != ranked[i]
    requires forall e :: e in es <==> e in full && e !in ranked[..i]
    ensures var less := Without(es, {ranked[i].key});
      && DistinctKeys(less) && |less| == |es| - 1
      && forall e :: e in less <==> e in full && e !in ranked[..i + 1]
  {
    hide Without, DistinctKeys;
    var oldKey := ranked[i].key;
    assert ranked[i] !in ranked[..i];
    assert ranked[i] in es;
    WithoutHas(es, {oldKey});
    WithoutSize(es, {oldKey});
    SameKeySame(full, ranked[i]);
    assert ranked[..i + 1] == ranked[..i] + [ranked[i]];
  }

  lemma SameKeySame(es: seq<Entry>, e: Entry)
    requires DistinctKeys(es) && e in es
    ensures forall d :: d in es && d.key == e.key ==> d == e
  {
  }

  lemma CutWorst(full: seq<Entry>, ranked: seq<Entry>, excess: nat, kept: seq<Entry>)
    requires excess <= |ranked| && Ordered(ranked, Worse) && (forall e :: e in ranked <==> e in full)
    requires |full| > MAX_PEERS && |kept| == MAX_PEERS && forall e :: e in kept <==> e in full && e !in ranked[..excess]
    ensures CutDown(full, kept)
  {
    forall e, d | e in kept && d in full && d !in kept
      ensures Worse(d, e)
    {
      var dropped, rest := ranked[..excess], ranked[excess..];
      assert ranked == dropped + rest;
      assert e in rest && d in dropped;
      var i :| 0 <= i < |rest| && rest[i] == e;
      var j :| 0 <= j < excess && dropped[j] == d;
      assert ranked[excess + i] == e && ranked[j] == d;
    }
  }
}
