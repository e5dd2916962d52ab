/** The budget of peer connections: dialing, eviction and pruning (bmchat/net/manager.py). */
module Connections {
  import opened Bytes
  import opened Collections
  import opened Sorting
  import opened Positional
  import PeerStore

  type Key = PeerStore.Key
  type Time = real

  const BOOT_EXTRA_SLOTS: nat := 6
  const HANDSHAKE_TIMEOUT: Time := 20.0
  const SILENT_TIMEOUT: Time := 60.0

  datatype Conn = Conn(
    key: Key, startedAt: Time, alive: bool, established: bool, connectedAt: Option<Time>, lastUseful: Option<Time>)

  function Dialed(key: Key, now: Time): Conn {
    Conn(key, now, true, false, None, None)
  }

  function MaxConnections(setting: int): (n: nat)
    ensures 1 <= n <= 50 && (1 <= setting <= 50 ==> n == setting)
    ensures (setting <= 1 ==> n == 1) && (setting >= 50 ==> n == 50)
  {
    var capped := if setting < 50 then setting else 50;
    if capped > 1 then capped else 1
  }

  function Cap(max: nat): nat {
    max + BOOT_EXTRA_SLOTS
  }

  function EstablishedCount(conns: seq<Conn>): (n: nat)
    ensures n <= |conns|
  {
    if conns == [] then 0 else EstablishedCount(conns[..|conns| - 1]) + if conns[|conns| - 1].established then 1 else 0
  }

  /** The established connections, counted as a set. */
  lemma {:induction false} EstablishedIs(conns: seq<Conn>)
    requires OnePerKey(conns)
    ensures EstablishedCount(conns) == |set c | c in conns && c.established|
  {
    if conns != [] {
      var front, last := conns[..|conns| - 1], conns[|conns| - 1];
      assert conns == front + [last];
      EstablishedIs(front);
      var before := set c | c in front && c.established;
      assert last !in before;
      OneMoreEstablished(front, last);
    }
  }

  lemma OneMoreEstablished(front: seq<Conn>, last: Conn)
    ensures (set c | c in front + [last] && c.established) ==
            (set c | c in front && c.established) + if last.established then {last} else {}
  {
  }

  /** How many peers a tick may dial. */
  function Goal(conns: seq<Conn>, max: nat): (goal: nat)
    ensures goal <= max && (goal > 0 ==> |conns| + goal <= Cap(max))
  {
    var need := max - EstablishedCount(conns);
    var budget := Cap(max) - |conns|;
    if need <= 0 || budget <= 0 then 0 else Min(need, budget)
  }

  /** The goal in full: as many as are missing, counting established connections only, if the cap leaves room. */
  lemma GoalIs(conns: seq<Conn>, max: nat)
    requires OnePerKey(conns)
    ensures var established := |set c | c in conns && c.established|; var goal := Goal(conns, max);
      if established >= max || |conns| >= max + 6 then goal == 0
      else
        && goal > 0 && established + goal <= max && |conns| + goal <= max + 6
        && (established + goal == max || |conns| + goal == max + 6)
  {
    EstablishedIs(conns);
  }

  ghost predicate HasKey(conns: seq<Conn>, key: Key) {
    exists i :: 0 <= i < |conns| && conns[i].key == key
  }

  /** The first connection with the key. */
  function IndexOf(conns: seq<Conn>, key: Key): (r: Option<nat>)
    ensures r.Some? <==> HasKey(conns, key)
    ensures r.Some? ==> r.value < |conns| && conns[r.value].key == key
  {
    if conns == [] then None
    else
      match IndexOf(conns[..|conns| - 1], key)
      case Some(i) => Some(i)
      case None => if conns[|conns| - 1].key == key then Some(|conns| - 1) else None
  }

  // ---- trimming ------------------------------------------------------------------------

  predicate StartedBefore(a: Conn, b: Conn) {
    a.startedAt <= b.startedAt
  }

  ghost predicate OnePerKey(conns: seq<Conn>) {
    forall i, j :: 0 <= i < j < |conns| ==> conns[i].key != conns[j].key
  }

  /** What closing the oldest connections down to the cap leaves. */
  ghost predicate TrimmedTo(conns: seq<Conn>, kept: seq<Conn>, cap: nat) {
    if |conns| <= cap then kept == conns
    else
      && |kept| == cap && OnePerKey(kept) && (forall c :: c in kept ==> c in conns)
      && forall c, d :: c in kept && d in conns && d !in kept ==> d.startedAt <= c.startedAt
  }

  // ---- any interleaving of ticks and peer threads ----------------------------------------

  /** The connections, and for every tick under way how many more peers it may dial. Each tick reads the table once,
      at its start; in between, the peer threads go on. */
  datatype State = State(conns: seq<Conn>, ticks: seq<nat>)

  datatype Event =
    | TickStart
    | Dial(tick: nat, key: Key, now: Time)
    | TickEnd(tick: nat)
    | Change(index: nat, conn: Conn)
    | Leave(index: nat)

  function Next(s: State, max: nat, e: Event): State {
    match e
    case TickStart => s.(ticks := s.ticks + [Goal(s.conns, max)])
    case Dial(t, key, now) =>
      if t < |s.ticks| && s.ticks[t] > 0
      then State(if IndexOf(s.conns, key).Some? then s.conns else s.conns + [Dialed(key, now)],
          s.ticks[t := s.ticks[t] - 1])
      else s
    case TickEnd(t) => if t < |s.ticks| then s.(ticks := s.ticks[..t] + s.ticks[t + 1..]) else s
    case Change(i, conn) => if i < |s.conns| && conn.key == s.conns[i].key then s.(conns := s.conns[i := conn]) else s
    case Leave(i) => if i < |s.conns| then s.(conns := s.conns[..i] + s.conns[i + 1..]) else s
  }

  function Run(s: State, max: nat, events: seq<Event>): State
    decreases |events|
  {
    if events == [] then s else Run(Next(s, max, events[0]), max, events[1..])
  }

  /** No more than `k` ticks are ever under way at once. */
  predicate AtMost(s: State, max: nat, events: seq<Event>, k: nat)
    decreases |events|
  {
    |s.ticks| <= k && (events == [] || AtMost(Next(s, max, events[0]), max, events[1..], k))
  }

  function Sum(xs: seq<nat>): nat {
    if xs == [] then 0 else xs[0] + Sum(xs[1..])
  }

  lemma {:induction false} SumParts(xs: seq<nat>, i: nat, n: nat)
    requires i < |xs|
    ensures Sum(xs) == Sum(xs[..i] + xs[i + 1..]) + xs[i]
    ensures Sum(xs[i := n]) == Sum(xs) - xs[i] + n
  {
    if i == 0 {
      assert xs[..0] + xs[1..] == xs[1..];
      assert xs[0 := n][1..] == xs[1..];
    } else {
      SumParts(xs[1..], i - 1, n);
      assert (xs[..i] + xs[i + 1..])[1..] == xs[1..][..i - 1] + xs[1..][i..];
      assert xs[i := n][1..] == xs[1..][i - 1 := n];
    }
  }

  lemma {:induction false} SumAppend(xs: seq<nat>, n: nat)
    ensures Sum(xs + [n]) == Sum(xs) + n
  {
    if xs != [] {
      SumAppend(xs[1..], n);
      assert (xs + [n])[1..] == xs[1..] + [n];
    }
  }

  lemma {:induction false} SumBound(xs: seq<nat>, max: nat)
    requires forall i :: 0 <= i < |xs| ==> xs[i] <= max
    ensures Sum(xs) <= |xs| * max
  {
    if xs != [] {
      SumBound(xs[1..], max);
    }
  }

  /** Connections and dials still to come together stay within the cap and a further `max` for every tick but one. */
  predicate Budgeted(s: State, max: nat, k: nat) {
    && (forall i :: 0 <= i < |s.ticks| ==> s.ticks[i] <= max)
    && |s.conns| + Sum(s.ticks) <= Cap(max) + (k - 1) * max
  }

  lemma StartKeepsBudget(s: State, max: nat, k: nat)
    requires Budgeted(s, max, k) && |s.ticks| < k
    ensures |s.conns| + Sum(s.ticks + [Goal(s.conns, max)]) <= Cap(max) + (k - 1) * max
  {
    hide Sum, Goal;
    SumAppend(s.ticks, Goal(s.conns, max));
    SumBound(s.ticks, max);
    MulMono(|s.ticks|, k - 1, max);
  }

  lemma StepKeepsBudget(s: State, max: nat, e: Event, k: nat)
    requires k > 0 && Budgeted(s, max, k) && |Next(s, max, e).ticks| <= k
    ensures Budgeted(Next(s, max, e), max, k)
  {
    hide Sum, IndexOf, Goal;
    match e
    case TickStart => StartKeepsBudget(s, max, k);
    case Dial(t, _, _) =>
      if t < |s.ticks| && s.ticks[t] > 0 {
        SumParts(s.ticks, t, s.ticks[t] - 1);
      }
    case TickEnd(t) =>
      if t < |s.ticks| {
        SumParts(s.ticks, t, 0);
      }
    case _ =>
  }

  /** However ticks, handshakes, departures and evictions interleave: with at most `k` ticks at once there are never
      more connections than the cap and `max` more for each further tick. One tick at a time keeps to the cap. */
  lemma {:induction false} RunKeepsBudget(s: State, max: nat, events: seq<Event>, k: nat)
    requires k > 0 && Budgeted(s, max, k) && AtMost(s, max, events, k)
    ensures Budgeted(Run(s, max, events), max, k)
    ensures |Run(s, max, events).conns| <= Cap(max) + (k - 1) * max
    ensures k == 1 ==> |Run(s, max, events).conns| <= Cap(max)
    decreases |events|
  {
    hide Budgeted, Next;
    if events == [] {
      BudgetBounds(s, max, k);
    } else {
      StepKeepsBudget(s, max, events[0], k);
      RunKeepsBudget(Next(s, max, events[0]), max, events[1..], k);
    }
  }

  lemma BudgetBounds(s: State, max: nat, k: nat)
    requires k > 0 && Budgeted(s, max, k)
    ensures |s.conns| <= Cap(max) + (k - 1) * max
  {
  }

  // ---- the bound is exact ----------------------------------------------------------------

  lemma {:induction false} RunAppend(s: State, max: nat, a: seq<Event>, b: seq<Event>)
    ensures Run(s, max, a + b) == Run(Run(s, max, a), max, b)
    decreases |a|
  {
    if a == [] {
      assert a + b == b;
    } else {
      assert (a + b)[1..] == a[1..] + b;
      RunAppend(Next(s, max, a[0]), max, a[1..], b);
    }
  }

  lemma {:induction false} AtMostAppend(s: State, max: nat, a: seq<Event>, b: seq<Event>, k: nat)
    requires AtMost(s, max, a, k) && AtMost(Run(s, max, a), max, b, k)
    ensures AtMost(s, max, a + b, k)
    decreases |a|
  {
    if a == [] {
      assert a + b == b;
    } else {
      assert (a + b)[1..] == a[1..] + b;
      AtMostAppend(Next(s, max, a[0]), max, a[1..], b, k);
    }
  }

  /** `n` half-open connections. */
  function HalfOpen(n: nat): (conns: seq<Conn>)
    ensures |conns| == n
  {
    seq(n, i => Dialed(("peer", i), 0.0))
  }

  lemma {:induction false} NoneEstablished(conns: seq<Conn>)
    requires forall c :: c in conns ==> !c.established
    ensures EstablishedCount(conns) == 0
  {
    if conns != [] {
      NoneEstablished(conns[..|conns| - 1]);
    }
  }

  lemma GoalOfHalfOpen(n: nat, max: nat)
    requires max > 0
    ensures Goal(HalfOpen(n), max) == if n >= Cap(max) then 0 else Min(max, Cap(max) - n)
  {
    NoneEstablished(HalfOpen(n));
  }

  lemma DialNext(n: nat, ticks: seq<nat>, t: nat, max: nat)
    requires t < |ticks| && ticks[t] > 0
    ensures Next(State(HalfOpen(n), ticks), max, Dial(t, ("peer", n), 0.0)) ==
        State(HalfOpen(n + 1), ticks[t := ticks[t] - 1])
  {
    assert IndexOf(HalfOpen(n), ("peer", n)).None?;
    assert HalfOpen(n + 1) == HalfOpen(n) + [Dialed(("peer", n), 0.0)];
  }

  /** Ticks that start together all see an empty table. */
  lemma {:induction false} StartTogether(max: nat, k: nat) returns (events: seq<Event>)
    requires max > 0
    ensures AtMost(State([], []), max, events, k) && Run(State([], []), max, events) == State([], seq(k, _ => max))
    decreases k
  {
    if k == 0 {
      events := [];
      assert seq(0, _ => max) == [];
    } else {
      var before := StartTogether(max, k - 1);
      events := before + [TickStart];
      AtMostMore(State([], []), max, before, k - 1, k);
      RunAppend(State([], []), max, before, [TickStart]);
      assert HalfOpen(0) == [];
      GoalOfHalfOpen(0, max);
      assert seq(k - 1, _ => max) + [max] == seq(k, _ => max);
      OneMore(State([], seq(k - 1, _ => max)), max, TickStart, k);
      AtMostAppend(State([], []), max, before, [TickStart], k);
    }
  }

  lemma {:induction false} AtMostMore(s: State, max: nat, events: seq<Event>, k: nat, m: nat)
    requires AtMost(s, max, events, k) && k <= m
    ensures AtMost(s, max, events, m)
    decreases |events|
  {
    if events != [] {
      AtMostMore(Next(s, max, events[0]), max, events[1..], k, m);
    }
  }

  lemma OneMore(s: State, max: nat, e: Event, k: nat)
    requires |s.ticks| <= k && |Next(s, max, e).ticks| <= k
    ensures AtMost(s, max, [e], k) && Run(s, max, [e]) == Next(s, max, e)
  {
    hide Next;
    assert [e][1..] == [];
  }

  /** One more tick that dials a single peer. */
  lemma ShortTick(n: nat, ticks: seq<nat>, max: nat) returns (events: seq<Event>)
    requires max > 0 && n < Cap(max)
    ensures AtMost(State(HalfOpen(n), ticks), max, events, |ticks| + 1)
    ensures Run(State(HalfOpen(n), ticks), max, events) == State(HalfOpen(n + 1), ticks)
  {
    hide Next, AtMost, Run, HalfOpen, Goal;
    var s := State(HalfOpen(n), ticks);
    var goal := Goal(s.conns, max);
    var t := |ticks|;
    GoalOfHalfOpen(n, max);
    var e0, e1, e2 := TickStart, Dial(t, ("peer", n), 0.0), TickEnd(t);
    StartStep(s, max);
    DialNext(n, ticks + [goal], t, max);
    EndStep(State(HalfOpen(n + 1), (ticks + [goal])[t := goal - 1]), max, t);
    var more := (ticks + [goal])[t := goal - 1];
    assert more[..t] + more[t + 1..] == ticks;
    OneMore(s, max, e0, t + 1);
    OneMore(Next(s, max, e0), max, e1, t + 1);
    OneMore(State(HalfOpen(n + 1), more), max, e2, t + 1);
    RunAppend(s, max, [e0], [e1]);
    AtMostAppend(s, max, [e0], [e1], t + 1);
    RunAppend(s, max, [e0] + [e1], [e2]);
    AtMostAppend(s, max, [e0] + [e1], [e2], t + 1);
    events := [e0] + [e1] + [e2];
  }

  lemma StartStep(s: State, max: nat)
    ensures Next(s, max, TickStart) == State(s.conns, s.ticks + [Goal(s.conns, max)])
  {
  }

  lemma EndStep(s: State, max: nat, t: nat)
    requires t < |s.ticks|
    ensures Next(s, max, TickEnd(t)) == State(s.conns, s.ticks[..t] + s.ticks[t + 1..])
  {
  }

  lemma {:induction false} ShortTicks(n: nat, m: nat, ticks: seq<nat>, max: nat) returns (events: seq<Event>)
    requires max > 0 && n <= m <= Cap(max)
    ensures AtMost(State(HalfOpen(n), ticks), max, events, |ticks| + 1)
    ensures Run(State(HalfOpen(n), ticks), max, events) == State(HalfOpen(m), ticks)
    decreases m - n
  {
    hide Next, HalfOpen, Cap;
    if n == m {
      events := [];
    } else {
      var first := ShortTick(n, ticks, max);
      var rest := ShortTicks(n + 1, m, ticks, max);
      RunAppend(State(HalfOpen(n), ticks), max, first, rest);
      AtMostAppend(State(HalfOpen(n), ticks), max, first, rest, |ticks| + 1);
      events := first + rest;
    }
  }

  /** Ticks dial all they may, whatever has been dialed since they started. */
  lemma {:induction false} DialAll(n: nat, ticks: seq<nat>, max: nat) returns (events: seq<Event>)
    ensures AtMost(State(HalfOpen(n), ticks), max, events, |ticks|)
    ensures Run(State(HalfOpen(n), ticks), max, events).conns == HalfOpen(n + Sum(ticks))
    decreases Sum(ticks)
  {
    hide Next, HalfOpen, Sum;
    if exists t :: 0 <= t < |ticks| && ticks[t] > 0 {
      var t :| 0 <= t < |ticks| && ticks[t] > 0;
      var s := State(HalfOpen(n), ticks);
      var e := Dial(t, ("peer", n), 0.0);
      SumParts(ticks, t, ticks[t] - 1);
      DialNext(n, ticks, t, max);
      var rest := DialAll(n + 1, ticks[t := ticks[t] - 1], max);
      OneMore(s, max, e, |ticks|);
      RunAppend(s, max, [e], rest);
      AtMostAppend(s, max, [e], rest, |ticks|);
      events := [e] + rest;
    } else {
      SumBound(ticks, 0);
      events := [];
    }
  }

  lemma {:induction false} SumSame(k: nat, max: nat)
    ensures Sum(seq(k, _ => max)) == k * max
  {
    if k > 0 {
      assert seq(k, _ => max)[1..] == seq(k - 1, _ => max);
      SumSame(k - 1, max);
    }
  }

  /** The bound is reached: ticks that overlap, as those of two re-sync threads and the maintenance thread may, take
      the connections past the cap. */
  lemma BudgetIsReached(max: nat, k: nat) returns (events: seq<Event>)
    requires max > 0 && k > 0
    ensures AtMost(State([], []), max, events, k)
    ensures |Run(State([], []), max, events).conns| == Cap(max) + (k - 1) * max
  {
    hide AtMost, Run, Sum, Cap;
    var s := State([], []);
    var ticks: seq<nat> := seq(k - 1, _ => max);
    assert HalfOpen(0) == [];
    var a := StartTogether(max, k - 1);
    var b := ShortTicks(0, Cap(max), ticks, max);
    var c := DialAll(Cap(max), ticks, max);
    SumSame(k - 1, max);
    AtMostMore(s, max, a, k - 1, k);
    AtMostMore(State(HalfOpen(Cap(max)), ticks), max, c, k - 1, k);
    RunAppend(s, max, a, b);
    AtMostAppend(s, max, a, b, k);
    RunAppend(s, max, a + b, c);
    AtMostAppend(s, max, a + b, c, k);
    events := a + b + c;
  }

  // ---- who stays -------------------------------------------------------------------------

  function Since(c: Conn): Time {
    if c.connectedAt.Some? && c.connectedAt.value != 0.0 then c.connectedAt.value else c.startedAt
  }

  predicate HandshakeStalled(c: Conn, now: Time) {
    !c.established && now - c.startedAt > HANDSHAKE_TIMEOUT
  }

  /** Established, and has never sent anything useful. */
  predicate NeverUseful(c: Conn) {
    c.established && c.lastUseful.None?
  }

  predicate Mute(c: Conn, now: Time) {
    NeverUseful(c) && now - Since(c) > SILENT_TIMEOUT
  }

  predicate SilentTry(c: Conn, now: Time) {
    NeverUseful(c) && SILENT_TIMEOUT / 2.0 < now - Since(c) <= SILENT_TIMEOUT
  }

  /** Whether a prune keeps the connection, apart from the cap. */
  predicate Healthy(c: Conn, now: Time) {
    && c.alive
    && !(!c.established && now - c.startedAt > 20.0)
    && (c.established && c.lastUseful.None? ==>
          if c.connectedAt == None || c.connectedAt == Some(0.0) then now - c.startedAt <= 30.0
          else now - c.connectedAt.value <= 30.0)
  }

  /** Two timeouts for a useless peer are one: it goes after thirty seconds. It is reported as mute only if no prune
      came by in the half minute before. */
  lemma MuteNeedsALatePrune(c: Conn, before: Time, now: Time)
    requires c.alive && NeverUseful(c) && Healthy(c, before) && Mute(c, now)
    ensures now - before > 30.0
  {
  }

  function Where(conns: seq<Conn>, p: Conn -> bool): seq<Conn> {
    if conns == [] then []
    else Where(conns[..|conns| - 1], p) + if p(conns[|conns| - 1]) then [conns[|conns| - 1]] else []
  }

  function HealthyAt(now: Time): Conn -> bool {
    c => Healthy(c, now)
  }

  function IsAlive(): Conn -> bool {
    (c: Conn) => c.alive
  }

  /** The connections a prune keeps, apart from the cap. */
  function Kept(conns: seq<Conn>, now: Time): seq<Conn> {
    Where(conns, HealthyAt(now))
  }

  lemma {:induction false} WhereHas(conns: seq<Conn>, p: Conn -> bool)
    ensures forall c :: c in Where(conns, p) <==> c in conns && p(c)
    ensures OnePerKey(conns) ==> OnePerKey(Where(conns, p))
  {
    if conns != [] {
      var front, last := conns[..|conns| - 1], conns[|conns| - 1];
      assert conns == front + [last];
      WhereHas(front, p);
      if OnePerKey(conns) {
        forall i | 0 <= i < |Where(front, p)|
          ensures Where(front, p)[i].key != last.key
        {
          assert Where(front, p)[i] in front;
        }
      }
    }
  }

  lemma {:induction false} WhereTwice(conns: seq<Conn>, p: Conn -> bool, q: Conn -> bool)
    requires forall c :: q(c) ==> p(c)
    ensures Where(Where(conns, p), q) == Where(conns, q)
  {
    if conns != [] {
      var front, last := conns[..|conns| - 1], conns[|conns| - 1];
      WhereTwice(front, p, q);
      var w := Where(front, p);
      if p(last) {
        assert Where(conns, p) == w + [last] && (w + [last])[..|w|] == w;
      } else {
        assert Where(conns, p) == w && Where(conns, q) == Where(front, q);
      }
    }
  }

  function Keys(conns: seq<Conn>): set<Key> {
    set c | c in conns :: c.key
  }

  function NewConns(keys: seq<Key>, now: Time): (conns: seq<Conn>)
    ensures |conns| == |keys|
  {
    seq(|keys|, i requires 0 <= i < |keys| => Dialed(keys[i], now))
  }

  /** `connections.pop(key)` */
  function Drop(conns: seq<Conn>, key: Key): seq<Conn> {
    if conns == [] then []
    else Drop(conns[..|conns| - 1], key) + if conns[|conns| - 1].key == key then [] else [conns[|conns| - 1]]
  }

  lemma {:induction false} DropHas(conns: seq<Conn>, key: Key)
    requires OnePerKey(conns)
    ensures forall c :: c in Drop(conns, key) <==> c in conns && c.key != key
    ensures OnePerKey(Drop(conns, key))
  {
    if conns != [] {
      var front, last := conns[..|conns| - 1], conns[|conns| - 1];
      assert conns == front + [last];
      DropHas(front, key);
      forall i | 0 <= i < |Drop(front, key)|
        ensures Drop(front, key)[i].key != last.key
      {
        assert Drop(front, key)[i] in front;
      }
    }
  }

  lemma {:induction false} DropNothing(conns: seq<Conn>, key: Key)
    requires forall c :: c in conns ==> c.key != key
    ensures Drop(conns, key) == conns
  {
    if conns != [] {
      assert conns == conns[..|conns| - 1] + [conns[|conns| - 1]];
      DropNothing(conns[..|conns| - 1], key);
    }
  }

  lemma {:induction false} DropAt(a: seq<Conn>, c: Conn, b: seq<Conn>)
    requires OnePerKey(a + [c] + b)
    ensures Drop(a + [c] + b, c.key) == a + b
    decreases |b|
  {
    var all := a + [c] + b;
    if b == [] {
      assert all[..|all| - 1] == a;
      forall d | d in a
        ensures d.key != c.key
      {
        var i :| 0 <= i < |a| && a[i] == d;
        assert all[i] == d && all[|a|] == c;
      }
      DropNothing(a, c.key);
      assert a + [] == a;
    } else {
      var last := b[|b| - 1];
      assert all[..|all| - 1] == a + [c] + b[..|b| - 1];
      assert all[|all| - 1] == last && all[|a|] == c;
      DropAt(a, c, b[..|b| - 1]);
      assert a + b == a + b[..|b| - 1] + [last];
    }
  }

  lemma {:induction false} DropSize(conns: seq<Conn>, c: Conn)
    requires OnePerKey(conns) && c in conns
    ensures |Drop(conns, c.key)| == |conns| - 1
  {
    var i :| 0 <= i < |conns| && conns[i] == c;
    assert conns == conns[..i] + [c] + conns[i + 1..];
    DropAt(conns[..i], c, conns[i + 1..]);
  }

  lemma DropOne(full: seq<Conn>, ranked: seq<Conn>, i: nat, conns: seq<Conn>)
    requires i < |ranked| && OnePerKey(full) && OnePerKey(conns) && ranked[i] in full
    requires forall j :: 0 <= j < i ==> ranked[j] != ranked[i]
    requires forall c :: c in conns <==> c in full && c !in ranked[..i]
    ensures var less := Drop(conns, ranked[i].key);
      && OnePerKey(less) && |less| == |conns| - 1
      && forall c :: c in less <==> c in full && c !in ranked[..i + 1]
  {
    hide Drop, OnePerKey;
    assert ranked[i] !in ranked[..i];
    assert ranked[i] in conns;
    DropHas(conns, ranked[i].key);
    DropSize(conns, ranked[i]);
    OneOfKey(full, ranked[i]);
    assert ranked[..i + 1] == ranked[..i] + [ranked[i]];
  }

  lemma OneOfKey(conns: seq<Conn>, c: Conn)
    requires OnePerKey(conns) && c in conns
    ensures forall d :: d in conns && d.key == c.key ==> d == c
  {
  }

  lemma OldestFirst(full: seq<Conn>, ranked: seq<Conn>)
    requires OnePerKey(full) && ranked == SortBy(full, StartedBefore)
    ensures |ranked| == |full| && Ordered(ranked, StartedBefore) && Distinct(ranked)
    ensures forall c :: c in ranked <==> c in full
  {
    hide SortBy, Tied, Ordered;
    SortSorts(full, StartedBefore);
    PermutationDistinct(full, ranked);
  }

  lemma CutOldest(full: seq<Conn>, ranked: seq<Conn>, excess: nat, kept: seq<Conn>, cap: nat)
    requires excess <= |ranked| && Ordered(ranked, StartedBefore) && (forall c :: c in ranked <==> c in full)
    requires |full| > cap && |kept| == cap && OnePerKey(kept)
    requires forall c :: c in kept <==> c in full && c !in ranked[..excess]
    ensures TrimmedTo(full, kept, cap)
  {
    forall c, d | c in kept && d in full && d !in kept
      ensures d.startedAt <= c.startedAt
    {
      var dropped, rest := ranked[..excess], ranked[excess..];
      assert ranked == dropped + rest;
      assert c in rest && d in dropped;
      var i :| 0 <= i < |rest| && rest[i] == c;
      var j :| 0 <= j < excess && dropped[j] == d;
      assert ranked[excess + i] == c && ranked[j] == d;
    }
  }

  // ---- what the store is told ------------------------------------------------------------

  /** What looking at a connection leads the store to record: a failure for a stalled handshake, a mute peer, or
      nothing. */
  function Recorded(es: seq<PeerStore.Entry>, c: Conn, now: Time, clock: int): seq<PeerStore.Entry> {
    if !c.alive then es
    else if !c.established then
      if now - c.startedAt > 20.0 then PeerStore.AfterFailure(es, c.key, clock) else es
    else if c.lastUseful.None? && now - Since(c) > 60.0 then PeerStore.AfterMute(es, c.key, clock)
    else es
  }

  function AllRecorded(es: seq<PeerStore.Entry>, conns: seq<Conn>, now: Time, clock: int): seq<PeerStore.Entry> {
    if conns == [] then es
    else Recorded(AllRecorded(es, conns[..|conns| - 1], now, clock), conns[|conns| - 1], now, clock)
  }

  /** Dead connections lead to no record. */
  lemma {:induction false} DeadRecordNothing(es: seq<PeerStore.Entry>, conns: seq<Conn>, now: Time, clock: int)
    ensures AllRecorded(es, Where(conns, IsAlive()), now, clock) == AllRecorded(es, conns, now, clock)
  {
    hide Recorded;
    if conns != [] {
      var front, last := conns[..|conns| - 1], conns[|conns| - 1];
      DeadRecordNothing(es, front, now, clock);
      var w := Where(front, IsAlive());
      if last.alive {
        assert Where(conns, IsAlive()) == w + [last] && (w + [last])[..|w|] == w;
      } else {
        assert Where(conns, IsAlive()) == w;
        DeadRecordsNothing(AllRecorded(es, front, now, clock), last, now, clock);
      }
    }
  }

  lemma NothingRecorded(es: seq<PeerStore.Entry>, conns: seq<Conn>, now: Time, clock: int)
    ensures AllRecorded(es, conns[..0], now, clock) == es
  {
  }

  lemma RecordedNext(es: seq<PeerStore.Entry>, conns: seq<Conn>, i: nat, now: Time, clock: int)
    requires i < |conns|
    ensures AllRecorded(es, conns[..i + 1], now, clock) ==
            Recorded(AllRecorded(es, conns[..i], now, clock), conns[i], now, clock)
  {
    hide Recorded;
    assert conns[..i + 1][..i] == conns[..i];
  }

  lemma DeadRecordsNothing(es: seq<PeerStore.Entry>, c: Conn, now: Time, clock: int)
    requires !c.alive
    ensures Recorded(es, c, now, clock) == es
  {
  }

  /** The store after dialing the peers in order. */
  function AllAttempted(es: seq<PeerStore.Entry>, keys: seq<Key>, clock: int): seq<PeerStore.Entry> {
    if keys == [] then es
    else PeerStore.AfterAttempt(AllAttempted(es, keys[..|keys| - 1], clock), keys[|keys| - 1], clock)
  }

  /** An attempt at other peers leaves an entry as it is. */
  lemma {:induction false} AttemptedKeeps(es: seq<PeerStore.Entry>, keys: seq<Key>, clock: int)
    requires PeerStore.DistinctKeys(es)
    ensures PeerStore.DistinctKeys(AllAttempted(es, keys, clock))
    ensures forall e :: e in es && e.key !in keys ==> e in AllAttempted(es, keys, clock)
  {
    hide PeerStore.InfoOf, PeerStore.Put, PeerStore.DistinctKeys;
    if keys != [] {
      var front, key := keys[..|keys| - 1], keys[|keys| - 1];
      assert keys == front + [key];
      AttemptedKeeps(es, front, clock);
      var mid := AllAttempted(es, front, clock);
      match PeerStore.InfoOf(mid, key)
      case Some(info) => PeerStore.PutKeeps(mid, key, info.(lastTry := clock));
      case None =>
    }
  }

  lemma NothingAttempted(es: seq<PeerStore.Entry>, clock: int)
    ensures AllAttempted(es, [], clock) == es
  {
  }

  lemma AttemptedNext(es: seq<PeerStore.Entry>, keys: seq<Key>, key: Key, clock: int)
    ensures AllAttempted(es, keys + [key], clock) == PeerStore.AfterAttempt(AllAttempted(es, keys, clock), key, clock)
  {
    hide PeerStore.AfterAttempt;
    assert (keys + [key])[..|keys|] == keys;
  }

  // ---- leaving, one by one ---------------------------------------------------------------

  /** Connections leave in turn; each index counts in what is left. */
  function Leaving(conns: seq<Conn>, indices: seq<nat>): seq<Conn>
    decreases |indices|
  {
    if indices == [] then conns
    else if indices[0] < |conns| then Leaving(conns[..indices[0]] + conns[indices[0] + 1..], indices[1..])
    else Leaving(conns, indices[1..])
  }

  /** Some connections have left, and nothing else has changed. */
  ghost predicate Shrinks(conns: seq<Conn>, kept: seq<Conn>) {
    exists indices :: Leaving(conns, indices) == kept
  }

  function LeaveEvents(indices: seq<nat>): seq<Event> {
    seq(|indices|, i requires 0 <= i < |indices| => Leave(indices[i]))
  }

  lemma {:induction false} LeavingAppend(conns: seq<Conn>, a: seq<nat>, b: seq<nat>)
    ensures Leaving(conns, a + b) == Leaving(Leaving(conns, a), b)
    decreases |a|
  {
    if a == [] {
      assert a + b == b;
    } else {
      assert (a + b)[1..] == a[1..] + b;
      if a[0] < |conns| {
        LeavingAppend(conns[..a[0]] + conns[a[0] + 1..], a[1..], b);
      } else {
        LeavingAppend(conns, a[1..], b);
      }
    }
  }

  lemma ShrinksTwice(a: seq<Conn>, b: seq<Conn>, c: seq<Conn>)
    requires Shrinks(a, b) && Shrinks(b, c)
    ensures Shrinks(a, c)
  {
    var i :| Leaving(a, i) == b;
    var j :| Leaving(b, j) == c;
    LeavingAppend(a, i, j);
  }

  lemma ShrinksByNothing(conns: seq<Conn>)
    ensures Shrinks(conns, conns)
  {
    assert Leaving(conns, []) == conns;
  }

  lemma ShrinksByDrop(conns: seq<Conn>, key: Key)
    requires OnePerKey(conns)
    ensures Shrinks(conns, Drop(conns, key))
  {
    hide Leaving, Drop;
    match IndexOf(conns, key)
    case Some(i) =>
      assert conns == conns[..i] + [conns[i]] + conns[i + 1..];
      DropAt(conns[..i], conns[i], conns[i + 1..]);
      LeavingOne(conns, i);
    case None =>
      DropNothing(conns, key);
      ShrinksByNothing(conns);
  }

  lemma LeavingOne(conns: seq<Conn>, i: nat)
    requires i < |conns|
    ensures Leaving(conns, [i]) == conns[..i] + conns[i + 1..]
  {
    assert [i][1..] == [];
  }

  /** Leaving in turn is a run of the machine, whatever ticks are under way. */
  lemma {:induction false} LeavingIsRun(conns: seq<Conn>, indices: seq<nat>, ticks: seq<nat>, max: nat)
    ensures Run(State(conns, ticks), max, LeaveEvents(indices)) == State(Leaving(conns, indices), ticks)
    decreases |indices|
  {
    if indices != [] {
      assert LeaveEvents(indices)[1..] == LeaveEvents(indices[1..]);
      if indices[0] < |conns| {
        LeavingIsRun(conns[..indices[0]] + conns[indices[0] + 1..], indices[1..], ticks, max);
      } else {
        LeavingIsRun(conns, indices[1..], ticks, max);
      }
    }
  }

  ghost predicate LeadsTo(conns: seq<Conn>, kept: seq<Conn>, indices: seq<nat>) {
    forall ticks, max :: Run(State(conns, ticks), max, LeaveEvents(indices)) == State(kept, ticks)
  }

  /** The machine gets from one table to the other by departures alone, whatever ticks are under way. */
  ghost predicate IsRunOfLeaves(conns: seq<Conn>, kept: seq<Conn>) {
    exists indices :: LeadsTo(conns, kept, indices)
  }

  // ---- a tick is a run -------------------------------------------------------------------

  function DialEvents(t: nat, keys: seq<Key>, now: Time): seq<Event> {
    seq(|keys|, i requires 0 <= i < |keys| => Dial(t, keys[i], now))
  }

  function TickEvents(t: nat, keys: seq<Key>, now: Time): seq<Event> {
    [TickStart] + DialEvents(t, keys, now) + [TickEnd(t)]
  }

  /** The keys are new, each once. */
  predicate AreNovel(conns: seq<Conn>, keys: seq<Key>) {
    Distinct(keys) && forall k :: k in keys ==> k !in Keys(conns)
  }

  lemma DialStep(conns: seq<Conn>, key: Key, ticks: seq<nat>, t: nat, now: Time, max: nat)
    requires key !in Keys(conns) && t < |ticks| && ticks[t] > 0
    ensures Next(State(conns, ticks), max, Dial(t, key, now)) ==
            State(conns + [Dialed(key, now)], ticks[t := ticks[t] - 1])
  {
    hide Keys, HasKey, IndexOf;
    HasKeyInKeys(conns, key);
  }

  lemma {:induction false} DialsAreRun(conns: seq<Conn>, keys: seq<Key>, ticks: seq<nat>, t: nat, now: Time, max: nat)
    requires AreNovel(conns, keys) && t < |ticks| && |keys| <= ticks[t]
    ensures Run(State(conns, ticks), max, DialEvents(t, keys, now)) ==
            State(conns + NewConns(keys, now), ticks[t := ticks[t] - |keys|])
    decreases |keys|
  {
    hide Keys, Next;
    var s := State(conns, ticks);
    if keys == [] {
      assert conns + NewConns([], now) == conns && ticks[t := ticks[t]] == ticks;
    } else {
      var rest := keys[1..];
      assert keys == [keys[0]] + rest;
      DialStep(conns, keys[0], ticks, t, now, max);
      var more := conns + [Dialed(keys[0], now)];
      BetweenKeys(conns, [keys[0]], now);
      assert NewConns([keys[0]], now) == [Dialed(keys[0], now)];
      assert DialEvents(t, keys, now)[1..] == DialEvents(t, rest, now);
      DialsAreRun(more, rest, ticks[t := ticks[t] - 1], t, now, max);
      assert more + NewConns(rest, now) == conns + NewConns(keys, now);
    }
  }

  /** A tick that dials new peers, no more than its goal, beside any others under way. */
  lemma TickIsRun(conns: seq<Conn>, keys: seq<Key>, ticks: seq<nat>, now: Time, max: nat)
    requires AreNovel(conns, keys) && |keys| <= Goal(conns, max)
    ensures Run(State(conns, ticks), max, TickEvents(|ticks|, keys, now)) == State(conns + NewConns(keys, now), ticks)
  {
    hide Run, Next, AreNovel, Goal;
    var s := State(conns, ticks);
    var t, goal := |ticks|, Goal(conns, max);
    var dials := DialEvents(t, keys, now);
    StartStep(s, max);
    OneMore(s, max, TickStart, t + 1) by {
      assert |Next(s, max, TickStart).ticks| == t + 1;
    }
    DialsAreRun(conns, keys, ticks + [goal], t, now, max);
    var left := (ticks + [goal])[t := goal - |keys|];
    EndStep(State(conns + NewConns(keys, now), left), max, t);
    assert left[..t] + left[t + 1..] == ticks;
    OneMore(State(conns + NewConns(keys, now), left), max, TickEnd(t), t + 1);
    RunAppend(s, max, [TickStart], dials);
    RunAppend(s, max, [TickStart] + dials, [TickEnd(t)]);
  }

  // ---- the ticks -------------------------------------------------------------------------

  class Pool {
    var connections: seq<Conn>

    constructor ()
      ensures connections == []
    {
      connections := [];
    }

    ghost predicate Valid()
      reads this
    {
      OnePerKey(connections)
    }

    /** Closes the oldest connections while there are more than the cap. */
    method TrimOverCap(cap: nat)
      requires Valid()
      modifies this
      ensures Valid() && TrimmedTo(old(connections), connections, cap) && Shrinks(old(connections), connections)
    {
      hide StartedBefore, OnePerKey, SortBy, TrimmedTo, Drop, Shrinks;
      ShrinksByNothing(connections);
      if |connections| <= cap {
        NothingTrimmed(connections, cap);
        return;
      }
      ghost var full := connections;
      var ranked := SortBy(connections, StartedBefore);
      OldestFirst(full, ranked);
      var excess := |connections| - cap;
      for i := 0 to excess
        invariant Valid() && |connections| == |full| - i
        invariant forall c :: c in connections <==> c in full && c !in ranked[..i]
        invariant Shrinks(full, connections)
      {
        DropOne(full, ranked, i, connections);
        ShrinksByDrop(connections, ranked[i].key);
        ShrinksTwice(full, connections, Drop(connections, ranked[i].key));
        connections := Drop(connections, ranked[i].key);
      }
      CutOldest(full, ranked, excess, connections, cap);
    }

    /** Closes a stalled connection and tells the store why. */
    method EvictIfStalled(c: Conn, store: PeerStore.Store, now: Time, clock: int) returns (evicted: bool)
      requires Valid() && store.Valid() && c in connections
      modifies this, store
      ensures Valid() && store.Valid() && evicted == (c.alive && !Healthy(c, now))
      ensures connections == if evicted then Drop(old(connections), c.key) else old(connections)
      ensures store.entries == Recorded(old(store.entries), c, now, clock)
    {
      hide Drop, PeerStore.AfterFailure, PeerStore.AfterMute;
      if !c.alive {
        return false;
      }
      DropHas(connections, c.key);
      if HandshakeStalled(c, now) {
        var _ := store.RecordFailure(c.key, clock);
        connections := Drop(connections, c.key);
        return true;
      }
      if Mute(c, now) {
        store.RecordMute(c.key, clock);
        connections := Drop(connections, c.key);
        return true;
      }
      if SilentTry(c, now) {
        connections := Drop(connections, c.key);
        return true;
      }
      evicted := false;
    }

    method DropDead()
      requires Valid()
      modifies this
      ensures Valid() && connections == Where(old(connections), IsAlive()) && Shrinks(old(connections), connections)
    {
      hide Drop, OnePerKey, Where, Shrinks;
      var snapshot := connections;
      ShrinksByNothing(snapshot);
      ghost var p := IsAlive();
      NothingWhere(snapshot, p);
      for i := 0 to |snapshot|
        invariant Valid() && connections == Where(snapshot[..i], p) + snapshot[i..] && Shrinks(snapshot, connections)
      {
        WhereStep(snapshot, i, p, connections);
        if !snapshot[i].alive {
          ShrinksByDrop(connections, snapshot[i].key);
          ShrinksTwice(snapshot, connections, Drop(connections, snapshot[i].key));
          connections := Drop(connections, snapshot[i].key);
        }
      }
      EverythingWhere(snapshot, p);
    }

    method PruneStalled(store: PeerStore.Store, now: Time, clock: int)
      requires Valid() && store.Valid() && forall c :: c in connections ==> c.alive
      modifies this, store
      ensures Valid() && store.Valid()
      ensures connections == Kept(old(connections), now) && Shrinks(old(connections), connections)
      ensures store.entries == AllRecorded(old(store.entries), old(connections), now, clock)
    {
      hide Drop, Healthy, OnePerKey, Where, Shrinks, Recorded, AllRecorded;
      var snapshot := connections;
      ghost var entries := store.entries;
      ShrinksByNothing(snapshot);
      NothingRecorded(entries, snapshot, now, clock);
      ghost var p := HealthyAt(now);
      NothingWhere(snapshot, p);
      for i := 0 to |snapshot|
        invariant Valid() && store.Valid() && connections == Where(snapshot[..i], p) + snapshot[i..]
        invariant Shrinks(snapshot, connections)
        invariant store.entries == AllRecorded(entries, snapshot[..i], now, clock)
      {
        RecordedNext(entries, snapshot, i, now, clock);
        WhereStep(snapshot, i, p, connections);
        ShrinksByDrop(connections, snapshot[i].key);
        if !Healthy(snapshot[i], now) {
          ShrinksTwice(snapshot, connections, Drop(connections, snapshot[i].key));
        }
        var _ := EvictIfStalled(snapshot[i], store, now, clock);
      }
      assert snapshot[..|snapshot|] == snapshot;
      EverythingWhere(snapshot, p);
    }

    /** Records the attempt and opens the connection, unless there is one. */
    method SpawnCandidate(store: PeerStore.Store, key: Key, now: Time, clock: int) returns (tried: bool)
      requires Valid() && store.Valid()
      modifies this, store
      ensures Valid() && store.Valid() && tried == !HasKey(old(connections), key)
      ensures connections == if tried then old(connections) + [Dialed(key, now)] else old(connections)
      ensures store.entries ==
              if tried then PeerStore.AfterAttempt(old(store.entries), key, clock) else old(store.entries)
    {
      if IndexOf(connections, key).Some? {
        return false;
      }
      store.RecordAttempt(key, clock);
      connections := connections + [Dialed(key, now)];
      tried := true;
    }

    /** Dials candidates in order until the goal is reached. */
    method SpawnAll(store: PeerStore.Store, candidates: seq<Key>, spawned: nat, goal: nat, now: Time, clock: int)
      returns (total: nat)
      requires Valid() && store.Valid() && spawned <= goal
      modifies this, store
      ensures Valid() && store.Valid() && spawned <= total <= goal
      ensures connections == old(connections) + NewConns(Novel(old(connections), candidates, goal - spawned), now)
      ensures total == spawned + |Novel(old(connections), candidates, goal - spawned)|
      ensures store.entries ==
              AllAttempted(old(store.entries), Novel(old(connections), candidates, goal - spawned), clock)
    {
      hide OnePerKey, IndexOf, Novel, AllAttempted, PeerStore.AfterAttempt, NewConns, Dialed;
      total := spawned;
      ghost var before, entries := connections, store.entries;
      var i := 0;
      NothingNovel(before, candidates, goal - spawned, now);
      NothingAttempted(entries, clock);
      while i < |candidates| && total < goal
        invariant 0 <= i <= |candidates| && spawned <= total <= goal && Valid() && store.Valid()
        invariant total == spawned + |Novel(before, candidates[..i], goal - spawned)|
        invariant store.entries == AllAttempted(entries, Novel(before, candidates[..i], goal - spawned), clock)
        invariant connections == before + NewConns(Novel(before, candidates[..i], goal - spawned), now)
        decreases |candidates| - i
      {
        var tried := SpawnCandidate(store, candidates[i], now, clock);
        NovelStep(before, candidates, i, goal - spawned, now);
        AttemptedNext(entries, Novel(before, candidates[..i], goal - spawned), candidates[i], clock);
        if tried {
          total := total + 1;
        }
        i := i + 1;
      }
      NovelRest(before, candidates, i, goal - spawned);
    }

    /** One tick: dials peers dropped for a re-sync first, then the best of the store as it is after those attempts,
        up to the goal. The store's choice leaves out connected peers and those in backoff. A tick is a run of the
        machine, whatever other ticks are under way. */
    method EnsureConnections(setting: int, store: PeerStore.Store, dropped: seq<Key>, luck: Key -> real, now: Time,
            clock: int)
      returns (ghost urgent: seq<Key>, ghost regular: seq<Key>)
      requires Valid() && store.Valid()
      modifies this, store
      ensures Valid() && store.Valid()
      ensures connections == old(connections) + NewConns(urgent + regular, now)
      ensures var goal := Goal(old(connections), MaxConnections(setting));
        && |urgent| + |regular| <= goal
        && urgent == Novel(old(connections), Preferred(old(store.entries), dropped), goal)
        && (goal > 0 ==>
              var between := old(connections) + NewConns(urgent, now);
              var best := PeerStore.Choice(AllAttempted(old(store.entries), urgent, clock),
                  TickQuery(between, setting, luck, clock));
              regular == Novel(between, KeysOf(best), goal - |urgent|))
      ensures store.entries == AllAttempted(AllAttempted(old(store.entries), urgent, clock), regular, clock)
      ensures forall k :: k in urgent ==> k in dropped && PeerStore.InfoOf(old(store.entries), k).Some?
      ensures var max, dialed := MaxConnections(setting), |urgent| + |regular|;
        var established := |set c | c in old(connections) && c.established|;
        && (dialed > 0 ==> established + dialed <= max && |connections| <= max + 6)
        && (established + dialed >= max || |connections| >= max + 6
            || NobodyLeft(old(store.entries), connections, dropped, luck, clock))
      ensures forall ticks ::
        Run(State(old(connections), ticks), MaxConnections(setting), TickEvents(|ticks|, urgent + regular, now))
        == State(connections, ticks)
    {
      hide OnePerKey, PeerStore.Choice, Goal, Novel, PeerStore.InfoOf, NewConns, AllAttempted, Run, TickEvents,
          AreNovel;
      var max := MaxConnections(setting);
      var goal := Goal(connections, max);
      ghost var before, entries := connections, store.entries;
      urgent, regular := [], [];
      NothingAttempted(entries, clock);
      if goal == 0 {
        NoConns(now);
        NovelNone(connections);
        TicksAreRuns(before, [], now, max) by { NoneAreNovel(before); }
        GoalIs(before, max);
        return;
      }
      var candidates := Preferred(store.entries, dropped);
      urgent := Novel(before, candidates, goal);
      NovelHas(before, candidates, goal);
      var spawned := SpawnAll(store, candidates, 0, goal, now, clock);
      ghost var between := connections;
      var chosen := store.Best(TickQuery(connections, setting, luck, clock));
      regular := Novel(between, KeysOf(chosen), goal - spawned);
      NovelHas(between, KeysOf(chosen), goal - spawned);
      var _ := SpawnAll(store, KeysOf(chosen), spawned, goal, now, clock);
      NovelTwice(before, urgent, regular, now);
      TicksAreRuns(before, urgent + regular, now, max);
      GoalIs(before, max);
      if |urgent| + |regular| < goal {
        UnfilledTick(before, entries, dropped, setting, luck, now, clock, goal, urgent, regular);
      }
    }

    /** A prune keeps the healthy connections, and of those no more than the cap, closing the oldest. */
    method PruneConnections(setting: int, store: PeerStore.Store, now: Time, clock: int)
      requires Valid() && store.Valid()
      modifies this, store
      ensures Valid() && store.Valid()
      ensures TrimmedTo(Kept(old(connections), now), connections, Cap(MaxConnections(setting)))
      ensures |connections| <= Cap(MaxConnections(setting)) <= 56
      ensures store.entries == AllRecorded(old(store.entries), old(connections), now, clock)
      ensures IsRunOfLeaves(old(connections), connections)
    {
      hide OnePerKey, Where, Shrinks, TrimmedTo, Run, AllRecorded, IsRunOfLeaves;
      ghost var before, entries := connections, store.entries;
      DropDead();
      ghost var alive := connections;
      DeadRecordNothing(entries, before, now, clock);
      WhereHas(before, IsAlive());
      PruneStalled(store, now, clock);
      WhereTwice(before, IsAlive(), HealthyAt(now));
      ShrinksTwice(before, alive, connections);
      ghost var healthy := connections;
      TrimOverCap(Cap(MaxConnections(setting)));
      TrimmedSize(healthy, connections, Cap(MaxConnections(setting)));
      ShrinksTwice(before, healthy, connections);
      PruneIsRun(before, connections);
    }
  }

  lemma NothingWhere(conns: seq<Conn>, p: Conn -> bool)
    ensures Where(conns[..0], p) + conns[0..] == conns
  {
  }

  lemma EverythingWhere(conns: seq<Conn>, p: Conn -> bool)
    ensures Where(conns[..|conns|], p) + conns[|conns|..] == Where(conns, p)
  {
    assert conns[..|conns|] == conns;
  }

  /** Looking at one more connection of the snapshot. */
  lemma WhereStep(snapshot: seq<Conn>, i: nat, p: Conn -> bool, conns: seq<Conn>)
    requires i < |snapshot| && OnePerKey(conns) && conns == Where(snapshot[..i], p) + snapshot[i..]
    ensures snapshot[i] in conns
    ensures var next := if p(snapshot[i]) then conns else Drop(conns, snapshot[i].key);
      OnePerKey(next) && next == Where(snapshot[..i + 1], p) + snapshot[i + 1..]
  {
    hide Drop, OnePerKey;
    var c, a, b := snapshot[i], Where(snapshot[..i], p), snapshot[i + 1..];
    assert snapshot[..i + 1][..i] == snapshot[..i];
    assert snapshot[i..] == [c] + b;
    assert conns == a + [c] + b;
    DropAt(a, c, b);
    DropHas(conns, c.key);
  }

  lemma TrimmedSize(conns: seq<Conn>, kept: seq<Conn>, cap: nat)
    requires TrimmedTo(conns, kept, cap)
    ensures |kept| <= cap
  {
  }

  lemma PruneIsRun(conns: seq<Conn>, kept: seq<Conn>)
    requires Shrinks(conns, kept)
    ensures IsRunOfLeaves(conns, kept)
  {
    hide Run, Leaving;
    var indices :| Leaving(conns, indices) == kept;
    forall ticks, max
      ensures Run(State(conns, ticks), max, LeaveEvents(indices)) == State(kept, ticks)
    {
      LeavingIsRun(conns, indices, ticks, max);
    }
    assert LeadsTo(conns, kept, indices);
  }

  lemma NothingTrimmed(conns: seq<Conn>, cap: nat)
    requires |conns| <= cap
    ensures TrimmedTo(conns, conns, cap)
  {
  }

  function TickQuery(conns: seq<Conn>, setting: int, luck: Key -> real, clock: int): PeerStore.Query {
    PeerStore.Query(Some(MaxConnections(setting) * 4), Keys(conns), PeerStore.BACKOFF_BASE_SECONDS, clock, luck)
  }

  function KeysOf(es: seq<PeerStore.Entry>): (keys: seq<Key>)
    ensures |keys| == |es|
  {
    seq(|es|, i requires 0 <= i < |es| => es[i].key)
  }

  /** The peers still in the store, whatever their backoff. */
  function Preferred(es: seq<PeerStore.Entry>, keys: seq<Key>): (r: seq<Key>)
    ensures forall k :: k in r ==> k in keys && PeerStore.InfoOf(es, k).Some?
    ensures keys == [] ==> r == []
  {
    if keys == [] then []
    else
      assert keys == keys[..|keys| - 1] + [keys[|keys| - 1]];
      Preferred(es, keys[..|keys| - 1])
      + if PeerStore.InfoOf(es, keys[|keys| - 1]).Some? then [keys[|keys| - 1]] else []
  }

  /** The first `n` keys that are not connected, each once. */
  function Novel(conns: seq<Conn>, keys: seq<Key>, n: nat): (r: seq<Key>)
    ensures |r| <= n && (keys == [] ==> r == [])
  {
    if keys == [] then []
    else
      var front, k := Novel(conns, keys[..|keys| - 1], n), keys[|keys| - 1];
      if |front| < n && k !in Keys(conns) && k !in front then front + [k] else front
  }

  lemma {:induction false} NovelHas(conns: seq<Conn>, keys: seq<Key>, n: nat)
    ensures forall k :: k in Novel(conns, keys, n) ==> k in keys
    ensures AreNovel(conns, Novel(conns, keys, n))
  {
    hide Keys;
    if keys != [] {
      assert keys == keys[..|keys| - 1] + [keys[|keys| - 1]];
      NovelHas(conns, keys[..|keys| - 1], n);
    }
  }

  /** When fewer keys are found new than asked for, all are connected or among those found. */
  lemma {:induction false} NovelIsAll(conns: seq<Conn>, keys: seq<Key>, n: nat)
    requires |Novel(conns, keys, n)| < n
    ensures forall k :: k in keys ==> k in Keys(conns) || k in Novel(conns, keys, n)
  {
    hide Keys;
    if keys != [] {
      assert keys == keys[..|keys| - 1] + [keys[|keys| - 1]];
      NovelIsAll(conns, keys[..|keys| - 1], n);
    }
  }

  /** Every peer of the store is connected, or waits out its backoff and was not dropped for a re-sync. */
  ghost predicate NobodyLeft(es: seq<PeerStore.Entry>, conns: seq<Conn>, dropped: seq<Key>, luck: Key -> real,
                             clock: int)
  {
    forall e :: e in es ==>
      HasKey(conns, e.key) || (e.key !in dropped && PeerStore.InBackoff(e.info, 60.0, luck(e.key), clock))
  }

  lemma HasKeyIs(conns: seq<Conn>, key: Key)
    ensures HasKey(conns, key) <==> key in Keys(conns)
  {
    if key in Keys(conns) {
      var c :| c in conns && c.key == key;
      var i :| 0 <= i < |conns| && conns[i] == c;
    }
  }

  /** A choice that leaves room for more has nobody left to offer but connected peers and those in backoff. */
  lemma ChoiceLeavesNobody(es: seq<PeerStore.Entry>, q: PeerStore.Query, conns: seq<Conn>, n: nat)
    requires PeerStore.DistinctKeys(es) && q.exclude == Keys(conns) && q.limit.Some? && q.limit.value > 0
    requires n <= q.limit.value && |Novel(conns, KeysOf(PeerStore.Choice(es, q)), n)| < n
    ensures forall e :: e in es && PeerStore.Eligible(e, q) ==>
      e.key in Novel(conns, KeysOf(PeerStore.Choice(es, q)), n)
  {
    hide PeerStore.Choice, PeerStore.InBackoff, Keys, Novel;
    var best := PeerStore.Choice(es, q);
    var keys := KeysOf(best);
    PeerStore.ChoiceIsBest(es, q);
    PeerStore.ChoiceIsDistinct(es, q);
    NovelIsAll(conns, keys, n);
    forall e | e in best
      ensures e.key in keys
    {
      var i :| 0 <= i < |best| && best[i] == e;
      assert keys[i] == e.key;
    }
    if PeerStore.Reaches(|best|, q.limit) {
      assert Distinct(keys);
      forall k | k in keys
        ensures k in Novel(conns, keys, n)
      {
        var i :| 0 <= i < |keys| && keys[i] == k;
        assert best[i] in best;
      }
      DistinctWithin(keys, Novel(conns, keys, n));
      assert false;
    }
  }

  lemma DistinctWithin<T>(a: seq<T>, b: seq<T>)
    requires Distinct(a) && forall x :: x in a ==> x in b
    ensures |a| <= |b|
  {
    ElementsCount(a);
    SetSize(b);
    assert (set x | x in a) <= (set x | x in b);
    Subsets((set x | x in a), (set x | x in b));
  }

  lemma Subsets<T>(a: set<T>, b: set<T>)
    requires a <= b
    ensures |a| <= |b|
  {
    assert a + (b - a) == b;
  }

  lemma {:induction false} SetSize<T>(b: seq<T>)
    ensures |set x | x in b| <= |b|
  {
    if b != [] {
      var front, last := b[..|b| - 1], b[|b| - 1];
      assert b == front + [last];
      SetSize(front);
      assert (set x | x in b) == (set x | x in front) + {last};
    }
  }

  /** The order of the peers dropped is kept: those of a list followed by another come first, and each alone is there
      when the store has it. */
  lemma {:induction false} PreferredJoins(es: seq<PeerStore.Entry>, a: seq<Key>, b: seq<Key>, key: Key)
    ensures Preferred(es, a + b) == Preferred(es, a) + Preferred(es, b)
    ensures Preferred(es, [key]) == if exists e :: e in es && e.key == key then [key] else []
    decreases |b|
  {
    hide PeerStore.InfoOf;
    PeerStore.NotInStore(es, key);
    assert [key][..0] == [];
    if b == [] {
      assert a + b == a;
    } else {
      assert (a + b)[..|a + b| - 1] == a + b[..|b| - 1];
      PreferredJoins(es, a, b[..|b| - 1], key);
    }
  }

  /** The peers dropped for a re-sync that the store still knows. */
  lemma {:induction false} PreferredHas(es: seq<PeerStore.Entry>, keys: seq<Key>)
    ensures forall k :: k in keys && PeerStore.InfoOf(es, k).Some? ==> k in Preferred(es, keys)
  {
    hide PeerStore.InfoOf;
    if keys != [] {
      assert keys == keys[..|keys| - 1] + [keys[|keys| - 1]];
      PreferredHas(es, keys[..|keys| - 1]);
    }
  }

  /** A tick that dials fewer than it may leaves nobody it could have dialed. */
  lemma UnfilledTick(conns: seq<Conn>, es: seq<PeerStore.Entry>, dropped: seq<Key>, setting: int, luck: Key -> real,
                     now: Time, clock: int, goal: nat, urgent: seq<Key>, regular: seq<Key>)
    requires PeerStore.DistinctKeys(es) && goal <= MaxConnections(setting)
    requires urgent == Novel(conns, Preferred(es, dropped), goal)
    requires var between := conns + NewConns(urgent, now);
      var best := PeerStore.Choice(AllAttempted(es, urgent, clock), TickQuery(between, setting, luck, clock));
      regular == Novel(between, KeysOf(best), goal - |urgent|)
    requires |urgent| + |regular| < goal
    ensures NobodyLeft(es, conns + NewConns(urgent + regular, now), dropped, luck, clock)
  {
    hide PeerStore.Choice, PeerStore.InBackoff, Novel, PeerStore.InfoOf, Keys, NewConns, AllAttempted, Preferred;
    var between := conns + NewConns(urgent, now);
    var after := conns + NewConns(urgent + regular, now);
    var q := TickQuery(between, setting, luck, clock);
    NovelIsAll(conns, Preferred(es, dropped), goal);
    PreferredHas(es, dropped);
    AttemptedKeeps(es, urgent, clock);
    ChoiceLeavesNobody(AllAttempted(es, urgent, clock), q, between, goal - |urgent|);
    BetweenKeys(conns, urgent, now);
    BetweenKeys(conns, urgent + regular, now);
    forall e | e in es
      ensures HasKey(after, e.key) || (e.key !in dropped && PeerStore.InBackoff(e.info, 60.0, luck(e.key), clock))
    {
      HasKeyIs(after, e.key);
      PeerStore.InfoInStore(es, e);
      if e.key !in Keys(conns) && e.key !in urgent {
        assert e in AllAttempted(es, urgent, clock);
      }
    }
  }

  lemma NothingNovel(conns: seq<Conn>, keys: seq<Key>, n: nat, now: Time)
    ensures Novel(conns, keys[..0], n) == [] && conns + NewConns([], now) == conns
  {
  }

  lemma NoneAreNovel(conns: seq<Conn>)
    ensures AreNovel(conns, [])
  {
  }

  /** New keys, and keys new beside them, are new together. */
  lemma NovelTwice(conns: seq<Conn>, a: seq<Key>, b: seq<Key>, now: Time)
    requires AreNovel(conns, a) && AreNovel(conns + NewConns(a, now), b)
    ensures AreNovel(conns, a + b)
    ensures conns + NewConns(a, now) + NewConns(b, now) == conns + NewConns(a + b, now)
  {
    hide Keys;
    BetweenKeys(conns, a, now);
    forall i, j | 0 <= i < j < |a + b|
      ensures (a + b)[i] != (a + b)[j]
    {
      if i < |a| <= j {
        assert a[i] in a && b[j - |a|] in b;
      }
    }
  }

  lemma TicksAreRuns(conns: seq<Conn>, keys: seq<Key>, now: Time, max: nat)
    requires AreNovel(conns, keys) && |keys| <= Goal(conns, max)
    ensures forall ticks ::
      Run(State(conns, ticks), max, TickEvents(|ticks|, keys, now)) == State(conns + NewConns(keys, now), ticks)
  {
    hide Run, TickEvents, AreNovel, Goal, NewConns;
    forall ticks
      ensures Run(State(conns, ticks), max, TickEvents(|ticks|, keys, now)) == State(conns + NewConns(keys, now), ticks)
    {
      TickIsRun(conns, keys, ticks, now, max);
    }
  }

  lemma NovelNone(conns: seq<Conn>)
    ensures forall keys :: Novel(conns, keys, 0) == []
  {
  }

  lemma NoConns(now: Time)
    ensures NewConns([], now) == []
  {
  }

  lemma HasKeyInKeys(conns: seq<Conn>, k: Key)
    ensures HasKey(conns, k) <==> k in Keys(conns)
  {
  }

  lemma BetweenKeys(conns: seq<Conn>, keys: seq<Key>, now: Time)
    ensures Keys(conns + NewConns(keys, now)) == Keys(conns) + set k | k in keys
  {
    var more := NewConns(keys, now);
    forall k | k in keys
      ensures k in Keys(more)
    {
      var i :| 0 <= i < |keys| && keys[i] == k;
      assert more[i] in more;
    }
    assert forall c :: c in conns + more <==> c in conns || c in more;
  }

  /** Looking at one more candidate. */
  lemma NovelStep(conns: seq<Conn>, keys: seq<Key>, i: nat, n: nat, now: Time)
    requires i < |keys| && |Novel(conns, keys[..i], n)| < n
    ensures var sofar, next := Novel(conns, keys[..i], n), Novel(conns, keys[..i + 1], n);
      if HasKey(conns + NewConns(sofar, now), keys[i]) then next == sofar
      else next == sofar + [keys[i]] && NewConns(next, now) == NewConns(sofar, now) + [Dialed(keys[i], now)]
  {
    hide Keys, HasKey;
    var sofar := Novel(conns, keys[..i], n);
    assert keys[..i + 1][..i] == keys[..i];
    HasKeyInKeys(conns + NewConns(sofar, now), keys[i]);
    BetweenKeys(conns, sofar, now);
  }

  lemma {:induction false} NovelRest(conns: seq<Conn>, keys: seq<Key>, i: nat, n: nat)
    requires i <= |keys| && (i == |keys| || |Novel(conns, keys[..i], n)| == n)
    ensures Novel(conns, keys, n) == Novel(conns, keys[..i], n)
    decreases |keys|
  {
    if i == |keys| {
      assert keys[..i] == keys;
    } else {
      var front := keys[..|keys| - 1];
      assert front[..i] == keys[..i];
      NovelRest(conns, front, i, n);
    }
  }
}
