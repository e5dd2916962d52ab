/** The object-sync state of the network manager (bmchat/net/manager.py) and what each section of code run
    under its lock does to it. A run is any interleaving of these sections by the peer threads. */
module ObjectSync {
  import opened Bytes

  type Hash = Bytes
  type Time = real
  type PeerKey = (string, int)

  const INVENTORY_MAX: nat := 50000
  const KNOWN_MAX := 200000
  const KNOWN_KEPT := 150000
  const MAX_PENDING: nat := 200000
  const PENDING_TTL: Time := 3600.0
  const GETDATA_RETRY_DELAY: Time := 3.0
  const MAX_OBJECT_COUNT_LOCAL: nat := 50000
  const INV_WANTED_MAX: nat := 1000

  /** An object asked for: when first, when last, and which peer offered it. */
  datatype Request = Request(first: Time, last: Time, source: Option<PeerKey>)

  datatype State = State(
    inventory: map<Hash, Bytes>, received: map<Hash, Time>, known: set<Hash>, pending: map<Hash, Request>)

  function HashOf(sha512: Bytes -> Digest, raw: Bytes): Hash {
    DoubleSha512(sha512, raw)[..32]
  }

  // ---- the order of eviction ----------------------------------------------------------

  /** Bytes compare lexicographically. */
  predicate Before(a: Bytes, b: Bytes) {
    b != [] && (a == [] || a[0] < b[0] || (a[0] == b[0] && Before(a[1..], b[1..])))
  }

  lemma {:induction false} BeforeTotal(a: Bytes, b: Bytes)
    ensures Before(a, b) || Before(b, a) || a == b
    ensures !(Before(a, b) && Before(b, a))
    ensures Before(a, b) ==> a != b
  {
    if a != [] && b != [] {
      BeforeTotal(a[1..], b[1..]);
      assert a == [a[0]] + a[1..] && b == [b[0]] + b[1..];
    }
  }

  lemma {:induction false} BeforeTransitive(a: Bytes, b: Bytes, c: Bytes)
    requires Before(a, b) && Before(b, c)
    ensures Before(a, c)
  {
    if a != [] && a[0] == b[0] == c[0] {
      BeforeTransitive(a[1..], b[1..], c[1..]);
    }
  }

  /** `(ts, key)` pairs compare by time, then by key. */
  predicate Older(t: Time, a: Hash, u: Time, b: Hash) {
    t < u || (t == u && Before(a, b))
  }

  predicate IsOldest(received: map<Hash, Time>, k: Hash) {
    k in received && forall h :: h in received && h != k ==> Older(received[k], k, received[h], h)
  }

  /** Before is: a front part of the other, or smaller where they first differ. */
  lemma {:induction false} BeforeIs(a: Bytes, b: Bytes)
    ensures Before(a, b) <==>
      exists i: nat :: i <= |a| && i < |b| && a[..i] == b[..i] && (i == |a| || a[i] < b[i])
  {
    if a != [] && b != [] && a[0] == b[0] {
      BeforeIs(a[1..], b[1..]);
      if i: nat :| i <= |a| && i < |b| && a[..i] == b[..i] && (i == |a| || a[i] < b[i]) {
        assert a[1..][..i - 1] == a[..i][1..] && b[1..][..i - 1] == b[..i][1..];
      }
      if Before(a, b) {
        var i: nat :| i <= |a| - 1 && i < |b| - 1 && a[1..][..i] == b[1..][..i]
            && (i == |a| - 1 || a[1..][i] < b[1..][i]);
        assert a[..i + 1] == [a[0]] + a[1..][..i] && b[..i + 1] == [b[0]] + b[1..][..i];
      }
    } else if b != [] {
      assert a[..0] == b[..0];
      assert forall i: nat :: 0 < i <= |a| && i < |b| && a[..i] == b[..i] ==> a[..i][0] == b[..i][0];
    }
  }

  /** The oldest was received no later than any other. */
  lemma OldestIsLeast(received: map<Hash, Time>, k: Hash)
    requires IsOldest(received, k)
    ensures k in received && forall h :: h in received ==> received[k] <= received[h]
    ensures forall h :: h in received && h != k && received[h] == received[k] ==> Before(k, h)
  {
    hide Before;
  }

  // ---- the sections -------------------------------------------------------------------

  datatype Event =
    | Gate(hash: Hash)
    | Store(raw: Bytes, now: Time)
    | Remember(hash: Hash)
    | LoadKnown(loaded: set<Hash>)
    | ForgetRequest(hash: Hash)
    | AskFor(hashes: seq<Hash>, now: Time, source: Option<PeerKey>)
    | StalePass(now: Time)
    | AskedAgain(hashes: seq<Hash>, now: Time)
    | Wipe

  /** The object is new: neither seen nor held. */
  predicate Passes(s: State, h: Hash) {
    h !in s.known && h !in s.inventory
  }

  /** The dedup gate of `received_object`. */
  function AfterGate(s: State, h: Hash): State {
    if Passes(s, h) then s.(known := s.known + {h}) else s.(pending := s.pending - {h})
  }

  /** Known hashes are cut to an arbitrary 150000 once they exceed 200000. */
  predicate Trimmed(known: set<Hash>, known': set<Hash>) {
    if |known| > 200000 then known' <= known && |known'| == 150000 else known' == known
  }

  /** `store_object`: refresh an object that is held, or make room by dropping the oldest and keep the new one. */
  ghost predicate Stored(sha512: Bytes -> Digest, s: State, raw: Bytes, now: Time, s': State) {
    var h := HashOf(sha512, raw);
    if h in s.inventory then s' == s.(received := s.received[h := now])
    else
      && Trimmed(s.known, s'.known) && s'.pending == s.pending
      && if |s.inventory| < 50000
         then s'.inventory == s.inventory[h := raw] && s'.received == s.received[h := now]
         else exists k :: Replaced(s, k, h, raw, now, s')
  }

  /** The oldest object `k` makes room for `h`. */
  predicate Replaced(s: State, k: Hash, h: Hash, raw: Bytes, now: Time, s': State) {
    && IsOldest(s.received, k)
    && s'.inventory == (s.inventory - {k})[h := raw] && s'.received == (s.received - {k})[h := now]
  }

  /** A request noted: a new one is first asked for now; an old one at most learns who offered it. */
  function Noted(pending: map<Hash, Request>, h: Hash, now: Time, source: Option<PeerKey>): map<Hash, Request> {
    if h !in pending then pending[h := Request(now, now, source)]
    else if pending[h].source.None? && source.Some? then pending[h := pending[h].(source := source)]
    else pending
  }

  function AllNoted(pending: map<Hash, Request>, hashes: seq<Hash>, now: Time, source: Option<PeerKey>)
    : map<Hash, Request>
  {
    if hashes == [] then pending
    else Noted(AllNoted(pending, hashes[..|hashes| - 1], now, source), hashes[|hashes| - 1], now, source)
  }

  /** Over the limit, requests first asked for earliest go. */
  ghost predicate CutDown(full: map<Hash, Request>, kept: map<Hash, Request>) {
    if |full| <= 200000 then kept == full
    else
      && |kept| == 200000 && kept.Keys <= full.Keys && (forall h :: h in kept ==> kept[h] == full[h])
      && forall h, g :: h in full && h !in kept && g in kept ==> full[h].first <= full[g].first
  }

  /** Requests a stale pass keeps. */
  predicate StillWanted(s: State, h: Hash, now: Time) {
    h in s.pending && Passes(s, h) && now - s.pending[h].first <= 3600.0
  }

  function AfterStalePass(s: State, now: Time): State {
    s.(pending := map h | h in s.pending && StillWanted(s, h, now) :: s.pending[h])
  }

  predicate IsStale(s: State, h: Hash, now: Time) {
    StillWanted(s, h, now) && now - s.pending[h].last >= 3.0
  }

  function Again(pending: map<Hash, Request>, hashes: seq<Hash>, now: Time): map<Hash, Request> {
    map h | h in pending :: if h in hashes then pending[h].(last := now) else pending[h]
  }

  ghost predicate Next(sha512: Bytes -> Digest, s: State, e: Event, s': State) {
    match e
    case Gate(h) => s' == AfterGate(s, h)
    case Store(raw, now) => Stored(sha512, s, raw, now, s')
    case Remember(h) => s' == s.(known := s.known + {h})
    case LoadKnown(hs) => s' == s.(known := s.known + hs)
    case ForgetRequest(h) => s' == s.(pending := s.pending - {h})
    case AskFor(hashes, now, source) =>
      s' == s.(pending := s'.pending) && CutDown(AllNoted(s.pending, hashes, now, source), s'.pending)
    case StalePass(now) => s' == AfterStalePass(s, now)
    case AskedAgain(hashes, now) => s' == s.(pending := Again(s.pending, hashes, now))
    case Wipe => s' == State(map[], map[], {}, map[])
  }

  // ---- what every reachable state satisfies --------------------------------------------

  /** Every object lies under its own hash, has a time of receipt, and the tables keep their limits. */
  ghost predicate Inv(sha512: Bytes -> Digest, s: State) {
    && (forall h :: h in s.inventory ==> HashOf(sha512, s.inventory[h]) == h)
    && s.received.Keys == s.inventory.Keys
    && |s.inventory| <= 50000
    && |s.pending| <= 200000
  }

  ghost predicate IsRun(sha512: Bytes -> Digest, states: seq<State>, events: seq<Event>) {
    |states| == |events| + 1 && forall i :: 0 <= i < |events| ==> Next(sha512, states[i], events[i], states[i + 1])
  }

  lemma ReplaceKey<V>(m: map<Hash, V>, k: Hash, h: Hash, v: V)
    requires k in m && h !in m
    ensures var r := (m - {k})[h := v]; |r| == |m| && r.Keys == m.Keys - {k} + {h}
  {
    var less := m - {k};
    assert less.Keys == m.Keys - {k};
    assert |less| == |less.Keys| && |m| == |m.Keys|;
    assert |less[h := v]| == |less[h := v].Keys|;
  }

  lemma StoreKeepsInv(sha512: Bytes -> Digest, s: State, raw: Bytes, now: Time, s': State)
    requires Inv(sha512, s) && Stored(sha512, s, raw, now, s')
    ensures Inv(sha512, s')
  {
    hide HashOf, Older, Trimmed, Inv, Replaced;
    var h := HashOf(sha512, raw);
    if h in s.inventory {
      RefreshKeepsInv(sha512, s, h, now);
    } else if |s.inventory| >= INVENTORY_MAX {
      var k :| Replaced(s, k, h, raw, now, s');
      ReplacingKeepsInv(sha512, s, k, raw, now, s');
    } else {
      AddingKeepsInv(sha512, s, raw, now, s');
    }
  }

  lemma RefreshKeepsInv(sha512: Bytes -> Digest, s: State, h: Hash, now: Time)
    requires Inv(sha512, s) && h in s.inventory
    ensures Inv(sha512, s.(received := s.received[h := now]))
  {
    hide HashOf;
  }

  lemma ReplacingKeepsInv(sha512: Bytes -> Digest, s: State, k: Hash, raw: Bytes, now: Time, s': State)
    requires Inv(sha512, s) && HashOf(sha512, raw) !in s.inventory && s'.pending == s.pending
    requires Replaced(s, k, HashOf(sha512, raw), raw, now, s')
    ensures Inv(sha512, s')
  {
    hide HashOf, Older;
    var h := HashOf(sha512, raw);
    ReplaceKey(s.inventory, k, h, raw);
    ReplaceKey(s.received, k, h, now);
  }

  lemma AddingKeepsInv(sha512: Bytes -> Digest, s: State, raw: Bytes, now: Time, s': State)
    requires Inv(sha512, s) && HashOf(sha512, raw) !in s.inventory && s'.pending == s.pending
    requires |s.inventory| < INVENTORY_MAX && s'.inventory == s.inventory[HashOf(sha512, raw) := raw]
    requires s'.received == s.received[HashOf(sha512, raw) := now]
    ensures Inv(sha512, s')
  {
    hide HashOf;
    assert |s'.inventory| == |s.inventory| + 1;
  }

  lemma SubsetSize<T>(a: set<T>, b: set<T>)
    requires a <= b
    ensures |a| <= |b|
  {
    assert b == a + (b - a);
  }

  lemma StepKeepsInv(sha512: Bytes -> Digest, s: State, e: Event, s': State)
    requires Inv(sha512, s) && Next(sha512, s, e, s')
    ensures Inv(sha512, s')
  {
    hide HashOf, Stored, AllNoted;
    match e
    case Store(raw, now) => StoreKeepsInv(sha512, s, raw, now, s');
    case Gate(_) => SubsetSize(s'.pending.Keys, s.pending.Keys);
    case ForgetRequest(_) => SubsetSize(s'.pending.Keys, s.pending.Keys);
    case StalePass(_) => SubsetSize(s'.pending.Keys, s.pending.Keys);
    case AskedAgain(_, _) => SubsetSize(s'.pending.Keys, s.pending.Keys);
    case _ =>
  }

  /** Content addressing and the size limits hold in every reachable state. */
  lemma {:induction false} RunKeepsInv(sha512: Bytes -> Digest, states: seq<State>, events: seq<Event>, i: nat)
    requires IsRun(sha512, states, events) && Inv(sha512, states[0]) && i < |states|
    ensures Inv(sha512, states[i])
    decreases i
  {
    hide Next, Inv;
    if i > 0 {
      RunKeepsInv(sha512, states, events, i - 1);
      StepKeepsInv(sha512, states[i - 1], events[i - 1], states[i]);
    }
  }

  // ---- no object is accepted twice -----------------------------------------------------

  /** Something that was there and is not any more left at some step. */
  lemma {:induction false} LeftBetween(sets: seq<set<Hash>>, lo: nat, hi: nat, h: Hash) returns (k: nat)
    requires lo <= hi < |sets| && h in sets[lo] && h !in sets[hi]
    ensures lo <= k < hi && h in sets[k] && h !in sets[k + 1]
    decreases hi - lo
  {
    if h !in sets[lo + 1] {
      k := lo;
    } else {
      k := LeftBetween(sets, lo + 1, hi, h);
    }
  }

  /** A known hash is forgotten only by a wipe or by a store that trims the known hashes. */
  lemma OnlyForgetting(sha512: Bytes -> Digest, s: State, e: Event, s': State, h: Hash)
    requires Next(sha512, s, e, s') && h in s.known && h !in s'.known
    ensures e.Wipe? || (e.Store? && |s.known| > 200000)
  {
  }

  /** An object held is dropped only by a wipe, or as the oldest one when a full inventory takes another. */
  lemma OnlyDropping(sha512: Bytes -> Digest, s: State, e: Event, s': State, h: Hash)
    requires Next(sha512, s, e, s') && h in s.inventory && h !in s'.inventory
    ensures e.Wipe? || (e.Store? && |s.inventory| >= 50000 && IsOldest(s.received, h))
  {
  }

  lemma ForgottenBetween(sha512: Bytes -> Digest, states: seq<State>, events: seq<Event>, i: nat, j: nat, h: Hash)
    returns (k: nat)
    requires IsRun(sha512, states, events) && i <= j < |states| && h in states[i].known && h !in states[j].known
    ensures i <= k < j && (events[k].Wipe? || (events[k].Store? && |states[k].known| > 200000))
  {
    k := LeftBetween(seq(|states|, n requires 0 <= n < |states| => states[n].known), i, j, h);
    OnlyForgetting(sha512, states[k], events[k], states[k + 1], h);
  }

  /** For every interleaving: between two deliveries of the same object that both pass the dedup gate there is
      a wipe, or a store that trims more than 200000 known hashes. */
  lemma AcceptedOnce(sha512: Bytes -> Digest, states: seq<State>, events: seq<Event>, i: nat, j: nat, h: Hash)
    requires IsRun(sha512, states, events) && i < j < |events|
    requires events[i] == Gate(h) && Passes(states[i], h)
    requires events[j] == Gate(h) && Passes(states[j], h)
    ensures exists k :: i < k < j && (events[k].Wipe? || (events[k].Store? && |states[k].known| > 200000))
  {
    var k := ForgottenBetween(sha512, states, events, i + 1, j, h);
  }

  /** An object this node has announced is not accepted from a peer until it is forgotten. */
  lemma AnnouncedIsNotNew(sha512: Bytes -> Digest, states: seq<State>, events: seq<Event>, i: nat, j: nat, h: Hash)
    requires IsRun(sha512, states, events) && i < j < |events|
    requires events[i] == Remember(h) && events[j] == Gate(h) && Passes(states[j], h)
    ensures exists k :: i < k < j && (events[k].Wipe? || (events[k].Store? && |states[k].known| > 200000))
  {
    var k := ForgottenBetween(sha512, states, events, i + 1, j, h);
  }

  lemma StoredIsHeld(sha512: Bytes -> Digest, s: State, raw: Bytes, now: Time, s': State)
    requires Stored(sha512, s, raw, now, s')
    ensures HashOf(sha512, raw) in s'.inventory
  {
  }

  /** Announcing stores first and remembers in a later section. In between the object can be accepted from a peer,
      but only if the inventory has dropped it again. */
  lemma AnnouncingIsNotNew(sha512: Bytes -> Digest, states: seq<State>, events: seq<Event>, i: nat, j: nat)
    requires IsRun(sha512, states, events) && i < j < |events| && events[i].Store?
    requires var h := HashOf(sha512, events[i].raw); events[j] == Gate(h) && Passes(states[j], h)
    ensures exists k ::
      i < k < j && (events[k].Wipe? || (events[k].Store? && |states[k].inventory| >= 50000
                                        && IsOldest(states[k].received, HashOf(sha512, events[i].raw))))
  {
    hide Stored, IsOldest, HashOf;
    var h := HashOf(sha512, events[i].raw);
    StoredIsHeld(sha512, states[i], events[i].raw, events[i].now, states[i + 1]);
    var k := LeftBetween(seq(|states|, n requires 0 <= n < |states| => states[n].inventory.Keys), i + 1, j, h);
    OnlyDropping(sha512, states[k], events[k], states[k + 1], h);
  }

  // ---- requests -----------------------------------------------------------------------

  lemma {:induction false} AllNotedKeepsFirst(pending: map<Hash, Request>, hashes: seq<Hash>, now: Time,
          source: Option<PeerKey>)
    ensures var r := AllNoted(pending, hashes, now, source);
      && r.Keys == pending.Keys + (set h | h in hashes)
      && (forall h :: h in pending ==> r[h].first == pending[h].first && r[h].last == pending[h].last)
      && (forall h :: h in hashes && h !in pending ==> r[h] == Request(now, now, source))
      && (forall h :: h in pending ==>
            r[h].source == if h in hashes && pending[h].source.None? then source else pending[h].source)
  {
    if hashes != [] {
      var front, h := hashes[..|hashes| - 1], hashes[|hashes| - 1];
      AllNotedKeepsFirst(pending, front, now, source);
      assert hashes == front + [h];
    }
  }

  /** No section changes when a pending object was first asked for. */
  lemma FirstAskedIsFixed(sha512: Bytes -> Digest, s: State, e: Event, s': State, h: Hash)
    requires Next(sha512, s, e, s') && h in s.pending && h in s'.pending
    ensures s'.pending[h].first == s.pending[h].first
  {
    hide Stored;
    match e
    case AskFor(hashes, now, source) => AllNotedKeepsFirst(s.pending, hashes, now, source);
    case Store(raw, now) => assert s'.pending == s.pending by { StoredKeepsPending(sha512, s, raw, now, s'); }
    case _ =>
  }

  lemma StoredKeepsPending(sha512: Bytes -> Digest, s: State, raw: Bytes, now: Time, s': State)
    requires Stored(sha512, s, raw, now, s')
    ensures s'.pending == s.pending
  {
  }
}
