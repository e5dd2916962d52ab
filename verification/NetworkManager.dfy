/** The network manager's object tables and the methods that update them (bmchat/net/manager.py). Each lock
    section is shown to be the corresponding section of `ObjectSync`. */
module NetworkManager {
  import opened Bytes
  import opened Collections
  import opened ObjectSync
  import opened Objects
  import opened Resend
  import opened Sorting
  import AckLoop
  import Packets
  import RateLimiter

  const STORE_RATE_MAX: nat := 50
  const STORE_RATE_WINDOW: Time := 60.0
  const INV_RATE_MAX: nat := 5
  const INV_RATE_WINDOW: Time := 10.0
  const ALL_INVS_MAX: nat := 100
  const ALL_INVS_WINDOW: Time := 10.0
  const ALL_PEERS: PeerKey := ("_global", 0)
  const GETDATA_RATE_MAX: nat := 10
  const GETDATA_RATE_WINDOW: Time := 10.0
  const BATCH_MAX: nat := 500
  const FALLBACK_MAX: nat := 50

  // ---- the database --------------------------------------------------------------------

  /** `INSERT OR IGNORE` of entries in turn. */
  function Filed(table: map<Hash, Bytes>, entries: seq<(Hash, Bytes)>): map<Hash, Bytes> {
    if entries == [] then table
    else
      var before, (h, raw) := Filed(table, entries[..|entries| - 1]), entries[|entries| - 1];
      if h in before then before else before[h := raw]
  }

  /** The database and what waits to be written to it hold objects under their own hashes. */
  ghost predicate Archived(sha512: Bytes -> Digest, table: map<Hash, Bytes>, batch: seq<(Hash, Bytes)>) {
    ContentAddressed(sha512, table) && forall i :: 0 <= i < |batch| ==> batch[i].0 == HashOf(sha512, batch[i].1)
  }

  lemma {:induction false} FiledArchived(sha512: Bytes -> Digest, table: map<Hash, Bytes>, entries: seq<(Hash, Bytes)>)
    requires Archived(sha512, table, entries)
    ensures Archived(sha512, Filed(table, entries), [])
    ensures Filed(table, entries).Keys == table.Keys + set i | 0 <= i < |entries| :: entries[i].0
  {
    hide HashOf;
    if entries != [] {
      FiledArchived(sha512, table, entries[..|entries| - 1]);
    }
  }

  /** What queueing an entry makes of the database and the queue. */
  predicate Queued(table: map<Hash, Bytes>, batch: seq<(Hash, Bytes)>, entry: (Hash, Bytes), late: bool,
                   filed: Option<nat>, table': map<Hash, Bytes>, batch': seq<(Hash, Bytes)>)
  {
    var entries := batch + [entry];
    if (|entries| >= 500 || late) && filed.Some?
    then table' == Filed(table, entries[..Min(filed.value, |entries|)]) && batch' == []
    else table' == table && batch' == entries
  }

  // ---- rate limits ---------------------------------------------------------------------

  function StoreCall(peer: PeerKey, now: Time): RateLimiter.Call {
    RateLimiter.Call(peer, 50, 60.0, now)
  }

  /** What is left of an object from a peer after the checks and, unless `bypass`, the rate limit of its peer. */
  function Admitted(sha512: Bytes -> Digest, s: RateLimiter.State, raw: Bytes, source: Option<PeerKey>, bypass: bool,
                    clock: int, now: Time): Option<Parsed>
  {
    if !bypass && source.Some? && !RateLimiter.Allowed(s, StoreCall(source.value, now)) then None
    else AckLoop.AcceptIncoming(sha512, raw, clock)
  }

  /** Only objects that pass the checks count against the limit. */
  function AfterStore(sha512: Bytes -> Digest, s: RateLimiter.State, raw: Bytes, source: Option<PeerKey>, bypass: bool,
                      clock: int, now: Time): RateLimiter.State
  {
    if AckLoop.AcceptIncoming(sha512, raw, clock).None? || bypass || source.None? then s
    else RateLimiter.After(s, StoreCall(source.value, now))
  }

  lemma AdmittedIsParsed(sha512: Bytes -> Digest, s: RateLimiter.State, raw: Bytes, source: Option<PeerKey>,
                         bypass: bool, clock: int, now: Time)
    ensures var taken := Admitted(sha512, s, raw, source, bypass, clock, now);
      taken.Some? ==> Parse(sha512, raw) == Ok(taken.value)
  {
    hide Parse, RateLimiter.Allowed;
  }

  function GetdataCall(peer: PeerKey, now: Time): RateLimiter.Call {
    RateLimiter.Call(peer, 10, 10.0, now)
  }

  function AllInvsCall(now: Time): RateLimiter.Call {
    RateLimiter.Call(("_global", 0), 100, 10.0, now)
  }

  function InvCall(peer: PeerKey, now: Time): RateLimiter.Call {
    RateLimiter.Call(peer, 5, 10.0, now)
  }

  /** An offer passes the limit on all peers together and then that on its own peer. */
  predicate InvAllowed(s: RateLimiter.State, peer: PeerKey, now: Time) {
    && RateLimiter.Allowed(s, AllInvsCall(now))
    && RateLimiter.Allowed(RateLimiter.After(s, AllInvsCall(now)), InvCall(peer, now))
  }

  /** The limit of one peer is not looked at when that on all is exceeded. */
  function AfterInv(s: RateLimiter.State, peer: PeerKey, now: Time): RateLimiter.State {
    var all := RateLimiter.After(s, AllInvsCall(now));
    if RateLimiter.Allowed(s, AllInvsCall(now)) then RateLimiter.After(all, InvCall(peer, now)) else all
  }

  // ---- telling other peers -------------------------------------------------------------

  /** A connection: whether its handshake is done, and the streams the peer takes part in, where known. */
  datatype Neighbor = Neighbor(key: PeerKey, established: bool, streams: set<nat>)

  /** The neighbor is told of an object: it is not where the object comes from, and takes part in its stream, unless
      one of the streams is not known. */
  predicate Hears(n: Neighbor, source: Option<PeerKey>, stream: Option<nat>) {
    && n.established && source != Some(n.key)
    && (stream.Some? && n.streams != {} ==> stream.value in n.streams)
  }

  /** The peer with the key is told: its handshake is done, the object does not come from it, and its streams are not
      known, or the object's is not, or is one of them. */
  ghost predicate IsTold(neighbors: seq<Neighbor>, source: Option<PeerKey>, stream: Option<nat>, key: PeerKey) {
    exists n :: n in neighbors
      && n.key == key && n.established && (source.None? || source.value != key)
      && (n.streams == {} || stream.None? || stream.value in n.streams)
  }

  /** Connections are kept by peer. */
  ghost predicate OnePerPeer(neighbors: seq<Neighbor>) {
    forall i, j :: 0 <= i < j < |neighbors| ==> neighbors[i].key != neighbors[j].key
  }

  method Hearers(neighbors: seq<Neighbor>, source: Option<PeerKey>, stream: Option<nat>) returns (told: seq<PeerKey>)
    requires OnePerPeer(neighbors)
    ensures Distinct(told) && forall key :: key in told <==> IsTold(neighbors, source, stream, key)
  {
    told := [];
    for i := 0 to |neighbors|
      invariant Distinct(told) && forall key :: key in told <==> IsTold(neighbors[..i], source, stream, key)
    {
      HearersNext(neighbors, i, source, stream);
      if Hears(neighbors[i], source, stream) {
        told := told + [neighbors[i].key];
      }
    }
    assert neighbors[..|neighbors|] == neighbors;
  }

  lemma HearersNext(neighbors: seq<Neighbor>, i: nat, source: Option<PeerKey>, stream: Option<nat>)
    requires i < |neighbors| && OnePerPeer(neighbors)
    ensures !IsTold(neighbors[..i], source, stream, neighbors[i].key)
    ensures forall key :: IsTold(neighbors[..i + 1], source, stream, key) <==>
      IsTold(neighbors[..i], source, stream, key) || (key == neighbors[i].key && Hears(neighbors[i], source, stream))
  {
    assert neighbors[..i + 1] == neighbors[..i] + [neighbors[i]];
    assert forall n :: n in neighbors[..i + 1] <==> n in neighbors[..i] || n == neighbors[i];
  }

  // ---- choosing what to ask for --------------------------------------------------------

  /** The hashes of an offer that are new, each once, in the order offered. */
  function Fresh(have: set<Hash>, offered: seq<Hash>): (novel: seq<Hash>)
    ensures |novel| <= |offered|
    decreases |offered|
  {
    if offered == [] then []
    else if offered[0] in have then Fresh(have, offered[1..])
    else [offered[0]] + Fresh(have + {offered[0]}, offered[1..])
  }

  lemma {:induction false} FreshIsFresh(have: set<Hash>, offered: seq<Hash>)
    ensures Distinct(Fresh(have, offered))
    ensures forall h :: h in Fresh(have, offered) <==> h in offered && h !in have
    decreases |offered|
  {
    if offered != [] {
      var h := offered[0];
      if h in have {
        FreshIsFresh(have, offered[1..]);
      } else {
        FreshIsFresh(have + {h}, offered[1..]);
      }
    }
  }

  lemma {:induction false} FreshAppend(have: set<Hash>, offered: seq<Hash>, h: Hash)
    ensures Fresh(have, offered + [h]) ==
            if h in have || h in offered then Fresh(have, offered) else Fresh(have, offered) + [h]
    decreases |offered|
  {
    if offered == [] {
      assert ([h] + offered)[1..] == [];
    } else {
      var first := offered[0];
      assert (offered + [h])[1..] == offered[1..] + [h];
      if first in have {
        FreshAppend(have, offered[1..], h);
      } else {
        FreshAppend(have + {first}, offered[1..], h);
      }
    }
  }

  /** The requests of a list that are still wanted. */
  function StillAsked(s: State, hashes: seq<Hash>): seq<Hash> {
    if hashes == [] then []
    else
      var front, h := hashes[..|hashes| - 1], hashes[|hashes| - 1];
      StillAsked(s, front) + if h in s.pending && Passes(s, h) then [h] else []
  }

  function Cut(hashes: seq<Hash>, n: nat): (front: seq<Hash>)
    ensures front <= hashes && |front| == Min(|hashes|, n)
  {
    hashes[..Min(|hashes|, n)]
  }

  // ---- replies -------------------------------------------------------------------------

  const GETDATA_HASHES_MAX: nat := 1000
  const GETDATA_BLOBS_MAX: nat := 100
  const GETDATA_BYTES_MAX: nat := 8 * 1024 * 1024

  /** The objects a table has for a list of hashes, in order. */
  function Found(table: map<Hash, Bytes>, hashes: seq<Hash>): seq<Bytes> {
    if hashes == [] then []
    else
      var front, h := hashes[..|hashes| - 1], hashes[|hashes| - 1];
      if h in table then Found(table, front) + [table[h]] else Found(table, front)
  }

  function Missing(table: map<Hash, Bytes>, hashes: seq<Hash>): (m: seq<Hash>)
    ensures |m| <= |hashes|
    ensures forall h :: h in m <==> h in hashes && h !in table
  {
    if hashes == [] then []
    else
      var front, h := hashes[..|hashes| - 1], hashes[|hashes| - 1];
      assert hashes == front + [h];
      if h in table then Missing(table, front) else Missing(table, front) + [h]
  }

  function TotalSize(blobs: seq<Bytes>): nat {
    if blobs == [] then 0 else TotalSize(blobs[..|blobs| - 1]) + |blobs[|blobs| - 1]|
  }

  /** A reply may hold `n` of the blobs: at most a hundred, and within 8 MiB unless it is a single one. */
  predicate MayReply(blobs: seq<Bytes>, n: nat) {
    n <= |blobs| && n <= 100 && (n <= 1 || TotalSize(blobs[..n]) <= 8 * 1024 * 1024)
  }

  /** The reply is the longest front part the limits allow. */
  predicate IsReply(blobs: seq<Bytes>, reply: seq<Bytes>) {
    && MayReply(blobs, |reply|) && reply == blobs[..|reply|]
    && (|reply| < |blobs| ==> !MayReply(blobs, |reply| + 1))
  }

  /** No object the network accepts is large enough for the exception. */
  lemma ReplyWithinLimit(blobs: seq<Bytes>, n: nat)
    requires MayReply(blobs, n) && forall blob :: blob in blobs[..n] ==> |blob| <= MAX_OBJECT_LENGTH + 64
    ensures TotalSize(blobs[..n]) <= 8 * 1024 * 1024
  {
    if n == 1 {
      assert blobs[..1] == [blobs[0]] && blobs[..1][..0] == [];
      assert blobs[0] in blobs[..1];
    }
  }

  ghost predicate ContentAddressed(sha512: Bytes -> Digest, table: map<Hash, Bytes>) {
    forall h :: h in table ==> HashOf(sha512, table[h]) == h
  }

  lemma {:induction false} FoundIsAll(table: map<Hash, Bytes>, hashes: seq<Hash>, h: Hash)
    requires h in hashes && h in table
    ensures table[h] in Found(table, hashes)
  {
    var front, last := hashes[..|hashes| - 1], hashes[|hashes| - 1];
    assert hashes == front + [last];
    if h != last {
      FoundIsAll(table, front, h);
    }
  }

  /** A reply leaves something out only at a hundred objects or when the next would exceed 8 MiB. */
  lemma ReplyIsFull(blobs: seq<Bytes>, reply: seq<Bytes>)
    requires IsReply(blobs, reply)
    ensures reply == blobs || |reply| == 100
            || (0 < |reply| < |blobs| && TotalSize(reply) + |blobs[|reply|]| > 8 * 1024 * 1024)
  {
    var n := |reply|;
    if n < |blobs| && n < 100 {
      assert blobs[..n + 1][..n] == reply;
    } else if n == |blobs| {
      assert blobs[..n] == blobs;
    }
  }

  lemma {:induction false} FoundWasAsked(sha512: Bytes -> Digest, table: map<Hash, Bytes>, hashes: seq<Hash>)
    requires ContentAddressed(sha512, table)
    ensures forall blob :: blob in Found(table, hashes) ==>
      HashOf(sha512, blob) in hashes && HashOf(sha512, blob) in table
  {
    hide HashOf;
    if hashes != [] {
      var front, h := hashes[..|hashes| - 1], hashes[|hashes| - 1];
      assert hashes == front + [h];
      FoundWasAsked(sha512, table, front);
    }
  }

  /** The longest reply the limits allow, from the front. */
  method CapBlobs(blobs: seq<Bytes>) returns (capped: seq<Bytes>)
    ensures IsReply(blobs, capped)
  {
    capped := [];
    var total := 0;
    var considered := blobs[..Min(|blobs|, GETDATA_BLOBS_MAX * 2)];
    for i := 0 to |considered|
      invariant capped == considered[..i] == blobs[..i]
      invariant MayReply(blobs, i) && total == TotalSize(blobs[..i])
    {
      var size := |considered[i]|;
      assert blobs[..i + 1][..i] == blobs[..i];
      if capped != [] && total + size > GETDATA_BYTES_MAX {
        break;
      }
      if |capped| >= GETDATA_BLOBS_MAX {
        break;
      }
      capped := capped + [considered[i]];
      total := total + size;
    }
  }

  /** The scan of an offer, which stops as soon as it has found enough. */
  method FirstFresh(combined: set<Hash>, offered: seq<Hash>, limit: nat) returns (wanted: seq<Hash>)
    requires limit > 0
    ensures wanted == Fresh(combined, offered)[..Min(|Fresh(combined, offered)|, limit)]
  {
    hide Fresh;
    var seen: set<Hash> := {};
    wanted := [];
    ghost var novel := Fresh(combined, offered);
    FreshPrefix(combined, offered, 0);
    NothingFresh(combined, offered);
    for i := 0 to |offered|
      invariant forall h :: h in seen <==> h in offered[..i]
      invariant wanted == Fresh(combined, offered[..i]) && |wanted| < limit
    {
      var h := offered[i];
      assert offered[..i + 1] == offered[..i] + [h];
      FreshAppend(combined, offered[..i], h);
      FreshPrefix(combined, offered, i + 1);
      if h in seen {
        continue;
      }
      seen := seen + {h};
      if h in combined {
        continue;
      }
      wanted := wanted + [h];
      if |wanted| >= limit {
        return;
      }
    }
    assert offered[..|offered|] == offered;
  }

  lemma NothingFresh(have: set<Hash>, offered: seq<Hash>)
    ensures Fresh(have, offered[..0]) == []
  {
  }

  lemma EmptyIsSound(sha512: Bytes -> Digest, table: map<Hash, Bytes>)
    ensures Inv(sha512, State(map[], map[], {}, map[])) && Archived(sha512, map[], [])
    ensures forall batch :: Archived(sha512, table, batch) ==> Archived(sha512, table, [])
  {
    hide HashOf;
  }

  class NetworkManager {
    const sha512: Bytes -> Digest
    var inventory: map<Hash, Bytes>
    var inventoryReceived: map<Hash, Time>
    var knownHashes: set<Hash>
    var pendingGetdata: map<Hash, Request>
    /** The objects in the database, and those waiting to be written to it. */
    var database: map<Hash, Bytes>
    var batch: seq<(Hash, Bytes)>
    const storeHits: RateLimiter.Limiter
    const invHits: RateLimiter.Limiter
    const getdataHits: RateLimiter.Limiter

    constructor (sha512: Bytes -> Digest, database: map<Hash, Bytes>)
      requires ContentAddressed(sha512, database)
      ensures this.sha512 == sha512 && Valid() && Tables() == State(map[], map[], {}, map[])
      ensures this.database == database && batch == []
      ensures storeHits.Valid() && invHits.Valid() && getdataHits.Valid()
    {
      this.sha512, this.database, batch := sha512, database, [];
      inventory, inventoryReceived, knownHashes, pendingGetdata := map[], map[], {}, map[];
      storeHits := new RateLimiter.Limiter();
      invHits := new RateLimiter.Limiter();
      getdataHits := new RateLimiter.Limiter();
    }

    function Tables(): State
      reads this
    {
      State(inventory, inventoryReceived, knownHashes, pendingGetdata)
    }

    ghost predicate Valid()
      reads this
    {
      Inv(sha512, Tables()) && Archived(sha512, database, batch)
    }

    // ---- storing -----------------------------------------------------------------------

    /** The key with the least (received, key). */
    method OldestKey() returns (oldest: Hash)
      requires inventoryReceived != map[]
      ensures IsOldest(inventoryReceived, oldest)
    {
      hide Before;
      oldest :| oldest in inventoryReceived;
      var rest := inventoryReceived.Keys - {oldest};
      while rest != {}
        invariant rest <= inventoryReceived.Keys && oldest in inventoryReceived && oldest !in rest
        invariant forall h :: h in inventoryReceived && h !in rest && h != oldest ==>
                                Older(inventoryReceived[oldest], oldest, inventoryReceived[h], h)
        decreases |rest|
      {
        var h :| h in rest;
        rest := rest - {h};
        BeforeTotal(oldest, h);
        if Older(inventoryReceived[h], h, inventoryReceived[oldest], oldest) {
          forall g | g in inventoryReceived && g !in rest && g != h && g != oldest
            ensures Older(inventoryReceived[h], h, inventoryReceived[g], g)
          {
            OlderTransitive(inventoryReceived, h, oldest, g);
          }
          oldest := h;
        }
      }
    }

    /** Any 150000 of more than 200000 known hashes. */
    method TrimKnown()
      modifies this`knownHashes
      ensures Trimmed(old(knownHashes), knownHashes)
    {
      if |knownHashes| > KNOWN_MAX {
        while |knownHashes| > KNOWN_KEPT
          invariant knownHashes <= old(knownHashes) && |knownHashes| >= KNOWN_KEPT
          decreases |knownHashes|
        {
          var h :| h in knownHashes;
          knownHashes := knownHashes - {h};
        }
      }
    }

    method StoreObject(raw: Bytes, now: Time) returns (h: Hash)
      requires Valid()
      modifies this`inventory, this`inventoryReceived, this`knownHashes
      ensures Valid() && h == HashOf(sha512, raw) && Next(sha512, old(Tables()), Store(raw, now), Tables())
    {
      hide HashOf, IsOldest, Trimmed, Inv, Archived, Stored;
      ghost var before := Tables();
      h := HashOf(sha512, raw);
      if h in inventory {
        inventoryReceived := inventoryReceived[h := now];
        StoredAgain(sha512, before, raw, now);
      } else if |inventory| >= INVENTORY_MAX {
        NotEmpty();
        var oldest := OldestKey();
        inventory := inventory - {oldest};
        inventoryReceived := inventoryReceived - {oldest};
        inventory := inventory[h := raw];
        inventoryReceived := inventoryReceived[h := now];
        TrimKnown();
        StoredByReplacing(sha512, before, oldest, raw, now, Tables());
      } else {
        inventory := inventory[h := raw];
        inventoryReceived := inventoryReceived[h := now];
        TrimKnown();
        StoredByAdding(sha512, before, raw, now, Tables());
      }
      StoreKeepsInv(sha512, before, raw, now, Tables());
    }

    lemma NotEmpty()
      requires Valid() && |inventory| >= INVENTORY_MAX
      ensures inventoryReceived != map[]
    {
    }

    // ---- receiving and announcing ------------------------------------------------------

    /** The dedup gate. */
    method PassGate(h: Hash) returns (novel: bool)
      requires Valid()
      modifies this`knownHashes, this`pendingGetdata
      ensures Valid() && novel == Passes(old(Tables()), h)
      ensures Next(sha512, old(Tables()), Gate(h), Tables())
    {
      hide Inv, Archived, HashOf;
      StepKeepsInv(sha512, Tables(), Gate(h), AfterGate(Tables(), h));
      if h in knownHashes || h in inventory {
        pendingGetdata := pendingGetdata - {h};
        return false;
      }
      knownHashes := knownHashes + {h};
      novel := true;
    }

    /** An object from a peer: checked, held against the peer's rate limit unless `bypass` (a re-sync or a cold start),
        and, if it is new, kept, queued for the database, delivered to the client and announced to other peers.
        `clock`: the time in whole seconds; `late`, `filed`: see `Enqueue`. */
    method ReceivedObject(raw: Bytes, source: Option<PeerKey>, neighbors: seq<Neighbor>, bypass: bool, clock: int,
                          now: Time, late: bool, filed: Option<nat>)
      returns (delivered: Option<Parsed>, told: seq<PeerKey>)
      requires Valid() && storeHits.Valid() && OnePerPeer(neighbors)
      modifies this`inventory, this`inventoryReceived, this`knownHashes, this`pendingGetdata, this`database, this`batch,
               storeHits
      ensures Valid() && storeHits.Valid()
      ensures storeHits.Table() == AfterStore(sha512, old(storeHits.Table()), raw, source, bypass, clock, now)
      ensures var taken, h := Admitted(sha512, old(storeHits.Table()), raw, source, bypass, clock, now),
                              HashOf(sha512, raw);
        && delivered == (if Passes(old(Tables()), h) then taken else None)
        && (taken.None? ==> Tables() == old(Tables()))
        && (taken.Some? ==> h !in pendingGetdata && !Passes(Tables(), h))
        && (delivered.Some? ==> h in inventory && inventory[h] == raw && h == delivered.value.inventoryHash)
      ensures Distinct(told) && forall key :: key in told <==>
        delivered.Some? && IsTold(neighbors, source, Some(delivered.value.stream), key)
      ensures if delivered.None? then database == old(database) && batch == old(batch)
              else Queued(old(database), old(batch), (HashOf(sha512, raw), raw), late, filed, database, batch)
    {
      hide HashOf, Inv, Archived, Admitted, AfterStore, IsTold, Queued, Parse;
      told := [];
      AdmittedIsParsed(sha512, storeHits.Table(), raw, source, bypass, clock, now);
      HashIsParsed(raw);
      var taken := Admit(raw, source, bypass, clock, now);
      if taken.None? {
        return None, [];
      }
      var novel := PassGate(HashOf(sha512, raw));
      if !novel {
        return None, [];
      }
      Enqueue(raw, late, filed);
      told := KeepAndAnnounce(raw, now, neighbors, source, taken.value.stream);
      delivered := taken;
    }

    lemma HashIsParsed(raw: Bytes)
      ensures Parse(sha512, raw).Ok? ==> Parse(sha512, raw).value.inventoryHash == HashOf(sha512, raw)
    {
      hide Parse;
      if Parse(sha512, raw).Ok? {
        HashOfParsed(sha512, raw);
      }
    }

    /** The checks on an object, and the rate limit of its peer. */
    method Admit(raw: Bytes, source: Option<PeerKey>, bypass: bool, clock: int, now: Time)
      returns (taken: Option<Parsed>)
      requires storeHits.Valid()
      modifies storeHits
      ensures storeHits.Valid()
      ensures taken == Admitted(sha512, old(storeHits.Table()), raw, source, bypass, clock, now)
      ensures storeHits.Table() == AfterStore(sha512, old(storeHits.Table()), raw, source, bypass, clock, now)
    {
      hide AckLoop.AcceptIncoming, RateLimiter.After, RateLimiter.Allowed;
      taken := AckLoop.AcceptIncoming(sha512, raw, clock);
      if taken.Some? && !bypass && source.Some? {
        var limited := storeHits.RateLimited(source.value, STORE_RATE_MAX, STORE_RATE_WINDOW, now);
        if limited {
          taken := None;
        }
      }
    }

    /** A new object past the gate. */
    method KeepAndAnnounce(raw: Bytes, now: Time, neighbors: seq<Neighbor>, source: Option<PeerKey>, stream: nat)
      returns (told: seq<PeerKey>)
      requires Valid() && OnePerPeer(neighbors) && HashOf(sha512, raw) !in inventory
      requires Parse(sha512, raw).Ok? && Parse(sha512, raw).value.stream == stream
      modifies this`inventory, this`inventoryReceived, this`knownHashes, this`pendingGetdata
      ensures Valid() && HashOf(sha512, raw) in inventory && inventory[HashOf(sha512, raw)] == raw
      ensures HashOf(sha512, raw) in knownHashes && HashOf(sha512, raw) !in pendingGetdata
      ensures Distinct(told) && forall key :: key in told <==> IsTold(neighbors, source, Some(stream), key)
    {
      hide HashOf, Inv, Archived, Stored, Parse, IsTold;
      ghost var s := Tables();
      var _ := StoreObject(raw, now);
      StoredObject(sha512, s, raw, now, Tables());
      ForgetRequest(HashOf(sha512, raw));
      told := AnnounceObject(raw, now, neighbors, source);
    }

    /** Queues an object for the database. The queue is written when it holds 500 or, `late`, when five seconds have
        passed; then the statement files `filed` of the entries, the others being lost, or raises and loses none. */
    method Enqueue(raw: Bytes, late: bool, filed: Option<nat>)
      requires Valid()
      modifies this`database, this`batch
      ensures Valid() && Queued(old(database), old(batch), (HashOf(sha512, raw), raw), late, filed, database, batch)
    {
      hide HashOf, Inv, Filed;
      batch := batch + [(HashOf(sha512, raw), raw)];
      if (|batch| >= BATCH_MAX || late) && filed.Some? {
        var written := batch[..Min(filed.value, |batch|)];
        FiledArchived(sha512, database, written);
        database, batch := Filed(database, written), [];
      }
    }

    method ForgetRequest(h: Hash)
      requires Valid()
      modifies this`pendingGetdata
      ensures Valid() && Next(sha512, old(Tables()), Event.ForgetRequest(h), Tables())
    {
      ghost var before := Tables();
      pendingGetdata := pendingGetdata - {h};
      StepKeepsInv(sha512, before, Event.ForgetRequest(h), Tables());
    }

    /** Keeps an object, made here or received, and tells the peers that take part in its stream. */
    method AnnounceObject(raw: Bytes, now: Time, neighbors: seq<Neighbor>, source: Option<PeerKey>)
      returns (told: seq<PeerKey>)
      requires Valid() && OnePerPeer(neighbors)
      modifies this`inventory, this`inventoryReceived, this`knownHashes
      ensures Valid() && HashOf(sha512, raw) in knownHashes && pendingGetdata == old(pendingGetdata)
      ensures HashOf(sha512, raw) in inventory
      ensures if HashOf(sha512, raw) in old(inventory) then inventory == old(inventory)
              else inventory[HashOf(sha512, raw)] == raw
      ensures var stream := match Parse(sha512, raw) case Ok(p) => Some(p.stream) case Err(_) => None;
        Distinct(told) && forall key :: key in told <==> IsTold(neighbors, source, stream, key)
    {
      hide Inv, HashOf, Stored, Archived, Parse, IsTold;
      ghost var first := Tables();
      var h := StoreObject(raw, now);
      StoredObject(sha512, first, raw, now, Tables());
      StoredKeepsPending(sha512, first, raw, now, Tables());
      ghost var before := Tables();
      knownHashes := knownHashes + {h};
      StepKeepsInv(sha512, before, Remember(h), Tables());
      var stream := match Parse(sha512, raw) case Ok(p) => Some(p.stream) case Err(_) => None;
      told := Hearers(neighbors, source, stream);
    }

    /** Forgets every object; `works`: the database can be written. */
    method WipeObjects(works: bool)
      requires Valid()
      modifies this`inventory, this`inventoryReceived, this`knownHashes, this`pendingGetdata, this`database, this`batch
      ensures Valid() && Next(sha512, old(Tables()), Wipe, Tables())
      ensures batch == [] && database == if works then map[] else old(database)
    {
      hide Inv, Archived;
      EmptyIsSound(sha512, database);
      inventory, inventoryReceived, knownHashes, pendingGetdata := map[], map[], {}, map[];
      batch := [];
      if works {
        database := map[];
      }
    }

    // ---- asking ------------------------------------------------------------------------

    /** What is held, known or asked for already. */
    function Have(): (have: set<Hash>)
      reads this
      ensures forall h :: h in have <==> h in inventory || h in knownHashes || h in pendingGetdata
    {
      inventory.Keys + knownHashes + pendingGetdata.Keys
    }

    /** How many hashes of one offer may be asked for. `eager`: resync or cold start. */
    function WantedLimit(eager: bool): nat
      reads this
      requires |pendingGetdata| <= MAX_PENDING
    {
      Min(if eager || |pendingGetdata| < 200000 then 50000 else 1000, 200000 - |pendingGetdata|)
    }

    /** The smaller limit of a thousand never applies: it is looked at only when no request more may be noted. */
    lemma LimitIsFifty(eager: bool)
      requires |pendingGetdata| <= 200000
      ensures WantedLimit(eager) == Min(50000, 200000 - |pendingGetdata|)
    {
    }

    method CollectWanted(offered: seq<Hash>, eager: bool) returns (wanted: seq<Hash>)
      requires Valid()
      ensures wanted == Fresh(Have(), offered)[..Min(|Fresh(Have(), offered)|, WantedLimit(eager))]
    {
      hide Fresh, Inv, Archived, Have;
      var maxWanted := if eager || |pendingGetdata| < 200000 then MAX_OBJECT_COUNT_LOCAL else INV_WANTED_MAX;
      ghost var novel := Fresh(Have(), offered);
      wanted := FirstFresh(Have(), offered, maxWanted);
      PendingWithinLimit();
      var remaining := MAX_PENDING - |pendingGetdata|;
      CutTwice(novel, maxWanted, remaining);
      if remaining < |wanted| {
        wanted := wanted[..remaining];
      }
      CutTwice(novel, Min(maxWanted, remaining), MAX_OBJECT_COUNT_LOCAL);
      wanted := wanted[..Min(|wanted|, MAX_OBJECT_COUNT_LOCAL)];
    }

    lemma PendingWithinLimit()
      requires Valid()
      ensures |pendingGetdata| <= MAX_PENDING
    {
    }

    /** Notes the requests; while there are too many, drops one first asked for earliest. */
    method RememberPending(hashes: seq<Hash>, now: Time, source: Option<PeerKey>)
      requires Valid()
      modifies this`pendingGetdata
      ensures Valid() && Next(sha512, old(Tables()), AskFor(hashes, now, source), Tables())
    {
      hide Archived, Inv, HashOf, Noted, CutDown, Stored;
      ghost var before := Tables();
      for i := 0 to |hashes|
        invariant pendingGetdata == AllNoted(before.pending, hashes[..i], now, source)
      {
        assert hashes[..i + 1][..i] == hashes[..i];
        pendingGetdata := Noted(pendingGetdata, hashes[i], now, source);
      }
      assert hashes[..|hashes|] == hashes;
      CutToLimit();
      StepKeepsInv(sha512, before, AskFor(hashes, now, source), Tables());
    }

    method CutToLimit()
      modifies this`pendingGetdata
      ensures CutDown(old(pendingGetdata), pendingGetdata)
    {
      ghost var full := pendingGetdata;
      while |pendingGetdata| > MAX_PENDING
        invariant pendingGetdata.Keys <= full.Keys && forall h :: h in pendingGetdata ==> pendingGetdata[h] == full[h]
        invariant |full| <= MAX_PENDING ==> pendingGetdata == full
        invariant |full| > MAX_PENDING ==> |pendingGetdata| >= MAX_PENDING
        invariant forall h, g :: h in full && h !in pendingGetdata && g in pendingGetdata ==>
            full[h].first <= full[g].first
        decreases |pendingGetdata|
      {
        var oldest := EarliestRequest();
        pendingGetdata := pendingGetdata - {oldest};
      }
    }

    method EarliestRequest() returns (oldest: Hash)
      requires pendingGetdata != map[]
      ensures oldest in pendingGetdata
      ensures forall h :: h in pendingGetdata ==> pendingGetdata[oldest].first <= pendingGetdata[h].first
    {
      oldest :| oldest in pendingGetdata;
      var rest := pendingGetdata.Keys - {oldest};
      while rest != {}
        invariant rest <= pendingGetdata.Keys && oldest in pendingGetdata
        invariant forall h :: h in pendingGetdata && h !in rest ==>
            pendingGetdata[oldest].first <= pendingGetdata[h].first
        decreases |rest|
      {
        var h :| h in rest;
        rest := rest - {h};
        if pendingGetdata[h].first < pendingGetdata[oldest].first {
          oldest := h;
        }
      }
    }

    /** The hashes of an offer handled in one go: what is asked for is new, each hash once, and recording it drops no
        request. */
    method AskForNew(offered: seq<Hash>, eager: bool, now: Time, source: Option<PeerKey>) returns (wanted: seq<Hash>)
      requires Valid()
      modifies this`pendingGetdata
      ensures Valid() && Distinct(wanted)
      ensures var novel := Fresh(old(Have()), offered); wanted == novel[..Min(|novel|, old(WantedLimit(eager)))]
      ensures forall h :: h in wanted ==>
        h in offered && h !in old(inventory) && h !in old(knownHashes) && h !in old(pendingGetdata)
      ensures pendingGetdata == old(pendingGetdata) + (map h | h in wanted :: Request(now, now, source))
    {
      hide Inv, Archived, Next, Fresh, Distinct, AllNoted;
      ghost var before := Tables();
      PendingWithinLimit();
      wanted := CollectWanted(offered, eager);
      FreshIsFresh(Have(), offered);
      PrefixDistinct(Fresh(Have(), offered), |wanted|);
      NotedFresh(pendingGetdata, wanted, now, source);
      SmallUnion(pendingGetdata, wanted, now, source);
      RememberPending(wanted, now, source);
      AllRemembered(sha512, before, wanted, now, source, Tables());
    }

    /** An offer from a peer, unless `bypass` (a re-sync or a cold start) held against both rate limits. What is new
        in it is asked for in packets of a hundred, at once or, `delayed`, a second later. */
    method OnInv(peer: PeerKey, payload: Bytes, bypass: bool, eager: bool, delayed: bool, now: Time)
      returns (wanted: seq<Hash>, packets: seq<Packet>)
      requires Valid() && invHits.Valid()
      modifies this`pendingGetdata, invHits
      ensures Valid() && invHits.Valid()
      ensures invHits.Table() == if bypass then old(invHits.Table()) else AfterInv(old(invHits.Table()), peer, now)
      ensures var offered := Packets.Listed(payload);
        var novel := if offered.Ok? then Fresh(old(Have()), offered.value) else [];
        wanted == if bypass || InvAllowed(old(invHits.Table()), peer, now)
                  then novel[..Min(|novel|, old(WantedLimit(eager)))] else []
      ensures Distinct(wanted)
      ensures pendingGetdata == old(pendingGetdata) + (map h | h in wanted :: Request(now, now, Some(peer)))
      ensures Asked(packets) == if delayed then [] else wanted
      ensures forall p :: p in packets ==> p.dest == peer && 1 <= |p.hashes| <= 100
    {
      hide Inv, Archived, Fresh, Distinct, RateLimiter.After, RateLimiter.Allowed, Packets.Listed, Asked, WantedLimit,
           Have;
      wanted, packets := [], [];
      NothingAsked();
      PendingWithinLimit();
      if !bypass {
        var limited := InvLimited(peer, now);
        if limited {
          return;
        }
      }
      var hashes := Packets.ParseInventory(payload);
      if hashes.Err? {
        return;
      }
      wanted := AskForNew(hashes.value, eager, now, Some(peer));
      if !delayed {
        packets := SendGetdata(peer, wanted);
      }
    }

    method InvLimited(peer: PeerKey, now: Time) returns (limited: bool)
      requires invHits.Valid()
      modifies invHits
      ensures invHits.Valid() && limited == !InvAllowed(old(invHits.Table()), peer, now)
      ensures invHits.Table() == AfterInv(old(invHits.Table()), peer, now)
    {
      hide RateLimiter.After, RateLimiter.Allowed;
      limited := invHits.RateLimited(ALL_PEERS, ALL_INVS_MAX, ALL_INVS_WINDOW, now);
      if !limited {
        limited := invHits.RateLimited(peer, INV_RATE_MAX, INV_RATE_WINDOW, now);
      }
    }

    /** Asks one peer, in packets of a hundred. */
    method SendGetdata(peer: PeerKey, hashes: seq<Hash>) returns (packets: seq<Packet>)
      ensures packets == Chunked(hashes, [peer], 0) && Asked(packets) == hashes
      ensures forall p :: p in packets ==> p.dest == peer && 1 <= |p.hashes| <= 100
    {
      hide Chunked, Asked;
      packets := [];
      assert hashes[0..] == hashes;
      var index := 0;
      while index < |hashes|
        invariant index == CHUNK * |packets| || index == |hashes|
        invariant 0 <= index <= |hashes|
        invariant Chunked(hashes, [peer], 0) == packets + Chunked(hashes[index..], [peer], |packets|)
        invariant forall p :: p in packets ==> p.dest == peer && 1 <= |p.hashes| <= CHUNK
        decreases |hashes| - index
      {
        var upTo := Min(index + CHUNK, |hashes|);
        ChunkedFirst(hashes, [peer], index, upTo, |packets|);
        var packet := Packet(peer, hashes[index..upTo]);
        assert packets + ([packet] + Chunked(hashes[upTo..], [peer], |packets| + 1))
               == packets + [packet] + Chunked(hashes[upTo..], [peer], |packets| + 1);
        packets := packets + [packet];
        index := upTo;
      }
      NothingLeft(hashes, [peer], |packets|);
      ChunkedAsks(hashes, [peer], 0);
    }

    /** The delayed request, if the peer is still `connected`: for what is still wanted by then. */
    method SendDelayed(peer: PeerKey, hashes: seq<Hash>, connected: bool) returns (packets: seq<Packet>)
      ensures Asked(packets) == if connected then StillAsked(Tables(), hashes) else []
      ensures forall p :: p in packets ==> p.dest == peer && 1 <= |p.hashes| <= 100
    {
      hide Asked;
      packets := [];
      NothingAsked();
      if !connected {
        return;
      }
      var still: seq<Hash> := [];
      for i := 0 to |hashes|
        invariant still == StillAsked(Tables(), hashes[..i])
      {
        assert hashes[..i + 1][..i] == hashes[..i];
        if hashes[i] in pendingGetdata && hashes[i] !in inventory && hashes[i] !in knownHashes {
          still := still + [hashes[i]];
        }
      }
      assert hashes[..|hashes|] == hashes;
      packets := SendGetdata(peer, still);
    }

    /** Forgets requests that were answered or have waited too long; returns those to repeat, the one asked for
        longest ago first. */
    method StalePending(now: Time) returns (stale: seq<Hash>)
      requires Valid()
      modifies this`pendingGetdata
      ensures Valid() && Next(sha512, old(Tables()), StalePass(now), Tables())
      ensures Distinct(stale) && forall h :: h in stale <==> IsStale(old(Tables()), h, now)
      ensures forall h :: h in stale ==> h in pendingGetdata
      ensures forall i, j :: 0 <= i < j < |stale| ==> pendingGetdata[stale[i]].last <= pendingGetdata[stale[j]].last
      ensures forall h :: h in pendingGetdata ==> now - pendingGetdata[h].first <= 3600.0 && Passes(Tables(), h)
    {
      hide Inv, Archived, Next, IsStale, SortBy, Ordered, TotalPreorder, Tied, AskedBefore, AfterStalePass;
      ghost var before := Tables();
      stale := CollectStale(now);
      AfterPass(sha512, before, Tables(), now);
      AskedBeforeOrders(pendingGetdata, now);
      SortSorts(stale, AskedBefore(pendingGetdata, now));
      PermutationDistinct(stale, SortBy(stale, AskedBefore(pendingGetdata, now)));
      stale := SortBy(stale, AskedBefore(pendingGetdata, now));
      OrderedByTime(stale, pendingGetdata, now);
    }

    method CollectStale(now: Time) returns (stale: seq<Hash>)
      requires Valid()
      modifies this`pendingGetdata
      ensures Valid() && Next(sha512, old(Tables()), StalePass(now), Tables())
      ensures Distinct(stale) && forall h :: h in stale <==> IsStale(old(Tables()), h, now)
      ensures forall h :: h in pendingGetdata ==> now - pendingGetdata[h].first <= 3600.0 && Passes(Tables(), h)
    {
      hide HashOf, Inv, Archived;
      ghost var before := Tables();
      stale := [];
      var todo := pendingGetdata.Keys;
      while todo != {}
        invariant todo <= before.pending.Keys
        invariant forall h :: h in pendingGetdata <==> h in before.pending && (h in todo || StillWanted(before, h, now))
        invariant forall h :: h in pendingGetdata ==> pendingGetdata[h] == before.pending[h]
        invariant Distinct(stale) && forall h :: h in stale <==> h !in todo && IsStale(before, h, now)
        decreases |todo|
      {
        var h :| h in todo;
        todo := todo - {h};
        var entry := pendingGetdata[h];
        if h in inventory || h in knownHashes || now - entry.first > PENDING_TTL {
          pendingGetdata := pendingGetdata - {h};
        } else if now - entry.last >= GETDATA_RETRY_DELAY {
          stale := stale + [h];
        }
      }
      assert pendingGetdata == AfterStalePass(before, now).pending;
      StepKeepsInv(sha512, before, StalePass(now), Tables());
    }

    // ---- asking again ------------------------------------------------------------------

    /** Sends the hashes in packets of a hundred, the destinations taking turns. `works(i)`: the tick's sending
        number `i` succeeds; `first`: how many were tried before. */
    method SendChunked(hashes: seq<Hash>, dests: seq<PeerKey>, now: Time, works: nat -> bool, first: nat)
      returns (packets: seq<Packet>, sent: nat)
      requires dests != []
      modifies this`pendingGetdata
      ensures packets == Chunked(hashes, dests, 0) && sent == |Reached(packets, works, first)|
      ensures pendingGetdata == Again(old(pendingGetdata), Reached(packets, works, first), now)
    {
      hide Chunked, Reached, Again;
      packets, sent := [], 0;
      NothingReached(pendingGetdata, works, first, now);
      assert hashes[0..] == hashes;
      ghost var all := Chunked(hashes, dests, 0);
      ghost var before := pendingGetdata;
      var index := 0;
      while index < |hashes|
        invariant index == CHUNK * |packets| || index == |hashes|
        invariant 0 <= index <= |hashes|
        invariant all == packets + Chunked(hashes[index..], dests, |packets|)
        invariant sent == |Reached(packets, works, first)|
        invariant pendingGetdata == Again(before, Reached(packets, works, first), now)
        decreases |hashes| - index
      {
        var upTo := Min(index + CHUNK, |hashes|);
        var chunk := hashes[index..upTo];
        ChunkedFirst(hashes, dests, index, upTo, |packets|);
        var packet := Packet(dests[(index / CHUNK) % |dests|], chunk);
        ReachedNext(packets, packet, works, first);
        if works(first + |packets|) {
          sent := sent + |chunk|;
          AgainTwice(before, Reached(packets, works, first), chunk, now);
          pendingGetdata := Again(pendingGetdata, chunk, now);
        }
        assert packets + ([packet] + Chunked(hashes[upTo..], dests, |packets| + 1))
               == packets + [packet] + Chunked(hashes[upTo..], dests, |packets| + 1);
        packets := packets + [packet];
        index := upTo;
      }
      NothingLeft(hashes, dests, |packets|);
      assert packets + [] == packets;
    }

    /** Sorts hashes by the connected peer that offered them. */
    method GroupBySource(stale: seq<Hash>, targets: seq<PeerKey>)
      returns (sources: seq<PeerKey>, grouped: map<PeerKey, seq<Hash>>, orphan: seq<Hash>)
      ensures sources == Sources(pendingGetdata, targets, stale)
      ensures orphan == Routed(pendingGetdata, targets, stale, None)
      ensures forall src :: src in sources ==>
        src in grouped && grouped[src] == Routed(pendingGetdata, targets, stale, Some(src))
    {
      hide Route, Routed, Sources;
      sources, grouped, orphan := [], map[], [];
      NothingGrouped(pendingGetdata, targets, stale);
      for i := 0 to |stale|
        invariant sources == Sources(pendingGetdata, targets, stale[..i])
        invariant orphan == Routed(pendingGetdata, targets, stale[..i], None)
        invariant forall src :: src in grouped <==> src in sources
        invariant forall src ::
            src in sources ==> src in grouped && grouped[src] == Routed(pendingGetdata, targets, stale[..i], Some(src))
        invariant forall src: PeerKey :: src !in sources ==>
          Routed(pendingGetdata, targets, stale[..i], Some(src)) == []
      {
        var h := stale[i];
        GroupNext(pendingGetdata, targets, stale, i);
        match Route(pendingGetdata, targets, h)
        case Some(src) =>
          if src !in grouped {
            sources := sources + [src];
            grouped := grouped[src := []];
          }
          grouped := grouped[src := grouped[src] + [h]];
        case None =>
          orphan := orphan + [h];
      }
      assert stale[..|stale|] == stale;
    }

    /** Each group goes to its own source. */
    method SendGroups(stale: seq<Hash>, targets: seq<PeerKey>, sources: seq<PeerKey>, grouped: map<PeerKey, seq<Hash>>,
                      now: Time, works: nat -> bool) returns (packets: seq<Packet>, sent: nat)
      requires forall src :: src in sources ==>
        src in grouped && grouped[src] == Routed(pendingGetdata, targets, stale, Some(src))
      modifies this`pendingGetdata
      ensures packets == Groups(old(pendingGetdata), targets, stale, sources) && sent == |Reached(packets, works, 0)|
      ensures pendingGetdata == Again(old(pendingGetdata), Reached(packets, works, 0), now)
    {
      hide Routed, Chunked, Reached, Again;
      ghost var before := pendingGetdata;
      packets, sent := [], 0;
      NothingReached(before, works, 0, now);
      for i := 0 to |sources|
        invariant packets == Groups(before, targets, stale, sources[..i])
        invariant sent == |Reached(packets, works, 0)|
        invariant pendingGetdata == Again(before, Reached(packets, works, 0), now)
      {
        assert sources[..i + 1][..i] == sources[..i];
        var more, n := SendChunked(grouped[sources[i]], [sources[i]], now, works, |packets|);
        ReachedConcat(packets, more, works, 0);
        AgainTwice(before, Reached(packets, works, 0), Reached(more, works, |packets|), now);
        packets, sent := packets + more, sent + n;
      }
      assert sources[..|sources|] == sources;
    }

    /** Asks again for the selected hashes. */
    method ResendPending(stale: seq<Hash>, targets: seq<PeerKey>, now: Time, works: nat -> bool)
      returns (packets: seq<Packet>, sent: nat)
      requires Valid()
      modifies this`pendingGetdata
      ensures Valid() && packets == if targets == [] then [] else Plan(old(pendingGetdata), targets, stale)
      ensures sent == |Reached(packets, works, 0)|
      ensures Next(sha512, old(Tables()), AskedAgain(Reached(packets, works, 0), now), Tables())
    {
      hide Routed, Sources, Chunked, Groups, Reached, Again, Inv, Archived;
      ghost var before := Tables();
      packets, sent := [], 0;
      NothingReached(before.pending, works, 0, now);
      if targets == [] || stale == [] {
        if targets != [] {
          NothingPlanned(before.pending, targets);
        }
        return;
      }
      var sources, grouped, orphan := GroupBySource(stale, targets);
      packets, sent := SendGroups(stale, targets, sources, grouped, now, works);
      var more, n := SendChunked(orphan, targets, now, works, |packets|);
      ReachedConcat(packets, more, works, 0);
      AgainTwice(before.pending, Reached(packets, works, 0), Reached(more, works, |packets|), now);
      packets, sent := packets + more, sent + n;
      StepKeepsInv(sha512, before, AskedAgain(Reached(packets, works, 0), now), Tables());
    }

    /** One tick of the retry scheduler; `shuffle` is its random order. When every packet can be sent, it asks
        exactly once for a thousand stale hashes per connected peer, or for all there are. */
    method RetryPendingGetdata(now: Time, targets: seq<PeerKey>, shuffle: seq<Hash> -> seq<Hash>, works: nat -> bool)
      returns (packets: seq<Packet>, sent: nat)
      requires Valid() && forall hs :: multiset(shuffle(hs)) == multiset(hs)
      modifies this`pendingGetdata
      ensures Valid() && pendingGetdata.Keys == AfterStalePass(old(Tables()), now).pending.Keys
      ensures forall p :: p in packets ==> 1 <= |p.hashes| <= 100 && p.dest in targets
      ensures Distinct(Asked(packets)) && forall h :: h in Asked(packets) ==> IsStale(old(Tables()), h, now)
      ensures |Asked(packets)| == Min(|Stale(old(Tables()), now)|, 1000 * |targets|)
      ensures (forall i: nat :: works(i)) ==>
                sent == |Asked(packets)| && forall h :: h in Asked(packets) ==> AskedAt(pendingGetdata, h, now)
    {
      hide Inv, Archived, IsStale, StillWanted, Plan, Asked, Reached, Again, AfterStalePass, Next, Distinct, TickLimit,
           Stale, AskedAt;
      ghost var before := Tables();
      var pendingLen := |pendingGetdata|;
      var stale := StalePending(now);
      StaleCount(before, now, stale);
      ghost var kept := Tables();
      AfterPass(sha512, before, kept, now);
      var chosen := shuffle(stale);
      PermutationDistinct(stale, chosen);
      if targets != [] {
        var maxTotal := TickLimit(pendingLen, |chosen|, |targets|);
        TickAsksForThousands(pendingLen, |chosen|, |targets|);
        if |chosen| > maxTotal {
          PrefixDistinct(chosen, maxTotal);
          chosen := chosen[..maxTotal];
        }
      }
      packets, sent := ResendPending(chosen, targets, now, works);
      AfterAsking(sha512, kept, Tables(), Reached(packets, works, 0), now);
      if targets == [] {
        NothingAsked();
      } else {
        TickIsSound(kept.pending, targets, chosen);
      }
      if forall i: nat :: works(i) {
        ReachedAlways(packets, works, 0);
      }
    }

    // ---- answering ---------------------------------------------------------------------

    /** A request from a peer, held against the peer's rate limit. `queried`: the database answers a query for many
        objects; if it does not, up to fifty are looked up one by one, and `found` are the rows that can be read. */
    method OnGetdata(peer: PeerKey, payload: Bytes, queried: bool, found: map<Hash, Bytes>, now: Time)
      returns (reply: seq<Bytes>)
      requires Valid() && getdataHits.Valid()
      requires forall h :: h in found ==> h in database && found[h] == database[h]
      modifies getdataHits
      ensures Valid() && getdataHits.Valid()
      ensures getdataHits.Table() == RateLimiter.After(old(getdataHits.Table()), GetdataCall(peer, now))
      ensures var listed := Packets.Listed(payload);
        if !RateLimiter.Allowed(old(getdataHits.Table()), GetdataCall(peer, now)) || listed.Err? then reply == []
        else IsReply(Held(Cut(listed.value, 1000), queried, found), reply)
             && forall blob :: blob in reply ==> HashOf(sha512, blob) in listed.value
      ensures (forall blob :: blob in reply ==> |blob| <= MAX_OBJECT_LENGTH + 64) ==>
                TotalSize(reply) <= 8 * 1024 * 1024
    {
      hide HashOf, IsReply, Held, Inv, Archived, RateLimiter.After, RateLimiter.Allowed, Packets.Listed;
      var limited := getdataHits.RateLimited(peer, GETDATA_RATE_MAX, GETDATA_RATE_WINDOW, now);
      if limited {
        return [];
      }
      var hashes := Packets.ParseInventory(payload);
      if hashes.Err? {
        return [];
      }
      reply := Reply(Cut(hashes.value, GETDATA_HASHES_MAX), queried, found);
    }

    /** The objects at hand for a list of hashes: first those in memory, then those the database gives. */
    function Held(hashes: seq<Hash>, queried: bool, found: map<Hash, Bytes>): seq<Bytes>
      reads this
    {
      var missing := Missing(inventory, hashes);
      Found(inventory, hashes) + if queried then Found(database, missing) else Found(found, Cut(missing, 50))
    }

    /** An object asked for and held, in memory or in a database that answers, is in the reply unless the reply stops
        at a hundred objects or because the next would exceed 8 MiB. */
    lemma HeldIsAnswered(hashes: seq<Hash>, queried: bool, found: map<Hash, Bytes>, reply: seq<Bytes>, h: Hash)
      requires IsReply(Held(hashes, queried, found), reply) && h in hashes
      ensures var held := Held(hashes, queried, found);
        || |reply| == 100
        || (0 < |reply| < |held| && TotalSize(reply) + |held[|reply|]| > 8 * 1024 * 1024)
        || ((h in inventory ==> inventory[h] in reply)
            && (queried && h !in inventory && h in database ==> database[h] in reply))
    {
      hide IsReply, Found, TotalSize;
      ReplyIsFull(Held(hashes, queried, found), reply);
      if h in inventory {
        FoundIsAll(inventory, hashes, h);
      } else if queried && h in database {
        FoundIsAll(database, Missing(inventory, hashes), h);
      }
    }

    method Reply(hashes: seq<Hash>, queried: bool, found: map<Hash, Bytes>) returns (reply: seq<Bytes>)
      requires Valid() && |hashes| <= GETDATA_HASHES_MAX
      requires forall h :: h in found ==> h in database && found[h] == database[h]
      ensures IsReply(Held(hashes, queried, found), reply)
      ensures forall blob :: blob in reply ==> HashOf(sha512, blob) in hashes
      ensures (forall blob :: blob in reply ==> |blob| <= MAX_OBJECT_LENGTH + 64) ==>
                TotalSize(reply) <= 8 * 1024 * 1024
    {
      hide HashOf, MayReply, Found, TotalSize, Inv;
      var blobs, missing := SplitCached(hashes);
      FoundWasAsked(sha512, inventory, hashes) by { Addressed(); }
      var loaded: seq<Bytes>;
      if queried {
        loaded := LoadMissing(missing, database);
        FoundWasAsked(sha512, database, missing);
      } else {
        loaded := LoadMissing(Cut(missing, FALLBACK_MAX), found);
        FoundWasAsked(sha512, found, Cut(missing, FALLBACK_MAX));
      }
      reply := CapBlobs(blobs + loaded);
      if forall blob :: blob in reply ==> |blob| <= MAX_OBJECT_LENGTH + 64 {
        ReplyWithinLimit(blobs + loaded, |reply|);
      }
    }

    lemma Addressed()
      requires Valid()
      ensures ContentAddressed(sha512, inventory)
    {
      hide HashOf;
    }

    method SplitCached(hashes: seq<Hash>) returns (blobs: seq<Bytes>, missing: seq<Hash>)
      ensures blobs == Found(inventory, hashes) && missing == Missing(inventory, hashes)
    {
      blobs, missing := [], [];
      for i := 0 to |hashes|
        invariant blobs == Found(inventory, hashes[..i]) && missing == Missing(inventory, hashes[..i])
      {
        var h := hashes[i];
        assert hashes[..i + 1][..i] == hashes[..i];
        if h in inventory {
          blobs := blobs + [inventory[h]];
        } else {
          missing := missing + [h];
        }
      }
      assert hashes[..|hashes|] == hashes;
    }

    method LoadMissing(missing: seq<Hash>, db: map<Hash, Bytes>) returns (blobs: seq<Bytes>)
      requires |missing| <= GETDATA_HASHES_MAX
      ensures blobs == Found(db, missing)
    {
      blobs := [];
      for i := 0 to |missing|
        invariant blobs == Found(db, missing[..i])
      {
        assert missing[..i + 1][..i] == missing[..i];
        if missing[i] in db {
          blobs := blobs + [db[missing[i]]];
        }
      }
      assert missing[..|missing|] == missing;
    }
  }

  // ---- a tick of the retry scheduler --------------------------------------------------

  /** When the object was last asked for; now, if it is not pending. */
  function LastAsked(pending: map<Hash, Request>, h: Hash, now: Time): Time {
    if h in pending then pending[h].last else now
  }

  function AskedBefore(pending: map<Hash, Request>, now: Time): (Hash, Hash) -> bool {
    (a, b) => LastAsked(pending, a, now) <= LastAsked(pending, b, now)
  }

  lemma AskedBeforeOrders(pending: map<Hash, Request>, now: Time)
    ensures TotalPreorder(AskedBefore(pending, now))
  {
  }

  lemma OrderedByTime(stale: seq<Hash>, pending: map<Hash, Request>, now: Time)
    requires Ordered(stale, AskedBefore(pending, now)) && forall h :: h in stale ==> h in pending
    ensures forall i, j :: 0 <= i < j < |stale| ==> pending[stale[i]].last <= pending[stale[j]].last
  {
    forall i, j | 0 <= i < j < |stale|
      ensures pending[stale[i]].last <= pending[stale[j]].last
    {
      assert AskedBefore(pending, now)(stale[i], stale[j]);
    }
  }

  ghost function Stale(s: State, now: Time): set<Hash> {
    set h | h in s.pending && IsStale(s, h, now)
  }

  predicate AskedAt(pending: map<Hash, Request>, h: Hash, now: Time) {
    h in pending && pending[h].last == now
  }

  lemma AgainTwice(pending: map<Hash, Request>, a: seq<Hash>, b: seq<Hash>, now: Time)
    ensures Again(Again(pending, a, now), b, now) == Again(pending, a + b, now)
  {
  }

  lemma ChunkedFirst(hashes: seq<Hash>, dests: seq<PeerKey>, index: nat, upTo: nat, k: nat)
    requires dests != [] && index < |hashes| && index == CHUNK * k && upTo == Min(index + CHUNK, |hashes|)
    ensures Chunked(hashes[index..], dests, k) ==
            [Packet(dests[k % |dests|], hashes[index..upTo])] + Chunked(hashes[upTo..], dests, k + 1)
    ensures index / CHUNK == k
  {
    hide Chunked;
    var rest := hashes[index..];
    assert rest[..upTo - index] == hashes[index..upTo] && rest[upTo - index..] == hashes[upTo..];
    ChunkedStep(rest, dests, upTo - index, k);
  }

  lemma ChunkedStep(rest: seq<Hash>, dests: seq<PeerKey>, n: nat, k: nat)
    requires dests != [] && rest != [] && n == Min(CHUNK, |rest|)
    ensures Chunked(rest, dests, k) == [Packet(dests[k % |dests|], rest[..n])] + Chunked(rest[n..], dests, k + 1)
  {
  }

  lemma ReachedNext(packets: seq<Packet>, p: Packet, works: nat -> bool, first: nat)
    ensures Reached(packets + [p], works, first) ==
            if works(first + |packets|) then Reached(packets, works, first) + p.hashes
            else Reached(packets, works, first)
  {
    assert (packets + [p])[..|packets|] == packets;
  }

  lemma NothingReached(pending: map<Hash, Request>, works: nat -> bool, first: nat, now: Time)
    ensures Reached([], works, first) == [] && Again(pending, [], now) == pending
  {
  }

  lemma NothingLeft(hashes: seq<Hash>, dests: seq<PeerKey>, k: nat)
    requires dests != []
    ensures Chunked(hashes[|hashes|..], dests, k) == []
  {
  }

  lemma NothingAsked()
    ensures Asked([]) == [] && Distinct<Hash>([])
  {
  }

  lemma AfterPass(sha512: Bytes -> Digest, s: State, s': State, now: Time)
    requires Next(sha512, s, StalePass(now), s')
    ensures s' == AfterStalePass(s, now) && forall h :: IsStale(s, h, now) ==> h in s'.pending
  {
  }

  lemma AfterAsking(sha512: Bytes -> Digest, s: State, s': State, asked: seq<Hash>, now: Time)
    requires Next(sha512, s, AskedAgain(asked, now), s')
    ensures s'.pending.Keys == s.pending.Keys
    ensures forall h :: h in asked && h in s.pending ==> AskedAt(s'.pending, h, now)
  {
  }

  lemma NothingGrouped(pending: map<Hash, Request>, targets: seq<PeerKey>, stale: seq<Hash>)
    ensures Sources(pending, targets, stale[..0]) == []
    ensures forall route :: Routed(pending, targets, stale[..0], route) == []
  {
  }

  /** Grouping one more hash. */
  lemma GroupNext(pending: map<Hash, Request>, targets: seq<PeerKey>, stale: seq<Hash>, i: nat)
    requires i < |stale|
    ensures var before := Sources(pending, targets, stale[..i]);
      Sources(pending, targets, stale[..i + 1]) ==
      match Route(pending, targets, stale[i])
      case Some(src) => if src in before then before else before + [src]
      case None => before
    ensures forall route ::
      Routed(pending, targets, stale[..i + 1], route) ==
      Routed(pending, targets, stale[..i], route)
      + if Route(pending, targets, stale[i]) == route then [stale[i]] else []
  {
    hide Route;
    assert stale[..i + 1][..i] == stale[..i];
  }

  lemma NothingPlanned(pending: map<Hash, Request>, targets: seq<PeerKey>)
    requires targets != []
    ensures Plan(pending, targets, []) == []
  {
  }

  lemma StaleCount(s: State, now: Time, stale: seq<Hash>)
    requires Distinct(stale) && forall h :: h in stale <==> IsStale(s, h, now)
    ensures |Stale(s, now)| == |stale|
  {
    hide Distinct;
    ElementsCount(stale);
    assert Stale(s, now) == (set h | h in stale);
  }

  lemma TickIsSound(pending: map<Hash, Request>, targets: seq<PeerKey>, chosen: seq<Hash>)
    requires targets != [] && Distinct(chosen)
    ensures forall p :: p in Plan(pending, targets, chosen) ==> 1 <= |p.hashes| <= CHUNK && p.dest in targets
    ensures var asked := Asked(Plan(pending, targets, chosen));
      Distinct(asked) && |asked| == |chosen| && forall h :: h in asked <==> h in chosen
  {
    hide Plan, Asked;
    var plan := Plan(pending, targets, chosen);
    PlanAsksForAll(pending, targets, chosen);
    PermutationDistinct(chosen, Asked(plan));
    forall p | p in plan
      ensures 1 <= |p.hashes| <= CHUNK && p.dest in targets
    {
      var i :| 0 <= i < |plan| && plan[i] == p;
      PlanIsRouted(pending, targets, chosen, i);
    }
  }

  lemma StoredAgain(sha512: Bytes -> Digest, s: State, raw: Bytes, now: Time)
    requires HashOf(sha512, raw) in s.inventory
    ensures Stored(sha512, s, raw, now, s.(received := s.received[HashOf(sha512, raw) := now]))
  {
  }

  lemma StoredObject(sha512: Bytes -> Digest, s: State, raw: Bytes, now: Time, s': State)
    requires Stored(sha512, s, raw, now, s')
    ensures var h := HashOf(sha512, raw);
      h in s'.inventory && if h in s.inventory then s'.inventory == s.inventory else s'.inventory[h] == raw
  {
  }

  lemma StoredByReplacing(sha512: Bytes -> Digest, s: State, k: Hash, raw: Bytes, now: Time, s': State)
    requires HashOf(sha512, raw) !in s.inventory && |s.inventory| >= INVENTORY_MAX
    requires Replaced(s, k, HashOf(sha512, raw), raw, now, s') && Trimmed(s.known, s'.known) && s'.pending == s.pending
    ensures Stored(sha512, s, raw, now, s')
  {
  }

  lemma StoredByAdding(sha512: Bytes -> Digest, s: State, raw: Bytes, now: Time, s': State)
    requires HashOf(sha512, raw) !in s.inventory && |s.inventory| < INVENTORY_MAX
    requires s'.inventory == s.inventory[HashOf(sha512, raw) := raw]
    requires s'.received == s.received[HashOf(sha512, raw) := now]
    requires Trimmed(s.known, s'.known) && s'.pending == s.pending
    ensures Stored(sha512, s, raw, now, s')
  {
  }

  lemma OlderTransitive(received: map<Hash, Time>, a: Hash, b: Hash, c: Hash)
    requires a in received && b in received && c in received
    requires Older(received[a], a, received[b], b) && Older(received[b], b, received[c], c)
    ensures Older(received[a], a, received[c], c)
  {
    if received[a] == received[b] == received[c] {
      BeforeTransitive(a, b, c);
    }
  }

  lemma {:induction false} FreshPrefix(have: set<Hash>, offered: seq<Hash>, n: nat)
    requires n <= |offered|
    ensures Fresh(have, offered[..n]) <= Fresh(have, offered)
    decreases |offered| - n
  {
    if n == |offered| {
      assert offered[..n] == offered;
    } else {
      assert offered[..n + 1] == offered[..n] + [offered[n]];
      FreshAppend(have, offered[..n], offered[n]);
      FreshPrefix(have, offered, n + 1);
    }
  }

  /** When they fit, all requests are noted. */
  lemma AllRemembered(sha512: Bytes -> Digest, s: State, wanted: seq<Hash>, now: Time, source: Option<PeerKey>,
          s': State)
    requires Next(sha512, s, AskFor(wanted, now, source), s')
    requires |AllNoted(s.pending, wanted, now, source)| <= MAX_PENDING
    ensures s'.pending == AllNoted(s.pending, wanted, now, source)
  {
    hide AllNoted;
  }

  lemma CutTwice<T>(xs: seq<T>, a: nat, b: nat)
    ensures xs[..Min(|xs|, a)][..Min(Min(|xs|, a), b)] == xs[..Min(|xs|, Min(a, b))]
  {
  }

  lemma NotedFresh(pending: map<Hash, Request>, wanted: seq<Hash>, now: Time, source: Option<PeerKey>)
    requires forall h :: h in wanted ==> h !in pending
    ensures AllNoted(pending, wanted, now, source) == pending + (map h | h in wanted :: Request(now, now, source))
  {
    hide AllNoted;
    AllNotedKeepsFirst(pending, wanted, now, source);
    AllNotedKeepsSource(pending, wanted, now, source);
  }

  lemma {:induction false} AllNotedKeepsSource(pending: map<Hash, Request>, wanted: seq<Hash>, now: Time,
          source: Option<PeerKey>)
    requires forall h :: h in wanted ==> h !in pending
    ensures var r := AllNoted(pending, wanted, now, source);
      forall h :: h in pending ==> h in r && r[h] == pending[h]
  {
    if wanted != [] {
      var front, h := wanted[..|wanted| - 1], wanted[|wanted| - 1];
      assert wanted == front + [h];
      AllNotedKeepsSource(pending, front, now, source);
    }
  }

  lemma SmallUnion(pending: map<Hash, Request>, wanted: seq<Hash>, now: Time, source: Option<PeerKey>)
    requires |pending| + |wanted| <= MAX_PENDING
    ensures |AllNoted(pending, wanted, now, source)| <= MAX_PENDING
    decreases |wanted|
  {
    SizeOfNoted(pending, wanted, now, source);
  }

  lemma {:induction false} SizeOfNoted(pending: map<Hash, Request>, wanted: seq<Hash>, now: Time,
          source: Option<PeerKey>)
    ensures |AllNoted(pending, wanted, now, source)| <= |pending| + |wanted|
    decreases |wanted|
  {
    if wanted != [] {
      SizeOfNoted(pending, wanted[..|wanted| - 1], now, source);
    }
  }
}
