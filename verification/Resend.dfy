/** Who is asked again, and for what, in one retry tick (bmchat/net/manager.py). */
module Resend {
  import opened Bytes
  import opened Collections
  import opened ObjectSync

  const CHUNK: nat := 100

  /** A getdata packet. */
  datatype Packet = Packet(dest: PeerKey, hashes: seq<Hash>)

  /** The peer that offered the object, when it is recorded and connected. */
  function Route(pending: map<Hash, Request>, targets: seq<PeerKey>, h: Hash): Option<PeerKey> {
    if h in pending && pending[h].source.Some? && pending[h].source.value in targets then pending[h].source
    else None
  }

  /** The hashes with one route, in order. */
  function Routed(pending: map<Hash, Request>, targets: seq<PeerKey>, stale: seq<Hash>,
          route: Option<PeerKey>): seq<Hash> {
    if stale == [] then []
    else
      var front, h := stale[..|stale| - 1], stale[|stale| - 1];
      Routed(pending, targets, front, route) + if Route(pending, targets, h) == route then [h] else []
  }

  /** The peers that will be asked for what they offered, in the order the hashes name them. */
  function Sources(pending: map<Hash, Request>, targets: seq<PeerKey>, stale: seq<Hash>): seq<PeerKey> {
    if stale == [] then []
    else
      var before := Sources(pending, targets, stale[..|stale| - 1]);
      match Route(pending, targets, stale[|stale| - 1])
      case Some(src) => if src in before then before else before + [src]
      case None => before
  }

  /** Packets of a hundred hashes, the destinations taking turns from number `k` on. */
  function Chunked(hashes: seq<Hash>, dests: seq<PeerKey>, k: nat): (packets: seq<Packet>)
    requires dests != []
    decreases |hashes|
  {
    if hashes == [] then []
    else
      var n := if |hashes| < CHUNK then |hashes| else CHUNK;
      [Packet(dests[k % |dests|], hashes[..n])] + Chunked(hashes[n..], dests, k + 1)
  }

  function Groups(pending: map<Hash, Request>, targets: seq<PeerKey>, stale: seq<Hash>,
          sources: seq<PeerKey>): seq<Packet> {
    if sources == [] then []
    else
      var front, src := sources[..|sources| - 1], sources[|sources| - 1];
      Groups(pending, targets, stale, front) + Chunked(Routed(pending, targets, stale, Some(src)), [src], 0)
  }

  /** Every packet of a tick: first those for the peers that offered the objects, then the rest in turn. */
  function Plan(pending: map<Hash, Request>, targets: seq<PeerKey>, stale: seq<Hash>): seq<Packet>
    requires targets != []
  {
    Groups(pending, targets, stale, Sources(pending, targets, stale))
    + Chunked(Routed(pending, targets, stale, None), targets, 0)
  }

  /** The hashes of the packets that could be sent; `works(i)` says whether sending number `i` succeeds. */
  function Reached(packets: seq<Packet>, works: nat -> bool, from: nat): seq<Hash> {
    if packets == [] then []
    else
      var front := packets[..|packets| - 1];
      Reached(front, works, from) + if works(from + |front|) then packets[|packets| - 1].hashes else []
  }

  predicate Always(i: nat) {
    true
  }

  function Asked(packets: seq<Packet>): seq<Hash> {
    Reached(packets, Always, 0)
  }

  lemma {:induction false} ReachedConcat(a: seq<Packet>, b: seq<Packet>, works: nat -> bool, from: nat)
    ensures Reached(a + b, works, from) == Reached(a, works, from) + Reached(b, works, from + |a|)
    decreases |b|
  {
    if b == [] {
      assert a + b == a;
    } else {
      assert (a + b)[..|a + b| - 1] == a + b[..|b| - 1];
      ReachedConcat(a, b[..|b| - 1], works, from);
    }
  }

  lemma {:induction false} ReachedAlways(packets: seq<Packet>, works: nat -> bool, from: nat)
    requires forall i: nat :: works(i)
    ensures Reached(packets, works, from) == Asked(packets)
    decreases |packets|
  {
    if packets != [] {
      ReachedAlways(packets[..|packets| - 1], works, from);
    }
  }

  lemma AskedConcat(a: seq<Packet>, b: seq<Packet>)
    ensures Asked(a + b) == Asked(a) + Asked(b)
  {
    ReachedConcat(a, b, Always, 0);
    ReachedAlways(b, Always, |a|);
  }

  lemma AskedOne(p: Packet)
    ensures Asked([]) == [] && Asked([p]) == p.hashes
  {
    assert [p][..0] == [];
  }

  // ---- every hash is asked for exactly once --------------------------------------------

  lemma {:induction false} ChunkedAsks(hashes: seq<Hash>, dests: seq<PeerKey>, k: nat)
    requires dests != []
    ensures Asked(Chunked(hashes, dests, k)) == hashes
    decreases |hashes|
  {
    hide Asked;
    if hashes == [] {
      AskedOne(Packet(dests[0], []));
    } else {
      var n := if |hashes| < CHUNK then |hashes| else CHUNK;
      var first := Packet(dests[k % |dests|], hashes[..n]);
      var rest := Chunked(hashes[n..], dests, k + 1);
      ChunkedAsks(hashes[n..], dests, k + 1);
      AskedConcat([first], rest);
      AskedOne(first);
      assert hashes == hashes[..n] + hashes[n..];
    }
  }

  /** What a list of sources covers, as a multiset. */
  function Covered(pending: map<Hash, Request>, targets: seq<PeerKey>, stale: seq<Hash>,
          sources: seq<PeerKey>): multiset<Hash> {
    if sources == [] then multiset{}
    else Covered(pending, targets, stale, sources[..|sources| - 1])
         + multiset(Routed(pending, targets, stale, Some(sources[|sources| - 1])))
  }

  lemma {:induction false} GroupsAsk(pending: map<Hash, Request>, targets: seq<PeerKey>, stale: seq<Hash>,
          sources: seq<PeerKey>)
    ensures multiset(Asked(Groups(pending, targets, stale, sources))) == Covered(pending, targets, stale, sources)
  {
    hide Routed, Sources, Chunked, Asked;
    if sources == [] {
      AskedOne(Packet(("", 0), []));
    } else {
      var front, src := sources[..|sources| - 1], sources[|sources| - 1];
      var group := Chunked(Routed(pending, targets, stale, Some(src)), [src], 0);
      var before := Groups(pending, targets, stale, front);
      GroupsAsk(pending, targets, stale, front);
      ChunkedAsks(Routed(pending, targets, stale, Some(src)), [src], 0);
      AskedConcat(before, group);
    }
  }

  lemma {:induction false} SourcesAreDistinct(pending: map<Hash, Request>, targets: seq<PeerKey>, stale: seq<Hash>)
    ensures Distinct(Sources(pending, targets, stale))
    ensures forall h :: h in stale && Route(pending, targets, h).Some? ==>
                          Route(pending, targets, h).value in Sources(pending, targets, stale)
  {
    if stale != [] {
      assert stale == stale[..|stale| - 1] + [stale[|stale| - 1]];
      SourcesAreDistinct(pending, targets, stale[..|stale| - 1]);
    }
  }

  /** Appending a hash adds it to the group of its own source alone. */
  lemma {:induction false} CoveredAppend(pending: map<Hash, Request>, targets: seq<PeerKey>, stale: seq<Hash>, h: Hash,
          sources: seq<PeerKey>)
    requires Distinct(sources)
    ensures Covered(pending, targets, stale + [h], sources) ==
            Covered(pending, targets, stale, sources)
            + (if Route(pending, targets, h).Some? && Route(pending, targets, h).value in sources
               then multiset{h} else multiset{})
    decreases |sources|
  {
    if sources != [] {
      var front, src := sources[..|sources| - 1], sources[|sources| - 1];
      assert sources == front + [src];
      CoveredAppend(pending, targets, stale, h, front);
      assert (stale + [h])[..|stale|] == stale;
    }
  }

  lemma {:induction false} CoveredExtend(pending: map<Hash, Request>, targets: seq<PeerKey>, stale: seq<Hash>,
          sources: seq<PeerKey>, src: PeerKey)
    requires forall h :: h in stale ==> Route(pending, targets, h) != Some(src)
    ensures Covered(pending, targets, stale, sources + [src]) == Covered(pending, targets, stale, sources)
  {
    assert (sources + [src])[..|sources|] == sources;
    NothingRouted(pending, targets, stale, Some(src));
  }

  lemma {:induction false} NothingRouted(pending: map<Hash, Request>, targets: seq<PeerKey>, stale: seq<Hash>,
          route: Option<PeerKey>)
    requires forall h :: h in stale ==> Route(pending, targets, h) != route
    ensures Routed(pending, targets, stale, route) == []
  {
    if stale != [] {
      NothingRouted(pending, targets, stale[..|stale| - 1], route);
    }
  }

  lemma NothingCovered(pending: map<Hash, Request>, targets: seq<PeerKey>)
    ensures Covered(pending, targets, [], Sources(pending, targets, [])) == multiset{}
  {
  }

  lemma CoveredStep(pending: map<Hash, Request>, targets: seq<PeerKey>, front: seq<Hash>, h: Hash)
    ensures Covered(pending, targets, front + [h], Sources(pending, targets, front + [h])) ==
            Covered(pending, targets, front, Sources(pending, targets, front))
            + if Route(pending, targets, h).Some? then multiset{h} else multiset{}
  {
    hide Route, Covered, Distinct, Routed;
    var before, after := Sources(pending, targets, front), Sources(pending, targets, front + [h]);
    assert (front + [h])[..|front|] == front;
    SourcesAreDistinct(pending, targets, front);
    SourcesAreDistinct(pending, targets, front + [h]);
    CoveredAppend(pending, targets, front, h, after);
    if after != before {
      CoveredExtend(pending, targets, front, before, Route(pending, targets, h).value);
    }
  }

  lemma {:induction false} AllAreCovered(pending: map<Hash, Request>, targets: seq<PeerKey>, stale: seq<Hash>)
    ensures multiset(stale) == Covered(pending, targets, stale, Sources(pending, targets, stale))
                               + multiset(Routed(pending, targets, stale, None))
  {
    hide Route, Covered, Sources;
    if stale == [] {
      NothingCovered(pending, targets);
    } else {
      var front, h := stale[..|stale| - 1], stale[|stale| - 1];
      assert stale == front + [h];
      AllAreCovered(pending, targets, front);
      CoveredStep(pending, targets, front, h);
    }
  }

  /** Together the packets ask for exactly the selected hashes, as often as they were selected. */
  lemma PlanAsksForAll(pending: map<Hash, Request>, targets: seq<PeerKey>, stale: seq<Hash>)
    requires targets != []
    ensures multiset(Asked(Plan(pending, targets, stale))) == multiset(stale)
    ensures |Asked(Plan(pending, targets, stale))| == |stale|
  {
    var sources := Sources(pending, targets, stale);
    var groups := Groups(pending, targets, stale, sources);
    var rest := Routed(pending, targets, stale, None);
    GroupsAsk(pending, targets, stale, sources);
    ChunkedAsks(rest, targets, 0);
    AskedConcat(groups, Chunked(rest, targets, 0));
    AllAreCovered(pending, targets, stale);
    assert |multiset(Asked(Plan(pending, targets, stale)))| == |multiset(stale)|;
  }

  lemma {:induction false} AskedTwice(packets: seq<Packet>, i: nat, j: nat, h: Hash)
    requires j < |packets| && h in packets[j].hashes
    requires i < j ==> h in packets[i].hashes
    ensures multiset(Asked(packets))[h] >= if i < j then 2 else 1
    decreases |packets|
  {
    var front, last := packets[..|packets| - 1], packets[|packets| - 1];
    if j < |front| {
      AskedTwice(front, i, j, h);
    } else if i < j {
      AskedTwice(front, i, i, h);
    }
  }

  lemma {:induction false} FoundInPacket(packets: seq<Packet>, h: Hash) returns (i: nat)
    requires h in Asked(packets)
    ensures i < |packets| && h in packets[i].hashes
  {
    var front, last := packets[..|packets| - 1], packets[|packets| - 1];
    if h in last.hashes {
      i := |front|;
    } else {
      i := FoundInPacket(front, h);
    }
  }

  /** Each selected hash is in one packet and no other, and nothing else is asked for. */
  lemma InExactlyOnePacket(pending: map<Hash, Request>, targets: seq<PeerKey>, stale: seq<Hash>, h: Hash)
    requires targets != [] && Distinct(stale)
    ensures var plan := Plan(pending, targets, stale);
      && (h in stale <==> exists i :: 0 <= i < |plan| && h in plan[i].hashes)
      && forall i, j :: 0 <= i < j < |plan| ==> !(h in plan[i].hashes && h in plan[j].hashes)
  {
    hide Plan;
    var plan := Plan(pending, targets, stale);
    PlanAsksForAll(pending, targets, stale);
    DistinctCount(stale, h);
    if h in stale {
      assert h in multiset(Asked(plan));
      var i := FoundInPacket(plan, h);
    }
    forall i | 0 <= i < |plan| && h in plan[i].hashes
      ensures h in stale
    {
      AskedTwice(plan, i, i, h);
      assert h in multiset(stale);
    }
    forall i, j | 0 <= i < j < |plan|
      ensures !(h in plan[i].hashes && h in plan[j].hashes)
    {
      if h in plan[i].hashes && h in plan[j].hashes {
        AskedTwice(plan, i, j, h);
      }
    }
  }

  // ---- to whom -------------------------------------------------------------------------

  /** Packet number `i` holds the `i`-th hundred and goes to destination `(k + i) % |dests|`. */
  lemma {:induction false} ChunkAt(hashes: seq<Hash>, dests: seq<PeerKey>, k: nat, i: nat)
    requires dests != [] && i < |Chunked(hashes, dests, k)|
    ensures 100 * i < |hashes|
    ensures Chunked(hashes, dests, k)[i] ==
            Packet(dests[(k + i) % |dests|],
                   hashes[100 * i..if |hashes| < 100 * (i + 1) then |hashes| else 100 * (i + 1)])
    decreases i
  {
    var n := if |hashes| < CHUNK then |hashes| else CHUNK;
    if i > 0 {
      ChunkAt(hashes[n..], dests, k + 1, i - 1);
    }
  }

  lemma {:induction false} RoutedHave(pending: map<Hash, Request>, targets: seq<PeerKey>, stale: seq<Hash>,
          route: Option<PeerKey>)
    ensures forall h :: h in Routed(pending, targets, stale, route) ==>
      h in stale && Route(pending, targets, h) == route
  {
    if stale != [] {
      assert stale == stale[..|stale| - 1] + [stale[|stale| - 1]];
      RoutedHave(pending, targets, stale[..|stale| - 1], route);
    }
  }

  /** It is recorded which peer offered the object, and that peer is connected. */
  predicate SourceConnected(pending: map<Hash, Request>, targets: seq<PeerKey>, h: Hash) {
    h in pending && exists i :: 0 <= i < |targets| && pending[h].source == Some(targets[i])
  }

  /** The packet is of legal size and all its hashes were offered by its destination. */
  predicate GoesToSource(pending: map<Hash, Request>, targets: seq<PeerKey>, p: Packet) {
    && 1 <= |p.hashes| <= 100 && p.dest in targets
    && forall h :: h in p.hashes ==> h in pending && pending[h].source == Some(p.dest)
  }

  /** The packet is of legal size, goes to a connected peer, and none of its hashes has its source connected. */
  predicate GoesInTurn(pending: map<Hash, Request>, targets: seq<PeerKey>, p: Packet, turn: nat) {
    && 1 <= |p.hashes| <= 100 && targets != [] && p.dest == targets[turn % |targets|]
    && forall h :: h in p.hashes ==> !SourceConnected(pending, targets, h)
  }

  lemma {:induction false} GroupsGoToSources(
      pending: map<Hash, Request>, targets: seq<PeerKey>, stale: seq<Hash>, sources: seq<PeerKey>, p: Packet)
    requires p in Groups(pending, targets, stale, sources)
    ensures GoesToSource(pending, targets, p)
    decreases |sources|
  {
    var front, src := sources[..|sources| - 1], sources[|sources| - 1];
    if p in Groups(pending, targets, stale, front) {
      GroupsGoToSources(pending, targets, stale, front, p);
    } else {
      var hashes := Routed(pending, targets, stale, Some(src));
      var i :| 0 <= i < |Chunked(hashes, [src], 0)| && Chunked(hashes, [src], 0)[i] == p;
      ChunkAt(hashes, [src], 0, i);
      RoutedHave(pending, targets, stale, Some(src));
      assert p.hashes[0] in hashes;
      forall h | h in p.hashes
        ensures h in pending && pending[h].source == Some(src) && src in targets
      {
        assert Route(pending, targets, h) == Some(src);
      }
    }
  }

  /** A packet goes to the peer that offered its hashes, or, where that is not connected, to the next peer in turn. */
  lemma PlanIsRouted(pending: map<Hash, Request>, targets: seq<PeerKey>, stale: seq<Hash>, i: nat)
    requires targets != [] && i < |Plan(pending, targets, stale)|
    ensures var g := |Groups(pending, targets, stale, Sources(pending, targets, stale))|;
      var p := Plan(pending, targets, stale)[i];
      if i < g then GoesToSource(pending, targets, p) else GoesInTurn(pending, targets, p, i - g)
  {
    hide Groups, Sources, Chunked, Routed;
    var groups := Groups(pending, targets, stale, Sources(pending, targets, stale));
    if i < |groups| {
      GroupsGoToSources(pending, targets, stale, Sources(pending, targets, stale), groups[i]);
    } else {
      var hashes := Routed(pending, targets, stale, None);
      ChunkAt(hashes, targets, 0, i - |groups|);
      RoutedHave(pending, targets, stale, None);
      assert forall h :: h in Plan(pending, targets, stale)[i].hashes ==> h in hashes;
    }
  }

  /** A hash whose source is connected is asked of its source. */
  lemma SourceIsAsked(pending: map<Hash, Request>, targets: seq<PeerKey>, stale: seq<Hash>, h: Hash)
    requires targets != [] && h in stale && SourceConnected(pending, targets, h)
    ensures exists p :: p in Plan(pending, targets, stale) && h in p.hashes && Some(p.dest) == pending[h].source
  {
    hide Plan, Asked;
    var plan := Plan(pending, targets, stale);
    PlanAsksForAll(pending, targets, stale);
    assert h in multiset(stale);
    var i := FoundInPacket(plan, h);
    PlanIsRouted(pending, targets, stale, i);
    assert plan[i] in plan && h in plan[i].hashes;
  }

  // ---- how many ------------------------------------------------------------------------

  const PER_PEER_MAX: nat := 1000

  /** The most that one tick asks for, as the retry scheduler computes it. */
  function TickLimit(pending: nat, stale: nat, targets: nat): int
    requires targets > 0
  {
    var perPeer := Max(CHUNK, Min(PER_PEER_MAX, pending) / Max(1, targets));
    Max(perPeer * targets, Min(PER_PEER_MAX * targets, stale))
  }

  /** The share per peer never matters: a tick asks for a thousand hashes per connected peer, or for all there are. */
  lemma TickAsksForThousands(pending: nat, stale: nat, targets: nat)
    requires targets > 0
    ensures Min(stale, TickLimit(pending, stale, targets)) == Min(stale, 1000 * targets)
  {
    var share := Min(PER_PEER_MAX, pending) / targets;
    assert share <= PER_PEER_MAX by {
      assert share * targets <= PER_PEER_MAX;
      assert share <= share * targets;
    }
    var perPeer := Max(CHUNK, share);
    assert perPeer * targets <= PER_PEER_MAX * targets;
  }
}
