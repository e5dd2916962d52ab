/** The inventory a peer is sent when it connects (bmchat/net/manager.py). */
module BigInventory {
  import opened Bytes
  import opened Collections
  import opened Packets
  import opened NetworkManager

  const INV_CHUNK: nat := 49999
  const MAX_MESSAGE_SIZE: nat := 1600100

  /** The hashes held in memory, then those only the database has, each once. */
  function Merged(ram: seq<Bytes>, db: seq<Bytes>): seq<Bytes> {
    ram + Fresh((set h | h in ram), db)
  }

  function Slices(hashes: seq<Bytes>): seq<seq<Bytes>>
    decreases |hashes|
  {
    if hashes == [] then []
    else
      var n := if |hashes| < INV_CHUNK then |hashes| else INV_CHUNK;
      [hashes[..n]] + Slices(hashes[n..])
  }

  function Payloads(slices: seq<seq<Bytes>>): seq<Bytes>
    requires forall s :: s in slices ==> |s| < MAX_U64
  {
    seq(|slices|, i requires 0 <= i < |slices| => Inventory(slices[i]))
  }

  function Concat(lists: seq<seq<Bytes>>): seq<Bytes> {
    if lists == [] then [] else lists[0] + Concat(lists[1..])
  }

  /** What a receiver reads from the payloads, all of them together; None when one is malformed. */
  function Read(payloads: seq<Bytes>): Option<seq<Bytes>> {
    if payloads == [] then Some([])
    else
      match (Listed(payloads[0]), Read(payloads[1..]))
      case (Ok(hashes), Some(rest)) => Some(hashes + rest)
      case _ => None
  }

  lemma {:induction false} SlicesConcat(hashes: seq<Bytes>)
    ensures Concat(Slices(hashes)) == hashes
    ensures forall s :: s in Slices(hashes) ==> 1 <= |s| <= INV_CHUNK
    decreases |hashes|
  {
    if hashes != [] {
      var n := if |hashes| < INV_CHUNK then |hashes| else INV_CHUNK;
      SlicesConcat(hashes[n..]);
      assert hashes == hashes[..n] + hashes[n..];
    }
  }

  lemma {:induction false} SlicesHashes(hashes: seq<Bytes>)
    requires AreHashes(hashes)
    ensures forall s :: s in Slices(hashes) ==> AreHashes(s)
    decreases |hashes|
  {
    if hashes != [] {
      var n := if |hashes| < INV_CHUNK then |hashes| else INV_CHUNK;
      SlicesHashes(hashes[n..]);
    }
  }

  lemma {:induction false} ReadSlices(slices: seq<seq<Bytes>>)
    requires forall s :: s in slices ==> |s| <= INV_CHUNK && AreHashes(s)
    ensures Read(Payloads(slices)) == Some(Concat(slices))
  {
    hide Inventory, Listed, AreHashes;
    if slices != [] {
      InventoryRoundTrip(slices[0]);
      assert slices[0][..|slices[0]|] == slices[0];
      ReadSlices(slices[1..]);
      assert Payloads(slices)[1..] == Payloads(slices[1..]);
    }
  }

  lemma {:induction false} FreshHashes(have: set<Bytes>, offered: seq<Bytes>)
    requires AreHashes(offered)
    ensures AreHashes(Fresh(have, offered))
    decreases |offered|
  {
    FreshIsFresh(have, offered);
    forall i | 0 <= i < |Fresh(have, offered)|
      ensures |Fresh(have, offered)[i]| == HASH_SIZE
    {
      assert Fresh(have, offered)[i] in Fresh(have, offered);
      var j :| 0 <= j < |offered| && offered[j] == Fresh(have, offered)[i];
    }
  }

  /** Nothing held is left out, nothing is listed twice, and memory comes first. */
  lemma MergedIsUnion(ram: seq<Bytes>, db: seq<Bytes>)
    requires Distinct(ram)
    ensures Distinct(Merged(ram, db)) && ram <= Merged(ram, db)
    ensures forall h :: h in Merged(ram, db) <==> h in ram || h in db
  {
    var held := set h | h in ram;
    var rest := Fresh(held, db);
    FreshIsFresh(held, db);
    forall i, j | 0 <= i < j < |ram + rest|
      ensures (ram + rest)[i] != (ram + rest)[j]
    {
      if i < |ram| <= j {
        assert ram[i] in held && rest[j - |ram|] in rest;
      }
    }
  }

  /** Every payload is within the limit the reader enforces, and the peer reads the whole list back, in order. */
  lemma PeerReadsInventory(ram: seq<Bytes>, db: seq<Bytes>)
    requires AreHashes(ram) && AreHashes(db)
    ensures forall s :: s in Slices(Merged(ram, db)) ==> |s| < MAX_U64
    ensures var payloads := Payloads(Slices(Merged(ram, db)));
      && Read(payloads) == Some(Merged(ram, db))
      && forall payload :: payload in payloads ==> |payload| <= MAX_MESSAGE_SIZE
  {
    hide Inventory, Fresh;
    var slices := Slices(Merged(ram, db));
    FreshHashes((set h | h in ram), db);
    SlicesConcat(Merged(ram, db));
    SlicesHashes(Merged(ram, db));
    ReadSlices(slices);
    forall payload | payload in Payloads(slices)
      ensures |payload| <= MAX_MESSAGE_SIZE
    {
      var i :| 0 <= i < |slices| && payload == Inventory(slices[i]);
      assert slices[i] in slices;
      InventoryRoundTrip(slices[i]);
    }
  }

  method MergeHashes(ram: seq<Bytes>, db: seq<Bytes>) returns (hashes: seq<Bytes>)
    ensures hashes == Merged(ram, db)
  {
    var seen := set h | h in ram;
    hashes := ram;
    ghost var held := seen;
    for i := 0 to |db|
      invariant hashes == ram + Fresh(held, db[..i])
      invariant forall h :: h in seen <==> h in held || h in db[..i]
    {
      assert db[..i + 1] == db[..i] + [db[i]];
      FreshAppend(held, db[..i], db[i]);
      if db[i] !in seen {
        hashes := hashes + [db[i]];
        seen := seen + {db[i]};
      }
    }
    assert db[..|db|] == db;
  }

  /** Sends the inventory; stops at the first payload that cannot be sent. `works(i)`: sending number `i` succeeds. */
  method SendInventory(ram: seq<Bytes>, db: seq<Bytes>, works: nat -> bool) returns (sent: seq<Bytes>)
    requires AreHashes(ram) && AreHashes(db)
    ensures forall s :: s in Slices(Merged(ram, db)) ==> |s| < MAX_U64
    ensures var payloads := Payloads(Slices(Merged(ram, db)));
      && sent <= payloads
      && (forall i: nat :: i < |sent| ==> works(i))
      && (|sent| < |payloads| ==> !works(|sent|))
  {
    hide Inventory, Merged, Payloads, Slices, AreHashes, Concat;
    var hashes := MergeHashes(ram, db);
    ghost var slices := Slices(hashes);
    SlicesConcat(hashes);
    sent := [];
    PayloadsPrefix(slices, 0);
    var index := 0;
    assert hashes[0..] == hashes;
    while index < |hashes|
      invariant 0 <= index <= |hashes| && |sent| <= |slices|
      invariant slices[|sent|..] == Slices(hashes[index..])
      invariant sent == Payloads(slices)[..|sent|]
      invariant forall i: nat :: i < |sent| ==> works(i)
      decreases |hashes| - index
    {
      var upTo := Min(index + INV_CHUNK, |hashes|);
      var chunk := hashes[index..upTo];
      NextSlice(hashes, slices, index, upTo, |sent|);
      PayloadsPrefix(slices, |sent|);
      var payload := AssembleInventory(chunk);
      if !works(|sent|) {
        return;
      }
      sent := sent + [payload];
      index := upTo;
    }
    NoSlice(hashes);
  }

  lemma NoSlice(hashes: seq<Bytes>)
    ensures Slices(hashes[|hashes|..]) == []
  {
  }

  lemma NextSlice(hashes: seq<Bytes>, slices: seq<seq<Bytes>>, index: nat, upTo: nat, n: nat)
    requires index < |hashes| && upTo == Min(index + INV_CHUNK, |hashes|)
    requires n <= |slices| && slices[n..] == Slices(hashes[index..])
    ensures n < |slices| && slices[n] == hashes[index..upTo] && slices[n + 1..] == Slices(hashes[upTo..])
  {
    var rest := hashes[index..];
    assert rest[..upTo - index] == hashes[index..upTo] && rest[upTo - index..] == hashes[upTo..];
    assert slices[n + 1..] == slices[n..][1..];
  }

  lemma PayloadsPrefix(slices: seq<seq<Bytes>>, n: nat)
    requires n <= |slices| && forall s :: s in slices ==> |s| < MAX_U64
    ensures |Payloads(slices)| == |slices| && (n < |slices| ==> Payloads(slices)[n] == Inventory(slices[n]))
  {
  }
}
