/** The hypotheses on cryptography can all hold at once: a toy that satisfies them, and a letter sent with it. */
module Consistency {
  import opened Positional
  import opened Bytes
  import opened Objects
  import Address
  import Messages
  import ProofOfWork
  import AckLoop
  import KeyExchange

  /** Pads to the size of a real ciphertext; the last byte counts the padding. */
  function Pad(plain: Bytes): (sealed: Bytes)
    ensures |sealed| == Messages.EncryptedLength(|plain|)
  {
    var n := Messages.EncryptedLength(|plain|) - |plain|;
    plain + ZeroBytes(n - 1) + [n]
  }

  function Unpad(sealed: Bytes): Option<Bytes> {
    if sealed == [] || sealed[|sealed| - 1] > |sealed| then None
    else Some(sealed[..|sealed| - sealed[|sealed| - 1]])
  }

  lemma UnpadOfPad(plain: Bytes)
    ensures Unpad(Pad(plain)) == Some(plain)
  {
    var sealed := Pad(plain);
    assert sealed[..|plain|] == plain;
  }

  function SameDigest(data: Bytes): Digest {
    ZeroBytes(64)
  }

  function SameHash(data: Bytes): Messages.Hash20 {
    [1] + ZeroBytes(19)
  }

  function Toy(): Messages.Crypto {
    Messages.Crypto(SameDigest, SameHash, (key, data) => [], (key, signature, data) => true, private => private,
                    (plain, key) => Pad(plain), (sealed, key) => Unpad(sealed))
  }

  lemma ToyIsIdeal(private: Bytes, public: Bytes)
    ensures Messages.Opens(Toy(), private, public) && Messages.SealsInBlocks(Toy())
  {
    forall plain
      ensures Toy().decrypt(Toy().encrypt(plain, public), private) == Some(plain)
    {
      UnpadOfPad(plain);
    }
  }

  function Somebody(): (id: Messages.Identity)
    ensures Messages.IsIdentity(Toy(), id) && Messages.AcceptableDifficulty(id) && !AllZero(id.ripe)
  {
    var key := [4] + ZeroBytes(64);
    var ripe := SameHash([]);
    assert ripe[0] == 1;
    Messages.Identity([], key, [], key, ripe, 1, Address.EncodeAddress(SameDigest, 4, 1, ripe).value, 1000, 1000)
  }

  lemma ZeroMeetsAll(unsigned: Bytes, target: nat)
    ensures ProofOfWork.Meets(SameDigest, SameDigest(unsigned), target, 0)
  {
    ValueIgnoresZeros(8, [], 256);
    assert ZeroBytes(64)[..8] == Zeros(8) + [];
  }

  lemma NothingIsEnoughWork(expires: nat, watch: Bytes, stream: nat, built: int)
    requires expires < MAX_U64 && stream < MAX_U64
    ensures AckLoop.IsAckNonce(SameDigest, expires, watch, stream, built, 0)
  {
    hide ProofOfWork.CalculateTarget, ProofOfWork.Meets;
    var unsigned := AckLoop.AckUnsigned(expires, watch, stream);
    ZeroMeetsAll(unsigned, AckLoop.AckTarget(unsigned, expires, built));
  }

  /** Somebody writes to themselves, everything the round trips and the acknowledgement loop ask for is given. */
  lemma LoopIsPossible(watch: Bytes, m: nat)
    returns (id: Messages.Identity, l: Messages.Letter, watches: AckLoop.Watches)
    requires |watch| == 32
    ensures l.expires < MAX_U64 && 1 <= l.stream < MAX_U64
    ensures AckLoop.IsAckNonce(Toy().sha512, l.expires, watch, l.stream, 0, 0)
    ensures l.ack == AckLoop.AckPacket(Toy().sha512, AckLoop.AckObject(l.expires, watch, l.stream, 0))
    ensures Messages.Delivers(Toy(), id, id.encryptionPublic, l, [id], 0)
    ensures Messages.SealsInBlocks(Toy()) && Messages.Acceptable(Toy(), id, l)
    ensures |l.message| <= Messages.MAX_WIRE_BODY_BYTES && |Messages.MsgSignature(Toy(), id, l)| <= 72
    ensures AckLoop.WatchedBy(watches, m, AckLoop.WatchKey(AckLoop.AckObject(l.expires, watch, l.stream, 0)))
    ensures -AckLoop.MAX_PAST_SKEW <= l.expires <= AckLoop.MAX_FUTURE_SKEW
  {
    hide AckLoop.IsAckNonce, Messages.MsgPlain, Messages.MsgSignedData, Pad, Unpad, Address.EncodeAddress;
    id := Somebody();
    var ack := AckLoop.AckObject(0, watch, 1, 0);
    AckLoop.AckShape(0, watch, 1, 0);
    l := Messages.Letter(1, 0, 0, id.ripe, [], 1, AckLoop.AckPacket(SameDigest, ack));
    NothingIsEnoughWork(0, watch, 1, 0);
    ToyIsIdeal(id.encryptionPrivate, id.encryptionPublic);
    watches := map[AckLoop.WatchKey(ack) := (m, 0)];
    UnpadOfPad(Messages.MsgPlain(Toy(), id, l));
  }

  /** Everything the exchange of keys asks for is given. */
  lemma ExchangeIsPossible() returns (id: Messages.Identity, keys: Messages.AddressKeys)
    ensures KeyExchange.AreIdentities(Toy(), [id]) && Messages.IsIdentity(Toy(), id)
    ensures KeyExchange.IsOwner(Toy(), [id], KeyExchange.TagOf(Toy(), id), 0)
    ensures Messages.CanPublish(Toy(), id, 0, 0) && !AllZero(id.ripe)
    ensures Messages.PubkeyAcceptable(Toy(), id, 0, 0)
    ensures Messages.KeysOfAddress(Toy(), id.address) == Some(keys)
    ensures KeyExchange.IsRequestNonce(Toy(), KeyExchange.GETPUBKEY_TTL, keys, 0)
    ensures |Messages.PubkeySignature(Toy(), id, 0, 0)| <= 72 && Messages.SealsInBlocks(Toy())
    ensures Messages.Opens(Toy(), keys.encryptionPrivate, Toy().publicPoint(keys.encryptionPrivate))
  {
    hide Messages.PubkeySignedData, Messages.KeysOfAddress, Pad, Unpad, Address.EncodeAddress, ProofOfWork.Meets,
         ProofOfWork.CalculateTarget, KeyExchange.KeyRequest;
    id := Somebody();
    Messages.KeysOfOwnAddress(Toy(), id);
    keys := Messages.KeysOfAddress(Toy(), id.address).value;
    var unsigned := KeyExchange.KeyRequest(KeyExchange.GETPUBKEY_TTL, keys);
    ZeroMeetsAll(unsigned, ProofOfWork.CalculateTarget(1000, 1000, |unsigned| + 8, KeyExchange.GETPUBKEY_TTL));
    ToyIsIdeal(keys.encryptionPrivate, keys.encryptionPrivate);
  }
}
