/** How a sender comes by a recipient's keys (bmchat/core/client.py). It asks the network with a tag derived from the
    address; the owner of the address recognises the tag and publishes; the sender recognises the publication. */
module KeyExchange {
  import opened Bytes
  import opened Messages
  import opened Objects
  import opened ProofOfWork
  import Address
  import AckLoop
  import Positional
  import Varint

  type Time = real

  const OBJECT_GETPUBKEY := 0
  const GETPUBKEY_TTL: nat := 4 * 24 * 3600
  const ANSWER_PAUSE: Time := 300.0

  /** `build_getpubkey_unsigned` */
  function KeyRequest(expires: nat, keys: AddressKeys): Bytes
    requires expires < MAX_U64 && keys.stream < MAX_U64
  {
    Unsigned(expires, OBJECT_GETPUBKEY, 4, keys.stream, keys.tag)
  }

  function TagOf(c: Crypto, id: Identity): (tag: Bytes)
    requires id.stream < MAX_U64
    ensures |tag| == 32
  {
    AddressHash(c, id.stream, id.ripe)[32..]
  }

  ghost predicate AreIdentities(c: Crypto, identities: seq<Identity>) {
    forall i :: 0 <= i < |identities| ==> IsIdentity(c, identities[i])
  }

  /** Identity number `k` is the first with the tag. */
  ghost predicate IsOwner(c: Crypto, identities: seq<Identity>, tag: Bytes, k: nat)
    requires AreIdentities(c, identities)
  {
    && k < |identities| && TagOf(c, identities[k]) == tag
    && forall j :: 0 <= j < k ==> TagOf(c, identities[j]) != tag
  }

  function LastAnswer(answered: map<Bytes, Time>, tag: Bytes): Time {
    if tag in answered then answered[tag] else 0.0
  }

  function Tag(p: Parsed): Bytes {
    if |p.data| < 32 then p.data else p.data[..32]
  }

  /** Identity number `k` answers the request: it is the first with its tag and lives in its stream, and five
      minutes have passed since the tag was answered last. */
  ghost predicate Answers(c: Crypto, answered: map<Bytes, Time>, identities: seq<Identity>, p: Parsed, now: Time,
                          k: nat)
    requires AreIdentities(c, identities)
  {
    && IsOwner(c, identities, Tag(p), k) && p.stream == identities[k].stream
    && now - (if Tag(p) in answered then answered[Tag(p)] else 0.0) >= 300.0
  }

  /** Contact number `j` is the first whose keys read the publication. */
  ghost predicate Learns(c: Crypto, contacts: seq<string>, raw: Bytes, j: nat, key: IncomingPubkey) {
    && j < |contacts| && KeyIn(c, contacts[j], raw) == Some(key)
    && forall i :: 0 <= i < j ==> KeyIn(c, contacts[i], raw) == None
  }

  /** What the keys of one contact make of a publication. */
  function KeyIn(c: Crypto, contact: string, raw: Bytes): Option<IncomingPubkey> {
    match KeysOfAddress(c, contact)
    case None => None
    case Some(keys) =>
      match ProcessPubkey(c, raw, keys)
      case Err(_) => None
      case Ok(key) => key
  }

  /** What the keys of an identity look like to whoever reads its publication. */
  function Published(c: Crypto, id: Identity, expires: nat, bitfield: nat, nonce: nat): IncomingPubkey
    requires CanPublish(c, id, expires, bitfield)
  {
    var raw := Complete(BuildPubkeyUnsigned(c, id, expires, bitfield), nonce);
    IncomingPubkey(id.address, id.signingPublic, id.encryptionPublic, Announced(id.nonceTrialsPerByte),
                   Announced(id.payloadLengthExtraBytes), DoubleSha512(c.sha512, raw)[..32], expires)
  }

  class KeyDesk {
    const c: Crypto
    /** When each tag was answered last. */
    var answered: map<Bytes, Time>
    /** Keys learned, by address. */
    var pubkeys: map<string, IncomingPubkey>

    constructor (c: Crypto)
      ensures this.c == c && answered == map[] && pubkeys == map[]
    {
      this.c := c;
      answered, pubkeys := map[], map[];
    }

    /** A request for keys arrives: the identity whose keys are to be published, if any. */
    method OnGetpubkey(p: Parsed, identities: seq<Identity>, now: Time) returns (k: Option<nat>)
      requires AreIdentities(c, identities)
      modifies this`answered
      ensures k.Some? ==> Answers(c, old(answered), identities, p, now, k.value)
      ensures k.None? ==> forall j: nat :: !Answers(c, old(answered), identities, p, now, j)
      ensures answered == if k.Some? then old(answered)[Tag(p) := now] else old(answered)
    {
      hide TagOf, RipeOf, Address.EncodeAddress;
      var tag := Tag(p);
      if now - LastAnswer(answered, tag) < ANSWER_PAUSE {
        return None;
      }
      for i := 0 to |identities|
        invariant answered == old(answered)
        invariant forall j :: 0 <= j < i ==> TagOf(c, identities[j]) != tag
      {
        if TagOf(c, identities[i]) == tag {
          if p.stream != identities[i].stream {
            return None;
          }
          answered := answered[tag := now];
          return Some(i);
        }
      }
      k := None;
    }

    /** A publication arrives: the contact whose keys it holds, if any. */
    method OnPubkey(raw: Bytes, contacts: seq<string>) returns (learned: Option<string>)
      modifies this`pubkeys
      ensures learned.None? ==> pubkeys == old(pubkeys) && forall i :: 0 <= i < |contacts| ==>
        KeyIn(c, contacts[i], raw) == None
      ensures learned.Some? ==> exists j: nat, key ::
        && Learns(c, contacts, raw, j, key) && contacts[j] == learned.value
        && pubkeys == old(pubkeys)[learned.value := key]
    {
      hide KeyIn;
      for i := 0 to |contacts|
        invariant pubkeys == old(pubkeys)
        invariant forall j :: 0 <= j < i ==> KeyIn(c, contacts[j], raw) == None
      {
        var key := KeyIn(c, contacts[i], raw);
        if key.Some? {
          pubkeys := pubkeys[contacts[i] := key.value];
          assert Learns(c, contacts, raw, i, key.value);
          return Some(contacts[i]);
        }
      }
      learned := None;
    }
  }

  /** The work done for a request. */
  predicate IsRequestNonce(c: Crypto, expires: nat, keys: AddressKeys, nonce: nat)
    requires expires < MAX_U64 && keys.stream < MAX_U64
  {
    var unsigned := KeyRequest(expires, keys);
    Meets(c.sha512, c.sha512(unsigned), CalculateTarget(1000, 1000, |unsigned| + 8, GETPUBKEY_TTL), nonce)
  }

  /** A request made from an address text passes the checks of every node until an hour after it expires, and carries
      the owner's tag and stream. */
  lemma RequestIsAccepted(c: Crypto, id: Identity, keys: AddressKeys, built: nat, nonce: nat, received: int)
    requires IsIdentity(c, id) && !Positional.AllZero(id.ripe) && built + GETPUBKEY_TTL < MAX_U64
    requires KeysOfAddress(c, id.address) == Some(keys)
    requires IsRequestNonce(c, built + GETPUBKEY_TTL, keys, nonce) && built <= received
    ensures keys.tag == TagOf(c, id)
    ensures var raw := Complete(KeyRequest(built + GETPUBKEY_TTL, keys), nonce);
      AckLoop.AcceptIncoming(c.sha512, raw, received) ==
      if received <= built + 4 * 24 * 3600 + 3600
      then Some(Parsed(raw, BigEndian(nonce, 8), built + GETPUBKEY_TTL, 0, 4, id.stream, TagOf(c, id),
                       DoubleSha512(c.sha512, raw)[..32]))
      else None
  {
    hide KeysOfAddress, IsIdentity, Meets, CalculateTarget, BigEndian, Varint.EncodeFit, IsSufficient, Parse,
         DoubleSha512, AddressHash;
    KeysOfOwnAddress(c, id);
    var expires := built + GETPUBKEY_TTL;
    var rest := BigEndian(OBJECT_GETPUBKEY, 4) + Varint.EncodeFit(4) + Varint.EncodeFit(keys.stream) + keys.tag;
    RequestShape(expires, keys);
    SenderWorkIsSufficient(c.sha512, expires, rest, nonce, 1000, 1000, GETPUBKEY_TTL, built, received);
    ParseOfComplete(c.sha512, nonce, expires, OBJECT_GETPUBKEY, 4, id.stream, keys.tag);
  }

  lemma RequestShape(expires: nat, keys: AddressKeys)
    requires expires < MAX_U64 && keys.stream < MAX_U64
    ensures KeyRequest(expires, keys) == BigEndian(expires, 8) +
        (BigEndian(OBJECT_GETPUBKEY, 4) + Varint.EncodeFit(4) + Varint.EncodeFit(keys.stream) + keys.tag)
    ensures |KeyRequest(expires, keys)| <= 30 + |keys.tag|
  {
    hide BigEndian, Varint.Encode;
  }

  /** A publication is never over the size limit. */
  lemma PublicationFits(c: Crypto, id: Identity, expires: nat, bitfield: nat, nonce: nat)
    requires CanPublish(c, id, expires, bitfield) && SealsInBlocks(c)
    requires |PubkeySignature(c, id, expires, bitfield)| <= 72
    ensures |Complete(BuildPubkeyUnsigned(c, id, expires, bitfield), nonce)| <= MAX_OBJECT_LENGTH
  {
    hide BigEndian, Varint.Encode, PubkeySignature, Address.EncodeAddress, AddressHash, Join, Offset;
    var fs := PubkeyFields(c, id, bitfield) + SignatureFields(PubkeySignature(c, id, expires, bitfield));
    JoinBounded(fs, 140);
  }

  lemma {:induction false} JoinBounded(fields: seq<Bytes>, most: nat)
    requires forall i :: 0 <= i < |fields| ==> |fields[i]| <= most
    ensures |Join(fields)| <= most * |fields|
  {
    if fields != [] {
      JoinBounded(fields[..|fields| - 1], most);
    }
  }

  /** The owner answers a request that was let in unless the tag was answered less than five minutes before. */
  lemma OwnerAnswers(c: Crypto, id: Identity, identities: seq<Identity>, k: nat, p: Parsed,
                     answered: map<Bytes, Time>, now: Time)
    requires AreIdentities(c, identities) && IsIdentity(c, id)
    requires IsOwner(c, identities, TagOf(c, id), k) && identities[k] == id
    requires |p.data| >= 32 && p.data[..32] == TagOf(c, id) && p.stream == id.stream
    ensures Answers(c, answered, identities, p, now, k) <==>
            now - (if TagOf(c, id) in answered then answered[TagOf(c, id)] else 0.0) >= 300.0
  {
    hide AreIdentities, IsOwner, LastAnswer, RipeOf, Address.EncodeAddress, TagOf;
    assert Tag(p) == TagOf(c, id);
  }

  /** What the owner publishes gives the owner's keys to a sender who has the address among the contacts. */
  lemma PublicationIsLearned(c: Crypto, id: Identity, keys: AddressKeys, expires: nat, bitfield: nat, nonce: nat,
                             contacts: seq<string>, j: nat)
    requires CanPublish(c, id, expires, bitfield) && !Positional.AllZero(id.ripe)
    requires PubkeyAcceptable(c, id, expires, bitfield)
    requires |PubkeySignature(c, id, expires, bitfield)| <= 72 && SealsInBlocks(c)
    requires KeysOfAddress(c, id.address) == Some(keys)
    requires Opens(c, keys.encryptionPrivate, c.publicPoint(keys.encryptionPrivate))
    requires j < |contacts| && contacts[j] == id.address
    requires forall i :: 0 <= i < j ==>
      KeyIn(c, contacts[i], Complete(BuildPubkeyUnsigned(c, id, expires, bitfield), nonce)) == None
    ensures Learns(c, contacts, Complete(BuildPubkeyUnsigned(c, id, expires, bitfield), nonce), j,
                   Published(c, id, expires, bitfield, nonce))
  {
    hide KeysOfAddress, PubkeySignature, PubkeySignedData, BuildPubkeyUnsigned, DoubleSha512, Opens, ProcessPubkey,
         AddressHash, RipeOf, Address.EncodeAddress, Complete, PubkeyAcceptable, Positional.AllZero;
    KeysOfOwnAddress(c, id);
    PublicationFits(c, id, expires, bitfield, nonce);
    PubkeyRoundTrip(c, id, expires, bitfield, nonce);
  }

  /** The whole exchange: a request made from an address is let in everywhere while it lives, its owner answers, and
      the sender learns the owner's keys. */
  lemma KeyExchangeCloses(c: Crypto, id: Identity, identities: seq<Identity>, k: nat, keys: AddressKeys, built: nat,
                          nonce: nat, received: int, answered: map<Bytes, Time>, now: Time, expires: nat,
                          bitfield: nat, pubNonce: nat, contacts: seq<string>, j: nat)
    requires AreIdentities(c, identities) && IsIdentity(c, id)
    requires IsOwner(c, identities, TagOf(c, id), k) && identities[k] == id
    requires CanPublish(c, id, expires, bitfield) && !Positional.AllZero(id.ripe)
    requires KeysOfAddress(c, id.address) == Some(keys)
    requires built + GETPUBKEY_TTL < MAX_U64 && IsRequestNonce(c, built + GETPUBKEY_TTL, keys, nonce)
    requires built <= received <= built + GETPUBKEY_TTL + AckLoop.MAX_PAST_SKEW
    requires PubkeyAcceptable(c, id, expires, bitfield)
    requires |PubkeySignature(c, id, expires, bitfield)| <= 72 && SealsInBlocks(c)
    requires Opens(c, keys.encryptionPrivate, c.publicPoint(keys.encryptionPrivate))
    requires j < |contacts| && contacts[j] == id.address
    requires forall i :: 0 <= i < j ==>
      KeyIn(c, contacts[i], Complete(BuildPubkeyUnsigned(c, id, expires, bitfield), pubNonce)) == None
    ensures var request := Complete(KeyRequest(built + GETPUBKEY_TTL, keys), nonce);
      var accepted := AckLoop.AcceptIncoming(c.sha512, request, received);
      && accepted.Some?
      && (Answers(c, answered, identities, accepted.value, now, k) <==>
            now - (if keys.tag in answered then answered[keys.tag] else 0.0) >= 300.0)
    ensures Learns(c, contacts, Complete(BuildPubkeyUnsigned(c, id, expires, bitfield), pubNonce), j,
                   Published(c, id, expires, bitfield, pubNonce))
  {
    hide KeysOfAddress, IsRequestNonce, PubkeySignature, PubkeySignedData, BuildPubkeyUnsigned, Opens, IsIdentity,
         AckLoop.AcceptIncoming, KeyRequest, Complete, BigEndian, IsOwner, AreIdentities, KeyIn, CanPublish, Learns,
         PubkeyAcceptable, Positional.AllZero, TagOf, Answers, LastAnswer;
    RequestIsAccepted(c, id, keys, built, nonce, received);
    OwnerAnswers(c, id, identities, k, AckLoop.AcceptIncoming(c.sha512,
        Complete(KeyRequest(built + GETPUBKEY_TTL, keys), nonce), received).value, answered, now);
    PublicationIsLearned(c, id, keys, expires, bitfield, pubNonce, contacts, j);
  }
}
