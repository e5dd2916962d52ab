/** Signed and encrypted payloads (bmchat/protocol/objects.py): person-to-person messages,
    published public keys and broadcasts. The cryptography is a parameter; what a proof needs
    of it is an explicit hypothesis. */
module Messages {
  import opened Positional
  import opened Bytes
  import opened Objects
  import Varint
  import Address

  type Hash20 = h: Bytes | |h| == 20 witness ZeroBytes(20)

  /** One run's cryptographic primitives. `encrypt` carries its random choices with it. */
  datatype Crypto = Crypto(
    sha512: Bytes -> Digest,
    ripemd160: Bytes -> Hash20,
    sign: (Bytes, Bytes) -> Bytes,
    verify: (Bytes, Bytes, Bytes) -> bool,
    publicPoint: Bytes -> Bytes,
    encrypt: (Bytes, Bytes) -> Bytes,
    decrypt: (Bytes, Bytes) -> Option<Bytes>)

  /** What is encrypted to the public key can be read with the private one. */
  ghost predicate Opens(c: Crypto, private: Bytes, public: Bytes) {
    forall plain :: c.decrypt(c.encrypt(plain, public), private) == Some(plain)
  }

  /** Size of an encrypted payload: iv, ephemeral key, padded text and authentication code. */
  function EncryptedLength(plainLength: nat): nat {
    IV_LEN + R_LEN + 16 * (plainLength / 16 + 1) + MAC_LEN
  }

  /** Plaintext is padded up to the next block of sixteen bytes, at least by one; 118 bytes go with it. */
  lemma EncryptedLengthIs(plainLength: nat, blocks: nat)
    requires 16 * (blocks - 1) <= plainLength < 16 * blocks
    ensures EncryptedLength(plainLength) == 118 + 16 * blocks
  {
  }

  ghost predicate SealsInBlocks(c: Crypto) {
    forall plain, public :: |c.encrypt(plain, public)| == EncryptedLength(|plain|)
  }

  datatype Identity = Identity(
    signingPrivate: Bytes, signingPublic: Bytes,
    encryptionPrivate: Bytes, encryptionPublic: Bytes,
    ripe: Bytes, stream: nat, address: string,
    nonceTrialsPerByte: nat, payloadLengthExtraBytes: nat)

  function RipeOf(c: Crypto, signing: Bytes, encryption: Bytes): Bytes {
    c.ripemd160(c.sha512(signing + encryption))
  }

  /** double_sha512 of version, stream and key hash: its halves key and tag published objects. */
  function AddressHash(c: Crypto, stream: nat, ripe: Bytes): Digest
    requires stream < MAX_U64
  {
    DoubleSha512(c.sha512, Varint.EncodeFit(4) + Varint.EncodeFit(stream) + ripe)
  }

  /** The shape `AddressKeys.from_private_keys` gives an identity. */
  predicate IsIdentity(c: Crypto, id: Identity) {
    && IsPublicKey(id.signingPublic) && IsPublicKey(id.encryptionPublic)
    && 1 <= id.stream < MAX_U64
    && id.ripe == RipeOf(c, id.signingPublic, id.encryptionPublic)
    && Address.EncodeAddress(c.sha512, 4, id.stream, id.ripe) == Ok(id.address)
    && id.nonceTrialsPerByte < MAX_U64 && id.payloadLengthExtraBytes < MAX_U64
  }

  predicate IsPublicKey(key: Bytes) {
    |key| == 65 && key[0] == 4
  }

  /** A missing (zero) difficulty is announced as 1000. */
  function Announced(difficulty: nat): nat {
    if difficulty == 0 then 1000 else difficulty
  }

  predicate DifficultyInRange(ntpb: nat, eb: nat) {
    PUBKEY_NTPB_MIN <= ntpb <= PUBKEY_NTPB_MAX && PUBKEY_EB_MIN <= eb <= PUBKEY_EB_MAX
  }

  predicate AcceptableDifficulty(id: Identity) {
    DifficultyInRange(Announced(id.nonceTrialsPerByte), Announced(id.payloadLengthExtraBytes))
  }

  /** Of what an identity may ask for, exactly a missing difficulty and those from a thousand to a million are
      accepted. */
  lemma DifficultyIs(id: Identity)
    ensures AcceptableDifficulty(id) <==>
      && (id.nonceTrialsPerByte == 0 || 1000 <= id.nonceTrialsPerByte <= 1_000_000)
      && (id.payloadLengthExtraBytes == 0 || 1000 <= id.payloadLengthExtraBytes <= 1_000_000)
    ensures id.nonceTrialsPerByte == 0 ==> Announced(id.nonceTrialsPerByte) == 1000
    ensures id.nonceTrialsPerByte != 0 ==> Announced(id.nonceTrialsPerByte) == id.nonceTrialsPerByte
  {
  }

  // ---- reading helpers ----------------------------------------------------------------

  /** A malformed or missing varint reads as 0 without moving on. */
  function TakeVarint(blob: Bytes, position: nat): (r: (nat, nat))
    ensures position <= r.1 <= position + 9 && r.0 < MAX_U64
  {
    match Varint.Decode(Window(blob, position, 10))
    case Err(_) => (0, position)
    case Ok((value, length)) => (value, position + length)
  }

  lemma TakeAt(fields: seq<Bytes>, i: nat, v: nat)
    requires i < |fields| && v < MAX_U64 && fields[i] == Varint.EncodeFit(v)
    ensures TakeVarint(Join(fields), Offset(fields, i)) == (v, Offset(fields, i + 1))
    ensures Offset(fields, i + 1) <= |Join(fields)|
  {
    hide Varint.Decode, Varint.EncodeFit, Join;
    FieldAt(fields, i);
    VarintInWindow(Join(fields), Offset(fields, i), v);
  }

  lemma SliceAt(fields: seq<Bytes>, i: nat)
    requires i < |fields|
    ensures Offset(fields, i + 1) == Offset(fields, i) + |fields[i]| <= |Join(fields)|
    ensures Window(Join(fields), Offset(fields, i), |fields[i]|) == fields[i]
  {
    FieldAt(fields, i);
  }

  /** Bytes that read as `v`: its encoding, or none at all for a 0, which a malformed number reads as. */
  predicate Spells(piece: Bytes, v: nat) {
    if piece == [] then v == 0 else v < MAX_U64 && piece == Varint.EncodeFit(v)
  }

  lemma TakeSpells(blob: Bytes, position: nat)
    requires position <= |blob|
    ensures var (v, next) := TakeVarint(blob, position); next <= |blob| && Spells(blob[position..next], v)
  {
    hide Varint.Decode;
    var w := Window(blob, position, 10);
    if Varint.Decode(w).Ok? {
      var (v, length) := Varint.Decode(w).value;
      Varint.EncodingIsPrefix(w, v, length);
      assert blob[position..position + length] == w[..length];
    }
  }

  lemma OffsetZero(fields: seq<Bytes>)
    ensures Offset(fields, 0) == 0
  {
  }

  lemma OffsetEnd(fields: seq<Bytes>)
    ensures Offset(fields, |fields|) == |Join(fields)|
  {
    assert fields[..|fields|] == fields;
  }

  // ---- messages -----------------------------------------------------------------------

  /** Sender version, stream, bitfield, keys and difficulty: how messages and broadcasts begin. */
  function SenderFields(id: Identity, stream: nat, bitfield: nat): (fs: seq<Bytes>)
    requires IsPublicKey(id.signingPublic) && IsPublicKey(id.encryptionPublic)
    requires stream < MAX_U64 && bitfield < MAX_U32
    requires id.nonceTrialsPerByte < MAX_U64 && id.payloadLengthExtraBytes < MAX_U64
    ensures |fs| == 7
  {
    [Varint.EncodeFit(4), Varint.EncodeFit(stream), BigEndian(bitfield, 4),
     id.signingPublic[1..], id.encryptionPublic[1..],
     Varint.EncodeFit(Announced(id.nonceTrialsPerByte)),
     Varint.EncodeFit(Announced(id.payloadLengthExtraBytes))]
  }

  function LetterFields(ripe: Bytes, message: Bytes, encoding: nat, ack: Bytes): (fs: seq<Bytes>)
    requires encoding < MAX_U64 && |message| < MAX_U64 && |ack| < MAX_U64
    ensures |fs| == 6
  {
    [ripe, Varint.EncodeFit(encoding), Varint.EncodeFit(|message|), message,
     Varint.EncodeFit(|ack|), ack]
  }

  function SignatureFields(signature: Bytes): (fs: seq<Bytes>)
    requires |signature| < MAX_U64
    ensures |fs| == 2
  {
    [Varint.EncodeFit(|signature|), signature]
  }

  datatype Letter = Letter(stream: nat, expires: nat, bitfield: nat, recipientRipe: Bytes,
                           message: Bytes, encoding: nat, ack: Bytes)

  predicate Fits(l: Letter) {
    && l.stream < MAX_U64 && l.expires < MAX_U64 && l.bitfield < MAX_U32 && l.encoding < MAX_U64
    && |l.message| < MAX_U64 && |l.ack| < MAX_U64 && |l.recipientRipe| == 20
  }

  predicate CanSend(c: Crypto, id: Identity, l: Letter) {
    IsIdentity(c, id) && Fits(l) && |MsgSignature(c, id, l)| < MAX_U64
  }

  function MsgFields(c: Crypto, id: Identity, l: Letter): seq<Bytes>
    requires IsIdentity(c, id) && Fits(l)
  {
    SenderFields(id, l.stream, l.bitfield) + LetterFields(l.recipientRipe, l.message, l.encoding, l.ack)
  }

  function MsgSignedData(c: Crypto, id: Identity, l: Letter): Bytes
    requires IsIdentity(c, id) && Fits(l)
  {
    Unsigned(l.expires, OBJECT_MSG, 1, l.stream, []) + Join(MsgFields(c, id, l))
  }

  function MsgSignature(c: Crypto, id: Identity, l: Letter): Bytes
    requires IsIdentity(c, id) && Fits(l)
  {
    c.sign(id.signingPrivate, MsgSignedData(c, id, l))
  }

  function MsgPlain(c: Crypto, id: Identity, l: Letter): Bytes
    requires CanSend(c, id, l)
  {
    Join(MsgFields(c, id, l) + SignatureFields(MsgSignature(c, id, l)))
  }

  function BuildMsgUnsigned(c: Crypto, id: Identity, recipientPublic: Bytes, l: Letter): Bytes
    requires CanSend(c, id, l)
  {
    Unsigned(l.expires, OBJECT_MSG, 1, l.stream, c.encrypt(MsgPlain(c, id, l), recipientPublic))
  }

  datatype Sender = Sender(version: nat, stream: nat, signingPublic: Bytes, encryptionPublic: Bytes, position: nat)

  datatype Contents = Contents(encoding: nat, message: Bytes, ack: Bytes, position: nat)

  datatype IncomingMessage = IncomingMessage(
    inventoryHash: Bytes, toIdentity: Identity,
    senderVersion: nat, senderStream: nat, senderSigningPublic: Bytes, senderEncryptionPublic: Bytes,
    senderAddress: string, encoding: nat, message: Bytes, ackData: Bytes, expires: nat)

  /** A malformed object, or a sender version no address can be written for. */
  datatype ProcessError = Malformed(error: ParseError) | UnsupportedSender

  function ReadSender(plain: Bytes): Option<Sender> {
    var (version, p1) := TakeVarint(plain, 0);
    if version == 0 || version > 4 then None
    else
      var (stream, p2) := TakeVarint(plain, p1);
      if stream == 0 then None
      else if |plain| < p2 + 4 || |plain| < p2 + 4 + 128 then None
      else
        var signing, encryption := [4] + Window(plain, p2 + 4, 64), [4] + Window(plain, p2 + 68, 64);
        var p3 := p2 + 132;
        if version < 3 then Some(Sender(version, stream, signing, encryption, p3))
        else
          var (ntpb, p4) := TakeVarint(plain, p3);
          var (eb, p5) := TakeVarint(plain, p4);
          if !DifficultyInRange(ntpb, eb) then None
          else Some(Sender(version, stream, signing, encryption, p5))
  }

  function ReadContents(plain: Bytes, position: nat, ripe: Bytes): Option<Contents> {
    if |plain| < position + 20 || Window(plain, position, 20) != ripe then None
    else
      var (encoding, p1) := TakeVarint(plain, position + 20);
      var (messageLength, p2) := TakeVarint(plain, p1);
      if p2 + messageLength > |plain| then None
      else
        var (ackLength, p3) := TakeVarint(plain, p2 + messageLength);
        if p3 + ackLength > |plain| then None
        else Some(Contents(encoding, Window(plain, p2, messageLength), Window(plain, p3, ackLength), p3 + ackLength))
  }

  function ParseMsgPlaintext(c: Crypto, plain: Bytes, obj: Parsed, identity: Identity)
    : Result<Option<IncomingMessage>, ProcessError>
    requires HeaderFits(obj.expires, obj.objectType, 1, obj.stream)
  {
    match ReadSender(plain)
    case None => Ok(None)
    case Some(sender) =>
      match ReadContents(plain, sender.position, identity.ripe)
      case None => Ok(None)
      case Some(contents) =>
        var (signatureLength, p) := TakeVarint(plain, contents.position);
        if p + signatureLength > |plain| then Ok(None)
        else
          var signature := Window(plain, p, signatureLength);
          var signedData := Unsigned(obj.expires, obj.objectType, 1, obj.stream, [])
                            + Window(plain, 0, contents.position);
          if !c.verify(sender.signingPublic, signature, signedData) then Ok(None)
          else
            match Address.EncodeAddress(c.sha512, sender.version, sender.stream,
                                        RipeOf(c, sender.signingPublic, sender.encryptionPublic))
            case Err(_) => Err(UnsupportedSender)
            case Ok(address) =>
              Ok(Some(IncomingMessage(
                obj.inventoryHash, identity, sender.version, sender.stream,
                sender.signingPublic, sender.encryptionPublic, address,
                contents.encoding, contents.message, contents.ack, obj.expires)))
  }

  function Attempt(c: Crypto, obj: Parsed, identity: Identity): Result<Option<IncomingMessage>, ProcessError>
    requires HeaderFits(obj.expires, obj.objectType, 1, obj.stream)
  {
    match c.decrypt(obj.data, identity.encryptionPrivate)
    case None => Ok(None)
    case Some(plain) => ParseMsgPlaintext(c, plain, obj, identity)
  }

  /** The first identity that can decrypt and whose parse succeeds receives the message. */
  function FirstReader(c: Crypto, obj: Parsed, identities: seq<Identity>)
    : Result<Option<IncomingMessage>, ProcessError>
    requires HeaderFits(obj.expires, obj.objectType, 1, obj.stream)
  {
    if identities == [] then Ok(None)
    else if Attempt(c, obj, identities[0]) != Ok(None) then Attempt(c, obj, identities[0])
    else FirstReader(c, obj, identities[1..])
  }

  lemma {:induction false} FirstReaderIs(c: Crypto, obj: Parsed, identities: seq<Identity>, k: nat)
    requires HeaderFits(obj.expires, obj.objectType, 1, obj.stream)
    requires k <= |identities|
    requires forall i :: 0 <= i < k ==> Attempt(c, obj, identities[i]) == Ok(None)
    requires k < |identities| ==> Attempt(c, obj, identities[k]) != Ok(None)
    ensures FirstReader(c, obj, identities) ==
            if k < |identities| then Attempt(c, obj, identities[k]) else Ok(None)
  {
    hide Attempt;
    if k > 0 {
      FirstReaderIs(c, obj, identities[1..], k - 1);
    }
  }

  function ProcessMsg(c: Crypto, raw: Bytes, identities: seq<Identity>)
    : Result<Option<IncomingMessage>, ProcessError>
  {
    match Parse(c.sha512, raw)
    case Err(e) => Err(Malformed(e))
    case Ok(obj) =>
      CompleteOfParse(c.sha512, raw);
      if obj.objectType != OBJECT_MSG || obj.version != 1 then Ok(None)
      else FirstReader(c, obj, identities)
  }

  // ---- what a reader makes of a built message ------------------------------------------

  /** How the sender's part of a message is laid out, for every version: bit field and keys as they stand. */
  function SenderLayout(version: nat, stream: nat, bitfield: Bytes, signing: Bytes, encryption: Bytes, ntpb: nat,
                        eb: nat): (fs: seq<Bytes>)
    requires version < MAX_U64 && stream < MAX_U64 && ntpb < MAX_U64 && eb < MAX_U64
    ensures |fs| == if version < 3 then 5 else 7
  {
    [Varint.EncodeFit(version), Varint.EncodeFit(stream), bitfield, signing, encryption]
    + if version < 3 then [] else [Varint.EncodeFit(ntpb), Varint.EncodeFit(eb)]
  }

  /** A sender's part of any version is read back, or refused exactly for a version that does not exist, stream 0 or,
      from version 3 on, a difficulty out of range. */
  lemma ReadSenderOf(version: nat, stream: nat, bitfield: Bytes, signing: Bytes, encryption: Bytes, ntpb: nat, eb: nat,
                     rest: seq<Bytes>)
    requires version < MAX_U64 && stream < MAX_U64 && ntpb < MAX_U64 && eb < MAX_U64
    requires |bitfield| == 4 && |signing| == |encryption| == 64
    ensures var fs := SenderLayout(version, stream, bitfield, signing, encryption, ntpb, eb) + rest;
      ReadSender(Join(fs)) ==
      if 1 <= version <= 4 && stream >= 1
         && (version >= 3 ==> 1000 <= ntpb <= 1_000_000 && 1000 <= eb <= 1_000_000)
      then Some(Sender(version, stream, [4] + signing, [4] + encryption, Offset(fs, if version < 3 then 5 else 7)))
      else None
  {
    hide Join, Offset, TakeVarint, Window, Varint.EncodeFit;
    var fs := SenderLayout(version, stream, bitfield, signing, encryption, ntpb, eb) + rest;
    OffsetZero(fs);
    TakeAt(fs, 0, version);
    TakeAt(fs, 1, stream);
    SliceAt(fs, 2);
    SliceAt(fs, 3);
    SliceAt(fs, 4);
    if version >= 3 {
      TakeAt(fs, 5, ntpb);
      TakeAt(fs, 6, eb);
    }
  }

  /** Whatever is read as a sender is laid out so. */
  lemma ReadSenderIs(plain: Bytes) returns (bitfield: Bytes, ntpb: nat, eb: nat)
    requires ReadSender(plain).Some?
    ensures ntpb < MAX_U64 && eb < MAX_U64 && |bitfield| == 4
    ensures var s := ReadSender(plain).value;
      && 1 <= s.version <= 4 && 1 <= s.stream < MAX_U64 && s.position <= |plain|
      && IsPublicKey(s.signingPublic) && IsPublicKey(s.encryptionPublic)
      && (s.version >= 3 ==> 1000 <= ntpb <= 1_000_000 && 1000 <= eb <= 1_000_000)
      && plain[..s.position] == Join(SenderLayout(s.version, s.stream, bitfield, s.signingPublic[1..],
                                                  s.encryptionPublic[1..], ntpb, eb))
  {
    hide TakeVarint, Varint.EncodeFit, Join;
    var (version, p1) := TakeVarint(plain, 0);
    TakeSpells(plain, 0);
    var (stream, p2) := TakeVarint(plain, p1);
    TakeSpells(plain, p1);
    var p3 := p2 + 132;
    bitfield, ntpb, eb := plain[p2..p2 + 4], 0, 0;
    var signing, encryption := plain[p2 + 4..p2 + 68], plain[p2 + 68..p3];
    var fs := [plain[..p1], plain[p1..p2], bitfield, signing, encryption];
    JoinFive(plain, p1, p2, p2 + 4, p2 + 68, p3);
    assert [4] + signing == [4] + Window(plain, p2 + 4, 64) && ([4] + signing)[1..] == signing;
    assert [4] + encryption == [4] + Window(plain, p2 + 68, 64) && ([4] + encryption)[1..] == encryption;
    if version < 3 {
      assert fs == SenderLayout(version, stream, bitfield, signing, encryption, 0, 0);
    } else {
      var p4, p5;
      ntpb, p4 := TakeVarint(plain, p3).0, TakeVarint(plain, p3).1;
      TakeSpells(plain, p3);
      eb, p5 := TakeVarint(plain, p4).0, TakeVarint(plain, p4).1;
      TakeSpells(plain, p4);
      JoinTwo(plain, fs, p3, p4, p5);
      assert fs + [plain[p3..p4], plain[p4..p5]] ==
             SenderLayout(version, stream, bitfield, signing, encryption, ntpb, eb);
    }
  }

  lemma JoinFive(plain: Bytes, a: nat, b: nat, c: nat, d: nat, e: nat)
    requires a <= b <= c <= d <= e <= |plain|
    ensures Join([plain[..a], plain[a..b], plain[b..c], plain[c..d], plain[d..e]]) == plain[..e]
  {
    hide Join;
    assert Join([]) == plain[..0] by { JoinNone(); }
    JoinStep(plain, [], 0, a);
    var one := [] + [plain[0..a]];
    JoinStep(plain, one, a, b);
    var two := one + [plain[a..b]];
    JoinStep(plain, two, b, c);
    var three := two + [plain[b..c]];
    JoinStep(plain, three, c, d);
    var four := three + [plain[c..d]];
    JoinStep(plain, four, d, e);
    assert four + [plain[d..e]] == [plain[..a], plain[a..b], plain[b..c], plain[c..d], plain[d..e]];
  }

  lemma JoinNone()
    ensures Join([]) == []
  {
  }

  lemma JoinTwo(plain: Bytes, fs: seq<Bytes>, a: nat, b: nat, c: nat)
    requires a <= b <= c <= |plain| && Join(fs) == plain[..a]
    ensures Join(fs + [plain[a..b], plain[b..c]]) == plain[..c]
  {
    JoinStep(plain, fs, a, b);
    JoinStep(plain, fs + [plain[a..b]], b, c);
    assert fs + [plain[a..b], plain[b..c]] == fs + [plain[a..b]] + [plain[b..c]];
  }

  lemma JoinStep(plain: Bytes, fs: seq<Bytes>, a: nat, b: nat)
    requires a <= b <= |plain| && Join(fs) == plain[..a]
    ensures Join(fs + [plain[a..b]]) == plain[..b]
  {
    assert (fs + [plain[a..b]])[..|fs|] == fs;
  }

  lemma ReadSenderOfFields(id: Identity, stream: nat, bitfield: nat, rest: seq<Bytes>)
    requires IsPublicKey(id.signingPublic) && IsPublicKey(id.encryptionPublic)
    requires 1 <= stream < MAX_U64 && bitfield < MAX_U32
    requires id.nonceTrialsPerByte < MAX_U64 && id.payloadLengthExtraBytes < MAX_U64
    ensures var fs := SenderFields(id, stream, bitfield) + rest;
      ReadSender(Join(fs)) ==
      if AcceptableDifficulty(id)
      then Some(Sender(4, stream, id.signingPublic, id.encryptionPublic, Offset(fs, 7))) else None
  {
    hide Join, Offset, Varint.EncodeFit, BigEndian, ReadSender;
    var signing, encryption := id.signingPublic[1..], id.encryptionPublic[1..];
    var ntpb, eb := Announced(id.nonceTrialsPerByte), Announced(id.payloadLengthExtraBytes);
    ReadSenderOf(4, stream, BigEndian(bitfield, 4), signing, encryption, ntpb, eb, rest);
    assert SenderFields(id, stream, bitfield)
           == SenderLayout(4, stream, BigEndian(bitfield, 4), signing, encryption, ntpb, eb);
    assert [4] + signing == id.signingPublic && [4] + encryption == id.encryptionPublic;
  }

  lemma ReadContentsOfFields(before: seq<Bytes>, l: Letter, rest: seq<Bytes>, ripe: Bytes)
    requires Fits(l)
    ensures var fs := before + LetterFields(l.recipientRipe, l.message, l.encoding, l.ack) + rest;
      ReadContents(Join(fs), Offset(fs, |before|), ripe) ==
      if ripe == l.recipientRipe
      then Some(Contents(l.encoding, l.message, l.ack, Offset(fs, |before| + 6))) else None
  {
    hide Join, Offset, TakeVarint, Window, Varint.EncodeFit;
    var fs := before + LetterFields(l.recipientRipe, l.message, l.encoding, l.ack) + rest;
    var i := |before|;
    SliceAt(fs, i);
    TakeAt(fs, i + 1, l.encoding);
    TakeAt(fs, i + 2, |l.message|);
    SliceAt(fs, i + 3);
    TakeAt(fs, i + 4, |l.ack|);
    SliceAt(fs, i + 5);
  }

  /** Whatever is read as a letter for the key hash is laid out so, after what came before. */
  lemma ReadContentsIs(plain: Bytes, before: seq<Bytes>, position: nat, ripe: Bytes)
    returns (encoding: Bytes, length: Bytes, ackLength: Bytes)
    requires position <= |plain| && Join(before) == plain[..position] && ReadContents(plain, position, ripe).Some?
    ensures var r := ReadContents(plain, position, ripe).value;
      && Spells(encoding, r.encoding) && Spells(length, |r.message|) && Spells(ackLength, |r.ack|)
      && |ripe| == 20 && r.position <= |plain|
      && plain[..r.position] == Join(before + [ripe, encoding, length, r.message, ackLength, r.ack])
  {
    hide TakeVarint, Join, Spells;
    var p0 := position + 20;
    var (_, p1) := TakeVarint(plain, p0);
    TakeSpells(plain, p0);
    var (n, p2) := TakeVarint(plain, p1);
    TakeSpells(plain, p1);
    var (k, p3) := TakeVarint(plain, p2 + n);
    TakeSpells(plain, p2 + n);
    encoding, length, ackLength := plain[p0..p1], plain[p1..p2], plain[p2 + n..p3];
    JoinTwo(plain, before, position, p0, p1);
    var first := before + [plain[position..p0], plain[p0..p1]];
    JoinTwo(plain, first, p1, p2, p2 + n);
    var second := first + [plain[p1..p2], plain[p2..p2 + n]];
    JoinTwo(plain, second, p2 + n, p3, p3 + k);
    assert second + [plain[p2 + n..p3], plain[p3..p3 + k]] ==
           before + [plain[position..p0], plain[p0..p1], plain[p1..p2], plain[p2..p2 + n], plain[p2 + n..p3],
                     plain[p3..p3 + k]];
  }

  /** The signature is read back, and what is checked against it is what was signed. */
  lemma ReadSignatureOfFields(before: seq<Bytes>, signature: Bytes)
    requires |signature| < MAX_U64
    ensures var fs := before + SignatureFields(signature);
      && TakeVarint(Join(fs), Offset(fs, |before|)) == (|signature|, Offset(fs, |before| + 1))
      && Offset(fs, |before| + 1) + |signature| <= |Join(fs)|
      && Window(Join(fs), Offset(fs, |before| + 1), |signature|) == signature
      && Window(Join(fs), 0, Offset(fs, |before|)) == Join(before)
  {
    hide Join, TakeVarint, Varint.EncodeFit;
    var fs := before + SignatureFields(signature);
    TakeAt(fs, |before|, |signature|);
    SliceAt(fs, |before| + 1);
    FieldAt(fs, |before|);
    assert fs[..|before|] == before;
  }

  function Delivered(c: Crypto, id: Identity, l: Letter, reader: Identity, raw: Bytes,
          address: string): IncomingMessage {
    IncomingMessage(DoubleSha512(c.sha512, raw)[..32], reader, 4, l.stream, id.signingPublic, id.encryptionPublic,
                    address, l.encoding, l.message, l.ack, l.expires)
  }

  /** The address a reader attributes the message to: the sender's keys under the object's stream. */
  function AttributedAddress(c: Crypto, id: Identity, l: Letter): (r: Result<string, Address.EncodeError>)
    requires IsIdentity(c, id) && Fits(l)
    ensures r.Ok?
  {
    Address.EncodeAddress(c.sha512, 4, l.stream, id.ripe)
  }

  /** A reader accepts the letter: the sender's difficulty is in range and the signature verifies. */
  predicate Acceptable(c: Crypto, id: Identity, l: Letter)
    requires IsIdentity(c, id) && Fits(l)
  {
    AcceptableDifficulty(id) && c.verify(id.signingPublic, MsgSignature(c, id, l), MsgSignedData(c, id, l))
  }

  lemma ParseOfBuilt(c: Crypto, id: Identity, l: Letter, reader: Identity, obj: Parsed)
    requires CanSend(c, id, l) && l.stream >= 1
    requires HeaderFits(obj.expires, obj.objectType, 1, obj.stream)
    requires obj.expires == l.expires && obj.objectType == OBJECT_MSG && obj.stream == l.stream
    ensures ParseMsgPlaintext(c, MsgPlain(c, id, l), obj, reader) ==
            if Acceptable(c, id, l) && reader.ripe == l.recipientRipe
            then Ok(Some(Delivered(c, id, l, reader, obj.raw, AttributedAddress(c, id, l).value)
                         .(inventoryHash := obj.inventoryHash)))
            else Ok(None)
  {
    hide Join, Offset, TakeVarint, Window, Varint.EncodeFit, ReadSender, ReadContents,
         SenderFields, LetterFields, SignatureFields, Unsigned, DoubleSha512, Address.EncodeAddress;
    var signature := MsgSignature(c, id, l);
    var sender := SenderFields(id, l.stream, l.bitfield);
    var letter := LetterFields(l.recipientRipe, l.message, l.encoding, l.ack);
    var tail := SignatureFields(signature);
    var fs := MsgFields(c, id, l) + tail;
    assert fs == sender + (letter + tail) == sender + letter + tail;
    ReadSenderOfFields(id, l.stream, l.bitfield, letter + tail);
    ReadContentsOfFields(sender, l, tail, reader.ripe);
    ReadSignatureOfFields(MsgFields(c, id, l), signature);
  }

  // ---- nothing but signed messages is delivered ----------------------------------------

  /** The bytes before the signature, field by field, are those of the message. */
  ghost predicate Carries(signed: Bytes, m: IncomingMessage) {
    exists bitfield, ntpb, eb, encoding, length, ackLength ::
      CarriesAs(signed, m, bitfield, ntpb, eb, encoding, length, ackLength)
  }

  ghost predicate CarriesAs(signed: Bytes, m: IncomingMessage, bitfield: Bytes, ntpb: nat, eb: nat, encoding: Bytes,
                            length: Bytes, ackLength: Bytes)
  {
    && m.senderVersion < MAX_U64 && m.senderStream < MAX_U64 && ntpb < MAX_U64 && eb < MAX_U64
    && |bitfield| == 4 && |m.toIdentity.ripe| == 20
    && IsPublicKey(m.senderSigningPublic) && IsPublicKey(m.senderEncryptionPublic)
    && (m.senderVersion >= 3 ==> 1000 <= ntpb <= 1_000_000 && 1000 <= eb <= 1_000_000)
    && Spells(encoding, m.encoding) && Spells(length, |m.message|) && Spells(ackLength, |m.ackData|)
    && signed == Join(SenderLayout(m.senderVersion, m.senderStream, bitfield, m.senderSigningPublic[1..],
                                   m.senderEncryptionPublic[1..], ntpb, eb)
                      + [m.toIdentity.ripe, encoding, length, m.message, ackLength, m.ackData])
  }

  /** The sender's key has signed, for the object with this expiry and stream, a text that carries the message. */
  ghost predicate Genuine(c: Crypto, plain: Bytes, stream: nat, m: IncomingMessage) {
    m.expires < MAX_U64 && stream < MAX_U64
    && exists bottom: nat, signature: Bytes ::
      && bottom <= |plain| && Carries(plain[..bottom], m) && Follows(plain, bottom, signature)
      && c.verify(m.senderSigningPublic, signature, Unsigned(m.expires, 2, 1, stream, []) + plain[..bottom])
  }

  /** The signature stands, after its length, at the place. */
  ghost predicate Follows(plain: Bytes, bottom: nat, signature: Bytes) {
    exists p: nat :: bottom <= p && p + |signature| <= |plain| && Spells(plain[bottom..p], |signature|)
                     && plain[p..p + |signature|] == signature
  }

  /** What a decrypted text is read as was signed by the sender it names, for the identity that reads it. */
  lemma ParseIsGenuine(c: Crypto, plain: Bytes, obj: Parsed, identity: Identity, m: IncomingMessage)
    requires HeaderFits(obj.expires, obj.objectType, 1, obj.stream) && obj.objectType == OBJECT_MSG
    requires ParseMsgPlaintext(c, plain, obj, identity) == Ok(Some(m))
    ensures m.toIdentity == identity && m.expires == obj.expires && m.inventoryHash == obj.inventoryHash
    ensures Genuine(c, plain, obj.stream, m)
    ensures 2 <= m.senderVersion <= 4 && m.senderStream >= 1
    ensures Address.EncodeAddress(c.sha512, m.senderVersion, m.senderStream,
                                  c.ripemd160(c.sha512(m.senderSigningPublic + m.senderEncryptionPublic)))
            == Ok(m.senderAddress)
  {
    hide ReadSender, ReadContents, TakeVarint, Join, Spells, Varint.EncodeFit, SenderLayout, Unsigned,
         Address.EncodeAddress, Follows;
    var sender := ReadSender(plain).value;
    var bitfield, ntpb, eb := ReadSenderIs(plain);
    var layout := SenderLayout(sender.version, sender.stream, bitfield, sender.signingPublic[1..],
                               sender.encryptionPublic[1..], ntpb, eb);
    var encoding, length, ackLength := ReadContentsIs(plain, layout, sender.position, identity.ripe);
    var bottom := ReadContents(plain, sender.position, identity.ripe).value.position;
    var (n, p) := TakeVarint(plain, bottom);
    SignatureFollows(plain, bottom);
    assert CarriesAs(plain[..bottom], m, bitfield, ntpb, eb, encoding, length, ackLength);
    assert Window(plain, 0, bottom) == plain[..bottom];
  }

  lemma SignatureFollows(plain: Bytes, bottom: nat)
    requires bottom <= |plain|
    ensures var (n, p) := TakeVarint(plain, bottom); p + n <= |plain| ==> Follows(plain, bottom, Window(plain, p, n))
  {
    hide TakeVarint, Spells;
    TakeSpells(plain, bottom);
    var (n, p) := TakeVarint(plain, bottom);
    if p + n <= |plain| {
      var signature := Window(plain, p, n);
      assert plain[p..p + |signature|] == signature;
    }
  }

  lemma {:induction false} FirstReaderIsOne(c: Crypto, obj: Parsed, identities: seq<Identity>, m: IncomingMessage)
    returns (k: nat)
    requires HeaderFits(obj.expires, obj.objectType, 1, obj.stream)
    requires FirstReader(c, obj, identities) == Ok(Some(m))
    ensures k < |identities| && Attempt(c, obj, identities[k]) == Ok(Some(m))
    ensures forall i :: 0 <= i < k ==> Attempt(c, obj, identities[i]) == Ok(None)
  {
    hide Attempt;
    if Attempt(c, obj, identities[0]) != Ok(None) {
      k := 0;
    } else {
      k := FirstReaderIsOne(c, obj, identities[1..], m);
      k := k + 1;
    }
  }

  /** No message is delivered that its sender did not sign: of any object whatever, a message read comes from a
      version 1 message object that one of the identities can decrypt, is addressed to that identity, and its fields
      are those that the key it names has signed together with the object's expiry and stream. */
  lemma DeliveredIsGenuine(c: Crypto, raw: Bytes, identities: seq<Identity>, m: IncomingMessage)
    requires ProcessMsg(c, raw, identities) == Ok(Some(m))
    ensures Parse(c.sha512, raw).Ok?
    ensures var obj := Parse(c.sha512, raw).value;
      && obj.objectType == 2 && obj.version == 1
      && m.expires == obj.expires && m.inventoryHash == c.sha512(c.sha512(raw))[..32]
      && m.toIdentity in identities
      && var plain := c.decrypt(obj.data, m.toIdentity.encryptionPrivate);
      && plain.Some? && Genuine(c, plain.value, obj.stream, m)
    ensures Address.EncodeAddress(c.sha512, m.senderVersion, m.senderStream,
                                  c.ripemd160(c.sha512(m.senderSigningPublic + m.senderEncryptionPublic)))
            == Ok(m.senderAddress)
  {
    hide FirstReader, ParseMsgPlaintext, Genuine, Address.EncodeAddress, Parse;
    HashOfParsed(c.sha512, raw);
    var obj := Parse(c.sha512, raw).value;
    CompleteOfParse(c.sha512, raw);
    var k := FirstReaderIsOne(c, obj, identities, m);
    ParseIsGenuine(c, c.decrypt(obj.data, identities[k].encryptionPrivate).value, obj, identities[k], m);
  }

  // ---- the round trip ------------------------------------------------------------------

  /** Every listed identity either cannot open the payload or reads exactly what was sealed. */
  predicate IdealReaders(c: Crypto, sealed: Bytes, plain: Bytes, identities: seq<Identity>) {
    forall i :: 0 <= i < |identities| ==>
      c.decrypt(sealed, identities[i].encryptionPrivate) in {None, Some(plain)}
  }

  predicate Reads(c: Crypto, sealed: Bytes, reader: Identity, ripe: Bytes) {
    c.decrypt(sealed, reader.encryptionPrivate) != None && reader.ripe == ripe
  }

  lemma AttemptOfBuilt(c: Crypto, id: Identity, l: Letter, obj: Parsed, reader: Identity)
    requires CanSend(c, id, l) && l.stream >= 1
    requires HeaderFits(obj.expires, obj.objectType, 1, obj.stream)
    requires obj.expires == l.expires && obj.objectType == OBJECT_MSG && obj.stream == l.stream
    requires obj.inventoryHash == DoubleSha512(c.sha512, obj.raw)[..32]
    requires c.decrypt(obj.data, reader.encryptionPrivate) in {None, Some(MsgPlain(c, id, l))}
    ensures Attempt(c, obj, reader) ==
            if Reads(c, obj.data, reader, l.recipientRipe) && Acceptable(c, id, l)
            then Ok(Some(Delivered(c, id, l, reader, obj.raw, AttributedAddress(c, id, l).value)))
            else Ok(None)
  {
    hide ParseMsgPlaintext, MsgPlain, MsgSignature, MsgSignedData, DoubleSha512, AttributedAddress;
    ParseOfBuilt(c, id, l, reader, obj);
  }

  lemma FirstReaderOfBuilt(c: Crypto, id: Identity, l: Letter, obj: Parsed, identities: seq<Identity>, k: nat)
    requires CanSend(c, id, l) && l.stream >= 1
    requires HeaderFits(obj.expires, obj.objectType, 1, obj.stream)
    requires obj.expires == l.expires && obj.objectType == OBJECT_MSG && obj.stream == l.stream
    requires obj.inventoryHash == DoubleSha512(c.sha512, obj.raw)[..32]
    requires IdealReaders(c, obj.data, MsgPlain(c, id, l), identities)
    requires k < |identities| && Reads(c, obj.data, identities[k], l.recipientRipe)
    requires forall i :: 0 <= i < k ==> !Reads(c, obj.data, identities[i], l.recipientRipe)
    ensures FirstReader(c, obj, identities) ==
            if Acceptable(c, id, l)
            then Ok(Some(Delivered(c, id, l, identities[k], obj.raw, AttributedAddress(c, id, l).value)))
            else Ok(None)
  {
    hide Attempt, MsgPlain, MsgSignature, MsgSignedData, DoubleSha512, AttributedAddress, FirstReader,
         IsIdentity, Fits, Acceptable;
    var n := if Acceptable(c, id, l) then k else |identities|;
    forall i | 0 <= i < n
      ensures Attempt(c, obj, identities[i]) == Ok(None)
    {
      AttemptOfBuilt(c, id, l, obj, identities[i]);
    }
    AttemptOfBuilt(c, id, l, obj, identities[k]);
    FirstReaderIs(c, obj, identities, n);
  }

  /** What a delivery takes for granted: encryption is ideal, and the `k`-th listed identity is the first one the
      message is addressed to. */
  ghost predicate Delivers(c: Crypto, id: Identity, recipientPublic: Bytes, l: Letter, identities: seq<Identity>,
          k: nat) {
    && CanSend(c, id, l) && l.stream >= 1
    && k < |identities| && Opens(c, identities[k].encryptionPrivate, recipientPublic)
    && identities[k].ripe == l.recipientRipe
    && var plain := MsgPlain(c, id, l);
       var sealed := c.encrypt(plain, recipientPublic);
       && IdealReaders(c, sealed, plain, identities)
       && forall i :: 0 <= i < k ==> !Reads(c, sealed, identities[i], l.recipientRipe)
  }

  /** The whole trip of a message: the first identity it is addressed to gets every field back,
      exactly when the object is within the size limit, the sender's announced difficulty in range, and the signature
      verifies. */
  lemma MessageRoundTrip(c: Crypto, id: Identity, recipientPublic: Bytes, l: Letter, nonce: nat,
                         identities: seq<Identity>, k: nat)
    requires Delivers(c, id, recipientPublic, l, identities, k)
    ensures var raw := Complete(BuildMsgUnsigned(c, id, recipientPublic, l), nonce);
      ProcessMsg(c, raw, identities) ==
      if |raw| > MAX_OBJECT_LENGTH + 64 then Err(Malformed(ObjectTooLarge))
      else if !Acceptable(c, id, l) then Ok(None)
      else Ok(Some(Delivered(c, id, l, identities[k], raw, AttributedAddress(c, id, l).value)))
  {
    hide MsgPlain, MsgSignature, MsgSignedData, DoubleSha512, AttributedAddress, FirstReader, Attempt, Parse, Unsigned,
         Acceptable, IsIdentity, IdealReaders;
    var raw := Complete(BuildMsgUnsigned(c, id, recipientPublic, l), nonce);
    var sealed := c.encrypt(MsgPlain(c, id, l), recipientPublic);
    ParseOfComplete(c.sha512, nonce, l.expires, OBJECT_MSG, 1, l.stream, sealed);
    if |raw| <= MAX_OBJECT_LENGTH + 64 {
      var obj := Parse(c.sha512, raw).value;
      FirstReaderOfBuilt(c, id, l, obj, identities, k);
    }
  }

  const MAX_WIRE_BODY_BYTES := 200_000

  lemma SenderFieldsLength(id: Identity, stream: nat, bitfield: nat, rest: seq<Bytes>)
    requires IsPublicKey(id.signingPublic) && IsPublicKey(id.encryptionPublic)
    requires stream < MAX_U64 && bitfield < MAX_U32
    requires id.nonceTrialsPerByte < MAX_U64 && id.payloadLengthExtraBytes < MAX_U64
    ensures Offset(SenderFields(id, stream, bitfield) + rest, 7) <= 160
  {
    hide Join, Offset, BigEndian, Varint.Encode;
    var fs := SenderFields(id, stream, bitfield) + rest;
    OffsetZero(fs);
    forall i | 0 <= i < 7
      ensures Offset(fs, i + 1) == Offset(fs, i) + |fs[i]|
    {
      SliceAt(fs, i);
    }
    assert Offset(fs, 4) == Offset(fs, 3) + 64;
    assert Offset(fs, 5) == Offset(fs, 4) + 64;
    assert Offset(fs, 3) == Offset(fs, 2) + 4;
    assert Offset(fs, 2) == Offset(fs, 1) + |fs[1]|;
    assert Offset(fs, 1) == Offset(fs, 0) + 1;
    assert Offset(fs, 6) == Offset(fs, 5) + |fs[5]|;
    assert Offset(fs, 7) == Offset(fs, 6) + |fs[6]|;
  }

  /** Every body within the wire limit, with an acknowledgement packet and a signature of the sizes
      the client makes, gives an object within the network's size limit. */
  lemma BodyWithinLimitFits(c: Crypto, id: Identity, recipientPublic: Bytes, l: Letter, nonce: nat)
    requires CanSend(c, id, l) && SealsInBlocks(c)
    requires |l.message| <= MAX_WIRE_BODY_BYTES && |l.ack| <= 86 && |MsgSignature(c, id, l)| <= 72
    ensures |Complete(BuildMsgUnsigned(c, id, recipientPublic, l), nonce)| <= MAX_OBJECT_LENGTH
  {
    hide Join, Offset, BigEndian, Varint.Encode, SenderFields, MsgSignature, Address.EncodeAddress;
    var signature := MsgSignature(c, id, l);
    var letter, tail := LetterFields(l.recipientRipe, l.message, l.encoding, l.ack), SignatureFields(signature);
    var fs := MsgFields(c, id, l) + tail;
    assert fs == SenderFields(id, l.stream, l.bitfield) + (letter + tail);
    SenderFieldsLength(id, l.stream, l.bitfield, letter + tail);
    forall i | 0 <= i < 15
      ensures Offset(fs, i + 1) == Offset(fs, i) + |fs[i]|
    {
      SliceAt(fs, i);
    }
    OffsetEnd(fs);
    assert Offset(fs, 8) == Offset(fs, 7) + |letter[0]| && Offset(fs, 9) == Offset(fs, 8) + |letter[1]|;
    assert Offset(fs, 10) == Offset(fs, 9) + |letter[2]| && Offset(fs, 11) == Offset(fs, 10) + |letter[3]|;
    assert Offset(fs, 12) == Offset(fs, 11) + |letter[4]| && Offset(fs, 13) == Offset(fs, 12) + |letter[5]|;
    assert Offset(fs, 14) == Offset(fs, 13) + |tail[0]| && Offset(fs, 15) == Offset(fs, 14) + |tail[1]|;
  }

  /** The reader attributes a message to the sender's own address exactly when the object travels in
      the sender's stream: the builder writes the object's stream where the sender's belongs. */
  lemma SenderAddressIsOwn(c: Crypto, id: Identity, l: Letter)
    requires IsIdentity(c, id) && Fits(l)
    ensures AttributedAddress(c, id, l).value == id.address <==> l.stream == id.stream
  {
    if AttributedAddress(c, id, l).value == id.address {
      Address.EncodeInjective(c.sha512, l.stream, id.ripe, id.stream, id.ripe);
    }
  }

  // ---- keys derived from an address ----------------------------------------------------

  datatype AddressKeys = AddressKeys(address: string, stream: nat, ripe: Bytes, tag: Bytes, encryptionPrivate: Bytes)

  /** `AddressKeys.from_address`: everything a stranger can derive from the text alone. */
  function KeysOfAddress(c: Crypto, address: string): (keys: Option<AddressKeys>)
    ensures keys.Some? ==> 1 <= keys.value.stream < MAX_U64 && |keys.value.tag| == 32
  {
    match Address.DecodeAddress(c.sha512, address)
    case Err(_) => None
    case Ok(d) =>
      if d.version != 4 then None
      else
        var h := AddressHash(c, d.stream, d.ripe);
        Some(AddressKeys(address, d.stream, d.ripe, h[32..], h[..32]))
  }

  /** The owner and a stranger who only has the address derive the same tag and key. */
  lemma KeysOfOwnAddress(c: Crypto, id: Identity)
    requires IsIdentity(c, id) && !AllZero(id.ripe)
    ensures var h := AddressHash(c, id.stream, id.ripe);
      KeysOfAddress(c, id.address) == Some(AddressKeys(id.address, id.stream, id.ripe, h[32..], h[..32]))
  {
    hide Address.DecodeAddress, Address.EncodeAddress;
    Address.DecodeOfEncode(c.sha512, 4, id.stream, id.ripe);
  }

  // ---- published keys ------------------------------------------------------------------

  predicate CanPublish(c: Crypto, id: Identity, expires: nat, bitfield: nat) {
    && IsIdentity(c, id) && expires < MAX_U64 && bitfield < MAX_U32
    && |PubkeySignature(c, id, expires, bitfield)| < MAX_U64
  }

  function PubkeyFields(c: Crypto, id: Identity, bitfield: nat): (fs: seq<Bytes>)
    requires IsIdentity(c, id) && bitfield < MAX_U32
    ensures |fs| == 5
  {
    SenderFields(id, id.stream, bitfield)[2..]
  }

  function PubkeyHeader(c: Crypto, id: Identity, expires: nat, data: Bytes): Bytes
    requires IsIdentity(c, id) && expires < MAX_U64
  {
    Unsigned(expires, OBJECT_PUBKEY, 4, id.stream, AddressHash(c, id.stream, id.ripe)[32..] + data)
  }

  function PubkeySignedData(c: Crypto, id: Identity, expires: nat, bitfield: nat): Bytes
    requires IsIdentity(c, id) && expires < MAX_U64 && bitfield < MAX_U32
  {
    PubkeyHeader(c, id, expires, []) + Join(PubkeyFields(c, id, bitfield))
  }

  function PubkeySignature(c: Crypto, id: Identity, expires: nat, bitfield: nat): Bytes
    requires IsIdentity(c, id) && expires < MAX_U64 && bitfield < MAX_U32
  {
    c.sign(id.signingPrivate, PubkeySignedData(c, id, expires, bitfield))
  }

  function PubkeyPlain(c: Crypto, id: Identity, expires: nat, bitfield: nat): Bytes
    requires CanPublish(c, id, expires, bitfield)
  {
    Join(PubkeyFields(c, id, bitfield) + SignatureFields(PubkeySignature(c, id, expires, bitfield)))
  }

  /** Sealed so that whoever knows the address can open it. */
  function SealedForAddress(c: Crypto, id: Identity, plain: Bytes): Bytes
    requires id.stream < MAX_U64
  {
    c.encrypt(plain, c.publicPoint(AddressHash(c, id.stream, id.ripe)[..32]))
  }

  function BuildPubkeyUnsigned(c: Crypto, id: Identity, expires: nat, bitfield: nat): Bytes
    requires CanPublish(c, id, expires, bitfield)
  {
    PubkeyHeader(c, id, expires, []) + SealedForAddress(c, id, PubkeyPlain(c, id, expires, bitfield))
  }

  datatype IncomingPubkey = IncomingPubkey(
    address: string, signingPublic: Bytes, encryptionPublic: Bytes,
    nonceTrialsPerByte: nat, payloadLengthExtraBytes: nat, inventoryHash: Bytes, expires: nat)

  function ParsePubkeyPlaintext(c: Crypto, plain: Bytes, signedSoFar: Bytes, obj: Parsed, keys: AddressKeys)
    : Option<IncomingPubkey>
  {
    var signing, encryption := [4] + Window(plain, 4, 64), [4] + Window(plain, 68, 64);
    var (ntpb, p1) := TakeVarint(plain, 132);
    var (eb, p2) := TakeVarint(plain, p1);
    var (signatureLength, p3) := TakeVarint(plain, p2);
    var signature := Window(plain, p3, signatureLength);
    if !c.verify(signing, signature, signedSoFar + Window(plain, 0, p2)) then None
    else if RipeOf(c, signing, encryption) != keys.ripe then None
    else if !DifficultyInRange(ntpb, eb) then None
    else Some(IncomingPubkey(keys.address, signing, encryption, ntpb, eb, obj.inventoryHash, obj.expires))
  }

  function ProcessPubkey(c: Crypto, raw: Bytes, keys: AddressKeys): Result<Option<IncomingPubkey>, ProcessError> {
    match Parse(c.sha512, raw)
    case Err(e) => Err(Malformed(e))
    case Ok(obj) =>
      if obj.objectType != OBJECT_PUBKEY || obj.version != 4 then Ok(None)
      else if |obj.data| < 32 + IV_LEN + R_LEN + MAC_LEN + 16 then Ok(None)
      else if obj.data[..32] != keys.tag then Ok(None)
      else
        CompleteOfParse(c.sha512, raw);
        var position := 20 + |Varint.EncodeFit(obj.version)| + |Varint.EncodeFit(obj.stream)|;
        match c.decrypt(obj.data[32..], keys.encryptionPrivate)
        case None => Ok(None)
        case Some(plain) => Ok(ParsePubkeyPlaintext(c, plain, Window(raw, 8, position + 32 - 8), obj, keys))
  }

  /** A reader accepts the publication: the difficulty is in range and the signature verifies. */
  predicate PubkeyAcceptable(c: Crypto, id: Identity, expires: nat, bitfield: nat)
    requires IsIdentity(c, id) && expires < MAX_U64 && bitfield < MAX_U32
  {
    && AcceptableDifficulty(id)
    && c.verify(id.signingPublic, PubkeySignature(c, id, expires, bitfield),
                PubkeySignedData(c, id, expires, bitfield))
  }

  lemma ParseOfPublished(c: Crypto, id: Identity, expires: nat, bitfield: nat, obj: Parsed, keys: AddressKeys)
    requires CanPublish(c, id, expires, bitfield)
    requires keys.ripe == id.ripe && obj.expires == expires
    ensures ParsePubkeyPlaintext(c, PubkeyPlain(c, id, expires, bitfield), PubkeyHeader(c, id, expires, []), obj,
                                 keys) ==
            if PubkeyAcceptable(c, id, expires, bitfield)
            then Some(IncomingPubkey(keys.address, id.signingPublic, id.encryptionPublic,
                                     Announced(id.nonceTrialsPerByte), Announced(id.payloadLengthExtraBytes),
                                     obj.inventoryHash, expires))
            else None
  {
    hide Join, Offset, TakeVarint, Window, Varint.EncodeFit, BigEndian, PubkeyHeader, Address.EncodeAddress, RipeOf;
    var signature := PubkeySignature(c, id, expires, bitfield);
    var fields := PubkeyFields(c, id, bitfield);
    var fs := fields + SignatureFields(signature);
    OffsetZero(fs);
    SliceAt(fs, 0);
    SliceAt(fs, 1);
    SliceAt(fs, 2);
    TakeAt(fs, 3, Announced(id.nonceTrialsPerByte));
    TakeAt(fs, 4, Announced(id.payloadLengthExtraBytes));
    ReadSignatureOfFields(fields, signature);
    assert [4] + id.signingPublic[1..] == id.signingPublic;
    assert [4] + id.encryptionPublic[1..] == id.encryptionPublic;
  }

  /** Appending to the data of an unsigned object appends to the object. */
  lemma UnsignedAppend(expires: nat, objectType: nat, version: nat, stream: nat, a: Bytes, b: Bytes)
    requires HeaderFits(expires, objectType, version, stream)
    ensures Unsigned(expires, objectType, version, stream, a) + b ==
        Unsigned(expires, objectType, version, stream, a + b)
  {
    hide BigEndian, Varint.EncodeFit;
  }

  /** The bytes between nonce and end of a 32-byte tag are the unsigned header with that tag. */
  lemma SignedSoFar(nonce: nat, expires: nat, objectType: nat, version: nat, stream: nat, tag: Bytes, rest: Bytes)
    requires HeaderFits(expires, objectType, version, stream) && |tag| == 32
    ensures var raw := Complete(Unsigned(expires, objectType, version, stream, tag) + rest, nonce);
      Window(raw, 8, 20 + |Varint.EncodeFit(version)| + |Varint.EncodeFit(stream)| + 32 - 8)
      == Unsigned(expires, objectType, version, stream, tag)
  {
    hide Varint.EncodeFit, BigEndian;
    var unsigned := Unsigned(expires, objectType, version, stream, tag);
    var raw := Complete(unsigned + rest, nonce);
    assert |unsigned| == 12 + |Varint.EncodeFit(version)| + |Varint.EncodeFit(stream)| + 32;
    assert raw[8..8 + |unsigned|] == unsigned;
  }

  /** A published key comes back whole to anyone who holds the address, exactly when the object is
      within the size limit, its difficulty in range and its signature verifies. */
  lemma PubkeyRoundTrip(c: Crypto, id: Identity, expires: nat, bitfield: nat, nonce: nat)
    requires CanPublish(c, id, expires, bitfield) && !AllZero(id.ripe)
    requires var private := AddressHash(c, id.stream, id.ripe)[..32]; Opens(c, private, c.publicPoint(private))
    requires SealsInBlocks(c)
    ensures var raw := Complete(BuildPubkeyUnsigned(c, id, expires, bitfield), nonce);
      var keys := KeysOfAddress(c, id.address);
      && keys.Some?
      && ProcessPubkey(c, raw, keys.value) ==
         if |raw| > MAX_OBJECT_LENGTH + 64 then Err(Malformed(ObjectTooLarge))
         else if !PubkeyAcceptable(c, id, expires, bitfield) then Ok(None)
         else Ok(Some(IncomingPubkey(id.address, id.signingPublic, id.encryptionPublic,
                                     Announced(id.nonceTrialsPerByte), Announced(id.payloadLengthExtraBytes),
                                     DoubleSha512(c.sha512, raw)[..32], expires)))
  {
    hide PubkeyPlain, PubkeySignature, PubkeySignedData, DoubleSha512, Parse, Unsigned, KeysOfAddress, ProcessPubkey,
         ParsePubkeyPlaintext, Varint.EncodeFit, AddressHash, Address.EncodeAddress, RipeOf, AllZero, Opens,
         PubkeyAcceptable;
    KeysOfOwnAddress(c, id);
    var keys := KeysOfAddress(c, id.address).value;
    var sealed := SealedForAddress(c, id, PubkeyPlain(c, id, expires, bitfield));
    var raw := Complete(BuildPubkeyUnsigned(c, id, expires, bitfield), nonce);
    assert keys.tag + [] == keys.tag;
    UnsignedAppend(expires, OBJECT_PUBKEY, 4, id.stream, keys.tag, sealed);
    ParseOfComplete(c.sha512, nonce, expires, OBJECT_PUBKEY, 4, id.stream, keys.tag + sealed);
    if |raw| <= MAX_OBJECT_LENGTH + 64 {
      var obj := Parse(c.sha512, raw).value;
      SignedSoFar(nonce, expires, OBJECT_PUBKEY, 4, id.stream, keys.tag, sealed);
      SealedOpens(c, keys.encryptionPrivate, c.publicPoint(keys.encryptionPrivate),
          PubkeyPlain(c, id, expires, bitfield));
      ReadPubkey(c, raw, obj, keys, sealed, PubkeyPlain(c, id, expires, bitfield));
      ParseOfPublished(c, id, expires, bitfield, obj, keys);
    } else {
      MalformedPubkey(c, raw, keys);
    }
  }

  lemma SealedOpens(c: Crypto, private: Bytes, public: Bytes, plain: Bytes)
    requires Opens(c, private, public) && SealsInBlocks(c)
    ensures var sealed := c.encrypt(plain, public);
      c.decrypt(sealed, private) == Some(plain) && |sealed| >= IV_LEN + R_LEN + MAC_LEN + 16
  {
  }

  lemma MalformedPubkey(c: Crypto, raw: Bytes, keys: AddressKeys)
    requires Parse(c.sha512, raw).Err?
    ensures ProcessPubkey(c, raw, keys) == Err(Malformed(Parse(c.sha512, raw).error))
  {
    hide Parse;
  }

  /** An object of the right kind that carries the tag and opens is read. */
  lemma ReadPubkey(c: Crypto, raw: Bytes, obj: Parsed, keys: AddressKeys, sealed: Bytes, plain: Bytes)
    requires Parse(c.sha512, raw) == Ok(obj) && obj.objectType == OBJECT_PUBKEY && obj.version == 4
    requires |keys.tag| == 32 && obj.data == keys.tag + sealed && |sealed| >= IV_LEN + R_LEN + MAC_LEN + 16
    requires c.decrypt(sealed, keys.encryptionPrivate) == Some(plain)
    ensures obj.stream < MAX_U64
    ensures var position := 20 + |Varint.EncodeFit(4)| + |Varint.EncodeFit(obj.stream)|;
      ProcessPubkey(c, raw, keys) == Ok(ParsePubkeyPlaintext(c, plain, Window(raw, 8, position + 32 - 8), obj, keys))
  {
    hide Parse, ParsePubkeyPlaintext, Varint.EncodeFit, Window, Unsigned;
    CompleteOfParse(c.sha512, raw);
    assert obj.data[..32] == keys.tag && obj.data[32..] == sealed;
  }

  lemma TakeNonzero(blob: Bytes, position: nat)
    requires TakeVarint(blob, position).0 != 0
    ensures position < |blob|
  {
  }

  /** The key has signed, with the header and tag of the object, a text that holds the keys and the difficulty. */
  ghost predicate GenuineKey(c: Crypto, plain: Bytes, stream: nat, tag: Bytes, key: IncomingPubkey) {
    && key.expires < MAX_U64 && stream < MAX_U64
    && key.nonceTrialsPerByte < MAX_U64 && key.payloadLengthExtraBytes < MAX_U64
    && IsPublicKey(key.signingPublic) && IsPublicKey(key.encryptionPublic)
    && exists bottom: nat, signature: Bytes ::
      && 4 <= bottom <= |plain| && IsSlice(plain, bottom, signature)
      && plain[..bottom] == plain[..4] + key.signingPublic[1..] + key.encryptionPublic[1..]
                            + Varint.EncodeFit(key.nonceTrialsPerByte) + Varint.EncodeFit(key.payloadLengthExtraBytes)
      && c.verify(key.signingPublic, signature, Unsigned(key.expires, 1, 4, stream, tag) + plain[..bottom])
  }

  /** The signature stands somewhere after the place. */
  ghost predicate IsSlice(plain: Bytes, bottom: nat, signature: Bytes) {
    exists p: nat :: bottom <= p <= |plain| && signature <= plain[p..]
  }

  lemma SliceOfWindow(plain: Bytes, bottom: nat, p: nat, n: nat)
    requires bottom <= p <= |plain|
    ensures IsSlice(plain, bottom, Window(plain, p, n))
  {
    assert Window(plain, p, n) <= plain[p..];
  }

  lemma ParseIsGenuineKey(c: Crypto, plain: Bytes, tag: Bytes, obj: Parsed, keys: AddressKeys, key: IncomingPubkey)
    requires HeaderFits(obj.expires, OBJECT_PUBKEY, 4, obj.stream)
    requires ParsePubkeyPlaintext(c, plain, Unsigned(obj.expires, OBJECT_PUBKEY, 4, obj.stream, tag), obj, keys)
             == Some(key)
    ensures key.address == keys.address && key.expires == obj.expires && key.inventoryHash == obj.inventoryHash
    ensures c.ripemd160(c.sha512(key.signingPublic + key.encryptionPublic)) == keys.ripe
    ensures 1000 <= key.nonceTrialsPerByte <= 1_000_000 && 1000 <= key.payloadLengthExtraBytes <= 1_000_000
    ensures GenuineKey(c, plain, obj.stream, tag, key)
  {
    hide TakeVarint, Unsigned, Varint.EncodeFit;
    var (ntpb, p1) := TakeVarint(plain, 132);
    TakeNonzero(plain, 132);
    TakeSpells(plain, 132);
    var (eb, p2) := TakeVarint(plain, p1);
    TakeSpells(plain, p1);
    var (n, p3) := TakeVarint(plain, p2);
    TakeSpells(plain, p2);
    SliceOfWindow(plain, p2, p3, n);
    assert plain[..p2] == plain[..4] + plain[4..68] + plain[68..132] + plain[132..p1] + plain[p1..p2];
    assert Window(plain, 0, p2) == plain[..p2];
    assert key.signingPublic[1..] == plain[4..68] && key.encryptionPublic[1..] == plain[68..132];
  }

  /** No key is learned that is not the owner's: of any object whatever, keys read for an address come from a version
      4 publication under the address's tag, hash to the address's key hash, and were signed with themselves. */
  lemma LearnedIsGenuine(c: Crypto, raw: Bytes, keys: AddressKeys, key: IncomingPubkey)
    requires ProcessPubkey(c, raw, keys) == Ok(Some(key))
    ensures Parse(c.sha512, raw).Ok? && |Parse(c.sha512, raw).value.data| >= 32
    ensures var obj := Parse(c.sha512, raw).value;
      && obj.objectType == 1 && obj.version == 4 && obj.data[..32] == keys.tag
      && key.address == keys.address && key.expires == obj.expires
      && key.inventoryHash == c.sha512(c.sha512(raw))[..32]
      && var plain := c.decrypt(obj.data[32..], keys.encryptionPrivate);
      && plain.Some? && GenuineKey(c, plain.value, obj.stream, keys.tag, key)
    ensures c.ripemd160(c.sha512(key.signingPublic + key.encryptionPublic)) == keys.ripe
    ensures 1000 <= key.nonceTrialsPerByte <= 1_000_000 && 1000 <= key.payloadLengthExtraBytes <= 1_000_000
  {
    hide ParsePubkeyPlaintext, GenuineKey, Varint.EncodeFit, Window, Unsigned, Parse, Complete;
    CompleteOfParse(c.sha512, raw);
    HashOfParsed(c.sha512, raw);
    var obj := Parse(c.sha512, raw).value;
    UnsignedAppend(obj.expires, 1, 4, obj.stream, keys.tag, obj.data[32..]);
    assert obj.data == keys.tag + obj.data[32..];
    SignedSoFar(FromBigEndian(obj.nonce), obj.expires, 1, 4, obj.stream, keys.tag, obj.data[32..]);
    ParseIsGenuineKey(c, c.decrypt(obj.data[32..], keys.encryptionPrivate).value, keys.tag, obj, keys, key);
  }

  // ---- broadcasts ---------------------------------------------------------------------

  predicate BroadcastFits(l: Letter, id: Identity) {
    Fits(l) && l.stream == id.stream
  }

  predicate CanBroadcast(c: Crypto, id: Identity, l: Letter) {
    IsIdentity(c, id) && BroadcastFits(l, id) && |BroadcastSignature(c, id, l)| < MAX_U64
  }

  function BodyFields(message: Bytes, encoding: nat): (fs: seq<Bytes>)
    requires encoding < MAX_U64 && |message| < MAX_U64
    ensures |fs| == 3
  {
    [Varint.EncodeFit(encoding), Varint.EncodeFit(|message|), message]
  }

  function BroadcastFields(c: Crypto, id: Identity, l: Letter): seq<Bytes>
    requires IsIdentity(c, id) && BroadcastFits(l, id)
  {
    SenderFields(id, l.stream, l.bitfield) + BodyFields(l.message, l.encoding)
  }

  function BroadcastHeader(c: Crypto, id: Identity, expires: nat): Bytes
    requires IsIdentity(c, id) && expires < MAX_U64
  {
    Unsigned(expires, OBJECT_BROADCAST, 5, id.stream, AddressHash(c, id.stream, id.ripe)[32..])
  }

  function BroadcastSignedData(c: Crypto, id: Identity, l: Letter): Bytes
    requires IsIdentity(c, id) && BroadcastFits(l, id)
  {
    BroadcastHeader(c, id, l.expires) + Join(BroadcastFields(c, id, l))
  }

  function BroadcastSignature(c: Crypto, id: Identity, l: Letter): Bytes
    requires IsIdentity(c, id) && BroadcastFits(l, id)
  {
    c.sign(id.signingPrivate, BroadcastSignedData(c, id, l))
  }

  function BroadcastPlain(c: Crypto, id: Identity, l: Letter): Bytes
    requires CanBroadcast(c, id, l)
  {
    Join(BroadcastFields(c, id, l) + SignatureFields(BroadcastSignature(c, id, l)))
  }

  function BuildBroadcastUnsigned(c: Crypto, id: Identity, l: Letter): Bytes
    requires CanBroadcast(c, id, l)
  {
    BroadcastHeader(c, id, l.expires) + SealedForAddress(c, id, BroadcastPlain(c, id, l))
  }

  datatype IncomingBroadcast = IncomingBroadcast(
    inventoryHash: Bytes, address: string, encoding: nat, message: Bytes, expires: nat,
    senderVersion: nat, senderStream: nat)

  /** Broadcasts come from version 4 addresses only and always carry a difficulty. */
  function ReadBroadcaster(plain: Bytes): (r: Option<Sender>)
    ensures r.Some? ==> r.value.stream < MAX_U64
  {
    var (version, p1) := TakeVarint(plain, 0);
    if version != 4 then None
    else
      var (stream, p2) := TakeVarint(plain, p1);
      if stream == 0 || |plain| < p2 + 4 + 128 then None
      else
        var signing, encryption := [4] + Window(plain, p2 + 4, 64), [4] + Window(plain, p2 + 68, 64);
        var (ntpb, p3) := TakeVarint(plain, p2 + 132);
        var (eb, p4) := TakeVarint(plain, p3);
        if !DifficultyInRange(ntpb, eb) then None
        else Some(Sender(version, stream, signing, encryption, p4))
  }

  /** Encoding, message and where it ends; encoding 0 asks to be ignored. */
  function ReadBody(plain: Bytes, position: nat): Option<(nat, Bytes, nat)> {
    var (encoding, p1) := TakeVarint(plain, position);
    if encoding == 0 then None
    else
      var (length, p2) := TakeVarint(plain, p1);
      if p2 + length > |plain| then None
      else Some((encoding, Window(plain, p2, length), p2 + length))
  }

  function FinishBroadcast(c: Crypto, obj: Parsed, tag: Bytes, plain: Bytes)
    : Result<Option<IncomingBroadcast>, ProcessError>
    requires HeaderFits(obj.expires, obj.objectType, 5, obj.stream)
  {
    match ReadBroadcaster(plain)
    case None => Ok(None)
    case Some(sender) =>
      match ReadBody(plain, sender.position)
      case None => Ok(None)
      case Some((encoding, message, bottom)) =>
        var (signatureLength, p) := TakeVarint(plain, bottom);
        var signature := Window(plain, p, signatureLength);
        var signedData := Unsigned(obj.expires, obj.objectType, 5, obj.stream, tag) + Window(plain, 0, bottom);
        if !c.verify(sender.signingPublic, signature, signedData) then Ok(None)
        else
          var ripe := RipeOf(c, sender.signingPublic, sender.encryptionPublic);
          if AddressHash(c, sender.stream, ripe)[32..] != tag then Ok(None)
          else
            match Address.EncodeAddress(c.sha512, sender.version, sender.stream, ripe)
            case Err(_) => Err(UnsupportedSender)
            case Ok(address) =>
              Ok(Some(IncomingBroadcast(obj.inventoryHash, address, encoding, message, obj.expires,
                                        sender.version, sender.stream)))
  }

  function ProcessBroadcast(c: Crypto, raw: Bytes, subscriptions: map<Bytes, AddressKeys>)
    : Result<Option<IncomingBroadcast>, ProcessError>
  {
    match Parse(c.sha512, raw)
    case Err(e) => Err(Malformed(e))
    case Ok(obj) =>
      if obj.objectType != OBJECT_BROADCAST || obj.version != 5 || |obj.data| < 32 then Ok(None)
      else
        var tag := obj.data[..32];
        if tag !in subscriptions then Ok(None)
        else
          CompleteOfParse(c.sha512, raw);
          match c.decrypt(obj.data[32..], subscriptions[tag].encryptionPrivate)
          case None => Ok(None)
          case Some(plain) => FinishBroadcast(c, obj, tag, plain)
  }

  /** A broadcaster is a sender of version 4. */
  lemma BroadcasterIsSender(plain: Bytes)
    ensures ReadBroadcaster(plain) ==
            if ReadSender(plain).Some? && ReadSender(plain).value.version == 4 then ReadSender(plain) else None
  {
    hide TakeVarint, Window;
  }

  lemma ReadBroadcasterOfFields(id: Identity, stream: nat, bitfield: nat, rest: seq<Bytes>)
    requires IsPublicKey(id.signingPublic) && IsPublicKey(id.encryptionPublic)
    requires 1 <= stream < MAX_U64 && bitfield < MAX_U32
    requires id.nonceTrialsPerByte < MAX_U64 && id.payloadLengthExtraBytes < MAX_U64
    ensures var fs := SenderFields(id, stream, bitfield) + rest;
      ReadBroadcaster(Join(fs)) ==
      if AcceptableDifficulty(id)
      then Some(Sender(4, stream, id.signingPublic, id.encryptionPublic, Offset(fs, 7))) else None
  {
    hide Join, Offset, ReadSender, ReadBroadcaster, SenderFields;
    BroadcasterIsSender(Join(SenderFields(id, stream, bitfield) + rest));
    ReadSenderOfFields(id, stream, bitfield, rest);
  }

  lemma ReadBodyOfFields(before: seq<Bytes>, message: Bytes, encoding: nat, rest: seq<Bytes>)
    requires encoding < MAX_U64 && |message| < MAX_U64
    ensures var fs := before + BodyFields(message, encoding) + rest;
      ReadBody(Join(fs), Offset(fs, |before|)) ==
      if encoding == 0 then None else Some((encoding, message, Offset(fs, |before| + 3)))
  {
    hide Join, Offset, TakeVarint, Window, Varint.EncodeFit;
    var fs := before + BodyFields(message, encoding) + rest;
    var i := |before|;
    TakeAt(fs, i, encoding);
    TakeAt(fs, i + 1, |message|);
    SliceAt(fs, i + 2);
  }

  /** A reader accepts the broadcast: the difficulty is in range, it does not ask to be ignored and the signature
      verifies. */
  predicate BroadcastAcceptable(c: Crypto, id: Identity, l: Letter)
    requires IsIdentity(c, id) && BroadcastFits(l, id)
  {
    && AcceptableDifficulty(id) && l.encoding != 0
    && c.verify(id.signingPublic, BroadcastSignature(c, id, l), BroadcastSignedData(c, id, l))
  }

  lemma FinishOfBroadcast(c: Crypto, id: Identity, l: Letter, obj: Parsed)
    requires CanBroadcast(c, id, l)
    requires HeaderFits(obj.expires, obj.objectType, 5, obj.stream)
    requires obj.expires == l.expires && obj.objectType == OBJECT_BROADCAST && obj.stream == id.stream
    ensures FinishBroadcast(c, obj, AddressHash(c, id.stream, id.ripe)[32..], BroadcastPlain(c, id, l)) ==
            if BroadcastAcceptable(c, id, l)
            then Ok(Some(IncomingBroadcast(obj.inventoryHash, id.address, l.encoding, l.message, l.expires, 4,
                                           id.stream)))
            else Ok(None)
  {
    hide Join, Offset, TakeVarint, Window, Varint.EncodeFit, ReadBroadcaster, ReadBody,
         SenderFields, BodyFields, SignatureFields, Unsigned, Address.EncodeAddress, RipeOf, AddressHash;
    var signature := BroadcastSignature(c, id, l);
    var sender, body, tail := SenderFields(id, l.stream, l.bitfield), BodyFields(l.message, l.encoding),
                              SignatureFields(signature);
    var fs := BroadcastFields(c, id, l) + tail;
    assert fs == sender + (body + tail) == sender + body + tail;
    ReadBroadcasterOfFields(id, l.stream, l.bitfield, body + tail);
    ReadBodyOfFields(sender, l.message, l.encoding, tail);
    ReadSignatureOfFields(BroadcastFields(c, id, l), signature);
  }

  /** A subscriber who derived its keys from the address reads a broadcast back, exactly when the
      object is within the size limit, the difficulty in range, the encoding not 0, and the signature verifies. */
  lemma BroadcastRoundTrip(c: Crypto, id: Identity, l: Letter, nonce: nat, subscriptions: map<Bytes, AddressKeys>)
    requires CanBroadcast(c, id, l) && !AllZero(id.ripe)
    requires var private := AddressHash(c, id.stream, id.ripe)[..32]; Opens(c, private, c.publicPoint(private))
    requires var tag := AddressHash(c, id.stream, id.ripe)[32..];
      tag in subscriptions && KeysOfAddress(c, id.address) == Some(subscriptions[tag])
    ensures var raw := Complete(BuildBroadcastUnsigned(c, id, l), nonce);
      ProcessBroadcast(c, raw, subscriptions) ==
      if |raw| > MAX_OBJECT_LENGTH + 64 then Err(Malformed(ObjectTooLarge))
      else if !BroadcastAcceptable(c, id, l) then Ok(None)
      else Ok(Some(IncomingBroadcast(DoubleSha512(c.sha512, raw)[..32], id.address, l.encoding, l.message,
                                     l.expires, 4, id.stream)))
  {
    hide BroadcastPlain, BroadcastSignature, BroadcastSignedData, DoubleSha512, Parse, Unsigned, KeysOfAddress,
         FinishBroadcast, Varint.EncodeFit, AddressHash, Address.EncodeAddress, RipeOf, BroadcastAcceptable;
    KeysOfOwnAddress(c, id);
    var tag := AddressHash(c, id.stream, id.ripe)[32..];
    var sealed := SealedForAddress(c, id, BroadcastPlain(c, id, l));
    var raw := Complete(BuildBroadcastUnsigned(c, id, l), nonce);
    UnsignedAppend(l.expires, OBJECT_BROADCAST, 5, id.stream, tag, sealed);
    ParseOfComplete(c.sha512, nonce, l.expires, OBJECT_BROADCAST, 5, id.stream, tag + sealed);
    if |raw| <= MAX_OBJECT_LENGTH + 64 {
      var obj := Parse(c.sha512, raw).value;
      assert obj.data[..32] == tag && obj.data[32..] == sealed;
      FinishOfBroadcast(c, id, l, obj);
    }
  }

  /** The author whose keys hash to the tag has signed, with the header and tag of the object, a text that carries the
      broadcast. */
  ghost predicate GenuineBroadcast(c: Crypto, plain: Bytes, stream: nat, tag: Bytes, b: IncomingBroadcast,
                                   signing: Bytes, encryption: Bytes)
  {
    && b.expires < MAX_U64 && stream < MAX_U64 && 1 <= b.senderStream < MAX_U64 && b.senderVersion == 4
    && b.encoding != 0 && IsPublicKey(signing) && IsPublicKey(encryption)
    && var ripe := c.ripemd160(c.sha512(signing + encryption));
    && tag == c.sha512(c.sha512(Varint.EncodeFit(4) + Varint.EncodeFit(b.senderStream) + ripe))[32..]
    && Address.EncodeAddress(c.sha512, 4, b.senderStream, ripe) == Ok(b.address)
    && exists bottom: nat, signature: Bytes ::
      && bottom <= |plain| && IsSlice(plain, bottom, signature)
      && CarriesBroadcast(plain[..bottom], b, signing, encryption)
      && c.verify(signing, signature, Unsigned(b.expires, 3, 5, stream, tag) + plain[..bottom])
  }

  ghost predicate CarriesBroadcast(signed: Bytes, b: IncomingBroadcast, signing: Bytes, encryption: Bytes)
    requires b.senderVersion == 4 && b.senderStream < MAX_U64 && IsPublicKey(signing) && IsPublicKey(encryption)
  {
    exists bitfield: Bytes, ntpb: nat, eb: nat, encoding: Bytes, length: Bytes ::
      && |bitfield| == 4 && 1000 <= ntpb <= 1_000_000 && 1000 <= eb <= 1_000_000
      && Spells(encoding, b.encoding) && Spells(length, |b.message|)
      && signed == Join(SenderLayout(4, b.senderStream, bitfield, signing[1..], encryption[1..], ntpb, eb)
                        + [encoding, length, b.message])
  }

  lemma ReadBodyIs(plain: Bytes, before: seq<Bytes>, position: nat) returns (e: Bytes, length: Bytes)
    requires position <= |plain| && Join(before) == plain[..position] && ReadBody(plain, position).Some?
    ensures var (encoding, message, bottom) := ReadBody(plain, position).value;
      && encoding != 0 && Spells(e, encoding) && Spells(length, |message|) && position <= bottom <= |plain|
      && plain[..bottom] == Join(before + [e, length, message])
  {
    hide TakeVarint, Join, Spells;
    var (_, p1) := TakeVarint(plain, position);
    TakeSpells(plain, position);
    var (n, p2) := TakeVarint(plain, p1);
    TakeSpells(plain, p1);
    e, length := plain[position..p1], plain[p1..p2];
    JoinTwo(plain, before, position, p1, p2);
    JoinStep(plain, before + [e, length], p2, p2 + n);
    assert before + [e, length] + [plain[p2..p2 + n]] == before + [e, length, plain[p2..p2 + n]];
  }

  lemma FinishIsGenuine(c: Crypto, obj: Parsed, tag: Bytes, plain: Bytes, b: IncomingBroadcast)
    returns (signing: Bytes, encryption: Bytes)
    requires HeaderFits(obj.expires, obj.objectType, 5, obj.stream) && obj.objectType == OBJECT_BROADCAST
    requires FinishBroadcast(c, obj, tag, plain) == Ok(Some(b))
    ensures b.expires == obj.expires && b.inventoryHash == obj.inventoryHash
    ensures GenuineBroadcast(c, plain, obj.stream, tag, b, signing, encryption)
  {
    hide ReadSender, ReadBroadcaster, ReadBody, TakeVarint, Join, Spells, Varint.EncodeFit, SenderLayout, Unsigned,
         Address.EncodeAddress, IsSlice;
    BroadcasterIsSender(plain);
    var sender := ReadSender(plain).value;
    signing, encryption := sender.signingPublic, sender.encryptionPublic;
    var bitfield, ntpb, eb := ReadSenderIs(plain);
    var layout := SenderLayout(4, sender.stream, bitfield, signing[1..], encryption[1..], ntpb, eb);
    var e, length := ReadBodyIs(plain, layout, sender.position);
    var (encoding, message, bottom) := ReadBody(plain, sender.position).value;
    var (n, p) := TakeVarint(plain, bottom);
    TakeSpells(plain, bottom);
    SliceOfWindow(plain, bottom, p, n);
    assert CarriesBroadcast(plain[..bottom], b, signing, encryption);
    assert Window(plain, 0, bottom) == plain[..bottom];
  }

  /** No broadcast is shown that its author did not sign: of any object whatever, a broadcast read comes from a version
      5 object under a tag subscribed to, the author's keys hash to that tag and to the address shown, and they have
      signed its fields together with the header. */
  lemma ShownIsGenuine(c: Crypto, raw: Bytes, subscriptions: map<Bytes, AddressKeys>, b: IncomingBroadcast)
    returns (signing: Bytes, encryption: Bytes)
    requires ProcessBroadcast(c, raw, subscriptions) == Ok(Some(b))
    ensures Parse(c.sha512, raw).Ok? && |Parse(c.sha512, raw).value.data| >= 32
    ensures var obj := Parse(c.sha512, raw).value; var tag := obj.data[..32];
      && obj.objectType == 3 && obj.version == 5 && tag in subscriptions
      && b.expires == obj.expires && b.inventoryHash == c.sha512(c.sha512(raw))[..32]
      && var plain := c.decrypt(obj.data[32..], subscriptions[tag].encryptionPrivate);
      && plain.Some? && GenuineBroadcast(c, plain.value, obj.stream, tag, b, signing, encryption)
  {
    hide FinishBroadcast, GenuineBroadcast, Parse, Unsigned, Complete;
    CompleteOfParse(c.sha512, raw);
    HashOfParsed(c.sha512, raw);
    var obj := Parse(c.sha512, raw).value;
    var tag := obj.data[..32];
    signing, encryption := FinishIsGenuine(c, obj, tag,
        c.decrypt(obj.data[32..], subscriptions[tag].encryptionPrivate).value, b);
  }
}
