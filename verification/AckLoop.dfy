/** The acknowledgement loop (bmchat/core/client.py): the sender hides a ready-made object in the
    message, the recipient publishes it, and the sender recognises it. */
module AckLoop {
  import opened Positional
  import opened Bytes
  import opened Objects
  import opened ProofOfWork
  import Varint
  import Packets
  import Messages

  const OBJECT_COMMAND: Bytes := [111, 98, 106, 101, 99, 116]
  const MAX_PAST_SKEW := 3600
  const MAX_FUTURE_SKEW := 28 * 24 * 3600 + 10800

  function AckUnsigned(expires: nat, watch: Bytes, stream: nat): Bytes
    requires expires < MAX_U64 && stream < MAX_U64
  {
    Unsigned(expires, OBJECT_MSG, 1, stream, watch)
  }

  /** The work the sender does for an acknowledgement it builds at time `now`. */
  function AckTarget(unsigned: Bytes, expires: nat, now: int): nat {
    CalculateTarget(1000, 1000, |unsigned| + 8, AtLeast(expires - now, 300))
  }

  predicate IsAckNonce(sha512: Bytes -> Digest, expires: nat, watch: Bytes, stream: nat, now: int, nonce: nat)
    requires expires < MAX_U64 && stream < MAX_U64
  {
    var unsigned := AckUnsigned(expires, watch, stream);
    Meets(sha512, sha512(unsigned), AckTarget(unsigned, expires, now), nonce)
  }

  function AckObject(expires: nat, watch: Bytes, stream: nat, nonce: nat): (ack: Bytes)
    requires expires < MAX_U64 && stream < MAX_U64
    ensures 22 + |watch| <= |ack| <= 30 + |watch|
  {
    Complete(AckUnsigned(expires, watch, stream), nonce)
  }

  function AckPacket(sha512: Bytes -> Digest, ack: Bytes): Bytes
    requires |ack| < MAX_U32
  {
    Packets.CreatePacket(sha512, OBJECT_COMMAND, ack).value
  }

  /** `ack_watch_key`: everything from the object type on. */
  function WatchKey(raw: Bytes): Bytes
    requires |raw| >= 16
  {
    raw[16..]
  }

  /** What the recipient publishes when asked to relay a packet, if anything. */
  function RelayAck(sha512: Bytes -> Digest, packet: Bytes, now: int): Option<Bytes> {
    if |packet| < Packets.HEADER_SIZE then None
    else
      var header := Packets.ParseHeader(packet[..Packets.HEADER_SIZE]);
      var obj := packet[Packets.HEADER_SIZE..];
      if header.magic != Packets.MAGIC || header.command != OBJECT_COMMAND then None
      else if |obj| != header.length || sha512(obj)[..4] != header.checksum then None
      else if |obj| < 16 || !IsSufficient(sha512, obj, 0, 0, now, None) then None
      else Some(obj)
  }

  /** `_parse_incoming_object`: what the network layer lets through to the client. */
  function AcceptIncoming(sha512: Bytes -> Digest, raw: Bytes, now: int): (r: Option<Parsed>)
    ensures r.Some? ==> r.value.raw == raw && |raw| >= 20
  {
    match Parse(sha512, raw)
    case Err(_) => None
    case Ok(p) =>
      if p.expires < now - MAX_PAST_SKEW || p.expires > now + MAX_FUTURE_SKEW then None
      else if !IsSufficient(sha512, raw, 0, 0, now, None) then None
      else Some(p)
  }

  lemma Reassociate(e: Bytes, t: Bytes, v: Bytes, s: Bytes, d: Bytes)
    ensures e + t + v + s + d == e + (t + v + s + d)
  {
  }

  /** Of every object there can be, exactly those are let in that are not too large, expired at most an hour ago and
      do not live for more than 28 days and three hours, and carry the work for what is left of their life. */
  lemma AcceptedIff(sha512: Bytes -> Digest, nonce: nat, expires: nat, objectType: nat, version: nat, stream: nat,
                    data: Bytes, now: int)
    requires HeaderFits(expires, objectType, version, stream)
    ensures var unsigned := Unsigned(expires, objectType, version, stream, data);
      var raw := Complete(unsigned, nonce);
      AcceptIncoming(sha512, raw, now) ==
      if |raw| <= 0x4_0000 + 64 && now - 3600 <= expires <= now + 28 * 24 * 3600 + 10800
         && Meets(sha512, sha512(unsigned), CalculateTarget(0, 0, |raw|, expires - now), nonce)
      then Some(Parsed(raw, BigEndian(nonce, 8), expires, objectType, version, stream, data,
                       sha512(sha512(raw))[..32]))
      else None
  {
    hide BigEndian, Varint.EncodeFit, Parse, IsSufficient, Meets, CalculateTarget;
    ParseOfComplete(sha512, nonce, expires, objectType, version, stream, data);
    var rest := BigEndian(objectType, 4) + Varint.EncodeFit(version) + Varint.EncodeFit(stream) + data;
    Reassociate(BigEndian(expires, 8), BigEndian(objectType, 4), Varint.EncodeFit(version),
                Varint.EncodeFit(stream), data);
    SufficientIffMeets(sha512, expires, rest, nonce, 0, 0, now, None);
  }

  /** Nothing is let in that is not of that form. */
  lemma AcceptedIsBuilt(sha512: Bytes -> Digest, raw: Bytes, now: int)
    requires AcceptIncoming(sha512, raw, now).Some?
    ensures var p := AcceptIncoming(sha512, raw, now).value;
      && HeaderFits(p.expires, p.objectType, p.version, p.stream)
      && raw == Complete(Unsigned(p.expires, p.objectType, p.version, p.stream, p.data), FromBigEndian(p.nonce))
  {
    hide Parse, IsSufficient, Unsigned, Complete;
    CompleteOfParse(sha512, raw);
  }

  /** Exactly that is relayed which the packet carries under the network's magic number, the command "object", its
      own length and checksum, if it has the work for what is left of its life. */
  lemma RelayedIff(sha512: Bytes -> Digest, packet: Bytes, now: int, obj: Bytes)
    ensures RelayAck(sha512, packet, now) == Some(obj) <==>
      && 16 <= |obj| < MAX_U32 && IsSufficient(sha512, obj, 0, 0, now, None)
      && packet == [0xE9, 0xBE, 0xB4, 0xD9] + [111, 98, 106, 101, 99, 116, 0, 0, 0, 0, 0, 0]
                   + BigEndian(|obj|, 4) + sha512(obj)[..4] + obj
  {
    hide IsSufficient, BigEndian, Packets.ParseHeader, Packets.PadCommand;
    MagicBytes();
    ObjectField();
    var header := Packets.PacketHeader(sha512, OBJECT_COMMAND, obj);
    if packet == header + obj {
      assert packet[..Packets.HEADER_SIZE] == header && packet[Packets.HEADER_SIZE..] == obj;
      if |obj| < MAX_U32 {
        Packets.HeaderRoundTrip(sha512, OBJECT_COMMAND, obj);
        Packets.CommandRoundTrip(OBJECT_COMMAND);
      }
    }
    if RelayAck(sha512, packet, now) == Some(obj) {
      Packets.HeaderOfParsed(packet[..Packets.HEADER_SIZE], OBJECT_COMMAND);
      assert packet == packet[..Packets.HEADER_SIZE] + obj;
    }
  }

  lemma MagicBytes()
    ensures BigEndian(Packets.MAGIC, 4) == [0xE9, 0xBE, 0xB4, 0xD9]
  {
    hide BigEndian;
    var magic: Bytes := [0xE9, 0xBE, 0xB4, 0xD9];
    BigEndianOfValue(magic);
    assert magic[..3][..2][..1] == [0xE9] && FromBigEndian([0xE9]) == 0xE9;
    assert FromBigEndian(magic[..3][..2]) == 0xE9BE;
    assert FromBigEndian(magic[..3]) == 0xE9BEB4;
  }

  lemma ObjectField()
    ensures Packets.PadCommand(OBJECT_COMMAND) == [111, 98, 106, 101, 99, 116, 0, 0, 0, 0, 0, 0]
  {
  }

  type Watches = map<Bytes, (nat, int)>

  /** `_maybe_mark_ack`: the watches left, and the message found delivered. */
  function MarkAck(watches: Watches, p: Parsed): (Watches, Option<nat>)
    requires |p.raw| >= 16
  {
    if p.objectType != OBJECT_MSG || p.version != 1 || p.raw[16..] !in watches then (watches, None)
    else (watches - {p.raw[16..]}, Some(watches[p.raw[16..]].0))
  }

  lemma AckShape(expires: nat, watch: Bytes, stream: nat, nonce: nat)
    requires expires < MAX_U64 && stream < MAX_U64
    ensures var rest := BigEndian(OBJECT_MSG, 4) + Varint.EncodeFit(1) + Varint.EncodeFit(stream) + watch;
      && AckUnsigned(expires, watch, stream) == BigEndian(expires, 8) + rest
      && WatchKey(AckObject(expires, watch, stream, nonce)) == rest
      && 22 + |watch| <= |AckObject(expires, watch, stream, nonce)| <= 30 + |watch|
  {
    hide BigEndian, Varint.Encode;
    var e, t, v, s := BigEndian(expires, 8), BigEndian(OBJECT_MSG, 4), Varint.EncodeFit(1), Varint.EncodeFit(stream);
    Reassociate(e, t, v, s, watch);
    var raw := AckObject(expires, watch, stream, nonce);
    assert raw == BigEndian(nonce, 8) + e + (t + v + s + watch);
    assert raw[16..] == t + v + s + watch;
  }

  /** The packet made for a message passes every check of the recipient's relay at any later time, and
      what the recipient publishes is the sender's object, byte for byte. */
  lemma AckSurvivesRelay(sha512: Bytes -> Digest, expires: nat, watch: Bytes, stream: nat, nonce: nat,
                         built: int, relayed: int)
    requires expires < MAX_U64 && stream < MAX_U64 && |watch| == 32
    requires IsAckNonce(sha512, expires, watch, stream, built, nonce) && built <= relayed
    ensures var ack := AckObject(expires, watch, stream, nonce);
      && RelayAck(sha512, AckPacket(sha512, ack), relayed) == Some(ack)
      && |AckPacket(sha512, ack)| <= 86
  {
    hide CalculateTarget, Meets, PowValue, Packets.PadCommand, Packets.DecodeAscii, Packets.RStripNul, BigEndian,
         FromBigEndian, Varint.EncodeFit, Unsigned, IsSufficient, Packets.ParseHeader;
    var ack := AckObject(expires, watch, stream, nonce);
    AckShape(expires, watch, stream, nonce);
    AckIsSufficient(sha512, expires, watch, stream, nonce, built, relayed);
    var packet := AckPacket(sha512, ack);
    assert packet[..Packets.HEADER_SIZE] == Packets.PacketHeader(sha512, OBJECT_COMMAND, ack);
    assert packet[Packets.HEADER_SIZE..] == ack;
    Packets.HeaderRoundTrip(sha512, OBJECT_COMMAND, ack);
    Packets.CommandRoundTrip(OBJECT_COMMAND);
  }

  lemma AckIsSufficient(sha512: Bytes -> Digest, expires: nat, watch: Bytes, stream: nat, nonce: nat, built: int,
          now: int)
    requires expires < MAX_U64 && stream < MAX_U64 && built <= now
    requires IsAckNonce(sha512, expires, watch, stream, built, nonce)
    ensures |AckObject(expires, watch, stream, nonce)| >= 16
    ensures IsSufficient(sha512, AckObject(expires, watch, stream, nonce), 0, 0, now, None)
  {
    hide CalculateTarget, Meets, PowValue, BigEndian, Varint.EncodeFit, Unsigned, IsSufficient;
    AckShape(expires, watch, stream, nonce);
    var rest := BigEndian(OBJECT_MSG, 4) + Varint.EncodeFit(1) + Varint.EncodeFit(stream) + watch;
    SenderWorkIsSufficient(sha512, expires, rest, nonce, 1000, 1000, AtLeast(expires - built, 300), built, now);
  }

  /** Back at the sender the object is let in until an hour after it expires. */
  lemma AckIsAccepted(sha512: Bytes -> Digest, expires: nat, watch: Bytes, stream: nat, nonce: nat, built: int,
          now: int)
    requires expires < MAX_U64 && stream < MAX_U64 && |watch| == 32 && built <= now
    requires IsAckNonce(sha512, expires, watch, stream, built, nonce)
    ensures var ack := AckObject(expires, watch, stream, nonce);
      AcceptIncoming(sha512, ack, now) ==
      if now - MAX_PAST_SKEW <= expires <= now + MAX_FUTURE_SKEW
      then Some(Parsed(ack, BigEndian(nonce, 8), expires, OBJECT_MSG, 1, stream, watch,
          DoubleSha512(sha512, ack)[..32]))
      else None
  {
    hide BigEndian, Varint.EncodeFit, IsSufficient, Parse, IsAckNonce, DoubleSha512;
    AckShape(expires, watch, stream, nonce);
    AckIsSufficient(sha512, expires, watch, stream, nonce, built, now);
    ParseOfComplete(sha512, nonce, expires, OBJECT_MSG, 1, stream, watch);
  }

  /** The key is watched for message `m`, which may be watched under others too: each attempt at sending it
      adds one. */
  predicate WatchedBy(watches: Watches, m: nat, key: Bytes) {
    key in watches && watches[key].0 == m
  }

  /** The key is that of some acknowledgement. */
  ghost predicate IsAckKey(key: Bytes) {
    exists expires: nat, watch: Bytes, stream: nat, nonce: nat ::
      expires < MAX_U64 && stream < MAX_U64 && key == WatchKey(AckObject(expires, watch, stream, nonce))
  }

  /** An object marks message `m` exactly when from byte 16 on it is an acknowledgement watched for `m`; a change
      anywhere after that byte never does. It uses up that watch and no other, and marks no other message. */
  lemma OnlyTheAckMarks(sha512: Bytes -> Digest, watches: Watches, m: nat, raw: Bytes)
    requires forall key :: key in watches ==> IsAckKey(key)
    requires Parse(sha512, raw).Ok?
    ensures var (left, marked) := MarkAck(watches, Parse(sha512, raw).value); var key := raw[16..];
      && (marked == Some(m) <==> WatchedBy(watches, m, key))
      && left == watches - {key}
  {
    hide Parse, AckObject, WatchKey;
    var p := Parse(sha512, raw).value;
    assert p.raw == raw && |raw| >= 20 by { ParsedIsRaw(sha512, raw); }
    var key := raw[16..];
    if key in watches {
      var expires: nat, watch: Bytes, stream: nat, nonce: nat :| expires < MAX_U64 && stream < MAX_U64
          && key == WatchKey(AckObject(expires, watch, stream, nonce));
      SameTailSameKind(sha512, expires, watch, stream, nonce, raw);
    } else {
      assert watches - {key} == watches;
    }
  }

  lemma ParsedIsRaw(sha512: Bytes -> Digest, raw: Bytes)
    requires Parse(sha512, raw).Ok?
    ensures Parse(sha512, raw).value.raw == raw && |raw| >= 20
  {
  }

  lemma TailSlices(raw: Bytes, t: Bytes, v: Bytes, rest: Bytes)
    requires |raw| >= 16 && raw[16..] == t + v + rest && |t| == 4
    ensures |raw| >= 20 + |v| && raw[16..20] == t && raw[20..20 + |v|] == v
  {
    var tail := raw[16..];
    assert raw[16..20] == tail[..4];
    assert raw[20..20 + |v|] == tail[4..4 + |v|];
  }

  /** Type and version lie after byte 16, so they come with the key. */
  lemma SameTailSameKind(sha512: Bytes -> Digest, expires: nat, watch: Bytes, stream: nat, nonce: nat, raw: Bytes)
    requires expires < MAX_U64 && stream < MAX_U64 && Parse(sha512, raw).Ok?
    requires raw[16..] == WatchKey(AckObject(expires, watch, stream, nonce))
    ensures Parse(sha512, raw).value.objectType == OBJECT_MSG && Parse(sha512, raw).value.version == 1
  {
    hide BigEndian, FromBigEndian, Varint.EncodeFit, Varint.Decode;
    AckShape(expires, watch, stream, nonce);
    var t, v := BigEndian(OBJECT_MSG, 4), Varint.EncodeFit(1);
    TailSlices(raw, t, v, Varint.EncodeFit(stream) + watch) by {
      assert t + v + Varint.EncodeFit(stream) + watch == t + v + (Varint.EncodeFit(stream) + watch);
    }
    Widths();
    BigEndianRoundTrip(OBJECT_MSG, 4);
    VarintInWindow(raw, 20, 1);
  }

  /** The whole loop. A message carrying the packet built for `m` is read by its recipient; the packet the
      recipient finds in it relays to the acknowledgement object; and that object, coming back while the
      watch is live, marks `m`. */
  lemma AckLoopCloses(c: Messages.Crypto, id: Messages.Identity, recipientPublic: Bytes, l: Messages.Letter,
                      msgNonce: nat, identities: seq<Messages.Identity>, k: nat,
                      watches: Watches, m: nat, watch: Bytes, ackNonce: nat, built: int, relayed: int, back: int)
    requires l.expires < MAX_U64 && 1 <= l.stream < MAX_U64 && |watch| == 32
    requires IsAckNonce(c.sha512, l.expires, watch, l.stream, built, ackNonce)
    requires l.ack == AckPacket(c.sha512, AckObject(l.expires, watch, l.stream, ackNonce))
    requires Messages.Delivers(c, id, recipientPublic, l, identities, k)
    requires Messages.SealsInBlocks(c) && Messages.Acceptable(c, id, l)
    requires |l.message| <= Messages.MAX_WIRE_BODY_BYTES && |Messages.MsgSignature(c, id, l)| <= 72
    requires WatchedBy(watches, m, WatchKey(AckObject(l.expires, watch, l.stream, ackNonce)))
    requires built <= relayed && built <= back
    requires back - MAX_PAST_SKEW <= l.expires <= back + MAX_FUTURE_SKEW
    ensures var raw := Complete(Messages.BuildMsgUnsigned(c, id, recipientPublic, l), msgNonce);
      var ack := AckObject(l.expires, watch, l.stream, ackNonce);
      var r := Messages.ProcessMsg(c, raw, identities);
      && r.Ok? && r.value.Some?
      && RelayAck(c.sha512, r.value.value.ackData, relayed) == Some(ack)
      && AcceptIncoming(c.sha512, ack, back).Some?
      && MarkAck(watches, AcceptIncoming(c.sha512, ack, back).value).1 == Some(m)
  {
    hide Messages.ProcessMsg, Messages.MsgPlain, Messages.MsgSignature, Messages.MsgSignedData, RelayAck, IsAckNonce,
         AckPacket, Messages.BuildMsgUnsigned, Complete, AckObject, Messages.IsIdentity, Messages.Acceptable;
    AckSurvivesRelay(c.sha512, l.expires, watch, l.stream, ackNonce, built, relayed);
    Messages.BodyWithinLimitFits(c, id, recipientPublic, l, msgNonce);
    Messages.MessageRoundTrip(c, id, recipientPublic, l, msgNonce, identities, k);
    AckIsAccepted(c.sha512, l.expires, watch, l.stream, ackNonce, built, back);
  }
}
