/** Network objects (bmchat/protocol/objects.py): the common header, and the signed and
    encrypted messages, public keys and broadcasts inside it. */
module Objects {
  import opened Positional
  import opened Bytes
  import Varint

  const OBJECT_PUBKEY := 1
  const OBJECT_MSG := 2
  const OBJECT_BROADCAST := 3
  const MAX_OBJECT_LENGTH: nat := 0x4_0000
  const PUBKEY_NTPB_MIN := 1000
  const PUBKEY_NTPB_MAX := 1000000
  const PUBKEY_EB_MIN := 1000
  const PUBKEY_EB_MAX := 1000000
  const IV_LEN := 16
  const R_LEN := 70
  const MAC_LEN := 32

  // ---- the common header --------------------------------------------------------------

  datatype ParseError = ObjectTooShort | ObjectTooLarge | BadVersion | NoStream | BadStream

  datatype Parsed = Parsed(
    raw: Bytes, nonce: Bytes, expires: nat, objectType: nat, version: nat, stream: nat,
    data: Bytes, inventoryHash: Bytes)

  function Parse(sha512: Bytes -> Digest, raw: Bytes): (r: Result<Parsed, ParseError>)
    ensures r.Ok? ==> r.value.raw == raw && |raw| >= 20
    ensures r == Err(ObjectTooShort) <==> |raw| < 20
    ensures r == Err(ObjectTooLarge) <==> |raw| > 0x4_0000 + 64
  {
    if |raw| < 20 then Err(ObjectTooShort)
    else if |raw| > MAX_OBJECT_LENGTH + 64 then Err(ObjectTooLarge)
    else
      match Varint.Decode(Window(raw, 20, 9))
      case Err(_) => Err(BadVersion)
      case Ok((version, versionLen)) =>
        var position := 20 + versionLen;
        if position + 1 > |raw| then Err(NoStream)
        else
          match Varint.Decode(Window(raw, position, 9))
          case Err(_) => Err(BadStream)
          case Ok((stream, streamLen)) =>
            Ok(Parsed(raw, raw[..8], FromBigEndian(raw[8..16]), FromBigEndian(raw[16..20]),
                      version, stream, raw[position + streamLen..], DoubleSha512(sha512, raw)[..32]))
  }

  predicate HeaderFits(expires: nat, objectType: nat, version: nat, stream: nat) {
    expires < MAX_U64 && objectType < MAX_U32 && version < MAX_U64 && stream < MAX_U64
  }

  function Unsigned(expires: nat, objectType: nat, version: nat, stream: nat, data: Bytes): Bytes
    requires HeaderFits(expires, objectType, version, stream)
  {
    BigEndian(expires, 8) + BigEndian(objectType, 4)
    + Varint.EncodeFit(version) + Varint.EncodeFit(stream) + data
  }

  function Complete(unsigned: Bytes, nonce: nat): (raw: Bytes)
    ensures |raw| == 8 + |unsigned|
  {
    BigEndian(nonce, 8) + unsigned
  }

  lemma VarintInWindow(raw: Bytes, position: nat, v: nat)
    requires v < MAX_U64
    requires position + |Varint.EncodeFit(v)| <= |raw|
    requires raw[position..position + |Varint.EncodeFit(v)|] == Varint.EncodeFit(v)
    ensures Varint.Decode(Window(raw, position, 9)) == Ok((v, |Varint.EncodeFit(v)|))
    ensures Varint.Decode(Window(raw, position, 10)) == Ok((v, |Varint.EncodeFit(v)|))
  {
    var bs := Varint.EncodeFit(v);
    assert Window(raw, position, 9)[..|bs|] == bs;
    assert Window(raw, position, 10)[..|bs|] == bs;
    Varint.PrefixDecodes(Window(raw, position, 9), v);
    Varint.PrefixDecodes(Window(raw, position, 10), v);
  }

  /** Where the six header fields lie in an object. */
  lemma Layout(n: Bytes, e: Bytes, t: Bytes, v: Bytes, s: Bytes, d: Bytes)
    requires |n| == 8 && |e| == 8 && |t| == 4
    ensures var raw := n + (e + t + v + s + d);
      && |raw| == 20 + |v| + |s| + |d|
      && raw[..8] == n && raw[8..16] == e && raw[16..20] == t
      && raw[20..20 + |v|] == v && raw[20 + |v|..20 + |v| + |s|] == s && raw[20 + |v| + |s|..] == d
  {
  }

  /** An assembled object parses back to its own header and data unless it is over the size limit. */
  lemma ParseOfComplete(sha512: Bytes -> Digest, nonce: nat, expires: nat, objectType: nat,
                        version: nat, stream: nat, data: Bytes)
    requires HeaderFits(expires, objectType, version, stream)
    ensures var raw := Complete(Unsigned(expires, objectType, version, stream, data), nonce);
      Parse(sha512, raw) ==
      if |raw| > MAX_OBJECT_LENGTH + 64 then Err(ObjectTooLarge)
      else Ok(Parsed(raw, BigEndian(nonce, 8), expires, objectType, version, stream, data,
                     DoubleSha512(sha512, raw)[..32]))
  {
    hide Varint.Decode, Varint.Encode, FromBigEndian, BigEndian;
    var raw := Complete(Unsigned(expires, objectType, version, stream, data), nonce);
    var v, s := Varint.EncodeFit(version), Varint.EncodeFit(stream);
    Layout(BigEndian(nonce, 8), BigEndian(expires, 8), BigEndian(objectType, 4), v, s, data);
    Widths();
    BigEndianRoundTrip(expires, 8);
    BigEndianRoundTrip(objectType, 4);
    VarintInWindow(raw, 20, version);
    VarintInWindow(raw, 20 + |v|, stream);
  }

  lemma HashOfParsed(sha512: Bytes -> Digest, raw: Bytes)
    requires Parse(sha512, raw).Ok?
    ensures Parse(sha512, raw).value.inventoryHash == sha512(sha512(raw))[..32]
  {
    hide Varint.Decode;
  }

  /** An object that ends with its version is refused for want of a stream. */
  lemma ParseOfHeader(sha512: Bytes -> Digest, head: Bytes, version: nat)
    requires |head| == 20 && version < MAX_U64
    ensures Parse(sha512, head + Varint.EncodeFit(version)) == Err(NoStream)
  {
    hide Varint.Decode, Varint.Encode;
    VarintInWindow(head + Varint.EncodeFit(version), 20, version);
  }

  lemma WindowEncoding(raw: Bytes, position: nat, v: nat, length: nat)
    requires position <= |raw| && Varint.Decode(Window(raw, position, 9)) == Ok((v, length))
    ensures v < MAX_U64 && position + length <= |raw|
    ensures raw[position..position + length] == Varint.EncodeFit(v)
  {
    var w := Window(raw, position, 9);
    Varint.EncodingIsPrefix(w, v, length);
    assert raw[position..position + length] == w[..length];
  }

  lemma Rejoin(raw: Bytes, a: nat, b: nat)
    requires 20 <= a <= b <= |raw|
    ensures raw == raw[..8] + (raw[8..16] + raw[16..20] + raw[20..a] + raw[a..b] + raw[b..])
  {
  }

  /** Whatever parses is the assembly of the parts it parses to: the header has one encoding. */
  lemma CompleteOfParse(sha512: Bytes -> Digest, raw: Bytes)
    requires Parse(sha512, raw).Ok?
    ensures var p := Parse(sha512, raw).value;
      && HeaderFits(p.expires, p.objectType, p.version, p.stream)
      && raw == Complete(Unsigned(p.expires, p.objectType, p.version, p.stream, p.data), FromBigEndian(p.nonce))
  {
    hide Varint.Decode, Varint.EncodeFit, FromBigEndian, BigEndian, Window, DoubleSha512;
    var p := Parse(sha512, raw).value;
    var (_, versionLen) := Varint.Decode(Window(raw, 20, 9)).value;
    WindowEncoding(raw, 20, p.version, versionLen);
    var position := 20 + versionLen;
    var (_, streamLen) := Varint.Decode(Window(raw, position, 9)).value;
    WindowEncoding(raw, position, p.stream, streamLen);
    Widths();
    BigEndianOfValue(raw[..8]);
    BigEndianOfValue(raw[8..16]);
    BigEndianOfValue(raw[16..20]);
    Rejoin(raw, position, position + streamLen);
  }
}
