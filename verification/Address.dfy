/** Bitmessage addresses (bmchat/protocol/address.py): version, stream and key hash as
    checksummed base58 text. */
module Address {
  import opened Positional
  import opened Bytes
  import Varint
  import Base58

  const MAX_ADDRESS_VERSION := 4
  const CHECKSUM_LEN := 4
  const RIPE_LEN := 20

  datatype EncodeError = UnsupportedVersion | BadRipeLength | BadVarint(error: Varint.VarintError)

  datatype DecodeError =
    | InvalidCharacters | TooShort | ChecksumFailed | VarintMalformed
    | VersionTooHigh | RipeTooLong | RipeTooShort | EncodingProblem

  datatype Decoded = Decoded(version: nat, stream: nat, ripe: Bytes)

  function Checksum(sha512: Bytes -> Digest, data: Bytes): (c: Bytes)
    ensures |c| == CHECKSUM_LEN
  {
    DoubleSha512(sha512, data)[..CHECKSUM_LEN]
  }

  /** The key hash as it travels: version 4 drops every leading zero byte, older ones at most two. */
  function EmbeddedRipe(version: nat, ripe: Bytes): (body: Bytes)
    requires |ripe| == RIPE_LEN
    ensures |body| <= RIPE_LEN
    ensures version != 4 ==> |body| >= 18
  {
    if version == 4 then LStrip(ripe)
    else if ripe[..2] == [0, 0] then ripe[2..]
    else if ripe[..1] == [0] then ripe[1..]
    else ripe
  }

  /** Padding the embedded key hash gives it back. */
  lemma EmbeddedPads(version: nat, ripe: Bytes)
    requires |ripe| == RIPE_LEN
    ensures var body := EmbeddedRipe(version, ripe); ripe == ZeroBytes(RIPE_LEN - |body|) + body
  {
    hide LStrip;
    var body := EmbeddedRipe(version, ripe);
    if version == 4 {
      LStripPads(ripe);
    } else {
      var k := RIPE_LEN - |body|;
      assert ripe == ripe[..k] + body;
      assert ripe[..k] == ZeroBytes(k);
    }
  }

  /** The bytes behind an address text: version, stream, embedded key hash, checksum. */
  function Sealed(sha512: Bytes -> Digest, version: nat, stream: nat, body: Bytes): (raw: Bytes)
    requires version < MAX_U64 && stream < MAX_U64
  {
    var data := Varint.EncodeFit(version) + Varint.EncodeFit(stream) + body;
    data + Checksum(sha512, data)
  }

  function EncodeAddress(sha512: Bytes -> Digest, version: int, stream: int, ripe: Bytes)
    : (r: Result<string, EncodeError>)
    ensures r.Ok? <==> 2 <= version <= 4 && |ripe| == 20 && 0 <= stream < 0x1_0000_0000_0000_0000
  {
    if version < 2 || version > 4 then Err(UnsupportedVersion)
    else if |ripe| != RIPE_LEN then Err(BadRipeLength)
    else match Varint.Encode(stream)
      case Err(e) => Err(BadVarint(e))
      case Ok(_) => Ok("BM-" + Base58.Encoded(Sealed(sha512, version, stream, EmbeddedRipe(version, ripe))))
  }

  /** The key hash loses leading zero bytes in the text: all of them in version 4, at most two before. */
  lemma EmbeddedIs(version: nat, ripe: Bytes, k: nat)
    requires 2 <= version <= 4 && |ripe| == 20 && k <= 20 && forall i :: 0 <= i < k ==> ripe[i] == 0
    requires k < (if version == 4 then 20 else 2) ==> ripe[k] != 0
    requires version < 4 ==> k <= 2
    ensures EmbeddedRipe(version, ripe) == ripe[k..]
  {
    if version == 4 {
      LStripIs(ripe, k);
    }
  }

  /** An address is "BM-" and the base 58 text of version, stream and key hash with the first four bytes of two rounds
      of SHA-512 over them. */
  lemma AddressIs(sha512: Bytes -> Digest, version: int, stream: int, ripe: Bytes)
    requires 2 <= version <= 4 && 0 <= stream < MAX_U64 && |ripe| == 20
    ensures var data := Varint.EncodeFit(version) + Varint.EncodeFit(stream) + EmbeddedRipe(version, ripe);
      EncodeAddress(sha512, version, stream, ripe) == Ok("BM-" + Base58.Encoded(data + sha512(sha512(data))[..4]))
  {
    hide EmbeddedRipe, Base58.Encoded;
  }

  /** The white space `str.strip` removes. */
  predicate IsSpace(c: char) {
    var k := c as int;
    9 <= k <= 13 || 28 <= k <= 32 || k == 0x85 || k == 0xA0 || k == 0x1680 || 0x2000 <= k <= 0x200A
    || k == 0x2028 || k == 0x2029 || k == 0x202F || k == 0x205F || k == 0x3000
  }

  function StripLeft(text: string): string {
    if text != "" && IsSpace(text[0]) then StripLeft(text[1..]) else text
  }

  function Strip(text: string): string
    decreases |text|
  {
    var left := StripLeft(text);
    StripRight(left)
  }

  function StripRight(text: string): string {
    if text != "" && IsSpace(text[|text| - 1]) then StripRight(text[..|text| - 1]) else text
  }

  /** Surrounding white space and one "BM-" prefix are not part of the address proper. */
  function AddressBody(text: string): string {
    var stripped := Strip(text);
    if "BM-" <= stripped then stripped[3..] else stripped
  }

  function CheckedData(sha512: Bytes -> Digest, raw: Bytes): Result<Bytes, DecodeError> {
    if |raw| < CHECKSUM_LEN + 2 then Err(TooShort)
    else
      var data, checksum := raw[..|raw| - CHECKSUM_LEN], raw[|raw| - CHECKSUM_LEN..];
      if Checksum(sha512, data) != checksum then Err(ChecksumFailed) else Ok(data)
  }

  function DecodedHeader(data: Bytes): (r: Result<(nat, nat, Bytes), DecodeError>)
    ensures r.Ok? ==> 1 <= r.value.1 < MAX_U64
  {
    match Varint.Decode(data[..if |data| < 9 then |data| else 9])
    case Err(_) => Err(VarintMalformed)
    case Ok((version, versionLen)) =>
      if version <= 1 || version > MAX_ADDRESS_VERSION then Err(VersionTooHigh)
      else
        match Varint.Decode(data[versionLen..])
        case Err(_) => Err(VarintMalformed)
        case Ok((stream, streamLen)) =>
          if stream == 0 then Err(VersionTooHigh)
          else Ok((version, stream, data[versionLen + streamLen..]))
  }

  function PaddedRipe(version: nat, embedded: Bytes): (r: Result<Bytes, DecodeError>)
    ensures r.Ok? ==> |r.value| == RIPE_LEN
  {
    if |embedded| > RIPE_LEN then Err(RipeTooLong)
    else if |embedded| < 1 then Err(RipeTooShort)
    else if version == 4 && embedded[0] == 0 then Err(EncodingProblem)
    else Ok(ZeroBytes(RIPE_LEN - |embedded|) + embedded)
  }

  function DecodeRaw(sha512: Bytes -> Digest, raw: Bytes): (r: Result<Decoded, DecodeError>)
    ensures r.Ok? ==> 1 <= r.value.stream < MAX_U64
  {
    match CheckedData(sha512, raw)
    case Err(e) => Err(e)
    case Ok(data) =>
      match DecodedHeader(data)
      case Err(e) => Err(e)
      case Ok((version, stream, embedded)) =>
        match PaddedRipe(version, embedded)
        case Err(e) => Err(e)
        case Ok(ripe) => Ok(Decoded(version, stream, ripe))
  }

  function DecodeAddress(sha512: Bytes -> Digest, text: string): (r: Result<Decoded, DecodeError>)
    ensures r.Ok? ==> 1 <= r.value.stream < MAX_U64
  {
    match Base58.Decoded(AddressBody(text))
    case Err(_) => Err(InvalidCharacters)
    case Ok(raw) => DecodeRaw(sha512, raw)
  }

  // ---- reading what was written -------------------------------------------------------

  lemma LetterIsNotSpace(d: nat)
    requires d < 58
    ensures !IsSpace(Base58.Letter(d))
  {
  }

  lemma LettersAreNotSpaces(text: string)
    requires Base58.IsText(text)
    ensures forall i :: 0 <= i < |text| ==> !IsSpace(text[i])
  {
    hide IsSpace, Base58.Letter;
    forall i | 0 <= i < |text|
      ensures !IsSpace(text[i])
    {
      LetterIsNotSpace(Base58.Index(text[i]).value);
    }
  }

  lemma EncodedIsText(blob: Bytes)
    ensures Base58.IsText(Base58.Encoded(blob)) && Base58.Encoded(blob) != ""
  {
    var ds := Base58.EncodedDigits(blob);
    Base58.LettersInverse(ds);
    DigitsAreDigits(FromBigEndian(blob), 58);
  }

  lemma BodyOfPrefixed(text: string)
    requires Base58.IsText(text) && text != ""
    ensures AddressBody("BM-" + text) == text
  {
    var whole := "BM-" + text;
    assert !IsSpace(whole[0]) && whole[|whole| - 1] == text[|text| - 1];
    hide IsSpace, Base58.IsText;
    LettersAreNotSpaces(text);
    StripNothing(whole);
    assert whole[3..] == text;
  }

  lemma StripNothing(text: string)
    requires text != "" && !IsSpace(text[0]) && !IsSpace(text[|text| - 1])
    ensures Strip(text) == text
  {
    hide IsSpace;
  }

  lemma HeaderOfEncoded(version: nat, stream: nat, body: Bytes)
    requires 2 <= version <= 4 && stream < MAX_U64
    ensures DecodedHeader(Varint.EncodeFit(version) + Varint.EncodeFit(stream) + body) ==
            if stream == 0 then Err(VersionTooHigh) else Ok((version, stream, body))
  {
    hide Varint.Decode, Varint.Encode;
    var v, s := Varint.EncodeFit(version), Varint.EncodeFit(stream);
    var data := v + s + body;
    var head := data[..if |data| < 9 then |data| else 9];
    assert v <= head;
    Varint.PrefixDecodes(head, version);
    assert data[|v|..] == s + body;
    Varint.PrefixDecodes(data[|v|..], stream);
    assert data[|v| + |s|..] == body;
  }

  lemma CheckedOfSealed(sha512: Bytes -> Digest, data: Bytes)
    requires |data| >= 2
    ensures CheckedData(sha512, data + Checksum(sha512, data)) == Ok(data)
  {
    var raw := data + Checksum(sha512, data);
    assert raw[..|raw| - CHECKSUM_LEN] == data;
    assert raw[|raw| - CHECKSUM_LEN..] == Checksum(sha512, data);
  }

  lemma PaddedOfEmbedded(version: nat, ripe: Bytes)
    requires |ripe| == RIPE_LEN && 2 <= version <= 4
    ensures PaddedRipe(version, EmbeddedRipe(version, ripe)) ==
            if version == 4 && AllZero(ripe) then Err(RipeTooShort) else Ok(ripe)
  {
    var body := EmbeddedRipe(version, ripe);
    EmbeddedPads(version, ripe);
    if body != [] && version == 4 {
      assert ripe[RIPE_LEN - |body|] == body[0] != 0;
    }
  }

  lemma DecodeOfSealed(sha512: Bytes -> Digest, version: nat, stream: nat, ripe: Bytes)
    requires 2 <= version <= 4 && stream < MAX_U64 && |ripe| == RIPE_LEN
    ensures var raw := Sealed(sha512, version, stream, EmbeddedRipe(version, ripe));
      DecodeRaw(sha512, raw) ==
      if stream == 0 then Err(VersionTooHigh)
      else if version == 4 && AllZero(ripe) then Err(RipeTooShort)
      else Ok(Decoded(version, stream, ripe))
  {
    var body := EmbeddedRipe(version, ripe);
    CheckedOfSealed(sha512, Varint.EncodeFit(version) + Varint.EncodeFit(stream) + body);
    HeaderOfEncoded(version, stream, body);
    PaddedOfEmbedded(version, ripe);
  }

  lemma SealedShape(sha512: Bytes -> Digest, version: nat, stream: nat, body: Bytes)
    requires 2 <= version <= 4 && stream < MAX_U64 && |body| <= RIPE_LEN
    ensures var raw := Sealed(sha512, version, stream, body);
      0 < |raw| <= 34 && raw[0] == version
  {
    Varint.OneByte(version);
  }

  /** A blob that starts with a nonzero byte survives the trip through text. */
  lemma TextRoundTrip(raw: Bytes)
    requires 0 < |raw| <= 50 && raw[0] != 0
    ensures Base58.Decoded(AddressBody("BM-" + Base58.Encoded(raw))) == Ok(raw)
  {
    Base58.EncodedLength(raw);
    Base58.DecodeOfEncode(raw);
    EncodedIsText(raw);
    BodyOfPrefixed(Base58.Encoded(raw));
  }

  /** Decoding an encoded address gives back its parts exactly when the stream is not 0 and a
      version 4 key hash is not all zero. */
  lemma DecodeOfEncode(sha512: Bytes -> Digest, version: int, stream: int, ripe: Bytes)
    requires EncodeAddress(sha512, version, stream, ripe).Ok?
    ensures DecodeAddress(sha512, EncodeAddress(sha512, version, stream, ripe).value)
            == Ok(Decoded(version, stream, ripe))
            <==> stream != 0 && (version == 4 ==> !AllZero(ripe))
  {
    SealedShape(sha512, version, stream, EmbeddedRipe(version, ripe));
    TextRoundTrip(Sealed(sha512, version, stream, EmbeddedRipe(version, ripe)));
    DecodeOfSealed(sha512, version, stream, ripe);
  }

  // ---- writing what was read ----------------------------------------------------------

  lemma HeaderParts(data: Bytes)
    requires DecodedHeader(data).Ok?
    ensures var (version, stream, embedded) := DecodedHeader(data).value;
      && 2 <= version <= 4 && 1 <= stream < MAX_U64
      && data == Varint.EncodeFit(version) + Varint.EncodeFit(stream) + embedded
  {
    hide Varint.Decode, Varint.Encode;
    var head := data[..if |data| < 9 then |data| else 9];
    var (version, versionLen) := Varint.Decode(head).value;
    Varint.EncodingIsPrefix(head, version, versionLen);
    var rest := data[versionLen..];
    var (stream, streamLen) := Varint.Decode(rest).value;
    Varint.EncodingIsPrefix(rest, stream, streamLen);
    assert data == head[..versionLen] + rest;
    assert rest == rest[..streamLen] + data[versionLen + streamLen..];
  }

  /** An accepted blob of version 4 is the sealed form of what it decodes to. */
  lemma SealedOfDecode(sha512: Bytes -> Digest, raw: Bytes)
    requires DecodeRaw(sha512, raw).Ok? && DecodeRaw(sha512, raw).value.version == 4
    ensures var d := DecodeRaw(sha512, raw).value;
      && 1 <= d.stream < MAX_U64 && |d.ripe| == RIPE_LEN
      && raw == Sealed(sha512, 4, d.stream, EmbeddedRipe(4, d.ripe))
  {
    hide DecodedHeader, Checksum, Varint.EncodeFit;
    var data := CheckedData(sha512, raw).value;
    assert raw == data + raw[|raw| - CHECKSUM_LEN..];
    HeaderParts(data);
    var (_, _, embedded) := DecodedHeader(data).value;
    StripAfterPad(RIPE_LEN - |embedded|, embedded);
    assert LStrip(ZeroBytes(RIPE_LEN - |embedded|) + embedded) == embedded;
  }

  /** Every text that decodes to a version 4 address is, up to surrounding white space and the
      prefix, the one text that encoding its parts produces. */
  lemma EncodeOfDecode(sha512: Bytes -> Digest, text: string)
    requires DecodeAddress(sha512, text).Ok? && DecodeAddress(sha512, text).value.version == 4
    ensures var d := DecodeAddress(sha512, text).value;
      EncodeAddress(sha512, d.version, d.stream, d.ripe) == Ok("BM-" + AddressBody(text))
  {
    var raw := Base58.Decoded(AddressBody(text)).value;
    var d := DecodeRaw(sha512, raw).value;
    SealedOfDecode(sha512, raw);
    SealedShape(sha512, 4, d.stream, EmbeddedRipe(4, d.ripe));
    Base58.EncodeOfDecodeNonzero(AddressBody(text));
  }

  lemma SealedInjective(sha512: Bytes -> Digest, s1: nat, ripe1: Bytes, s2: nat, ripe2: Bytes)
    requires s1 < MAX_U64 && s2 < MAX_U64 && |ripe1| == |ripe2| == RIPE_LEN
    requires Sealed(sha512, 4, s1, EmbeddedRipe(4, ripe1)) == Sealed(sha512, 4, s2, EmbeddedRipe(4, ripe2))
    ensures s1 == s2 && ripe1 == ripe2
  {
    hide Varint.EncodeFit, Checksum, EmbeddedRipe;
    var b1, b2 := EmbeddedRipe(4, ripe1), EmbeddedRipe(4, ripe2);
    var v := Varint.EncodeFit(4);
    var d1, d2 := v + Varint.EncodeFit(s1) + b1, v + Varint.EncodeFit(s2) + b2;
    CancelSuffix(d1, Checksum(sha512, d1), d2, Checksum(sha512, d2));
    CancelPrefix(v, Varint.EncodeFit(s1), b1, Varint.EncodeFit(s2), b2);
    Varint.EncodeInjective(s1, s2, b1, b2);
    EmbeddedPads(4, ripe1);
    EmbeddedPads(4, ripe2);
  }

  /** Two version 4 addresses are the same text only if they are the same address. */
  lemma EncodeInjective(sha512: Bytes -> Digest, s1: nat, ripe1: Bytes, s2: nat, ripe2: Bytes)
    requires EncodeAddress(sha512, 4, s1, ripe1).Ok? && EncodeAddress(sha512, 4, s2, ripe2).Ok?
    requires EncodeAddress(sha512, 4, s1, ripe1) == EncodeAddress(sha512, 4, s2, ripe2)
    ensures s1 == s2 && ripe1 == ripe2
  {
    var raw1 := Sealed(sha512, 4, s1, EmbeddedRipe(4, ripe1));
    var raw2 := Sealed(sha512, 4, s2, EmbeddedRipe(4, ripe2));
    SealedShape(sha512, 4, s1, EmbeddedRipe(4, ripe1));
    SealedShape(sha512, 4, s2, EmbeddedRipe(4, ripe2));
    TextRoundTrip(raw1);
    TextRoundTrip(raw2);
    SealedInjective(sha512, s1, ripe1, s2, ripe2);
  }

  // ---- the texts that stand for an address -----------------------------------------------

  predicate AreSpaces(text: string) {
    forall i :: 0 <= i < |text| ==> IsSpace(text[i])
  }

  /** The white space of ASCII. */
  lemma AsciiSpaces(c: char)
    requires c as int < 128
    ensures IsSpace(c) <==> c == ' ' || '\U{9}' <= c <= '\U{D}' || '\U{1C}' <= c <= '\U{1F}'
  {
  }

  lemma {:induction false} StripLeftSplits(text: string) returns (left: string)
    ensures text == left + StripLeft(text) && AreSpaces(left)
    ensures StripLeft(text) == "" || !IsSpace(StripLeft(text)[0])
  {
    hide IsSpace;
    if text != "" && IsSpace(text[0]) {
      left := StripLeftSplits(text[1..]);
      left := [text[0]] + left;
    } else {
      left := "";
    }
  }

  lemma {:induction false} StripRightSplits(text: string) returns (right: string)
    ensures text == StripRight(text) + right && AreSpaces(right)
    ensures StripRight(text) == "" || !IsSpace(StripRight(text)[|StripRight(text)| - 1])
  {
    hide IsSpace;
    if text != "" && IsSpace(text[|text| - 1]) {
      right := StripRightSplits(text[..|text| - 1]);
      right := right + [text[|text| - 1]];
    } else {
      right := "";
    }
  }

  lemma {:induction false} StripLeftOf(left: string, core: string)
    requires AreSpaces(left) && (core == "" || !IsSpace(core[0]))
    ensures StripLeft(left + core) == core
  {
    hide IsSpace;
    if left == "" {
      assert left + core == core;
    } else {
      assert (left + core)[1..] == left[1..] + core;
      StripLeftOf(left[1..], core);
    }
  }

  lemma {:induction false} StripRightOf(core: string, right: string)
    requires AreSpaces(right) && (core == "" || !IsSpace(core[|core| - 1]))
    ensures StripRight(core + right) == core
  {
    hide IsSpace;
    if right == "" {
      assert core + right == core;
    } else {
      assert (core + right)[..|core + right| - 1] == core + right[..|right| - 1];
      StripRightOf(core, right[..|right| - 1]);
    }
  }

  /** White space around an address and the prefix before it make no difference. */
  lemma DecodeOfSurrounded(sha512: Bytes -> Digest, left: string, prefix: string, code: string, right: string)
    requires AreSpaces(left) && AreSpaces(right) && prefix in {"", "BM-"} && Base58.IsText(code) && code != ""
    ensures DecodeAddress(sha512, left + prefix + code + right) == DecodeAddress(sha512, "BM-" + code)
  {
    hide IsSpace, Strip, DecodeRaw, Base58.Decoded, Base58.Index, Base58.Letter;
    LettersAreNotSpaces(code);
    BodyOf(left, prefix, code, right);
    BodyOf("", "BM-", code, "");
    assert "" + "BM-" + code + "" == "BM-" + code;
  }

  lemma BodyOf(left: string, prefix: string, code: string, right: string)
    requires AreSpaces(left) && AreSpaces(right) && prefix in {"", "BM-"} && Base58.IsText(code) && code != ""
    ensures AddressBody(left + prefix + code + right) == code
  {
    hide IsSpace, AreSpaces, StripLeft, StripRight, Base58.IsText;
    var core := prefix + code;
    CoreIsPlain(prefix, code);
    StripLeftOf(left, core + right);
    StripRightOf(core, right);
    assert left + prefix + code + right == left + (core + right);
  }

  /** The text of an address neither begins nor ends with white space, and its code does not look prefixed. */
  lemma CoreIsPlain(prefix: string, code: string)
    requires prefix in {"", "BM-"} && Base58.IsText(code) && code != ""
    ensures !IsSpace((prefix + code)[0]) && !IsSpace((prefix + code)[|prefix + code| - 1])
    ensures !("BM-" <= code)
  {
    hide Base58.Index;
    LettersAreNotSpaces(code);
    if "BM-" <= code {
      assert code[2] == '-';
      DashIsNoLetter();
    }
  }

  lemma DashIsNoLetter()
    ensures Base58.Index('-') == None
  {
  }

  /** Every text that decodes to a version 4 address is its one code, with or without the prefix, between white
      space. */
  lemma TextsOfAddress(sha512: Bytes -> Digest, text: string) returns (left: string, prefix: string, right: string)
    requires DecodeAddress(sha512, text).Ok? && DecodeAddress(sha512, text).value.version == 4
    ensures AreSpaces(left) && AreSpaces(right) && prefix in {"", "BM-"}
    ensures var d := DecodeAddress(sha512, text).value; var code := EncodeAddress(sha512, 4, d.stream, d.ripe);
      code.Ok? && "BM-" <= code.value && text == left + prefix + code.value[3..] + right
  {
    hide AreSpaces, DecodeAddress, EncodeAddress, AddressBody;
    EncodeOfDecode(sha512, text);
    left, prefix, right := TextSplits(text);
    var body := AddressBody(text);
    assert ("BM-" + body)[3..] == body;
  }

  lemma TextSplits(text: string) returns (left: string, prefix: string, right: string)
    ensures AreSpaces(left) && AreSpaces(right) && prefix in {"", "BM-"}
    ensures text == left + prefix + AddressBody(text) + right
  {
    hide IsSpace, StripLeft, StripRight;
    left := StripLeftSplits(text);
    right := StripRightSplits(StripLeft(text));
    prefix := if "BM-" <= Strip(text) then "BM-" else "";
    assert Strip(text) == prefix + AddressBody(text);
    assert text == left + (Strip(text) + right);
  }
}
