/** Variable length integers (bmchat/util/varint.py): one to nine bytes, with
    non-minimal encodings refused on reading. */
module Varint {
  import opened Positional
  import opened Bytes

  datatype VarintError = Negative | TooLarge | TruncatedEmpty | Truncated | NotMinimal

  function Encode(n: int): (r: Result<Bytes, VarintError>)
  {
    if n < 0 then Err(Negative)
    else if n < 253 then Ok(BigEndian(n, 1))
    else if n < MAX_U16 then Ok([253] + BigEndian(n, 2))
    else if n < MAX_U32 then Ok([254] + BigEndian(n, 4))
    else if n < MAX_U64 then Ok([255] + BigEndian(n, 8))
    else Err(TooLarge)
  }

  /** The encoding of a number known to fit in 64 bits. */
  function EncodeFit(n: nat): (bs: Bytes)
    requires n < MAX_U64
    ensures 1 <= |bs| <= 9
    ensures n < MAX_U16 ==> |bs| <= 3
    ensures n < MAX_U32 ==> |bs| <= 5
    ensures n < 253 ==> |bs| == 1
  {
    Encode(n).value
  }

  function DecodePrefixed(data: Bytes, length: nat, minimum: nat): (r: Result<(nat, nat), VarintError>)
    requires 1 <= length <= 9
    ensures r.Ok? ==> r.value.1 == length <= |data| && r.value.0 < Pow(256, length - 1)
  {
    if |data| < length then Err(Truncated)
    else
      BigEndianOfValue(data[1..length]);
      var value := FromBigEndian(data[1..length]);
      if value < minimum then Err(NotMinimal) else Ok((value, length))
  }

  function Decode(data: Bytes): (r: Result<(nat, nat), VarintError>)
    ensures r.Ok? ==> 1 <= r.value.1 <= |data| && r.value.1 <= 9 && r.value.0 < MAX_U64
  {
    Widths();
    if data == [] then Err(TruncatedEmpty)
    else if data[0] < 253 then Ok((data[0], 1))
    else if data[0] == 253 then DecodePrefixed(data, 3, 253)
    else if data[0] == 254 then DecodePrefixed(data, 5, 65536)
    else DecodePrefixed(data, 9, 4294967296)
  }

  lemma OneByte(b: Byte)
    ensures FromBigEndian([b]) == b
    ensures BigEndian(b, 1) == [b]
  {
    assert [b][..0] == [];
    assert Value([b], 256) == 0 * 256 + b;
    BigEndianOfValue([b]);
  }

  /** Reading exactly undoes writing: a buffer decodes to `v` over `length` bytes
      precisely when it starts with the (unique) encoding of `v`. */
  lemma DecodeIffEncoding(data: Bytes, v: nat, length: nat)
    ensures Decode(data) == Ok((v, length)) <==>
            Encode(v).Ok? && |Encode(v).value| == length && Encode(v).value <= data
  {
    Widths();
    if Decode(data) == Ok((v, length)) {
      EncodingIsPrefix(data, v, length);
    }
    if Encode(v).Ok? && |Encode(v).value| == length && Encode(v).value <= data {
      PrefixDecodes(data, v);
    }
  }

  lemma EncodingIsPrefix(data: Bytes, v: nat, length: nat)
    requires Decode(data) == Ok((v, length))
    ensures v < MAX_U64 && length <= |data| && Encode(v) == Ok(data[..length])
  {
    hide BigEndian, FromBigEndian;
    Widths();
    if length == 1 {
      OneByte(data[0]);
      assert data[..1] == [data[0]];
    } else {
      BigEndianOfValue(data[1..length]);
      assert data[..length] == [data[0]] + data[1..length];
    }
  }

  lemma MarkedDecodes(data: Bytes, v: nat, marker: Byte, width: nat, minimum: nat)
    requires width <= 8 && minimum <= v < Pow(256, width)
    requires [marker] + BigEndian(v, width) <= data
    ensures data[0] == marker && DecodePrefixed(data, 1 + width, minimum) == Ok((v, 1 + width))
  {
    hide BigEndian, FromBigEndian;
    var bs := [marker] + BigEndian(v, width);
    assert data[0] == bs[0] && data[1..1 + width] == bs[1..1 + width] == BigEndian(v, width);
    BigEndianRoundTrip(v, width);
  }

  lemma PrefixDecodes(data: Bytes, v: nat)
    requires v < MAX_U64 && EncodeFit(v) <= data
    ensures Decode(data) == Ok((v, |EncodeFit(v)|))
  {
    hide BigEndian, FromBigEndian, DecodePrefixed;
    Widths();
    if v < 253 {
      BigEndianRoundTrip(v, 1);
      OneByte(data[0]);
      assert data[0] == EncodeFit(v)[0];
      assert EncodeFit(v) == [data[0]];
    } else if v < MAX_U16 {
      MarkedDecodes(data, v, 253, 2, 253);
    } else if v < MAX_U32 {
      MarkedDecodes(data, v, 254, 4, 65536);
    } else {
      MarkedDecodes(data, v, 255, 8, 4294967296);
    }
  }

  /** Decoding needs no more than the first nine bytes. */
  lemma DecodeFirstNine(data: Bytes, n: nat)
    requires 9 <= n <= |data|
    ensures Decode(data[..n]) == Decode(data)
  {
    if data[0] >= 253 {
      var length := if data[0] == 253 then 3 else if data[0] == 254 then 5 else 9;
      assert data[..n][1..length] == data[1..length];
    }
  }

  lemma EncodeInjective(a: nat, b: nat, x: Bytes, y: Bytes)
    requires a < MAX_U64 && b < MAX_U64
    requires EncodeFit(a) + x == EncodeFit(b) + y
    ensures a == b && x == y
  {
    PrefixDecodes(EncodeFit(a) + x, a);
    PrefixDecodes(EncodeFit(b) + y, b);
    assert (EncodeFit(a) + x)[|EncodeFit(a)|..] == x;
    assert (EncodeFit(b) + y)[|EncodeFit(b)|..] == y;
  }
}
