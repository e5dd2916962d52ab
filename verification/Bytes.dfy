/** Byte strings, big-endian integers and the fixed-length digests the wire formats use. */
module Bytes {
  import opened Positional

  type Byte = b: nat | b < 256
  type Bytes = seq<Byte>
  type Digest = d: Bytes | |d| == 64 witness Fixed(0, 64, 256)

  const MAX_U16 := 0x1_0000
  const MAX_U32 := 0x1_0000_0000
  const MAX_U64 := 0x1_0000_0000_0000_0000

  datatype Result<+T, +E> = Ok(value: T) | Err(error: E)
  datatype Option<+T> = None | Some(value: T)

  /** `double_sha512`, over any hash with 64-byte digests. */
  function DoubleSha512(sha512: Bytes -> Digest, data: Bytes): Digest {
    sha512(sha512(data))
  }

  /** `n.to_bytes(width, "big")` for an `n` that fits. */
  function BigEndian(n: nat, width: nat): (bs: Bytes)
    ensures |bs| == width
  {
    AsBytes(Fixed(n, width, 256))
  }

  function FromBigEndian(bs: Bytes): nat {
    Value(bs, 256)
  }

  function AsBytes(ds: seq<nat>): (bs: Bytes)
    requires AreDigits(ds, 256)
    ensures bs == ds
  {
    seq(|ds|, i requires 0 <= i < |ds| => ds[i])
  }

  function ZeroBytes(n: nat): (bs: Bytes)
    ensures |bs| == n && bs == Zeros(n)
  {
    AsBytes(Zeros(n))
  }

  /** `bs.lstrip(b"\x00")` */
  function LStrip(bs: Bytes): (r: Bytes)
    ensures |r| <= |bs| && (r != [] ==> r[0] != 0)
  {
    AsBytes(StripZeros(bs))
  }

  lemma LStripPads(bs: Bytes)
    ensures bs == ZeroBytes(|bs| - |LStrip(bs)|) + LStrip(bs)
    ensures |LStrip(bs)| == |bs| - LeadingZeros(bs)
  {
    StripZerosPads(bs);
  }

  lemma {:induction false} LeadingZerosIs(bs: Bytes, k: nat)
    requires k <= |bs| && (forall i :: 0 <= i < k ==> bs[i] == 0) && (k < |bs| ==> bs[k] != 0)
    ensures LeadingZeros(bs) == k
  {
    if k > 0 {
      LeadingZerosIs(bs[1..], k - 1);
    }
  }

  lemma LStripIs(bs: Bytes, k: nat)
    requires k <= |bs| && (forall i :: 0 <= i < k ==> bs[i] == 0) && (k < |bs| ==> bs[k] != 0)
    ensures LStrip(bs) == bs[k..]
  {
    LeadingZerosIs(bs, k);
  }

  lemma Widths()
    ensures Pow(256, 1) == 256
    ensures Pow(256, 2) == MAX_U16
    ensures Pow(256, 4) == MAX_U32
    ensures Pow(256, 8) == MAX_U64
  {
    assert Pow(256, 3) == 256 * Pow(256, 2);
    assert Pow(256, 5) == 256 * Pow(256, 4);
    assert Pow(256, 6) == 256 * Pow(256, 5);
    assert Pow(256, 7) == 256 * Pow(256, 6);
  }

  lemma BigEndianRoundTrip(n: nat, width: nat)
    requires n < Pow(256, width)
    ensures FromBigEndian(BigEndian(n, width)) == n
  {
    ValueOfFixed(n, width, 256);
  }

  lemma BigEndianOfValue(bs: Bytes)
    ensures FromBigEndian(bs) < Pow(256, |bs|)
    ensures BigEndian(FromBigEndian(bs), |bs|) == bs
  {
    ValueBound(bs, 256);
    FixedOfValue(bs, 256);
  }

  lemma CancelSuffix(a: Bytes, x: Bytes, b: Bytes, y: Bytes)
    requires a + x == b + y && |x| == |y|
    ensures a == b && x == y
  {
    assert a == (a + x)[..|a|] && b == (b + y)[..|b|];
    assert x == (a + x)[|a|..] && y == (b + y)[|b|..];
  }

  lemma CancelPrefix(p: Bytes, a: Bytes, x: Bytes, b: Bytes, y: Bytes)
    requires p + a + x == p + b + y
    ensures a + x == b + y
  {
    assert a + x == (p + a + x)[|p|..];
    assert b + y == (p + b + y)[|p|..];
  }

  /** The slice `bs[from : from + width]`, which stops at the end of the buffer. */
  function Window(bs: Bytes, from: nat, width: nat): (w: Bytes)
    ensures |w| <= width
    ensures from + width <= |bs| ==> w == bs[from..from + width]
  {
    var lo := if from <= |bs| then from else |bs|;
    var hi := if from + width <= |bs| then from + width else |bs|;
    bs[lo..hi]
  }

  /** A record laid out field after field. */
  function Join(fields: seq<Bytes>): Bytes {
    if fields == [] then [] else Join(fields[..|fields| - 1]) + fields[|fields| - 1]
  }

  function Offset(fields: seq<Bytes>, i: nat): nat
    requires i <= |fields|
  {
    |Join(fields[..i])|
  }

  /** Field `i` of a record is found at its offset. */
  lemma {:induction false} FieldAt(fields: seq<Bytes>, i: nat)
    requires i < |fields|
    ensures Offset(fields, i + 1) == Offset(fields, i) + |fields[i]| <= |Join(fields)|
    ensures Join(fields)[Offset(fields, i)..Offset(fields, i + 1)] == fields[i]
    ensures Join(fields)[..Offset(fields, i)] == Join(fields[..i])
    ensures Join(fields)[..Offset(fields, i + 1)] == Join(fields[..i + 1])
    decreases |fields|
  {
    var n := |fields|;
    var front := fields[..n - 1];
    assert fields[..i + 1][..i] == fields[..i];
    if i == n - 1 {
      assert fields[..n] == fields;
    } else {
      FieldAt(front, i);
      assert front[..i] == fields[..i] && front[..i + 1] == fields[..i + 1];
    }
  }
}
