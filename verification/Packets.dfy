/** Packet framing and inventory payloads (bmchat/protocol/packets.py). */
module Packets {
  import opened Positional
  import opened Bytes
  import Varint

  const MAGIC: nat := 0xE9BEB4D9
  const HEADER_SIZE := 24
  const COMMAND_SIZE := 12
  const HASH_SIZE := 32
  const MAX_OBJECT_COUNT: nat := 50000

  /** Unicode replacement character, for command bytes outside ASCII. */
  const REPLACEMENT: nat := 0xFFFD

  /** `command[:12].ljust(12, b"\x00")` */
  function PadCommand(command: Bytes): (field: Bytes)
    ensures |field| == COMMAND_SIZE
  {
    if |command| >= COMMAND_SIZE then command[..COMMAND_SIZE]
    else command + ZeroBytes(COMMAND_SIZE - |command|)
  }

  /** `field.decode("ascii", "replace")`, as code points. */
  function DecodeAscii(field: Bytes): (text: seq<nat>)
    ensures |text| == |field|
    ensures forall i :: 0 <= i < |field| ==> text[i] == if field[i] < 0x80 then field[i] else 0xFFFD
  {
    seq(|field|, i requires 0 <= i < |field| => if field[i] < 128 then field[i] as nat else REPLACEMENT)
  }

  /** `text.rstrip("\x00")` */
  function RStripNul(text: seq<nat>): seq<nat> {
    if text != [] && text[|text| - 1] == 0 then RStripNul(text[..|text| - 1]) else text
  }

  /** Fails only for a payload whose length does not fit the 32-bit field. */
  function CreatePacket(sha512: Bytes -> Digest, command: Bytes, payload: Bytes): (r: Result<Bytes, ()>)
    ensures r.Ok? <==> |payload| < 0x1_0000_0000
  {
    if |payload| >= MAX_U32 then Err(())
    else Ok(PacketHeader(sha512, command, payload) + payload)
  }

  function PacketHeader(sha512: Bytes -> Digest, command: Bytes, payload: Bytes): (header: Bytes)
    ensures |header| == HEADER_SIZE
  {
    BigEndian(MAGIC, 4) + PadCommand(command) + BigEndian(|payload|, 4) + sha512(payload)[..4]
  }

  datatype Header = Header(magic: nat, command: seq<nat>, length: nat, checksum: Bytes)

  function ParseHeader(blob: Bytes): Header
    requires |blob| == HEADER_SIZE
  {
    Header(FromBigEndian(blob[..4]), RStripNul(DecodeAscii(blob[4..16])), FromBigEndian(blob[16..20]), blob[20..])
  }

  predicate IsAscii(command: Bytes) {
    forall i :: 0 <= i < |command| ==> command[i] < 128
  }

  lemma {:induction false} RStripPadded(command: Bytes, k: nat)
    requires command == [] || command[|command| - 1] != 0
    ensures RStripNul(command + Zeros(k)) == command
    decreases k
  {
    var all: seq<nat> := command + Zeros(k);
    if k > 0 {
      assert all[..|all| - 1] == command + Zeros(k - 1);
      RStripPadded(command, k - 1);
    } else {
      assert all == command;
    }
  }

  lemma {:induction false} RStripLastNonzero(text: seq<nat>)
    ensures RStripNul(text) != [] ==> RStripNul(text)[|RStripNul(text)| - 1] != 0
    ensures |RStripNul(text)| <= |text|
  {
    if text != [] && text[|text| - 1] == 0 {
      RStripLastNonzero(text[..|text| - 1]);
    }
  }

  lemma DecodeAsciiIdentity(field: Bytes)
    requires IsAscii(field)
    ensures DecodeAscii(field) == field
  {
  }

  /** Only commands of at most twelve ASCII bytes that do not end in NUL survive the header. */
  lemma CommandRoundTrip(command: Bytes)
    requires IsAscii(command)
    ensures RStripNul(DecodeAscii(PadCommand(command))) == command <==>
            |command| <= COMMAND_SIZE && (command == [] || command[|command| - 1] != 0)
  {
    var field := PadCommand(command);
    DecodeAsciiIdentity(field);
    RStripLastNonzero(field);
    if |command| <= COMMAND_SIZE && (command == [] || command[|command| - 1] != 0) {
      assert field == command + Zeros(COMMAND_SIZE - |command|);
      RStripPadded(command, COMMAND_SIZE - |command|);
    }
  }

  lemma {:induction false} RStripPads(text: seq<nat>)
    ensures RStripNul(text) <= text && text == RStripNul(text) + Zeros(|text| - |RStripNul(text)|)
  {
    if text != [] && text[|text| - 1] == 0 {
      var front := text[..|text| - 1];
      RStripPads(front);
      assert text == front + [0];
    }
  }

  /** An ASCII command is read from one field only, the one that is written for it. */
  lemma FieldOfCommand(field: Bytes, command: Bytes)
    requires |field| == COMMAND_SIZE && IsAscii(command) && RStripNul(DecodeAscii(field)) == command
    ensures field == PadCommand(command)
  {
    var text := DecodeAscii(field);
    RStripPads(text);
    forall i | 0 <= i < |field|
      ensures field[i] == PadCommand(command)[i]
    {
      assert text[i] == if i < |command| then command[i] else 0;
    }
  }

  /** A header of the network with an ASCII command is, byte for byte, the one written for what it reports. */
  lemma HeaderOfParsed(blob: Bytes, command: Bytes)
    requires |blob| == HEADER_SIZE && IsAscii(command)
    requires ParseHeader(blob).magic == MAGIC && ParseHeader(blob).command == command
    ensures ParseHeader(blob).length < MAX_U32 && |ParseHeader(blob).checksum| == 4
    ensures blob == BigEndian(MAGIC, 4) + PadCommand(command) + BigEndian(ParseHeader(blob).length, 4)
                    + ParseHeader(blob).checksum
  {
    hide BigEndian, FromBigEndian, PadCommand, DecodeAscii, RStripNul;
    Widths();
    BigEndianOfValue(blob[..4]);
    BigEndianOfValue(blob[16..20]);
    FieldOfCommand(blob[4..16], command);
    assert blob == blob[..4] + blob[4..16] + blob[16..20] + blob[20..];
  }

  /** A parsed header reports magic, length and checksum of the packet it was made for. */
  lemma HeaderRoundTrip(sha512: Bytes -> Digest, command: Bytes, payload: Bytes)
    requires |payload| < MAX_U32
    ensures ParseHeader(PacketHeader(sha512, command, payload)) ==
            Header(MAGIC, RStripNul(DecodeAscii(PadCommand(command))), |payload|, sha512(payload)[..4])
  {
    hide BigEndian, FromBigEndian, PadCommand, DecodeAscii, RStripNul;
    var m, f, n, k := BigEndian(MAGIC, 4), PadCommand(command), BigEndian(|payload|, 4), sha512(payload)[..4];
    var blob := PacketHeader(sha512, command, payload);
    assert blob == m + f + n + k;
    assert blob[..4] == m && blob[4..16] == f && blob[16..20] == n && blob[20..] == k;
    Widths();
    BigEndianRoundTrip(MAGIC, 4);
    BigEndianRoundTrip(|payload|, 4);
  }

  // ---- inventory ----------------------------------------------------------------------

  predicate AreHashes(hashes: seq<Bytes>) {
    forall i :: 0 <= i < |hashes| ==> |hashes[i]| == HASH_SIZE
  }

  /** What the payload of an inv or getdata packet is: the count, then the hashes. */
  function Inventory(hashes: seq<Bytes>): Bytes
    requires |hashes| < MAX_U64
  {
    Varint.EncodeFit(|hashes|) + Join(hashes)
  }

  /** The first `n` whole hashes of a buffer, as many as there are. */
  function Chunks(blob: Bytes, n: nat): (hashes: seq<Bytes>)
    ensures AreHashes(hashes)
    decreases n
  {
    if n == 0 || |blob| < HASH_SIZE then []
    else [blob[..HASH_SIZE]] + Chunks(blob[HASH_SIZE..], n - 1)
  }

  function Listed(payload: Bytes): Result<seq<Bytes>, Varint.VarintError> {
    match Varint.Decode(payload)
    case Err(e) => Err(e)
    case Ok((count, position)) =>
      Ok(Chunks(payload[position..], if count > MAX_OBJECT_COUNT then MAX_OBJECT_COUNT else count))
  }

  method AssembleInventory(hashes: seq<Bytes>) returns (payload: Bytes)
    requires |hashes| < MAX_U64
    ensures payload == Inventory(hashes)
  {
    hide Varint.EncodeFit;
    payload := Varint.EncodeFit(|hashes|);
    for i := 0 to |hashes|
      invariant payload == Varint.EncodeFit(|hashes|) + Join(hashes[..i])
    {
      assert hashes[..i + 1][..i] == hashes[..i];
      payload := payload + hashes[i];
    }
    assert hashes[..|hashes|] == hashes;
  }

  method ParseInventory(payload: Bytes) returns (r: Result<seq<Bytes>, Varint.VarintError>)
    ensures r == Listed(payload)
  {
    hide Varint.Decode, Chunks;
    var decoded := Varint.Decode(payload);
    if decoded.Err? {
      return Err(decoded.error);
    }
    var (count, position) := decoded.value;
    ghost var body := payload[position..];
    if count > MAX_OBJECT_COUNT {
      count := MAX_OBJECT_COUNT;
    }
    var result: seq<Bytes> := [];
    for i := 0 to count
      invariant 0 <= position <= |payload|
      invariant Chunks(body, count) == result + Chunks(payload[position..], count - i)
    {
      ChunksStep(payload, position, count - i, result);
      if |payload| < position + HASH_SIZE {
        return Ok(result);
      }
      result := result + [payload[position..position + HASH_SIZE]];
      position := position + HASH_SIZE;
    }
    NoChunks(payload[position..], result);
    r := Ok(result);
  }

  lemma NoChunks(blob: Bytes, result: seq<Bytes>)
    ensures result + Chunks(blob, 0) == result
  {
  }

  /** Reading one more hash, when there is a whole one. */
  lemma ChunksStep(payload: Bytes, position: nat, n: nat, result: seq<Bytes>)
    requires position <= |payload| && n > 0
    ensures result + Chunks(payload[position..], n) ==
            if |payload| < position + HASH_SIZE then result
            else result + [payload[position..position + HASH_SIZE]] + Chunks(payload[position + HASH_SIZE..], n - 1)
  {
    var rest := payload[position..];
    if |rest| >= HASH_SIZE {
      assert payload[position..position + HASH_SIZE] == rest[..HASH_SIZE];
      assert payload[position + HASH_SIZE..] == rest[HASH_SIZE..];
    }
  }

  lemma {:induction false} JoinFirst(fields: seq<Bytes>)
    requires fields != []
    ensures Join(fields) == fields[0] + Join(fields[1..])
  {
    var n := |fields|;
    if n > 1 {
      JoinFirst(fields[..n - 1]);
      assert fields[..n - 1][1..] == fields[1..][..n - 2];
      assert fields[1..][n - 2] == fields[n - 1];
    } else {
      assert fields[..0] == [];
    }
  }

  lemma {:induction false} ChunksOfJoin(hashes: seq<Bytes>)
    requires AreHashes(hashes)
    ensures Chunks(Join(hashes), |hashes|) == hashes
    ensures |Join(hashes)| == HASH_SIZE * |hashes|
  {
    if hashes != [] {
      JoinFirst(hashes);
      ChunksOfJoin(hashes[1..]);
      assert Join(hashes)[..HASH_SIZE] == hashes[0] && Join(hashes)[HASH_SIZE..] == Join(hashes[1..]);
    }
  }

  lemma {:induction false} ChunksPrefix(hashes: seq<Bytes>, n: nat)
    requires AreHashes(hashes) && n <= |hashes|
    ensures Chunks(Join(hashes), n) == hashes[..n]
    decreases n
  {
    if n > 0 {
      JoinFirst(hashes);
      ChunksPrefix(hashes[1..], n - 1);
      assert Join(hashes)[..HASH_SIZE] == hashes[0] && Join(hashes)[HASH_SIZE..] == Join(hashes[1..]);
      assert hashes[..n] == [hashes[0]] + hashes[1..][..n - 1];
    }
  }

  /** Parsing gives back the hashes that were written, the first 50000 of them. */
  lemma InventoryRoundTrip(hashes: seq<Bytes>)
    requires AreHashes(hashes) && |hashes| < MAX_U64
    ensures Listed(Inventory(hashes)) ==
            Ok(hashes[..if |hashes| <= 50000 then |hashes| else 50000])
    ensures |Inventory(hashes)| <= 9 + 32 * |hashes|
    ensures |hashes| < MAX_U16 ==> |Inventory(hashes)| <= 3 + 32 * |hashes|
  {
    hide Varint.EncodeFit, Varint.Decode;
    var payload := Inventory(hashes);
    var position := |Varint.EncodeFit(|hashes|)|;
    Varint.PrefixDecodes(payload, |hashes|);
    assert payload[position..] == Join(hashes);
    ChunksOfJoin(hashes);
    ChunksPrefix(hashes, if |hashes| <= MAX_OBJECT_COUNT then |hashes| else MAX_OBJECT_COUNT);
  }
}
