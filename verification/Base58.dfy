/** Base58 text (bmchat/util/base58.py): both loops, what they compute, and the exact
    inputs on which each undoes the other. */
module Base58 {
  import opened Positional
  import opened Bytes

  /** Digits and letters without 0, I, O and l, as six runs of consecutive characters. */
  const ALPHABET: string :=
    "123456789" + "ABCDEFGH" + "JKLMN" + "PQRSTUVWXYZ" + "abcdefghijk" + "mnopqrstuvwxyz"
  const MAX_TEXT := 100

  datatype Base58Error = TooLong | InvalidCharacter

  /** The letter for a digit, by the run it lies in. */
  function Letter(d: nat): char
    requires d < 58
  {
    if d < 9 then '1' + d as char
    else if d < 17 then 'A' + (d - 9) as char
    else if d < 22 then 'J' + (d - 17) as char
    else if d < 33 then 'P' + (d - 22) as char
    else if d < 44 then 'a' + (d - 33) as char
    else 'm' + (d - 44) as char
  }

  /** These are the letters of the alphabet, in order. */
  lemma LetterOfAlphabet(d: nat)
    requires d < 58
    ensures |ALPHABET| == 58 && ALPHABET[d] == Letter(d)
  {
  }

  /** The 58 letters are distinct. */
  lemma AlphabetDistinct()
    ensures forall i, j :: 0 <= i < j < 58 ==> Letter(i) != Letter(j)
    ensures |ALPHABET| == 58 && forall i, j :: 0 <= i < j < 58 ==> ALPHABET[i] != ALPHABET[j]
  {
    LettersDistinct();
    hide Letter;
    LetterOfAlphabet(0);
    forall i, j | 0 <= i < j < 58
      ensures ALPHABET[i] != ALPHABET[j]
    {
      LetterOfAlphabet(i);
      LetterOfAlphabet(j);
    }
  }

  lemma LettersDistinct()
    ensures forall i, j :: 0 <= i < j < 58 ==> Letter(i) != Letter(j)
  {
  }

  function IndexFrom(c: char, i: nat): (r: Option<nat>)
    requires i <= 58
    ensures r.Some? ==> i <= r.value < 58 && Letter(r.value) == c
    ensures r.None? ==> forall k :: i <= k < 58 ==> Letter(k) != c
    decreases 58 - i
  {
    hide Letter;
    if i == 58 then None
    else if Letter(i) == c then Some(i)
    else IndexFrom(c, i + 1)
  }

  /** `_INDEX.get(c)` */
  function Index(c: char): Option<nat> {
    IndexFrom(c, 0)
  }

  lemma IndexOfAlphabet(d: nat)
    requires d < 58
    ensures Index(Letter(d)) == Some(d)
  {
    LettersDistinct();
    hide Letter;
    assert Index(Letter(d)).Some?;
  }

  predicate IsText(text: string) {
    forall i :: 0 <= i < |text| ==> Index(text[i]).Some?
  }

  function Letters(ds: seq<nat>): (text: string)
    requires AreDigits(ds, 58)
    ensures |text| == |ds|
    ensures forall i :: 0 <= i < |ds| ==> text[i] == Letter(ds[i])
  {
    seq(|ds|, i requires 0 <= i < |ds| => Letter(ds[i]))
  }

  function DigitsOf(text: string): (ds: seq<nat>)
    requires IsText(text)
    ensures |ds| == |text| && AreDigits(ds, 58)
    ensures forall i :: 0 <= i < |ds| ==> text[i] == Letter(ds[i])
  {
    seq(|text|, i requires 0 <= i < |text| => Index(text[i]).value)
  }

  lemma LettersInverse(ds: seq<nat>)
    requires AreDigits(ds, 58)
    ensures IsText(Letters(ds)) && DigitsOf(Letters(ds)) == ds
  {
    forall i | 0 <= i < |ds|
      ensures Index(Letters(ds)[i]) == Some(ds[i])
    {
      IndexOfAlphabet(ds[i]);
    }
  }

  lemma DigitsOfInverse(text: string)
    requires IsText(text)
    ensures Letters(DigitsOf(text)) == text
  {
  }

  /** What encoding produces: one '1' per leading zero byte, then the digits of the number. */
  function Encoded(blob: Bytes): (text: string)
  {
    DigitsAreDigits(FromBigEndian(blob), 58);
    if blob == [] then "1"
    else if FromBigEndian(blob) == 0 then Letters(Zeros(|blob|))
    else Letters(Zeros(LeadingZeros(blob)) + Digits(FromBigEndian(blob), 58))
  }

  /** What decoding produces. */
  function Decoded(text: string): Result<Bytes, Base58Error>
  {
    if |text| > MAX_TEXT then Err(TooLong)
    else if !IsText(text) then Err(InvalidCharacter)
    else
      var num := Value(DigitsOf(text), 58);
      if num == 0 then Ok([0])
      else Ok(ZeroBytes(LeadingZeros(DigitsOf(text))) + Minimal(num))
  }

  /** `n.to_bytes((n.bit_length() + 7) // 8, "big")` */
  function Minimal(n: nat): (bs: Bytes)
    ensures n > 0 ==> bs != [] && bs[0] != 0
    ensures bs == Digits(n, 256)
  {
    DigitsAreDigits(n, 256);
    AsBytes(Digits(n, 256))
  }

  method EncodeBase58(blob: Bytes) returns (text: string)
    ensures text == Encoded(blob)
  {
    if blob == [] {
      return "1";
    }
    var pad := |blob| - |LStrip(blob)|;
    StripValue(blob);
    var num: nat := FromBigEndian(blob);
    if num == 0 {
      ZeroValue(blob);
      assert pad == |blob|;
      return Letters(Zeros(pad));
    }
    var arr: seq<nat> := [];
    ghost var whole := num;
    DigitsAreDigits(whole, 58);
    while num != 0
      invariant AreDigits(arr, 58)
      invariant Digits(num, 58) + arr == Digits(whole, 58)
      decreases num
    {
      assert Digits(num, 58) + arr == Digits(num / 58, 58) + ([num % 58] + arr);
      arr := [num % 58] + arr;
      num := num / 58;
    }
    assert arr == Digits(whole, 58);
    text := Letters(Zeros(pad) + arr);
  }

  method DecodeBase58(text: string) returns (r: Result<Bytes, Base58Error>)
    ensures r == Decoded(text)
  {
    hide Index, Value, LeadingZeros, Minimal;
    if |text| > MAX_TEXT {
      return Err(TooLong);
    }
    var num: nat, pad: nat := 0, 0;
    NothingDecoded(text);
    for i := 0 to |text|
      invariant IsText(text[..i])
      invariant num == Value(DigitsOf(text[..i]), 58)
      invariant pad == LeadingZeros(DigitsOf(text[..i]))
      invariant num == 0 <==> pad == i
    {
      var c := text[i];
      ghost var before := text[..i];
      assert text[..i + 1] == before + [c];
      if c == '1' && num == 0 {
        pad := pad + 1;
      }
      var index := Index(c);
      if index.None? {
        assert text[i] == c;
        return Err(InvalidCharacter);
      }
      AppendDigit(before, c);
      num := num * 58 + index.value;
    }
    assert text[..|text|] == text;
    if num == 0 {
      return Ok([0]);
    }
    r := Ok(ZeroBytes(pad) + Minimal(num));
  }

  lemma NothingDecoded(text: string)
    ensures IsText(text[..0]) && Value(DigitsOf(text[..0]), 58) == 0 && LeadingZeros(DigitsOf(text[..0])) == 0
  {
  }

  /** One more character: the number, and the run of leading ones. */
  lemma AppendDigit(text: string, c: char)
    requires IsText(text) && Index(c).Some?
    ensures IsText(text + [c])
    ensures var ds, d := DigitsOf(text), Index(c).value;
      && DigitsOf(text + [c]) == ds + [d]
      && Value(ds + [d], 58) == Value(ds, 58) * 58 + d
      && LeadingZeros(ds + [d]) == LeadingZeros(ds) + (if LeadingZeros(ds) == |ds| && d == 0 then 1 else 0)
    ensures c == '1' <==> Index(c).value == 0
  {
    var ds, d := DigitsOf(text), Index(c).value;
    assert DigitsOf(text + [c]) == ds + [d];
    ValueAppend(ds, d, 58);
    LeadingZerosAppend(ds, d);
    IndexOfAlphabet(0);
    assert Letter(0) == '1';
    assert Letter(d) == c;
  }

  lemma {:induction false} LeadingZerosAppend(ds: seq<nat>, d: nat)
    ensures LeadingZeros(ds + [d]) == LeadingZeros(ds) + (if LeadingZeros(ds) == |ds| && d == 0 then 1 else 0)
  {
    if ds != [] && ds[0] == 0 {
      assert (ds + [d])[1..] == ds[1..] + [d];
      LeadingZerosAppend(ds[1..], d);
    } else if ds == [] {
      assert (ds + [d])[1..] == [];
    }
  }

  lemma StripValue(blob: Bytes)
    ensures |blob| - |LStrip(blob)| == LeadingZeros(blob)
    ensures FromBigEndian(LStrip(blob)) == FromBigEndian(blob)
  {
    LStripPads(blob);
    ValueIgnoresZeros(LeadingZeros(blob), LStrip(blob), 256);
  }

  /** A digit string is worth zero exactly when it is all zeros. */
  lemma ZeroValueBase(ds: seq<nat>, base: nat)
    requires base >= 2
    ensures Value(ds, base) == 0 <==> LeadingZeros(ds) == |ds|
    ensures Value(ds, base) == 0 <==> AllZero(ds)
  {
    var k, rest := LeadingZeros(ds), StripZeros(ds);
    StripZerosPads(ds);
    ValueIgnoresZeros(k, rest, base);
    if rest != [] {
      ValuePositive(rest, base);
      assert ds[k] != 0;
    } else {
      assert ds == Zeros(k);
    }
  }

  lemma ZeroValue(blob: Bytes)
    ensures FromBigEndian(blob) == 0 <==> LeadingZeros(blob) == |blob|
    ensures FromBigEndian(blob) == 0 <==> AllZero(blob)
  {
    ZeroValueBase(blob, 256);
  }

  /** The digit string behind an encoded blob. */
  ghost function EncodedDigits(blob: Bytes): (ds: seq<nat>)
    ensures AreDigits(ds, 58) && Letters(ds) == Encoded(blob)
  {
    var num := FromBigEndian(blob);
    DigitsAreDigits(num, 58);
    ZeroValue(blob);
    if num == 0 then Zeros(if blob == [] then 1 else |blob|)
    else Zeros(LeadingZeros(blob)) + Digits(num, 58)
  }

  lemma DecodedLetters(ds: seq<nat>)
    requires AreDigits(ds, 58) && |ds| <= MAX_TEXT
    ensures Decoded(Letters(ds)) ==
            if AllZero(ds) then Ok([0]) else Ok(ZeroBytes(LeadingZeros(ds)) + Minimal(Value(ds, 58)))
  {
    LettersInverse(ds);
    ZeroValueBase(ds, 58);
  }

  /** The digits written for a nonzero blob carry its number and its leading zeros. */
  lemma EncodedDigitsOfNonzero(blob: Bytes)
    requires !AllZero(blob)
    ensures !AllZero(EncodedDigits(blob))
    ensures Value(EncodedDigits(blob), 58) == FromBigEndian(blob)
    ensures LeadingZeros(EncodedDigits(blob)) == LeadingZeros(blob)
  {
    var k, num := LeadingZeros(blob), FromBigEndian(blob);
    ZeroValue(blob);
    DigitsAreDigits(num, 58);
    ValueIgnoresZeros(k, Digits(num, 58), 58);
    ValueOfDigits(num, 58);
    ZeroValueBase(EncodedDigits(blob), 58);
    StripAfterPad(k, Digits(num, 58));
  }

  lemma MinimalOfStripped(blob: Bytes)
    ensures ZeroBytes(LeadingZeros(blob)) + Minimal(FromBigEndian(blob)) == blob
  {
    StripValue(blob);
    LStripPads(blob);
    DigitsOfValue(LStrip(blob), 256);
  }

  lemma DecodeOfNonzero(blob: Bytes)
    requires !AllZero(blob) && |Encoded(blob)| <= MAX_TEXT
    ensures Decoded(Encoded(blob)) == Ok(blob)
  {
    DecodedLetters(EncodedDigits(blob));
    EncodedDigitsOfNonzero(blob);
    MinimalOfStripped(blob);
  }

  /** Decoding undoes encoding exactly when the text fits the length limit and the blob
      either has a nonzero byte or is the single zero byte. */
  lemma DecodeOfEncode(blob: Bytes)
    ensures Decoded(Encoded(blob)) == Ok(blob) <==>
            |Encoded(blob)| <= 100 && (!AllZero(blob) || blob == [0])
  {
    if |Encoded(blob)| <= MAX_TEXT {
      if AllZero(blob) {
        ZeroValue(blob);
        DecodedLetters(EncodedDigits(blob));
        assert |blob| == 1 ==> blob == [0];
      } else {
        DecodeOfNonzero(blob);
      }
    }
  }

  lemma EncodeOfNonzero(ds: seq<nat>)
    requires AreDigits(ds, 58) && !AllZero(ds)
    ensures Encoded(ZeroBytes(LeadingZeros(ds)) + Minimal(Value(ds, 58))) == Letters(ds)
  {
    var k, num := LeadingZeros(ds), Value(ds, 58);
    ZeroValueBase(ds, 58);
    ValueIgnoresZeros(k, Minimal(num), 256);
    ValueOfDigits(num, 256);
    StripAfterPad(k, Minimal(num));
    StripZerosPads(ds);
    ValueIgnoresZeros(k, StripZeros(ds), 58);
    DigitsOfValue(StripZeros(ds), 58);
  }

  /** Encoding undoes decoding exactly when a letter other than '1' occurs or the text is "1". */
  lemma EncodeOfDecode(text: string)
    requires Decoded(text).Ok?
    ensures Encoded(Decoded(text).value) == text <==>
            text == "1" || exists i :: 0 <= i < |text| && text[i] != '1'
  {
    var ds := DigitsOf(text);
    DigitsOfInverse(text);
    DecodedLetters(ds);
    LettersDistinct();
    assert Letter(0) == '1';
    if AllZero(ds) {
      OneByteZero();
      assert Encoded([0]) == "1";
    } else {
      EncodeOfNonzero(ds);
      var i :| 0 <= i < |ds| && ds[i] != 0;
      assert text[i] != '1';
    }
  }

  /** A text that decodes to something nonzero is the encoding of what it decodes to. */
  lemma EncodeOfDecodeNonzero(text: string)
    requires Decoded(text).Ok? && !AllZero(Decoded(text).value)
    ensures Encoded(Decoded(text).value) == text
  {
    EncodeOfDecode(text);
    DecodedLetters(DigitsOf(text));
    DigitsOfInverse(text);
    if AllZero(DigitsOf(text)) {
      assert false;
    }
    var i :| 0 <= i < |text| && DigitsOf(text)[i] != 0;
    LettersDistinct();
    assert Letter(0) == '1' && text[i] == Letter(DigitsOf(text)[i]);
  }

  lemma OneByteZero()
    ensures FromBigEndian([0]) == 0
  {
    ZeroValue([0]);
  }

  /** Two characters always suffice for a byte. */
  lemma EncodedLength(blob: Bytes)
    ensures |Encoded(blob)| <= 2 * |blob| + 1
    ensures blob != [] && blob[0] != 0 ==> |Encoded(blob)| <= 2 * |blob|
  {
    var num := FromBigEndian(blob);
    if blob != [] && num != 0 {
      var k := LeadingZeros(blob);
      StripValue(blob);
      var rest := LStrip(blob);
      BigEndianOfValue(rest);
      PowTwice(|rest|);
      DigitsLength(num, 2 * |rest|, 58);
      DigitsAreDigits(num, 58);
      assert blob[0] != 0 ==> k == 0;
    } else if blob != [] {
      ZeroValue(blob);
    }
  }

  lemma {:induction false} PowTwice(n: nat)
    ensures Pow(256, n) <= Pow(58, 2 * n)
  {
    if n > 0 {
      PowTwice(n - 1);
      assert Pow(58, 2 * n) == 58 * (58 * Pow(58, 2 * (n - 1))) by {
        assert 2 * n - 1 - 1 == 2 * (n - 1);
        assert Pow(58, 2 * n) == 58 * Pow(58, 2 * n - 1);
        assert Pow(58, 2 * n - 1) == 58 * Pow(58, 2 * n - 1 - 1);
      }
    }
  }
}
