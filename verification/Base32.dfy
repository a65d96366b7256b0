/** Azure_EncodeBase32: the registration identifier in RFC 4648 Base32, in lower case and without padding. */
module Base32 {
  import opened ByteStrings

  const BASE32_VALUES := "abcdefghijklmnopqrstuvwxyz234567="

  const PADDING: nat := 32

  // ---- RFC 4648, section 6: the bits of the input, most significant first, in groups of five

  function ByteAt(data: Bytes, i: nat): Byte {
    if i < |data| then data[i] else 0
  }

  /** Bit `i` of a byte, counted from the most significant. */
  function BitOf(x: Byte, i: nat): nat
    requires i < 8
  {
    match i
    case 0 => x / 128
    case 1 => x / 64 % 2
    case 2 => x / 32 % 2
    case 3 => x / 16 % 2
    case 4 => x / 8 % 2
    case 5 => x / 4 % 2
    case 6 => x / 2 % 2
    case _ => x % 2
  }

  /** Bit `k` of the input, which zero bits follow. */
  function Bit(data: Bytes, k: nat): nat {
    BitOf(ByteAt(data, k / 8), k % 8)
  }

  /** The value of group `j`. */
  function Quintet(data: Bytes, j: nat): nat {
    16 * Bit(data, 5 * j) + 8 * Bit(data, 5 * j + 1) + 4 * Bit(data, 5 * j + 2) + 2 * Bit(data, 5 * j + 3) +
    Bit(data, 5 * j + 4)
  }

  /** The number of groups that hold a bit of the input. */
  function Groups(n: nat): nat {
    (8 * n + 4) / 5
  }

  function Digit(v: nat): char
    requires v <= PADDING
  {
    BASE32_VALUES[v]
  }

  lemma Halves(x: Byte)
    ensures x == 2 * (x / 2) + x % 2
    ensures x / 2 == 2 * (x / 4) + x / 2 % 2
    ensures x / 4 == 2 * (x / 8) + x / 4 % 2
    ensures x / 8 == 2 * (x / 16) + x / 8 % 2
    ensures x / 16 == 2 * (x / 32) + x / 16 % 2
    ensures x / 32 == 2 * (x / 64) + x / 32 % 2
    ensures x / 64 == 2 * (x / 128) + x / 64 % 2
    ensures x / 128 <= 1
  {
    assert x / 2 / 2 == x / 4;
    assert x / 4 / 2 == x / 8;
    assert x / 8 / 2 == x / 16;
    assert x / 16 / 2 == x / 32;
    assert x / 32 / 2 == x / 64;
    assert x / 64 / 2 == x / 128;
  }

  lemma BitsOfHalves(x: Byte)
    ensures x == 2 * (x / 2) + BitOf(x, 7)
    ensures x / 2 == 2 * (x / 4) + BitOf(x, 6)
    ensures x / 4 == 2 * (x / 8) + BitOf(x, 5)
    ensures x / 8 == 2 * (x / 16) + BitOf(x, 4)
    ensures x / 16 == 2 * (x / 32) + BitOf(x, 3)
    ensures x / 32 == 2 * (x / 64) + BitOf(x, 2)
    ensures x / 64 == 2 * (x / 128) + BitOf(x, 1)
    ensures x / 128 == BitOf(x, 0)
    ensures forall i :: 0 <= i < 8 ==> BitOf(x, i) <= 1
  {
    Halves(x);
  }

  lemma BitsOfByte(x: Byte)
    ensures x == 128 * BitOf(x, 0) + 64 * BitOf(x, 1) + 32 * BitOf(x, 2) + 16 * BitOf(x, 3) + 8 * BitOf(x, 4) +
      4 * BitOf(x, 5) + 2 * BitOf(x, 6) + BitOf(x, 7)
  {
    hide BitOf;
    BitsOfHalves(x);
  }

  lemma QuintetIsSmall(data: Bytes, j: nat)
    ensures Quintet(data, j) < 32
  {
    forall k: nat
      ensures Bit(data, k) <= 1
    {
      BitsOfHalves(ByteAt(data, k / 8));
    }
  }

  function Encoded(data: Bytes): (s: string)
    ensures |s| == Groups(|data|)
  {
    seq(Groups(|data|), j requires 0 <= j < Groups(|data|) => QuintetIsSmall(data, j); Digit(Quintet(data, j)))
  }

  // ---- the encoder

  /** Bit `c` of the `b`-th block of five bytes. */
  function BlockBit(data: Bytes, b: nat, c: nat): nat {
    BitOf(ByteAt(data, 5 * b + c / 8), c % 8)
  }

  lemma QuintetOfBlock(data: Bytes, b: nat, q: nat)
    ensures Quintet(data, 8 * b + q) ==
      16 * BlockBit(data, b, 5 * q) + 8 * BlockBit(data, b, 5 * q + 1) + 4 * BlockBit(data, b, 5 * q + 2) +
      2 * BlockBit(data, b, 5 * q + 3) + BlockBit(data, b, 5 * q + 4)
  {
    hide BitOf, ByteAt;
    forall c: nat
      ensures Bit(data, 40 * b + c) == BlockBit(data, b, c)
    {
      assert (40 * b + c) / 8 == 5 * b + c / 8;
    }
    assert 5 * (8 * b + q) == 40 * b + 5 * q;
  }

  /** The parts the encoder cuts a byte into, from its upper end and from its lower end. */
  lemma UpperParts(x: Byte)
    ensures x / 8 == 16 * BitOf(x, 0) + 8 * BitOf(x, 1) + 4 * BitOf(x, 2) + 2 * BitOf(x, 3) + BitOf(x, 4)
    ensures x / 16 == 8 * BitOf(x, 0) + 4 * BitOf(x, 1) + 2 * BitOf(x, 2) + BitOf(x, 3)
    ensures x / 32 == 4 * BitOf(x, 0) + 2 * BitOf(x, 1) + BitOf(x, 2)
    ensures x / 64 == 2 * BitOf(x, 0) + BitOf(x, 1)
    ensures x / 128 == BitOf(x, 0)
  {
    hide BitOf;
    BitsOfHalves(x);
  }

  lemma LowerParts(x: Byte)
    ensures x % 2 == BitOf(x, 7)
    ensures x % 4 == 2 * BitOf(x, 6) + BitOf(x, 7)
    ensures x % 8 == 4 * BitOf(x, 5) + 2 * BitOf(x, 6) + BitOf(x, 7)
    ensures x % 16 == 8 * BitOf(x, 4) + 4 * BitOf(x, 5) + 2 * BitOf(x, 6) + BitOf(x, 7)
    ensures x % 32 == 16 * BitOf(x, 3) + 8 * BitOf(x, 4) + 4 * BitOf(x, 5) + 2 * BitOf(x, 6) + BitOf(x, 7)
  {
    hide BitOf;
    BitsOfHalves(x);
  }

  lemma MiddleParts(x: Byte)
    ensures x % 64 / 2 == 16 * BitOf(x, 2) + 8 * BitOf(x, 3) + 4 * BitOf(x, 4) + 2 * BitOf(x, 5) + BitOf(x, 6)
    ensures x % 128 / 4 == 16 * BitOf(x, 1) + 8 * BitOf(x, 2) + 4 * BitOf(x, 3) + 2 * BitOf(x, 4) + BitOf(x, 5)
  {
    hide BitOf;
    BitsOfHalves(x);
    assert x % 64 == 2 * (x / 2 - 32 * (x / 64)) + BitOf(x, 7);
    assert x % 128 == 4 * (x / 4 - 32 * (x / 128)) + 2 * BitOf(x, 6) + BitOf(x, 7);
  }

  lemma FirstGroupBits(data: Bytes, b: nat)
    ensures var x0, x1, x2 := ByteAt(data, 5 * b), ByteAt(data, 5 * b + 1), ByteAt(data, 5 * b + 2);
      && Quintet(data, 8 * b) ==
         16 * BitOf(x0, 0) + 8 * BitOf(x0, 1) + 4 * BitOf(x0, 2) + 2 * BitOf(x0, 3) + BitOf(x0, 4)
      && Quintet(data, 8 * b + 1) ==
         16 * BitOf(x0, 5) + 8 * BitOf(x0, 6) + 4 * BitOf(x0, 7) + 2 * BitOf(x1, 0) + BitOf(x1, 1)
      && Quintet(data, 8 * b + 2) ==
         16 * BitOf(x1, 2) + 8 * BitOf(x1, 3) + 4 * BitOf(x1, 4) + 2 * BitOf(x1, 5) + BitOf(x1, 6)
      && Quintet(data, 8 * b + 3) ==
         16 * BitOf(x1, 7) + 8 * BitOf(x2, 0) + 4 * BitOf(x2, 1) + 2 * BitOf(x2, 2) + BitOf(x2, 3)
  {
    hide BitOf, ByteAt, Quintet;
    QuintetOfBlock(data, b, 0);
    QuintetOfBlock(data, b, 1);
    QuintetOfBlock(data, b, 2);
    QuintetOfBlock(data, b, 3);
  }

  /** The eight groups of a block of five bytes, each cut from at most two of them. */
  lemma FirstGroups(data: Bytes, b: nat)
    ensures var x0, x1, x2 := ByteAt(data, 5 * b), ByteAt(data, 5 * b + 1), ByteAt(data, 5 * b + 2);
      && Quintet(data, 8 * b) == x0 / 8
      && Quintet(data, 8 * b + 1) == x0 % 8 * 4 + x1 / 64
      && Quintet(data, 8 * b + 2) == x1 % 64 / 2
      && Quintet(data, 8 * b + 3) == x1 % 2 * 16 + x2 / 16
  {
    hide BitOf, ByteAt, Quintet;
    FirstGroupBits(data, b);
    UpperParts(ByteAt(data, 5 * b));
    LowerParts(ByteAt(data, 5 * b));
    UpperParts(ByteAt(data, 5 * b + 1));
    MiddleParts(ByteAt(data, 5 * b + 1));
    LowerParts(ByteAt(data, 5 * b + 1));
    UpperParts(ByteAt(data, 5 * b + 2));
  }

  lemma LastGroupBits(data: Bytes, b: nat)
    ensures var x2, x3, x4 := ByteAt(data, 5 * b + 2), ByteAt(data, 5 * b + 3), ByteAt(data, 5 * b + 4);
      && Quintet(data, 8 * b + 4) ==
         16 * BitOf(x2, 4) + 8 * BitOf(x2, 5) + 4 * BitOf(x2, 6) + 2 * BitOf(x2, 7) + BitOf(x3, 0)
      && Quintet(data, 8 * b + 5) ==
         16 * BitOf(x3, 1) + 8 * BitOf(x3, 2) + 4 * BitOf(x3, 3) + 2 * BitOf(x3, 4) + BitOf(x3, 5)
      && Quintet(data, 8 * b + 6) ==
         16 * BitOf(x3, 6) + 8 * BitOf(x3, 7) + 4 * BitOf(x4, 0) + 2 * BitOf(x4, 1) + BitOf(x4, 2)
      && Quintet(data, 8 * b + 7) ==
         16 * BitOf(x4, 3) + 8 * BitOf(x4, 4) + 4 * BitOf(x4, 5) + 2 * BitOf(x4, 6) + BitOf(x4, 7)
  {
    hide BitOf, ByteAt, Quintet;
    QuintetOfBlock(data, b, 4);
    QuintetOfBlock(data, b, 5);
    QuintetOfBlock(data, b, 6);
    QuintetOfBlock(data, b, 7);
  }

  lemma LastGroups(data: Bytes, b: nat)
    ensures var x2, x3, x4 := ByteAt(data, 5 * b + 2), ByteAt(data, 5 * b + 3), ByteAt(data, 5 * b + 4);
      && Quintet(data, 8 * b + 4) == x2 % 16 * 2 + x3 / 128
      && Quintet(data, 8 * b + 5) == x3 % 128 / 4
      && Quintet(data, 8 * b + 6) == x3 % 4 * 8 + x4 / 32
      && Quintet(data, 8 * b + 7) == x4 % 32
  {
    hide BitOf, ByteAt, Quintet;
    LastGroupBits(data, b);
    LowerParts(ByteAt(data, 5 * b + 2));
    UpperParts(ByteAt(data, 5 * b + 3));
    MiddleParts(ByteAt(data, 5 * b + 3));
    LowerParts(ByteAt(data, 5 * b + 3));
    UpperParts(ByteAt(data, 5 * b + 4));
    LowerParts(ByteAt(data, 5 * b + 4));
  }

  /** The group at `j`, or the padding where no bit of the input is left. */
  function Padded(data: Bytes, j: nat): (v: nat)
    ensures v <= PADDING
    ensures v == PADDING <==> j >= Groups(|data|)
  {
    QuintetIsSmall(data, j);
    if j < Groups(|data|) then Quintet(data, j) else PADDING
  }

  /** One turn of the encoder's loop, up to the table: the two switches over the length of the block. */
  method EncodeBlock(data: Bytes, it: nat, cbBlockLength: nat) returns (pos: seq<nat>)
    requires it % 5 == 0 && it + cbBlockLength <= |data|
    requires cbBlockLength == 5 || (1 <= cbBlockLength < 5 && it + cbBlockLength == |data|)
    ensures |pos| == 8
    ensures forall q :: 0 <= q < 8 ==> pos[q] == Padded(data, it / 5 * 8 + q)
  {
    hide Quintet;
    var pos1, pos2, pos3, pos4, pos5, pos6, pos7, pos8 := 0, 0, 0, 0, 0, 0, 0, 0;
    if cbBlockLength >= 5 {
      pos8 := data[it + 4] % 32;
      pos7 := data[it + 4] / 32;
    }
    if cbBlockLength >= 4 {
      pos7 := pos7 + data[it + 3] % 4 * 8;
      pos6 := data[it + 3] % 128 / 4;
      pos5 := data[it + 3] / 128;
    }
    if cbBlockLength >= 3 {
      pos5 := pos5 + data[it + 2] % 16 * 2;
      pos4 := data[it + 2] / 16;
    }
    if cbBlockLength >= 2 {
      pos4 := pos4 + data[it + 1] % 2 * 16;
      pos3 := data[it + 1] % 64 / 2;
      pos2 := data[it + 1] / 64;
    }
    pos2 := pos2 + data[it] % 8 * 4;
    pos1 := data[it] / 8;
    FirstGroups(data, it / 5);
    LastGroups(data, it / 5);
    if cbBlockLength <= 1 { pos3, pos4 := PADDING, PADDING; }
    if cbBlockLength <= 2 { pos5 := PADDING; }
    if cbBlockLength <= 3 { pos6, pos7 := PADDING, PADDING; }
    if cbBlockLength <= 4 { pos8 := PADDING; }
    pos := [pos1, pos2, pos3, pos4, pos5, pos6, pos7, pos8];
  }

  lemma DigitsAreNotPadding(v: nat)
    requires v <= PADDING
    ensures Digit(v) == '=' <==> v == PADDING
    ensures v < 26 ==> Digit(v) as int == 'a' as int + v
    ensures 26 <= v < 32 ==> Digit(v) as int == '2' as int + v - 26
  {
  }

  method EncodeBase32(pData: Bytes) returns (s: string)
    ensures s == Encoded(pData)
  {
    hide Quintet, Digit, Padded, Groups, Encoded;
    var cbData := |pData|;
    var encodedDataLength := (cbData + 5 - 1) / 5 * 8;
    var bEncodedData := new char[encodedDataLength](_ => '\0');
    if |pData| == 0 {
      Sanitized(pData, [], 0);
      return "";
    }
    var it, resultLen, b := 0, 0, 0;
    while cbData >= 1
      invariant cbData >= 0 && it + cbData == |pData|
      invariant cbData > 0 ==> it == 5 * b
      invariant resultLen <= encodedDataLength
      invariant resultLen == 8 * b && (cbData == 0 ==> resultLen == encodedDataLength)
      invariant forall j :: 0 <= j < resultLen ==> bEncodedData[j] == Digit(Padded(pData, j))
      decreases cbData
    {
      var cbBlockLength := if cbData > 5 then 5 else cbData;
      var pos := EncodeBlock(pData, it, cbBlockLength);
      it := it + cbBlockLength;
      cbData := cbData - cbBlockLength;
      for q := 0 to 8
        invariant resultLen == 8 * b + q
        invariant forall j :: 0 <= j < resultLen ==> bEncodedData[j] == Digit(Padded(pData, j))
      {
        bEncodedData[resultLen] := Digit(pos[q]);
        resultLen := resultLen + 1;
      }
      b := b + 1;
    }
    ghost var text := bEncodedData[..];
    var iResultLength := 0;
    while iResultLength < bEncodedData.Length && bEncodedData[iResultLength] != '='
      invariant iResultLength <= bEncodedData.Length && bEncodedData[..] == text
      invariant forall j :: 0 <= j < iResultLength ==> text[j] != '='
    {
      iResultLength := iResultLength + 1;
    }
    Sanitized(pData, text, iResultLength);
    s := bEncodedData[..iResultLength];
  }

  /** Cutting the padded text off at its first padding character leaves the digits. */
  lemma Sanitized(data: Bytes, text: string, n: nat)
    requires |text| == (|data| + 5 - 1) / 5 * 8 && n <= |text|
    requires forall j :: 0 <= j < |text| ==> text[j] == Digit(Padded(data, j))
    requires forall j :: 0 <= j < n ==> text[j] != '='
    requires n == |text| || text[n] == '='
    ensures text[..n] == Encoded(data)
  {
    hide Quintet, Digit, Groups;
    GroupsFit(|data|);
    forall j | 0 <= j < |text|
      ensures text[j] == '=' <==> j >= Groups(|data|)
    {
      DigitsAreNotPadding(Padded(data, j));
    }
    var g := Groups(|data|);
    assert g < |text| ==> text[g] == '=';
    assert n == g;
    forall j | 0 <= j < n
      ensures text[j] == Encoded(data)[j]
    {
      assert Padded(data, j) == Quintet(data, j);
    }
  }

  lemma GroupsFit(n: nat)
    ensures Groups(n) <= (n + 5 - 1) / 5 * 8
    ensures 8 * n <= 5 * Groups(n) <= 8 * n + 4
    ensures 5 * Groups(n) / 8 == n
  {
  }

  // ---- the decoder of RFC 4648, for the lower case alphabet

  function DigitValue(c: char): Option<nat> {
    if 'a' <= c <= 'z' then Some(c as int - 'a' as int)
    else if '2' <= c <= '7' then Some(c as int - '2' as int + 26)
    else None
  }

  predicate InAlphabet(s: string) {
    forall j :: 0 <= j < |s| ==> DigitValue(s[j]).Some?
  }

  /** Bit `k` of a text, five bits to a digit, most significant first. */
  function TextBit(s: string, k: nat): nat
    requires InAlphabet(s) && k < 5 * |s|
  {
    var v := DigitValue(s[k / 5]).value;
    match k % 5
    case 0 => v / 16
    case 1 => v / 8 % 2
    case 2 => v / 4 % 2
    case 3 => v / 2 % 2
    case _ => v % 2
  }

  function TextByte(s: string, i: nat): nat
    requires InAlphabet(s) && 8 * i + 8 <= 5 * |s|
  {
    128 * TextBit(s, 8 * i) + 64 * TextBit(s, 8 * i + 1) + 32 * TextBit(s, 8 * i + 2) + 16 * TextBit(s, 8 * i + 3) +
    8 * TextBit(s, 8 * i + 4) + 4 * TextBit(s, 8 * i + 5) + 2 * TextBit(s, 8 * i + 6) + TextBit(s, 8 * i + 7)
  }

  /** The whole bytes of a text; bits that fill none are dropped. */
  function Decoded(s: string): (o: Option<seq<nat>>) {
    if !InAlphabet(s) then None
    else Some(seq(5 * |s| / 8, i requires 0 <= i < 5 * |s| / 8 => TextByte(s, i)))
  }

  lemma FiveBits(v: nat, b0: nat, b1: nat, b2: nat, b3: nat, b4: nat)
    requires b0 <= 1 && b1 <= 1 && b2 <= 1 && b3 <= 1 && b4 <= 1
    requires v == 16 * b0 + 8 * b1 + 4 * b2 + 2 * b3 + b4
    ensures v / 16 == b0 && v / 8 % 2 == b1 && v / 4 % 2 == b2 && v / 2 % 2 == b3 && v % 2 == b4
  {
    assert v / 8 == 2 * b0 + b1;
    assert v / 4 == 4 * b0 + 2 * b1 + b2;
    assert v / 2 == 8 * b0 + 4 * b1 + 2 * b2 + b3;
  }

  lemma BitIsSmall(data: Bytes, k: nat)
    ensures Bit(data, k) <= 1
  {
    hide BitOf;
    BitsOfHalves(ByteAt(data, k / 8));
  }

  /** Digit by digit, the text carries the bits of the input. */
  lemma TextCarriesBits(data: Bytes, k: nat)
    requires k < 5 * Groups(|data|)
    ensures InAlphabet(Encoded(data)) && TextBit(Encoded(data), k) == Bit(data, k)
  {
    hide Bit, Digit, DigitValue;
    var s := Encoded(data);
    forall j: nat | j < |s|
      ensures DigitValue(s[j]) == Some(Quintet(data, j))
    {
      hide Quintet;
      QuintetIsSmall(data, j);
      DigitHasValue(Quintet(data, j));
    }
    var j := k / 5;
    BitIsSmall(data, 5 * j);
    BitIsSmall(data, 5 * j + 1);
    BitIsSmall(data, 5 * j + 2);
    BitIsSmall(data, 5 * j + 3);
    BitIsSmall(data, 5 * j + 4);
    FiveBits(Quintet(data, j), Bit(data, 5 * j), Bit(data, 5 * j + 1), Bit(data, 5 * j + 2), Bit(data, 5 * j + 3),
      Bit(data, 5 * j + 4));
  }

  lemma DigitHasValue(v: nat)
    requires v < PADDING
    ensures DigitValue(Digit(v)) == Some(v)
  {
    DigitsAreNotPadding(v);
  }

  /** Decoding recovers the input. */
  lemma EncodingIsReversible(data: Bytes)
    ensures Decoded(Encoded(data)) == Some(data)
  {
    hide TextBit, Bit, Encoded;
    var s := Encoded(data);
    GroupsFit(|data|);
    if data != [] { TextCarriesBits(data, 0); }
    assert InAlphabet(s);
    var d := Decoded(s).value;
    assert |d| == |data|;
    forall i: nat | i < |data|
      ensures d[i] == data[i]
    {
      hide TextByte;
      ByteCarried(data, i);
    }
    assert d == data;
  }

  lemma ByteCarried(data: Bytes, i: nat)
    requires i < |data|
    ensures 8 * i + 8 <= 5 * Groups(|data|) && InAlphabet(Encoded(data)) && TextByte(Encoded(data), i) == data[i]
  {
    hide TextBit, Encoded, BitOf, InAlphabet, Groups;
    GroupsFit(|data|);
    TextCarriesBits(data, 8 * i);
    TextCarriesBits(data, 8 * i + 1);
    TextCarriesBits(data, 8 * i + 2);
    TextCarriesBits(data, 8 * i + 3);
    TextCarriesBits(data, 8 * i + 4);
    TextCarriesBits(data, 8 * i + 5);
    TextCarriesBits(data, 8 * i + 6);
    TextCarriesBits(data, 8 * i + 7);
    BitsOfByte(data[i]);
  }

  /** The alphabet is a-z and 2-7; there is no padding; different inputs have different texts. */
  lemma EncodingIsInjective(a: Bytes, b: Bytes)
    ensures InAlphabet(Encoded(a))
    ensures Encoded(a) == Encoded(b) ==> a == b
  {
    EncodingIsReversible(a);
    EncodingIsReversible(b);
  }
}
