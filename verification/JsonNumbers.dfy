/** Integers in JSON text: uintToString and valueToString on the way out, decodeNumber on the way in. */
module JsonNumbers {
  import opened ByteStrings
  import opened JsonValue

  const MINUS: Byte := 0x2d
  const ZERO: Byte := 0x30
  const NINE: Byte := 0x39

  type UInt64 = x: int | 0 <= x <= MAX_UINT64

  /** Conversion of an unsigned 64-bit number, or of an overflowing negation, to a signed one. */
  function ToInt64(x: int): (i: int)
    ensures MIN_INT64 <= i <= MAX_INT64
    ensures MIN_INT64 <= x <= MAX_INT64 ==> i == x
  {
    (x - MIN_INT64) % 0x1_0000_0000_0000_0000 + MIN_INT64
  }

  // ---- decimal numerals

  predicate IsDigit(c: Byte) {
    ZERO <= c <= NINE
  }

  predicate AllDigits(t: Bytes) {
    forall c :: c in t ==> IsDigit(c)
  }

  /** The number a string of decimal digits denotes. */
  function DigitsValue(t: Bytes): nat
    requires AllDigits(t)
  {
    if t == [] then 0
    else
      assert t[|t| - 1] in t;
      10 * DigitsValue(t[..|t| - 1]) + (t[|t| - 1] - ZERO)
  }

  /** The shortest decimal numeral of `n`. */
  function Decimal(n: nat): (t: Bytes)
    ensures t != [] && AllDigits(t)
  {
    if n < 10 then [ZERO + n] else Decimal(n / 10) + [ZERO + n % 10]
  }

  function DecimalInt(i: int): (t: Bytes)
    ensures t != []
  {
    if i < 0 then [MINUS] + Decimal(-i) else Decimal(i)
  }

  lemma {:induction false} DecimalDenotes(n: nat)
    ensures DigitsValue(Decimal(n)) == n
    ensures |Decimal(n)| > 1 ==> Decimal(n)[0] != ZERO
  {
    if n < 10 {
      assert [ZERO + n][..0] == [];
    } else {
      DecimalDenotes(n / 10);
      assert Decimal(n)[..|Decimal(n)| - 1] == Decimal(n / 10);
      if |Decimal(n / 10)| == 1 {
        assert n / 10 < 10;
      }
    }
  }

  lemma {:induction false} MoreDigitsDenoteMore(t: Bytes, k: nat)
    requires AllDigits(t) && k <= |t|
    ensures AllDigits(t[..k])
    ensures DigitsValue(t[..k]) <= DigitsValue(t)
    ensures k < |t| ==> 10 * DigitsValue(t[..k]) <= DigitsValue(t)
  {
    if k < |t| {
      var u := t[..|t| - 1];
      assert forall c :: c in u ==> c in t;
      assert u[..k] == t[..k];
      assert t[|t| - 1] in t;
      assert DigitsValue(t) == 10 * DigitsValue(u) + (t[|t| - 1] - ZERO);
      MoreDigitsDenoteMore(u, k);
    } else {
      assert t[..k] == t;
    }
  }

  // ---- printing

  function Pow10(k: nat): nat {
    if k == 0 then 1 else 10 * Pow10(k - 1)
  }

  const UINT_TO_STRING_BUFFER_SIZE := 3 * 8 + 1

  /** Write `value` and a terminating zero backwards, ending just before `current`. */
  method UIntToString(value: UInt64, buffer: array<Byte>, current: nat) returns (start: nat)
    requires UINT_TO_STRING_BUFFER_SIZE <= current <= buffer.Length
    modifies buffer
    ensures current - 21 <= start < current
    ensures buffer[start..current] == Decimal(value) + [0]
    ensures buffer[current..] == old(buffer[current..])
    ensures buffer[..start] == old(buffer[..start])
  {
    hide Pow10, Decimal;
    start := current - 1;
    buffer[start] := 0;
    ghost var tail: Bytes := [0];
    var rest: UInt64 := value;
    start := start - 1;
    buffer[start] := rest % 10 + ZERO;
    LastDigit(rest, tail);
    tail := [rest % 10 + ZERO] + tail;
    rest := rest / 10;
    ghost var room: nat := 19;
    assert Pow10(19) == 10_000_000_000_000_000_000 by { ReadPow10(); }
    while rest != 0
      invariant start == current - 21 + room
      invariant rest < Pow10(room)
      invariant buffer[start..current] == tail
      invariant Decimal(value) + [0] == (if rest == 0 then [] else Decimal(rest)) + tail
      invariant buffer[current..] == old(buffer[current..])
      invariant buffer[..start] == old(buffer[..start])
      decreases rest
    {
      Pow10Step(rest, room);
      start := start - 1;
      buffer[start] := rest % 10 + ZERO;
      LastDigit(rest, tail);
      tail := [rest % 10 + ZERO] + tail;
      rest := rest / 10;
      room := room - 1;
    }
  }

  lemma LastDigit(n: nat, tail: Bytes)
    ensures Decimal(n) + tail == (if n / 10 == 0 then [] else Decimal(n / 10)) + ([n % 10 + ZERO] + tail)
  {
    if n < 10 {
      assert n % 10 == n;
    } else {
      RegroupRight([], [], Decimal(n / 10), [n % 10 + ZERO], tail);
      assert [] + [] + Decimal(n / 10) == Decimal(n / 10);
    }
  }

  lemma Pow10Step(n: nat, k: nat)
    requires 0 < n < Pow10(k)
    ensures k > 0 && n / 10 < Pow10(k - 1)
  {
  }

  lemma ReadPow10()
    ensures Pow10(19) == 10_000_000_000_000_000_000
  {
    assert Pow10(5) == 100_000;
    assert Pow10(10) == 10_000_000_000;
    assert Pow10(15) == 1_000_000_000_000_000;
  }

  /** valueToString for LargestUInt. */
  method UIntValueToString(value: UInt64) returns (s: Bytes)
    ensures s == DecimalInt(value)
  {
    var buffer := new Byte[UINT_TO_STRING_BUFFER_SIZE];
    var current := UIntToString(value, buffer, buffer.Length);
    s := buffer[current..buffer.Length - 1];
    assert buffer[current..buffer.Length] == Decimal(value) + [0];
    assert s == buffer[current..buffer.Length][..|Decimal(value)|];
  }

  /** valueToString for LargestInt; the sign goes in front of the digits, still inside the buffer. */
  method IntValueToString(value: int) returns (s: Bytes)
    requires MIN_INT64 <= value <= MAX_INT64
    ensures s == DecimalInt(value)
  {
    hide Decimal;
    var buffer := new Byte[UINT_TO_STRING_BUFFER_SIZE];
    var magnitude: UInt64 :=
      if value == MIN_INT64 then MAX_INT64 + 1 else if value < 0 then -value else value;
    var current := UIntToString(magnitude, buffer, buffer.Length);
    ghost var digits := buffer[current..buffer.Length];
    assert digits[..|digits| - 1] == Decimal(magnitude);
    if value < 0 {
      current := current - 1;
      buffer[current] := MINUS;
      assert buffer[current..buffer.Length - 1] == [MINUS] + digits[..|digits| - 1];
    } else {
      assert buffer[current..buffer.Length - 1] == digits[..|digits| - 1];
    }
    s := buffer[current..buffer.Length - 1];
  }

  // ---- reading

  /** Either an integer value, or the instruction to try the token as a double. */
  datatype Decoded = Integer(value: Value) | UseDouble

  /** What a number token means: the integer it denotes if that fits 64 bits, otherwise a double.  Integers above
      the 32-bit range are unsigned.  A lone minus sign denotes zero. */
  function DecodeNumber(token: Bytes): (d: Decoded)
    requires token != []
    ensures d.Integer? ==> WellFormed(d.value)
  {
    var negative := token[0] == MINUS;
    var digits := if negative then token[1..] else token;
    if !AllDigits(digits) then UseDouble
    else
      var n: int := DigitsValue(digits);
      if negative then
        if n <= -MIN_INT64 then Integer(Int(-n)) else UseDouble
      else if n <= MAX_INT32 then Integer(Int(n))
      else if n <= MAX_UINT64 then Integer(UInt(n))
      else UseDouble
  }

  /** OurReader::decodeNumber.  The accumulator is a UInt64: that it never overflows is part of what is proved. */
  method DecodeNumberToken(token: Bytes) returns (d: Decoded)
    requires token != []
    ensures d == DecodeNumber(token)
  {
    var isNegative := token[0] == MINUS;
    var current := if isNegative then 1 else 0;
    ghost var start := current;
    var maxIntegerValue: UInt64 := if isNegative then -MIN_INT64 else MAX_UINT64;
    var ok, value := AccumulateDigits(token, current, maxIntegerValue);
    if !ok {
      return UseDouble;
    }
    if isNegative {
      d := Integer(Int(ToInt64(-ToInt64(value))));
    } else if value <= MAX_INT32 {
      d := Integer(Int(ToInt64(value)));
    } else {
      d := Integer(UInt(value));
    }
  }

  /** Reader::decodeNumber, the older version: it computes the negative bound differently and treats the smallest
      integer apart. */
  method OldDecodeNumberToken(token: Bytes) returns (d: Decoded)
    requires token != []
    ensures d == DecodeNumber(token)
  {
    var isNegative := token[0] == MINUS;
    var current := if isNegative then 1 else 0;
    var maxIntegerValue: UInt64 := if isNegative then MAX_INT64 + 1 else MAX_UINT64;
    var ok, value := AccumulateDigits(token, current, maxIntegerValue);
    if !ok {
      return UseDouble;
    }
    if isNegative && value == maxIntegerValue {
      d := Integer(Int(MIN_INT64));
    } else if isNegative {
      d := Integer(Int(-ToInt64(value)));
    } else if value <= MAX_INT32 {
      d := Integer(Int(ToInt64(value)));
    } else {
      d := Integer(UInt(value));
    }
  }

  /** The loop both versions share: accumulate the digits from `current` on, and give up at the first character that
      is not a digit or when the next digit would pass `maxIntegerValue`. */
  method AccumulateDigits(token: Bytes, current: nat, maxIntegerValue: UInt64) returns (ok: bool, value: UInt64)
    requires current <= |token|
    requires maxIntegerValue >= 10
    ensures ok <==> AllDigits(token[current..]) && DigitsValue(token[current..]) <= maxIntegerValue
    ensures ok ==> value == DigitsValue(token[current..])
  {
    var threshold := maxIntegerValue / 10;
    value := 0;
    var i := current;
    ghost var digits := token[current..];
    while i < |token|
      invariant current <= i <= |token|
      invariant AllDigits(digits[..i - current])
      invariant value == DigitsValue(digits[..i - current])
      invariant value <= maxIntegerValue
    {
      var c := token[i];
      assert c == digits[i - current];
      assert digits[..i - current + 1][..i - current] == digits[..i - current];
      i := i + 1;
      if c < ZERO || c > NINE {
        assert c in digits;
        return false, value;
      }
      var digit := c - ZERO;
      ghost var next := digits[..i - current];
      assert AllDigits(next) && DigitsValue(next) == 10 * value + digit;
      if value >= threshold {
        if value > threshold || i != |token| || digit > maxIntegerValue % 10 {
          if AllDigits(digits) {
            MoreDigitsDenoteMore(digits, i - current);
          }
          return false, value;
        }
      }
      value := value * 10 + digit;
    }
    assert digits[..i - current] == digits;
    return true, value;
  }

  // ---- the two directions together

  /** The value an integer reads back as: the same number, with the tag decodeNumber chooses. */
  function ReadBack(i: int): Value {
    if i <= MAX_INT32 then Int(i) else UInt(i)
  }

  /** Every 64-bit integer, signed or unsigned, reads back from its printed form unchanged. */
  lemma PrintedIntegersReadBack(i: int)
    requires MIN_INT64 <= i <= MAX_UINT64
    ensures DecodeNumber(DecimalInt(i)) == Integer(ReadBack(i))
  {
    DecimalDenotes(if i < 0 then -i else i);
    assert i < 0 ==> DecimalInt(i)[1..] == Decimal(-i);
    assert Decimal(if i < 0 then 0 else i)[0] in Decimal(if i < 0 then 0 else i);
  }

  /** The integer branch is taken exactly when the denoted integer lies in [-2^63, 2^64 - 1], leading zeros and all,
      and then yields that integer. */
  lemma IntegerDecodingIsExact(negative: bool, digits: Bytes)
    requires digits != [] && AllDigits(digits)
    ensures var token := (if negative then [MINUS] else []) + digits;
      var n: int := if negative then -(DigitsValue(digits) as int) else DigitsValue(digits);
      && (DecodeNumber(token).Integer? <==> MIN_INT64 <= n <= MAX_UINT64)
      && (DecodeNumber(token).Integer? ==> DecodeNumber(token).value == ReadBack(n))
  {
    assert digits[0] in digits;
    assert [] + digits == digits;
    assert ([MINUS] + digits)[1..] == digits;
  }
}
