/** JSON string literals: valueToQuotedStringN writes them, readString finds their end, decodeString reads them. */
module JsonStrings {
  import opened ByteStrings
  import opened Hexadecimal
  import opened JsonErrors
  import opened Utf8

  const QUOTE: Byte := 0x22
  const APOSTROPHE: Byte := 0x27
  const BACKSLASH: Byte := 0x5c
  const SLASH: Byte := 0x2f
  const LETTER_B: Byte := 0x62
  const LETTER_F: Byte := 0x66
  const LETTER_N: Byte := 0x6e
  const LETTER_R: Byte := 0x72
  const LETTER_T: Byte := 0x74
  const LETTER_U: Byte := 0x75

  // ---- hexadecimal

  /** toHex16Bit: the low sixteen bits of `x`, in lower case. */
  function ToHex16Bit(x: nat): (h: Bytes)
    ensures |h| == 4
  {
    var hi, lo := x / 0x100 % 0x100, x % 0x100;
    [HexDigit(hi / 16), HexDigit(hi % 16), HexDigit(lo / 16), HexDigit(lo % 16)]
  }

  predicate AllHex(h: Bytes) {
    forall c :: c in h ==> IsHexDigit(c)
  }

  /** The number four hexadecimal digits denote. */
  function Hex4Value(h: Bytes): (n: nat)
    requires |h| == 4 && AllHex(h)
    ensures n <= 0xFFFF
  {
    ((HexValue(h[0]) * 16 + HexValue(h[1])) * 16 + HexValue(h[2])) * 16 + HexValue(h[3])
  }

  lemma HexInverts(x: nat)
    requires x <= 0xFFFF
    ensures AllHex(ToHex16Bit(x)) && Hex4Value(ToHex16Bit(x)) == x
  {
    var hi, lo := x / 0x100, x % 0x100;
    assert x / 0x100 % 0x100 == hi;
    HexDigitInverts(hi / 16);
    HexDigitInverts(hi % 16);
    HexDigitInverts(lo / 16);
    HexDigitInverts(lo % 16);
    assert hi / 16 * 16 + hi % 16 == hi && lo / 16 * 16 + lo % 16 == lo && hi * 0x100 + lo == x;
  }

  // ---- writing

  function ShortEscape(c: Byte): Option<Byte> {
    if c == QUOTE then Some(QUOTE)
    else if c == BACKSLASH then Some(BACKSLASH)
    else if c == 0x08 then Some(LETTER_B)
    else if c == 0x0c then Some(LETTER_F)
    else if c == 0x0a then Some(LETTER_N)
    else if c == 0x0d then Some(LETTER_R)
    else if c == 0x09 then Some(LETTER_T)
    else None
  }

  function UnicodeEscape(unit: nat): Bytes {
    [BACKSLASH, LETTER_U] + ToHex16Bit(unit)
  }

  /** How a decoded code point is written: as itself, as one \u escape, or as a pair of them. */
  function EscapedCodePoint(cp: nat): Bytes {
    if 0x20 <= cp < 0x80 then [cp]
    else if cp < 0x10000 then UnicodeEscape(cp)
    else UnicodeEscape((cp - 0x10000) / 0x400 + 0xD800) + UnicodeEscape((cp - 0x10000) % 0x400 + 0xDC00)
  }

  /** The number of bytes the writer's loop takes in one turn. */
  function ChunkLength(s: Bytes): (n: nat)
    requires s != []
    ensures 1 <= n <= |s|
  {
    if ShortEscape(s[0]).Some? then 1 else Utf8ToCodePoint(s).used
  }

  function EscapedChunk(s: Bytes): Bytes
    requires s != []
  {
    match ShortEscape(s[0])
    case Some(letter) => [BACKSLASH, letter]
    case None => EscapedCodePoint(Utf8ToCodePoint(s).cp)
  }

  function Escaped(s: Bytes): Bytes {
    if s == [] then [] else EscapedChunk(s) + Escaped(s[ChunkLength(s)..])
  }

  function Quoted(s: Bytes): Bytes {
    [QUOTE] + Escaped(s) + [QUOTE]
  }

  /** The test of isAnyCharRequiredQuoting on one char: it lets every ASCII char through, and a char of 0x80 or more is
      negative where char is signed, hence below the space. */
  predicate RequiresQuoting(c: Byte) {
    c == BACKSLASH || c == QUOTE || c < 0x20 || c >= 0x80 || c < 0x80
  }

  /** So every string but the empty one is found to need quoting. */
  method IsAnyCharRequiredQuoting(s: Bytes) returns (b: bool)
    ensures b <==> s != []
  {
    var cur := 0;
    b := false;
    while cur < |s| && !b
      invariant cur <= |s|
      invariant b <==> cur > 0
      decreases |s| - cur
    {
      b := RequiresQuoting(s[cur]);
      cur := cur + 1;
    }
  }

  /** valueToQuotedStringN. */
  method ValueToQuotedString(value: Bytes) returns (result: Bytes)
    ensures result == Quoted(value)
  {
    var quoting := IsAnyCharRequiredQuoting(value);
    if !quoting {
      return [QUOTE] + value + [QUOTE];
    }
    result := [QUOTE];
    var c := 0;
    while c != |value|
      invariant c <= |value|
      invariant result + Escaped(value[c..]) == [QUOTE] + Escaped(value)
      decreases |value| - c
    {
      ghost var before, rest := result, value[c..];
      result, c := AppendChunk(result, value, c);
      assert value[c..] == rest[ChunkLength(rest)..];
      EscapedStep(before, rest);
    }
    assert Escaped(value[c..]) == [];
    result := result + [QUOTE];
  }

  lemma EscapedStep(before: Bytes, s: Bytes)
    requires s != []
    ensures before + Escaped(s) == before + EscapedChunk(s) + Escaped(s[ChunkLength(s)..])
  {
  }

  /** One turn of that loop. */
  method AppendChunk(written: Bytes, value: Bytes, c: nat) returns (result: Bytes, next: nat)
    requires c < |value|
    ensures result == written + EscapedChunk(value[c..])
    ensures next == c + ChunkLength(value[c..])
  {
    match ShortEscape(value[c]) {
      case Some(letter) =>
        result := written + [BACKSLASH, letter];
        next := c + 1;
      case None =>
        var d := Utf8ToCodePoint(value[c..]);
        result := AppendCodePoint(written, d.cp);
        next := c + d.used;
    }
  }

  method AppendCodePoint(written: Bytes, cp: nat) returns (result: Bytes)
    ensures result == written + EscapedCodePoint(cp)
  {
    result := written;
    if 0x20 <= cp < 0x80 {
      result := result + [cp];
    } else if cp < 0x10000 {
      result := result + [BACKSLASH, LETTER_U];
      result := result + ToHex16Bit(cp);
    } else {
      result := result + [BACKSLASH, LETTER_U];
      result := result + ToHex16Bit((cp - 0x10000) / 0x400 + 0xD800);
      result := result + [BACKSLASH, LETTER_U];
      result := result + ToHex16Bit((cp - 0x10000) % 0x400 + 0xDC00);
    }
  }

  /** Whatever the bytes, only printable ASCII and 0x7f is written. */
  lemma {:induction false} QuotedIsPrintable(s: Bytes)
    ensures forall b :: b in Escaped(s) ==> 0x20 <= b <= 0x7f
  {
    hide EscapedChunk, ChunkLength;
    if s != [] {
      EscapedChunkIsPrintable(s);
      QuotedIsPrintable(s[ChunkLength(s)..]);
    }
  }

  lemma EscapedChunkIsPrintable(s: Bytes)
    requires s != []
    ensures forall b :: b in EscapedChunk(s) ==> 0x20 <= b <= 0x7f
  {
    hide Utf8ToCodePoint;
    forall x, b | b in UnicodeEscape(x)
      ensures 0x20 <= b <= 0x7f
    {
    }
  }

  // ---- finding the end of a literal

  /** The outcome of readString: whether the closing delimiter was found, and the input after it. */
  datatype Scan = Scan(ok: bool, rest: Bytes)

  function ReadString(r: Bytes, delimiter: Byte): (o: Scan)
    ensures |o.rest| <= |r|
    ensures o.ok ==> |o.rest| < |r|
  {
    if r == [] then Scan(false, [])
    else if r[0] == BACKSLASH then
      if |r| == 1 then Scan(false, []) else ReadString(r[2..], delimiter)
    else if r[0] == delimiter then Scan(true, r[1..])
    else ReadString(r[1..], delimiter)
  }

  // ---- decoding

  /** decodeUnicodeEscapeSequence: four hexadecimal digits and the input after them. */
  function DecodeHex4(b: Bytes): (o: Result<(nat, Bytes)>)
    ensures o.Ok? ==> |b| >= 4 && o.value.1 == b[4..] && o.value.0 <= 0xFFFF
  {
    if |b| < 4 then Err(FourDigitsExpected)
    else if !AllHex(b[..4]) then Err(HexDigitExpected)
    else Ok((Hex4Value(b[..4]), b[4..]))
  }

  /** decodeUnicodeCodePoint, after the \u: one escape, or a high surrogate and whatever escape follows it. */
  function DecodeCodePoint(b: Bytes): (o: Result<(nat, Bytes)>)
    ensures o.Ok? ==> o.value.0 <= 0x10FFFF && |o.value.1| < |b| && o.value.1 == b[|b| - |o.value.1|..]
  {
    match DecodeHex4(b)
    case Err(e) => Err(e)
    case Ok((unicode, rest)) =>
      if 0xD800 <= unicode <= 0xDBFF then
        if |rest| < 6 then Err(SixCharactersExpected)
        else if rest[0] != BACKSLASH || rest[1] != LETTER_U then Err(SecondSurrogateExpected)
        else
          match DecodeHex4(rest[2..])
          case Err(e) => Err(e)
          case Ok((second, rest')) => Ok((0x10000 + unicode % 0x400 * 0x400 + second % 0x400, rest'))
      else Ok((unicode, rest))
  }

  function Unescape(letter: Byte): Option<Byte> {
    if letter == QUOTE then Some(QUOTE)
    else if letter == SLASH then Some(SLASH)
    else if letter == BACKSLASH then Some(BACKSLASH)
    else if letter == LETTER_B then Some(0x08)
    else if letter == LETTER_F then Some(0x0c)
    else if letter == LETTER_N then Some(0x0a)
    else if letter == LETTER_R then Some(0x0d)
    else if letter == LETTER_T then Some(0x09)
    else None
  }

  function Prepend(prefix: Bytes, o: Result<Bytes>): Result<Bytes> {
    match o
    case Ok(s) => Ok(prefix + s)
    case Err(e) => Err(e)
  }

  /** What the text between the delimiters denotes.  A quotation mark ends the text wherever it appears. */
  function DecodeBody(b: Bytes): Result<Bytes> {
    if b == [] || b[0] == QUOTE then Ok([])
    else if b[0] != BACKSLASH then Prepend([b[0]], DecodeBody(b[1..]))
    else if |b| == 1 then Err(EmptyEscapeSequence)
    else if b[1] == LETTER_U then
      match DecodeCodePoint(b[2..])
      case Err(e) => Err(e)
      case Ok((cp, rest)) => Prepend(CodePointToUtf8(cp), DecodeBody(rest))
    else
      match Unescape(b[1])
      case None => Err(BadEscapeSequence)
      case Some(c) => Prepend([c], DecodeBody(b[2..]))
  }

  /** decodeString on a whole string token, delimiters included. */
  function DecodeString(token: Bytes): Result<Bytes>
    requires |token| >= 2
  {
    DecodeBody(token[1..|token| - 1])
  }

  /** decodeUnicodeEscapeSequence; `current` moves as far as the source moves it when it succeeds. */
  method DecodeUnicodeEscapeSequence(text: Bytes, current: nat, end: nat) returns (o: Result<nat>, next: nat)
    requires current <= end <= |text|
    ensures match DecodeHex4(text[current..end])
      case Ok((n, rest)) => o == Ok(n) && current <= next <= end && rest == text[next..end]
      case Err(e) => o == Err(e)
  {
    next := current;
    if end - current < 4 {
      return Err(FourDigitsExpected), next;
    }
    ghost var h := text[current..end][..4];
    var unicode: int := 0;
    var index := 0;
    while index < 4
      invariant 0 <= index <= 4
      invariant next == current + index
      invariant forall i :: 0 <= i < index ==> IsHexDigit(h[i])
      invariant index == 0 ==> unicode == 0
      invariant index == 1 ==> unicode == HexValue(h[0])
      invariant index == 2 ==> unicode == HexValue(h[0]) * 16 + HexValue(h[1])
      invariant index == 3 ==> unicode == (HexValue(h[0]) * 16 + HexValue(h[1])) * 16 + HexValue(h[2])
      invariant index == 4 ==> AllHex(h) && unicode == Hex4Value(h)
    {
      var c := text[next];
      assert c == h[index];
      next := next + 1;
      unicode := unicode * 16;
      if 0x30 <= c <= 0x39 {
        unicode := unicode + (c - 0x30);
      } else if 0x61 <= c <= 0x66 {
        unicode := unicode + (c - 0x61 + 10);
      } else if 0x41 <= c <= 0x46 {
        unicode := unicode + (c - 0x41 + 10);
      } else {
        assert c in h;
        return Err(HexDigitExpected), next;
      }
      index := index + 1;
    }
    o := Ok(unicode);
  }

  method DecodeUnicodeCodePoint(text: Bytes, current: nat, end: nat) returns (o: Result<nat>, next: nat)
    requires current <= end <= |text|
    ensures match DecodeCodePoint(text[current..end])
      case Ok((n, rest)) => o == Ok(n) && current < next <= end && rest == text[next..end]
      case Err(e) => o == Err(e)
  {
    o, next := DecodeUnicodeEscapeSequence(text, current, end);
    if o.Err? {
      return;
    }
    var unicode := o.value;
    if 0xD800 <= unicode <= 0xDBFF {
      if end - next < 6 {
        return Err(SixCharactersExpected), next;
      }
      ghost var rest := text[next..end];
      if text[next] == BACKSLASH && text[next + 1] == LETTER_U {
        next := next + 2;
        assert rest[2..] == text[next..end];
        var second;
        second, next := DecodeUnicodeEscapeSequence(text, next, end);
        if second.Err? {
          return second, next;
        }
        o := Ok(0x10000 + unicode % 0x400 * 0x400 + second.value % 0x400);
      } else {
        return Err(SecondSurrogateExpected), next;
      }
    }
  }

  /** decodeString. */
  method DecodeStringToken(token: Bytes) returns (o: Result<Bytes>)
    requires |token| >= 2
    ensures o == DecodeString(token)
  {
    hide CodePointToUtf8, DecodeCodePoint;
    var decoded: Bytes := [];
    var current := 1;
    var end := |token| - 1;
    PrependTwice([], [], DecodeString(token));
    while current != end
      invariant 1 <= current <= end
      invariant Prepend(decoded, DecodeBody(token[current..end])) == DecodeString(token)
      decreases end - current
    {
      ghost var rest := token[current..end];
      ghost var before := decoded;
      var c := token[current];
      current := current + 1;
      if c == QUOTE {
        break;
      } else if c == BACKSLASH {
        if current == end {
          return Err(EmptyEscapeSequence);
        }
        var escape := token[current];
        current := current + 1;
        assert token[current..end] == rest[2..];
        if escape == LETTER_U {
          var unicode;
          unicode, current := DecodeUnicodeCodePoint(token, current, end);
          if unicode.Err? {
            return Err(unicode.error);
          }
          decoded := decoded + CodePointToUtf8(unicode.value);
          PrependTwice(before, CodePointToUtf8(unicode.value), DecodeBody(token[current..end]));
        } else {
          match Unescape(escape) {
            case None => return Err(BadEscapeSequence);
            case Some(b) =>
              decoded := decoded + [b];
              PrependTwice(before, [b], DecodeBody(token[current..end]));
          }
        }
      } else {
        decoded := decoded + [c];
        assert token[current..end] == rest[1..];
        PrependTwice(before, [c], DecodeBody(token[current..end]));
      }
    }
    assert decoded + [] == decoded;
    o := Ok(decoded);
  }

  lemma PrependTwice(a: Bytes, b: Bytes, o: Result<Bytes>)
    ensures Prepend(a + b, o) == Prepend(a, Prepend(b, o))
    ensures Prepend([], o) == o
  {
    if o.Ok? {
      assert [] + o.value == o.value;
      assert a + b + o.value == a + (b + o.value);
    }
  }

  // ---- the spellings of a string

  /** One item of a string.  `Short`, `Hex`, `Pair` and `Lone` are the escapes of RFC 8259, section 7: `Pair` is a high
      surrogate with the unicode escape after it, whatever that is, `Lone` a high surrogate that none follows, `Hex` any
      other escaped code unit.  `Plain` is any byte but quotation mark and backslash, where the standard excludes
      control characters as well. */
  datatype Char = Plain(b: Byte) | Short(letter: Byte) | Hex(h: Bytes) | Pair(h: Bytes, l: Bytes) | Lone(h: Bytes) {
    predicate Escaped() {
      Hex? || Pair? || Lone?
    }
  }

  predicate IsHighSurrogate(h: Bytes) {
    |h| == 4 && AllHex(h) && 0xD800 <= Hex4Value(h) <= 0xDBFF
  }

  predicate ValidChar(c: Char) {
    match c
    case Plain(b) => b != QUOTE && b != BACKSLASH
    case Short(letter) => Unescape(letter).Some?
    case Hex(h) => |h| == 4 && AllHex(h) && !IsHighSurrogate(h)
    case Pair(h, l) => IsHighSurrogate(h) && |l| == 4 && AllHex(l)
    case Lone(h) => IsHighSurrogate(h)
  }

  /** Lone surrogates are lone: what follows one is not an escaped code unit. */
  predicate LonesApart(cs: seq<Char>) {
    forall i: nat {:trigger cs[i]} :: i + 1 < |cs| && cs[i].Lone? ==> !cs[i + 1].Escaped()
  }

  /** Every high surrogate has its second half. */
  predicate Paired(cs: seq<Char>) {
    forall c :: c in cs ==> !c.Lone?
  }

  predicate ValidChars(cs: seq<Char>) {
    forall c :: c in cs ==> ValidChar(c)
  }

  function SpellChar(c: Char): Bytes {
    match c
    case Plain(b) => [b]
    case Short(letter) => [BACKSLASH, letter]
    case Hex(h) => [BACKSLASH, LETTER_U] + h
    case Pair(h, l) => [BACKSLASH, LETTER_U] + h + [BACKSLASH, LETTER_U] + l
    case Lone(h) => [BACKSLASH, LETTER_U] + h
  }

  function Spell(cs: seq<Char>): Bytes {
    if cs == [] then [] else SpellChar(cs[0]) + Spell(cs[1..])
  }

  /** A lone surrogate stands for no character. */
  function CharMeaning(c: Char): Bytes
    requires ValidChar(c)
  {
    match c
    case Plain(b) => [b]
    case Short(letter) => [Unescape(letter).value]
    case Hex(h) => CodePointToUtf8(Hex4Value(h))
    case Pair(h, l) => CodePointToUtf8(0x10000 + Hex4Value(h) % 0x400 * 0x400 + Hex4Value(l) % 0x400)
    case Lone(_) => []
  }

  function Meaning(cs: seq<Char>): Bytes
    requires ValidChars(cs)
  {
    if cs == [] then []
    else
      assert forall c :: c in cs[1..] ==> c in cs;
      CharMeaning(cs[0]) + Meaning(cs[1..])
  }

  /** readString stops exactly at the closing quote of any spelling, whatever follows it. */
  lemma {:induction false} ReadStringStopsAtQuote(cs: seq<Char>, rest: Bytes)
    requires ValidChars(cs)
    ensures ReadString(Spell(cs) + [QUOTE] + rest, QUOTE) == Scan(true, rest)
  {
    hide ReadString, SpellChar;
    if cs == [] {
      assert Spell(cs) + [QUOTE] + rest == [QUOTE] + rest;
      ReadStringAtQuote(rest);
    } else {
      assert forall c :: c in cs[1..] ==> c in cs;
      ReadStringStopsAtQuote(cs[1..], rest);
      var first, others := SpellChar(cs[0]), Spell(cs[1..]);
      assert Spell(cs) == first + others;
      Regroup(first, others, [QUOTE], rest);
      ReadStringSkipsChar(cs[0], others + [QUOTE] + rest);
    }
  }

  lemma ReadStringAtQuote(rest: Bytes)
    ensures ReadString([QUOTE] + rest, QUOTE) == Scan(true, rest)
  {
  }

  lemma ReadStringSkipsChar(c: Char, tail: Bytes)
    requires ValidChar(c)
    ensures ReadString(SpellChar(c) + tail, QUOTE) == ReadString(tail, QUOTE)
  {
    hide Hex4Value, AllHex;
    var r := SpellChar(c) + tail;
    match c {
      case Plain(b) => assert r[1..] == tail;
      case Short(_) => assert r[2..] == tail;
      case Hex(h) =>
        assert r[2..] == h + tail;
        ReadStringSkipsHex(h, tail);
      case Lone(h) =>
        assert r[2..] == h + tail;
        ReadStringSkipsHex(h, tail);
      case Pair(h, l) =>
        var tail' := [BACKSLASH, LETTER_U] + (l + tail);
        assert r[2..] == h + tail';
        ReadStringSkipsHex(h, tail');
        assert tail'[2..] == l + tail;
        ReadStringSkipsHex(l, tail);
    }
  }

  lemma {:induction false} ReadStringSkipsHex(h: Bytes, tail: Bytes)
    requires AllHex(h)
    ensures ReadString(h + tail, QUOTE) == ReadString(tail, QUOTE)
  {
    if h == [] {
      assert h + tail == tail;
    } else {
      assert h[0] in h && forall c :: c in h[1..] ==> c in h;
      assert (h + tail)[1..] == h[1..] + tail;
      ReadStringSkipsHex(h[1..], tail);
    }
  }

  /** decodeString gives a spelling its meaning exactly if every high surrogate is followed by an escape. */
  lemma {:induction false} DecodeBodyGivesMeaning(cs: seq<Char>)
    requires ValidChars(cs) && LonesApart(cs)
    ensures if Paired(cs) then DecodeBody(Spell(cs)) == Ok(Meaning(cs)) else DecodeBody(Spell(cs)).Err?
  {
    hide DecodeBody, CharMeaning, SpellChar, ValidChar;
    if cs == [] {
      DecodeNothing();
    } else {
      var rest := cs[1..];
      assert cs == [cs[0]] + rest;
      assert forall i: nat {:trigger rest[i]} :: i < |rest| ==> rest[i] == cs[i + 1];
      if cs[0].Lone? {
        if rest != [] { assert !cs[1].Escaped(); }
        NoEscapeBegins(rest);
        DecodeLone(cs[0].h, Spell(rest));
      } else {
        DecodeBodyGivesMeaning(rest);
        DecodeBodyOfChar(cs[0], Spell(rest));
      }
    }
  }

  lemma DecodeNothing()
    ensures DecodeBody([]) == Ok([])
  {
  }

  predicate EscapeBegins(b: Bytes) {
    |b| >= 2 && b[0] == BACKSLASH && b[1] == LETTER_U
  }

  lemma NoEscapeBegins(cs: seq<Char>)
    requires ValidChars(cs) && (cs == [] || !cs[0].Escaped())
    ensures !EscapeBegins(Spell(cs))
  {
    if cs != [] {
      assert ValidChar(cs[0]);
    }
  }

  lemma DecodeLone(h: Bytes, tail: Bytes)
    requires ValidChar(Lone(h)) && !EscapeBegins(tail)
    ensures DecodeBody(SpellChar(Lone(h)) + tail).Err?
  {
    hide AllHex, Hex4Value;
    var b := SpellChar(Lone(h)) + tail;
    Assoc([BACKSLASH, LETTER_U], h, tail);
    DropLeft([BACKSLASH, LETTER_U], h + tail);
    DropLeft(h, tail);
    assert DecodeCodePoint(b[2..]).Err?;
  }

  lemma DecodeBodyOfChar(c: Char, tail: Bytes)
    requires ValidChar(c) && !c.Lone?
    ensures DecodeBody(SpellChar(c) + tail) == Prepend(CharMeaning(c), DecodeBody(tail))
  {
    hide CodePointToUtf8, Hex4Value, DecodeCodePoint, AllHex, DecodeBody, Unescape;
    var b := SpellChar(c) + tail;
    match c {
      case Plain(x) =>
        DecodePlain(x, tail);
      case Short(letter) =>
        assert b == [BACKSLASH, letter] + tail;
        DecodeShort(letter, tail);
      case Hex(h) =>
        RegroupRight([], [], [BACKSLASH, LETTER_U], h, tail);
        DropLeft([BACKSLASH, LETTER_U], h + tail);
        assert b == [BACKSLASH, LETTER_U] + (h + tail);
        DecodeHexEscape(h, tail);
        DecodeUnicode(b, tail);
      case Pair(h, l) =>
        var u := [BACKSLASH, LETTER_U];
        RegroupRight(u, h, u, l, tail);
        DropLeft(u, h + (u + (l + tail)));
        DecodePairEscape(h, l, tail);
        DecodeUnicode(b, tail);
    }
  }

  lemma DecodePlain(x: Byte, tail: Bytes)
    requires x != QUOTE && x != BACKSLASH
    ensures DecodeBody([x] + tail) == Prepend([x], DecodeBody(tail))
  {
    assert ([x] + tail)[1..] == tail;
  }

  lemma DecodeShort(letter: Byte, tail: Bytes)
    requires Unescape(letter).Some?
    ensures DecodeBody([BACKSLASH, letter] + tail) == Prepend([Unescape(letter).value], DecodeBody(tail))
  {
    assert ([BACKSLASH, letter] + tail)[2..] == tail;
  }

  lemma DecodeUnicode(b: Bytes, tail: Bytes)
    requires |b| >= 2 && b[0] == BACKSLASH && b[1] == LETTER_U
    requires DecodeCodePoint(b[2..]).Ok? && DecodeCodePoint(b[2..]).value.1 == tail
    ensures DecodeBody(b) == Prepend(CodePointToUtf8(DecodeCodePoint(b[2..]).value.0), DecodeBody(tail))
  {
    hide CodePointToUtf8, DecodeCodePoint;
  }

  lemma DecodeHexEscape(h: Bytes, tail: Bytes)
    requires ValidChar(Hex(h))
    ensures DecodeCodePoint(h + tail) == Ok((Hex4Value(h), tail))
  {
    hide AllHex;
    DropLeft(h, tail);
  }

  lemma DecodePairEscape(h: Bytes, l: Bytes, tail: Bytes)
    requires ValidChar(Pair(h, l))
    ensures DecodeCodePoint(h + ([BACKSLASH, LETTER_U] + (l + tail))) ==
      Ok((0x10000 + Hex4Value(h) % 0x400 * 0x400 + Hex4Value(l) % 0x400, tail))
  {
    hide AllHex, Hex4Value;
    var tail' := [BACKSLASH, LETTER_U] + (l + tail);
    DropLeft(h, tail');
    assert tail'[2..] == l + tail;
    DropLeft(l, tail);
  }

  // ---- every string of the grammar has a spelling

  /** The text between the quotes: the escapes of RFC 8259, section 7, and any other byte, control characters and
      malformed UTF-8 included, as the reader lets them through. */
  predicate StringBody(b: Bytes) {
    if b == [] then true
    else if b[0] != BACKSLASH then b[0] != QUOTE && StringBody(b[1..])
    else if EscapeBegins(b) then |b| >= 6 && AllHex(b[2..6]) && StringBody(b[6..])
    else |b| >= 2 && Unescape(b[1]).Some? && StringBody(b[2..])
  }

  /** The items of such a text; an escape after a high surrogate belongs to it. */
  function CharsIn(b: Bytes): seq<Char>
    requires StringBody(b)
  {
    if b == [] then []
    else if b[0] != BACKSLASH then [Plain(b[0])] + CharsIn(b[1..])
    else if EscapeBegins(b) then
      var h, rest := b[2..6], b[6..];
      if !IsHighSurrogate(h) then [Hex(h)] + CharsIn(rest)
      else if EscapeBegins(rest) then [Pair(h, rest[2..6])] + CharsIn(rest[6..])
      else [Lone(h)] + CharsIn(rest)
    else [Short(b[1])] + CharsIn(b[2..])
  }

  lemma {:induction false} CharsInSpell(b: Bytes)
    requires StringBody(b)
    ensures ValidChars(CharsIn(b)) && LonesApart(CharsIn(b)) && Spell(CharsIn(b)) == b
    ensures CharsIn(b) != [] && CharsIn(b)[0].Escaped() ==> EscapeBegins(b)
  {
    hide AllHex, Hex4Value, Unescape, Spell;
    if b == [] {
      SpellNothing();
    } else if b[0] != BACKSLASH {
      CharsInSpell(b[1..]);
      SpellOneMore(Plain(b[0]), b[1..], b);
    } else if !EscapeBegins(b) {
      CharsInSpell(b[2..]);
      SpellOneMore(Short(b[1]), b[2..], b);
    } else if IsHighSurrogate(b[2..6]) && EscapeBegins(b[6..]) {
      var rest := b[6..];
      CharsInSpell(rest[6..]);
      SpellOneMore(Pair(b[2..6], rest[2..6]), rest[6..], b);
    } else {
      CharsInSpell(b[6..]);
      SpellOneMore(if IsHighSurrogate(b[2..6]) then Lone(b[2..6]) else Hex(b[2..6]), b[6..], b);
    }
  }

  lemma SpellNothing()
    ensures Spell([]) == []
  {
  }

  lemma SpellOneMore(c: Char, rest: Bytes, b: Bytes)
    requires StringBody(rest) && ValidChar(c) && b == SpellChar(c) + rest
    requires var cs := CharsIn(rest);
      ValidChars(cs) && LonesApart(cs) && Spell(cs) == rest && (c.Lone? && cs != [] ==> !cs[0].Escaped())
    ensures var cs := [c] + CharsIn(rest);
      ValidChars(cs) && LonesApart(cs) && Spell(cs) == b
  {
    hide SpellChar, ValidChar, CharsIn, StringBody;
    var cs := [c] + CharsIn(rest);
    assert cs[1..] == CharsIn(rest);
    forall i: nat | i + 1 < |cs| && cs[i].Lone?
      ensures !cs[i + 1].Escaped()
    {
      if i > 0 { assert CharsIn(rest)[i - 1] == cs[i]; }
    }
  }

  /** On every string of the grammar, decoding succeeds exactly if no high surrogate is left alone. */
  lemma StringsOfTheGrammarDecode(b: Bytes)
    requires StringBody(b)
    ensures DecodeBody(b).Ok? <==> Paired(CharsIn(b))
    ensures Paired(CharsIn(b)) ==> ValidChars(CharsIn(b)) && DecodeBody(b) == Ok(Meaning(CharsIn(b)))
  {
    CharsInSpell(b);
    DecodeBodyGivesMeaning(CharsIn(b));
  }

  // ---- what the writer writes is a spelling

  function CodePointChars(cp: nat): seq<Char> {
    if 0x20 <= cp < 0x80 then [Plain(cp)]
    else if cp < 0x10000 then [Hex(ToHex16Bit(cp))]
    else
      var high, low := (cp - 0x10000) / 0x400 + 0xD800, (cp - 0x10000) % 0x400 + 0xDC00;
      if high <= 0xDBFF then [Pair(ToHex16Bit(high), ToHex16Bit(low))]
      else [Hex(ToHex16Bit(high)), Hex(ToHex16Bit(low))]
  }

  function ChunkChars(s: Bytes): seq<Char>
    requires s != []
  {
    match ShortEscape(s[0])
    case Some(letter) => [Short(letter)]
    case None => CodePointChars(Utf8ToCodePoint(s).cp)
  }

  function CharsOf(s: Bytes): seq<Char> {
    if s == [] then [] else ChunkChars(s) + CharsOf(s[ChunkLength(s)..])
  }

  /** What the written form of a chunk reads back as. */
  function ReadBackCodePoint(cp: nat): Bytes {
    if cp <= 0x10FFFF then CodePointToUtf8(cp)
    else CodePointToUtf8((cp - 0x10000) / 0x400 + 0xD800) + CodePointToUtf8((cp - 0x10000) % 0x400 + 0xDC00)
  }

  /** What quoting and decoding make of any byte string at all. */
  function Transcoded(s: Bytes): Bytes {
    if s == [] then [] else TranscodedChunk(s) + Transcoded(s[ChunkLength(s)..])
  }

  function TranscodedChunk(s: Bytes): Bytes
    requires s != []
  {
    if ShortEscape(s[0]).Some? then [s[0]] else ReadBackCodePoint(Utf8ToCodePoint(s).cp)
  }

  lemma SpellTwo(c: Char, d: Char)
    ensures Spell([c]) == SpellChar(c) && Spell([c, d]) == SpellChar(c) + SpellChar(d)
  {
    assert [c][1..] == [] && [c, d][1..] == [d] && [d][1..] == [];
  }

  lemma MeaningTwo(c: Char, d: Char)
    requires ValidChar(c) && ValidChar(d)
    ensures Meaning([c]) == CharMeaning(c) && Meaning([c, d]) == CharMeaning(c) + CharMeaning(d)
  {
    assert [c][1..] == [] && [c, d][1..] == [d] && [d][1..] == [];
  }

  lemma {:induction false} SpellConcat(a: seq<Char>, b: seq<Char>)
    ensures Spell(a + b) == Spell(a) + Spell(b)
  {
    hide SpellChar;
    if a == [] {
      assert a + b == b;
    } else {
      assert (a + b)[1..] == a[1..] + b;
      SpellConcat(a[1..], b);
    }
  }

  lemma {:induction false} MeaningConcat(a: seq<Char>, b: seq<Char>)
    requires ValidChars(a) && ValidChars(b)
    ensures ValidChars(a + b) && Meaning(a + b) == Meaning(a) + Meaning(b)
  {
    hide CharMeaning, ValidChar;
    if a == [] {
      assert a + b == b;
    } else {
      assert (a + b)[1..] == a[1..] + b;
      assert forall c :: c in a[1..] ==> c in a;
      MeaningConcat(a[1..], b);
    }
  }

  /** Splitting a code point above the Basic Multilingual Plane into surrogates and joining them is the identity. */
  lemma SurrogatesJoin(cp: nat)
    requires 0x10000 <= cp <= 0x10FFFF
    ensures var high, low := (cp - 0x10000) / 0x400 + 0xD800, (cp - 0x10000) % 0x400 + 0xDC00;
      && 0xD800 <= high <= 0xDBFF && 0xDC00 <= low <= 0xDFFF
      && 0x10000 + high % 0x400 * 0x400 + low % 0x400 == cp
  {
  }

  lemma AsciiIsItself(cp: nat)
    requires cp < 0x80
    ensures CodePointToUtf8(cp) == [cp]
  {
  }

  lemma CodePointCharsSpell(cp: nat)
    requires cp < 0x200000
    requires !(0xD800 <= cp <= 0xDBFF)
    requires cp != QUOTE && cp != BACKSLASH
    ensures ValidChars(CodePointChars(cp)) && Paired(CodePointChars(cp))
    ensures Spell(CodePointChars(cp)) == EscapedCodePoint(cp)
    ensures Meaning(CodePointChars(cp)) == ReadBackCodePoint(cp)
  {
    hide CodePointToUtf8, ToHex16Bit, Hex4Value, AllHex;
    if 0x20 <= cp < 0x80 {
      AsciiIsItself(cp);
      SpellTwo(Plain(cp), Plain(cp));
      MeaningTwo(Plain(cp), Plain(cp));
    } else if cp < 0x10000 {
      HexInverts(cp);
      var c := Hex(ToHex16Bit(cp));
      SpellTwo(c, c);
      MeaningTwo(c, c);
    } else {
      var high, low := (cp - 0x10000) / 0x400 + 0xD800, (cp - 0x10000) % 0x400 + 0xDC00;
      HexInverts(high);
      HexInverts(low);
      if high <= 0xDBFF {
        SurrogatesJoin(cp);
        var c := Pair(ToHex16Bit(high), ToHex16Bit(low));
        SpellTwo(c, c);
        MeaningTwo(c, c);
        assert SpellChar(c) == EscapedCodePoint(cp);
      } else {
        SpellTwo(Hex(ToHex16Bit(high)), Hex(ToHex16Bit(low)));
        MeaningTwo(Hex(ToHex16Bit(high)), Hex(ToHex16Bit(low)));
      }
    }
  }

  lemma ChunkCharsSpell(s: Bytes)
    requires s != []
    ensures ValidChars(ChunkChars(s)) && Paired(ChunkChars(s))
    ensures Spell(ChunkChars(s)) == EscapedChunk(s)
    ensures Meaning(ChunkChars(s)) == TranscodedChunk(s)
  {
    match ShortEscape(s[0]) {
      case Some(letter) =>
        SpellTwo(Short(letter), Short(letter));
        MeaningTwo(Short(letter), Short(letter));
      case None =>
        CodePointCharsSpell(Utf8ToCodePoint(s).cp);
    }
  }

  lemma {:induction false} CharsOfSpell(s: Bytes)
    ensures ValidChars(CharsOf(s)) && Paired(CharsOf(s)) && LonesApart(CharsOf(s))
    ensures Spell(CharsOf(s)) == Escaped(s)
    ensures Meaning(CharsOf(s)) == Transcoded(s)
  {
    hide ChunkChars, EscapedChunk, TranscodedChunk;
    if s != [] {
      var tail := s[ChunkLength(s)..];
      CharsOfSpell(tail);
      ChunkCharsSpell(s);
      SpellConcat(ChunkChars(s), CharsOf(tail));
      MeaningConcat(ChunkChars(s), CharsOf(tail));
    }
  }

  // ---- the inverse theorems

  /** Whatever bytes are quoted and whatever follows the literal, readString stops at its closing quote, and
      decoding gives Transcoded. */
  lemma QuotedReadsBackAsTranscoded(s: Bytes, rest: Bytes)
    ensures Quoted(s)[0] == QUOTE
    ensures ReadString(Quoted(s)[1..] + rest, QUOTE) == Scan(true, rest)
    ensures DecodeString(Quoted(s)) == Ok(Transcoded(s))
  {
    hide ReadString, DecodeBody, Escaped, Spell, Meaning, CharsOf, Transcoded;
    CharsOfSpell(s);
    ReadStringStopsAtQuote(CharsOf(s), rest);
    assert Quoted(s)[1..] + rest == Escaped(s) + [QUOTE] + rest;
    DecodeBodyGivesMeaning(CharsOf(s));
    assert Quoted(s)[1..|Quoted(s)| - 1] == Escaped(s);
  }

  lemma WellFormedChunkIsKept(s: Bytes)
    requires CharLength(s) > 0
    ensures ChunkLength(s) == CharLength(s) && TranscodedChunk(s) == s[..CharLength(s)]
  {
    EncodeInvertsDecode(s);
  }

  lemma MalformedChunkIsChanged(s: Bytes)
    requires s != [] && CharLength(s) == 0
    ensures !(TranscodedChunk(s) <= s)
  {
    var cp := Utf8ToCodePoint(s).cp;
    if cp <= 0x10FFFF {
      MalformedIsChanged(s);
    } else {
      var high := (cp - 0x10000) / 0x400 + 0xD800;
      assert TranscodedChunk(s)[0] == CodePointToUtf8(high)[0] == 0xED;
    }
  }

  lemma {:induction false} WellFormedIsKept(s: Bytes)
    requires WellFormedUtf8(s)
    ensures Transcoded(s) == s
  {
    if s != [] {
      WellFormedChunkIsKept(s);
      WellFormedIsKept(s[CharLength(s)..]);
    }
  }

  lemma {:induction false} KeptIsWellFormed(s: Bytes)
    requires Transcoded(s) == s
    ensures WellFormedUtf8(s)
  {
    if s != [] {
      assert TranscodedChunk(s) <= Transcoded(s);
      if CharLength(s) == 0 {
        MalformedChunkIsChanged(s);
      }
      WellFormedChunkIsKept(s);
      DropLeft(TranscodedChunk(s), Transcoded(s[CharLength(s)..]));
      KeptIsWellFormed(s[CharLength(s)..]);
    }
  }

  /** Quoting and decoding are inverse on exactly the well-formed UTF-8 strings, embedded zeros and code points above
      U+FFFF included. */
  lemma StringsRoundTripExactlyWhenWellFormed(s: Bytes)
    ensures DecodeString(Quoted(s)) == Ok(s) <==> WellFormedUtf8(s)
  {
    QuotedReadsBackAsTranscoded(s, []);
    if WellFormedUtf8(s) {
      WellFormedIsKept(s);
    }
    if Transcoded(s) == s {
      KeptIsWellFormed(s);
    }
  }
}
