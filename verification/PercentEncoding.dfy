/** LimpetSanitizeString: percent-encoding into a fixed buffer, through a table indexed by character. */
module PercentEncoding {
  import opened ByteStrings
  import opened Hexadecimal
  import opened Utf8

  const LIMPET_STRING_SIZE: nat := 512

  const PERCENT: Byte := 0x25

  type WChar = c: int | 0 <= c < 0x1_0000

  // ---- the table

  /** The characters the table leaves alone: letters, digits, and ! ( ) * - . _ */
  predicate IsLiteral(c: Byte) {
    0x30 <= c <= 0x39 || 0x41 <= c <= 0x5a || 0x61 <= c <= 0x7a || c in {0x21, 0x28, 0x29, 0x2a, 0x2d, 0x2e, 0x5f}
  }

  function Escape(b: Byte): Bytes {
    [PERCENT, HexDigit(b / 16), HexDigit(b % 16)]
  }

  /** The entry for a character.  Entry 0 is never used. */
  function Encoding(c: Byte): (e: Bytes)
    ensures e != []
  {
    if IsLiteral(c) then [c]
    else if c < 0x80 then Escape(c)
    else if c < 0xc0 then Escape(0xc2) + Escape(c)
    else Escape(0xc3) + Escape(c - 0x40)
  }

  function Encoded(s: Bytes): Bytes {
    if s == [] then [] else Encoding(s[0]) + Encoded(s[1..])
  }

  // ---- what it means: RFC 3986, section 2.1, over UTF-8

  /** Replaces each percent sign and the two digits after it by the byte they stand for. */
  function PercentDecoded(o: Bytes): Bytes {
    if o == [] then []
    else if o[0] == PERCENT && |o| >= 3 && IsHexDigit(o[1]) && IsHexDigit(o[2]) then
      [HexValue(o[1]) * 16 + HexValue(o[2])] + PercentDecoded(o[3..])
    else [o[0]] + PercentDecoded(o[1..])
  }

  function Utf8Of(s: Bytes): Bytes {
    if s == [] then [] else CodePointToUtf8(s[0]) + Utf8Of(s[1..])
  }

  function CodePoints(b: Bytes): seq<nat> {
    if b == [] then []
    else
      var d := Utf8ToCodePoint(b);
      [d.cp] + CodePoints(b[d.used..])
  }

  lemma EscapeDecodes(b: Byte, rest: Bytes)
    ensures PercentDecoded(Escape(b) + rest) == [b] + PercentDecoded(rest)
  {
    HexDigitInverts(b / 16);
    HexDigitInverts(b % 16);
    assert (Escape(b) + rest)[3..] == rest;
  }

  /** Each entry is the escaped UTF-8 form of its character, taken as a code point. */
  lemma EncodingDecodes(c: Byte, rest: Bytes)
    ensures PercentDecoded(Encoding(c) + rest) == CodePointToUtf8(c) + PercentDecoded(rest)
  {
    hide PercentDecoded, Escape, HexDigit;
    if IsLiteral(c) {
      LiteralDecodes(c, rest);
    } else if c < 0x80 {
      EscapeDecodes(c, rest);
    } else {
      var (lead, tail) := if c < 0xc0 then (0xc2, c) else (0xc3, c - 0x40);
      Assoc(Escape(lead), Escape(tail), rest);
      EscapeDecodes(lead, Escape(tail) + rest);
      EscapeDecodes(tail, rest);
      Assoc([lead], [tail], PercentDecoded(rest));
      assert CodePointToUtf8(c) == [lead] + [tail];
    }
  }

  lemma LiteralDecodes(c: Byte, rest: Bytes)
    requires c != PERCENT
    ensures PercentDecoded([c] + rest) == [c] + PercentDecoded(rest)
  {
    assert ([c] + rest)[1..] == rest;
  }

  /** The output is a percent-encoding of the UTF-8 form of the input. */
  lemma {:induction false} EncodedMeansUtf8(s: Bytes)
    ensures PercentDecoded(Encoded(s)) == Utf8Of(s)
  {
    hide PercentDecoded, Encoding, CodePointToUtf8;
    if s == [] {
      EmptyDecodes();
    } else {
      EncodingDecodes(s[0], Encoded(s[1..]));
      EncodedMeansUtf8(s[1..]);
    }
  }

  lemma EmptyDecodes()
    ensures PercentDecoded([]) == []
  {
  }

  lemma {:induction false} Utf8ReadsBack(s: Bytes)
    ensures CodePoints(Utf8Of(s)) == s
  {
    hide CodePointToUtf8, Utf8ToCodePoint;
    if s != [] {
      var e, rest := CodePointToUtf8(s[0]), Utf8Of(s[1..]);
      DecodeInvertsEncode(s[0], rest);
      DropLeft(e, rest);
      Utf8ReadsBack(s[1..]);
      assert [s[0]] + s[1..] == s;
    }
  }

  /** So different inputs have different outputs. */
  lemma EncodingIsInjective(s: Bytes, t: Bytes)
    ensures CodePoints(PercentDecoded(Encoded(s))) == s
    ensures Encoded(s) == Encoded(t) ==> s == t
  {
    EncodedMeansUtf8(s);
    EncodedMeansUtf8(t);
    Utf8ReadsBack(s);
    Utf8ReadsBack(t);
  }

  // ---- the loop

  function UpToNul(s: seq<WChar>): (text: seq<WChar>)
    ensures text <= s
    ensures 0 !in text && (|text| < |s| ==> s[|text|] == 0)
  {
    if s == [] || s[0] == 0 then [] else [s[0]] + UpToNul(s[1..])
  }

  predicate InTable(s: seq<WChar>) {
    forall i :: 0 <= i < |s| ==> s[i] <= 0xff
  }

  function AsBytes(s: seq<WChar>): (b: Bytes)
    requires InTable(s)
    ensures |b| == |s| && forall i :: 0 <= i < |s| ==> b[i] == s[i]
  {
    seq<Byte>(|s|, i requires 0 <= i < |s| && s[i] <= 0xff => s[i])
  }

  lemma {:induction false} EncodedInParts(s: Bytes, t: Bytes)
    ensures Encoded(s + t) == Encoded(s) + Encoded(t)
    ensures |Encoded(s)| >= |s|
  {
    if s == [] {
      assert s + t == t;
    } else {
      assert (s + t)[1..] == s[1..] + t;
      EncodedInParts(s[1..], t);
      Assoc(Encoding(s[0]), Encoded(s[1..]), Encoded(t));
    }
  }

  lemma EncodedWithOneMore(b: Bytes, c: Byte)
    ensures Encoded(b + [c]) == Encoded(b) + Encoding(c)
  {
    hide Encoding;
    EncodedInParts(b, [c]);
    EmptyIsNeutral(Encoding(c));
    assert Encoded([c]) == Encoding(c) + [];
  }

  /** A text encodes to at least its own length, and to no less than any part of it does. */
  lemma EncodedIsLonger(text: seq<WChar>, n: nat)
    requires InTable(text) && n <= |text|
    ensures InTable(text[..n]) && |Encoded(AsBytes(text[..n]))| <= |Encoded(AsBytes(text))|
    ensures n <= |Encoded(AsBytes(text[..n]))|
  {
    hide Encoded;
    var b := AsBytes(text);
    assert AsBytes(text[..n]) == b[..n] && b == b[..n] + b[n..];
    EncodedInParts(b[..n], b[n..]);
  }

  /** StringCchCopyW to `dest[at..]`, of which `cchDest` characters may be written. */
  method StringCchCopy(dest: array<WChar>, at: nat, cchDest: nat, src: Bytes) returns (ok: bool)
    requires cchDest > 0 && at + cchDest <= dest.Length
    modifies dest
    ensures ok <==> |src| < cchDest
    ensures ok ==> dest[..] == old(dest[..at]) + src + [0] + old(dest[at + |src| + 1..])
    ensures dest[..at] == old(dest[..at]) && dest[at + cchDest..] == old(dest[at + cchDest..])
  {
    ok := |src| < cchDest;
    var n := if ok then |src| else cchDest - 1;
    forall i | 0 <= i < n {
      dest[at + i] := src[i];
    }
    dest[at + n] := 0;
  }

  /** The output buffer after a text: its encoding, a terminator, and the rest as it was.  Before the first character
      nothing is written. */
  predicate Written(now: seq<WChar>, before: seq<WChar>, text: Bytes) {
    var e := Encoded(text);
    if text == [] then now == before else |e| < |before| && now == e + [0] + before[|e| + 1..]
  }

  lemma WriteOneMore(before: seq<WChar>, was: seq<WChar>, now: seq<WChar>, b: Bytes, c: Byte)
    requires Written(was, before, b) && |was| == |before|
    requires var at, e := |Encoded(b)|, Encoding(c);
      at + |e| < |was| && now == was[..at] + e + [0] + was[at + |e| + 1..]
    ensures Written(now, before, b + [c])
  {
    hide Encoding, Encoded;
    EncodedWithOneMore(b, c);
    NothingEncoded();
    var start, e := Encoded(b), Encoding(c);
    assert was[..|start|] == start;
    assert was[|start| + |e| + 1..] == before[|start| + |e| + 1..];
  }

  lemma NothingEncoded()
    ensures Encoded([]) == []
  {
  }

  lemma NextChar(text: seq<WChar>, i: nat)
    requires i < |text| && InTable(text[..i]) && text[i] <= 0xff
    ensures InTable(text[..i + 1]) && AsBytes(text[..i + 1]) == AsBytes(text[..i]) + [text[i]]
  {
    assert text[..i + 1] == text[..i] + [text[i]];
  }

  /** The input buffer has 512 characters unless it ends earlier with a NUL; it is never read outside.  The call
      succeeds exactly if the table has every character and the encoding and its terminator fit. */
  method LimpetSanitizeString(szHmac: seq<WChar>, szHmacClean: array<WChar>) returns (ok: bool)
    requires |szHmac| == LIMPET_STRING_SIZE || 0 in szHmac
    requires szHmacClean.Length == LIMPET_STRING_SIZE
    modifies szHmacClean
    ensures var text := UpToNul(szHmac);
      && (ok <==> InTable(text) && |Encoded(AsBytes(text))| < LIMPET_STRING_SIZE)
      && (ok ==> Written(szHmacClean[..], old(szHmacClean[..]), AsBytes(text)))
  {
    hide Encoding, Encoded, Written, IsLiteral, InTable, UpToNul;
    ghost var text, before := UpToNul(szHmac), szHmacClean[..];
    AtFirst(text, before);
    var indexIn, indexOut := 0, 0;
    while szHmac[indexIn] != 0
      invariant indexIn <= |text| && indexIn <= indexOut < LIMPET_STRING_SIZE && indexIn < |szHmac|
      invariant InTable(text[..indexIn])
      invariant indexOut == |Encoded(AsBytes(text[..indexIn]))|
      invariant Written(szHmacClean[..], before, AsBytes(text[..indexIn]))
      decreases |szHmac| - indexIn
    {
      ghost var done := AsBytes(text[..indexIn]);
      if indexIn >= LIMPET_STRING_SIZE || indexOut >= LIMPET_STRING_SIZE || szHmac[indexIn] > 0xff {
        NotInTable(text, indexIn);
        return false;
      }
      var c: Byte := szHmac[indexIn];
      NextChar(text, indexIn);
      EncodedWithOneMore(done, c);
      if InTable(text) { EncodedIsLonger(text, indexIn + 1); }
      ghost var was := szHmacClean[..];
      var copied := StringCchCopy(szHmacClean, indexOut, LIMPET_STRING_SIZE - indexOut, Encoding(c));
      if !copied {
        return false;
      }
      WriteOneMore(before, was, szHmacClean[..], done, c);
      indexOut := indexOut + |Encoding(c)|;
      indexIn := indexIn + 1;
    }
    assert text[..indexIn] == text;
    ok := true;
  }

  lemma AtFirst(text: seq<WChar>, before: seq<WChar>)
    ensures text[..0] == [] && InTable(text[..0]) && AsBytes(text[..0]) == [] && Encoded([]) == []
    ensures Written(before, before, [])
  {
  }

  lemma NotInTable(text: seq<WChar>, i: nat)
    requires i < |text| && text[i] > 0xff
    ensures !InTable(text)
  {
  }
}
