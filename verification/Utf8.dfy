/** UTF-8: codePointToUTF8, utf8ToCodepoint, and the byte strings on which they are inverse. */
module Utf8 {
  import opened ByteStrings

  const REPLACEMENT_CHARACTER: nat := 0xFFFD

  /** codePointToUTF8: nothing at all above the last code point. */
  function CodePointToUtf8(cp: nat): (r: Bytes)
    ensures |r| <= 4
    ensures cp <= 0x10FFFF <==> r != []
  {
    if cp <= 0x7f then [cp]
    else if cp <= 0x7FF then [0xC0 + cp / 0x40, 0x80 + cp % 0x40]
    else if cp <= 0xFFFF then [0xE0 + cp / 0x1000, 0x80 + cp / 0x40 % 0x40, 0x80 + cp % 0x40]
    else if cp <= 0x10FFFF then
      [0xF0 + cp / 0x40000, 0x80 + cp / 0x1000 % 0x40, 0x80 + cp / 0x40 % 0x40, 0x80 + cp % 0x40]
    else []
  }

  /** A code point and the number of bytes it was read from. */
  datatype Decoded = Decoded(cp: nat, used: nat)

  /** The payload bits of a two-byte form, whatever its marker bits. */
  function Join2(a: nat, b: nat): nat {
    a % 0x20 * 0x40 + b % 0x40
  }

  function Join3(a: nat, b: nat, c: nat): nat {
    a % 0x10 * 0x1000 + b % 0x40 * 0x40 + c % 0x40
  }

  function Join4(a: nat, b: nat, c: nat, d: nat): nat {
    a % 8 * 0x40000 + b % 0x40 * 0x1000 + c % 0x40 * 0x40 + d % 0x40
  }

  /** utf8ToCodepoint at the start of a nonempty string.  Continuation bytes are masked, not checked; over-long
      forms and surrogates become the replacement character. */
  function Utf8ToCodePoint(s: Bytes): (d: Decoded)
    requires s != []
    ensures 1 <= d.used <= |s| && d.used <= 4
    ensures d.cp < 0x200000
  {
    var first := s[0];
    if first < 0x80 then Decoded(first, 1)
    else if first < 0xE0 then
      if |s| < 2 then Decoded(REPLACEMENT_CHARACTER, 1)
      else
        var calculated := Join2(first, s[1]);
        Decoded(if calculated < 0x80 then REPLACEMENT_CHARACTER else calculated, 2)
    else if first < 0xF0 then
      if |s| < 3 then Decoded(REPLACEMENT_CHARACTER, 1)
      else
        var calculated := Join3(first, s[1], s[2]);
        Decoded(if 0xD800 <= calculated <= 0xDFFF || calculated < 0x800 then REPLACEMENT_CHARACTER else calculated, 3)
    else if first < 0xF8 then
      if |s| < 4 then Decoded(REPLACEMENT_CHARACTER, 1)
      else
        var calculated := Join4(first, s[1], s[2], s[3]);
        Decoded(if calculated < 0x10000 then REPLACEMENT_CHARACTER else calculated, 4)
    else Decoded(REPLACEMENT_CHARACTER, 1)
  }

  // ---- well-formed UTF-8, after the syntax in section 4 of RFC 3629

  predicate IsTail(b: Byte) {
    0x80 <= b <= 0xBF
  }

  /** The length of the well-formed character `s` begins with, or zero if it does not begin with one. */
  function CharLength(s: Bytes): (n: nat)
    ensures n <= |s| && n <= 4
  {
    if |s| >= 1 && s[0] <= 0x7F then 1
    else if |s| >= 2 && 0xC2 <= s[0] <= 0xDF && IsTail(s[1]) then 2
    else if |s| >= 3 && IsTail(s[2]) &&
      ( || (s[0] == 0xE0 && 0xA0 <= s[1] <= 0xBF)
        || (0xE1 <= s[0] <= 0xEC && IsTail(s[1]))
        || (s[0] == 0xED && 0x80 <= s[1] <= 0x9F)
        || (0xEE <= s[0] <= 0xEF && IsTail(s[1])) ) then 3
    else if |s| >= 4 && IsTail(s[2]) && IsTail(s[3]) &&
      ( || (s[0] == 0xF0 && 0x90 <= s[1] <= 0xBF)
        || (0xF1 <= s[0] <= 0xF3 && IsTail(s[1]))
        || (s[0] == 0xF4 && 0x80 <= s[1] <= 0x8F) ) then 4
    else 0
  }

  predicate WellFormedUtf8(s: Bytes) {
    s == [] || (CharLength(s) > 0 && WellFormedUtf8(s[CharLength(s)..]))
  }

  predicate IsScalar(cp: nat) {
    cp <= 0xD7FF || 0xE000 <= cp <= 0x10FFFF
  }

  /** utf8ToCodepoint inverts codePointToUTF8 on every Unicode scalar value, whatever bytes follow. */
  lemma DecodeInvertsEncode(cp: nat, rest: Bytes)
    requires IsScalar(cp)
    ensures var e := CodePointToUtf8(cp);
      Utf8ToCodePoint(e + rest) == Decoded(cp, |e|) && CharLength(e + rest) == |e|
  {
    var e := CodePointToUtf8(cp);
    var s := e + rest;
    if cp <= 0x7f {
    } else if cp <= 0x7FF {
      ReadTwo(s, cp);
    } else if cp <= 0xFFFF {
      JoinSplit3(cp);
      ReadThree(s, cp);
    } else {
      JoinSplit4(cp);
      ReadFour(s, cp);
    }
  }

  lemma ReadTwo(s: Bytes, cp: nat)
    requires |s| >= 2 && 0xC2 <= s[0] <= 0xDF && IsTail(s[1])
    requires Join2(s[0], s[1]) == cp
    ensures Utf8ToCodePoint(s) == Decoded(cp, 2) && CharLength(s) == 2
  {
  }

  lemma ReadThree(s: Bytes, cp: nat)
    requires |s| >= 3 && 0xE0 <= s[0] <= 0xEF && IsTail(s[1]) && IsTail(s[2])
    requires s[0] == 0xE0 ==> s[1] >= 0xA0
    requires s[0] == 0xED ==> s[1] <= 0x9F
    requires Join3(s[0], s[1], s[2]) == cp
    requires 0x800 <= cp <= 0xFFFF && IsScalar(cp)
    ensures Utf8ToCodePoint(s) == Decoded(cp, 3) && CharLength(s) == 3
  {
  }

  lemma ReadFour(s: Bytes, cp: nat)
    requires |s| >= 4 && 0xF0 <= s[0] <= 0xF4 && IsTail(s[1]) && IsTail(s[2]) && IsTail(s[3])
    requires s[0] == 0xF0 ==> s[1] >= 0x90
    requires s[0] == 0xF4 ==> s[1] <= 0x8F
    requires Join4(s[0], s[1], s[2], s[3]) == cp
    requires 0x10000 <= cp <= 0x10FFFF
    ensures Utf8ToCodePoint(s) == Decoded(cp, 4) && CharLength(s) == 4
  {
  }

  lemma Sextets(q: nat, r: nat)
    requires r < 0x40
    ensures (q * 0x40 + r) / 0x40 == q && (q * 0x40 + r) % 0x40 == r
    ensures (0x80 + r) % 0x40 == r
  {
  }

  lemma JoinSplit3(cp: nat)
    requires cp <= 0xFFFF
    ensures Join3(0xE0 + cp / 0x1000, 0x80 + cp / 0x40 % 0x40, 0x80 + cp % 0x40) == cp
    ensures cp >= 0xE000 ==> cp / 0x1000 >= 0xE
    ensures 0x800 <= cp && cp / 0x1000 == 0 ==> cp / 0x40 % 0x40 >= 0x20
    ensures cp / 0x1000 == 0xD && cp <= 0xD7FF ==> cp / 0x40 % 0x40 <= 0x1F
  {
    var q, c := cp / 0x40, cp % 0x40;
    var a, b := q / 0x40, q % 0x40;
    assert cp == a * 0x1000 + b * 0x40 + c && a < 0x10;
    assert cp / 0x1000 == a;
    assert (0xE0 + a) % 0x10 == a;
    Sextets(q, c);
    Sextets(a, b);
  }

  lemma JoinSplit4(cp: nat)
    requires 0x10000 <= cp <= 0x10FFFF
    ensures Join4(0xF0 + cp / 0x40000, 0x80 + cp / 0x1000 % 0x40, 0x80 + cp / 0x40 % 0x40, 0x80 + cp % 0x40) == cp
    ensures cp / 0x40000 == 0 ==> cp / 0x1000 % 0x40 >= 0x10
    ensures cp / 0x40000 == 4 ==> cp / 0x1000 % 0x40 <= 0xF
  {
    var q, d := cp / 0x40, cp % 0x40;
    var p, c := q / 0x40, q % 0x40;
    var a, b := p / 0x40, p % 0x40;
    assert cp == a * 0x40000 + b * 0x1000 + c * 0x40 + d && a <= 4;
    assert cp / 0x1000 == p && cp / 0x40000 == a;
    assert (0xF0 + a) % 8 == a;
    Sextets(q, d);
    Sextets(p, c);
    Sextets(a, b);
  }

  /** On a well-formed character, utf8ToCodepoint takes exactly its bytes and codePointToUTF8 gives them back. */
  lemma EncodeInvertsDecode(s: Bytes)
    requires CharLength(s) > 0
    ensures var d := Utf8ToCodePoint(s);
      d.used == CharLength(s) && IsScalar(d.cp) && CodePointToUtf8(d.cp) == s[..d.used]
  {
    var n := CharLength(s);
    if n == 2 {
      SplitJoin2(s[0], s[1]);
      assert s[..2] == [s[0], s[1]];
    } else if n == 3 {
      SplitJoin3(s[0], s[1], s[2]);
      assert s[..3] == [s[0], s[1], s[2]];
    } else if n == 4 {
      SplitJoin4(s[0], s[1], s[2], s[3]);
      assert s[..4] == [s[0], s[1], s[2], s[3]];
    }
  }

  lemma SplitJoin2(a: nat, b: nat)
    requires 0xC2 <= a <= 0xDF && 0x80 <= b <= 0xBF
    ensures var n := Join2(a, b); 0x80 <= n <= 0x7FF && CodePointToUtf8(n) == [a, b]
  {
    Masked(a, b, b, b);
    Sextets(a - 0xC0, b - 0x80);
  }

  lemma SplitJoin3(a: nat, b: nat, c: nat)
    requires 0xE0 <= a <= 0xEF && 0x80 <= b <= 0xBF && 0x80 <= c <= 0xBF
    requires a == 0xE0 ==> b >= 0xA0
    requires a == 0xED ==> b <= 0x9F
    ensures var n := Join3(a, b, c); 0x800 <= n <= 0xFFFF && IsScalar(n) && CodePointToUtf8(n) == [a, b, c]
  {
    Masked(a, b, c, c);
    Quotients(0, a - 0xE0, b - 0x80, c - 0x80);
  }

  lemma SplitJoin4(a: nat, b: nat, c: nat, d: nat)
    requires 0xF0 <= a <= 0xF4 && 0x80 <= b <= 0xBF && 0x80 <= c <= 0xBF && 0x80 <= d <= 0xBF
    requires a == 0xF0 ==> b >= 0x90
    requires a == 0xF4 ==> b <= 0x8F
    ensures var n := Join4(a, b, c, d); 0x10000 <= n <= 0x10FFFF && CodePointToUtf8(n) == [a, b, c, d]
  {
    Masked(a, b, c, d);
    Quotients(a - 0xF0, b - 0x80, c - 0x80, d - 0x80);
  }

  /** Masking the marker bits off leaves the payload. */
  lemma Masked(a: nat, b: nat, c: nat, d: nat)
    requires 0xC0 <= a <= 0xF7 && 0x80 <= b <= 0xBF && 0x80 <= c <= 0xBF && 0x80 <= d <= 0xBF
    ensures a < 0xE0 ==> a % 0x20 == a - 0xC0
    ensures 0xE0 <= a < 0xF0 ==> a % 0x10 == a - 0xE0
    ensures 0xF0 <= a ==> a % 8 == a - 0xF0
    ensures b % 0x40 == b - 0x80 && c % 0x40 == c - 0x80 && d % 0x40 == d - 0x80
  {
  }

  /** The sextets of a number put together from sextets. */
  lemma Quotients(w: nat, x: nat, y: nat, z: nat)
    requires x < 0x40 && y < 0x40 && z < 0x40
    ensures var n := w * 0x40000 + x * 0x1000 + y * 0x40 + z;
      && n / 0x40 == w * 0x1000 + x * 0x40 + y && n % 0x40 == z
      && n / 0x1000 == w * 0x40 + x && n / 0x40 % 0x40 == y
      && n / 0x40000 == w && n / 0x1000 % 0x40 == x
  {
    var n := w * 0x40000 + x * 0x1000 + y * 0x40 + z;
    var p := w * 0x40 + x;
    var q := p * 0x40 + y;
    Sextets(q, z);
    Sextets(p, y);
    Sextets(w, x);
    assert n == q * 0x40 + z;
    assert n / 0x1000 == p;
    assert n / 0x40000 == w;
  }

  /** Where no well-formed character begins, re-encoding what utf8ToCodepoint found cannot give the input back. */
  lemma MalformedIsChanged(s: Bytes)
    requires s != [] && CharLength(s) == 0
    requires Utf8ToCodePoint(s).cp <= 0x10FFFF
    ensures !(CodePointToUtf8(Utf8ToCodePoint(s).cp) <= s)
  {
    var d := Utf8ToCodePoint(s);
    var e := CodePointToUtf8(d.cp);
    if e <= s {
      assert s == e + s[|e|..];
      if IsScalar(d.cp) {
        DecodeInvertsEncode(d.cp, s[|e|..]);
      }
      assert false;
    }
  }
}
