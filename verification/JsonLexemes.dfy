/** The tokens, blanks and comments of OurReader as a grammar: what the lexer has taken whenever it returns. */
module JsonLexemes {
  import opened ByteStrings
  import opened JsonValue
  import opened JsonNumbers
  import opened JsonErrors
  import opened JsonStrings
  import opened JsonParsing
  import opened JsonTexts

  // ---- what stands between tokens

  /** A blank, or a comment up to its end. */
  datatype Filler =
    | Blank(c: Byte)
    | Block(opener: Byte, body: Bytes)
    | Line(opener: Byte, body: Bytes, end: Bytes)

  type Gap = seq<Filler>

  function FillerText(x: Filler): Bytes {
    match x
    case Blank(c) => [c]
    case Block(o, body) => [o, STAR] + body + [STAR, SLASH]
    case Line(o, body, end) => [o, SLASH] + body + end
  }

  function GapText(g: Gap): Bytes {
    if g == [] then [] else FillerText(g[0]) + GapText(g[1..])
  }

  /** A comment begins with a slash, or with an apostrophe where that does not begin a string. */
  predicate Opens(f: OurFeatures, c: Byte) {
    c == SLASH || (c == APOSTROPHE && !f.allowSingleQuotes)
  }

  /** No star-slash in it. */
  predicate Unclosed(b: Bytes) {
    b == [] || (!(b[0] == STAR && StartsWith(b[1..], SLASH)) && Unclosed(b[1..]))
  }

  predicate OneLine(b: Bytes) {
    LINE_FEED !in b && CARRIAGE_RETURN !in b
  }

  predicate ValidFiller(f: OurFeatures, x: Filler) {
    match x
    case Blank(c) => IsSpace(c)
    case Block(o, body) => Opens(f, o) && Unclosed(body + [STAR])
    case Line(o, body, end) =>
      Opens(f, o) && OneLine(body) &&
      (end == [LINE_FEED] || end == [CARRIAGE_RETURN] || end == [CARRIAGE_RETURN, LINE_FEED])
  }

  predicate ValidGap(f: OurFeatures, g: Gap) {
    forall x :: x in g ==> ValidFiller(f, x)
  }

  predicate NoComments(g: Gap) {
    forall x :: x in g ==> x.Blank?
  }

  /** The last comment of a document need not be closed: a line may just end, and a slash alone may end a block. */
  predicate LastComment(f: OurFeatures, t: Bytes) {
    && |t| >= 2 && Opens(f, t[0])
    && ((t[1] == STAR && |t| >= 3 && t[|t| - 1] == SLASH && Unclosed(t[2..])) || (t[1] == SLASH && OneLine(t[2..])))
  }

  // ---- tokens

  /** A number as the lexer takes it: after a minus all digits may be missing, as may those of the fraction and of the
      exponent. */
  predicate LooseNumber(n: Number) {
    && AllDigits(n.digits) && (n.digits != [] || n.negative)
    && (n.fraction.Some? ==> AllDigits(n.fraction.value))
    && (n.exponent.Some? ==>
          && (n.exponent.value.e == 0x65 || n.exponent.value.e == 0x45)
          && (n.exponent.value.sign == [] || n.exponent.value.sign == [PLUS] || n.exponent.value.sign == [MINUS])
          && AllDigits(n.exponent.value.digits))
  }

  /** Nothing in what follows would still belong to the number. */
  predicate Stops(n: Number, rest: Bytes) {
    rest == [] ||
    (&& !IsDigit(rest[0])
     && match n.exponent
        case Some(x) => x.sign == [] && x.digits == [] ==> rest[0] != PLUS && rest[0] != MINUS
        case None =>
          && rest[0] != 0x65 && rest[0] != 0x45
          && (n.fraction.None? ==> rest[0] != DOT)
          && (n.fraction.None? && n.digits == [] ==> rest[0] != CAPITAL_I))
  }

  /** The text between two delimiters: no delimiter in it but after a backslash. */
  predicate Enclosed(b: Bytes, delimiter: Byte) {
    if b == [] then true
    else if b[0] == BACKSLASH then |b| >= 2 && Enclosed(b[2..], delimiter)
    else b[0] != delimiter && Enclosed(b[1..], delimiter)
  }

  predicate Delimits(f: OurFeatures, c: Byte) {
    c == QUOTE || (c == APOSTROPHE && f.allowSingleQuotes)
  }

  /** The tokens with only one text. */
  function FixedText(kind: TokenType): Option<Bytes> {
    match kind
    case ObjectBegin => Some([LBRACE])
    case ObjectEnd => Some([RBRACE])
    case ArrayBegin => Some([LBRACKET])
    case ArrayEnd => Some([RBRACKET])
    case TrueToken => Some(TRUE_TEXT)
    case FalseToken => Some(FALSE_TEXT)
    case NullToken => Some(NULL_TEXT)
    case NaNToken => Some([CAPITAL_N] + AN)
    case PosInfToken => Some([CAPITAL_I] + NFINITY)
    case NegInfToken => Some([MINUS, CAPITAL_I] + NFINITY)
    case ArraySeparator => Some([COMMA])
    case MemberSeparator => Some([COLON])
    case _ => None
  }

  /** The text of a string token with this body. */
  function QuotedBy(delimiter: Byte, body: Bytes): Bytes {
    [delimiter] + body + [delimiter]
  }

  /** What the text of a token is, given what follows it. */
  ghost predicate TokenShape(f: OurFeatures, kind: TokenType, text: Bytes, rest: Bytes) {
    && (FixedText(kind).Some? ==> text == FixedText(kind).value)
    && (kind in {NaNToken, PosInfToken, NegInfToken} ==> f.allowSpecialFloats)
    && (kind == NumberToken ==> exists n :: LooseNumber(n) && Stops(n, rest) && text == SpellNumber(n))
    && (kind == StringToken ==>
          exists d, body :: Delimits(f, d) && Enclosed(body, d) && text == QuotedBy(d, body))
    && (kind == EndOfStream ==> text == [] || text == [0])
  }

  // ---- the lexer only cuts

  predicate EndOf(o: Bytes, r: Bytes) {
    |o| <= |r| && o == r[|r| - |o|..]
  }

  lemma EndOfDrop(o: Bytes, r: Bytes, n: nat)
    requires n <= |r| && EndOf(o, r[n..])
    ensures EndOf(o, r) && r[..|r| - |o|] == r[..n] + r[n..][..|r| - n - |o|]
  {
  }

  lemma {:induction false} DigitsAreCut(r: Bytes)
    ensures EndOf(SkipDigits(r), r) && AllDigits(r[..|r| - |SkipDigits(r)|])
  {
    if r != [] && IsDigit(r[0]) {
      DigitsAreCut(r[1..]);
      EndOfDrop(SkipDigits(r), r, 1);
    }
  }

  lemma {:induction false} SpacesAreCut(f: OurFeatures, r: Bytes) returns (g: Gap)
    ensures ValidGap(f, g) && NoComments(g) && r == GapText(g) + SkipSpaces(r)
  {
    if r != [] && IsSpace(r[0]) {
      var rest := SpacesAreCut(f, r[1..]);
      g := [Blank(r[0])] + rest;
      Assoc([r[0]], GapText(rest), SkipSpaces(r));
      assert r == [r[0]] + r[1..];
    } else {
      g := [];
      EmptyIsNeutral(r);
    }
  }

  lemma FractionIsCut(r: Bytes) returns (f: Option<Bytes>)
    ensures r == SpellFraction(f) + ReadFraction(r) && (f.Some? ==> AllDigits(f.value))
    ensures var rest := ReadFraction(r);
      if f.Some? then rest == [] || !IsDigit(rest[0]) else rest == r && !StartsWith(r, DOT)
  {
    if StartsWith(r, DOT) {
      DigitsAreCut(r[1..]);
      f := Some(r[1..][..|r| - 1 - |ReadFraction(r)|]);
      assert r == [DOT] + r[1..];
    } else {
      f := None;
      EmptyIsNeutral(r);
    }
  }

  lemma SignIsCut(r: Bytes) returns (sign: Bytes, unsigned: Bytes)
    requires r != [] && (r[0] == 0x65 || r[0] == 0x45)
    ensures sign == [] || sign == [PLUS] || sign == [MINUS]
    ensures r[1..] == sign + unsigned && ReadExponent(r) == SkipDigits(unsigned)
    ensures sign == [] ==> !StartsWith(unsigned, PLUS) && !StartsWith(unsigned, MINUS)
  {
    hide SkipDigits;
    var signed := r[1..];
    if StartsWith(signed, PLUS) || StartsWith(signed, MINUS) {
      sign, unsigned := [signed[0]], signed[1..];
    } else {
      sign, unsigned := [], signed;
    }
  }

  lemma ExponentIsCut(r: Bytes) returns (x: Option<Exponent>)
    ensures r == SpellExponent(x) + ReadExponent(r)
    ensures LooseNumber(Number(true, [], None, x))
    ensures x.Some? ==> Stops(Number(true, [], None, x), ReadExponent(r))
    ensures x.None? ==> ReadExponent(r) == r && !StartsWith(r, 0x65) && !StartsWith(r, 0x45)
  {
    hide SkipDigits, AllDigits, ReadExponent;
    NoDigits();
    if r != [] && (r[0] == 0x65 || r[0] == 0x45) {
      var sign, unsigned := SignIsCut(r);
      DigitsAreCut(unsigned);
      var digits := unsigned[..|unsigned| - |SkipDigits(unsigned)|];
      x := Some(Exponent(r[0], sign, digits));
      PutTogether(r, r[0], sign, unsigned, digits, SkipDigits(unsigned));
      if digits == [] { assert SkipDigits(unsigned) == unsigned; }
    } else {
      x := None;
      NoExponent(r);
      EmptyIsNeutral(r);
    }
  }

  lemma NoExponent(r: Bytes)
    requires !(r != [] && (r[0] == 0x65 || r[0] == 0x45))
    ensures ReadExponent(r) == r
  {
  }

  lemma NoDigits()
    ensures AllDigits([])
  {
  }

  lemma PutTogether(r: Bytes, e: Byte, sign: Bytes, unsigned: Bytes, digits: Bytes, rest: Bytes)
    requires r != [] && r[0] == e && r[1..] == sign + unsigned && EndOf(rest, unsigned)
    requires digits == unsigned[..|unsigned| - |rest|]
    ensures r == [e] + sign + digits + rest
  {
    assert r == [e] + r[1..];
    assert unsigned == digits + rest;
    Assoc([e], sign, digits + rest);
    Assoc([e] + sign, digits, rest);
  }

  lemma OneMoreDigit(c: Byte, digits: Bytes)
    ensures AllDigits(digits) && IsDigit(c) ==> AllDigits([c] + digits)
  {
  }

  lemma LeadingDigits(t: Bytes) returns (digits: Bytes)
    ensures t == digits + SkipDigits(t) && AllDigits(digits)
    ensures SkipDigits(t) == [] || !IsDigit(SkipDigits(t)[0])
  {
    hide SkipDigits;
    DigitsAreCut(t);
    digits := t[..|t| - |SkipDigits(t)|];
  }

  /** readNumber after its first character, which is a digit or a minus. */
  lemma NumberIsCut(c: Byte, t: Bytes) returns (n: Number)
    requires IsDigit(c) || (c == MINUS && !StartsWith(t, CAPITAL_I))
    ensures LooseNumber(n) && Stops(n, ReadNumber(t)) && [c] + t == SpellNumber(n) + ReadNumber(t)
  {
    hide SkipDigits, ReadFraction, ReadExponent, AllDigits, SpellFraction, SpellExponent, Stops, LooseNumber;
    hide SpellNumber;
    var digits := LeadingDigits(t);
    var r := SkipDigits(t);
    var fraction := FractionIsCut(r);
    var q := ReadFraction(r);
    var exponent := ExponentIsCut(q);
    var rest := ReadExponent(q);
    n := Number(c == MINUS, if c == MINUS then digits else [c] + digits, fraction, exponent);
    LooseParts(c, n, digits);
    NumberStops(n, t, digits, r, q, rest);
    NumberPutTogether(c, n, t, digits, r, q, rest);
  }

  lemma LooseParts(c: Byte, n: Number, digits: Bytes)
    requires AllDigits(digits) && (IsDigit(c) || c == MINUS) && (n.fraction.Some? ==> AllDigits(n.fraction.value))
    requires LooseNumber(Number(true, [], None, n.exponent))
    requires n.negative == (c == MINUS) && n.digits == if c == MINUS then digits else [c] + digits
    ensures LooseNumber(n)
  {
    OneMoreDigit(c, digits);
  }

  lemma NumberStops(n: Number, t: Bytes, digits: Bytes, r: Bytes, q: Bytes, rest: Bytes)
    requires t == digits + r && (r == [] || !IsDigit(r[0]))
    requires if n.fraction.Some? then q == [] || !IsDigit(q[0]) else q == r && !StartsWith(r, DOT)
    requires n.exponent.Some? ==> Stops(Number(true, [], None, n.exponent), rest)
    requires n.exponent.None? ==> rest == q && !StartsWith(q, 0x65) && !StartsWith(q, 0x45)
    requires n.digits == [] ==> digits == [] && !StartsWith(t, CAPITAL_I)
    ensures Stops(n, rest)
  {
    if digits == [] { EmptyIsNeutral(r); }
  }

  lemma NumberPutTogether(c: Byte, n: Number, t: Bytes, digits: Bytes, r: Bytes, q: Bytes, rest: Bytes)
    requires if n.negative then c == MINUS && n.digits == digits else n.digits == [c] + digits
    requires t == digits + r && r == SpellFraction(n.fraction) + q && q == SpellExponent(n.exponent) + rest
    ensures [c] + t == SpellNumber(n) + rest
  {
    hide SpellFraction, SpellExponent;
    if n.negative {
      RegroupRight([MINUS], n.digits, SpellFraction(n.fraction), SpellExponent(n.exponent), rest);
    } else {
      Assoc([c], digits, r);
      RegroupRight([], n.digits, SpellFraction(n.fraction), SpellExponent(n.exponent), rest);
    }
  }

  lemma {:induction false} StringIsCut(t: Bytes, d: Byte) returns (body: Bytes)
    requires ReadString(t, d).ok && d != BACKSLASH
    ensures Enclosed(body, d) && t == body + ([d] + ReadString(t, d).rest)
  {
    var rest := ReadString(t, d).rest;
    if t[0] == BACKSLASH {
      var tail := StringIsCut(t[2..], d);
      body := t[..2] + tail;
      assert t == t[..2] + t[2..];
      assert body[2..] == tail;
      Assoc(t[..2], tail, [d] + rest);
    } else if t[0] == d {
      body := [];
      assert t == [d] + t[1..];
      EmptyIsNeutral([d] + rest);
    } else {
      var tail := StringIsCut(t[1..], d);
      body := [t[0]] + tail;
      assert t == [t[0]] + t[1..];
      assert body[1..] == tail;
      Assoc([t[0]], tail, [d] + rest);
    }
  }

  lemma {:induction false} StringRestIsEnd(t: Bytes, d: Byte)
    ensures EndOf(ReadString(t, d).rest, t)
  {
    if t != [] {
      if t[0] == BACKSLASH {
        if |t| > 1 { StringRestIsEnd(t[2..], d); }
      } else if t[0] != d {
        StringRestIsEnd(t[1..], d);
      }
    }
  }

  lemma {:induction false} BlockIsCut(t: Bytes) returns (body: Bytes)
    requires ReadCStyleComment(t).ok
    ensures var rest := ReadCStyleComment(t).rest;
      || (t == body + ([STAR, SLASH] + rest) && Unclosed(body + [STAR]))
      || (rest == [] && t == body + [SLASH] && Unclosed(t))
  {
    var rest := ReadCStyleComment(t).rest;
    if |t| < 2 {
      body := [];
      assert t == [SLASH] == body + [SLASH];
    } else if t[0] == STAR && t[1] == SLASH {
      body := [];
      assert t == [STAR, SLASH] + t[2..];
      EmptyIsNeutral([STAR, SLASH] + rest);
      assert body + [STAR] == [STAR];
    } else {
      var tail := BlockIsCut(t[1..]);
      body := [t[0]] + tail;
      assert t == [t[0]] + t[1..];
      Assoc([t[0]], tail, [STAR, SLASH] + rest);
      Assoc([t[0]], tail, [SLASH]);
      if t[1..] == tail + ([STAR, SLASH] + rest) && Unclosed(tail + [STAR]) {
        assert body + [STAR] == [t[0]] + (tail + [STAR]);
        assert (body + [STAR])[1..] == tail + [STAR];
        assert (tail + [STAR])[0] == t[1];
      }
    }
  }

  lemma {:induction false} BlockRestIsEnd(t: Bytes)
    ensures EndOf(ReadCStyleComment(t).rest, t)
  {
    if |t| >= 2 && !(t[0] == STAR && t[1] == SLASH) {
      var rest := ReadCStyleComment(t[1..]).rest;
      BlockRestIsEnd(t[1..]);
      EndOfDrop(rest, t, 1);
    }
  }

  lemma {:induction false} LineIsCut(t: Bytes) returns (body: Bytes, end: Bytes)
    ensures OneLine(body) && t == body + (end + ReadCppStyleComment(t))
    ensures (end == [] && ReadCppStyleComment(t) == []) ||
      end == [LINE_FEED] || end == [CARRIAGE_RETURN] || end == [CARRIAGE_RETURN, LINE_FEED]
  {
    if t == [] {
      body, end := [], [];
    } else if t[0] == LINE_FEED {
      body, end := [], [LINE_FEED];
    } else if t[0] == CARRIAGE_RETURN {
      body, end := [], if StartsWith(t[1..], LINE_FEED) then t[..2] else t[..1];
    } else {
      var tail;
      tail, end := LineIsCut(t[1..]);
      body := [t[0]] + tail;
      assert t == [t[0]] + t[1..];
      Assoc([t[0]], tail, end + ReadCppStyleComment(t));
    }
  }

  lemma CommentRestIsEnd(t: Bytes)
    ensures EndOf(ReadComment(t).rest, t)
  {
    if t != [] {
      if t[0] == STAR {
        BlockRestIsEnd(t[1..]);
      } else if t[0] == SLASH {
        var body, end := LineIsCut(t[1..]);
        Assoc(body, end, ReadCppStyleComment(t[1..]));
        DropLeft(body + end, ReadCppStyleComment(t[1..]));
      }
    }
  }

  lemma NumberRestIsEnd(t: Bytes)
    ensures EndOf(ReadNumber(t), t)
  {
    var n := NumberIsCut(ZERO, t);
    DropLeft(SpellNumber(n), ReadNumber(t));
    assert ([ZERO] + t)[1..] == t;
  }

  lemma RestIsEnd(f: OurFeatures, c: Byte, t: Bytes)
    ensures EndOf(Classify(f, c, t).1.rest, t)
  {
    hide ReadString, ReadNumber, ReadComment, Match, EndOf;
    AllIsEnd(t);
    if c in {QUOTE, APOSTROPHE, SLASH} {
      StringRestIsEnd(t, c);
      CommentRestIsEnd(t);
    } else if IsDigit(c) || c == MINUS {
      NumberRestIsEnd(t);
      if StartsWith(t, CAPITAL_I) {
        OneLess(t);
        MatchRestIsEnd(t[1..], NFINITY);
        EndOfEnd(Match(t[1..], NFINITY).rest, t);
      }
    } else {
      MatchRestIsEnd(t, RUE);
      MatchRestIsEnd(t, ALSE);
      MatchRestIsEnd(t, ULL);
      MatchRestIsEnd(t, AN);
      MatchRestIsEnd(t, NFINITY);
    }
  }

  lemma AllIsEnd(t: Bytes)
    ensures EndOf(t, t)
  {
  }

  lemma OneLess(t: Bytes)
    requires t != []
    ensures EndOf(t[1..], t)
  {
  }

  lemma EndOfEnd(o: Bytes, t: Bytes)
    requires t != [] && EndOf(o, t[1..])
    ensures EndOf(o, t)
  {
  }

  lemma MatchRestIsEnd(t: Bytes, pattern: Bytes)
    ensures EndOf(Match(t, pattern).rest, t)
  {
  }

  /** A token is the text up to the rest. */
  lemma TokenIsCut(f: OurFeatures, r: Bytes)
    ensures var t := ReadToken(f, r); SkipSpaces(r) == t.text + t.rest
  {
    hide Classify, SkipSpaces;
    var s := SkipSpaces(r);
    if s != [] {
      RestIsEnd(f, s[0], s[1..]);
    }
  }

  // ---- what the tokens are

  lemma WordIsCut(c: Byte, t: Bytes, pattern: Bytes)
    requires Match(t, pattern).ok
    ensures [c] + t == [c] + pattern + Match(t, pattern).rest
  {
    assert t == pattern + t[|pattern|..];
    Assoc([c], pattern, t[|pattern|..]);
  }

  lemma CutAt(text: Bytes, rest: Bytes, s: Bytes)
    requires s == text + rest
    ensures s[..|s| - |rest|] == text
  {
  }

  /** The text of the token that `c` and `t` begin. */
  function TextOf(c: Byte, t: Bytes, rest: Bytes): Bytes
    requires |rest| <= |t|
  {
    ([c] + t)[..1 + |t| - |rest|]
  }

  lemma ShapeOfString(f: OurFeatures, c: Byte, t: Bytes)
    requires Delimits(f, c) && ReadString(t, c).ok
    ensures TokenShape(f, StringToken, TextOf(c, t, ReadString(t, c).rest), ReadString(t, c).rest)
  {
    var body := StringIsCut(t, c);
    var rest := ReadString(t, c).rest;
    RegroupRight([], [c], body, [c], rest);
    assert [c] + t == QuotedBy(c, body) + rest;
    CutAt(QuotedBy(c, body), rest, [c] + t);
  }

  lemma ShapeOfNumber(f: OurFeatures, c: Byte, t: Bytes)
    requires IsDigit(c) || (c == MINUS && !StartsWith(t, CAPITAL_I))
    ensures TokenShape(f, NumberToken, TextOf(c, t, ReadNumber(t)), ReadNumber(t))
  {
    hide LooseNumber, Stops, SpellNumber, ReadNumber;
    var n := NumberIsCut(c, t);
    CutAt(SpellNumber(n), ReadNumber(t), [c] + t);
  }

  lemma ShapeOfWord(f: OurFeatures, c: Byte, t: Bytes, pattern: Bytes, kind: TokenType)
    requires Match(t, pattern).ok && FixedText(kind) == Some([c] + pattern)
    requires kind != NegInfToken && (kind in {NaNToken, PosInfToken} ==> f.allowSpecialFloats)
    ensures TokenShape(f, kind, TextOf(c, t, Match(t, pattern).rest), Match(t, pattern).rest)
  {
    WordIsCut(c, t, pattern);
    CutAt([c] + pattern, Match(t, pattern).rest, [c] + t);
  }

  lemma ShapeOfMinusInfinity(f: OurFeatures, t: Bytes)
    requires StartsWith(t, CAPITAL_I) && f.allowSpecialFloats && Match(t[1..], NFINITY).ok
    ensures var rest := Match(t[1..], NFINITY).rest; TokenShape(f, NegInfToken, TextOf(MINUS, t, rest), rest)
  {
    var rest := Match(t[1..], NFINITY).rest;
    WordIsCut(CAPITAL_I, t[1..], NFINITY);
    assert t == [CAPITAL_I] + t[1..];
    assert [MINUS] + t == [MINUS, CAPITAL_I] + NFINITY + rest;
    CutAt([MINUS, CAPITAL_I] + NFINITY, rest, [MINUS] + t);
  }

  lemma ShapeOfOne(f: OurFeatures, c: Byte, t: Bytes, kind: TokenType)
    requires FixedText(kind) == Some([c]) || (kind == EndOfStream && c == 0)
    ensures TokenShape(f, kind, TextOf(c, t, t), t)
  {
    CutAt([c], t, [c] + t);
  }

  lemma ShapeOf(f: OurFeatures, c: Byte, t: Bytes)
    ensures var (kind, scan) := Classify(f, c, t); scan.ok ==> TokenShape(f, kind, TextOf(c, t, scan.rest), scan.rest)
  {
    hide TokenShape, TextOf, ReadString, ReadNumber, ReadComment;
    var (kind, scan) := Classify(f, c, t);
    if scan.ok {
      match kind {
        case StringToken => ShapeOfString(f, c, t);
        case NumberToken => ShapeOfNumber(f, c, t);
        case TrueToken => ShapeOfWord(f, c, t, RUE, kind);
        case FalseToken => ShapeOfWord(f, c, t, ALSE, kind);
        case NullToken => ShapeOfWord(f, c, t, ULL, kind);
        case NaNToken => ShapeOfWord(f, c, t, AN, kind);
        case PosInfToken => ShapeOfWord(f, c, t, NFINITY, kind);
        case NegInfToken => ShapeOfMinusInfinity(f, t);
        case Comment => ShapeOfOthers(f, kind, TextOf(c, t, scan.rest), scan.rest);
        case ErrorToken => assert false;
        case _ => ShapeOfOne(f, c, t, kind);
      }
    }
  }

  lemma ShapeOfOthers(f: OurFeatures, kind: TokenType, text: Bytes, rest: Bytes)
    requires kind == Comment || kind == ErrorToken
    ensures TokenShape(f, kind, text, rest)
  {
  }

  lemma TokenHasShape(f: OurFeatures, r: Bytes)
    ensures var t := ReadToken(f, r); TokenShape(f, t.kind, t.text, t.rest)
  {
    hide TokenShape, Classify, SkipSpaces;
    var s := SkipSpaces(r);
    if s == [] {
      EmptyEnds(f);
    } else {
      ShapeOf(f, s[0], s[1..]);
      assert [s[0]] + s[1..] == s;
      ShapeOfOthers(f, ErrorToken, ReadToken(f, r).text, ReadToken(f, r).rest);
    }
  }

  lemma EmptyEnds(f: OurFeatures)
    ensures TokenShape(f, EndOfStream, [], [])
  {
  }

  /** The token is the first of its own text and rest. */
  predicate IsToken(f: OurFeatures, t: Lexed) {
    ReadToken(f, t.text + t.rest) == t
  }

  lemma SkippingAgain(r: Bytes)
    ensures SkipSpaces(SkipSpaces(r)) == SkipSpaces(r)
  {
  }

  lemma ReadsToken(f: OurFeatures, r: Bytes)
    ensures IsToken(f, ReadToken(f, r))
  {
    hide Classify, SkipSpaces;
    TokenIsCut(f, r);
    SkippingAgain(r);
  }

  lemma TokensHaveShape(f: OurFeatures, t: Lexed)
    requires IsToken(f, t)
    ensures TokenShape(f, t.kind, t.text, t.rest)
  {
    hide TokenShape, ReadToken;
    TokenHasShape(f, t.text + t.rest);
  }

  /** A comment is a filler, or the last thing in the document. */
  lemma CommentIsFiller(f: OurFeatures, r: Bytes) returns (x: Filler)
    requires ReadToken(f, r).kind == Comment
    ensures var t := ReadToken(f, r);
      (ValidFiller(f, x) && t.text == FillerText(x)) || (t.rest == [] && LastComment(f, t.text))
    ensures !x.Blank?
  {
    hide SkipSpaces, ReadComment, ValidFiller, FillerText, LastComment;
    var s := SkipSpaces(r);
    var c, t := s[0], s[1..];
    IsComment(f, c, t);
    TokenIsCut(f, r);
    x := FillerOf(f, c, t);
    assert s == [c] + t;
    var token := ReadToken(f, r);
    assert token.rest == ReadComment(t).rest;
    CutAt(token.text, token.rest, s);
    if ValidFiller(f, x) && s == FillerText(x) + token.rest {
      CutAt(FillerText(x), token.rest, s);
    } else {
      EmptyIsNeutral(token.text);
    }
  }

  lemma IsComment(f: OurFeatures, c: Byte, t: Bytes)
    requires Classify(f, c, t).0 == Comment && Classify(f, c, t).1.ok
    ensures Opens(f, c) && Classify(f, c, t).1 == ReadComment(t)
  {
    hide ReadComment, ReadString, ReadNumber;
  }

  lemma FillerOf(f: OurFeatures, c: Byte, t: Bytes) returns (x: Filler)
    requires Opens(f, c) && ReadComment(t).ok
    ensures var rest := ReadComment(t).rest;
      || (ValidFiller(f, x) && [c] + t == FillerText(x) + rest)
      || (rest == [] && LastComment(f, [c] + t))
    ensures !x.Blank?
  {
    hide ReadCStyleComment, ReadCppStyleComment, Unclosed, OneLine;
    var u, rest := t[1..], ReadComment(t).rest;
    assert [c] + t == [c, t[0]] + u;
    if t[0] == STAR {
      var body := BlockIsCut(u);
      x := Block(c, body);
      if u == body + ([STAR, SLASH] + rest) {
        RegroupRight([], [c, STAR], body, [STAR, SLASH], rest);
      }
    } else {
      var body, end := LineIsCut(u);
      x := Line(c, body, end);
      RegroupRight([], [c, SLASH], body, end, rest);
      if end == [] {
        EmptyIsNeutral(body);
        assert ([c] + t)[2..] == u == body;
      }
    }
  }

  // ---- gaps

  lemma {:induction false} GapInParts(f: OurFeatures, a: Gap, b: Gap)
    ensures GapText(a + b) == GapText(a) + GapText(b)
    ensures ValidGap(f, a) && ValidGap(f, b) ==> ValidGap(f, a + b)
  {
    hide FillerText, ValidFiller;
    if a == [] {
      assert a + b == b;
      EmptyIsNeutral(GapText(b));
    } else {
      assert (a + b)[1..] == a[1..] + b;
      GapInParts(f, a[1..], b);
      Assoc(FillerText(a[0]), GapText(a[1..]), GapText(b));
    }
  }

  lemma BlanksBefore(f: OurFeatures, r: Bytes) returns (g: Gap)
    ensures var t := ReadToken(f, r);
      ValidGap(f, g) && NoComments(g) && r == GapText(g) + (t.text + t.rest) && IsToken(f, t)
  {
    hide ReadToken, SkipSpaces, ValidGap, NoComments, IsToken;
    g := SpacesAreCut(f, r);
    TokenIsCut(f, r);
    ReadsToken(f, r);
  }

  lemma {:induction false} GapBefore(f: OurFeatures, r: Bytes) returns (g: Gap)
    requires PastComments(f, r).text != []
    ensures var t := PastComments(f, r);
      ValidGap(f, g) && r == GapText(g) + (t.text + t.rest) && IsToken(f, t)
    ensures ReadToken(f, r).kind == Comment ==> !NoComments(g)
    decreases |r|
  {
    hide ReadToken, ValidFiller, FillerText, LastComment, GapText, IsToken;
    var t := ReadToken(f, r);
    var blanks := BlanksBefore(f, r);
    if t.kind == Comment {
      var x := CommentIsFiller(f, r);
      if t.rest == [] { NothingFollows(f); }
      var tail := GapBefore(f, t.rest);
      var end := PastComments(f, r);
      g := blanks + ([x] + tail);
      OneFiller(f, x);
      GapInParts(f, [x], tail);
      GapInParts(f, blanks, [x] + tail);
      Assoc(t.text, GapText(tail), end.text + end.rest);
      Assoc(GapText(blanks), t.text + GapText(tail), end.text + end.rest);
      assert g[|blanks|] == x && x in g;
    } else {
      g := blanks;
    }
  }

  lemma OneFiller(f: OurFeatures, x: Filler)
    ensures GapText([x]) == FillerText(x)
    ensures ValidFiller(f, x) ==> ValidGap(f, [x])
  {
  }

  lemma NothingFollows(f: OurFeatures)
    ensures PastComments(f, []).text == []
  {
  }
}
