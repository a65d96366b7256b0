/** OurReader accepts every text of its lenient grammar, as what it denotes: the grammar is exact. */
module JsonAcceptance {
  import opened ByteStrings
  import opened JsonValue
  import opened JsonNumbers
  import opened JsonErrors
  import opened JsonStrings
  import opened JsonParsing
  import opened JsonTexts
  import opened JsonLexemes
  import opened JsonLenient
  import opened JsonAccepted

  // ---- comments are skipped

  lemma {:induction false} ReadsBlock(body: Bytes, tail: Bytes)
    requires Unclosed(body + [STAR])
    ensures ReadCStyleComment(body + ([STAR, SLASH] + tail)) == Scan(true, tail)
  {
    var t := body + ([STAR, SLASH] + tail);
    if body == [] {
      assert t == [STAR, SLASH] + tail && t[2..] == tail;
    } else {
      assert (body + [STAR])[1..] == body[1..] + [STAR];
      assert t[1..] == body[1..] + ([STAR, SLASH] + tail);
      assert t[1] == (body + [STAR])[1];
      ReadsBlock(body[1..], tail);
    }
  }

  lemma {:induction false} ReadsUnclosedBlock(t: Bytes)
    requires t != [] && Unclosed(t) && t[|t| - 1] == SLASH
    ensures ReadCStyleComment(t) == Scan(true, [])
  {
    if |t| > 1 {
      ReadsUnclosedBlock(t[1..]);
    }
  }

  predicate EndsLine(end: Bytes) {
    end == [LINE_FEED] || end == [CARRIAGE_RETURN] || end == [CARRIAGE_RETURN, LINE_FEED]
  }

  /** A line feed after a carriage return belongs to the line end. */
  lemma {:induction false} ReadsLine(body: Bytes, end: Bytes, tail: Bytes)
    requires OneLine(body) && EndsLine(end)
    ensures var o := ReadCppStyleComment(body + (end + tail));
      o == tail || (StartsWith(tail, LINE_FEED) && o == tail[1..])
  {
    var t := body + (end + tail);
    if body == [] {
      assert t == end + tail;
      DropLeft(end, tail);
      if end == [CARRIAGE_RETURN] && StartsWith(tail, LINE_FEED) {
        assert t[2..] == tail[1..];
      }
    } else {
      assert t[1..] == body[1..] + (end + tail);
      assert body[0] in body && forall c :: c in body[1..] ==> c in body;
      ReadsLine(body[1..], end, tail);
    }
  }

  lemma {:induction false} ReadsLastLine(body: Bytes)
    requires OneLine(body)
    ensures ReadCppStyleComment(body) == []
  {
    if body != [] {
      assert body[0] in body && forall c :: c in body[1..] ==> c in body;
      ReadsLastLine(body[1..]);
    }
  }

  lemma ClassifiesComment(f: OurFeatures, c: Byte, t: Bytes)
    requires Opens(f, c)
    ensures !IsSpace(c) && Classify(f, c, t) == (Comment, ReadComment(t))
  {
    hide ReadComment, ReadString, ReadNumber;
  }

  lemma ReadsComment(f: OurFeatures, c: Byte, t: Bytes)
    requires Opens(f, c) && ReadComment(t).ok
    ensures var o := ReadToken(f, [c] + t); o.kind == Comment && o.rest == ReadComment(t).rest
  {
    hide ReadComment, Classify;
    ClassifiesComment(f, c, t);
    assert ([c] + t)[0] == c && ([c] + t)[1..] == t;
  }

  lemma ReadsFiller(f: OurFeatures, x: Filler, tail: Bytes)
    requires ValidFiller(f, x) && !x.Blank?
    ensures var t := ReadToken(f, FillerText(x) + tail);
      t.kind == Comment && (t.rest == tail || (StartsWith(tail, LINE_FEED) && t.rest == tail[1..]))
  {
    hide ReadToken, ReadCStyleComment, ReadCppStyleComment, Unclosed, OneLine;
    match x {
      case Block(o, body) =>
        RegroupRight([], [o, STAR], body, [STAR, SLASH], tail);
        var u := body + ([STAR, SLASH] + tail);
        ReadsBlock(body, tail);
        OpenedBy(f, o, STAR, u);
        assert FillerText(x) + tail == [o, STAR] + u;
      case Line(o, body, end) =>
        RegroupRight([], [o, SLASH], body, end, tail);
        var u := body + (end + tail);
        ReadsLine(body, end, tail);
        OpenedBy(f, o, SLASH, u);
        assert FillerText(x) + tail == [o, SLASH] + u;
    }
  }

  lemma OpenedBy(f: OurFeatures, o: Byte, c: Byte, u: Bytes)
    requires Opens(f, o) && if c == STAR then ReadCStyleComment(u).ok else c == SLASH
    ensures var t := ReadToken(f, [o, c] + u);
      t.kind == Comment && t.rest == if c == STAR then ReadCStyleComment(u).rest else ReadCppStyleComment(u)
  {
    hide ReadToken, ReadCStyleComment, ReadCppStyleComment;
    assert [o, c] + u == [o] + ([c] + u) && ([c] + u)[1..] == u && ([c] + u)[0] == c;
    ReadsComment(f, o, [c] + u);
  }

  lemma BlankBefore(f: OurFeatures, c: Byte, r: Bytes)
    requires IsSpace(c)
    ensures SkipSpaces([c] + r) == SkipSpaces(r)
    ensures ReadToken(f, [c] + r) == ReadToken(f, r) && PastComments(f, [c] + r) == PastComments(f, r)
  {
    assert ([c] + r)[1..] == r;
  }

  lemma GapFirst(f: OurFeatures, g: Gap, r: Bytes)
    requires ValidGap(f, g) && g != []
    ensures GapText(g) + r == FillerText(g[0]) + (GapText(g[1..]) + r)
    ensures ValidFiller(f, g[0]) && ValidGap(f, g[1..])
  {
    hide FillerText, ValidFiller;
    assert g[0] in g && forall x :: x in g[1..] ==> x in g;
    Assoc(FillerText(g[0]), GapText(g[1..]), r);
  }

  lemma {:induction false} PastGap(f: OurFeatures, g: Gap, r: Bytes)
    requires ValidGap(f, g)
    ensures PastComments(f, GapText(g) + r) == PastComments(f, r)
  {
    hide ReadToken, GapText, FillerText, ValidFiller;
    if g == [] {
      NoGap(f);
      EmptyIsNeutral(r);
    } else {
      GapFirst(f, g, r);
      var tail := GapText(g[1..]) + r;
      PastGap(f, g[1..], r);
      OneBlank(f, g[0]);
      if g[0].Blank? {
        BlankBefore(f, g[0].c, tail);
      } else {
        ReadsFiller(f, g[0], tail);
        if StartsWith(tail, LINE_FEED) {
          assert tail == [LINE_FEED] + tail[1..];
          BlankBefore(f, LINE_FEED, tail[1..]);
        }
      }
    }
  }

  lemma OneBlank(f: OurFeatures, x: Filler)
    ensures x.Blank? ==> FillerText(x) == [x.c] && (ValidFiller(f, x) ==> IsSpace(x.c))
  {
  }

  lemma {:induction false} PastBlanks(f: OurFeatures, g: Gap, r: Bytes)
    requires ValidGap(f, g) && NoComments(g)
    ensures ReadToken(f, GapText(g) + r) == ReadToken(f, r) && SkipSpaces(GapText(g) + r) == SkipSpaces(r)
  {
    hide ReadToken, GapText, FillerText, ValidFiller, SkipSpaces;
    if g == [] {
      NoGap(f);
      EmptyIsNeutral(r);
    } else {
      GapFirst(f, g, r);
      assert g[0] in g && forall x :: x in g[1..] ==> x in g;
      OneBlank(f, g[0]);
      PastBlanks(f, g[1..], r);
      BlankBefore(f, g[0].c, GapText(g[1..]) + r);
    }
  }

  lemma {:induction false} CommentIsSeen(f: OurFeatures, g: Gap, r: Bytes)
    requires ValidGap(f, g) && !NoComments(g)
    ensures ReadToken(f, GapText(g) + r).kind == Comment
  {
    hide ReadToken, GapText, FillerText, ValidFiller;
    GapFirst(f, g, r);
    var tail := GapText(g[1..]) + r;
    if g[0].Blank? {
      assert g == [g[0]] + g[1..];
      OneBlank(f, g[0]);
      CommentIsSeen(f, g[1..], r);
      BlankBefore(f, g[0].c, tail);
    } else {
      ReadsFiller(f, g[0], tail);
    }
  }

  lemma NextPastGap(f: OurFeatures, g: Gap, r: Bytes)
    requires ValidGap(f, g) && (f.allowComments || NoComments(g))
    ensures NextToken(f, GapText(g) + r) == NextToken(f, r)
  {
    hide ReadToken, PastComments, GapText, ValidGap, NoComments;
    if f.allowComments {
      PastGap(f, g, r);
    } else {
      PastBlanks(f, g, r);
    }
  }

  lemma NoCommentIsNext(f: OurFeatures, r: Bytes)
    requires ReadToken(f, r).kind != Comment
    ensures NextToken(f, r) == ReadToken(f, r) && PastComments(f, r) == ReadToken(f, r)
  {
    hide ReadToken;
  }

  // ---- tokens

  lemma Punctuated(f: OurFeatures, c: Byte, kind: TokenType, rest: Bytes)
    requires Punctuation(c, kind)
    ensures ReadToken(f, [c] + rest) == Lexed(kind, [c], rest)
  {
    hide ReadToken;
    ReadsPunctuation(f, [], c, kind, rest);
    EmptyIsNeutral([c] + rest);
  }

  predicate IsWord(f: OurFeatures, kind: TokenType) {
    kind in {TrueToken, FalseToken, NullToken} ||
    (f.allowSpecialFloats && kind in {NaNToken, PosInfToken, NegInfToken})
  }

  lemma MatchesPattern(pattern: Bytes, rest: Bytes)
    ensures Match(pattern + rest, pattern) == Scan(true, rest)
  {
    DropLeft(pattern, rest);
  }

  lemma ReadsMatch(f: OurFeatures, c: Byte, pattern: Bytes, kind: TokenType, rest: Bytes)
    requires !IsSpace(c) && Classify(f, c, pattern + rest) == (kind, Scan(true, rest))
    ensures ReadToken(f, [c] + pattern + rest) == Lexed(kind, [c] + pattern, rest)
  {
    hide Classify;
    var t := [c] + pattern + rest;
    Assoc([c], pattern, rest);
    DropLeft([c] + pattern, rest);
    assert t[1..] == pattern + rest && t[1 + |pattern|..] == rest;
    TokenOf(f, t, 1 + |pattern|, kind);
  }

  lemma ReadsWord(f: OurFeatures, kind: TokenType, rest: Bytes)
    requires IsWord(f, kind)
    ensures var text := FixedText(kind).value; ReadToken(f, text + rest) == Lexed(kind, text, rest)
  {
    hide ReadToken, Match, ReadString, ReadNumber, ReadComment;
    var text := FixedText(kind).value;
    var c, pattern := text[0], text[1..];
    assert text == [c] + pattern;
    if kind == NegInfToken {
      assert pattern == [CAPITAL_I] + NFINITY;
      Assoc([CAPITAL_I], NFINITY, rest);
      assert (pattern + rest)[1..] == NFINITY + rest;
      MatchesPattern(NFINITY, rest);
    } else {
      MatchesPattern(pattern, rest);
    }
    ReadsMatch(f, c, pattern, kind, rest);
  }

  lemma {:induction false} ReadsEnclosed(body: Bytes, d: Byte, rest: Bytes)
    requires Enclosed(body, d) && d != BACKSLASH
    ensures ReadString(body + ([d] + rest), d) == Scan(true, rest)
  {
    var t := body + ([d] + rest);
    if body == [] {
      assert t == [d] + rest && t[1..] == rest;
    } else if body[0] == BACKSLASH {
      assert t[2..] == body[2..] + ([d] + rest);
      ReadsEnclosed(body[2..], d, rest);
    } else {
      assert t[1..] == body[1..] + ([d] + rest);
      ReadsEnclosed(body[1..], d, rest);
    }
  }

  lemma ReadsQuotation(f: OurFeatures, d: Byte, body: Bytes, rest: Bytes)
    requires Delimits(f, d) && Enclosed(body, d)
    ensures ReadToken(f, QuotedBy(d, body) + rest) == Lexed(StringToken, QuotedBy(d, body), rest)
    ensures DecodeString(QuotedBy(d, body)) == DecodeBody(body)
  {
    hide ReadToken, ReadString, DecodeBody, Enclosed;
    ReadsEnclosed(body, d, rest);
    assert QuotedBy(d, body) == [d] + (body + [d]);
    Assoc(body, [d], rest);
    Assoc([d], body + [d], rest);
    ReadsMatch(f, d, body + [d], StringToken, rest);
    assert QuotedBy(d, body)[1..|body| + 1] == body;
  }

  lemma ReadsLooseExponent(n: Number, rest: Bytes)
    requires LooseNumber(n) && Stops(n, rest)
    ensures ReadExponent(SpellExponent(n.exponent) + rest) == rest
  {
    hide SkipDigits;
    if n.exponent.Some? {
      var Exponent(e, sign, digits) := n.exponent.value;
      RegroupRight([], [e], sign, digits, rest);
      var signed := sign + (digits + rest);
      assert SpellExponent(n.exponent) + rest == [e] + signed;
      DropLeft([e], signed);
      DropLeft(sign, digits + rest);
      SkipsDigits(digits, rest);
      if sign == [] {
        EmptyIsNeutral(digits + rest);
        if digits != [] { assert digits[0] in digits; }
      }
    } else {
      EmptyIsNeutral(rest);
    }
  }

  lemma TailIsNoDigit(n: Number, rest: Bytes)
    requires LooseNumber(n) && Stops(n, rest)
    ensures var tail := SpellExponent(n.exponent) + rest;
      tail == [] || (!IsDigit(tail[0]) && (n.fraction.None? ==> tail[0] != DOT))
  {
  }

  lemma ReadsLooseFraction(n: Number, rest: Bytes)
    requires LooseNumber(n) && Stops(n, rest)
    ensures var tail := SpellExponent(n.exponent) + rest;
      ReadFraction(SpellFraction(n.fraction) + tail) == tail
    ensures var tail := SpellFraction(n.fraction) + (SpellExponent(n.exponent) + rest); tail == [] || !IsDigit(tail[0])
  {
    hide SkipDigits, SpellExponent, Stops;
    var tail := SpellExponent(n.exponent) + rest;
    TailIsNoDigit(n, rest);
    if n.fraction.Some? {
      var r := SpellFraction(n.fraction) + tail;
      Assoc([DOT], n.fraction.value, tail);
      assert r[1..] == n.fraction.value + tail;
      SkipsDigits(n.fraction.value, tail);
    } else {
      EmptyIsNeutral(tail);
    }
  }

  lemma ReadsLooseDigits(n: Number, digits: Bytes, rest: Bytes)
    requires LooseNumber(n) && Stops(n, rest) && AllDigits(digits)
    ensures ReadNumber(digits + (SpellFraction(n.fraction) + (SpellExponent(n.exponent) + rest))) == rest
  {
    hide ReadExponent, ReadFraction, SkipDigits, SpellFraction, SpellExponent, Stops;
    ReadsLooseFraction(n, rest);
    SkipsDigits(digits, SpellFraction(n.fraction) + (SpellExponent(n.exponent) + rest));
    ReadsLooseExponent(n, rest);
  }

  /** A bare minus is not taken for the start of an infinity. */
  lemma NotInfinity(n: Number, rest: Bytes)
    requires LooseNumber(n) && Stops(n, rest)
    ensures !StartsWith(n.digits + (SpellFraction(n.fraction) + (SpellExponent(n.exponent) + rest)), CAPITAL_I)
  {
    if n.digits != [] { assert n.digits[0] in n.digits; }
    var q := SpellExponent(n.exponent) + rest;
    assert StartsWith(q, CAPITAL_I) ==> n.exponent.None? && q == rest;
    var r := SpellFraction(n.fraction) + q;
    assert StartsWith(r, CAPITAL_I) ==> n.fraction.None? && r == q;
  }

  lemma ReadsLooseNumber(f: OurFeatures, n: Number, rest: Bytes)
    requires LooseNumber(n) && Stops(n, rest)
    ensures SpellNumber(n) != [] && ReadToken(f, SpellNumber(n) + rest) == Lexed(NumberToken, SpellNumber(n), rest)
  {
    hide ReadNumber, SpellFraction, SpellExponent, Classify, Stops, ReadToken;
    var s := SpellNumber(n);
    var tail := SpellFraction(n.fraction) + (SpellExponent(n.exponent) + rest);
    if n.negative {
      RegroupRight([MINUS], n.digits, SpellFraction(n.fraction), SpellExponent(n.exponent), rest);
      ReadsLooseDigits(n, n.digits, rest);
      NotInfinity(n, rest);
      NumberFirst(f, MINUS, n.digits + tail, s, rest);
    } else {
      assert n.digits[0] in n.digits && forall c :: c in n.digits[1..] ==> c in n.digits;
      RegroupRight([], n.digits, SpellFraction(n.fraction), SpellExponent(n.exponent), rest);
      ReadsLooseDigits(n, n.digits[1..], rest);
      assert n.digits == [n.digits[0]] + n.digits[1..];
      Assoc([n.digits[0]], n.digits[1..], tail);
      NumberFirst(f, n.digits[0], n.digits[1..] + tail, s, rest);
    }
  }

  lemma NumberFirst(f: OurFeatures, c: Byte, t: Bytes, text: Bytes, rest: Bytes)
    requires IsDigit(c) || (c == MINUS && !StartsWith(t, CAPITAL_I))
    requires [c] + t == text + rest && ReadNumber(t) == rest
    ensures text != [] && ReadToken(f, text + rest) == Lexed(NumberToken, text, rest)
  {
    hide ReadNumber, Classify;
    ClassifiesNumber(f, c, t);
    var s := text + rest;
    assert s[0] == c && s[1..] == t;
    DropLeft(text, rest);
    TokenOf(f, s, |text|, NumberToken);
  }

  // ---- values

  /** The first token of a tree that is there: it begins a value. */
  lemma TreeBegins(env: Settings, tree: Tree, depth: nat, rest: Bytes)
    requires Accepted(env, tree, depth, rest) && !tree.Dropped?
    ensures var t := ReadToken(env.features, TreeText(tree) + rest);
      t.kind !in {Comment, ArrayEnd, ObjectEnd, ArraySeparator, EndOfStream}
  {
    hide ReadToken, ElementsText, FieldsText, SizeToInt, AcceptedElements, AcceptedFields, ValidGap, NoComments;
    hide GapText;
    hide SpellNumber, QuotedBy, GoodBody, StringValue, LooseNumber, Stops;
    var f := env.features;
    match tree {
      case Word(kind) => ReadsWord(f, kind, rest);
      case Numeral(n) => ReadsLooseNumber(f, n, rest);
      case Quotation(d, body) =>
        GoodBodyIsEnclosed(f, d, body);
        ReadsQuotation(f, d, body, rest);
      case List(space, es) =>
        var body := GapText(space) + (if es == [] then [RBRACKET] else ElementsText(es));
        Assoc([LBRACKET], body, rest);
        Punctuated(f, LBRACKET, ArrayBegin, body + rest);
      case Record(fields, end) =>
        var body := FieldsText(fields) + (GapText(end) + [RBRACE]);
        Assoc([LBRACE], body, rest);
        Punctuated(f, LBRACE, ObjectBegin, body + rest);
    }
  }

  lemma GoodBodyIsEnclosed(f: OurFeatures, d: Byte, body: Bytes)
    requires GoodBody(f, d, body)
    ensures Delimits(f, d) && Enclosed(body, d) && DecodeBody(body).Ok?
  {
  }

  /** What follows a dropped value. */
  lemma DroppedIsSeen(f: OurFeatures, rest: Bytes)
    requires rest != [] && rest[0] in {COMMA, RBRACKET, RBRACE}
    ensures var t := ReadToken(f, rest);
      && t.rest == rest[1..]
      && t.kind == if rest[0] == COMMA then ArraySeparator else if rest[0] == RBRACKET then ArrayEnd else ObjectEnd
  {
    hide ReadToken;
    assert rest == [rest[0]] + rest[1..];
    Punctuated(f, COMMA, ArraySeparator, rest[1..]);
    Punctuated(f, RBRACKET, ArrayEnd, rest[1..]);
    Punctuated(f, RBRACE, ObjectEnd, rest[1..]);
  }

  /** readValue takes the gap and the text, and returns what the text denotes. */
  lemma {:induction false} TreeIsRead(env: Settings, g: Gap, tree: Tree, rest: Bytes, depth: nat, current: Value)
    requires ValidGap(env.features, g) && (env.features.allowComments || NoComments(g))
    requires Accepted(env, tree, depth, rest)
    ensures ReadValue(env, GapText(g) + (TreeText(tree) + rest), depth, current) == Done(Denoted(env, tree), rest)
    decreases tree, 2
  {
    hide ReadToken, NextToken, PastComments, SizeToInt, Accepted, Denoted, TreeText, ReadArray, ReadMembers;
    hide NumberValue;
    hide ValidGap, NoComments, GapText, ReadStringValue;
    var r := TreeText(tree) + rest;
    NextPastGap(env.features, g, r);
    if tree.Dropped? {
      DroppedIsRead(env, GapText(g), rest, depth, current);
    } else {
      TreeBegins(env, tree, depth, rest);
      NoCommentIsNext(env.features, r);
      if tree.List? || tree.Record? {
        ContainerIsRead(env, tree, rest, depth, current);
      } else {
        ScalarIsRead(env, tree, rest, depth, current);
      }
      SameValueAfter(env, GapText(g) + r, r, depth, current);
    }
  }

  /** What readValue makes of its input is decided by the next token, unless that is no value. */
  lemma SameValueAfter(env: Settings, a: Bytes, b: Bytes, depth: nat, current: Value)
    requires NextToken(env.features, a) == NextToken(env.features, b)
    requires ReadValue(env, b, depth, current).Done?
    requires NextToken(env.features, b).kind !in {ArraySeparator, ObjectEnd, ArrayEnd}
    ensures ReadValue(env, a, depth, current) == ReadValue(env, b, depth, current)
  {
    hide NextToken, ReadMembers, ReadArray, NumberValue, ReadStringValue, SizeToInt;
  }

  lemma DroppedIsRead(env: Settings, gap: Bytes, rest: Bytes, depth: nat, current: Value)
    requires Accepted(env, Dropped, depth, rest)
    requires var r := TreeText(Dropped) + rest; NextToken(env.features, gap + r) == NextToken(env.features, r)
    ensures ReadValue(env, gap + (TreeText(Dropped) + rest), depth, current) == Done(Denoted(env, Dropped), rest)
  {
    hide ReadToken, NextToken, SizeToInt;
    EmptyIsNeutral(rest);
    DroppedIsSeen(env.features, rest);
    NoCommentIsNext(env.features, rest);
    var r := gap + rest;
    assert r[|r| - |rest[1..]| - 1..] == rest;
  }

  lemma ScalarIsRead(env: Settings, tree: Tree, rest: Bytes, depth: nat, current: Value)
    requires Accepted(env, tree, depth, rest) && !tree.List? && !tree.Record? && !tree.Dropped?
    requires var r := TreeText(tree) + rest; NextToken(env.features, r) == ReadToken(env.features, r)
    ensures ReadValue(env, TreeText(tree) + rest, depth, current) == Done(Denoted(env, tree), rest)
  {
    hide ReadToken, NextToken, PastComments, SizeToInt, SpellNumber, GoodBody, LooseNumber, Stops, DecodeBody;
    hide NumberValue;
    hide QuotedBy, StringValue;
    var f := env.features;
    match tree {
      case Word(kind) => ReadsWord(f, kind, rest);
      case Numeral(n) => ReadsLooseNumber(f, n, rest);
      case Quotation(d, body) =>
        GoodBodyIsEnclosed(f, d, body);
        ReadsQuotation(f, d, body, rest);
    }
  }

  lemma {:induction false} ContainerIsRead(env: Settings, tree: Tree, rest: Bytes, depth: nat, current: Value)
    requires Accepted(env, tree, depth, rest) && (tree.List? || tree.Record?)
    requires var r := TreeText(tree) + rest; NextToken(env.features, r) == ReadToken(env.features, r)
    ensures ReadValue(env, TreeText(tree) + rest, depth, current) == Done(Denoted(env, tree), rest)
    decreases tree, 1
  {
    hide ReadToken, NextToken, PastComments, SizeToInt, ReadArray, ReadMembers, Denoted, ElementsText, FieldsText;
    hide GapText;
    hide ValidGap, NoComments, AcceptedElements, AcceptedFields;
    var f := env.features;
    match tree {
      case List(space, es) =>
        var text := if es == [] then [RBRACKET] else ElementsText(es);
        ListText([LBRACKET], GapText(space), text, rest);
        Punctuated(f, LBRACKET, ArrayBegin, GapText(space) + (text + rest));
        ListIsRead(env, tree, rest, depth);
      case Record(fields, end) =>
        ListText([LBRACE], FieldsText(fields), GapText(end) + [RBRACE], rest);
        Assoc(GapText(end), [RBRACE], rest);
        Punctuated(f, LBRACE, ObjectBegin, FieldsTail(fields, end, rest));
        RecordIsRead(env, tree, rest, depth);
    }
  }

  // ---- arrays

  lemma {:induction false} ListIsRead(env: Settings, tree: Tree, rest: Bytes, depth: nat)
    requires tree.List? && Accepted(env, tree, depth, rest)
    ensures var text := if tree.elements == [] then [RBRACKET] else ElementsText(tree.elements);
      ReadArray(env, GapText(tree.space) + (text + rest), depth) == Done(Denoted(env, tree), rest)
    decreases tree, 0
  {
    hide SkipSpaces, ReadElements, AcceptedElements, ElementsText, ElementEntries, GapText, ValidGap, NoComments;
    hide SizeToInt;
    var es := tree.elements;
    if es == [] {
      PastBlanks(env.features, tree.space, [RBRACKET] + rest);
      NoBlanks([RBRACKET] + rest);
      assert ([RBRACKET] + rest)[1..] == rest;
      NoElements(env);
    } else {
      var r := ElementsText(es) + rest;
      PastBlanks(env.features, tree.space, r);
      ElementsBegin(env, es, depth + 1, rest);
      SkippedElements(env, r, depth);
      ElementsAreAccepted(env, es, rest, depth, 0, []);
      assert [] + ElementEntries(env, es, 0) == ElementEntries(env, es, 0);
    }
  }

  lemma NoBlanks(r: Bytes)
    requires r != [] && !IsSpace(r[0])
    ensures SkipSpaces(r) == r
  {
  }

  /** Elements do not begin with the bracket that would end an empty array. */
  lemma ElementsBegin(env: Settings, es: seq<Element>, depth: nat, rest: Bytes)
    requires es != [] && !ReadsEmpty(es) && AcceptedElements(env, es, depth, 0, rest)
    ensures !StartsWith(SkipSpaces(ElementsText(es) + rest), RBRACKET)
  {
    hide ReadToken, SkipSpaces, Accepted, TreeText, GapText, ValidGap, NoComments, ElementText;
    var f, e, tail := env.features, es[0], ElementsTail(es, rest);
    var r := TreeText(e.tree) + (GapText(e.after) + tail);
    FirstElementText(es, rest);
    if !NoComments(e.before) {
      CommentIsSeen(f, e.before, r);
    } else {
      PastBlanks(f, e.before, r);
      if e.tree.Dropped? {
        DroppedFirst(env, e, depth, tail);
        Punctuated(f, COMMA, ArraySeparator, ElementsText(es[1..]) + rest);
      } else {
        TreeBegins(env, e.tree, depth, GapText(e.after) + tail);
      }
    }
    BracketIsSeen(f, ElementsText(es) + rest);
  }

  lemma DroppedFirst(env: Settings, e: Element, depth: nat, tail: Bytes)
    requires AcceptedElement(env, e, depth, tail) && e.tree.Dropped?
    ensures TreeText(e.tree) + (GapText(e.after) + tail) == tail
  {
    DroppedStandsAlone(env, e, depth, tail);
    EmptyIsNeutral(tail);
  }

  lemma FirstElementText(es: seq<Element>, rest: Bytes)
    requires es != []
    ensures ElementsText(es) + rest == ElementText(es[0]) + ElementsTail(es, rest)
    ensures ElementsText(es) + rest ==
      GapText(es[0].before) + (TreeText(es[0].tree) + (GapText(es[0].after) + ElementsTail(es, rest)))
  {
    hide ElementText, TreeText, GapText;
    var e := es[0];
    if |es| == 1 {
      Assoc(ElementText(e), [RBRACKET], rest);
    } else {
      Assoc(ElementText(e), [COMMA] + ElementsText(es[1..]), rest);
      Assoc([COMMA], ElementsText(es[1..]), rest);
    }
    ElementTextAnd(e, ElementsTail(es, rest));
  }

  lemma BracketIsSeen(f: OurFeatures, r: Bytes)
    ensures StartsWith(SkipSpaces(r), RBRACKET) ==> ReadToken(f, r).kind == ArrayEnd
  {
    hide SkipSpaces;
  }

  /** Blanks before an element do not matter. */
  lemma SkippedElements(env: Settings, r: Bytes, depth: nat)
    ensures ReadElements(env, SkipSpaces(r), depth, 0, []) == ReadElements(env, r, depth, 0, [])
  {
    hide ReadValue, PastComments, SkipSpaces, Put;
    SkippedValue(env, r, depth + 1, Lookup([], Index(0)));
  }

  lemma SkippedValue(env: Settings, r: Bytes, depth: nat, current: Value)
    ensures ReadValue(env, SkipSpaces(r), depth, current) == ReadValue(env, r, depth, current)
  {
    hide SkipSpaces, Classify, ReadMembers, ReadArray, NumberValue, ReadStringValue, SizeToInt;
    SkippingAgain(r);
    SameNext(env.features, r);
    var s := SkipSpaces(r);
    var t := NextToken(env.features, r);
    SkipsToEnd(r);
    assert |t.rest| < |s| ==> s[|s| - |t.rest| - 1..] == r[|r| - |t.rest| - 1..];
  }

  lemma SameNext(f: OurFeatures, r: Bytes)
    ensures NextToken(f, SkipSpaces(r)) == NextToken(f, r)
    ensures var t := NextToken(f, r); t.kind != EndOfStream ==> |t.rest| < |SkipSpaces(r)|
  {
    hide SkipSpaces, Classify;
    SkippingAgain(r);
  }

  lemma {:induction false} SkipsToEnd(r: Bytes)
    ensures EndOf(SkipSpaces(r), r)
  {
    if r != [] && IsSpace(r[0]) {
      SkipsToEnd(r[1..]);
    }
  }

  lemma {:induction false} ElementsAreAccepted(env: Settings, es: seq<Element>, rest: Bytes, depth: nat, index: nat,
                                               m: seq<Entry>)
    requires es != [] && AcceptedElements(env, es, depth + 1, index, rest)
    requires forall e :: e in m ==> KeyLess(e.key, Index(index))
    ensures ReadElements(env, ElementsText(es) + rest, depth, index, m) ==
      Done(Array(m + ElementEntries(env, es, index)), rest)
    decreases es, 0
  {
    hide ReadElement, AcceptedElement, ElementText, ElementsText, ElementEntries, ElementDenoted, Put;
    var e, others := es[0], es[1..];
    var v := ElementDenoted(env, e);
    PutAppends(m, Index(index), v);
    FirstElementText(es, rest);
    assert es == [e] + others;
    if |es| == 1 {
      assert es == [e];
      OneElement(env, e, index, rest);
      ElementIsAccepted(env, e, depth, index, m, RBRACKET, rest);
    } else {
      OneMoreElement(env, e, others, index, m, rest);
      ElementIsAccepted(env, e, depth, index, m, COMMA, ElementsText(others) + rest);
      ElementsAreAccepted(env, others, rest, depth, index + 1, m + [Entry(Index(index), v)]);
    }
  }

  lemma {:induction false} ElementIsAccepted(env: Settings, e: Element, depth: nat, index: nat, m: seq<Entry>,
                                             sep: Byte, tail: Bytes)
    requires index <= MAX_INT32 && (sep == COMMA || sep == RBRACKET)
    requires AcceptedElement(env, e, depth + 1, [sep] + tail)
    ensures var m' := Put(m, Index(index), ElementDenoted(env, e));
      ReadElement(env, ElementText(e) + ([sep] + tail), depth, index, m) ==
        if sep == COMMA then More(tail, m') else Finished(Done(Array(m'), tail))
    decreases e
  {
    hide ReadValue, PastComments, ReadToken, Accepted, Denoted, ValidGap, NoComments, GapText, TreeText, Put, Lookup;
    var f := env.features;
    ElementTextAnd(e, [sep] + tail);
    TreeIsRead(env, e.before, e.tree, GapText(e.after) + ([sep] + tail), depth + 1, Lookup(m, Index(index)));
    PastGap(f, e.after, [sep] + tail);
    Punctuated(f, sep, if sep == COMMA then ArraySeparator else ArrayEnd, tail);
    NoCommentIsNext(f, [sep] + tail);
  }

  // ---- objects

  lemma {:induction false} RecordIsRead(env: Settings, tree: Tree, rest: Bytes, depth: nat)
    requires tree.Record? && Accepted(env, tree, depth, rest)
    ensures ReadMembers(env, FieldsTail(tree.fields, tree.end, rest), depth, [], []) == Done(Denoted(env, tree), rest)
    decreases tree, 0
  {
    hide ReadMembers, AcceptedFields, FieldsTail, FieldEntries, ValidGap, SizeToInt;
    FieldsAreAccepted(env, tree.fields, tree.end, rest, depth, [], []);
  }

  lemma {:induction false} FieldsAreAccepted(env: Settings, fields: seq<Field>, end: Gap, rest: Bytes, depth: nat,
                                             name: Bytes, m: seq<Entry>)
    requires ValidGap(env.features, end) && AcceptedFields(env, fields, end, depth + 1, name, m, rest)
    ensures ReadMembers(env, FieldsTail(fields, end, rest), depth, name, m) ==
      Done(Object(FieldEntries(env, fields, m)), rest)
    decreases fields, 0
  {
    hide PastComments, ReadToken, ReadMemberRest, AcceptedField, Separates, ValidGap, GapText, TreeText, ElementText;
    hide NameOf;
    hide Put, FieldDenoted, FieldsTail, MemberName;
    var f := env.features;
    if fields == [] {
      NoFields(end, rest);
      PastGap(f, end, [RBRACE] + rest);
      Punctuated(f, RBRACE, ObjectEnd, rest);
      NoCommentIsNext(f, [RBRACE] + rest);
    } else {
      var x, others := fields[0], fields[1..];
      assert fields == [x] + others;
      var tail := FieldsTail(others, end, rest);
      OneMoreField(x, others, end, rest);
      NameIsAccepted(env, x, depth + 1, m, tail);
      NoFields([], rest);
      FieldIsAccepted(env, x, depth, m, tail, rest);
      if x.separator == [] {
        OnlyField(env, x, m);
      } else {
        var m' := Put(m, Name(NameOf(env, x.name)), FieldDenoted(env, x));
        FieldsAreAccepted(env, others, end, rest, depth, NameOf(env, x.name), m');
      }
    }
  }

  lemma NoFields(end: Gap, rest: Bytes)
    ensures FieldsTail([], end, rest) == GapText(end) + ([RBRACE] + rest)
    ensures end == [] ==> FieldsTail([], end, rest) == [RBRACE] + rest
  {
    EmptyIsNeutral(GapText(end) + ([RBRACE] + rest));
  }

  lemma OnlyField(env: Settings, x: Field, m: seq<Entry>)
    ensures FieldEntries(env, [x], m) == Put(m, Name(NameOf(env, x.name)), FieldDenoted(env, x))
  {
    hide NameOf, FieldDenoted, Put;
    assert [x][1..] == [];
  }

  /** A member from the colon on. */
  function FieldRest(x: Field, tail: Bytes): Bytes {
    GapText(x.colon) + ([COLON] + (ElementText(x.element) + (x.separator + tail)))
  }

  lemma NameIsAccepted(env: Settings, x: Field, depth: nat, m: seq<Entry>, tail: Bytes)
    requires AcceptedField(env, x, depth, m, tail)
    ensures var t := PastComments(env.features, GapText(x.before) + (TreeText(x.name) + FieldRest(x, tail)));
      && t.kind != ObjectEnd && t.rest == FieldRest(x, tail)
      && MemberName(env, t) == Some(Ok(NameOf(env, x.name)))
  {
    hide ReadToken, PastComments, AcceptedElement, ValidGap, NoComments, GapText, ElementText, GoodBody, LooseNumber;
    hide Stops;
    hide SpellNumber, DecodeBody, NumberValue, NumberText, QuotedBy, NameFits;
    var f, rest := env.features, FieldRest(x, tail);
    PastGap(f, x.before, TreeText(x.name) + rest);
    match x.name {
      case Quotation(d, body) =>
        GoodBodyIsEnclosed(f, d, body);
        ReadsQuotation(f, d, body, rest);
      case Numeral(n) =>
        ColonStops(f, n, x.colon, ElementText(x.element) + (x.separator + tail));
        ReadsLooseNumber(f, n, rest);
    }
    NoCommentIsNext(f, TreeText(x.name) + rest);
  }

  lemma ColonStops(f: OurFeatures, n: Number, colon: Gap, tail: Bytes)
    requires ValidGap(f, colon)
    ensures Stops(n, GapText(colon) + ([COLON] + tail))
  {
    GapBegins(f, colon, [COLON] + tail);
    if colon == [] { EmptyIsNeutral([COLON] + tail); }
  }

  /** One member, after its name, and what follows it. */
  lemma {:induction false} FieldIsAccepted(env: Settings, x: Field, depth: nat, m: seq<Entry>, tail: Bytes, rest: Bytes)
    requires AcceptedField(env, x, depth + 1, m, tail)
    requires if x.separator == [] then tail == [RBRACE] + rest
      else Separates(env.features, x.element.after, x.separator, tail)
    ensures var m' := Put(m, Name(NameOf(env, x.name)), FieldDenoted(env, x));
      ReadMemberRest(env, FieldRest(x, tail), depth, NameOf(env, x.name), m) ==
        if x.separator == [] then Finished(Done(Object(m'), rest)) else More(tail, m')
    decreases x
  {
    hide ReadValue, ReadToken, AfterMember, Accepted, Denoted, ValidGap, NoComments, GapText, TreeText, ElementText;
    hide NameOf;
    hide Put, Lookup, HasKey, Separates, GoodName;
    var f, e, key := env.features, x.element, NameOf(env, x.name);
    var after := x.separator + tail;
    PastBlanks(f, x.colon, [COLON] + (ElementText(e) + after));
    Punctuated(f, COLON, MemberSeparator, ElementText(e) + after);
    ElementTextAnd(e, after);
    TreeIsRead(env, e.before, e.tree, GapText(e.after) + after, depth + 1, Lookup(m, Name(key)));
    AfterIsAccepted(env, e.after, x.separator, tail, rest, Put(m, Name(key), Denoted(env, e.tree)));
  }

  lemma AfterIsAccepted(env: Settings, after: Gap, separator: Bytes, tail: Bytes, rest: Bytes, m: seq<Entry>)
    requires ValidGap(env.features, after)
    requires if separator == [] then tail == [RBRACE] + rest else Separates(env.features, after, separator, tail)
    ensures AfterMember(env, GapText(after) + (separator + tail), m) ==
      if separator == [] then Finished(Done(Object(m), rest)) else More(tail, m)
  {
    hide ReadToken, PastComments, ValidGap, NoComments, GapText;
    var f, r := env.features, separator + tail;
    EmptyIsNeutral(tail);
    Punctuated(f, RBRACE, ObjectEnd, rest);
    Punctuated(f, COMMA, ArraySeparator, tail);
    NoCommentIsNext(f, r);
    if NoComments(after) {
      PastBlanks(f, after, r);
    } else {
      CommentIsSeen(f, after, r);
      PastOneMore(f, GapText(after) + r);
      PastGap(f, after, r);
    }
  }

  // ---- whole documents

  lemma EndsAreEnds(f: OurFeatures, r: Bytes)
    requires Ends(f, r)
    ensures NextToken(f, r).kind == EndOfStream
  {
    hide ReadToken, PastComments, ValidGap, NoComments, GapText, LastComment;
    var g, tail :| EndsAfter(f, r, g, tail);
    NextPastGap(f, g, tail);
    if tail == [] || tail[0] == 0 {
      EndIsSeen(f, tail);
      NoCommentIsNext(f, tail);
    } else {
      LastCommentIsSeen(f, tail);
    }
  }

  lemma EndIsSeen(f: OurFeatures, tail: Bytes)
    requires tail == [] || tail[0] == 0
    ensures ReadToken(f, tail).kind == EndOfStream
  {
  }

  lemma LastCommentIsSeen(f: OurFeatures, t: Bytes)
    requires LastComment(f, t)
    ensures PastComments(f, t).kind == EndOfStream
  {
    hide ReadToken, ReadCStyleComment, ReadCppStyleComment, Unclosed, OneLine;
    var u := t[2..];
    assert t == [t[0], t[1]] + u;
    if t[1] == STAR {
      ReadsUnclosedBlock(u);
    } else {
      ReadsLastLine(u);
    }
    OpenedBy(f, t[0], t[1], u);
    PastOneMore(f, t);
    EndIsSeen(f, []);
    NoCommentIsNext(f, []);
  }

  lemma TextsAreAccepted(env: Settings, doc: Bytes, v: Value, g: Gap, tree: Tree, rest: Bytes, root: Value)
    requires IsText(env, doc, v, g, tree, rest)
    ensures Parse(env, doc, root) == Returned(true, v, [])
  {
    hide ReadValue, NextToken, Accepted, Denoted, TreeText, GapText, ValidGap, NoComments;
    TreeIsRead(env, g, tree, rest, 1, root);
    if env.features.failIfExtra && Ends(env.features, rest) {
      EndsAreEnds(env.features, rest);
    }
    RootIsStructured(env, tree);
  }

  lemma RootIsStructured(env: Settings, tree: Tree)
    ensures tree.List? ==> Denoted(env, tree).Array?
    ensures tree.Record? ==> Denoted(env, tree).Object?
  {
  }

  /** The grammar is exact: under every setting, parse succeeds with a value if and only if the document is one of its
      texts, for that value. */
  lemma ParsesExactlyTheLenientTexts(env: Settings, doc: Bytes, v: Value, root: Value)
    ensures Parse(env, doc, root) == Returned(true, v, []) <==>
      exists g, tree, rest :: IsText(env, doc, v, g, tree, rest)
  {
    hide Parse, IsText;
    if Parse(env, doc, root) == Returned(true, v, []) {
      AcceptedTextsAreLenientJson(env, doc, root);
    }
    if g, tree, rest :| IsText(env, doc, v, g, tree, rest) {
      TextsAreAccepted(env, doc, v, g, tree, rest, root);
    }
  }
}
