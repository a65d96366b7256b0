/** Whatever OurReader accepts is a text of its lenient grammar, and is read to what that text denotes. */
module JsonAccepted {
  import opened ByteStrings
  import opened JsonValue
  import opened JsonNumbers
  import opened JsonErrors
  import opened JsonStrings
  import opened JsonParsing
  import opened JsonTexts
  import opened JsonLexemes
  import opened JsonLenient

  lemma {:induction false} HexIsSkipped(h: Bytes, tail: Bytes)
    requires AllHex(h) && Enclosed(h + tail, QUOTE)
    ensures Enclosed(tail, QUOTE)
  {
    if h == [] {
      EmptyIsNeutral(tail);
    } else {
      assert h[0] in h && forall c :: c in h[1..] ==> c in h;
      assert (h + tail)[1..] == h[1..] + tail;
      HexIsSkipped(h[1..], tail);
    }
  }

  /** An escaped code unit. */
  predicate Escape(b: Bytes) {
    |b| >= 6 && b[0] == BACKSLASH && b[1] == LETTER_U && AllHex(b[2..6])
  }

  lemma PastEscape(b: Bytes)
    requires Escape(b) && Enclosed(b, QUOTE)
    ensures Enclosed(b[6..], QUOTE)
    ensures StringBody(b[6..]) ==> StringBody(b)
  {
    hide AllHex;
    assert b[2..] == b[2..6] + b[6..];
    HexIsSkipped(b[2..6], b[6..]);
  }

  /** What is left once an escape has been decoded comes after one escape or two. */
  lemma EscapesDecoded(b: Bytes)
    requires |b| >= 2 && b[0] == BACKSLASH && b[1] == LETTER_U && DecodeCodePoint(b[2..]).Ok?
    ensures |b| >= 6 && Escape(b)
    ensures var rest := DecodeCodePoint(b[2..]).value.1; rest == b[6..] || (Escape(b[6..]) && rest == b[6..][6..])
  {
    hide AllHex, Hex4Value;
    var c := b[2..];
    assert c[..4] == b[2..6] && c[4..] == b[6..];
    var t := b[6..];
    if |t| >= 2 {
      assert |t| >= 6 ==> t[2..][..4] == t[2..6];
      assert |t| >= 6 ==> t[2..][4..] == t[6..];
    }
  }

  /** Between quotation marks, in what decodes every escape is one of RFC 8259, section 7. */
  lemma {:induction false} DecodedBodiesAreStrings(b: Bytes)
    requires Enclosed(b, QUOTE) && DecodeBody(b).Ok?
    ensures StringBody(b)
    decreases |b|
  {
    hide DecodeCodePoint, Escape;
    if b == [] {
    } else if b[0] != BACKSLASH {
      DecodedBodiesAreStrings(b[1..]);
    } else if b[1] == LETTER_U {
      EscapesDecoded(b);
      PastEscape(b);
      var rest := DecodeCodePoint(b[2..]).value.1;
      if rest != b[6..] { PastEscape(b[6..]); }
      DecodedBodiesAreStrings(rest);
    } else {
      DecodedBodiesAreStrings(b[2..]);
    }
  }

  // ---- a parse that succeeds has read one of these texts

  lemma NextGap(f: OurFeatures, r: Bytes) returns (g: Gap)
    requires NextToken(f, r).text != []
    ensures var t := NextToken(f, r);
      ValidGap(f, g) && (f.allowComments || NoComments(g)) && r == GapText(g) + (t.text + t.rest) && IsToken(f, t)
  {
    hide PastComments, ReadToken, ValidGap, GapText, NoComments, IsToken;
    if f.allowComments {
      g := GapBefore(f, r);
    } else {
      g := BlanksBefore(f, r);
    }
  }

  /** What readValue took is a gap and the text of this tree, and what it returned is what that denotes. */
  predicate ReadAs(env: Settings, r: Bytes, depth: nat, o: ReadResult, g: Gap, tree: Tree)
    requires o.Done?
  {
    && ValidGap(env.features, g) && (env.features.allowComments || NoComments(g)) && Accepted(env, tree, depth, o.rest)
    && r == GapText(g) + (TreeText(tree) + o.rest) && o.value == Denoted(env, tree)
  }

  lemma {:induction false} ValueIsRead(env: Settings, r: Bytes, depth: nat, current: Value)
    returns (g: Gap, tree: Tree)
    requires ReadValue(env, r, depth, current).Done?
    ensures ReadAs(env, r, depth, ReadValue(env, r, depth, current), g, tree)
    decreases |r|, 0
  {
    hide NextToken, ReadMembers, ReadArray, NumberValue, ReadStringValue, NoValue, SizeToInt, TreeText, Accepted;
    hide Denoted, ValidGap, NoComments, GapText, IsToken;
    var t, o := NextToken(env.features, r), ReadValue(env, r, depth, current);
    SomethingIsRead(env, r, t, current);
    g := NextGap(env.features, r);
    match t.kind {
      case ObjectBegin =>
        TokensHaveText(env.features, t);
        tree := ObjectIsRead(env, t.rest, depth);
      case ArrayBegin =>
        TokensHaveText(env.features, t);
        tree := ArrayIsRead(env, t.rest, depth);
      case _ => tree := ScalarIsRead(env, r, depth, current, GapText(g));
    }
  }

  lemma SomethingIsRead(env: Settings, r: Bytes, t: Lexed, current: Value)
    requires t == NextToken(env.features, r)
    ensures t.kind == EndOfStream ==> !NoValue(env, r, t, current).Done?
    ensures t.kind != EndOfStream ==> t.text != []
  {
  }

  lemma TokensHaveText(f: OurFeatures, t: Lexed)
    requires IsToken(f, t) && FixedText(t.kind).Some?
    ensures t.text == FixedText(t.kind).value
  {
    hide IsToken;
    TokensHaveShape(f, t);
  }

  lemma TokenOfNumber(f: OurFeatures, t: Lexed) returns (n: Number)
    requires IsToken(f, t) && t.kind == NumberToken
    ensures LooseNumber(n) && Stops(n, t.rest) && t.text == SpellNumber(n)
  {
    hide IsToken, LooseNumber, Stops, SpellNumber;
    TokensHaveShape(f, t);
    n :| LooseNumber(n) && Stops(n, t.rest) && t.text == SpellNumber(n);
  }

  lemma TokenOfString(f: OurFeatures, t: Lexed) returns (d: Byte, body: Bytes)
    requires IsToken(f, t) && t.kind == StringToken
    ensures Delimits(f, d) && Enclosed(body, d) && t.text == QuotedBy(d, body)
    ensures |t.text| >= 2 && DecodeString(t.text) == DecodeBody(body)
    ensures DecodeBody(body).Ok? ==> GoodBody(f, d, body)
  {
    hide IsToken, Enclosed, DecodeBody, StringBody, Paired;
    TokensHaveShape(f, t);
    d, body :| Delimits(f, d) && Enclosed(body, d) && t.text == QuotedBy(d, body);
    assert QuotedBy(d, body)[1..|body| + 1] == body;
    if d == QUOTE && DecodeBody(body).Ok? {
      DecodedBodiesAreStrings(body);
      StringsOfTheGrammarDecode(body);
    }
  }

  lemma ScalarIsRead(env: Settings, r: Bytes, depth: nat, current: Value, gap: Bytes) returns (tree: Tree)
    requires var t := NextToken(env.features, r);
      && IsToken(env.features, t) && r == gap + (t.text + t.rest)
      && t.kind != ObjectBegin && t.kind != ArrayBegin
    requires ReadValue(env, r, depth, current).Done?
    ensures var (t, o) := (NextToken(env.features, r), ReadValue(env, r, depth, current));
      && Accepted(env, tree, depth, o.rest) && t.text + t.rest == TreeText(tree) + o.rest
      && o.value == Denoted(env, tree)
  {
    hide NextToken, NumberValue, SizeToInt, IsToken, LooseNumber, Stops, SpellNumber, GoodBody, DecodeBody;
    hide StringValue;
    var t := NextToken(env.features, r);
    if t.kind == NumberToken {
      var n := TokenOfNumber(env.features, t);
      tree := Numeral(n);
    } else if t.kind == StringToken {
      var d, body := TokenOfString(env.features, t);
      tree := Quotation(d, body);
    } else if t.kind in {TrueToken, FalseToken, NullToken, NaNToken, PosInfToken, NegInfToken} {
      tree := WordIsRead(env, t, depth);
    } else {
      tree := Dropped;
      NothingIsRead(env, r, depth, current, gap);
    }
  }

  lemma NothingIsRead(env: Settings, r: Bytes, depth: nat, current: Value, gap: Bytes)
    requires var t := NextToken(env.features, r);
      && IsToken(env.features, t) && r == gap + (t.text + t.rest)
      && t.kind !in {ObjectBegin, ArrayBegin, NumberToken, StringToken, TrueToken, FalseToken, NullToken, NaNToken,
                     PosInfToken, NegInfToken}
    requires ReadValue(env, r, depth, current).Done?
    ensures var (t, o) := (NextToken(env.features, r), ReadValue(env, r, depth, current));
      && Accepted(env, Dropped, depth, o.rest) && t.text + t.rest == TreeText(Dropped) + o.rest
      && o.value == Denoted(env, Dropped)
  {
    hide NextToken, SizeToInt, IsToken;
    var t := NextToken(env.features, r);
    TokensHaveText(env.features, t);
    EmptyIsNeutral(t.text + t.rest);
    assert r[|r| - |t.rest| - 1..] == t.text + t.rest;
  }

  lemma WordIsRead(env: Settings, t: Lexed, depth: nat) returns (tree: Tree)
    requires IsToken(env.features, t) && SizeToInt(depth) <= env.features.stackLimit
    requires t.kind in {TrueToken, FalseToken, NullToken, NaNToken, PosInfToken, NegInfToken}
    ensures tree == Word(t.kind) && Accepted(env, tree, depth, t.rest) && TreeText(tree) == t.text
  {
    hide IsToken;
    TokensHaveText(env.features, t);
    TokensHaveShape(env.features, t);
    tree := Word(t.kind);
  }

  // ---- arrays

  lemma {:induction false} ElementIsRead(env: Settings, r: Bytes, depth: nat, index: nat, m: seq<Entry>)
    returns (e: Element)
    requires var turn := ReadElement(env, r, depth, index, m); turn.More? || turn.o.Done?
    ensures index <= MAX_INT32
    ensures var turn := ReadElement(env, r, depth, index, m);
      var m' := Put(m, Index(index), ElementDenoted(env, e));
      var tail := if turn.More? then [COMMA] + turn.rest else [RBRACKET] + turn.o.rest;
      && AcceptedElement(env, e, depth + 1, tail) && r == ElementText(e) + tail
      && if turn.More? then turn.m == m' else turn.o.value == Array(m')
    decreases |r|, 1, 0
  {
    hide ReadValue, PastComments, Accepted, Denoted, ValidGap, NoComments, GapText, TreeText, IsToken, Put, Lookup;
    var child := ReadValue(env, r, depth + 1, Lookup(m, Index(index)));
    var g, tree := ValueIsRead(env, r, depth + 1, Lookup(m, Index(index)));
    var t := PastComments(env.features, child.rest);
    var after := GapBefore(env.features, child.rest);
    TokensHaveText(env.features, t);
    e := Element(g, tree, after);
    ElementTextAnd(e, t.text + t.rest);
  }

  lemma ElementTextAnd(e: Element, tail: Bytes)
    ensures ElementText(e) + tail == GapText(e.before) + (TreeText(e.tree) + (GapText(e.after) + tail))
  {
    hide GapText, TreeText;
    Assoc(GapText(e.before), TreeText(e.tree) + GapText(e.after), tail);
    Assoc(TreeText(e.tree), GapText(e.after), tail);
  }

  lemma {:induction false} ElementsAreRead(env: Settings, r: Bytes, depth: nat, index: nat, m: seq<Entry>)
    returns (es: seq<Element>)
    requires ReadElements(env, r, depth, index, m).Done?
    requires forall e :: e in m ==> KeyLess(e.key, Index(index))
    ensures es != []
    ensures var o := ReadElements(env, r, depth, index, m);
      && AcceptedElements(env, es, depth + 1, index, o.rest)
      && r == ElementsText(es) + o.rest && o.value == Array(m + ElementEntries(env, es, index))
    decreases |r|, 1, 1
  {
    hide ReadElement, AcceptedElement, ElementText, ElementsText, ElementEntries, ElementDenoted, Put;
    var turn := ReadElement(env, r, depth, index, m);
    var e := ElementIsRead(env, r, depth, index, m);
    var v := ElementDenoted(env, e);
    PutAppends(m, Index(index), v);
    if turn.More? {
      var rest := ElementsAreRead(env, turn.rest, depth, index + 1, turn.m);
      es := [e] + rest;
      OneMoreElement(env, e, rest, index, m, ReadElements(env, r, depth, index, m).rest);
    } else {
      es := [e];
      OneElement(env, e, index, turn.o.rest);
    }
  }

  lemma OneMoreElement(env: Settings, e: Element, others: seq<Element>, index: nat, m: seq<Entry>, rest: Bytes)
    requires others != []
    ensures ElementsText([e] + others) + rest == ElementText(e) + ([COMMA] + (ElementsText(others) + rest))
    ensures m + ElementEntries(env, [e] + others, index) ==
      m + [Entry(Index(index), ElementDenoted(env, e))] + ElementEntries(env, others, index + 1)
  {
    hide ElementText, ElementDenoted;
    assert ([e] + others)[1..] == others;
    Assoc(ElementText(e), [COMMA] + ElementsText(others), rest);
    Assoc([COMMA], ElementsText(others), rest);
  }

  lemma OneElement(env: Settings, e: Element, index: nat, rest: Bytes)
    ensures ElementsText([e]) + rest == ElementText(e) + ([RBRACKET] + rest)
    ensures ElementEntries(env, [e], index) == [Entry(Index(index), ElementDenoted(env, e))]
  {
    hide ElementText, ElementDenoted;
    assert [e][1..] == [];
    Assoc(ElementText(e), [RBRACKET], rest);
  }

  lemma {:induction false} ArrayIsRead(env: Settings, r: Bytes, depth: nat) returns (tree: Tree)
    requires ReadArray(env, r, depth).Done? && SizeToInt(depth) <= env.features.stackLimit
    ensures var o := ReadArray(env, r, depth);
      && Accepted(env, tree, depth, o.rest) && [LBRACKET] + r == TreeText(tree) + o.rest
      && o.value == Denoted(env, tree)
    decreases |r|, 2
  {
    hide SkipSpaces, ReadElements, AcceptedElements, SizeToInt, ReadsEmpty, ElementsText, ElementEntries, ValidGap;
    hide NoComments, GapText;
    var s, o := SkipSpaces(r), ReadArray(env, r, depth);
    var space := SpacesAreCut(env.features, r);
    if StartsWith(s, RBRACKET) {
      tree := List(space, []);
      assert s == [RBRACKET] + s[1..];
      NoElements(env);
      ListText([LBRACKET], GapText(space), [RBRACKET], s[1..]);
    } else {
      var es := ElementsAreRead(env, s, depth, 0, []);
      NotReadEmpty(env, es, depth + 1, o.rest);
      tree := List(space, es);
      ListText([LBRACKET], GapText(space), ElementsText(es), o.rest);
      assert [] + ElementEntries(env, es, 0) == ElementEntries(env, es, 0);
    }
  }

  /** A gap begins with a blank, or with a character that begins no other token. */
  lemma GapBegins(f: OurFeatures, g: Gap, tail: Bytes)
    requires ValidGap(f, g)
    ensures g != [] ==>
      GapText(g) != [] && GapText(g) + tail != [] &&
      var c := (GapText(g) + tail)[0]; c == GapText(g)[0] && (IsSpace(c) || c == SLASH || c == APOSTROPHE)
    ensures g != [] && NoComments(g) ==> IsSpace(GapText(g)[0])
  {
    if g != [] {
      assert g[0] in g;
    }
  }

  /** The bracket would have been seen. */
  lemma NotReadEmpty(env: Settings, es: seq<Element>, depth: nat, rest: Bytes)
    requires es != [] && AcceptedElements(env, es, depth, 0, rest)
    requires var s := ElementsText(es) + rest; s != [] ==> !IsSpace(s[0]) && s[0] != RBRACKET
    ensures !ReadsEmpty(es)
  {
    var e := es[0];
    GapBegins(env.features, e.before, [RBRACKET] + rest);
    if |es| == 1 && e.tree.Dropped? {
      DroppedStandsAlone(env, e, depth, [RBRACKET] + rest);
      OneElement(env, e, 0, rest);
      assert es == [e];
      ElementTextAnd(e, [RBRACKET] + rest);
      EmptyIsNeutral([RBRACKET] + rest);
      EmptyIsNeutral(GapText(e.before) + ([RBRACKET] + rest));
    }
  }

  /** Nothing stands between a dropped value and what follows it. */
  lemma DroppedStandsAlone(env: Settings, e: Element, depth: nat, rest: Bytes)
    requires AcceptedElement(env, e, depth, rest) && e.tree.Dropped?
    ensures e.after == []
  {
    GapBegins(env.features, e.after, rest);
  }

  lemma NoElements(env: Settings)
    ensures ElementEntries(env, [], 0) == []
  {
  }

  lemma ListText(a: Bytes, b: Bytes, c: Bytes, d: Bytes)
    ensures a + (b + (c + d)) == a + (b + c) + d
  {
    Regroup(a, b, c, d);
    Assoc(a, b + c, d);
    Assoc(b, c, d);
  }

  // ---- objects

  lemma NameIsRead(env: Settings, t: Lexed) returns (name: Tree)
    requires IsToken(env.features, t) && t.Substantial()
    requires MemberName(env, t).Some? && MemberName(env, t).value.Ok?
    ensures GoodName(env, name) && TreeText(name) == t.text && NameOf(env, name) == MemberName(env, t).value.value
  {
    hide IsToken, LooseNumber, SpellNumber, GoodBody, DecodeBody, NumberText, NumberValue;
    if t.kind == StringToken {
      var d, body := TokenOfString(env.features, t);
      name := Quotation(d, body);
    } else {
      var n := TokenOfNumber(env.features, t);
      name := Numeral(n);
    }
  }

  lemma NothingFollowsTheEnd(f: OurFeatures, r: Bytes)
    requires PastComments(f, r).text == []
    ensures PastComments(f, r).rest == []
    decreases |r|
  {
    hide SkipSpaces, Classify;
    var t := ReadToken(f, r);
    if t.kind == Comment {
      NothingFollowsTheEnd(f, t.rest);
    } else {
      TokenIsCut(f, r);
    }
  }

  lemma AfterIsRead(env: Settings, r: Bytes, m: seq<Entry>) returns (after: Gap, separator: Bytes)
    requires var turn := AfterMember(env, r, m); if turn.More? then turn.rest != [] else turn.o.Done?
    ensures ValidGap(env.features, after)
    ensures var turn := AfterMember(env, r, m);
      if turn.More? then
        && separator != [] && Separates(env.features, after, separator, turn.rest) && turn.m == m
        && r == GapText(after) + (separator + turn.rest)
      else separator == [] && turn.o.value == Object(m) && r == GapText(after) + ([RBRACE] + turn.o.rest)
  {
    hide ReadToken, ValidGap, NoComments, GapText;
    var f := env.features;
    var comma := ReadToken(f, r);
    var t := comma;
    if comma.kind == Comment {
      t := PastComments(f, comma.rest);
      PastOneMore(f, r);
      if t.text == [] { NothingFollowsTheEnd(f, comma.rest); }
      after := GapBefore(f, r);
    } else {
      after := BlanksBefore(f, r);
    }
    if t.kind == ObjectEnd {
      separator := [];
      TokensHaveText(f, t);
    } else {
      separator := t.text;
      if t.kind == ArraySeparator {
        TokensHaveText(f, t);
      }
    }
  }

  lemma PastOneMore(f: OurFeatures, r: Bytes)
    requires ReadToken(f, r).kind == Comment
    ensures PastComments(f, r) == PastComments(f, ReadToken(f, r).rest)
  {
    hide ReadToken;
  }

  lemma {:induction false} RestIsRead(env: Settings, r: Bytes, depth: nat, key: Bytes, m: seq<Entry>)
    returns (colon: Gap, element: Element, separator: Bytes)
    requires var turn := ReadMemberRest(env, r, depth, key, m); if turn.More? then turn.rest != [] else turn.o.Done?
    ensures ValidGap(env.features, colon) && NoComments(colon) && NameFits(env, key, m)
    ensures var turn := ReadMemberRest(env, r, depth, key, m);
      var m' := Put(m, Name(key), ElementDenoted(env, element));
      var tail := if turn.More? then separator + turn.rest else [RBRACE] + turn.o.rest;
      && AcceptedElement(env, element, depth + 1, tail)
      && (separator != [] <==> turn.More?)
      && (if turn.More? then turn.m == m' && Separates(env.features, element.after, separator, turn.rest)
          else turn.o.value == Object(m'))
      && r == GapText(colon) + ([COLON] + (ElementText(element) + tail))
    decreases |r|, 1
  {
    hide ReadValue, ReadToken, AfterMember, Accepted, Denoted, ValidGap, NoComments, GapText, TreeText, IsToken, Put;
    hide Lookup, HasKey, Separates;
    var f := env.features;
    var t := ReadToken(f, r);
    colon := BlanksBefore(f, r);
    TokensHaveText(f, t);
    var child := ReadValue(env, t.rest, depth + 1, Lookup(m, Name(key)));
    var before, tree := ValueIsRead(env, t.rest, depth + 1, Lookup(m, Name(key)));
    var m' := Put(m, Name(key), child.value);
    var turn := AfterMember(env, child.rest, m');
    var after, sep := AfterIsRead(env, child.rest, m');
    separator := sep;
    element := Element(before, tree, after);
    ElementTextAnd(element, if turn.More? then separator + turn.rest else [RBRACE] + turn.o.rest);
  }

  /** An object cannot end where the input has. */
  lemma NothingIsNoObject(env: Settings, depth: nat, name: Bytes, m: seq<Entry>)
    ensures !ReadMembers(env, [], depth, name, m).Done?
  {
    var t := PastComments(env.features, []);
    assert t.kind == EndOfStream;
    assert MemberName(env, t).None?;
  }

  lemma {:induction false} MembersAreRead(env: Settings, r: Bytes, depth: nat, name: Bytes, m: seq<Entry>)
    returns (fields: seq<Field>, end: Gap)
    requires ReadMembers(env, r, depth, name, m).Done?
    ensures ValidGap(env.features, end)
    ensures var o := ReadMembers(env, r, depth, name, m);
      && AcceptedFields(env, fields, end, depth + 1, name, m, o.rest) && r == FieldsTail(fields, end, o.rest)
      && o.value == Object(FieldEntries(env, fields, m))
    decreases |r|, 1
  {
    hide PastComments, ReadMemberRest, ValidGap, GapText, TreeText, IsToken, MemberName, AcceptedElement, Separates;
    hide Put, ElementText, NameOf, GoodName, NoComments, ElementDenoted;
    var f, o := env.features, ReadMembers(env, r, depth, name, m);
    var t := PastComments(f, r);
    ObjectsHaveTokens(env, t);
    var gap := GapBefore(f, r);
    if t.kind == ObjectEnd && name == [] {
      fields, end := [], gap;
      TokensHaveText(f, t);
      EmptyIsNeutral(r);
      return;
    }
    var key := MemberName(env, t).value.value;
    var nameTree := NameIsRead(env, t);
    var turn := ReadMemberRest(env, t.rest, depth, key, m);
    if turn.More? && turn.rest == [] { NothingIsNoObject(env, depth, key, turn.m); }
    var colon, element, separator := RestIsRead(env, t.rest, depth, key, m);
    var x := Field(gap, nameTree, colon, element, separator);
    if turn.More? {
      var others;
      others, end := MembersAreRead(env, turn.rest, depth, key, turn.m);
      fields := [x] + others;
      OneMoreField(x, others, end, o.rest);
    } else {
      fields, end := [x], [];
      NoGap(f);
      LastField(x, o.rest);
      EmptyIsNeutral([RBRACE] + o.rest);
    }
  }

  lemma OneMoreField(x: Field, others: seq<Field>, end: Gap, rest: Bytes)
    ensures ([x] + others)[1..] == others
    ensures FieldsTail([x] + others, end, rest) == GapText(x.before) + (TreeText(x.name) +
      (GapText(x.colon) + ([COLON] + (ElementText(x.element) + (x.separator + FieldsTail(others, end, rest))))))
  {
    hide GapText, TreeText, FieldText, ElementText;
    var tail := GapText(end) + ([RBRACE] + rest);
    assert ([x] + others)[1..] == others;
    Assoc(FieldText(x), FieldsText(others), tail);
    FieldTextAnd(x, FieldsTail(others, end, rest));
  }

  lemma LastField(x: Field, rest: Bytes)
    ensures [x][1..] == [] && FieldsTail([], [], rest) == [RBRACE] + rest
    ensures FieldsTail([x], [], rest) == GapText(x.before) + (TreeText(x.name) +
      (GapText(x.colon) + ([COLON] + (ElementText(x.element) + (x.separator + ([RBRACE] + rest))))))
  {
    hide TreeText, FieldText, ElementText;
    assert [x][1..] == [] && [x] + [] == [x];
    EmptyIsNeutral([RBRACE] + rest);
    OneMoreField(x, [], [], rest);
  }

  lemma NoGap(f: OurFeatures)
    ensures GapText([]) == [] && ValidGap(f, [])
  {
  }

  lemma ObjectsHaveTokens(env: Settings, t: Lexed)
    requires t.Substantial() && (t.kind == ObjectEnd || MemberName(env, t).Some?)
    ensures t.text != []
  {
  }

  lemma FieldTextAnd(x: Field, tail: Bytes)
    ensures FieldText(x) + tail == GapText(x.before) + (TreeText(x.name) +
      (GapText(x.colon) + ([COLON] + (ElementText(x.element) + (x.separator + tail)))))
  {
    hide GapText, TreeText, ElementText;
    var e := ElementText(x.element) + x.separator;
    Assoc(ElementText(x.element), x.separator, tail);
    RegroupRight(GapText(x.before), TreeText(x.name), GapText(x.colon), [COLON], e + tail);
    RegroupRight(GapText(x.before), TreeText(x.name), GapText(x.colon), [COLON], e);
    Assoc(GapText(x.before) + TreeText(x.name) + GapText(x.colon) + [COLON], e, tail);
  }

  lemma {:induction false} ObjectIsRead(env: Settings, r: Bytes, depth: nat) returns (tree: Tree)
    requires ReadMembers(env, r, depth, [], []).Done? && SizeToInt(depth) <= env.features.stackLimit
    ensures var o := ReadMembers(env, r, depth, [], []);
      && Accepted(env, tree, depth, o.rest) && [LBRACE] + r == TreeText(tree) + o.rest
      && o.value == Denoted(env, tree)
    decreases |r|, 2
  {
    hide ReadMembers, ValidGap, GapText, FieldsText, FieldEntries, AcceptedFields, SizeToInt;
    var o := ReadMembers(env, r, depth, [], []);
    var fields, end := MembersAreRead(env, r, depth, [], []);
    tree := Record(fields, end);
    ListText([LBRACE], FieldsText(fields), GapText(end) + [RBRACE], o.rest);
    Assoc(GapText(end), [RBRACE], o.rest);
  }

  // ---- whole documents

  lemma {:induction false} EndIsReached(f: OurFeatures, r: Bytes) returns (g: Gap, tail: Bytes)
    requires NextToken(f, r).kind == EndOfStream
    ensures EndsAfter(f, r, g, tail)
    decreases |r|
  {
    hide ReadToken, ValidFiller, FillerText, LastComment, GapText, NoComments, IsToken;
    var t := ReadToken(f, r);
    var blanks := BlanksBefore(f, r);
    if t.kind == Comment {
      var x := CommentIsFiller(f, r);
      if ValidFiller(f, x) && t.text == FillerText(x) {
        var others;
        others, tail := EndIsReached(f, t.rest);
        g := blanks + ([x] + others);
        OneFiller(f, x);
        GapInParts(f, [x], others);
        GapInParts(f, blanks, [x] + others);
        Assoc(t.text, GapText(others), tail);
        Assoc(GapText(blanks), t.text + GapText(others), tail);
      } else {
        g, tail := blanks, t.text;
        EmptyIsNeutral(t.text);
      }
    } else {
      g, tail := blanks, t.text + t.rest;
      EndTokens(f, t);
    }
  }

  lemma EndTokens(f: OurFeatures, t: Lexed)
    requires IsToken(f, t) && t.kind == EndOfStream
    ensures t.text == [0] || t.text + t.rest == []
  {
    hide SkipSpaces, Classify;
    TokensHaveShape(f, t);
    TokenIsCut(f, t.text + t.rest);
  }

  /** A parse that succeeds has read a text of this grammar to what it denotes. */
  lemma AcceptedTextsAreLenientJson(env: Settings, doc: Bytes, root: Value)
    requires var o := Parse(env, doc, root); o.Returned? && o.ok
    ensures exists g, tree, rest :: IsText(env, doc, Parse(env, doc, root).root, g, tree, rest)
  {
    hide ReadValue, NextToken, Accepted, Denoted, TreeText, GapText, ValidGap, NoComments, LastComment;
    var g, tree := ValueIsRead(env, doc, 1, root);
    var rest := ReadValue(env, doc, 1, root).rest;
    if env.features.failIfExtra && NextToken(env.features, rest).kind == EndOfStream {
      var after, tail := EndIsReached(env.features, rest);
      assert EndsAfter(env.features, rest, after, tail);
    }
    RootKind(env, tree, rest);
    assert IsText(env, doc, Parse(env, doc, root).root, g, tree, rest);
  }

  lemma RootKind(env: Settings, tree: Tree, rest: Bytes)
    requires Accepted(env, tree, 1, rest)
    ensures Denoted(env, tree).Array? ==> tree.List?
    ensures Denoted(env, tree).Object? ==> tree.Record?
  {
  }
}
