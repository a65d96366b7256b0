/** What the two writers write is JSON exactly as RFC 8259 has it. */
module JsonOutput {
  import opened ByteStrings
  import opened JsonValue
  import opened JsonNumbers
  import opened JsonErrors
  import opened Utf8
  import opened JsonStrings
  import opened JsonArrays
  import opened JsonParsing
  import opened JsonTexts
  import opened JsonWriters
  import opened JsonStyledWriter
  import opened JsonRoundTrip
  import opened JsonStandard

  predicate Ascii(b: Bytes) {
    forall c :: c in b ==> c < 0x80
  }

  lemma {:induction false} AsciiIsUtf8(b: Bytes)
    requires Ascii(b)
    ensures WellFormedUtf8(b)
  {
    if b != [] {
      assert b[0] in b && forall c :: c in b[1..] ==> c in b;
      AsciiIsUtf8(b[1..]);
    }
  }

  lemma AsciiInParts(a: Bytes, b: Bytes)
    requires Ascii(a) && Ascii(b)
    ensures Ascii(a + b)
  {
  }

  // ---- strings and numbers

  predicate AsciiChars(cs: seq<Char>) {
    forall c :: c in cs ==> ValidChar(c) && (c.Plain? ==> 0x20 <= c.b < 0x80)
  }

  lemma AsciiChar(c: Char)
    requires ValidChar(c) && (c.Plain? ==> 0x20 <= c.b < 0x80)
    ensures Ascii(SpellChar(c))
  {
  }

  lemma {:induction false} SpelledInAscii(cs: seq<Char>)
    requires AsciiChars(cs)
    ensures Ascii(Spell(cs)) && ExactChars(cs)
  {
    hide SpellChar, ValidChar;
    if cs != [] {
      assert cs[0] in cs && forall c :: c in cs[1..] ==> c in cs;
      AsciiChar(cs[0]);
      SpelledInAscii(cs[1..]);
      AsciiInParts(SpellChar(cs[0]), Spell(cs[1..]));
      assert cs == [cs[0]] + cs[1..];
    }
  }

  lemma {:induction false} CharsOfAreAscii(s: Bytes)
    ensures AsciiChars(CharsOf(s))
    decreases |s|
  {
    hide ValidChar, ToHex16Bit, Utf8ToCodePoint;
    if s != [] {
      ChunkCharsSpell(s);
      CharsOfAreAscii(s[ChunkLength(s)..]);
    }
  }

  lemma {:induction false} NoLeadingZero(n: nat)
    ensures n > 0 ==> Decimal(n)[0] != ZERO
    ensures ExactNumber(Number(false, Decimal(n), None, None))
  {
    if n >= 10 {
      NoLeadingZero(n / 10);
    }
  }

  lemma NumberInAscii(i: int)
    ensures ExactNumber(NumberOf(i)) && Ascii(SpellNumber(NumberOf(i)))
  {
    var n := if i < 0 then -i else i;
    NoLeadingZero(n);
    assert forall c :: c in Decimal(n) ==> IsDigit(c);
  }

  lemma StringInAscii(s: Bytes)
    ensures ExactChars(CharsOf(s)) && Ascii(SpellString(CharsOf(s)))
  {
    hide CharsOf, Spell;
    CharsOfAreAscii(s);
    SpelledInAscii(CharsOf(s));
    AsciiInParts([QUOTE], Spell(CharsOf(s)));
  }

  lemma SpacesAreAscii(w: Bytes)
    requires AllSpaces(w)
    ensures Ascii(w)
  {
  }

  // ---- renderings

  lemma {:induction false} RenderingIsExact(node: Node, v: Value)
    requires Renders(node, v)
    ensures Exact(node) && Ascii(Text(node))
    decreases node, 1
  {
    hide CharsOf, NumberOf, SpellNumber, SpellString, ExactChars, ExactNumber, AllSpaces, At, Lookup, ArraySize, Ascii;
    match v {
      case Int(i) => NumberInAscii(i);
      case UInt(u) => NumberInAscii(u);
      case String(s) => StringInAscii(s);
      case Array(m) => ArrayIsExact(node, m);
      case Object(m) => ObjectIsExact(node, m);
      case _ => WordsAreAscii();
    }
  }

  lemma WordsAreAscii()
    ensures Ascii(NULL_TEXT) && Ascii(TRUE_TEXT) && Ascii(FALSE_TEXT)
  {
  }

  lemma {:induction false} ArrayIsExact(node: Node, m: seq<Entry>)
    requires Renders(node, Array(m))
    ensures Exact(node) && Ascii(Text(node))
    decreases node, 0
  {
    hide Renders, ExactItem, ItemText, Ascii, At, ArraySize, AllSpaces;
    RenderedArray(node, m);
    var items := node.items;
    forall i | i in items
      ensures ExactItem(i) && Ascii(ItemText(i))
    {
      var k :| 0 <= k < |items| && items[k] == i;
      ItemRendering(i, At(m, k));
      ItemIsExact(i, At(m, k));
    }
    if items == [] {
      SpacesAreAscii(node.space);
      Brackets();
      AsciiInParts(node.space, [RBRACKET]);
      AsciiInParts([LBRACKET], node.space + [RBRACKET]);
    } else {
      ItemsInAscii(items);
      Brackets();
      AsciiInParts([LBRACKET], ItemsText(items));
    }
  }

  lemma Brackets()
    ensures Ascii([LBRACKET]) && Ascii([RBRACKET]) && Ascii([LBRACE]) && Ascii([RBRACE])
    ensures Ascii([COMMA]) && Ascii([COLON])
  {
  }

  lemma {:induction false} ItemIsExact(i: Item, v: Value)
    requires RendersItem(i, v)
    ensures ExactItem(i) && Ascii(ItemText(i))
    decreases i
  {
    hide Renders, Exact, Text, Ascii, AllSpaces;
    RenderingIsExact(i.node, v);
    SpacesAreAscii(i.before);
    SpacesAreAscii(i.after);
    AsciiInParts(i.before, Text(i.node));
    AsciiInParts(i.before + Text(i.node), i.after);
  }

  lemma {:induction false} ItemsInAscii(items: seq<Item>)
    requires items != [] && forall i :: i in items ==> Ascii(ItemText(i))
    ensures Ascii(ItemsText(items))
    decreases items
  {
    hide ItemText, Ascii;
    Brackets();
    assert items[0] in items && forall i :: i in items[1..] ==> i in items;
    if |items| == 1 {
      AsciiInParts(ItemText(items[0]), [RBRACKET]);
    } else {
      ItemsInAscii(items[1..]);
      AsciiInParts([COMMA], ItemsText(items[1..]));
      AsciiInParts(ItemText(items[0]), [COMMA] + ItemsText(items[1..]));
    }
  }

  lemma {:induction false} ObjectIsExact(node: Node, m: seq<Entry>)
    requires Renders(node, Object(m))
    ensures Exact(node) && Ascii(Text(node))
    decreases node, 0
  {
    hide Renders, ExactMember, MemberText, Ascii, AllSpaces, RendersMember;
    RenderedObject(node, m);
    var members := node.members;
    forall x | x in members
      ensures ExactMember(x) && Ascii(MemberText(x))
    {
      var k :| 0 <= k < |members| && members[k] == x;
      MemberIsExact(x, m, m[k].key);
    }
    Brackets();
    if members == [] {
      SpacesAreAscii(node.space);
      AsciiInParts(node.space, [RBRACE]);
      AsciiInParts([LBRACE], node.space + [RBRACE]);
    } else {
      MembersInAscii(members);
      AsciiInParts([LBRACE], MembersText(members));
    }
  }

  lemma {:induction false} MemberIsExact(x: Member, m: seq<Entry>, k: CZString)
    requires RendersMember(x, m, k)
    ensures ExactMember(x) && Ascii(MemberText(x))
    decreases x
  {
    hide RendersItem, ExactItem, ItemText, Ascii, AllSpaces, CharsOf, ExactChars, SpellString, Lookup;
    ItemIsExact(x.item, Lookup(m, k));
    StringInAscii(KeyBytes(k));
    SpacesAreAscii(x.before);
    SpacesAreAscii(x.after);
    Brackets();
    AsciiInParts(x.before, SpellString(x.name));
    AsciiInParts(x.before + SpellString(x.name), x.after);
    AsciiInParts(x.before + SpellString(x.name) + x.after, [COLON]);
    AsciiInParts(x.before + SpellString(x.name) + x.after + [COLON], ItemText(x.item));
  }

  lemma {:induction false} MembersInAscii(members: seq<Member>)
    requires members != [] && forall x :: x in members ==> Ascii(MemberText(x))
    ensures Ascii(MembersText(members))
    decreases members
  {
    hide MemberText, Ascii;
    Brackets();
    assert members[0] in members && forall x :: x in members[1..] ==> x in members;
    if |members| == 1 {
      AsciiInParts(MemberText(members[0]), [RBRACE]);
    } else {
      MembersInAscii(members[1..]);
      AsciiInParts([COMMA], MembersText(members[1..]));
      AsciiInParts(MemberText(members[0]), [COMMA] + MembersText(members[1..]));
    }
  }

  // ---- documents

  lemma RenderedDocumentIsJson(node: Node, after: Bytes, v: Value)
    requires Presentable(v) && Renders(node, v) && AllSpaces(after)
    ensures IsJson(Text(node) + after)
  {
    hide Presentable, Renders, Text, Valid, Exact, Ascii, AllSpaces, Denotation, WellFormedUtf8;
    var doc := Text(node) + after;
    RenderingDenotes(Settings(DEFAULT_FEATURES, _ => None, _ => []), node, v);
    RenderingIsExact(node, v);
    SpacesAreAscii(after);
    AsciiInParts(Text(node), after);
    AsciiIsUtf8(doc);
    NoSpaces();
    EmptyIsNeutral(doc);
    assert IsJsonAs(doc, [], node, after);
  }

  /** FastWriter writes JSON, for every value that can be presented. */
  lemma FastWriterWritesJson(c: FastStyle, v: Value)
    requires Presentable(v) && !c.dropNullPlaceholders
    ensures IsJson(FastDocument(c, v))
  {
    hide Presentable, FastText, Text, Renders, IsJson;
    FastNodeSpells(c, v);
    var after: Bytes := if c.omitEndingLineFeed then [] else [LINE_FEED];
    RenderedDocumentIsJson(FastNode(c, v), after, v);
  }

  /** So does BuiltStyledStreamWriter, in every layout. */
  lemma StyledWriterWritesJson(c: Style, v: Value)
    requires Presentable(v) && Readable(c)
    ensures IsJson(StyledDocument(c, v))
  {
    hide Presentable, StyledText, Text, Renders, IsJson, Readable;
    NoSpaces();
    StyledNodeSpells(c, v, [], true);
    EndIsSpace(c);
    assert LeadOf(c, v, [], true) == [];
    EmptyIsNeutral(Text(StyledNode(c, v, [])));
    RenderedDocumentIsJson(StyledNode(c, v, []), c.endingLineFeedSymbol, v);
  }
}
