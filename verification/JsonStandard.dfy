/** JSON exactly as RFC 8259 has it, and which of the texts that OurReader accepts it is. */
module JsonStandard {
  import opened ByteStrings
  import opened JsonValue
  import opened JsonNumbers
  import opened JsonErrors
  import opened Utf8
  import opened JsonStrings
  import opened JsonParsing
  import opened JsonTexts
  import opened JsonLexemes
  import opened JsonLenient
  import opened JsonAccepted
  import opened JsonAcceptance

  // ---- the standard

  /** Section 6: no leading zeros. */
  predicate ExactNumber(n: Number) {
    |n.digits| > 1 ==> n.digits[0] != ZERO
  }

  /** Section 7: control characters are escaped. */
  predicate ExactChars(cs: seq<Char>) {
    forall c :: c in cs && c.Plain? ==> c.b >= 0x20
  }

  /** What the reader does not check of the texts in `JsonTexts`. */
  predicate Exact(node: Node)
    decreases node
  {
    match node
    case NumberNode(n) => ExactNumber(n)
    case StringNode(cs) => ExactChars(cs)
    case ArrayNode(_, items) => forall i :: i in items ==> ExactItem(i)
    case ObjectNode(_, members) => forall m :: m in members ==> ExactMember(m)
    case _ => true
  }

  predicate ExactItem(i: Item)
    decreases i
  {
    Exact(i.node)
  }

  predicate ExactMember(m: Member)
    decreases m
  {
    ExactChars(m.name) && ExactItem(m.item)
  }

  /** A document of sections 2 to 7, in UTF-8 as section 8.1 requires. */
  ghost predicate IsJson(doc: Bytes) {
    WellFormedUtf8(doc) && exists before, node, after :: IsJsonAs(doc, before, node, after)
  }

  predicate IsJsonAs(doc: Bytes, before: Bytes, node: Node, after: Bytes) {
    && AllSpaces(before) && Valid(node) && Exact(node) && AllSpaces(after)
    && doc == before + (Text(node) + after)
  }

  // ---- the lenient texts that are JSON

  predicate NoControls(b: Bytes) {
    forall c :: c in b ==> c >= 0x20
  }

  /** A text without leniences: no comment, no other words than true, false and null, no number with digits missing or
      with leading zeros, no apostrophes, no control characters in strings, no numeric name, nothing dropped, and
      exactly one comma between two members. */
  predicate Strict(tree: Tree)
    decreases tree
  {
    match tree
    case Word(kind) => kind in {TrueToken, FalseToken, NullToken}
    case Numeral(n) => ValidNumber(n) && ExactNumber(n)
    case Quotation(d, body) => d == QUOTE && NoControls(body)
    case List(space, es) => NoComments(space) && forall e :: e in es ==> StrictElement(e)
    case Record(fields, end) =>
      (fields == [] || StrictFields(fields)) && NoComments(end) && forall x :: x in fields ==> StrictField(x)
    case Dropped => false
  }

  predicate StrictElement(e: Element)
    decreases e
  {
    NoComments(e.before) && NoComments(e.after) && Strict(e.tree)
  }

  predicate StrictField(x: Field)
    decreases x
  {
    && NoComments(x.before) && NoComments(x.colon) && StrictElement(x.element)
    && x.name.Quotation? && x.name.delimiter == QUOTE && NoControls(x.name.body)
  }

  predicate StrictFields(fields: seq<Field>)
    requires fields != []
  {
    if |fields| == 1 then fields[0].separator == []
    else fields[0].separator == [COMMA] && StrictFields(fields[1..])
  }

  /** The concrete syntax tree of such a text. */
  function ToNode(tree: Tree): Node
    decreases tree
  {
    match tree
    case Word(kind) => if kind == NullToken then NullNode else BoolNode(kind == TrueToken)
    case Numeral(n) => NumberNode(n)
    case Quotation(_, body) => StringNode(ToChars(body))
    case List(space, es) =>
      if es == [] then ArrayNode(GapText(space), []) else ArrayNode([], After(GapText(space), ToItems(es)))
    case Record(fields, end) => ObjectNode(GapText(end), ToMembers(fields))
    case Dropped => NullNode
  }

  function ToChars(body: Bytes): seq<Char> {
    if StringBody(body) then CharsIn(body) else []
  }

  function ToItem(e: Element): Item
    decreases e
  {
    Item(GapText(e.before), ToNode(e.tree), GapText(e.after))
  }

  function ToItems(es: seq<Element>): (items: seq<Item>)
    ensures |items| == |es|
    decreases es
  {
    if es == [] then [] else [ToItem(es[0])] + ToItems(es[1..])
  }

  /** The items, with these blanks before the first. */
  function After(w: Bytes, items: seq<Item>): seq<Item>
    requires items != []
  {
    [items[0].(before := w + items[0].before)] + items[1..]
  }

  function ToMember(x: Field): Member
    decreases x
  {
    Member(GapText(x.before), if x.name.Quotation? then ToChars(x.name.body) else [], GapText(x.colon),
           ToItem(x.element))
  }

  function ToMembers(fields: seq<Field>): (members: seq<Member>)
    ensures |members| == |fields|
    decreases fields
  {
    if fields == [] then [] else [ToMember(fields[0])] + ToMembers(fields[1..])
  }

  lemma {:induction false} BlanksAreSpaces(f: OurFeatures, g: Gap)
    requires ValidGap(f, g) && NoComments(g)
    ensures AllSpaces(GapText(g))
  {
    if g != [] {
      assert g[0] in g && forall x :: x in g[1..] ==> x in g;
      BlanksAreSpaces(f, g[1..]);
    }
  }

  /** A quotation that decodes is a string node of the same text and meaning. */
  lemma QuotationIsString(f: OurFeatures, body: Bytes)
    requires GoodBody(f, QUOTE, body)
    ensures ValidString(ToChars(body)) && SpellString(ToChars(body)) == QuotedBy(QUOTE, body)
    ensures DecodeBody(body) == Ok(Meaning(ToChars(body)))
  {
    hide CharsIn, DecodeBody, Meaning, StringBody, Enclosed, Paired;
    CharsInSpell(body);
    StringsOfTheGrammarDecode(body);
  }

  /** A strict text that is accepted denotes the same as JSON. */
  lemma {:induction false} StrictTextsAreJson(env: Settings, tree: Tree, depth: nat, rest: Bytes)
    requires Accepted(env, tree, depth, rest) && Strict(tree)
    ensures var node := ToNode(tree);
      Valid(node) && Text(node) == TreeText(tree) && Denotation(env, node) == Denoted(env, tree)
    decreases tree, 1
  {
    hide GoodBody, SpellNumber, NumberValue, Meaning, DecodeBody, StringValue, ToChars, GapText, NoComments, ValidGap;
    hide ValidNumber, ValidString, SpellString, QuotedBy, LooseNumber, Stops, SizeToInt, NoControls, ExactNumber;
    match tree {
      case Word(_) =>
      case Numeral(n) => SpelledNumberNonempty(n);
      case Quotation(_, body) => QuotationIsString(env.features, body);
      case List(_, _) => StrictListsAreJson(env, tree, depth, rest);
      case Record(_, _) => StrictRecordsAreJson(env, tree, depth, rest);
    }
  }

  lemma {:induction false} StrictListsAreJson(env: Settings, tree: Tree, depth: nat, rest: Bytes)
    requires Accepted(env, tree, depth, rest) && Strict(tree) && tree.List?
    ensures var node := ToNode(tree);
      Valid(node) && Text(node) == TreeText(tree) && Denotation(env, node) == Denoted(env, tree)
    decreases tree, 0
  {
    hide AcceptedElements, StrictElement, ToItems, ElementsText, ElementEntries, After, ItemsText, ItemEntries;
    hide SizeToInt, ReadsEmpty, ValidItem, GapText, ValidGap, NoComments;
    BlanksAreSpaces(env.features, tree.space);
    NoItems(env);
    if tree.elements != [] {
      var items, w := ToItems(tree.elements), GapText(tree.space);
      StrictElementsAreItems(env, tree.elements, depth + 1, 0, rest);
      ItemsAfter(env, w, items);
    }
  }

  lemma NoItems(env: Settings)
    ensures ItemEntries(env, [], 0) == [] && ElementEntries(env, [], 0) == [] && AllSpaces([])
  {
  }

  lemma ItemsAfter(env: Settings, w: Bytes, items: seq<Item>)
    requires items != [] && AllSpaces(w) && forall i :: i in items ==> ValidItem(i)
    ensures After(w, items) != [] && forall i :: i in After(w, items) ==> ValidItem(i)
    ensures ItemsText(After(w, items)) == w + ItemsText(items)
    ensures ItemEntries(env, After(w, items), 0) == ItemEntries(env, items, 0)
  {
    hide Text, Valid, Denotation, AllSpaces;
    var after := After(w, items);
    var i := items[0];
    assert ValidItem(i) && after[1..] == items[1..];
    SpacesTogether(w, i.before);
    assert forall x :: x in after ==> x == after[0] || x in items;
    Regroup(w, i.before, Text(i.node), i.after);
    var tail := if |items| == 1 then [RBRACKET] else [COMMA] + ItemsText(items[1..]);
    Assoc(w, ItemText(i), tail);
    assert ItemText(after[0]) == w + ItemText(i);
  }

  lemma SpacesTogether(a: Bytes, b: Bytes)
    requires AllSpaces(a) && AllSpaces(b)
    ensures AllSpaces(a + b)
  {
  }

  lemma {:induction false} StrictElementsAreItems(env: Settings, es: seq<Element>, depth: nat, index: nat,
                                                  rest: Bytes)
    requires es != [] && AcceptedElements(env, es, depth, index, rest)
    requires forall e :: e in es ==> StrictElement(e)
    ensures forall i :: i in ToItems(es) ==> ValidItem(i)
    ensures ItemsText(ToItems(es)) == ElementsText(es)
    ensures ItemEntries(env, ToItems(es), index) == ElementEntries(env, es, index)
    decreases es, 0
  {
    hide AcceptedElement, StrictElement, ToItem, ItemText, ElementText, ItemDenotation, ElementDenoted, ValidItem;
    hide ElementsTail;
    var e, others := es[0], es[1..];
    assert e in es && forall x :: x in others ==> x in es;
    StrictElementIsItem(env, e, depth, ElementsTail(es, rest));
    assert ToItems(es) == [ToItem(e)] + ToItems(others) && ToItems(es)[1..] == ToItems(others);
    if others != [] {
      StrictElementsAreItems(env, others, depth, index + 1, rest);
    }
  }

  lemma {:induction false} StrictElementIsItem(env: Settings, e: Element, depth: nat, rest: Bytes)
    requires AcceptedElement(env, e, depth, rest) && StrictElement(e)
    ensures ValidItem(ToItem(e)) && ItemText(ToItem(e)) == ElementText(e)
    ensures ItemDenotation(env, ToItem(e)) == ElementDenoted(env, e)
    decreases e
  {
    hide Accepted, Strict, ToNode, Text, TreeText, Valid, Denotation, Denoted, GapText, ValidGap, NoComments;
    hide AllSpaces;
    BlanksAreSpaces(env.features, e.before);
    BlanksAreSpaces(env.features, e.after);
    StrictTextsAreJson(env, e.tree, depth, GapText(e.after) + rest);
    Assoc(GapText(e.before), TreeText(e.tree), GapText(e.after));
  }

  lemma {:induction false} StrictRecordsAreJson(env: Settings, tree: Tree, depth: nat, rest: Bytes)
    requires Accepted(env, tree, depth, rest) && Strict(tree) && tree.Record?
    ensures var node := ToNode(tree);
      Valid(node) && Text(node) == TreeText(tree) && Denotation(env, node) == Denoted(env, tree)
    decreases tree, 0
  {
    hide AcceptedFields, StrictField, ToMembers, FieldsText, FieldEntries, MembersText, MemberEntries, ValidMember;
    hide GapText, ValidGap, NoComments, StrictFields, SizeToInt;
    BlanksAreSpaces(env.features, tree.end);
    NoMembers(env);
    if tree.fields != [] {
      StrictFieldsAreMembers(env, tree.fields, tree.end, depth + 1, [], [], rest);
    } else {
      EmptyIsNeutral(GapText(tree.end) + [RBRACE]);
    }
  }

  lemma NoMembers(env: Settings)
    ensures MemberEntries(env, [], []) == [] && FieldEntries(env, [], []) == [] && FieldsText([]) == []
    ensures GapText([]) == [] && ToMembers([]) == []
  {
  }

  lemma {:induction false} StrictFieldsAreMembers(env: Settings, fields: seq<Field>, end: Gap, depth: nat, name: Bytes,
                                                  m: seq<Entry>, rest: Bytes)
    requires fields != [] && StrictFields(fields) && AcceptedFields(env, fields, end, depth, name, m, rest)
    requires forall x :: x in fields ==> StrictField(x)
    ensures forall x :: x in ToMembers(fields) ==> ValidMember(x)
    ensures MembersText(ToMembers(fields)) == FieldsText(fields) + (GapText(end) + [RBRACE])
    ensures MemberEntries(env, ToMembers(fields), m) == FieldEntries(env, fields, m)
    decreases fields, 0
  {
    hide AcceptedField, StrictField, ToMember, MemberText, FieldText, MemberDenotation, FieldDenoted, ValidMember;
    hide Put;
    hide NameOf, Meaning, FieldsTail, Separates;
    var x, others := fields[0], fields[1..];
    assert x in fields && forall y :: y in others ==> y in fields;
    StrictFieldIsMember(env, x, depth, m, FieldsTail(others, end, rest));
    assert ToMembers(fields) == [ToMember(x)] + ToMembers(others) && ToMembers(fields)[1..] == ToMembers(others);
    var m' := Put(m, Name(NameOf(env, x.name)), FieldDenoted(env, x));
    if |fields| == 1 {
      assert others == [] && FieldsText(fields) == FieldText(x) + [] == FieldText(x);
      assert GapText(end) + [RBRACE] == [RBRACE];
    } else {
      StrictFieldsAreMembers(env, others, end, depth, NameOf(env, x.name), m', rest);
      var tail := FieldsText(others) + (GapText(end) + [RBRACE]);
      Assoc(FieldText(x), FieldsText(others), GapText(end) + [RBRACE]);
      Assoc(MemberText(ToMember(x)), [COMMA], tail);
    }
  }

  lemma {:induction false} StrictFieldIsMember(env: Settings, x: Field, depth: nat, m: seq<Entry>, tail: Bytes)
    requires AcceptedField(env, x, depth, m, tail) && StrictField(x)
    ensures ValidMember(ToMember(x)) && FieldText(x) == MemberText(ToMember(x)) + x.separator
    ensures MemberDenotation(env, ToMember(x)) == FieldDenoted(env, x)
    ensures Meaning(ToMember(x).name) == NameOf(env, x.name)
    decreases x
  {
    hide ToItem, ItemText, ElementText, ValidItem, ItemDenotation, ElementDenoted, AcceptedElement, StrictElement;
    hide GapText, GoodBody, Meaning, DecodeBody, ToChars, SpellString, QuotedBy, ValidGap, NoComments, AllSpaces;
    hide ValidString, NameFits, NoControls;
    BlanksAreSpaces(env.features, x.before);
    BlanksAreSpaces(env.features, x.colon);
    StrictElementIsItem(env, x.element, depth, x.separator + tail);
    QuotationIsString(env.features, x.name.body);
    FieldTextAnd(x, []);
    var y := ToMember(x);
    RegroupRight(y.before, SpellString(y.name), y.after, [COLON], ItemText(y.item) + x.separator);
    Assoc(y.before + SpellString(y.name) + y.after + [COLON], ItemText(y.item), x.separator);
  }

  lemma {:induction false} PlainCharsAreBytes(b: Bytes)
    requires StringBody(b) && NoControls(b)
    ensures ExactChars(CharsIn(b))
  {
    hide AllHex, Hex4Value, Unescape;
    if b == [] {
    } else if b[0] != BACKSLASH {
      assert b[0] in b && forall c :: c in b[1..] ==> c in b;
      PlainCharsAreBytes(b[1..]);
    } else if !EscapeBegins(b) {
      assert forall c :: c in b[2..] ==> c in b;
      PlainCharsAreBytes(b[2..]);
    } else if IsHighSurrogate(b[2..6]) && EscapeBegins(b[6..]) {
      assert b[6..][6..] == b[12..] && forall c :: c in b[12..] ==> c in b;
      PlainCharsAreBytes(b[6..][6..]);
    } else {
      assert forall c :: c in b[6..] ==> c in b;
      PlainCharsAreBytes(b[6..]);
    }
  }

  lemma ExactBody(body: Bytes)
    requires NoControls(body)
    ensures ExactChars(ToChars(body))
  {
    if StringBody(body) { PlainCharsAreBytes(body); }
  }

  lemma {:induction false} StrictIsExact(tree: Tree)
    requires Strict(tree)
    ensures Exact(ToNode(tree))
    decreases tree, 1
  {
    hide NoControls, ToChars, ExactChars, ExactNumber, GapText, StrictFields;
    match tree {
      case Quotation(_, body) => ExactBody(body);
      case List(space, es) =>
        StrictElementsAreExact(es);
        if es != [] {
          var items := ToItems(es);
          var after := After(GapText(space), items);
          assert items[0] in items;
          assert forall i :: i in after ==> i == after[0] || i in items;
        }
      case Record(fields, _) => StrictFieldsAreExact(fields);
      case _ =>
    }
  }

  lemma {:induction false} StrictElementsAreExact(es: seq<Element>)
    requires forall e :: e in es ==> StrictElement(e)
    ensures forall i :: i in ToItems(es) ==> ExactItem(i)
    decreases es, 0
  {
    hide StrictElement, ToItem, ExactItem;
    if es != [] {
      assert es[0] in es && forall e :: e in es[1..] ==> e in es;
      StrictElementIsExact(es[0]);
      StrictElementsAreExact(es[1..]);
    }
  }

  lemma {:induction false} StrictElementIsExact(e: Element)
    requires StrictElement(e)
    ensures ExactItem(ToItem(e))
    decreases e
  {
    hide Exact, ToNode, Strict, GapText, NoComments;
    StrictIsExact(e.tree);
  }

  lemma {:induction false} StrictFieldsAreExact(fields: seq<Field>)
    requires forall x :: x in fields ==> StrictField(x)
    ensures forall m :: m in ToMembers(fields) ==> ExactMember(m)
    decreases fields, 0
  {
    hide StrictField, ToMember, ExactMember;
    if fields != [] {
      assert fields[0] in fields && forall y :: y in fields[1..] ==> y in fields;
      StrictFieldIsExact(fields[0]);
      StrictFieldsAreExact(fields[1..]);
    }
  }

  lemma {:induction false} StrictFieldIsExact(x: Field)
    requires StrictField(x)
    ensures ExactMember(ToMember(x))
    decreases x
  {
    hide ToItem, ExactItem, StrictElement, GapText, NoComments, NoControls, ToChars, ExactChars;
    StrictElementIsExact(x.element);
    ExactBody(x.name.body);
  }

  /** The document uses no lenience anywhere. */
  predicate StrictDocument(doc: Bytes, g: Gap, tree: Tree, rest: Bytes) {
    Strict(tree) && NoComments(g) && AllSpaces(rest) && WellFormedUtf8(doc)
  }

  /** Such a document, where it is accepted, is JSON after RFC 8259, and its value is what it denotes as such. */
  lemma StrictDocumentsAreJson(env: Settings, doc: Bytes, v: Value, g: Gap, tree: Tree, rest: Bytes)
    requires IsText(env, doc, v, g, tree, rest) && StrictDocument(doc, g, tree, rest)
    ensures IsJson(doc)
    ensures IsJsonAs(doc, GapText(g), ToNode(tree), rest) && v == Denotation(env, ToNode(tree))
  {
    hide Accepted, Strict, Exact, Valid, Text, Denotation, TreeText, Denoted, GapText, ValidGap, NoComments, ToNode;
    hide WellFormedUtf8;
    BlanksAreSpaces(env.features, g);
    StrictTextsAreJson(env, tree, 1, rest);
    StrictIsExact(tree);
    assert IsJsonAs(doc, GapText(g), ToNode(tree), rest);
  }

  // ---- every JSON text that is accepted is one of them

  function GapOf(w: Bytes): (g: Gap)
    ensures NoComments(g)
  {
    if w == [] then [] else [Blank(w[0])] + GapOf(w[1..])
  }

  lemma {:induction false} GapOfSpaces(f: OurFeatures, w: Bytes)
    requires AllSpaces(w)
    ensures ValidGap(f, GapOf(w)) && GapText(GapOf(w)) == w
  {
    if w != [] {
      assert w[0] in w && forall c :: c in w[1..] ==> c in w;
      GapOfSpaces(f, w[1..]);
      assert GapOf(w)[1..] == GapOf(w[1..]) && w == [w[0]] + w[1..];
    }
  }

  function ToTree(node: Node): Tree
    decreases node
  {
    match node
    case NullNode => Word(NullToken)
    case BoolNode(b) => Word(if b then TrueToken else FalseToken)
    case NumberNode(n) => Numeral(n)
    case StringNode(cs) => Quotation(QUOTE, Spell(cs))
    case ArrayNode(space, items) => if items == [] then List(GapOf(space), []) else List([], ToElements(items))
    case ObjectNode(space, members) =>
      if members == [] then Record([], GapOf(space)) else Record(ToFields(members), [])
  }

  function ToElement(i: Item): Element
    decreases i
  {
    Element(GapOf(i.before), ToTree(i.node), GapOf(i.after))
  }

  function ToElements(items: seq<Item>): (es: seq<Element>)
    ensures |es| == |items|
    decreases items
  {
    if items == [] then [] else [ToElement(items[0])] + ToElements(items[1..])
  }

  function ToField(m: Member, separator: Bytes): Field
    decreases m
  {
    Field(GapOf(m.before), Quotation(QUOTE, Spell(m.name)), GapOf(m.after), ToElement(m.item), separator)
  }

  function ToFields(members: seq<Member>): (fields: seq<Field>)
    ensures |fields| == |members|
    decreases members
  {
    if members == [] then []
    else [ToField(members[0], if |members| == 1 then [] else [COMMA])] + ToFields(members[1..])
  }

  lemma {:induction false} SpelledWithoutControls(cs: seq<Char>)
    requires ValidChars(cs) && ExactChars(cs)
    ensures NoControls(Spell(cs))
  {
    if cs != [] {
      assert cs[0] in cs && forall c :: c in cs[1..] ==> c in cs;
      SpelledWithoutControls(cs[1..]);
      assert ValidChar(cs[0]);
    }
  }

  lemma SpelledIsEnclosed(cs: seq<Char>)
    requires ValidChars(cs)
    ensures Enclosed(Spell(cs), QUOTE)
  {
    hide ReadString, Enclosed, Spell;
    ReadStringStopsAtQuote(cs, []);
    var t := Spell(cs) + [QUOTE];
    EmptyIsNeutral(t);
    var body := StringIsCut(t, QUOTE);
    EmptyIsNeutral([QUOTE]);
    assert body + [QUOTE] == t;
    assert body == t[..|t| - 1] == Spell(cs);
  }

  lemma StringIsQuotation(f: OurFeatures, cs: seq<Char>)
    requires ValidString(cs) && Paired(cs)
    ensures GoodBody(f, QUOTE, Spell(cs)) && DecodeBody(Spell(cs)) == Ok(Meaning(cs))
    ensures SpellString(cs) == QuotedBy(QUOTE, Spell(cs))
  {
    hide Spell, Meaning, DecodeBody, CharsIn, StringBody, Enclosed;
    SpelledIsEnclosed(cs);
    DecodeBodyGivesMeaning(cs);
    DecodedBodiesAreStrings(Spell(cs));
    StringsOfTheGrammarDecode(Spell(cs));
  }

  lemma ValidNumbersStop(n: Number, rest: Bytes)
    requires ValidNumber(n) && Follows(rest)
    ensures LooseNumber(n) && Stops(n, rest)
  {
  }

  /** A JSON value that is read is an accepted text, without leniences, for what it denotes. */
  lemma {:induction false} NodeIsTree(env: Settings, node: Node, depth: nat, rest: Bytes)
    requires Valid(node) && Exact(node) && FateOf(env, node, depth) == Reads && Follows(rest)
    ensures var tree := ToTree(node);
      && Accepted(env, tree, depth, rest) && Strict(tree) && TreeText(tree) == Text(node)
      && Denoted(env, tree) == Denotation(env, node)
    decreases node, 1
  {
    hide SizeToInt, Paired, Meaning, DecodeBody, StringValue, NumberValue, SpellNumber, SpellString, QuotedBy;
    hide GoodBody;
    hide ValidNumber, LooseNumber, Stops, Follows, ValidString, NoControls, ExactChars, ExactNumber, Spell;
    match node {
      case NumberNode(n) =>
        SpelledNumberNonempty(n);
        ValidNumbersStop(n, rest);
      case StringNode(cs) =>
        StringIsQuotation(env.features, cs);
        ControlsApart(cs);
      case ArrayNode(_, _) => ArrayIsList(env, node, depth, rest);
      case ObjectNode(_, _) => ObjectIsRecord(env, node, depth, rest);
      case _ =>
    }
  }

  lemma ControlsApart(cs: seq<Char>)
    requires ValidString(cs) && ExactChars(cs)
    ensures NoControls(Spell(cs))
  {
    SpelledWithoutControls(cs);
  }

  lemma {:induction false} ArrayIsList(env: Settings, node: Node, depth: nat, rest: Bytes)
    requires node.ArrayNode? && Valid(node) && Exact(node) && FateOf(env, node, depth) == Reads && Follows(rest)
    ensures var tree := ToTree(node);
      && Accepted(env, tree, depth, rest) && Strict(tree) && TreeText(tree) == Text(node)
      && Denoted(env, tree) == Denotation(env, node)
    decreases node, 0
  {
    hide SizeToInt, AcceptedElements, ToElements, FateOfItems, ItemsText, ElementsText, StrictElement, ValidItem;
    hide ExactItem;
    hide ItemEntries, ElementEntries, GapText, GapOf, AllSpaces, ValidGap;
    var items := node.items;
    NoItems(env);
    NoGap(env.features);
    GapOfSpaces(env.features, node.space);
    if items != [] {
      ItemsAreElements(env, items, depth + 1, 0, rest);
      NeverReadsEmpty(items);
      EmptyIsNeutral(ItemsText(items));
    }
  }

  lemma NeverReadsEmpty(items: seq<Item>)
    requires items != []
    ensures !ReadsEmpty(ToElements(items))
  {
    assert ToElements(items)[0] == ToElement(items[0]);
    TreeIsThere(items[0].node);
  }

  lemma TreeIsThere(node: Node)
    ensures !ToTree(node).Dropped?
  {
  }

  lemma {:induction false} ItemsAreElements(env: Settings, items: seq<Item>, depth: nat, index: nat, rest: Bytes)
    requires items != [] && forall i :: i in items ==> ValidItem(i) && ExactItem(i)
    requires FateOfItems(env, items, depth, index) == Reads
    ensures var es := ToElements(items);
      && AcceptedElements(env, es, depth, index, rest) && ElementsText(es) == ItemsText(items)
      && ElementEntries(env, es, index) == ItemEntries(env, items, index)
      && forall e :: e in es ==> StrictElement(e)
    decreases items, 0
  {
    hide ValidItem, ExactItem, AcceptedElement, StrictElement, ToElement, ItemText, ElementText, ItemDenotation;
    hide ElementDenoted;
    var i, others := items[0], items[1..];
    assert i in items && forall x :: x in others ==> x in items;
    assert ToElements(items) == [ToElement(i)] + ToElements(others) && ToElements(items)[1..] == ToElements(others);
    if others == [] {
      ItemIsElement(env, i, depth, index, RBRACKET, rest);
    } else {
      ItemsAreElements(env, others, depth, index + 1, rest);
      ItemIsElement(env, i, depth, index, COMMA, ElementsText(ToElements(others)) + rest);
    }
  }

  lemma {:induction false} ItemIsElement(env: Settings, i: Item, depth: nat, index: nat, sep: Byte, tail: Bytes)
    requires ValidItem(i) && ExactItem(i) && FateOfItem(env, i, depth, index) == Reads
    requires sep in {COMMA, RBRACKET, RBRACE}
    ensures AcceptedElement(env, ToElement(i), depth, [sep] + tail) && StrictElement(ToElement(i))
    ensures ElementText(ToElement(i)) == ItemText(i) && ElementDenoted(env, ToElement(i)) == ItemDenotation(env, i)
    ensures index <= MAX_INT32
    decreases i
  {
    hide Accepted, Strict, ToTree, Text, TreeText, Valid, Exact, FateOf, Denotation, Denoted, Follows, GapText, GapOf;
    hide AllSpaces, ValidGap;
    GapOfSpaces(env.features, i.before);
    GapOfSpaces(env.features, i.after);
    SpacesFollow(i.after, sep, tail);
    NodeIsTree(env, i.node, depth, i.after + ([sep] + tail));
    Assoc(i.before, Text(i.node), i.after);
  }

  lemma {:induction false} ObjectIsRecord(env: Settings, node: Node, depth: nat, rest: Bytes)
    requires node.ObjectNode? && Valid(node) && Exact(node) && FateOf(env, node, depth) == Reads && Follows(rest)
    ensures var tree := ToTree(node);
      && Accepted(env, tree, depth, rest) && Strict(tree) && TreeText(tree) == Text(node)
      && Denoted(env, tree) == Denotation(env, node)
    decreases node, 0
  {
    hide SizeToInt, AcceptedFields, ToFields, FateOfMembers, MembersText, FieldsText, StrictField, ValidMember;
    hide ExactMember;
    hide MemberEntries, FieldEntries, GapText, GapOf, AllSpaces, StrictFields, ValidGap;
    var members := node.members;
    NoMembers(env);
    NoGap(env.features);
    GapOfSpaces(env.features, node.space);
    if members != [] {
      MembersAreFields(env, members, depth + 1, [], [], rest);
      EmptyIsNeutral([RBRACE]);
    } else {
      NothingAccepted(env, GapOf(node.space), depth + 1, rest);
      EmptyIsNeutral(node.space + [RBRACE]);
    }
  }

  lemma NothingAccepted(env: Settings, end: Gap, depth: nat, rest: Bytes)
    ensures AcceptedFields(env, [], end, depth, [], [], rest)
  {
  }

  lemma {:induction false} MembersAreFields(env: Settings, members: seq<Member>, depth: nat, name: Bytes, m: seq<Entry>,
                                            rest: Bytes)
    requires members != [] && forall x :: x in members ==> ValidMember(x) && ExactMember(x)
    requires FateOfMembers(env, members, depth, m) == Reads
    ensures var fields := ToFields(members);
      && AcceptedFields(env, fields, [], depth, name, m, rest) && FieldsText(fields) + [RBRACE] == MembersText(members)
      && FieldEntries(env, fields, m) == MemberEntries(env, members, m)
      && StrictFields(fields) && forall x :: x in fields ==> StrictField(x)
    decreases members, 0
  {
    hide ValidMember, ExactMember, AcceptedField, StrictField, ToField, MemberText, FieldText, MemberDenotation;
    hide Meaning;
    hide FieldDenoted, Put, NameOf, FateOfMember, GapText;
    var x, others := members[0], members[1..];
    assert x in members && forall y :: y in others ==> y in members;
    var separator := if others == [] then [] else [COMMA];
    var field := ToField(x, separator);
    assert ToFields(members) == [field] + ToFields(others) && ToFields(members)[1..] == ToFields(others);
    NoGap(env.features);
    if others == [] {
      assert FieldsTail([], [], rest) == [RBRACE] + rest;
      MemberIsField(env, x, depth, m, [], [RBRACE] + rest);
      EmptyIsNeutral(FieldText(field));
    } else {
      NameIsValid(x);
      var m' := Put(m, Name(Meaning(x.name)), MemberDenotation(env, x));
      MembersAreFields(env, others, depth, Meaning(x.name), m', rest);
      MemberIsField(env, x, depth, m, [COMMA], FieldsTail(ToFields(others), [], rest));
      Assoc(FieldText(field), FieldsText(ToFields(others)), [RBRACE]);
      Assoc(MemberText(x), [COMMA], MembersText(others));
    }
  }

  lemma NameIsValid(x: Member)
    requires ValidMember(x)
    ensures ValidChars(x.name)
  {
  }

  lemma {:induction false} MemberIsField(env: Settings, x: Member, depth: nat, m: seq<Entry>, separator: Bytes,
                                         tail: Bytes)
    requires ValidMember(x) && ExactMember(x) && FateOfMember(env, x, depth, m) == Reads
    requires separator == [COMMA] || (separator == [] && tail != [] && tail[0] == RBRACE)
    ensures var field := ToField(x, separator);
      && AcceptedField(env, field, depth, m, tail) && StrictField(field) && field.separator == separator
      && FieldText(field) == MemberText(x) + separator
      && NameOf(env, field.name) == Meaning(x.name) && FieldDenoted(env, field) == MemberDenotation(env, x)
    decreases x
  {
    hide ToElement, ItemText, ElementText, ValidItem, ExactItem, ItemDenotation, ElementDenoted, AcceptedElement;
    hide StrictElement, GapText, GapOf, GoodBody, Meaning, DecodeBody, Spell, SpellString, QuotedBy, ValidGap;
    hide AllSpaces;
    hide ValidString, NoControls, ExactChars, HasKey, FateOf, Paired;
    var field := ToField(x, separator);
    GapOfSpaces(env.features, x.before);
    GapOfSpaces(env.features, x.after);
    StringIsQuotation(env.features, x.name);
    ControlsApart(x.name);
    ItemOfMember(env, x, depth, m);
    if separator == [COMMA] {
      ItemIsElement(env, x.item, depth, 0, COMMA, tail);
    } else {
      EmptyIsNeutral(tail);
      assert tail == [RBRACE] + tail[1..];
      ItemIsElement(env, x.item, depth, 0, RBRACE, tail[1..]);
    }
    FieldTextAnd(field, []);
    EmptyIsNeutral(separator);
    EmptyIsNeutral(FieldText(field));
    RegroupRight(x.before, SpellString(x.name), x.after, [COLON], ItemText(x.item) + separator);
    Assoc(x.before + SpellString(x.name) + x.after + [COLON], ItemText(x.item), separator);
  }

  lemma ItemOfMember(env: Settings, x: Member, depth: nat, m: seq<Entry>)
    requires ValidMember(x) && FateOfMember(env, x, depth, m) == Reads
    ensures ValidItem(x.item) && FateOfItem(env, x.item, depth, 0) == Reads
    ensures Paired(x.name) && NameFits(env, Meaning(x.name), m)
  {
    hide FateOf, Meaning, Paired;
  }

  /** An accepted document is JSON after RFC 8259 exactly if it is a lenient text without leniences. */
  lemma JsonExactlyIfStrict(env: Settings, doc: Bytes, v: Value, root: Value)
    requires Parse(env, doc, root) == Returned(true, v, [])
    ensures IsJson(doc) <==>
      exists g, tree, rest :: IsText(env, doc, v, g, tree, rest) && StrictDocument(doc, g, tree, rest)
  {
    hide Parse, IsText, StrictDocument, IsJsonAs;
    if IsJson(doc) {
      var before, node, after :| IsJsonAs(doc, before, node, after);
      JsonIsStrict(env, doc, v, root, before, node, after);
    }
    if g, tree, rest :| IsText(env, doc, v, g, tree, rest) && StrictDocument(doc, g, tree, rest) {
      StrictDocumentsAreJson(env, doc, v, g, tree, rest);
    }
  }

  lemma JsonIsStrict(env: Settings, doc: Bytes, v: Value, root: Value, before: Bytes, node: Node, after: Bytes)
    requires Parse(env, doc, root) == Returned(true, v, [])
    requires IsJsonAs(doc, before, node, after) && WellFormedUtf8(doc)
    ensures IsText(env, doc, v, GapOf(before), ToTree(node), after)
    ensures StrictDocument(doc, GapOf(before), ToTree(node), after)
  {
    hide Parse, Accepted, Strict, ToTree, Text, TreeText, Denoted, Denotation, Valid, Exact, FateOf, GapOf, GapText;
    hide ValidGap, AllSpaces, WellFormedUtf8, Follows, NextToken;
    EveryTextIsJudged(env, before, node, after, root);
    SpacesEnd(env.features, after);
    NodeIsTree(env, node, 1, after);
    GapOfSpaces(env.features, before);
    RootOfTree(node);
  }

  lemma RootOfTree(node: Node)
    ensures node.ArrayNode? ==> ToTree(node).List?
    ensures node.ObjectNode? ==> ToTree(node).Record?
  {
  }

  lemma SpacesEnd(f: OurFeatures, w: Bytes)
    requires AllSpaces(w)
    ensures Follows(w) && Ends(f, w)
  {
    GapOfSpaces(f, w);
    EmptyIsNeutral(w);
    assert EndsAfter(f, w, GapOf(w), []);
    if w != [] { assert w[0] in w; }
  }
}
