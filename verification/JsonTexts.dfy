/** JSON texts as concrete syntax trees, and the theorem that says exactly which of them OurReader accepts, that it
    returns what these denote, and how it fails on the others.  The trees cover RFC 8259, sections 2 to 7, and more:
    leading zeros, and any byte in a string but quotation mark and backslash.  `JsonStandard` draws the exact line. */
module JsonTexts {
  import opened ByteStrings
  import opened JsonValue
  import opened JsonNumbers
  import opened JsonErrors
  import opened JsonStrings
  import opened JsonParsing

  datatype Exponent = Exponent(e: Byte, sign: Bytes, digits: Bytes)

  /** A number, section 6, but with leading zeros let through, as the reader does. */
  datatype Number = Number(negative: bool, digits: Bytes, fraction: Option<Bytes>, exponent: Option<Exponent>)

  /** A value, sections 3 to 5, with the whitespace inside it. */
  datatype Node =
    | NullNode
    | BoolNode(b: bool)
    | NumberNode(n: Number)
    | StringNode(chars: seq<Char>)
    | ArrayNode(space: Bytes, items: seq<Item>)
    | ObjectNode(space: Bytes, members: seq<Member>)

  /** An array element between its whitespace. */
  datatype Item = Item(before: Bytes, node: Node, after: Bytes)

  /** A member: whitespace, name, whitespace, colon, and the value as an item. */
  datatype Member = Member(before: Bytes, name: seq<Char>, after: Bytes, item: Item)

  // ---- spelling

  function SpellNumber(n: Number): Bytes {
    (if n.negative then [MINUS] else []) + n.digits + SpellFraction(n.fraction) + SpellExponent(n.exponent)
  }

  function SpellFraction(f: Option<Bytes>): Bytes {
    if f.Some? then [DOT] + f.value else []
  }

  function SpellExponent(x: Option<Exponent>): Bytes {
    if x.Some? then [x.value.e] + x.value.sign + x.value.digits else []
  }

  function SpellString(cs: seq<Char>): Bytes {
    [QUOTE] + Spell(cs) + [QUOTE]
  }

  const NULL_TEXT: Bytes := [LETTER_N] + ULL
  const TRUE_TEXT: Bytes := [LETTER_T] + RUE
  const FALSE_TEXT: Bytes := [LETTER_F] + ALSE

  function Text(node: Node): Bytes
    decreases node
  {
    match node
    case NullNode => NULL_TEXT
    case BoolNode(b) => if b then TRUE_TEXT else FALSE_TEXT
    case NumberNode(n) => SpellNumber(n)
    case StringNode(cs) => SpellString(cs)
    case ArrayNode(space, items) => [LBRACKET] + (if items == [] then space + [RBRACKET] else ItemsText(items))
    case ObjectNode(space, members) => [LBRACE] + (if members == [] then space + [RBRACE] else MembersText(members))
  }

  function ItemText(i: Item): Bytes
    decreases i
  {
    i.before + Text(i.node) + i.after
  }

  /** The items from the first on, and the closing bracket. */
  function ItemsText(items: seq<Item>): Bytes
    requires items != []
    decreases items
  {
    ItemText(items[0]) + (if |items| == 1 then [RBRACKET] else [COMMA] + ItemsText(items[1..]))
  }

  function MemberText(m: Member): Bytes
    decreases m
  {
    m.before + SpellString(m.name) + m.after + [COLON] + ItemText(m.item)
  }

  function MembersText(members: seq<Member>): Bytes
    requires members != []
    decreases members
  {
    MemberText(members[0]) + (if |members| == 1 then [RBRACE] else [COMMA] + MembersText(members[1..]))
  }

  // ---- which trees are JSON texts

  predicate ValidNumber(n: Number) {
    && n.digits != [] && AllDigits(n.digits)
    && (n.fraction.Some? ==> n.fraction.value != [] && AllDigits(n.fraction.value))
    && (n.exponent.Some? ==>
          && (n.exponent.value.e == 0x65 || n.exponent.value.e == 0x45)
          && (n.exponent.value.sign == [] || n.exponent.value.sign == [PLUS] || n.exponent.value.sign == [MINUS])
          && n.exponent.value.digits != [] && AllDigits(n.exponent.value.digits))
  }

  predicate Valid(node: Node)
    decreases node
  {
    match node
    case NumberNode(n) => ValidNumber(n)
    case StringNode(cs) => ValidString(cs)
    case ArrayNode(space, items) => AllSpaces(space) && forall i :: i in items ==> ValidItem(i)
    case ObjectNode(space, members) => AllSpaces(space) && forall m :: m in members ==> ValidMember(m)
    case _ => true
  }

  predicate ValidString(cs: seq<Char>) {
    ValidChars(cs) && LonesApart(cs)
  }

  predicate ValidItem(i: Item)
    decreases i
  {
    AllSpaces(i.before) && AllSpaces(i.after) && Valid(i.node)
  }

  predicate ValidMember(m: Member)
    decreases m
  {
    AllSpaces(m.before) && ValidString(m.name) && AllSpaces(m.after) && ValidItem(m.item)
  }

  // ---- what they denote

  /** Real numbers denote what the C library scans, if it scans them at all.  Of a string of 2^32 bytes or more, whose
      length is kept in 32 bits, only a prefix is kept. */
  function Denotation(env: Settings, node: Node): Value
    requires Valid(node)
    decreases node
  {
    match node
    case NullNode => Null
    case BoolNode(b) => Bool(b)
    case NumberNode(n) =>
      SpelledNumberNonempty(n);
      (match NumberValue(env, SpellNumber(n))
       case Some(v) => v
       case None => Null)
    case StringNode(cs) =>
      (match StringValue(Meaning(cs))
       case Some(v) => v
       case None => Null)
    case ArrayNode(_, items) => Array(ItemEntries(env, items, 0))
    case ObjectNode(_, members) => Object(MemberEntries(env, members, []))
  }

  function ItemDenotation(env: Settings, i: Item): Value
    requires ValidItem(i)
    decreases i
  {
    Denotation(env, i.node)
  }

  function MemberDenotation(env: Settings, m: Member): Value
    requires ValidMember(m)
    decreases m
  {
    ItemDenotation(env, m.item)
  }

  function ItemEntries(env: Settings, items: seq<Item>, index: nat): seq<Entry>
    requires forall i :: i in items ==> ValidItem(i)
    decreases items
  {
    if items == [] then []
    else [Entry(Index(index), ItemDenotation(env, items[0]))] + ItemEntries(env, items[1..], index + 1)
  }

  /** Later members overwrite earlier ones of the same name. */
  function MemberEntries(env: Settings, members: seq<Member>, m: seq<Entry>): seq<Entry>
    requires forall x :: x in members ==> ValidMember(x)
    decreases members
  {
    if members == [] then m
    else
      assert ValidMember(members[0]);
      MemberEntries(env, members[1..], Put(m, Name(Meaning(members[0].name)), MemberDenotation(env, members[0])))
  }

  lemma SpelledNumberNonempty(n: Number)
    requires ValidNumber(n)
    ensures SpellNumber(n) != []
  {
  }

  // ---- which of them the reader accepts

  /** What becomes of a text: it is read, or an error is reported, or an exception is thrown. */
  datatype Fate = Reads | Errs | Throws

  /** Decided by the first thing, in reading order, that is beyond the reader: nesting above the stack limit, a string
      too long, too many elements or a key too long throw; a number that does not scan, a lone surrogate, and a repeated
      key where those are rejected are errors.  `depth` nodes are on the stack. */
  function FateOf(env: Settings, node: Node, depth: nat): Fate
    requires Valid(node)
    decreases node
  {
    if SizeToInt(depth) > env.features.stackLimit then Throws
    else
      match node
      case NumberNode(n) =>
        SpelledNumberNonempty(n);
        if NumberValue(env, SpellNumber(n)).Some? then Reads else Errs
      case StringNode(cs) =>
        if !Paired(cs) then Errs else if StringValue(Meaning(cs)).None? then Throws else Reads
      case ArrayNode(_, items) => FateOfItems(env, items, depth + 1, 0)
      case ObjectNode(_, members) => FateOfMembers(env, members, depth + 1, [])
      case _ => Reads
  }

  function FateOfItem(env: Settings, i: Item, depth: nat, index: nat): Fate
    requires ValidItem(i)
    decreases i
  {
    if index > MAX_INT32 then Throws else FateOf(env, i.node, depth)
  }

  /** The items from number `index` on. */
  function FateOfItems(env: Settings, items: seq<Item>, depth: nat, index: nat): Fate
    requires forall i :: i in items ==> ValidItem(i)
    decreases items
  {
    if items == [] then Reads
    else
      var fate := FateOfItem(env, items[0], depth, index);
      if fate != Reads then fate else FateOfItems(env, items[1..], depth, index + 1)
  }

  function FateOfMember(env: Settings, x: Member, depth: nat, m: seq<Entry>): Fate
    requires ValidMember(x)
    decreases x
  {
    if !Paired(x.name) then Errs
    else if |Meaning(x.name)| >= KEY_LIMIT then Throws
    else if env.features.rejectDupKeys && HasKey(m, Name(Meaning(x.name))) then Errs
    else
      assert x.item.node < x.item < x && ValidItem(x.item);
      FateOf(env, x.item.node, depth)
  }

  /** `m` holds the members before these. */
  function FateOfMembers(env: Settings, members: seq<Member>, depth: nat, m: seq<Entry>): Fate
    requires forall x :: x in members ==> ValidMember(x)
    decreases members
  {
    if members == [] then Reads
    else
      var x := members[0];
      var fate := FateOfMember(env, x, depth, m);
      if fate != Reads then fate
      else FateOfMembers(env, members[1..], depth, Put(m, Name(Meaning(x.name)), MemberDenotation(env, x)))
  }

  /** The reader's result agrees with a fate. */
  predicate Meets(o: ReadResult, fate: Fate, v: Value, rest: Bytes) {
    match fate
    case Reads => o == Done(v, rest)
    case Errs => o.Failed?
    case Throws => o.Thrown?
  }

  /** So does one turn of its loops. */
  predicate TurnMeets(turn: Turn, fate: Fate, next: Turn) {
    match fate
    case Reads => turn == next
    case Errs => turn.Finished? && turn.o.Failed?
    case Throws => turn.Finished? && turn.o.Thrown?
  }

  // ---- tokens in context

  /** What may follow a number without becoming part of it. */
  predicate Follows(rest: Bytes) {
    rest == [] ||
    !(IsDigit(rest[0]) || rest[0] in {DOT, 0x65, 0x45, PLUS, MINUS})
  }

  predicate Dark(t: Bytes) {
    t != [] && !IsSpace(t[0])
  }

  lemma {:induction false} SkipsSpaces(w: Bytes, t: Bytes)
    requires AllSpaces(w) && (t == [] || Dark(t))
    ensures JsonParsing.SkipSpaces(w + t) == t
  {
    if w == [] {
      assert w + t == t;
    } else {
      assert w[0] in w && forall c :: c in w[1..] ==> c in w;
      assert (w + t)[1..] == w[1..] + t;
      SkipsSpaces(w[1..], t);
    }
  }

  lemma {:induction false} SkipsDigits(d: Bytes, t: Bytes)
    requires AllDigits(d) && (t == [] || !IsDigit(t[0]))
    ensures JsonParsing.SkipDigits(d + t) == t
  {
    if d == [] {
      assert d + t == t;
    } else {
      assert d[0] in d && forall c :: c in d[1..] ==> c in d;
      assert (d + t)[1..] == d[1..] + t;
      SkipsDigits(d[1..], t);
    }
  }

  /** Whitespace before a token does not matter, and a token that is no comment is the next token in every sense. */
  lemma ReadsPastSpaces(f: OurFeatures, w: Bytes, t: Bytes)
    requires AllSpaces(w) && Dark(t)
    ensures ReadToken(f, w + t) == ReadToken(f, t)
    ensures ReadToken(f, t).kind != Comment ==>
      PastComments(f, w + t) == ReadToken(f, t) && NextToken(f, w + t) == ReadToken(f, t)
  {
    hide Classify, SkipSpaces;
    SkipsSpaces(w, t);
    SkipsSpaces([], t);
    assert [] + t == t;
  }

  /** A first character that makes a whole token, and the token it makes. */
  predicate Punctuation(c: Byte, kind: TokenType) {
    || (c == LBRACE && kind == ObjectBegin) || (c == RBRACE && kind == ObjectEnd)
    || (c == LBRACKET && kind == ArrayBegin) || (c == RBRACKET && kind == ArrayEnd)
    || (c == COMMA && kind == ArraySeparator) || (c == COLON && kind == MemberSeparator)
  }

  lemma ReadsPunctuation(f: OurFeatures, w: Bytes, c: Byte, kind: TokenType, rest: Bytes)
    requires AllSpaces(w) && Punctuation(c, kind)
    ensures var o := Lexed(kind, [c], rest);
      && ReadToken(f, w + ([c] + rest)) == o && PastComments(f, w + ([c] + rest)) == o
      && NextToken(f, w + ([c] + rest)) == o
  {
    var t := [c] + rest;
    assert Classify(f, c, rest) == (kind, Scan(true, rest));
    TokenOf(f, t, 1, kind);
    ReadsPastSpaces(f, w, t);
  }

  /** readToken, once it is known where the token ends. */
  lemma TokenOf(f: OurFeatures, t: Bytes, n: nat, kind: TokenType)
    requires Dark(t) && 0 < n <= |t|
    requires Classify(f, t[0], t[1..]) == (kind, Scan(true, t[n..]))
    ensures ReadToken(f, t) == Lexed(kind, t[..n], t[n..])
  {
    hide Classify;
  }

  lemma ReadsLiteral(f: OurFeatures, c: Byte, tail: Bytes, rest: Bytes)
    requires (c == LETTER_N && tail == ULL) || (c == LETTER_T && tail == RUE) || (c == LETTER_F && tail == ALSE)
    ensures ReadToken(f, [c] + tail + rest) ==
      Lexed(if c == LETTER_N then NullToken else if c == LETTER_T then TrueToken else FalseToken, [c] + tail, rest)
  {
    var t := [c] + tail + rest;
    DropLeft([c] + tail, rest);
    assert t[1..] == tail + rest && tail <= t[1..];
    assert t[1..][|tail|..] == rest;
    TokenOf(f, t, 1 + |tail|, if c == LETTER_N then NullToken else if c == LETTER_T then TrueToken else FalseToken);
  }

  lemma ReadsString(f: OurFeatures, cs: seq<Char>, rest: Bytes)
    requires ValidString(cs)
    ensures ReadToken(f, SpellString(cs) + rest) == Lexed(StringToken, SpellString(cs), rest)
    ensures if Paired(cs) then DecodeString(SpellString(cs)) == Ok(Meaning(cs)) else DecodeString(SpellString(cs)).Err?
  {
    hide ReadString, Spell, Meaning, DecodeBody, ValidChars, LonesApart, Paired;
    var s := SpellString(cs);
    var t := s + rest;
    DropLeft(s, rest);
    assert t[1..] == Spell(cs) + [QUOTE] + rest;
    ReadStringStopsAtQuote(cs, rest);
    TokenOf(f, t, |s|, StringToken);
    DecodeBodyGivesMeaning(cs);
    assert s[1..|s| - 1] == Spell(cs);
  }

  lemma ReadsExponent(x: Option<Exponent>, rest: Bytes)
    requires x.Some? ==> ValidNumber(Number(false, [ZERO], None, x))
    requires Follows(rest)
    ensures ReadExponent(SpellExponent(x) + rest) == rest
  {
    hide SkipDigits;
    if x.Some? {
      var Exponent(e, sign, digits) := x.value;
      RegroupRight([], [e], sign, digits, rest);
      var signed := sign + (digits + rest);
      assert SpellExponent(x) + rest == [e] + signed;
      DropLeft([e], signed);
      assert digits[0] in digits;
      DropLeft(sign, digits + rest);
      SkipsDigits(digits, rest);
    } else {
      assert SpellExponent(x) + rest == rest;
    }
  }

  lemma ReadsFraction(f: Option<Bytes>, tail: Bytes)
    requires f.Some? ==> f.value != [] && AllDigits(f.value)
    requires tail == [] || (!IsDigit(tail[0]) && tail[0] != DOT)
    ensures ReadFraction(SpellFraction(f) + tail) == tail
  {
    if f.Some? {
      var r := SpellFraction(f) + tail;
      assert r[1..] == f.value + tail;
      SkipsDigits(f.value, tail);
    } else {
      assert SpellFraction(f) + tail == tail;
    }
  }

  lemma ClassifiesNumber(f: OurFeatures, c: Byte, t: Bytes)
    requires IsDigit(c) || (c == MINUS && !StartsWith(t, CAPITAL_I))
    ensures Classify(f, c, t) == (NumberToken, Scan(true, ReadNumber(t)))
  {
  }

  /** readNumber, after the first character, takes the rest of the number. */
  lemma ReadsDigitsAndTail(digits: Bytes, n: Number, rest: Bytes)
    requires ValidNumber(n) && AllDigits(digits) && Follows(rest)
    ensures ReadNumber(digits + (SpellFraction(n.fraction) + (SpellExponent(n.exponent) + rest))) == rest
  {
    hide ReadExponent, ReadFraction, SkipDigits;
    var fraction, exponent := SpellFraction(n.fraction), SpellExponent(n.exponent);
    SkipsDigits(digits, fraction + (exponent + rest));
    ReadsFraction(n.fraction, exponent + rest);
    ReadsExponent(n.exponent, rest);
  }

  lemma ReadsNumber(f: OurFeatures, n: Number, rest: Bytes)
    requires ValidNumber(n) && Follows(rest)
    ensures ReadToken(f, SpellNumber(n) + rest) == Lexed(NumberToken, SpellNumber(n), rest)
    ensures Dark(SpellNumber(n))
  {
    hide ReadNumber, SpellFraction, SpellExponent, Classify, Follows;
    var s, t := SpellNumber(n), SpellNumber(n) + rest;
    var tail := SpellFraction(n.fraction) + (SpellExponent(n.exponent) + rest);
    DropLeft(s, rest);
    assert n.digits[0] in n.digits && forall c :: c in n.digits[1..] ==> c in n.digits;
    if n.negative {
      RegroupRight([MINUS], n.digits, SpellFraction(n.fraction), SpellExponent(n.exponent), rest);
      DropLeft([MINUS], n.digits + tail);
      ReadsDigitsAndTail(n.digits, n, rest);
      assert t[1..] == n.digits + tail;
    } else {
      RegroupRight([], n.digits, SpellFraction(n.fraction), SpellExponent(n.exponent), rest);
      assert t == n.digits + tail;
      ReadsDigitsAndTail(n.digits[1..], n, rest);
      assert t[1..] == n.digits[1..] + tail;
    }
    ClassifiesNumber(f, t[0], t[1..]);
    TokenOf(f, t, |s|, NumberToken);
  }

  // ---- the reader accepts them

  /** A value begins with a character that is neither space nor closing bracket. */
  lemma TextBegins(node: Node)
    requires Valid(node)
    ensures Dark(Text(node)) && Text(node)[0] != RBRACKET
  {
    if node.NumberNode? {
      assert node.n.digits[0] in node.n.digits;
    }
  }

  lemma SpacesFollow(w: Bytes, c: Byte, rest: Bytes)
    requires AllSpaces(w) && c in {COMMA, RBRACKET, RBRACE}
    ensures Follows(w + ([c] + rest))
  {
    if w != [] {
      assert w[0] in w;
    }
  }

  /** The reader's result on whitespace, a value, and an input it cannot run on into. */
  lemma {:induction false} ReadsNode(env: Settings, w: Bytes, node: Node, rest: Bytes, depth: nat, current: Value)
    requires AllSpaces(w) && Valid(node) && Follows(rest)
    ensures Meets(ReadValue(env, w + (Text(node) + rest), depth, current), FateOf(env, node, depth),
                  Denotation(env, node), rest)
    decreases node, 1
  {
    hide NextToken, PastComments, ReadToken, ReadArray, ReadMembers, NumberValue, ReadStringValue, NoValue;
    hide SizeToInt, SpellNumber, SpellString, Meaning, ItemsText, MembersText, ItemEntries, MemberEntries;
    hide FateOfItems, FateOfMembers, ValidItem, ValidMember, ValidNumber, ValidString, Follows, AllSpaces, Paired;
    if SizeToInt(depth) > env.features.stackLimit {
      return;
    }
    var t := Text(node) + rest;
    TextBegins(node);
    match node {
      case ArrayNode(space, items) =>
        assert Text(node) == [LBRACKET] + (if items == [] then space + [RBRACKET] else ItemsText(items));
        var body := (if items == [] then space + [RBRACKET] else ItemsText(items)) + rest;
        assert t == [LBRACKET] + body;
        ReadsPunctuation(env.features, w, LBRACKET, ArrayBegin, body);
        ReadsArrayBody(env, node, rest, depth);
      case ObjectNode(space, members) =>
        assert Text(node) == [LBRACE] + (if members == [] then space + [RBRACE] else MembersText(members));
        var body := (if members == [] then space + [RBRACE] else MembersText(members)) + rest;
        assert t == [LBRACE] + body;
        ReadsPunctuation(env.features, w, LBRACE, ObjectBegin, body);
        ReadsObjectBody(env, node, rest, depth);
      case _ =>
        ReadsScalar(env, w, node, rest, depth, current);
    }
  }

  lemma ReadsScalar(env: Settings, w: Bytes, node: Node, rest: Bytes, depth: nat, current: Value)
    requires AllSpaces(w) && Valid(node) && Follows(rest) && SizeToInt(depth) <= env.features.stackLimit
    requires !node.ArrayNode? && !node.ObjectNode?
    ensures Meets(ReadValue(env, w + (Text(node) + rest), depth, current), FateOf(env, node, depth),
                  Denotation(env, node), rest)
  {
    hide NextToken, PastComments, ReadToken, ReadArray, ReadMembers, NumberValue, NoValue;
    hide SizeToInt, SpellNumber, SpellString, Meaning, Follows, AllSpaces, IsSpace, ValidNumber, ValidString;
    hide DecodeString, Paired, StringValue;
    var t := Text(node) + rest;
    TextBegins(node);
    match node {
      case NullNode => ReadsLiteral(env.features, LETTER_N, ULL, rest);
      case BoolNode(b) =>
        ReadsLiteral(env.features, LETTER_T, RUE, rest);
        ReadsLiteral(env.features, LETTER_F, ALSE, rest);
      case NumberNode(n) => ReadsNumber(env.features, n, rest);
      case StringNode(cs) =>
        ReadsString(env.features, cs, rest);
    }
    assert t[0] == Text(node)[0];
    ReadsPastSpaces(env.features, w, t);
  }

  lemma ShortStringsAreKept(s: Bytes)
    requires |s| <= MAX_STRING
    ensures StringValue(s) == Some(String(s))
  {
    assert s[..|s|] == s;
  }

  /** readArray, after the opening bracket. */
  lemma {:induction false} ReadsArrayBody(env: Settings, node: Node, rest: Bytes, depth: nat)
    requires Valid(node) && SizeToInt(depth) <= env.features.stackLimit && node.ArrayNode?
    ensures Meets(
      ReadArray(env, (if node.items == [] then node.space + [RBRACKET] else ItemsText(node.items)) + rest, depth),
      FateOf(env, node, depth), Denotation(env, node), rest)
    decreases node, 0
  {
    hide ReadElements, FateOfItem, ItemText, ItemsTail, SkipSpaces, ReadElement;
    var items := node.items;
    if items == [] {
      assert node.space + [RBRACKET] + rest == node.space + ([RBRACKET] + rest);
      SkipsSpaces(node.space, [RBRACKET] + rest);
    } else {
      assert ValidItem(items[0]);
      SplitItems(items);
      var before, tail := items[0].before, ItemsTail(items) + rest;
      assert ItemsText(items) + rest == before + tail;
      TailBegins(items);
      SkipsSpaces(before, tail);
      ReadsItems(env, [], items, rest, depth, 0, []);
      assert [] + tail == tail;
      assert [] + ItemEntries(env, items, 0) == ItemEntries(env, items, 0);
    }
  }

  /** The items without the whitespace before the first. */
  function ItemsTail(items: seq<Item>): Bytes
    requires items != []
  {
    Text(items[0].node) + (items[0].after + (if |items| == 1 then [RBRACKET] else [COMMA] + ItemsText(items[1..])))
  }

  lemma SplitItems(items: seq<Item>)
    requires items != []
    ensures ItemsText(items) == items[0].before + ItemsTail(items)
  {
    var i := items[0];
    var sep := if |items| == 1 then [RBRACKET] else [COMMA] + ItemsText(items[1..]);
    assert ItemsText(items) == ItemText(i) + sep;
    Regroup(i.before, Text(i.node), i.after, sep);
    RegroupRight([], [], Text(i.node), i.after, sep);
  }

  lemma TailBegins(items: seq<Item>)
    requires items != [] && ValidItem(items[0])
    ensures Dark(ItemsTail(items)) && ItemsTail(items)[0] != RBRACKET
  {
    TextBegins(items[0].node);
  }

  lemma LastItemText(items: seq<Item>, rest: Bytes)
    requires |items| == 1
    ensures ItemsTail(items) + rest == Text(items[0].node) + (items[0].after + ([RBRACKET] + rest))
  {
    Regroup(Text(items[0].node), items[0].after, [RBRACKET], rest);
  }

  lemma NextItemText(items: seq<Item>, rest: Bytes)
    requires |items| > 1
    ensures ItemsTail(items) + rest == Text(items[0].node) +
      (items[0].after + ([COMMA] + (items[1].before + (ItemsTail(items[1..]) + rest))))
  {
    hide Text, ItemsText;
    var i, others := items[0], items[1..];
    SplitItems(others);
    Assoc(others[0].before, ItemsTail(others), rest);
    RegroupRight(Text(i.node), i.after, [COMMA], ItemsText(others), rest);
    Regroup(Text(i.node), i.after, [COMMA] + ItemsText(others), rest);
  }

  lemma ItemEntriesStep(env: Settings, m: seq<Entry>, items: seq<Item>, index: nat)
    requires items != [] && forall i :: i in items ==> ValidItem(i)
    ensures m + ItemEntries(env, items, index) ==
      m + [Entry(Index(index), ItemDenotation(env, items[0]))] + ItemEntries(env, items[1..], index + 1)
  {
  }

  lemma {:induction false} ReadsItems(env: Settings, w: Bytes, items: seq<Item>, rest: Bytes, depth: nat, index: nat,
                                      m: seq<Entry>)
    requires AllSpaces(w) && items != []
    requires forall i :: i in items ==> ValidItem(i)
    requires forall e :: e in m ==> KeyLess(e.key, Index(index))
    ensures Meets(ReadElements(env, w + (ItemsTail(items) + rest), depth, index, m),
                  FateOfItems(env, items, depth + 1, index), Array(m + ItemEntries(env, items, index)), rest)
    decreases items, 0
  {
    hide ReadElement, FateOfItem, ValidItem, AllSpaces, Text, ItemsTail, ItemsText, ItemEntries, ItemDenotation;
    var i, others := items[0], items[1..];
    var e := Entry(Index(index), ItemDenotation(env, i));
    ItemEntriesStep(env, m, items, index);
    if |items| == 1 {
      LastItemText(items, rest);
      ReadsItem(env, w, i, RBRACKET, rest, depth, index, m);
      NoEntries(env, m + [e], index + 1);
    } else {
      NextItemText(items, rest);
      ReadsItem(env, w, i, COMMA, others[0].before + (ItemsTail(others) + rest), depth, index, m);
      ItemSpaces(others[0]);
      assert forall x :: x in others ==> x in items;
      ReadsItems(env, others[0].before, others, rest, depth, index + 1, m + [e]);
    }
  }

  lemma NoEntries(env: Settings, m: seq<Entry>, index: nat)
    ensures m + ItemEntries(env, [], index) == m
  {
  }

  lemma ItemSpaces(i: Item)
    requires ValidItem(i)
    ensures AllSpaces(i.before) && AllSpaces(i.after)
  {
  }

  /** One element and the separator after it. */
  lemma {:induction false} ReadsItem(env: Settings, w: Bytes, i: Item, sep: Byte, tail: Bytes, depth: nat, index: nat,
                                     m: seq<Entry>)
    requires AllSpaces(w) && ValidItem(i)
    requires sep == COMMA || sep == RBRACKET
    requires forall e :: e in m ==> KeyLess(e.key, Index(index))
    ensures var m' := m + [Entry(Index(index), ItemDenotation(env, i))];
      TurnMeets(ReadElement(env, w + (Text(i.node) + (i.after + ([sep] + tail))), depth, index, m),
                FateOfItem(env, i, depth + 1, index),
                if sep == COMMA then More(tail, m') else Finished(Done(Array(m'), tail)))
    decreases i
  {
    hide ReadValue, PastComments, Text, Denotation, AllSpaces, Follows, Valid, FateOf, Lookup, Put;
    SpacesFollow(i.after, sep, tail);
    ReadsNode(env, w, i.node, i.after + ([sep] + tail), depth + 1, Lookup(m, Index(index)));
    PutAppends(m, Index(index), ItemDenotation(env, i));
    ReadsPunctuation(env.features, i.after, sep, if sep == COMMA then ArraySeparator else ArrayEnd, tail);
  }

  /** readObject, after the opening brace. */
  lemma {:induction false} ReadsObjectBody(env: Settings, node: Node, rest: Bytes, depth: nat)
    requires Valid(node) && SizeToInt(depth) <= env.features.stackLimit && node.ObjectNode?
    ensures Meets(
      ReadMembers(env, (if node.members == [] then node.space + [RBRACE] else MembersText(node.members)) + rest, depth,
                  [], []),
      FateOf(env, node, depth), Denotation(env, node), rest)
    decreases node, 0
  {
    hide FateOfMember, PastComments, MemberText, ReadMemberRest;
    if node.members == [] {
      assert node.space + [RBRACE] + rest == node.space + ([RBRACE] + rest);
      ReadsPunctuation(env.features, node.space, RBRACE, ObjectEnd, rest);
    } else {
      ReadsMembers(env, node.members, rest, depth, [], []);
    }
  }

  lemma {:induction false} ReadsMembers(env: Settings, members: seq<Member>, rest: Bytes, depth: nat, name: Bytes,
                                        m: seq<Entry>)
    requires members != []
    requires forall x :: x in members ==> ValidMember(x)
    ensures Meets(ReadMembers(env, MembersText(members) + rest, depth, name, m),
                  FateOfMembers(env, members, depth + 1, m), Object(MemberEntries(env, members, m)), rest)
    decreases members, 0
  {
    hide ReadMemberRest, MemberText, PastComments, Put, Meaning, ItemDenotation, SpellString, ItemText, FateOf;
    hide Paired;
    var x := members[0];
    assert ValidMember(x) && forall y :: y in members[1..] ==> y in members;
    var m' := Put(m, Name(Meaning(x.name)), MemberDenotation(env, x));
    var last := |members| == 1;
    var sep := if last then RBRACE else COMMA;
    var tail := if last then rest else MembersText(members[1..]) + rest;
    assert MembersText(members) + rest == MemberText(x) + ([sep] + tail);
    ReadsName(env, x, [sep] + tail);
    if Paired(x.name) {
      ReadsMemberRest(env, x, sep, tail, depth, m);
      if last {
        assert MemberEntries(env, members, m) == m' by { assert members[1..] == []; }
      } else {
        ReadsMembers(env, members[1..], rest, depth, Meaning(x.name), m');
      }
    }
  }

  /** A member's text from the name's closing quote on. */
  function MemberTail(m: Member, tail: Bytes): Bytes {
    m.after + ([COLON] + (m.item.before + (Text(m.item.node) + (m.item.after + tail))))
  }

  lemma ReadsName(env: Settings, m: Member, tail: Bytes)
    requires ValidMember(m)
    ensures var t := PastComments(env.features, MemberText(m) + tail);
      && t.kind == StringToken && t.rest == MemberTail(m, tail)
      && if Paired(m.name) then MemberName(env, t) == Some(Ok(Meaning(m.name)))
         else MemberName(env, t).Some? && MemberName(env, t).value.Err?
  {
    hide PastComments, ReadToken, Spell, Meaning, Text, DecodeString, NextToken, AllSpaces, ValidString, Paired;
    var name := SpellString(m.name);
    SplitMember(m, tail);
    ReadsString(env.features, m.name, MemberTail(m, tail));
    ReadsPastSpaces(env.features, m.before, name + MemberTail(m, tail));
  }

  lemma SplitMember(m: Member, tail: Bytes)
    ensures MemberText(m) + tail == m.before + (SpellString(m.name) + MemberTail(m, tail))
  {
    hide SpellString, Text;
    var i := m.item;
    assert MemberText(m) + tail == m.before + SpellString(m.name) + m.after + [COLON] + ItemText(i) + tail;
    Regroup(i.before, Text(i.node), i.after, tail);
    RegroupRight([], [], Text(i.node), i.after, tail);
    assert ItemText(i) + tail == i.before + (Text(i.node) + (i.after + tail));
    RegroupRight(m.before, SpellString(m.name), m.after, [COLON], ItemText(i) + tail);
  }

  /** A member after its name, and the separator after it. */
  lemma {:induction false} ReadsMemberRest(env: Settings, m: Member, sep: Byte, tail: Bytes, depth: nat,
                                           entries: seq<Entry>)
    requires ValidMember(m) && Paired(m.name)
    requires sep == COMMA || sep == RBRACE
    ensures var entries' := Put(entries, Name(Meaning(m.name)), MemberDenotation(env, m));
      TurnMeets(ReadMemberRest(env, MemberTail(m, [sep] + tail), depth, Meaning(m.name), entries),
                FateOfMember(env, m, depth + 1, entries),
                if sep == COMMA then More(tail, entries') else Finished(Done(Object(entries'), tail)))
    decreases m
  {
    hide ReadValue, ReadToken, PastComments, Text, Denotation, AllSpaces, Follows, Valid, FateOf, Lookup, Put;
    hide Meaning;
    hide HasKey, ValidChars, LonesApart, NextToken, Paired;
    var i := m.item;
    var key := Name(Meaning(m.name));
    var after := i.before + (Text(i.node) + (i.after + ([sep] + tail)));
    ReadsPunctuation(env.features, m.after, COLON, MemberSeparator, after);
    SpacesFollow(i.after, sep, tail);
    ReadsNode(env, i.before, i.node, i.after + ([sep] + tail), depth + 1, Lookup(entries, key));
    ReadsPunctuation(env.features, i.after, sep, if sep == COMMA then ArraySeparator else ObjectEnd, tail);
  }

  // ---- whole documents

  /** The root meets strictRoot. */
  predicate RootAllowed(f: OurFeatures, node: Node) {
    f.strictRoot ==> node.ArrayNode? || node.ObjectNode?
  }

  lemma ReadsEnd(f: OurFeatures, w: Bytes)
    requires AllSpaces(w)
    ensures NextToken(f, w) == Lexed(EndOfStream, [], [])
  {
    SkipsSpaces(w, []);
    assert w + [] == w;
  }

  /** On every JSON text, with any whitespace and under every setting of the features, parse throws, reports an error,
      or yields what the text denotes, exactly as the fate of the text says. */
  lemma EveryTextIsJudged(env: Settings, before: Bytes, node: Node, after: Bytes, root: Value)
    requires AllSpaces(before) && AllSpaces(after) && Valid(node)
    ensures var (o, allowed) := (Parse(env, before + (Text(node) + after), root), RootAllowed(env.features, node));
      match FateOf(env, node, 1)
      case Reads => o == Returned(allowed, Denotation(env, node), if allowed then [] else [RootNotStructured])
      case Errs => o.Returned? && !o.ok
      case Throws => o.Threw?
  {
    hide ReadValue, NextToken, Text, Valid, FateOf;
    assert after != [] ==> after[0] in after;
    ReadsNode(env, before, node, after, 1, root);
    ReadsEnd(env.features, after);
    RootDenotation(env, node);
  }

  /** So a text is accepted if and only if it is within the limits and its root is allowed. */
  lemma AcceptedExactlyWithinLimits(env: Settings, before: Bytes, node: Node, after: Bytes, root: Value)
    requires AllSpaces(before) && AllSpaces(after) && Valid(node)
    ensures Parse(env, before + (Text(node) + after), root) == Returned(true, Denotation(env, node), []) <==>
      FateOf(env, node, 1) == Reads && RootAllowed(env.features, node)
  {
    hide Parse, FateOf, Valid, Text, Denotation, AllSpaces;
    EveryTextIsJudged(env, before, node, after, root);
  }

  lemma RootDenotation(env: Settings, node: Node)
    requires Valid(node)
    ensures node.ArrayNode? <==> Denotation(env, node).Array?
    ensures node.ObjectNode? <==> Denotation(env, node).Object?
  {
  }
}
