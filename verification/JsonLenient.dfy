/** Everything OurReader accepts, under every setting of its features, as an explicit grammar: JSON with comments, loose
    numbers and strings, and the reader's other leniences, within its limits. */
module JsonLenient {
  import opened ByteStrings
  import opened JsonValue
  import opened JsonNumbers
  import opened JsonErrors
  import opened JsonStrings
  import opened JsonParsing
  import opened JsonTexts
  import opened JsonLexemes

  // ---- the grammar

  /** A value.  `Dropped` is a null placeholder with no text, and a list without elements has only blanks in it. */
  datatype Tree =
    | Word(kind: TokenType)
    | Numeral(n: Number)
    | Quotation(delimiter: Byte, body: Bytes)
    | List(space: Gap, elements: seq<Element>)
    | Record(fields: seq<Field>, end: Gap)
    | Dropped

  /** An array element, or a member's value, with what stands around it. */
  datatype Element = Element(before: Gap, tree: Tree, after: Gap)

  /** A member, and the separator after it; there is none before the closing brace. */
  datatype Field = Field(before: Gap, name: Tree, colon: Gap, element: Element, separator: Bytes)

  function TreeText(tree: Tree): Bytes
    decreases tree
  {
    match tree
    case Word(kind) => if FixedText(kind).Some? then FixedText(kind).value else []
    case Numeral(n) => SpellNumber(n)
    case Quotation(d, body) => QuotedBy(d, body)
    case List(space, es) => [LBRACKET] + (GapText(space) + (if es == [] then [RBRACKET] else ElementsText(es)))
    case Record(fields, end) => [LBRACE] + (FieldsText(fields) + (GapText(end) + [RBRACE]))
    case Dropped => []
  }

  function ElementText(e: Element): Bytes
    decreases e
  {
    GapText(e.before) + (TreeText(e.tree) + GapText(e.after))
  }

  function ElementsText(es: seq<Element>): Bytes
    requires es != []
    decreases es
  {
    ElementText(es[0]) + (if |es| == 1 then [RBRACKET] else [COMMA] + ElementsText(es[1..]))
  }

  function FieldText(x: Field): Bytes
    decreases x
  {
    GapText(x.before) + (TreeText(x.name) + (GapText(x.colon) + ([COLON] + (ElementText(x.element) + x.separator))))
  }

  function FieldsText(fields: seq<Field>): Bytes
    decreases fields
  {
    if fields == [] then [] else FieldText(fields[0]) + FieldsText(fields[1..])
  }

  // ---- what its texts denote

  function Denoted(env: Settings, tree: Tree): Value
    decreases tree
  {
    match tree
    case Word(TrueToken) => Bool(true)
    case Word(FalseToken) => Bool(false)
    case Word(NaNToken) => Real(NaN)
    case Word(PosInfToken) => Real(PosInfinity)
    case Word(NegInfToken) => Real(NegInfinity)
    case Word(_) => Null
    case Numeral(n) => if Scans(env, n) then NumberValue(env, SpellNumber(n)).value else Null
    case Quotation(_, body) =>
      (match DecodeBody(body)
       case Ok(s) => if StringValue(s).Some? then StringValue(s).value else Null
       case Err(_) => Null)
    case List(_, es) => Array(ElementEntries(env, es, 0))
    case Record(fields, _) => Object(FieldEntries(env, fields, []))
    case Dropped => Null
  }

  /** The number has a value. */
  predicate Scans(env: Settings, n: Number) {
    SpellNumber(n) != [] && NumberValue(env, SpellNumber(n)).Some?
  }

  function ElementDenoted(env: Settings, e: Element): Value
    decreases e
  {
    Denoted(env, e.tree)
  }

  function ElementEntries(env: Settings, es: seq<Element>, index: nat): seq<Entry>
    decreases es
  {
    if es == [] then []
    else [Entry(Index(index), ElementDenoted(env, es[0]))] + ElementEntries(env, es[1..], index + 1)
  }

  function NameOf(env: Settings, name: Tree): Bytes {
    match name
    case Quotation(_, body) => if DecodeBody(body).Ok? then DecodeBody(body).value else []
    case Numeral(n) => if Scans(env, n) then NumberText(env, NumberValue(env, SpellNumber(n)).value) else []
    case _ => []
  }

  function FieldDenoted(env: Settings, x: Field): Value
    decreases x
  {
    ElementDenoted(env, x.element)
  }

  /** Later members overwrite earlier ones of the same name. */
  function FieldEntries(env: Settings, fields: seq<Field>, m: seq<Entry>): seq<Entry>
    decreases fields
  {
    if fields == [] then m
    else FieldEntries(env, fields[1..], Put(m, Name(NameOf(env, fields[0].name)), FieldDenoted(env, fields[0])))
  }

  // ---- which of them are accepted

  /** Between quotation marks every escape is one of RFC 8259, section 7, and every escaped high surrogate is followed
      by another unicode escape.  Any other byte may stand there. */
  predicate GoodBody(f: OurFeatures, delimiter: Byte, body: Bytes) {
    && Delimits(f, delimiter) && Enclosed(body, delimiter) && DecodeBody(body).Ok?
    && (delimiter == QUOTE ==> StringBody(body) && Paired(CharsIn(body)))
  }

  predicate GoodNumeral(env: Settings, n: Number) {
    LooseNumber(n) && Scans(env, n)
  }

  predicate GoodName(env: Settings, name: Tree) {
    match name
    case Quotation(d, body) => GoodBody(env.features, d, body)
    case Numeral(n) => env.features.allowNumericKeys && GoodNumeral(env, n)
    case _ => false
  }

  /** The name is short enough, and new where repeated names are rejected. */
  predicate NameFits(env: Settings, key: Bytes, m: seq<Entry>) {
    |key| < KEY_LIMIT && !(env.features.rejectDupKeys && HasKey(m, Name(key)))
  }

  /** The text of the tree is accepted as one value where `rest` follows it and `depth` nodes are on the stack. */
  predicate Accepted(env: Settings, tree: Tree, depth: nat, rest: Bytes)
    decreases tree
  {
    && SizeToInt(depth) <= env.features.stackLimit
    && match tree
       case Word(kind) =>
         kind in {TrueToken, FalseToken, NullToken} ||
         (env.features.allowSpecialFloats && kind in {NaNToken, PosInfToken, NegInfToken})
       case Numeral(n) => GoodNumeral(env, n) && Stops(n, rest)
       case Quotation(d, body) => GoodBody(env.features, d, body) && StringValue(DecodeBody(body).value).Some?
       case List(space, es) =>
         && ValidGap(env.features, space) && NoComments(space)
         && (es == [] || (!ReadsEmpty(es) && AcceptedElements(env, es, depth + 1, 0, rest)))
       case Record(fields, end) =>
         ValidGap(env.features, end) && AcceptedFields(env, fields, end, depth + 1, [], [], rest)
       case Dropped =>
         env.features.allowDroppedNullPlaceholders && rest != [] && rest[0] in {COMMA, RBRACKET, RBRACE}
  }

  /** One dropped element between brackets, with only blanks there, is no element. */
  predicate ReadsEmpty(es: seq<Element>) {
    |es| == 1 && es[0].tree.Dropped? && NoComments(es[0].before)
  }

  /** Comments before a value only where they are allowed. */
  predicate AcceptedElement(env: Settings, e: Element, depth: nat, rest: Bytes)
    decreases e
  {
    && ValidGap(env.features, e.before) && (env.features.allowComments || NoComments(e.before))
    && ValidGap(env.features, e.after) && Accepted(env, e.tree, depth, GapText(e.after) + rest)
  }

  /** What follows the first of these elements. */
  function ElementsTail(es: seq<Element>, rest: Bytes): Bytes
    requires es != []
  {
    if |es| == 1 then [RBRACKET] + rest else [COMMA] + (ElementsText(es[1..]) + rest)
  }

  /** The elements from number `index` on, which an int must hold. */
  predicate AcceptedElements(env: Settings, es: seq<Element>, depth: nat, index: nat, rest: Bytes)
    requires es != []
    decreases es
  {
    && index <= MAX_INT32 && AcceptedElement(env, es[0], depth, ElementsTail(es, rest))
    && (|es| > 1 ==> AcceptedElements(env, es[1..], depth, index + 1, rest))
  }

  /** No comment before the colon.  `m` holds the members before, and `tail` follows the separator. */
  predicate AcceptedField(env: Settings, x: Field, depth: nat, m: seq<Entry>, tail: Bytes)
    decreases x
  {
    && ValidGap(env.features, x.before) && GoodName(env, x.name) && NameFits(env, NameOf(env, x.name), m)
    && ValidGap(env.features, x.colon) && NoComments(x.colon)
    && AcceptedElement(env, x.element, depth, x.separator + tail)
  }

  /** A comma separates members; after a comment any token does. */
  predicate Separates(f: OurFeatures, after: Gap, separator: Bytes, tail: Bytes) {
    separator == [COMMA] || (!NoComments(after) && FirstToken(f, separator, tail))
  }

  /** This text is the first token of the input, and neither a comment nor a closing brace. */
  predicate FirstToken(f: OurFeatures, text: Bytes, tail: Bytes) {
    var t := ReadToken(f, text + tail);
    t.text == text && t.rest == tail && t.kind != Comment && t.kind != ObjectEnd
  }

  /** These members, and the closing brace. */
  function FieldsTail(fields: seq<Field>, end: Gap, rest: Bytes): Bytes {
    FieldsText(fields) + (GapText(end) + ([RBRACE] + rest))
  }

  /** The closing brace comes after a member without a separator, or after a separator where the name before it is
      empty; `name` is that name for the first of these members, and `m` holds the members before them. */
  predicate AcceptedFields(env: Settings, fields: seq<Field>, end: Gap, depth: nat, name: Bytes, m: seq<Entry>,
                           rest: Bytes)
    decreases fields
  {
    if fields == [] then name == []
    else
      var x, others := fields[0], fields[1..];
      var key, tail := NameOf(env, x.name), FieldsTail(others, end, rest);
      && AcceptedField(env, x, depth, m, tail)
      && if x.separator == [] then others == [] && end == []
         else
           && Separates(env.features, x.element.after, x.separator, tail)
           && AcceptedFields(env, others, end, depth, key, Put(m, Name(key), FieldDenoted(env, x)), rest)
  }

  // ---- whole documents

  /** What may follow the root value where nothing else may: a gap, and the end of the input, a last comment, or a zero
      byte with anything after it. */
  ghost predicate Ends(f: OurFeatures, r: Bytes) {
    exists g, tail :: EndsAfter(f, r, g, tail)
  }

  predicate EndsAfter(f: OurFeatures, r: Bytes, g: Gap, tail: Bytes) {
    && ValidGap(f, g) && (f.allowComments || NoComments(g)) && r == GapText(g) + tail
    && (tail == [] || tail[0] == 0 || (f.allowComments && LastComment(f, tail)))
  }

  /** The document is one of these texts, for this value.  Without failIfExtra anything may follow; with it, a text that
      begins no token may, unless strictRoot is set too. */
  ghost predicate IsText(env: Settings, doc: Bytes, v: Value, g: Gap, tree: Tree, rest: Bytes) {
    var f := env.features;
    && ValidGap(f, g) && (f.allowComments || NoComments(g)) && Accepted(env, tree, 1, rest)
    && doc == GapText(g) + (TreeText(tree) + rest) && v == Denoted(env, tree)
    && (f.failIfExtra ==> Ends(f, rest) || (!f.strictRoot && NextToken(f, rest).kind == ErrorToken))
    && (f.strictRoot ==> tree.List? || tree.Record?)
  }
}
