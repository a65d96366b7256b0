/** FastWriter and BuiltStyledStreamWriter: the two printers, the text each writes, and methods that write it. */
module JsonWriters {
  import opened ByteStrings
  import opened JsonValue
  import opened JsonNumbers
  import opened JsonStrings
  import opened JsonParsing
  import opened JsonTexts

  /** The name of a member. */
  function KeyBytes(k: CZString): Bytes {
    match k
    case Name(b) => b
    case Index(_) => []
  }

  method IntegerText(i: int) returns (s: Bytes)
    requires MIN_INT64 <= i <= MAX_UINT64
    ensures s == DecimalInt(i)
  {
    if i <= MAX_INT64 {
      s := IntValueToString(i);
    } else {
      s := UIntValueToString(i);
    }
  }

  // ---- FastWriter

  datatype FastStyle = FastStyle(
    yamlCompatibilityEnabled: bool,
    dropNullPlaceholders: bool,
    omitEndingLineFeed: bool,
    printDouble: Double -> Bytes)

  function FastText(c: FastStyle, v: Value): Bytes
    decreases Size(v), 0
  {
    match v
    case Null => if c.dropNullPlaceholders then [] else NULL_TEXT
    case Int(i) => DecimalInt(i)
    case UInt(u) => DecimalInt(u)
    case Real(d) => c.printDouble(d)
    case String(s) => Quoted(s)
    case Bool(b) => if b then TRUE_TEXT else FALSE_TEXT
    case Array(m) => [LBRACKET] + FastElements(c, m, 0)
    case Object(m) => [LBRACE] + FastMembers(c, m, 0)
  }

  /** The elements from index `i` on, each but the first after a comma, and the closing bracket. */
  function FastElements(c: FastStyle, m: seq<Entry>, i: nat): Bytes
    decreases SizeOfEntries(m), ArraySize(m) - i
  {
    if i >= ArraySize(m) then [RBRACKET]
    else
      LookupIsSmaller(m, Index(i));
      (if i > 0 then [COMMA] else []) + FastText(c, At(m, i)) + FastElements(c, m, i + 1)
  }

  function FastColon(c: FastStyle): Bytes {
    if c.yamlCompatibilityEnabled then [COLON, SPACE] else [COLON]
  }

  function FastMembers(c: FastStyle, m: seq<Entry>, i: nat): Bytes
    decreases SizeOfEntries(m), |m| - i
  {
    if i >= |m| then [RBRACE]
    else
      LookupIsSmaller(m, m[i].key);
      (if i > 0 then [COMMA] else []) + Quoted(KeyBytes(m[i].key)) + FastColon(c) + FastText(c, Lookup(m, m[i].key)) +
        FastMembers(c, m, i + 1)
  }

  /** write. */
  function FastDocument(c: FastStyle, v: Value): Bytes {
    FastText(c, v) + (if c.omitEndingLineFeed then [] else [LINE_FEED])
  }

  /** Integers fit their fields: what IntegerText needs. */
  predicate IntegersFit(v: Value)
    decreases v
  {
    match v
    case Int(i) => MIN_INT64 <= i <= MAX_INT64
    case UInt(u) => 0 <= u <= MAX_UINT64
    case Array(m) => forall e :: e in m ==> IntegersFit(e.value)
    case Object(m) => forall e :: e in m ==> IntegersFit(e.value)
    case _ => true
  }

  lemma LookupFits(m: seq<Entry>, k: CZString)
    requires forall e :: e in m ==> IntegersFit(e.value)
    ensures IntegersFit(Lookup(m, k))
  {
    var i := LowerBound(m, k);
    if i < |m| && m[i].key == k {
      assert m[i] in m;
    }
  }

  class FastWriter {
    const style: FastStyle
    var document: Bytes

    constructor (style: FastStyle)
      ensures this.style == style && document == []
    {
      this.style := style;
      document := [];
    }

    method Write(root: Value) returns (s: Bytes)
      requires IntegersFit(root)
      modifies this
      ensures s == document == FastDocument(style, root)
    {
      document := [];
      WriteValue(root);
      assert document == FastText(style, root);
      if !style.omitEndingLineFeed {
        document := document + [LINE_FEED];
      } else {
        assert document == FastText(style, root) + [];
      }
      s := document;
    }

    method WriteValue(value: Value)
      requires IntegersFit(value)
      modifies this
      ensures document == old(document) + FastText(style, value)
      decreases Size(value), 0
    {
      match value {
        case Null =>
          if !style.dropNullPlaceholders {
            document := document + NULL_TEXT;
          } else {
            assert document + [] == document;
          }
        case Int(i) =>
          var s := IntegerText(i);
          document := document + s;
        case UInt(u) =>
          var s := IntegerText(u);
          document := document + s;
        case Real(d) =>
          document := document + style.printDouble(d);
        case String(s) =>
          var q := ValueToQuotedString(s);
          document := document + q;
        case Bool(b) =>
          document := document + (if b then TRUE_TEXT else FALSE_TEXT);
        case Array(m) =>
          WriteArray(m);
        case Object(m) =>
          WriteObject(m);
      }
    }

    method WriteArray(m: seq<Entry>)
      requires forall e :: e in m ==> IntegersFit(e.value)
      modifies this
      ensures document == old(document) + ([LBRACKET] + FastElements(style, m, 0))
      decreases SizeOfEntries(m), 1
    {
      hide FastElements, FastText, IntegersFit, Lookup;
      ghost var goal := document + ([LBRACKET] + FastElements(style, m, 0));
      Assoc(document, [LBRACKET], FastElements(style, m, 0));
      document := document + [LBRACKET];
      var size := ArraySize(m);
      var index := 0;
      while index < size
        invariant index <= size
        invariant document + FastElements(style, m, index) == goal
      {
        ghost var before := document;
        if index > 0 {
          document := document + [COMMA];
        }
        LookupIsSmaller(m, Index(index));
        LookupFits(m, Index(index));
        WriteValue(At(m, index));
        FastElementsStep(style, m, index, before);
        index := index + 1;
      }
      FastElementsEnd(style, m);
      document := document + [RBRACKET];
    }

    method WriteObject(m: seq<Entry>)
      requires forall e :: e in m ==> IntegersFit(e.value)
      modifies this
      ensures document == old(document) + ([LBRACE] + FastMembers(style, m, 0))
      decreases SizeOfEntries(m), 2
    {
      hide FastMembers, IntegersFit;
      ghost var goal := document + ([LBRACE] + FastMembers(style, m, 0));
      document := document + [LBRACE];
      var it := 0;
      while it < |m|
        invariant it <= |m|
        invariant document + FastMembers(style, m, it) == goal
      {
        WriteMember(m, it);
        it := it + 1;
      }
      assert FastMembers(style, m, it) == [RBRACE] by { FastMembersEnd(style, m); }
      document := document + [RBRACE];
    }

    /** One turn of that loop. */
    method WriteMember(m: seq<Entry>, it: nat)
      requires it < |m| && forall e :: e in m ==> IntegersFit(e.value)
      modifies this
      ensures document + FastMembers(style, m, it + 1) == old(document) + FastMembers(style, m, it)
      decreases SizeOfEntries(m), 1
    {
      hide FastMembers, IntegersFit, FastText, FastColon;
      ghost var before := document;
      var name := KeyBytes(m[it].key);
      if it > 0 {
        document := document + [COMMA];
      }
      var q := ValueToQuotedString(name);
      document := document + q;
      document := document + FastColon(style);
      LookupIsSmaller(m, m[it].key);
      LookupFits(m, m[it].key);
      WriteValue(Lookup(m, m[it].key));
      FastMembersStep(style, m, it, before);
    }
  }

  lemma FastElementsEnd(c: FastStyle, m: seq<Entry>)
    ensures FastElements(c, m, ArraySize(m)) == [RBRACKET]
  {
  }

  lemma FastElementsStep(c: FastStyle, m: seq<Entry>, i: nat, before: Bytes)
    requires i < ArraySize(m)
    ensures before + FastElements(c, m, i) ==
      before + (if i > 0 then [COMMA] else []) + FastText(c, At(m, i)) + FastElements(c, m, i + 1)
    ensures i == 0 ==> before + [] == before
  {
    hide FastText;
    Regroup(before, if i > 0 then [COMMA] else [], FastText(c, At(m, i)), FastElements(c, m, i + 1));
  }

  lemma FastMembersStep(c: FastStyle, m: seq<Entry>, i: nat, before: Bytes)
    requires i < |m|
    ensures before + FastMembers(c, m, i) ==
      before + (if i > 0 then [COMMA] else []) + Quoted(KeyBytes(m[i].key)) + FastColon(c) +
        FastText(c, Lookup(m, m[i].key)) + FastMembers(c, m, i + 1)
    ensures i == 0 ==> before + [] == before
  {
    hide FastText, Quoted, FastColon, KeyBytes, Lookup;
    var comma := if i > 0 then [COMMA] else [];
    var q, colon := Quoted(KeyBytes(m[i].key)), FastColon(c);
    var v, more := FastText(c, Lookup(m, m[i].key)), FastMembers(c, m, i + 1);
    RegroupRight(comma, q, colon, v, more);
    RegroupRight(before + comma, q, colon, v, more);
    Regroup([], before, comma, q + (colon + (v + more)));
  }

  lemma FastMembersEnd(c: FastStyle, m: seq<Entry>)
    ensures FastMembers(c, m, |m|) == [RBRACE]
  {
  }
}
