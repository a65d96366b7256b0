/** BuiltStyledStreamWriter, on values without comments. */
module JsonStyledWriter {
  import opened ByteStrings
  import opened JsonValue
  import opened JsonNumbers
  import opened JsonStrings
  import opened JsonParsing
  import opened JsonTexts
  import opened JsonWriters

  const RIGHT_MARGIN: int := 74

  /** The writer's constant fields; `all` is the comment style All, which also puts every array on several lines. */
  datatype Style = Style(
    indentation: Bytes,
    all: bool,
    colonSymbol: Bytes,
    nullSymbol: Bytes,
    endingLineFeedSymbol: Bytes,
    printDouble: Double -> Bytes)

  /** A value written without any layout: a scalar or an empty container. */
  predicate Flat(v: Value) {
    match v
    case Array(m) => ArraySize(m) == 0
    case Object(m) => m == []
    case _ => true
  }

  function FlatText(c: Style, v: Value): Bytes
    requires Flat(v)
  {
    match v
    case Null => c.nullSymbol
    case Int(i) => DecimalInt(i)
    case UInt(u) => DecimalInt(u)
    case Real(d) => c.printDouble(d)
    case String(s) => Quoted(s)
    case Bool(b) => if b then TRUE_TEXT else FALSE_TEXT
    case Array(_) => [LBRACKET, RBRACKET]
    case Object(_) => [LBRACE, RBRACE]
  }

  predicate AllFlat(m: seq<Entry>) {
    forall i :: 0 <= i < ArraySize(m) ==> Flat(At(m, i))
  }

  /** The texts of the elements from 0 up to `n`: what the dry run collects. */
  function ChildTexts(c: Style, m: seq<Entry>, n: nat): (texts: seq<Bytes>)
    requires n <= ArraySize(m) && AllFlat(m)
    ensures |texts| == n
    ensures forall i :: 0 <= i < n ==> texts[i] == FlatText(c, At(m, i))
  {
    if n == 0 then [] else ChildTexts(c, m, n - 1) + [FlatText(c, At(m, n - 1))]
  }

  function TotalLength(texts: seq<Bytes>): nat {
    if texts == [] then 0 else TotalLength(texts[..|texts| - 1]) + |texts[|texts| - 1]|
  }

  /** Whether isMultilineArray decides before its dry run; sizes are 32-bit numbers. */
  predicate ObviouslyMultiline(m: seq<Entry>) {
    ArraySize(m) * 3 % 0x1_0000_0000 >= RIGHT_MARGIN || !AllFlat(m)
  }

  predicate IsMultiline(c: Style, m: seq<Entry>) {
    ObviouslyMultiline(m) ||
    (4 + (ArraySize(m) - 1) * 2 + TotalLength(ChildTexts(c, m, ArraySize(m)))) % 0x1_0000_0000 >= RIGHT_MARGIN
  }

  /** The new line and indentation before a piece of text, unless it is already indented. */
  function Lead(c: Style, indent: Bytes, indented: bool): Bytes {
    if indented || c.indentation == [] then [] else [LINE_FEED] + indent
  }

  /** The text of a value, and with it the new line it starts on if it starts on one. */
  function StyledText(c: Style, v: Value, indent: Bytes, indented: bool): Bytes
    decreases Size(v), 0
  {
    if Flat(v) then FlatText(c, v)
    else
      match v
      case Array(m) =>
        if c.all || IsMultiline(c, m) then Lead(c, indent, indented) + ([LBRACKET] + StyledElements(c, m, indent, 0))
        else [LBRACKET] + Padding(c) + SingleLine(c, m, 0)
      case Object(m) => Lead(c, indent, indented) + ([LBRACE] + StyledMembers(c, m, indent, 0))
  }

  /** The elements of an array on several lines, from index `i` on, and the closing bracket. */
  function StyledElements(c: Style, m: seq<Entry>, indent: Bytes, i: nat): Bytes
    requires i < ArraySize(m)
    decreases SizeOfEntries(m), ArraySize(m) - i
  {
    LookupIsSmaller(m, Index(i));
    Lead(c, indent + c.indentation, false) + StyledText(c, At(m, i), indent + c.indentation, true) +
    (if i + 1 == ArraySize(m) then Lead(c, indent, false) + [RBRACKET]
     else [COMMA] + StyledElements(c, m, indent, i + 1))
  }

  function StyledMembers(c: Style, m: seq<Entry>, indent: Bytes, i: nat): Bytes
    requires i < |m|
    decreases SizeOfEntries(m), |m| - i
  {
    LookupIsSmaller(m, m[i].key);
    Lead(c, indent + c.indentation, false) + Quoted(KeyBytes(m[i].key)) + c.colonSymbol +
    StyledText(c, Lookup(m, m[i].key), indent + c.indentation, false) +
    (if i + 1 == |m| then Lead(c, indent, false) + [RBRACE] else [COMMA] + StyledMembers(c, m, indent, i + 1))
  }

  function Padding(c: Style): Bytes {
    if c.indentation == [] then [] else [SPACE]
  }

  /** The elements of an array on one line, from index `i` on, and the closing bracket. */
  function SingleLine(c: Style, m: seq<Entry>, i: nat): Bytes
    requires AllFlat(m) && i <= ArraySize(m)
    decreases ArraySize(m) - i
  {
    if i == ArraySize(m) then Padding(c) + [RBRACKET]
    else (if i > 0 then [COMMA] + Padding(c) else []) + FlatText(c, At(m, i)) + SingleLine(c, m, i + 1)
  }

  function StyledDocument(c: Style, v: Value): Bytes {
    StyledText(c, v, [], true) + c.endingLineFeedSymbol
  }

  /** Whether writing `v` ends with a bracket that writeWithIndent wrote. */
  predicate EndsIndented(c: Style, v: Value) {
    !Flat(v) && (v.Object? || (v.Array? && (c.all || IsMultiline(c, v.entries))))
  }

  class BuiltStyledStreamWriter {
    const style: Style
    var sout: Bytes
    var childValues: seq<Bytes>
    var indentString: Bytes
    var addChildValues: bool
    var indented: bool

    constructor (style: Style)
      ensures this.style == style && Valid() && sout == []
    {
      this.style := style;
      sout, childValues, indentString := [], [], [];
      addChildValues, indented := false, false;
    }

    /** With comment style All no dry run ever takes place, so there never are child values. */
    predicate Valid()
      reads this
    {
      style.all ==> childValues == []
    }

    method Write(root: Value) returns (text: Bytes)
      requires Valid() && IntegersFit(root)
      modifies this
      ensures Valid() && text == sout == StyledDocument(style, root)
    {
      sout := [];
      addChildValues := false;
      indented := true;
      indentString := [];
      WriteValue(root);
      sout := sout + style.endingLineFeedSymbol;
      text := sout;
    }

    method PushValue(value: Bytes)
      requires Valid() && (addChildValues ==> !style.all)
      modifies `sout, `childValues
      ensures Valid()
      ensures if addChildValues then childValues == old(childValues) + [value] && sout == old(sout)
              else sout == old(sout) + value && childValues == old(childValues)
    {
      if addChildValues {
        childValues := childValues + [value];
      } else {
        sout := sout + value;
      }
    }

    method WriteIndent()
      modifies `sout
      ensures sout == old(sout) + Lead(style, indentString, false)
    {
      if style.indentation != [] {
        sout := sout + [LINE_FEED] + indentString;
      }
    }

    method WriteWithIndent(value: Bytes)
      modifies `sout, `indented
      ensures sout == old(sout) + Lead(style, indentString, old(indented)) + value
      ensures !indented
    {
      if !indented {
        WriteIndent();
      }
      sout := sout + value;
      indented := false;
    }

    method Indent()
      modifies `indentString
      ensures indentString == old(indentString) + style.indentation
    {
      indentString := indentString + style.indentation;
    }

    /** The source asserts what this requires. */
    method Unindent()
      requires |indentString| >= |style.indentation|
      modifies `indentString
      ensures indentString == old(indentString[..|indentString| - |style.indentation|])
    {
      indentString := indentString[..|indentString| - |style.indentation|];
    }

    method WriteValue(value: Value)
      requires Valid() && IntegersFit(value)
      requires addChildValues ==> Flat(value) && !style.all
      modifies this
      ensures Valid()
      ensures addChildValues == old(addChildValues) && indentString == old(indentString)
      ensures indented == (old(indented) && !EndsIndented(style, value))
      ensures old(addChildValues) ==> sout == old(sout) && childValues == old(childValues) + [FlatText(style, value)]
      ensures !old(addChildValues) ==>
        sout == old(sout) + StyledText(style, value, indentString, old(indented))
      decreases Size(value), 0
    {
      match value {
        case Null => PushValue(style.nullSymbol);
        case Int(i) =>
          var s := IntegerText(i);
          PushValue(s);
        case UInt(u) =>
          var s := IntegerText(u);
          PushValue(s);
        case Real(d) => PushValue(style.printDouble(d));
        case String(s) =>
          var q := ValueToQuotedString(s);
          PushValue(q);
        case Bool(b) => PushValue(if b then TRUE_TEXT else FALSE_TEXT);
        case Array(m) => WriteArrayValue(m);
        case Object(m) =>
          if m == [] {
            PushValue([LBRACE, RBRACE]);
          } else {
            WriteMembers(m);
          }
      }
    }

    method WriteMembers(m: seq<Entry>)
      requires Valid() && !addChildValues && m != []
      requires forall e :: e in m ==> IntegersFit(e.value)
      modifies this
      ensures Valid() && !addChildValues && indentString == old(indentString) && !indented
      ensures sout == old(sout) +
        (Lead(style, indentString, old(indented)) + ([LBRACE] + StyledMembers(style, m, indentString, 0)))
      decreases SizeOfEntries(m), 2
    {
      hide StyledMembers, Lead, IntegersFit;
      ghost var start, indent, lead := sout, indentString, Lead(style, indentString, indented);
      ghost var goal := start + (lead + ([LBRACE] + StyledMembers(style, m, indent, 0)));
      WriteWithIndent([LBRACE]);
      Regroup(start, lead, [LBRACE], StyledMembers(style, m, indent, 0));
      Indent();
      var it := 0;
      while true
        invariant Valid() && !addChildValues && !indented && indentString == indent + style.indentation
        invariant it < |m|
        invariant sout + StyledMembers(style, m, indent, it) == goal
        decreases |m| - it
      {
        WriteMember(m, it, indent);
        it := it + 1;
        if it == |m| {
          break;
        }
        Regroup([], sout, [COMMA], StyledMembers(style, m, indent, it));
        sout := sout + [COMMA];
      }
      Unindent();
      assert indentString == indent;
      Regroup([], sout, Lead(style, indent, false), [RBRACE]);
      WriteWithIndent([RBRACE]);
    }

    /** One member, without the comma. */
    method WriteMember(m: seq<Entry>, it: nat, ghost indent: Bytes)
      requires Valid() && !addChildValues && it < |m| && !indented && indentString == indent + style.indentation
      requires forall e :: e in m ==> IntegersFit(e.value)
      modifies this
      ensures Valid() && !addChildValues && !indented && indentString == old(indentString)
      ensures sout + MembersAfter(style, m, indent, it) == old(sout) + StyledMembers(style, m, indent, it)
      decreases SizeOfEntries(m), 1
    {
      hide StyledMembers, StyledText, Lead, IntegersFit, MembersAfter, EndsIndented, Flat;
      ghost var before := sout;
      var name := KeyBytes(m[it].key);
      var q := ValueToQuotedString(name);
      WriteWithIndent(q);
      sout := sout + style.colonSymbol;
      LookupIsSmaller(m, m[it].key);
      LookupFits(m, m[it].key);
      WriteValue(Lookup(m, m[it].key));
      StyledMembersStep(style, m, indent, it, before);
    }

    method WriteArrayValue(m: seq<Entry>)
      requires Valid() && (addChildValues ==> ArraySize(m) == 0 && !style.all)
      requires forall e :: e in m ==> IntegersFit(e.value)
      modifies this
      ensures Valid()
      ensures addChildValues == old(addChildValues) && indentString == old(indentString)
      ensures indented == (old(indented) && !EndsIndented(style, Array(m)))
      ensures old(addChildValues) ==> sout == old(sout) && childValues == old(childValues) + [FlatText(style, Array(m))]
      ensures !old(addChildValues) ==>
        sout == old(sout) + StyledText(style, Array(m), indentString, old(indented))
      decreases SizeOfEntries(m), 4
    {
      var size := ArraySize(m);
      if size == 0 {
        PushValue([LBRACKET, RBRACKET]);
        return;
      }
      var isMultiLine := style.all;
      if !isMultiLine {
        isMultiLine := IsMultilineArray(m);
      }
      if isMultiLine {
        WriteLines(m);
      } else {
        WriteSingleLine(m);
      }
    }

    /** An array on several lines.  Child values, where there are any, are those of this array. */
    method WriteLines(m: seq<Entry>)
      requires Valid() && !addChildValues && ArraySize(m) > 0
      requires forall e :: e in m ==> IntegersFit(e.value)
      requires childValues == [] || (AllFlat(m) && childValues == ChildTexts(style, m, ArraySize(m)))
      modifies this
      ensures Valid() && !addChildValues && indentString == old(indentString) && !indented
      ensures sout == old(sout) +
        (Lead(style, indentString, old(indented)) + ([LBRACKET] + StyledElements(style, m, indentString, 0)))
      decreases SizeOfEntries(m), 2
    {
      hide StyledElements, Lead, IntegersFit, ChildTexts, AllFlat;
      ghost var start, indent, lead := sout, indentString, Lead(style, indentString, indented);
      ghost var goal := start + (lead + ([LBRACKET] + StyledElements(style, m, indent, 0)));
      var size := ArraySize(m);
      WriteWithIndent([LBRACKET]);
      Regroup(start, lead, [LBRACKET], StyledElements(style, m, indent, 0));
      Indent();
      var hasChildValue := childValues != [];
      var index := 0;
      while true
        invariant Valid() && !addChildValues && !indented && indentString == indent + style.indentation
        invariant index < size
        invariant hasChildValue ==> AllFlat(m) && childValues == ChildTexts(style, m, size)
        invariant sout + StyledElements(style, m, indent, index) == goal
        decreases size - index
      {
        WriteElement(m, index, hasChildValue, indent);
        index := index + 1;
        if index == size {
          break;
        }
        Regroup([], sout, [COMMA], StyledElements(style, m, indent, index));
        sout := sout + [COMMA];
      }
      Unindent();
      assert indentString == indent;
      Regroup([], sout, Lead(style, indent, false), [RBRACKET]);
      WriteWithIndent([RBRACKET]);
    }

    /** One element on its own line, without the comma. */
    method WriteElement(m: seq<Entry>, index: nat, hasChildValue: bool, ghost indent: Bytes)
      requires Valid() && !addChildValues && index < ArraySize(m)
      requires !indented && indentString == indent + style.indentation
      requires forall e :: e in m ==> IntegersFit(e.value)
      requires hasChildValue ==> AllFlat(m) && childValues == ChildTexts(style, m, ArraySize(m))
      modifies this
      ensures Valid() && !addChildValues && !indented && indentString == old(indentString)
      ensures hasChildValue ==> childValues == old(childValues)
      ensures sout + ElementsAfter(style, m, indent, index) == old(sout) + StyledElements(style, m, indent, index)
      decreases SizeOfEntries(m), 1
    {
      hide StyledElements, StyledText, Lead, IntegersFit, ElementsAfter, EndsIndented, Flat, AllFlat, ChildTexts;
      ghost var before := sout;
      if hasChildValue {
        ChildTextIsStyledText(style, m, index, indentString);
        WriteWithIndent(childValues[index]);
      } else {
        if !indented {
          WriteIndent();
        }
        indented := true;
        LookupIsSmaller(m, Index(index));
        LookupFits(m, Index(index));
        WriteValue(At(m, index));
        indented := false;
      }
      StyledElementsStep(style, m, indent, index, before);
    }

    /** An array on one line; the source asserts that there is one child value for each element. */
    method WriteSingleLine(m: seq<Entry>)
      requires Valid() && !style.all && ArraySize(m) > 0 && AllFlat(m)
      requires childValues == ChildTexts(style, m, ArraySize(m))
      modifies `sout
      ensures sout == old(sout) + ([LBRACKET] + Padding(style) + SingleLine(style, m, 0))
    {
      hide FlatText, AllFlat, ChildTexts, SingleLine, ArraySize;
      ghost var goal := sout + ([LBRACKET] + Padding(style) + SingleLine(style, m, 0));
      OpenSingleLine(style, m, sout);
      var size := ArraySize(m);
      assert |childValues| == size;
      sout := sout + [LBRACKET];
      if style.indentation != [] {
        sout := sout + [SPACE];
      }
      var index := 0;
      while index < size
        invariant index <= size
        invariant sout + SingleLine(style, m, index) == goal
      {
        ghost var before := sout;
        if index > 0 {
          sout := sout + (if style.indentation != [] then [COMMA, SPACE] else [COMMA]);
        }
        sout := sout + childValues[index];
        SingleLineStep(style, m, index, before);
        index := index + 1;
      }
      SingleLineEnd(style, m);
      if style.indentation != [] {
        sout := sout + [SPACE];
      }
      sout := sout + [RBRACKET];
    }

    /** isMultilineArray: its dry run leaves exactly one child value for each element, or none at all. */
    method IsMultilineArray(m: seq<Entry>) returns (isMultiLine: bool)
      requires Valid() && !addChildValues && !style.all && ArraySize(m) > 0
      requires forall e :: e in m ==> IntegersFit(e.value)
      modifies this
      ensures Valid() && !addChildValues && sout == old(sout) && indentString == old(indentString)
      ensures indented == old(indented)
      ensures isMultiLine == IsMultiline(style, m)
      ensures ObviouslyMultiline(m) ==> childValues == []
      ensures !ObviouslyMultiline(m) ==> childValues == ChildTexts(style, m, ArraySize(m))
      decreases SizeOfEntries(m), 3
    {
      hide ChildTexts, TotalLength;
      var size := ArraySize(m);
      isMultiLine := size * 3 % 0x1_0000_0000 >= RIGHT_MARGIN;
      childValues := [];
      var index := 0;
      while index < size && !isMultiLine
        invariant index <= size
        invariant isMultiLine <==>
          size * 3 % 0x1_0000_0000 >= RIGHT_MARGIN || exists i :: 0 <= i < index && !Flat(At(m, i))
      {
        isMultiLine := !Flat(At(m, index));
        index := index + 1;
      }
      if !isMultiLine {
        assert AllFlat(m);
        addChildValues := true;
        var lineLength := DryRun(m);
        addChildValues := false;
        isMultiLine := lineLength >= RIGHT_MARGIN;
      }
    }

    /** Collect the text of every element, and the length a single line would have. */
    method DryRun(m: seq<Entry>) returns (lineLength: nat)
      requires Valid() && addChildValues && !style.all && ArraySize(m) > 0 && AllFlat(m) && childValues == []
      requires forall e :: e in m ==> IntegersFit(e.value)
      modifies this
      ensures Valid() && addChildValues && sout == old(sout) && indentString == old(indentString)
      ensures indented == old(indented)
      ensures childValues == ChildTexts(style, m, ArraySize(m))
      ensures lineLength == (4 + (ArraySize(m) - 1) * 2 + TotalLength(childValues)) % 0x1_0000_0000
      decreases SizeOfEntries(m), 1
    {
      hide FlatText, Flat, IntegersFit, AllFlat, ArraySize, ChildTexts, TotalLength, StyledText, EndsIndented;
      TextsStep(style, m, 0);
      var size := ArraySize(m);
      lineLength := (4 + (size - 1) * 2) % 0x1_0000_0000;
      var index := 0;
      while index < size
        invariant Valid() && addChildValues && sout == old(sout) && indentString == old(indentString)
        invariant indented == old(indented)
        invariant index <= size
        invariant childValues == ChildTexts(style, m, index)
        invariant lineLength == (4 + (size - 1) * 2 + TotalLength(childValues)) % 0x1_0000_0000
      {
        ElementIsFlat(m, index);
        LookupIsSmaller(m, Index(index));
        LookupFits(m, Index(index));
        ghost var before := childValues;
        WriteValue(At(m, index));
        TextsStep(style, m, index);
        AddMod(4 + (size - 1) * 2 + TotalLength(before), |childValues[index]|);
        lineLength := (lineLength + |childValues[index]| % 0x1_0000_0000) % 0x1_0000_0000;
        index := index + 1;
      }
    }

    lemma AddMod(x: nat, y: nat)
      ensures (x % 0x1_0000_0000 + y % 0x1_0000_0000) % 0x1_0000_0000 == (x + y) % 0x1_0000_0000
    {
    }

    lemma ElementIsFlat(m: seq<Entry>, i: nat)
      requires AllFlat(m) && i < ArraySize(m)
      ensures Flat(At(m, i)) && !EndsIndented(style, At(m, i))
    {
    }
  }

  lemma ChildTextIsStyledText(c: Style, m: seq<Entry>, i: nat, indent: Bytes)
    requires AllFlat(m) && i < ArraySize(m)
    ensures ChildTexts(c, m, ArraySize(m))[i] == StyledText(c, At(m, i), indent, true)
  {
    hide FlatText;
  }

  lemma TextsStep(c: Style, m: seq<Entry>, n: nat)
    requires n < ArraySize(m) && AllFlat(m)
    ensures ChildTexts(c, m, 0) == [] && TotalLength([]) == 0
    ensures ChildTexts(c, m, n + 1) == ChildTexts(c, m, n) + [FlatText(c, At(m, n))]
    ensures TotalLength(ChildTexts(c, m, n + 1)) == TotalLength(ChildTexts(c, m, n)) + |FlatText(c, At(m, n))|
  {
    hide FlatText, AllFlat;
    var texts := ChildTexts(c, m, n + 1);
    assert texts[..|texts| - 1] == ChildTexts(c, m, n);
  }

  /** What follows an element's text: the end of the array, or a comma and the other elements. */
  function ElementsAfter(c: Style, m: seq<Entry>, indent: Bytes, i: nat): Bytes
    requires i < ArraySize(m)
  {
    if i + 1 == ArraySize(m) then Lead(c, indent, false) + [RBRACKET] else [COMMA] + StyledElements(c, m, indent, i + 1)
  }

  function MembersAfter(c: Style, m: seq<Entry>, indent: Bytes, i: nat): Bytes
    requires i < |m|
  {
    if i + 1 == |m| then Lead(c, indent, false) + [RBRACE] else [COMMA] + StyledMembers(c, m, indent, i + 1)
  }

  lemma StyledElementsStep(c: Style, m: seq<Entry>, indent: Bytes, i: nat, before: Bytes)
    requires i < ArraySize(m)
    ensures before + StyledElements(c, m, indent, i) ==
      before + Lead(c, indent + c.indentation, false) + StyledText(c, At(m, i), indent + c.indentation, true) +
      ElementsAfter(c, m, indent, i)
  {
    hide StyledText, Lead;
    Regroup(before, Lead(c, indent + c.indentation, false), StyledText(c, At(m, i), indent + c.indentation, true),
      ElementsAfter(c, m, indent, i));
  }

  lemma StyledMembersStep(c: Style, m: seq<Entry>, indent: Bytes, i: nat, before: Bytes)
    requires i < |m|
    ensures before + StyledMembers(c, m, indent, i) ==
      before + Lead(c, indent + c.indentation, false) + Quoted(KeyBytes(m[i].key)) + c.colonSymbol +
      StyledText(c, Lookup(m, m[i].key), indent + c.indentation, false) + MembersAfter(c, m, indent, i)
  {
    hide StyledText, Lead, Quoted, KeyBytes;
    var lead, q := Lead(c, indent + c.indentation, false), Quoted(KeyBytes(m[i].key));
    var text := StyledText(c, Lookup(m, m[i].key), indent + c.indentation, false);
    var more := MembersAfter(c, m, indent, i);
    RegroupRight(lead, q, c.colonSymbol, text, more);
    RegroupRight(before + lead, q, c.colonSymbol, text, more);
    Regroup([], before, lead, q + (c.colonSymbol + (text + more)));
    assert [] + before == before;
  }

  lemma OpenSingleLine(c: Style, m: seq<Entry>, before: Bytes)
    requires AllFlat(m)
    ensures before + ([LBRACKET] + Padding(c) + SingleLine(c, m, 0)) ==
      (if c.indentation != [] then before + [LBRACKET] + [SPACE] else before + [LBRACKET]) + SingleLine(c, m, 0)
  {
    hide SingleLine;
    Regroup(before, [LBRACKET], Padding(c), SingleLine(c, m, 0));
    RegroupRight([], [], [LBRACKET], Padding(c), SingleLine(c, m, 0));
    EmptyIsNeutral(before + [LBRACKET]);
  }

  lemma SingleLineStep(c: Style, m: seq<Entry>, i: nat, before: Bytes)
    requires AllFlat(m) && i < ArraySize(m)
    ensures before + SingleLine(c, m, i) ==
      before + (if i > 0 then [COMMA] + Padding(c) else []) + FlatText(c, At(m, i)) + SingleLine(c, m, i + 1)
    ensures i == 0 ==> before + [] == before
  {
    hide FlatText, Padding;
    Regroup(before, if i > 0 then [COMMA] + Padding(c) else [], FlatText(c, At(m, i)), SingleLine(c, m, i + 1));
  }

  lemma SingleLineEnd(c: Style, m: seq<Entry>)
    requires AllFlat(m)
    ensures SingleLine(c, m, ArraySize(m)) == Padding(c) + [RBRACKET]
  {
  }
}
