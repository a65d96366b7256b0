/** Printing and parsing: what the two writers write is a JSON text for the value, so the reader reads it back. */
module JsonRoundTrip {
  import opened ByteStrings
  import opened Utf8
  import opened JsonValue
  import opened JsonNumbers
  import opened JsonErrors
  import opened JsonStrings
  import opened JsonParsing
  import opened JsonTexts
  import opened JsonWriters
  import opened JsonStyledWriter

  // ---- which values, and what becomes of them

  /** All strings and member names are well-formed UTF-8. */
  predicate Textual(v: Value)
    decreases v
  {
    match v
    case String(s) => WellFormedUtf8(s)
    case Array(m) => forall e :: e in m ==> Textual(e.value)
    case Object(m) => forall e :: e in m ==> WellFormedUtf8(KeyBytes(e.key)) && Textual(e.value)
    case _ => true
  }

  predicate Presentable(v: Value) {
    WellFormed(v) && RealFree(v) && Textual(v)
  }

  /** The most values on any path from the root to a leaf. */
  function Depth(v: Value): (d: nat)
    ensures d > 0
    decreases v
  {
    match v
    case Array(m) => 1 + DepthOfEntries(m)
    case Object(m) => 1 + DepthOfEntries(m)
    case _ => 1
  }

  /** An array always has a place for an element as deep as null. */
  function DepthOfEntries(m: seq<Entry>): nat
    decreases m
  {
    if m == [] then 0
    else
      assert m[0].value < m[0];
      var d, e := Depth(m[0].value), DepthOfEntries(m[1..]);
      if d > e then d else e
  }

  lemma {:induction false} DepthOfEntriesWithin(m: seq<Entry>, room: nat)
    ensures DepthOfEntries(m) <= room <==> forall e :: e in m ==> Depth(e.value) <= room
  {
    if m != [] {
      assert m[0].value < m[0];
      DepthOfEntriesWithin(m[1..], room);
      assert m == [m[0]] + m[1..];
    }
  }

  /** No array has more elements than there are non-negative ints to number them. */
  predicate ShortArrays(v: Value)
    decreases v
  {
    match v
    case Array(m) => ArraySize(m) <= MAX_INT32 + 1 && forall e :: e in m ==> ShortArrays(e.value)
    case Object(m) => forall e :: e in m ==> ShortArrays(e.value)
    case _ => true
  }

  predicate Within(v: Value, room: int) {
    Depth(v) <= room && ShortArrays(v)
  }

  lemma LookupWithin(m: seq<Entry>, k: CZString, room: int)
    requires m != [] && forall e :: e in m ==> Within(e.value, room)
    ensures Within(Lookup(m, k), room)
  {
    var i := LowerBound(m, k);
    assert m[0] in m;
    if i < |m| && m[i].key == k {
      assert m[i] in m;
    }
  }

  /** A container is within its limits exactly if what it shows at each key is within one value less. */
  lemma ArrayWithin(m: seq<Entry>, room: nat)
    requires ArrayMap(m)
    ensures Within(Array(m), room + 1) <==>
      ArraySize(m) <= MAX_INT32 + 1 && forall i: nat :: i < ArraySize(m) ==> Within(At(m, i), room)
  {
    hide Lookup;
    DepthOfEntriesWithin(m, room);
    if forall e :: e in m ==> Within(e.value, room) {
      forall i: nat | i < ArraySize(m)
        ensures Within(At(m, i), room)
      {
        LookupWithin(m, Index(i), room);
      }
    } else {
      var e :| e in m && !Within(e.value, room);
      var j :| 0 <= j < |m| && m[j] == e;
      LookupEntry(m, j);
      IndexBelowSize(m, j);
      assert !Within(At(m, m[j].key.index), room);
    }
  }

  lemma IndexBelowSize(m: seq<Entry>, j: nat)
    requires ArrayMap(m) && j < |m|
    ensures m[j].key.index < ArraySize(m)
  {
    if j < |m| - 1 {
      assert KeyLess(m[j].key, m[|m| - 1].key);
    }
  }

  lemma ObjectWithin(m: seq<Entry>, room: nat)
    requires Sorted(m)
    ensures Within(Object(m), room + 1) <==> forall i: nat :: i < |m| ==> Within(Lookup(m, m[i].key), room)
  {
    hide Lookup;
    DepthOfEntriesWithin(m, room);
    forall i: nat | i < |m|
      ensures Lookup(m, m[i].key) == m[i].value
    {
      LookupEntry(m, i);
    }
    assert (forall e :: e in m ==> Within(e.value, room)) <==> forall i: nat :: i < |m| ==> Within(m[i].value, room);
  }

  lemma LookupIsPresentable(m: seq<Entry>, k: CZString)
    requires forall e :: e in m ==> Presentable(e.value)
    ensures Presentable(Lookup(m, k))
  {
    var i := LowerBound(m, k);
    if i < |m| && m[i].key == k {
      assert m[i] in m;
    }
  }

  /** The value a text of `v` reads back as: integers get the tag the reader chooses, and holes become nulls. */
  function Reread(v: Value): Value
    decreases Size(v), 0
  {
    match v
    case Int(i) => ReadBack(i)
    case UInt(u) => ReadBack(u)
    case Array(m) => Array(RereadElements(m, 0))
    case Object(m) => Object(RereadMembers(m, 0))
    case _ => v
  }

  function RereadElements(m: seq<Entry>, i: nat): (es: seq<Entry>)
    ensures i <= ArraySize(m) ==> |es| == ArraySize(m) - i
    ensures forall j :: 0 <= j < |es| ==> es[j].key == Index(i + j)
    decreases SizeOfEntries(m), ArraySize(m) - i
  {
    if i >= ArraySize(m) then []
    else
      LookupIsSmaller(m, Index(i));
      [Entry(Index(i), Reread(At(m, i)))] + RereadElements(m, i + 1)
  }

  function RereadMembers(m: seq<Entry>, i: nat): (es: seq<Entry>)
    ensures i <= |m| ==> |es| == |m| - i
    decreases SizeOfEntries(m), |m| - i
  {
    if i >= |m| then []
    else
      LookupIsSmaller(m, m[i].key);
      [Entry(m[i].key, Reread(Lookup(m, m[i].key)))] + RereadMembers(m, i + 1)
  }

  // ---- trees that render a value

  function NumberOf(i: int): Number {
    Number(i < 0, Decimal(if i < 0 then -i else i), None, None)
  }

  /** `node` spells `v`, whatever whitespace it has. */
  ghost predicate Renders(node: Node, v: Value)
    decreases node
  {
    match v
    case Null => node == NullNode
    case Int(i) => node == NumberNode(NumberOf(i))
    case UInt(u) => node == NumberNode(NumberOf(u))
    case Real(_) => false
    case String(s) => node == StringNode(CharsOf(s))
    case Bool(b) => node == BoolNode(b)
    case Array(m) =>
      && node.ArrayNode? && AllSpaces(node.space) && |node.items| == ArraySize(m)
      && forall i :: 0 <= i < |node.items| ==> RendersItem(node.items[i], At(m, i))
    case Object(m) =>
      && node.ObjectNode? && AllSpaces(node.space) && |node.members| == |m|
      && forall i :: 0 <= i < |node.members| ==> RendersMember(node.members[i], m, m[i].key)
  }

  ghost predicate RendersItem(item: Item, v: Value)
    decreases item
  {
    AllSpaces(item.before) && AllSpaces(item.after) && Renders(item.node, v)
  }

  ghost predicate RendersMember(x: Member, m: seq<Entry>, k: CZString)
    decreases x
  {
    && AllSpaces(x.before) && x.name == CharsOf(KeyBytes(k)) && AllSpaces(x.after)
    && RendersItem(x.item, Lookup(m, k))
  }

  lemma NumberSpelling(env: Settings, i: int)
    requires MIN_INT64 <= i <= MAX_UINT64
    ensures ValidNumber(NumberOf(i)) && SpellNumber(NumberOf(i)) == DecimalInt(i)
    ensures NumberValue(env, DecimalInt(i)) == Some(ReadBack(i))
  {
    var d := Decimal(if i < 0 then -i else i);
    assert SpellNumber(NumberOf(i)) == (if i < 0 then [MINUS] else []) + d + [] + [];
    assert [] + d == d && d + [] == d && [MINUS] + d + [] + [] == [MINUS] + d;
    PrintedIntegersReadBack(i);
  }

  lemma StringSpelling(s: Bytes)
    requires WellFormedUtf8(s)
    ensures ValidString(CharsOf(s)) && Paired(CharsOf(s)) && Meaning(CharsOf(s)) == s
    ensures SpellString(CharsOf(s)) == Quoted(s)
  {
    CharsOfSpell(s);
    WellFormedIsKept(s);
  }

  /** A rendering is a valid text, and denotes the reread value. */
  lemma {:induction false} RenderingDenotes(env: Settings, node: Node, v: Value)
    requires Presentable(v) && Renders(node, v)
    ensures Valid(node) && Denotation(env, node) == Reread(v)
    decreases node
  {
    hide Meaning, CharsOf, NumberOf, SpellNumber, NumberValue, ValidNumber, ValidChars, LonesApart, WellFormedUtf8;
    hide Quoted, StringValue;
    match v {
      case Int(i) => NumberSpelling(env, i);
      case UInt(u) => NumberSpelling(env, u);
      case String(s) =>
        StringSpelling(s);
        ShortStringsAreKept(s);
      case Array(m) => ArrayRenderingDenotes(env, node, m);
      case Object(m) => ObjectRenderingDenotes(env, node, m);
      case _ =>
    }
  }

  lemma {:induction false} ArrayRenderingDenotes(env: Settings, node: Node, m: seq<Entry>)
    requires Presentable(Array(m)) && Renders(node, Array(m))
    ensures Valid(node) && Denotation(env, node) == Reread(Array(m))
    decreases node, 0
  {
    hide Renders, Presentable, Denotation, Reread, Valid;
    RenderedArray(node, m);
    var items := node.items;
    EntriesPresentable(Array(m));
    forall i | 0 <= i < |items|
      ensures ValidItem(items[i]) && ItemDenotation(env, items[i]) == Reread(At(m, i))
    {
      LookupIsPresentable(m, Index(i));
      assert items[i].node < items[i];
      ItemRendering(items[i], At(m, i));
      RenderingDenotes(env, items[i].node, At(m, i));
    }
    ItemsDenote(env, items, m, 0);
    assert items[0..] == items;
    ArrayOfItems(env, node, m);
  }

  lemma RenderedArray(node: Node, m: seq<Entry>)
    requires Renders(node, Array(m))
    ensures node.ArrayNode? && AllSpaces(node.space) && |node.items| == ArraySize(m)
    ensures forall i :: 0 <= i < |node.items| ==> RendersItem(node.items[i], At(m, i))
  {
  }

  lemma ItemRendering(item: Item, v: Value)
    requires RendersItem(item, v)
    ensures AllSpaces(item.before) && AllSpaces(item.after) && Renders(item.node, v)
  {
  }

  lemma EntriesPresentable(v: Value)
    requires Presentable(v) && (v.Array? || v.Object?)
    ensures forall e :: e in v.entries ==> Presentable(e.value)
    ensures v.Array? ==> ArrayMap(v.entries)
  {
  }

  lemma ArrayOfItems(env: Settings, node: Node, m: seq<Entry>)
    requires node.ArrayNode? && AllSpaces(node.space)
    requires forall i :: 0 <= i < |node.items| ==> ValidItem(node.items[i])
    requires ItemEntries(env, node.items, 0) == RereadElements(m, 0)
    ensures Valid(node) && Denotation(env, node) == Reread(Array(m))
  {
    hide ItemEntries, RereadElements;
  }

  lemma {:induction false} ItemsDenote(env: Settings, items: seq<Item>, m: seq<Entry>, i: nat)
    requires |items| == ArraySize(m) && i <= |items|
    requires forall j :: 0 <= j < |items| ==> ValidItem(items[j]) && ItemDenotation(env, items[j]) == Reread(At(m, j))
    ensures ItemEntries(env, items[i..], i) == RereadElements(m, i)
    decreases |items| - i
  {
    hide ItemDenotation, Reread, ValidItem;
    if i < |items| {
      ItemsDenote(env, items, m, i + 1);
      assert items[i..][1..] == items[i + 1..];
    }
  }

  lemma {:induction false} ObjectRenderingDenotes(env: Settings, node: Node, m: seq<Entry>)
    requires Presentable(Object(m)) && Renders(node, Object(m))
    ensures Valid(node) && Denotation(env, node) == Reread(Object(m))
    decreases node, 0
  {
    hide Renders, Presentable, Denotation, Reread, Valid, ValidMember, MemberDenotation, CharsOf, Meaning, Paired;
    RenderedObject(node, m);
    var members := node.members;
    EntriesPresentable(Object(m));
    ObjectKeys(m);
    forall i | 0 <= i < |members|
      ensures MemberReads(env, members[i], m, i)
    {
      RenderedMemberReads(env, members[i], m, i);
    }
    MembersDenote(env, members, m, 0);
    assert members[0..] == members && RereadMembers(m, 0)[..0] == [];
    ObjectOfMembers(env, node, m);
  }

  lemma {:induction false} RenderedMemberReads(env: Settings, x: Member, m: seq<Entry>, i: nat)
    requires Presentable(Object(m)) && i < |m| && RendersMember(x, m, m[i].key)
    ensures MemberReads(env, x, m, i)
    ensures Presentable(Lookup(m, m[i].key)) && Renders(x.item.node, Lookup(m, m[i].key))
    decreases x
  {
    hide Renders, Presentable, Denotation, Reread, Valid, ValidMember, MemberDenotation, CharsOf, Meaning, Paired;
    hide Lookup;
    EntriesPresentable(Object(m));
    ObjectKeys(m);
    LookupIsPresentable(m, m[i].key);
    MemberRendering(x, m, m[i].key);
    assert x.item.node < x.item < x;
    RenderingDenotes(env, x.item.node, Lookup(m, m[i].key));
    StringSpelling(m[i].key.bytes);
    ReadMember(env, x, m, i);
  }

  /** A member that is valid and yields the entry the reread object has at `i`. */
  ghost predicate MemberReads(env: Settings, x: Member, m: seq<Entry>, i: nat)
    requires i < |m|
  {
    && ValidMember(x) && Paired(x.name)
    && m[i].key == Name(Meaning(x.name)) && |Meaning(x.name)| < KEY_LIMIT
    && MemberDenotation(env, x) == Reread(Lookup(m, m[i].key))
  }

  lemma ReadMember(env: Settings, x: Member, m: seq<Entry>, i: nat)
    requires i < |m| && m[i].key.Name? && |m[i].key.bytes| < KEY_LIMIT
    requires AllSpaces(x.before) && AllSpaces(x.after) && AllSpaces(x.item.before) && AllSpaces(x.item.after)
    requires ValidString(x.name) && Paired(x.name) && Meaning(x.name) == m[i].key.bytes
    requires Valid(x.item.node)
    requires Denotation(env, x.item.node) == Reread(Lookup(m, m[i].key))
    ensures MemberReads(env, x, m, i)
  {
    hide Meaning, ValidChars, LonesApart, AllSpaces, Lookup, Paired;
    assert m[i].key == Name(m[i].key.bytes);
    assert ValidItem(x.item) && ValidMember(x);
    assert ItemDenotation(env, x.item) == Denotation(env, x.item.node);
  }

  lemma RenderedObject(node: Node, m: seq<Entry>)
    requires Renders(node, Object(m))
    ensures node.ObjectNode? && AllSpaces(node.space) && |node.members| == |m|
    ensures forall i :: 0 <= i < |node.members| ==> RendersMember(node.members[i], m, m[i].key)
  {
  }

  lemma MemberRendering(x: Member, m: seq<Entry>, k: CZString)
    requires RendersMember(x, m, k)
    ensures AllSpaces(x.before) && x.name == CharsOf(KeyBytes(k)) && AllSpaces(x.after)
    ensures AllSpaces(x.item.before) && AllSpaces(x.item.after) && Renders(x.item.node, Lookup(m, k))
  {
  }

  lemma ObjectKeys(m: seq<Entry>)
    requires Presentable(Object(m))
    ensures Sorted(m)
    ensures forall i :: 0 <= i < |m| ==>
      m[i].key.Name? && |m[i].key.bytes| < KEY_LIMIT && WellFormedUtf8(m[i].key.bytes)
  {
    forall i | 0 <= i < |m|
      ensures m[i].key.Name? && WellFormedUtf8(m[i].key.bytes)
    {
      assert m[i] in m;
    }
  }

  lemma ObjectOfMembers(env: Settings, node: Node, m: seq<Entry>)
    requires node.ObjectNode? && AllSpaces(node.space)
    requires forall i :: 0 <= i < |node.members| ==> ValidMember(node.members[i])
    requires MemberEntries(env, node.members, []) == RereadMembers(m, 0)
    ensures Valid(node) && Denotation(env, node) == Reread(Object(m))
  {
    hide MemberEntries, RereadMembers, ValidMember;
  }

  /** Each member's name is above all before it, so it is appended. */
  lemma MemberAppended(env: Settings, x: Member, m: seq<Entry>, i: nat)
    requires i < |m| && Sorted(m) && MemberReads(env, x, m, i)
    ensures var all := RereadMembers(m, 0);
      && Put(all[..i], Name(Meaning(x.name)), MemberDenotation(env, x)) == all[..i + 1]
      && !HasKey(all[..i], Name(Meaning(x.name)))
  {
    hide ValidMember, MemberDenotation, Meaning, Reread, KeyLess, Put, Lookup, Paired;
    var all := RereadMembers(m, 0);
    RereadMembersAt(m, 0, i);
    var before := all[..i];
    forall j | 0 <= j < |before|
      ensures KeyLess(before[j].key, m[i].key) && before[j].key != m[i].key
    {
      RereadMembersAt(m, 0, j);
      KeyLessTrichotomy(before[j].key, m[i].key);
    }
    PutAppends(before, m[i].key, MemberDenotation(env, x));
    assert all[..i + 1] == before + [all[i]];
  }

  lemma {:induction false} MembersDenote(env: Settings, members: seq<Member>, m: seq<Entry>, i: nat)
    requires |members| == |m| && i <= |m| && Sorted(m)
    requires forall j :: 0 <= j < |m| ==> MemberReads(env, members[j], m, j)
    ensures forall x :: x in members[i..] ==> ValidMember(x)
    ensures MemberEntries(env, members[i..], RereadMembers(m, 0)[..i]) == RereadMembers(m, 0)
    decreases |m| - i
  {
    hide ValidMember, MemberDenotation, Meaning, Reread, KeyLess, Put, Lookup, RereadMembers, Sorted, Paired;
    var all := RereadMembers(m, 0);
    if i < |m| {
      assert members[i..][1..] == members[i + 1..] && members[i..][0] == members[i];
      MembersDenote(env, members, m, i + 1);
      MemberAppended(env, members[i], m, i);
    } else {
      assert all[..i] == all;
    }
  }

  lemma {:induction false} RereadMembersAt(m: seq<Entry>, i: nat, j: nat)
    requires i <= j < |m|
    ensures RereadMembers(m, i)[j - i] == Entry(m[j].key, Reread(Lookup(m, m[j].key)))
    decreases j - i
  {
    hide Reread;
    if i < j {
      RereadMembersAt(m, i + 1, j);
    }
  }

  // ---- exactly when a rendering is read

  /** What becomes of a rendering of `v` where `room` more values may be nested. */
  function FateWithin(v: Value, room: int): Fate {
    if Within(v, room) then Reads else Throws
  }

  /** A rendering is read exactly if its nesting is within the stack limit and its arrays can be numbered; otherwise the
      reader throws. */
  lemma {:induction false} RenderingFate(env: Settings, node: Node, v: Value, depth: nat)
    requires Presentable(v) && Renders(node, v) && Valid(node)
    requires depth <= MAX_INT32 && env.features.stackLimit < MAX_INT32
    ensures FateOf(env, node, depth) == FateWithin(v, env.features.stackLimit + 1 - depth)
    decreases node
  {
    hide Meaning, CharsOf, NumberOf, SpellNumber, NumberValue, ValidNumber, ValidString, WellFormedUtf8, Quoted;
    hide Paired;
    hide StringValue, ShortArrays, DepthOfEntries, FateOfItems, FateOfMembers, Renders, Presentable;
    assert SizeToInt(depth) == depth;
    if depth <= env.features.stackLimit {
      match v {
        case Array(m) => ArrayRenderingFate(env, node, m, depth);
        case Object(m) => ObjectRenderingFate(env, node, m, depth);
        case _ => ScalarRenderingFate(env, node, v, depth);
      }
    }
  }

  lemma ScalarRenderingFate(env: Settings, node: Node, v: Value, depth: nat)
    requires Presentable(v) && Renders(node, v) && Valid(node) && !v.Array? && !v.Object?
    requires depth <= env.features.stackLimit < MAX_INT32
    ensures FateOf(env, node, depth) == Reads && Within(v, env.features.stackLimit + 1 - depth)
  {
    hide Meaning, CharsOf, NumberOf, SpellNumber, NumberValue, ValidNumber, ValidString, WellFormedUtf8, Quoted;
    hide Paired;
    hide StringValue;
    assert SizeToInt(depth) == depth;
    match v {
      case Int(i) => NumberSpelling(env, i);
      case UInt(u) => NumberSpelling(env, u);
      case String(s) =>
        StringSpelling(s);
        ShortStringsAreKept(s);
      case _ =>
    }
  }

  /** An item whose node has the fate of `v`, and a member likewise. */
  ghost predicate ItemFated(env: Settings, item: Item, v: Value, depth: nat, room: int) {
    ValidItem(item) && FateOf(env, item.node, depth) == FateWithin(v, room)
  }

  ghost predicate MemberFated(env: Settings, x: Member, v: Value, depth: nat, room: int) {
    ValidMember(x) && ItemFated(env, x.item, v, depth, room)
  }

  lemma {:induction false} ArrayRenderingFate(env: Settings, node: Node, m: seq<Entry>, depth: nat)
    requires Presentable(Array(m)) && Renders(node, Array(m)) && Valid(node)
    requires depth <= env.features.stackLimit < MAX_INT32
    ensures FateOf(env, node, depth) == FateWithin(Array(m), env.features.stackLimit + 1 - depth)
    decreases node, 0
  {
    hide Renders, Presentable, FateOfItems, Within, Text, AllSpaces, Valid, ValidItem, FateOf, Lookup, RendersItem;
    RenderedArray(node, m);
    ItemsOfArray(node);
    FateOfArray(env, node, depth);
    var room, items := env.features.stackLimit - depth, node.items;
    EntriesPresentable(Array(m));
    forall i | 0 <= i < |items|
      ensures ItemFated(env, items[i], At(m, i), depth + 1, room)
    {
      LookupIsPresentable(m, Index(i));
      assert items[i] in items && items[i].node < items[i];
      ItemRendering(items[i], At(m, i));
      RenderingFate(env, items[i].node, At(m, i), depth + 1);
    }
    ItemsFate(env, items, m, depth + 1, 0, room);
    assert items[0..] == items;
    ArrayWithin(m, room);
  }

  lemma ItemsOfArray(node: Node)
    requires Valid(node) && node.ArrayNode?
    ensures forall i :: 0 <= i < |node.items| ==> ValidItem(node.items[i]) && Valid(node.items[i].node)
    ensures forall i :: i in node.items ==> ValidItem(i)
  {
  }

  lemma FateOfArray(env: Settings, node: Node, depth: nat)
    requires Valid(node) && node.ArrayNode? && depth <= env.features.stackLimit < MAX_INT32
    ensures forall i :: i in node.items ==> ValidItem(i)
    ensures FateOf(env, node, depth) == FateOfItems(env, node.items, depth + 1, 0)
  {
    assert SizeToInt(depth) == depth;
  }

  lemma {:induction false} ItemsFate(env: Settings, items: seq<Item>, m: seq<Entry>, depth: nat, i: nat, room: nat)
    requires |items| == ArraySize(m) && i <= |items| && i <= MAX_INT32 + 1
    requires forall j :: 0 <= j < |items| ==> ItemFated(env, items[j], At(m, j), depth, room)
    ensures forall x :: x in items[i..] ==> ValidItem(x)
    ensures FateOfItems(env, items[i..], depth, i) ==
      if |items| <= MAX_INT32 + 1 && forall j: nat :: i <= j < |items| ==> Within(At(m, j), room) then Reads else Throws
    decreases |items| - i
  {
    hide FateOf, ValidItem, Within, ArraySize, Lookup;
    if i < |items| {
      assert ItemFated(env, items[i], At(m, i), depth, room);
      assert items[i..][0] == items[i] && items[i..][1..] == items[i + 1..];
      if i <= MAX_INT32 {
        ItemsFate(env, items, m, depth, i + 1, room);
        assert (forall j: nat :: i <= j < |items| ==> Within(At(m, j), room)) <==>
          Within(At(m, i), room) && forall j: nat :: i + 1 <= j < |items| ==> Within(At(m, j), room);
      }
    }
  }

  lemma {:induction false} ObjectRenderingFate(env: Settings, node: Node, m: seq<Entry>, depth: nat)
    requires Presentable(Object(m)) && Renders(node, Object(m)) && Valid(node)
    requires depth <= env.features.stackLimit < MAX_INT32
    ensures FateOf(env, node, depth) == FateWithin(Object(m), env.features.stackLimit + 1 - depth)
    decreases node, 0
  {
    hide Renders, Presentable, FateOfMembers, Within, Text, AllSpaces, MemberReads, RendersMember, ValidMember;
    hide Lookup;
    RenderedObject(node, m);
    var room, members := env.features.stackLimit - depth, node.members;
    forall i | 0 <= i < |members|
      ensures MemberReads(env, members[i], m, i)
      ensures MemberFated(env, members[i], Lookup(m, m[i].key), depth + 1, room)
    {
      var x := members[i];
      RenderedMemberReads(env, x, m, i);
      assert x in members && x.item.node < x.item < x;
      ItemsOfMember(x);
      RenderingFate(env, x.item.node, Lookup(m, m[i].key), depth + 1);
    }
    ObjectKeys(m);
    MembersFate(env, members, m, depth + 1, 0, room);
    assert members[0..] == members && RereadMembers(m, 0)[..0] == [];
    ObjectWithin(m, room);
    assert SizeToInt(depth) == depth;
  }

  lemma ItemsOfMember(x: Member)
    requires ValidMember(x)
    ensures ValidItem(x.item)
  {
  }

  lemma {:induction false} MembersFate(env: Settings, members: seq<Member>, m: seq<Entry>, depth: nat, i: nat,
                                       room: nat)
    requires |members| == |m| && i <= |m| && Sorted(m)
    requires forall j :: 0 <= j < |m| ==> MemberReads(env, members[j], m, j)
    requires forall j :: 0 <= j < |m| ==> MemberFated(env, members[j], Lookup(m, m[j].key), depth, room)
    ensures forall x :: x in members[i..] ==> ValidMember(x)
    ensures FateOfMembers(env, members[i..], depth, RereadMembers(m, 0)[..i]) ==
      if forall j: nat :: i <= j < |m| ==> Within(Lookup(m, m[j].key), room) then Reads else Throws
    decreases |m| - i
  {
    hide FateOf, ValidMember, MemberDenotation, Meaning, Reread, KeyLess, Put, Lookup, RereadMembers, Sorted, Paired;
    hide Within, HasKey;
    if i < |m| {
      assert members[i..][1..] == members[i + 1..] && members[i..][0] == members[i];
      assert MemberFated(env, members[i], Lookup(m, m[i].key), depth, room);
      MembersFate(env, members, m, depth, i + 1, room);
      MemberAppended(env, members[i], m, i);
      assert (forall j: nat :: i <= j < |m| ==> Within(Lookup(m, m[j].key), room)) <==>
        Within(Lookup(m, m[i].key), room) && forall j: nat :: i + 1 <= j < |m| ==> Within(Lookup(m, m[j].key), room);
    }
  }

  // ---- FastWriter

  /** The tree of what FastWriter writes. */
  function FastNode(c: FastStyle, v: Value): Node
    decreases Size(v), 0
  {
    match v
    case Null => NullNode
    case Int(i) => NumberNode(NumberOf(i))
    case UInt(u) => NumberNode(NumberOf(u))
    case Real(_) => NullNode
    case String(s) => StringNode(CharsOf(s))
    case Bool(b) => BoolNode(b)
    case Array(m) => ArrayNode([], FastItems(c, m, 0))
    case Object(m) => ObjectNode([], FastMemberNodes(c, m, 0))
  }

  function FastItem(c: FastStyle, v: Value): Item
    decreases Size(v), 1
  {
    Item([], FastNode(c, v), [])
  }

  function FastItems(c: FastStyle, m: seq<Entry>, i: nat): (items: seq<Item>)
    ensures i <= ArraySize(m) ==> |items| == ArraySize(m) - i
    decreases SizeOfEntries(m), ArraySize(m) - i
  {
    if i >= ArraySize(m) then []
    else
      LookupIsSmaller(m, Index(i));
      [FastItem(c, At(m, i))] + FastItems(c, m, i + 1)
  }

  function FastMember(c: FastStyle, m: seq<Entry>, k: CZString): Member
    requires m != []
    decreases SizeOfEntries(m), 0
  {
    LookupIsSmaller(m, k);
    Member([], CharsOf(KeyBytes(k)), [],
           Item(if c.yamlCompatibilityEnabled then [SPACE] else [], FastNode(c, Lookup(m, k)), []))
  }

  function FastMemberNodes(c: FastStyle, m: seq<Entry>, i: nat): (members: seq<Member>)
    ensures i <= |m| ==> |members| == |m| - i
    decreases SizeOfEntries(m), 1, |m| - i
  {
    if i >= |m| then [] else [FastMember(c, m, m[i].key)] + FastMemberNodes(c, m, i + 1)
  }

  lemma {:induction false} FastNodeSpells(c: FastStyle, v: Value)
    requires Presentable(v) && !c.dropNullPlaceholders
    ensures Text(FastNode(c, v)) == FastText(c, v)
    ensures Renders(FastNode(c, v), v)
    decreases Size(v), 0
  {
    hide CharsOf, NumberOf, SpellNumber, SpellString, Quoted, DecimalInt, WellFormedUtf8;
    match v {
      case Int(i) => NumberSpelling(Settings(DEFAULT_FEATURES, _ => None, _ => []), i);
      case UInt(u) => NumberSpelling(Settings(DEFAULT_FEATURES, _ => None, _ => []), u);
      case String(s) => StringSpelling(s);
      case Array(m) =>
        EntriesPresentable(v);
        FastItemsSpell(c, m, 0);
        FastArraySpells(c, m);
      case Object(m) =>
        EntriesPresentable(v);
        ObjectKeys(m);
        FastMembersSpell(c, m, 0);
        FastObjectSpells(c, m);
      case _ =>
    }
  }

  lemma FastArraySpells(c: FastStyle, m: seq<Entry>)
    requires ArraySize(m) > 0 ==> ItemsText(FastItems(c, m, 0)) == FastElements(c, m, 0)
    requires forall k :: 0 <= k < ArraySize(m) ==> RendersItem(FastItems(c, m, 0)[k], At(m, k))
    ensures Text(FastNode(c, Array(m))) == FastText(c, Array(m))
    ensures Renders(FastNode(c, Array(m)), Array(m))
  {
    hide ItemsText, RendersItem;
    assert [] + [RBRACKET] == [RBRACKET];
  }

  lemma {:induction false} FastItemsSpell(c: FastStyle, m: seq<Entry>, i: nat)
    requires forall e :: e in m ==> Presentable(e.value)
    requires !c.dropNullPlaceholders && i <= ArraySize(m)
    ensures i < ArraySize(m) ==>
      (if i > 0 then [COMMA] else []) + ItemsText(FastItems(c, m, i)) == FastElements(c, m, i)
    ensures i < ArraySize(m) && i == 0 ==> ItemsText(FastItems(c, m, i)) == FastElements(c, m, i)
    ensures forall k :: 0 <= k < ArraySize(m) - i ==> RendersItem(FastItems(c, m, i)[k], At(m, i + k))
    decreases SizeOfEntries(m), ArraySize(m) - i
  {
    hide FastNode, FastText, Text, Renders, Presentable, At, ArraySize, AllSpaces;
    if i < ArraySize(m) {
      var v := At(m, i);
      LookupIsSmaller(m, Index(i));
      assert Presentable(v) by {
        assert v == Lookup(m, Index(i)) by { AtIsLookup(m, i); }
        LookupIsPresentable(m, Index(i));
      }
      assert Size(v) < SizeOfEntries(m) by { AtIsLookup(m, i); }
      FastNodeSpells(c, v);
      FastItemsSpell(c, m, i + 1);
      var items := FastItems(c, m, i);
      var comma := if i > 0 then [COMMA] else [];
      assert items[1..] == FastItems(c, m, i + 1);
      assert items[0] == FastItem(c, v) == Item([], FastNode(c, v), []);
      EmptyIsNeutral(FastText(c, v));
      assert ItemText(items[0]) == FastText(c, v);
      assert RendersItem(items[0], v) by { NoSpaces(); }
      var more := FastElements(c, m, i + 1);
      assert ItemsText(items) == FastText(c, v) + more;
      Assoc(comma, FastText(c, v), more);
    }
  }

  lemma AtIsLookup(m: seq<Entry>, i: nat)
    ensures At(m, i) == Lookup(m, Index(i))
  {
  }

  lemma FastObjectSpells(c: FastStyle, m: seq<Entry>)
    requires m != [] ==> MembersText(FastMemberNodes(c, m, 0)) == FastMembers(c, m, 0)
    requires forall k :: 0 <= k < |m| ==> RendersMember(FastMemberNodes(c, m, 0)[k], m, m[k].key)
    ensures Text(FastNode(c, Object(m))) == FastText(c, Object(m))
    ensures Renders(FastNode(c, Object(m)), Object(m))
  {
    hide MembersText, RendersMember;
    assert [] + [RBRACE] == [RBRACE];
  }

  lemma {:induction false} FastMembersSpell(c: FastStyle, m: seq<Entry>, i: nat)
    requires forall e :: e in m ==> Presentable(e.value)
    requires forall j :: 0 <= j < |m| ==> m[j].key.Name? && WellFormedUtf8(m[j].key.bytes)
    requires !c.dropNullPlaceholders && i <= |m|
    ensures i < |m| ==>
      (if i > 0 then [COMMA] else []) + MembersText(FastMemberNodes(c, m, i)) == FastMembers(c, m, i)
    ensures i < |m| && i == 0 ==> MembersText(FastMemberNodes(c, m, i)) == FastMembers(c, m, i)
    ensures forall k :: 0 <= k < |m| - i ==> RendersMember(FastMemberNodes(c, m, i)[k], m, m[i + k].key)
    decreases SizeOfEntries(m), |m| - i
  {
    hide FastMember, FastText, Renders, Presentable, MemberText, RendersMember, Quoted, FastColon, WellFormedUtf8;
    hide KeyBytes, Lookup;
    if i < |m| {
      FastMemberSpells(c, m, i);
      FastMembersSpell(c, m, i + 1);
      var members := FastMemberNodes(c, m, i);
      var comma := if i > 0 then [COMMA] else [];
      var q, colon := Quoted(KeyBytes(m[i].key)), FastColon(c);
      var text, more := FastText(c, Lookup(m, m[i].key)), FastMembers(c, m, i + 1);
      assert members[1..] == FastMemberNodes(c, m, i + 1);
      assert more == (if i + 1 == |m| then [RBRACE] else [COMMA] + MembersText(members[1..]));
      assert MembersText(members) == MemberText(members[0]) + more == q + colon + text + more;
      Prefixed(comma, q, colon, text, more);
    }
  }

  lemma Prefixed(a: Bytes, b: Bytes, c: Bytes, d: Bytes, e: Bytes)
    ensures a + (b + c + d + e) == a + b + c + d + e
    ensures [] + (b + c + d + e) == b + c + d + e == [] + b + c + d + e
  {
  }

  lemma {:induction false} FastMemberSpells(c: FastStyle, m: seq<Entry>, i: nat)
    requires i < |m| && !c.dropNullPlaceholders
    requires forall e :: e in m ==> Presentable(e.value)
    requires m[i].key.Name? && WellFormedUtf8(m[i].key.bytes)
    ensures MemberText(FastMember(c, m, m[i].key)) ==
      Quoted(KeyBytes(m[i].key)) + FastColon(c) + FastText(c, Lookup(m, m[i].key))
    ensures RendersMember(FastMember(c, m, m[i].key), m, m[i].key)
    decreases SizeOfEntries(m), 0
  {
    hide FastNode, FastText, Text, Renders, Presentable, CharsOf, SpellString, Quoted, WellFormedUtf8, Lookup;
    var v := Lookup(m, m[i].key);
    LookupIsSmaller(m, m[i].key);
    LookupIsPresentable(m, m[i].key);
    FastNodeSpells(c, v);
    StringSpelling(m[i].key.bytes);
    var x := FastMember(c, m, m[i].key);
    var q, text := Quoted(m[i].key.bytes), FastText(c, v);
    assert MemberText(x) == [] + q + [] + [COLON] + (x.item.before + text + []);
    assert MemberText(x) == q + ([COLON] + x.item.before) + text;
  }

  /** What parse makes of a rendering of `v`: the value as it is reread, or an exception. */
  predicate ReadsAs(o: ParseResult, env: Settings, v: Value) {
    if Within(v, env.features.stackLimit) then o == Returned(true, Reread(v), []) else o.Threw?
  }

  lemma RenderingReads(env: Settings, node: Node, after: Bytes, v: Value, root: Value)
    requires Presentable(v) && Renders(node, v) && AllSpaces(after)
    requires env.features.stackLimit < MAX_INT32
    requires env.features.strictRoot ==> v.Array? || v.Object?
    ensures ReadsAs(Parse(env, Text(node) + after, root), env, v)
  {
    hide Presentable, Text, Parse, Renders, Denotation, Valid, FateOf, Reread, Within;
    assert AllSpaces([]);
    EmptyIsNeutral(Text(node) + after);
    RenderingDenotes(env, node, v);
    RenderingFate(env, node, v, 1);
    EveryTextIsJudged(env, [], node, after, root);
    SameKind(node, v);
  }

  lemma SameKind(node: Node, v: Value)
    requires Renders(node, v)
    ensures v.Array? ==> node.ArrayNode?
    ensures v.Object? ==> node.ObjectNode?
  {
  }

  /** FastWriter's document, for every value that can be presented and under every setting of the reader's features,
      reads back as that value exactly if its depth is within the stack limit and none of its arrays has more than 2^31
      elements; otherwise the reader throws. */
  lemma FastRoundTrip(c: FastStyle, env: Settings, v: Value, root: Value)
    requires Presentable(v) && !c.dropNullPlaceholders
    requires env.features.stackLimit < MAX_INT32
    requires env.features.strictRoot ==> v.Array? || v.Object?
    ensures ReadsAs(Parse(env, FastDocument(c, v), root), env, v)
  {
    hide Presentable, FastText, Text, Parse, Renders, ReadsAs;
    FastNodeSpells(c, v);
    RenderingReads(env, FastNode(c, v), if c.omitEndingLineFeed then [] else [LINE_FEED], v, root);
  }

  // ---- BuiltStyledStreamWriter

  /** The settings under which the layout is JSON: whitespace indentation, one of the builder's colons, and null
      written out. */
  predicate Readable(c: Style) {
    && AllSpaces(c.indentation) && AllSpaces(c.endingLineFeedSymbol)
    && c.nullSymbol == NULL_TEXT
    && (c.colonSymbol == [SPACE, COLON, SPACE] || c.colonSymbol == [COLON, SPACE] || c.colonSymbol == [COLON])
  }

  function BeforeColon(c: Style): Bytes {
    if c.colonSymbol == [SPACE, COLON, SPACE] then [SPACE] else []
  }

  function AfterColon(c: Style): Bytes {
    if c.colonSymbol == [COLON] then [] else [SPACE]
  }

  /** The part of StyledText that is whitespace before the value. */
  function LeadOf(c: Style, v: Value, indent: Bytes, indented: bool): Bytes {
    if EndsIndented(c, v) then Lead(c, indent, indented) else []
  }

  function FlatNode(v: Value): Node {
    match v
    case Null => NullNode
    case Int(i) => NumberNode(NumberOf(i))
    case UInt(u) => NumberNode(NumberOf(u))
    case Real(_) => NullNode
    case String(s) => StringNode(CharsOf(s))
    case Bool(b) => BoolNode(b)
    case Array(_) => ArrayNode([], [])
    case Object(_) => ObjectNode([], [])
  }

  /** The tree of what BuiltStyledStreamWriter writes, without the whitespace before it. */
  function StyledNode(c: Style, v: Value, indent: Bytes): Node
    decreases Size(v), 0
  {
    if Flat(v) then FlatNode(v)
    else
      match v
      case Array(m) =>
        if c.all || IsMultiline(c, m) then ArrayNode([], StyledItems(c, m, indent, 0))
        else ArrayNode([], SingleItems(c, m, 0))
      case Object(m) => ObjectNode([], StyledMemberNodes(c, m, indent, 0))
  }

  function StyledItem(c: Style, m: seq<Entry>, indent: Bytes, i: nat): Item
    requires i < ArraySize(m)
    decreases SizeOfEntries(m), 0
  {
    LookupIsSmaller(m, Index(i));
    Item(Lead(c, indent + c.indentation, false), StyledNode(c, At(m, i), indent + c.indentation),
         if i + 1 == ArraySize(m) then Lead(c, indent, false) else [])
  }

  function StyledItems(c: Style, m: seq<Entry>, indent: Bytes, i: nat): (items: seq<Item>)
    ensures i <= ArraySize(m) ==> |items| == ArraySize(m) - i
    decreases SizeOfEntries(m), 1, ArraySize(m) - i
  {
    if i >= ArraySize(m) then [] else [StyledItem(c, m, indent, i)] + StyledItems(c, m, indent, i + 1)
  }

  function SingleItem(c: Style, m: seq<Entry>, i: nat): Item {
    Item(Padding(c), FlatNode(At(m, i)), if i + 1 == ArraySize(m) then Padding(c) else [])
  }

  function SingleItems(c: Style, m: seq<Entry>, i: nat): (items: seq<Item>)
    ensures i <= ArraySize(m) ==> |items| == ArraySize(m) - i
    decreases ArraySize(m) - i
  {
    if i >= ArraySize(m) then []
    else
      [SingleItem(c, m, i)] + SingleItems(c, m, i + 1)
  }

  function StyledMember(c: Style, m: seq<Entry>, indent: Bytes, i: nat): Member
    requires i < |m|
    decreases SizeOfEntries(m), 0
  {
    LookupIsSmaller(m, m[i].key);
    var v, inner := Lookup(m, m[i].key), indent + c.indentation;
    Member(Lead(c, inner, false), CharsOf(KeyBytes(m[i].key)), BeforeColon(c),
           Item(AfterColon(c) + LeadOf(c, v, inner, false), StyledNode(c, v, inner),
                if i + 1 == |m| then Lead(c, indent, false) else []))
  }

  function StyledMemberNodes(c: Style, m: seq<Entry>, indent: Bytes, i: nat): (members: seq<Member>)
    ensures i <= |m| ==> |members| == |m| - i
    decreases SizeOfEntries(m), 1, |m| - i
  {
    if i >= |m| then [] else [StyledMember(c, m, indent, i)] + StyledMemberNodes(c, m, indent, i + 1)
  }

  lemma LeadIsSpace(c: Style, indent: Bytes, indented: bool)
    requires Readable(c) && AllSpaces(indent)
    ensures AllSpaces(Lead(c, indent, indented)) && AllSpaces(indent + c.indentation) && AllSpaces(Padding(c))
  {
  }

  lemma FlatSpells(c: Style, v: Value)
    requires Presentable(v) && Readable(c) && Flat(v)
    ensures Text(FlatNode(v)) == FlatText(c, v) && Renders(FlatNode(v), v)
  {
    hide CharsOf, NumberOf, SpellNumber, SpellString, Quoted, DecimalInt, WellFormedUtf8;
    match v {
      case Int(i) => NumberSpelling(Settings(DEFAULT_FEATURES, _ => None, _ => []), i);
      case UInt(u) => NumberSpelling(Settings(DEFAULT_FEATURES, _ => None, _ => []), u);
      case String(s) => StringSpelling(s);
      case Array(m) => assert [LBRACKET] + ([] + [RBRACKET]) == [LBRACKET, RBRACKET];
      case Object(m) => assert [LBRACE] + ([] + [RBRACE]) == [LBRACE, RBRACE];
      case _ =>
    }
  }

  lemma {:induction false} StyledNodeSpells(c: Style, v: Value, indent: Bytes, indented: bool)
    requires Presentable(v) && Readable(c) && AllSpaces(indent)
    ensures StyledText(c, v, indent, indented) == LeadOf(c, v, indent, indented) + Text(StyledNode(c, v, indent))
    ensures Renders(StyledNode(c, v, indent), v)
    decreases Size(v), 0
  {
    hide Presentable, Renders, Lead, IsMultiline, FlatText, FlatNode, Readable, ArraySize, AllSpaces;
    if Flat(v) {
      FlatSpells(c, v);
      Regroup([], Text(FlatNode(v)), [], []);
    } else {
      EntriesPresentable(v);
      var m := v.entries;
      if v.Object? {
        ObjectKeys(m);
        StyledMembersSpell(c, m, indent, 0);
        StyledObjectSpells(c, m, indent, indented);
      } else if c.all || IsMultiline(c, m) {
        StyledItemsSpell(c, m, indent, 0);
        StyledArraySpells(c, m, indent, indented);
      } else {
        SingleLineIsFlat(c, m);
        SingleItemsSpell(c, m, 0);
        forall k | 0 <= k < ArraySize(m)
          ensures RendersItem(SingleItems(c, m, 0)[k], At(m, k))
        {
          SingleItemsAt(c, m, 0, k);
          SingleItemSpells(c, m, k);
        }
        SingleArraySpells(c, m, indent, indented);
      }
    }
  }

  lemma StyledArraySpells(c: Style, m: seq<Entry>, indent: Bytes, indented: bool)
    requires ArraySize(m) > 0 && (c.all || IsMultiline(c, m))
    requires ItemsText(StyledItems(c, m, indent, 0)) == StyledElements(c, m, indent, 0)
    requires forall k :: 0 <= k < ArraySize(m) ==> RendersItem(StyledItems(c, m, indent, 0)[k], At(m, k))
    ensures StyledText(c, Array(m), indent, indented) ==
      LeadOf(c, Array(m), indent, indented) + Text(StyledNode(c, Array(m), indent))
    ensures Renders(StyledNode(c, Array(m), indent), Array(m))
  {
    hide ItemsText, RendersItem, Lead, IsMultiline, StyledElements, StyledItems;
  }

  lemma SingleLineIsFlat(c: Style, m: seq<Entry>)
    requires !IsMultiline(c, m)
    ensures AllFlat(m)
  {
  }

  lemma SingleArraySpells(c: Style, m: seq<Entry>, indent: Bytes, indented: bool)
    requires ArraySize(m) > 0 && !c.all && !IsMultiline(c, m) && AllFlat(m)
    requires ItemsText(SingleItems(c, m, 0)) == Padding(c) + SingleLine(c, m, 0)
    requires forall k :: 0 <= k < ArraySize(m) ==> RendersItem(SingleItems(c, m, 0)[k], At(m, k))
    ensures StyledText(c, Array(m), indent, indented) ==
      LeadOf(c, Array(m), indent, indented) + Text(StyledNode(c, Array(m), indent))
    ensures Renders(StyledNode(c, Array(m), indent), Array(m))
  {
    hide ItemsText, RendersItem, Lead, IsMultiline, SingleLine, SingleItems, Padding;
    Regroup([], [LBRACKET], Padding(c), SingleLine(c, m, 0));
    Regroup([], [LBRACKET], ItemsText(SingleItems(c, m, 0)), []);
  }

  lemma StyledObjectSpells(c: Style, m: seq<Entry>, indent: Bytes, indented: bool)
    requires m != []
    requires MembersText(StyledMemberNodes(c, m, indent, 0)) == StyledMembers(c, m, indent, 0)
    requires forall k :: 0 <= k < |m| ==> RendersMember(StyledMemberNodes(c, m, indent, 0)[k], m, m[k].key)
    ensures StyledText(c, Object(m), indent, indented) ==
      LeadOf(c, Object(m), indent, indented) + Text(StyledNode(c, Object(m), indent))
    ensures Renders(StyledNode(c, Object(m), indent), Object(m))
  {
    hide MembersText, RendersMember, Lead, StyledMembers, StyledMemberNodes;
  }

  lemma {:induction false} StyledItemsSpell(c: Style, m: seq<Entry>, indent: Bytes, i: nat)
    requires forall e :: e in m ==> Presentable(e.value)
    requires Readable(c) && AllSpaces(indent) && i < ArraySize(m)
    ensures ItemsText(StyledItems(c, m, indent, i)) == StyledElements(c, m, indent, i)
    ensures forall k :: 0 <= k < ArraySize(m) - i ==> RendersItem(StyledItems(c, m, indent, i)[k], At(m, i + k))
    decreases SizeOfEntries(m), 1, ArraySize(m) - i
  {
    hide StyledItem, StyledText, Presentable, Lead, ItemText, RendersItem, AllSpaces, Readable, ArraySize, At;
    var size, items := ArraySize(m), StyledItems(c, m, indent, i);
    StyledItemSpells(c, m, indent, i);
    var last := if i + 1 == size then Lead(c, indent, false) else [];
    var text := Lead(c, indent + c.indentation, false) + StyledText(c, At(m, i), indent + c.indentation, true);
    assert items[0] == StyledItem(c, m, indent, i) && items[1..] == StyledItems(c, m, indent, i + 1);
    if i + 1 < size {
      StyledItemsSpell(c, m, indent, i + 1);
      assert text + [] == text;
    } else {
      Regroup([], text, last, [RBRACKET]);
    }
  }

  /** One item: the element on its own line, and after the last one the line of the closing bracket. */
  lemma {:induction false} StyledItemSpells(c: Style, m: seq<Entry>, indent: Bytes, i: nat)
    requires forall e :: e in m ==> Presentable(e.value)
    requires Readable(c) && AllSpaces(indent) && i < ArraySize(m)
    ensures ItemText(StyledItem(c, m, indent, i)) ==
      Lead(c, indent + c.indentation, false) + StyledText(c, At(m, i), indent + c.indentation, true) +
      (if i + 1 == ArraySize(m) then Lead(c, indent, false) else [])
    ensures RendersItem(StyledItem(c, m, indent, i), At(m, i))
    decreases SizeOfEntries(m), 0
  {
    hide StyledNode, StyledText, Presentable, AllSpaces, Readable, ArraySize, Renders, Text, IsMultiline, Flat;
    var v, inner := At(m, i), indent + c.indentation;
    LookupIsSmaller(m, Index(i));
    LookupIsPresentable(m, Index(i));
    LeadIsSpace(c, indent, false);
    LeadIsSpace(c, inner, false);
    StyledNodeSpells(c, v, inner, true);
    Regroup([], Text(StyledNode(c, v, inner)), [], []);
    assert AllSpaces([]) by { NoSpaces(); }
  }

  lemma NoSpaces()
    ensures AllSpaces([])
  {
  }

  /** An element of a single-line array and all that follows it, with the space before it. */
  function SingleBody(c: Style, m: seq<Entry>, i: nat): Bytes
    requires AllFlat(m) && i < ArraySize(m)
  {
    Padding(c) + FlatText(c, At(m, i)) + SingleLine(c, m, i + 1)
  }

  lemma {:induction false} SingleItemsSpell(c: Style, m: seq<Entry>, i: nat)
    requires forall e :: e in m ==> Presentable(e.value)
    requires Readable(c) && AllFlat(m) && i < ArraySize(m)
    ensures ItemsText(SingleItems(c, m, i)) == SingleBody(c, m, i)
    ensures i == 0 ==> ItemsText(SingleItems(c, m, i)) == Padding(c) + SingleLine(c, m, i)
    decreases ArraySize(m) - i
  {
    hide Presentable, RendersItem, ArraySize, Readable, ItemText, AllFlat, Padding, At, SingleLine, SingleBody;
    hide SingleItem;
    var items := SingleItems(c, m, i);
    SingleItemSpells(c, m, i);
    SingleStep(c, m, i);
    assert items[1..] == SingleItems(c, m, i + 1);
    if i + 1 < ArraySize(m) {
      SingleItemsSpell(c, m, i + 1);
      SingleStep(c, m, i + 1);
    }
  }

  lemma {:induction false} SingleItemsAt(c: Style, m: seq<Entry>, i: nat, k: nat)
    requires i <= k < ArraySize(m)
    ensures SingleItems(c, m, i)[k - i] == SingleItem(c, m, k)
    decreases k - i
  {
    hide SingleItem, ArraySize;
    if i < k {
      SingleItemsAt(c, m, i + 1, k);
    }
  }

  lemma SingleStep(c: Style, m: seq<Entry>, i: nat)
    requires AllFlat(m) && i < ArraySize(m)
    ensures i > 0 ==> [COMMA] + SingleBody(c, m, i) == SingleLine(c, m, i)
    ensures i == 0 ==> SingleBody(c, m, i) == Padding(c) + SingleLine(c, m, i)
  {
    hide FlatText, Padding;
    var pad, text, more := Padding(c), FlatText(c, At(m, i)), SingleLine(c, m, i + 1);
    Assoc([COMMA], pad + text, more);
    Assoc([COMMA], pad, text);
    Assoc(pad, text, more);
    EmptyIsNeutral(text);
  }

  lemma SingleItemSpells(c: Style, m: seq<Entry>, i: nat)
    requires forall e :: e in m ==> Presentable(e.value)
    requires Readable(c) && AllFlat(m) && i < ArraySize(m)
    ensures RendersItem(SingleItem(c, m, i), At(m, i))
    ensures ItemText(SingleItem(c, m, i)) + (if i + 1 == ArraySize(m) then [RBRACKET] else SingleLine(c, m, i + 1)) ==
      SingleBody(c, m, i)
  {
    hide FlatNode, FlatText, Presentable, Renders, ArraySize, Readable, Text, Flat;
    LookupIsPresentable(m, Index(i));
    FlatSpells(c, At(m, i));
    LeadIsSpace(c, [], false) by { NoSpaces(); }
    var pad, text := Padding(c), FlatText(c, At(m, i));
    EmptyIsNeutral(pad + text);
    Assoc(pad + text, pad, [RBRACKET]);
  }

  lemma {:induction false} StyledMembersSpell(c: Style, m: seq<Entry>, indent: Bytes, i: nat)
    requires forall e :: e in m ==> Presentable(e.value)
    requires forall j :: 0 <= j < |m| ==> m[j].key.Name? && WellFormedUtf8(m[j].key.bytes)
    requires Readable(c) && AllSpaces(indent) && i < |m|
    ensures MembersText(StyledMemberNodes(c, m, indent, i)) == StyledMembers(c, m, indent, i)
    ensures forall k :: 0 <= k < |m| - i ==> RendersMember(StyledMemberNodes(c, m, indent, i)[k], m, m[i + k].key)
    decreases SizeOfEntries(m), 1, |m| - i
  {
    hide StyledMember, StyledText, Presentable, Lead, MemberText, RendersMember, AllSpaces, Readable, Lookup, Quoted;
    hide KeyBytes, WellFormedUtf8;
    var members := StyledMemberNodes(c, m, indent, i);
    StyledMemberSpells(c, m, indent, i);
    var last := if i + 1 == |m| then Lead(c, indent, false) else [];
    var text := Lead(c, indent + c.indentation, false) + Quoted(KeyBytes(m[i].key)) + c.colonSymbol +
      StyledText(c, Lookup(m, m[i].key), indent + c.indentation, false);
    assert members[0] == StyledMember(c, m, indent, i) && members[1..] == StyledMemberNodes(c, m, indent, i + 1);
    if i + 1 < |m| {
      StyledMembersSpell(c, m, indent, i + 1);
      assert text + [] == text;
    } else {
      Regroup([], text, last, [RBRACE]);
    }
  }

  lemma {:induction false} StyledMemberSpells(c: Style, m: seq<Entry>, indent: Bytes, i: nat)
    requires forall e :: e in m ==> Presentable(e.value)
    requires Readable(c) && AllSpaces(indent) && i < |m|
    requires m[i].key.Name? && WellFormedUtf8(m[i].key.bytes)
    ensures MemberText(StyledMember(c, m, indent, i)) ==
      Lead(c, indent + c.indentation, false) + Quoted(KeyBytes(m[i].key)) + c.colonSymbol +
      StyledText(c, Lookup(m, m[i].key), indent + c.indentation, false) +
      (if i + 1 == |m| then Lead(c, indent, false) else [])
    ensures RendersMember(StyledMember(c, m, indent, i), m, m[i].key)
    decreases SizeOfEntries(m), 0
  {
    hide StyledNode, StyledText, Presentable, Renders, Text, IsMultiline, Flat, CharsOf, SpellString, Quoted;
    hide WellFormedUtf8, Lookup, LeadOf, Lead, AllSpaces, EndsIndented;
    var v, inner := Lookup(m, m[i].key), indent + c.indentation;
    LookupIsSmaller(m, m[i].key);
    LookupIsPresentable(m, m[i].key);
    LeadIsSpace(c, indent, false);
    LeadIsSpace(c, inner, false);
    StyledNodeSpells(c, v, inner, false);
    StringSpelling(m[i].key.bytes);
    var x := StyledMember(c, m, indent, i);
    var q, text := Quoted(KeyBytes(m[i].key)), Text(StyledNode(c, v, inner));
    var lead, deep := Lead(c, inner, false), LeadOf(c, v, inner, false);
    ColonParts(c);
    MemberSpaces(c, v, inner);
    MemberPieces(lead, q, BeforeColon(c), AfterColon(c), deep, text, x.item.after);
    assert AllSpaces([]) by { NoSpaces(); }
    assert MemberText(x) == lead + q + BeforeColon(c) + [COLON] + ((AfterColon(c) + deep) + text + x.item.after);
  }

  lemma ColonParts(c: Style)
    requires Readable(c)
    ensures c.colonSymbol == BeforeColon(c) + [COLON] + AfterColon(c)
  {
  }

  lemma MemberSpaces(c: Style, v: Value, inner: Bytes)
    requires Readable(c) && AllSpaces(inner)
    ensures AllSpaces(BeforeColon(c)) && AllSpaces(AfterColon(c) + LeadOf(c, v, inner, false))
  {
    LeadIsSpace(c, inner, false);
  }

  lemma MemberPieces(lead: Bytes, q: Bytes, b: Bytes, a: Bytes, deep: Bytes, text: Bytes, after: Bytes)
    ensures lead + q + b + [COLON] + ((a + deep) + text + after) == lead + q + (b + [COLON] + a) + (deep + text) + after
  {
  }

  /** BuiltStyledStreamWriter's document, whichever layout it chose for each array, reads back in the same way. */
  lemma StyledRoundTrip(c: Style, env: Settings, v: Value, root: Value)
    requires Presentable(v) && Readable(c)
    requires env.features.stackLimit < MAX_INT32
    requires env.features.strictRoot ==> v.Array? || v.Object?
    ensures ReadsAs(Parse(env, StyledDocument(c, v), root), env, v)
  {
    hide Presentable, StyledText, Text, Parse, Renders, Readable, ReadsAs;
    var node := StyledNode(c, v, []);
    assert AllSpaces([]) by { NoSpaces(); }
    StyledNodeSpells(c, v, [], true);
    assert AllSpaces(c.endingLineFeedSymbol) by { EndIsSpace(c); }
    assert LeadOf(c, v, [], true) == [];
    EmptyIsNeutral(Text(node));
    RenderingReads(env, node, c.endingLineFeedSymbol, v, root);
  }

  lemma EndIsSpace(c: Style)
    requires Readable(c)
    ensures AllSpaces(c.endingLineFeedSymbol)
  {
  }

  /** Layout does not change meaning: the two printers' documents parse to the same value, or the reader throws on both
      alike. */
  lemma LayoutPreservesMeaning(fast: FastStyle, styled: Style, env: Settings, v: Value, root: Value)
    requires Presentable(v) && Readable(styled) && !fast.dropNullPlaceholders
    requires env.features.stackLimit < MAX_INT32
    requires env.features.strictRoot ==> v.Array? || v.Object?
    ensures ReadsAs(Parse(env, StyledDocument(styled, v), root), env, v)
    ensures ReadsAs(Parse(env, FastDocument(fast, v), root), env, v)
    ensures Parse(env, StyledDocument(styled, v), root).Threw? <==> Parse(env, FastDocument(fast, v), root).Threw?
    ensures Within(v, env.features.stackLimit) ==>
      Parse(env, StyledDocument(styled, v), root) == Parse(env, FastDocument(fast, v), root)
  {
    hide Presentable, StyledDocument, FastDocument, Parse, Readable, Reread, Within;
    StyledRoundTrip(styled, env, v, root);
    FastRoundTrip(fast, env, v, root);
  }

  // ---- which values come back unchanged

  /** Dense arrays, and integers with the tag the reader would give them. */
  predicate Canonical(v: Value)
    decreases v
  {
    match v
    case Int(i) => i <= MAX_INT32
    case UInt(u) => u > MAX_INT32
    case Array(m) => DenseKeys(m) && forall e :: e in m ==> Canonical(e.value)
    case Object(m) => forall e :: e in m ==> Canonical(e.value)
    case _ => true
  }

  lemma {:induction false} RereadIsIdentityOnCanonical(v: Value)
    requires WellFormed(v)
    ensures Reread(v) == v <==> Canonical(v)
    decreases v
  {
    hide Sorted, KeyLess, Lookup;
    if v.Array? || v.Object? {
      var m := v.entries;
      forall i | 0 <= i < |m|
        ensures Reread(m[i].value) == m[i].value <==> Canonical(m[i].value)
      {
        assert m[i] in m;
        assert m[i].value < m[i];
        RereadIsIdentityOnCanonical(m[i].value);
      }
      EachCanonical(m);
      assert m[0..] == m;
      if v.Object? {
        RereadMembersIsIdentity(m, 0);
      } else if DenseKeys(m) {
        RereadElementsIsIdentity(m, 0);
      }
    }
  }

  lemma EachCanonical(m: seq<Entry>)
    ensures (forall e :: e in m ==> Canonical(e.value)) <==> (forall i :: 0 <= i < |m| ==> Canonical(m[i].value))
  {
    hide Canonical;
  }

  lemma RereadElementsStep(m: seq<Entry>, i: nat)
    requires ArrayMap(m) && DenseKeys(m) && i < |m|
    ensures RereadElements(m, i) == [Entry(Index(i), Reread(m[i].value))] + RereadElements(m, i + 1)
  {
    hide Reread, Lookup;
    LookupEntry(m, i);
  }

  lemma RereadMembersStep(m: seq<Entry>, i: nat)
    requires Sorted(m) && i < |m|
    ensures RereadMembers(m, i) == [Entry(m[i].key, Reread(m[i].value))] + RereadMembers(m, i + 1)
  {
    hide Reread, Lookup;
    LookupEntry(m, i);
  }

  lemma SameHead(e: Entry, es: seq<Entry>, m: seq<Entry>, i: nat)
    requires i < |m|
    ensures [e] + es == m[i..] <==> e == m[i] && es == m[i + 1..]
  {
    assert m[i..] == [m[i]] + m[i + 1..];
    assert ([e] + es)[1..] == es;
  }

  lemma {:induction false} RereadElementsIsIdentity(m: seq<Entry>, i: nat)
    requires ArrayMap(m) && DenseKeys(m) && i <= |m|
    ensures RereadElements(m, i) == m[i..] <==> forall j :: i <= j < |m| ==> Reread(m[j].value) == m[j].value
    decreases |m| - i
  {
    hide Reread, Lookup, Sorted, KeyLess;
    if i < |m| {
      RereadElementsIsIdentity(m, i + 1);
      RereadElementsStep(m, i);
      SameHead(Entry(Index(i), Reread(m[i].value)), RereadElements(m, i + 1), m, i);
    }
  }

  lemma {:induction false} RereadMembersIsIdentity(m: seq<Entry>, i: nat)
    requires Sorted(m) && i <= |m|
    ensures RereadMembers(m, i) == m[i..] <==> forall j :: i <= j < |m| ==> Reread(m[j].value) == m[j].value
    decreases |m| - i
  {
    hide Reread, Lookup, Sorted, KeyLess;
    if i < |m| {
      RereadMembersIsIdentity(m, i + 1);
      RereadMembersStep(m, i);
      SameHead(Entry(m[i].key, Reread(m[i].value)), RereadMembers(m, i + 1), m, i);
    }
  }
}
