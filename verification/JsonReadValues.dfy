/** What the reader leaves behind, whether it succeeds or not: well-formed values whose arrays are dense. */
module JsonReadValues {
  import opened ByteStrings
  import opened JsonValue
  import opened JsonNumbers
  import opened JsonErrors
  import opened JsonStrings
  import opened JsonParsing
  import opened JsonArrays

  /** Such an array is dense in the sense of the array operations, and its contents are its values in order. */
  lemma DenseKeysAreDense(m: seq<Entry>)
    requires DenseKeys(m) && |m| <= MOST_ELEMENTS
    ensures ArrayMap(m) && Dense(m) && ArraySize(m) == |m|
    ensures forall i :: 0 <= i < |m| ==> Contents(m)[i] == m[i].value
  {
    hide Lookup;
    forall i: nat | i < |m|
      ensures Present(m, i) && At(m, i) == m[i].value
    {
      LookupEntry(m, i);
    }
  }

  predicate DenseThroughout(v: Value)
    decreases v
  {
    match v
    case Array(m) => DenseKeys(m) && forall e :: e in m ==> DenseThroughout(e.value)
    case Object(m) => forall e :: e in m ==> DenseThroughout(e.value)
    case _ => true
  }

  predicate Proper(v: Value) {
    WellFormed(v) && DenseThroughout(v)
  }

  predicate ProperEntries(m: seq<Entry>) {
    forall e :: e in m ==> Proper(e.value)
  }

  predicate ProperResult(o: ReadResult) {
    o.Thrown? || Proper(o.value)
  }

  /** The most elements the reader gives an array: their indices fill the non-negative ints. */
  const MOST_ELEMENTS: int := MAX_INT32 + 1

  lemma ArrayIsProper(m: seq<Entry>)
    requires DenseKeys(m) && ProperEntries(m) && |m| <= MOST_ELEMENTS
    ensures Proper(Array(m))
  {
  }

  lemma ObjectIsProper(m: seq<Entry>)
    requires ObjectMap(m) && ProperEntries(m)
    ensures Proper(Object(m))
  {
  }

  lemma StoredMember(m: seq<Entry>, key: Bytes, v: Value)
    requires ObjectMap(m) && ProperEntries(m) && Proper(v) && |key| < KEY_LIMIT
    ensures ObjectMap(Put(m, Name(key), v)) && ProperEntries(Put(m, Name(key), v))
  {
    hide Proper;
    PutSorted(m, Name(key), v);
    var p := Put(m, Name(key), v);
    forall i | 0 <= i < |p|
      ensures p[i] == Entry(Name(key), v) || p[i] in m
    {
    }
  }

  lemma StoredElement(m: seq<Entry>, v: Value)
    requires DenseKeys(m) && ProperEntries(m) && Proper(v)
    ensures Lookup(m, Index(|m|)) == Null
    ensures Put(m, Index(|m|), v) == m + [Entry(Index(|m|), v)]
    ensures DenseKeys(Put(m, Index(|m|), v)) && ProperEntries(Put(m, Index(|m|), v))
  {
    hide Proper;
    PutAppends(m, Index(|m|), v);
  }

  lemma FoundIsProper(m: seq<Entry>, k: CZString)
    requires ProperEntries(m)
    ensures Proper(Lookup(m, k))
  {
    var i := LowerBound(m, k);
    if i < |m| && m[i].key == k {
      assert m[i] in m;
    }
  }

  lemma NumberIsProper(env: Settings, token: Bytes)
    requires token != []
    ensures var v := NumberValue(env, token); v.Some? ==> Proper(v.value)
  {
    hide AllDigits, DigitsValue, ArrayMap, ObjectMap;
  }

  lemma StringIsProper(t: Lexed, current: Value)
    requires |t.text| >= 2 && Proper(current)
    ensures ProperResult(ReadStringValue(t, current))
  {
    hide DecodeString;
  }

  /** Reading into a proper value leaves a proper value, on any input at all. */
  lemma {:induction false} ReadValueIsProper(env: Settings, r: Bytes, depth: nat, current: Value)
    requires Proper(current)
    ensures ProperResult(ReadValue(env, r, depth, current))
    decreases |r|, 0
  {
    hide NextToken, ReadMembers, ReadArray, NumberValue, ReadStringValue;
    var t := NextToken(env.features, r);
    if t.kind == ObjectBegin {
      ReadMembersIsProper(env, t.rest, depth, [], []);
    } else if t.kind == ArrayBegin {
      ReadArrayIsProper(env, t.rest, depth);
    } else if t.kind == NumberToken {
      NumberIsProper(env, t.text);
    } else if t.kind == StringToken {
      StringIsProper(t, current);
    }
  }

  lemma {:induction false} ReadArrayIsProper(env: Settings, r: Bytes, depth: nat)
    ensures ProperResult(ReadArray(env, r, depth))
    decreases |r|, 2
  {
    hide ReadElements;
    ReadElementsIsProper(env, SkipSpaces(r), depth, []);
  }

  lemma {:induction false} ReadElementsIsProper(env: Settings, r: Bytes, depth: nat, m: seq<Entry>)
    requires DenseKeys(m) && ProperEntries(m) && |m| <= MOST_ELEMENTS
    ensures ProperResult(ReadElements(env, r, depth, |m|, m))
    decreases |r|, 1
  {
    hide ReadValue, PastComments, Recover, Lookup, Put, Proper, DenseKeys, ProperEntries;
    var child := ReadValue(env, r, depth + 1, Lookup(m, Index(|m|)));
    FoundIsProper(m, Index(|m|));
    ReadValueIsProper(env, r, depth + 1, Lookup(m, Index(|m|)));
    if |m| < MOST_ELEMENTS && !child.Thrown? {
      StoredElement(m, child.value);
      var m' := Put(m, Index(|m|), child.value);
      ArrayIsProper(m');
      var turn := ReadElement(env, r, depth, |m|, m);
      if turn.More? {
        ReadElementsIsProper(env, turn.rest, depth, m');
      }
    }
  }

  lemma {:induction false} ReadMembersIsProper(env: Settings, r: Bytes, depth: nat, name: Bytes, m: seq<Entry>)
    requires ObjectMap(m) && ProperEntries(m)
    ensures ProperResult(ReadMembers(env, r, depth, name, m))
    decreases |r|, 1
  {
    hide PastComments, Recover, Proper, ProperEntries, ReadMemberRest, ObjectMap, MemberName;
    ObjectIsProper(m);
    var t := PastComments(env.features, r);
    match MemberName(env, t) {
      case Some(Ok(key)) =>
        NamesAreTokens(env, t);
        ReadMemberRestIsProper(env, t.rest, depth, key, m);
        var turn := ReadMemberRest(env, t.rest, depth, key, m);
        if turn.More? {
          ReadMembersIsProper(env, turn.rest, depth, key, turn.m);
        }
      case _ =>
    }
  }

  lemma NamesAreTokens(env: Settings, t: Lexed)
    requires t.Substantial() && MemberName(env, t).Some?
    ensures t.kind != EndOfStream
  {
  }

  lemma {:induction false} ReadMemberRestIsProper(env: Settings, r: Bytes, depth: nat, key: Bytes, m: seq<Entry>)
    requires ObjectMap(m) && ProperEntries(m)
    ensures match ReadMemberRest(env, r, depth, key, m)
      case Finished(o) => ProperResult(o)
      case More(_, m') => ObjectMap(m') && ProperEntries(m')
    decreases |r|, 0
  {
    hide ReadValue, ReadToken, PastComments, Recover, Lookup, Put, Proper, ProperEntries, ObjectMap;
    ObjectIsProper(m);
    var colon := ReadToken(env.features, r);
    if colon.kind == MemberSeparator && |key| < KEY_LIMIT {
      var current := Lookup(m, Name(key));
      FoundIsProper(m, Name(key));
      ReadValueIsProper(env, colon.rest, depth + 1, current);
      var child := ReadValue(env, colon.rest, depth + 1, current);
      if !child.Thrown? {
        StoredMember(m, key, child.value);
        ObjectIsProper(Put(m, Name(key), child.value));
      }
    }
  }

  /** Whatever the text and the settings, parse either throws or leaves a well-formed root with dense arrays. */
  lemma ParseLeavesProperRoot(env: Settings, doc: Bytes, root: Value)
    requires Proper(root)
    ensures var o := Parse(env, doc, root); o.Returned? ==> Proper(o.root) && (o.ok <==> o.errors == [])
  {
    hide ReadValue, NextToken, Proper;
    ReadValueIsProper(env, doc, 1, root);
  }
}
