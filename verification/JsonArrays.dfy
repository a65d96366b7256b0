/** Arrays as Json::Value keeps them: a map from indices to values, which may have holes. */
module JsonArrays {
  import opened ByteStrings
  import opened JsonValue

  /** std::map::erase by key. */
  function Erase(m: seq<Entry>, k: CZString): seq<Entry> {
    var i := LowerBound(m, k);
    if i < |m| && m[i].key == k then m[..i] + m[i + 1..] else m
  }

  lemma EraseSpec(m: seq<Entry>, k: CZString)
    requires Sorted(m)
    ensures Sorted(Erase(m, k)) && !HasKey(Erase(m, k), k)
    ensures forall e :: e in Erase(m, k) ==> e in m
    ensures forall l :: l != k ==> (HasKey(Erase(m, k), l) <==> HasKey(m, l))
    ensures forall l :: Lookup(Erase(m, k), l) == if l == k then Null else Lookup(m, l)
  {
    LowerBoundFinds(m, k);
    var i, p := LowerBound(m, k), Erase(m, k);
    forall l | l != k
      ensures HasKey(p, l) <==> HasKey(m, l)
      ensures Lookup(p, l) == Lookup(m, l)
    {
      EraseFrame(m, k, l);
    }
    LowerBoundFinds(p, k);
  }

  lemma EraseFrame(m: seq<Entry>, k: CZString, l: CZString)
    requires Sorted(m) && l != k
    ensures HasKey(Erase(m, k), l) <==> HasKey(m, l)
    ensures Lookup(Erase(m, k), l) == Lookup(m, l)
  {
    hide Lookup;
    var i, p := LowerBound(m, k), Erase(m, k);
    var hit := i < |m| && m[i].key == k;
    if HasKey(m, l) {
      var j :| 0 <= j < |m| && m[j].key == l;
      var j' := if !hit || j < i then j else j - 1;
      assert p[j'] == m[j];
      LookupEntry(m, j);
      LookupEntry(p, j');
    } else {
      forall j | 0 <= j < |p|
        ensures p[j].key != l
      {
        assert p[j] == m[if !hit || j < i then j else j + 1];
      }
      LookupMissing(m, l);
      LookupMissing(p, l);
    }
  }

  lemma LookupMissing(m: seq<Entry>, k: CZString)
    requires Sorted(m) && !HasKey(m, k)
    ensures Lookup(m, k) == Null
  {
    LowerBoundFinds(m, k);
  }

  // ---- what the size says

  predicate Present(m: seq<Entry>, i: nat) {
    HasKey(m, Index(i))
  }

  /** The size of an array is one past its highest index: the index below it is present, and none from it on. */
  lemma SizeIsPastTheLast(m: seq<Entry>)
    requires ArrayMap(m)
    ensures ArraySize(m) > 0 ==> Present(m, ArraySize(m) - 1)
    ensures forall i :: i >= ArraySize(m) ==> !Present(m, i)
    ensures forall i :: i >= ArraySize(m) ==> At(m, i) == Null
  {
    if m != [] {
      assert m[|m| - 1].key == Index(ArraySize(m) - 1);
      forall i | i >= ArraySize(m)
        ensures !Present(m, i)
      {
        forall j | 0 <= j < |m|
          ensures m[j].key != Index(i)
        {
          assert j < |m| - 1 ==> KeyLess(m[j].key, m[|m| - 1].key);
        }
      }
    }
    forall i | i >= ArraySize(m)
      ensures At(m, i) == Null
    {
      assert !Present(m, i);
      LookupMissing(m, Index(i));
    }
  }

  /** The size is determined by which index is the highest present. */
  lemma SizeByHighest(m: seq<Entry>, n: nat)
    requires ArrayMap(m)
    requires n > 0 ==> Present(m, n - 1)
    requires forall i :: i >= n ==> !Present(m, i)
    ensures ArraySize(m) == n
  {
    hide HasKey, Lookup, Sorted, ArraySize;
    SizeIsPastTheLast(m);
  }

  lemma PutKeepsArray(m: seq<Entry>, i: nat, v: Value)
    requires ArrayMap(m) && i < MAX_UINT32
    ensures ArrayMap(Put(m, Index(i), v))
    ensures forall j: nat :: At(Put(m, Index(i), v), j) == if j == i then v else At(m, j)
    ensures forall j: nat :: Present(Put(m, Index(i), v), j) <==> j == i || Present(m, j)
  {
    hide HasKey, Lookup, Sorted;
    PutSpec(m, Index(i), v);
    PutEntries(m, Index(i), v);
  }

  lemma PutEntries(m: seq<Entry>, k: CZString, v: Value)
    ensures forall e :: e in Put(m, k, v) ==> e in m || e == Entry(k, v)
  {
  }

  lemma EraseKeepsArray(m: seq<Entry>, i: nat)
    requires ArrayMap(m)
    ensures ArrayMap(Erase(m, Index(i)))
    ensures forall j: nat :: At(Erase(m, Index(i)), j) == if j == i then Null else At(m, j)
    ensures forall j: nat :: Present(Erase(m, Index(i)), j) <==> j != i && Present(m, j)
  {
    hide HasKey, Lookup, Sorted, Erase;
    EraseSpec(m, Index(i));
    forall j | 0 <= j < |Erase(m, Index(i))|
      ensures Erase(m, Index(i))[j] in m
    {
    }
  }

  // ---- the operations

  /** A Json::Value of array type. */
  class ArrayValue {
    var entries: seq<Entry>

    constructor ()
      ensures Valid() && entries == []
    {
      entries := [];
    }

    predicate Valid()
      reads this
    {
      ArrayMap(entries)
    }

    /** operator[] on an array that can be modified: a missing index is inserted with null. */
    method Touch(index: nat) returns (v: Value)
      requires Valid() && index < MAX_UINT32
      modifies this
      ensures Valid() && v == At(entries, index)
      ensures forall j: nat :: At(entries, j) == At(old(entries), j)
      ensures forall j: nat :: Present(entries, j) <==> j == index || Present(old(entries), j)
    {
      hide ArrayMap, HasKey, Lookup, Sorted;
      var i := LowerBound(entries, Index(index));
      if i < |entries| && entries[i].key == Index(index) {
        v := entries[i].value;
        PresentAt(entries, i, index);
        return;
      }
      AbsentAt(entries, index);
      PutKeepsArray(entries, index, Null);
      entries := Put(entries, Index(index), Null);
      v := Null;
    }

    lemma PresentAt(m: seq<Entry>, i: nat, index: nat)
      requires ArrayMap(m) && i < |m| && m[i].key == Index(index)
      ensures At(m, index) == m[i].value && Present(m, index)
    {
      LookupEntry(m, i);
    }

    lemma AbsentAt(m: seq<Entry>, index: nat)
      requires ArrayMap(m)
      requires var i := LowerBound(m, Index(index)); !(i < |m| && m[i].key == Index(index))
      ensures At(m, index) == Null
    {
    }

    /** Assignment through operator[]. */
    method Assign(index: nat, v: Value)
      requires Valid() && index < MAX_UINT32
      modifies this
      ensures Valid()
      ensures forall j: nat :: At(entries, j) == if j == index then v else At(old(entries), j)
      ensures forall j: nat :: Present(entries, j) <==> j == index || Present(old(entries), j)
    {
      hide ArrayMap, HasKey, Lookup, Sorted;
      PutKeepsArray(entries, index, v);
      entries := Put(entries, Index(index), v);
    }

    /** append: the new value goes one past the highest index. */
    method Append(v: Value)
      requires Valid() && ArraySize(entries) < MAX_UINT32
      modifies this
      ensures Valid() && ArraySize(entries) == ArraySize(old(entries)) + 1
      ensures forall j: nat :: At(entries, j) == if j == ArraySize(old(entries)) then v else At(old(entries), j)
      ensures forall j: nat :: Present(entries, j) <==> j == ArraySize(old(entries)) || Present(old(entries), j)
    {
      hide ArrayMap, HasKey, Lookup, Sorted, ArraySize;
      var size := ArraySize(entries);
      SizeIsPastTheLast(entries);
      Assign(size, v);
      SizeByHighest(entries, size + 1);
    }

    /** removeIndex: refuse a missing index; otherwise move every later element down by one, holes becoming nulls on
        the way, and drop the last. */
    method RemoveIndex(index: nat) returns (removed: Option<Value>)
      requires Valid()
      modifies this
      ensures Valid()
      ensures removed.Some? <==> Present(old(entries), index)
      ensures removed.None? ==> entries == old(entries)
      ensures removed.Some? ==> removed.value == At(old(entries), index)
      ensures removed.Some? ==>
        forall j: nat {:trigger At(entries, j)} ::
          At(entries, j) == if j < index then At(old(entries), j) else At(old(entries), j + 1)
      ensures removed.Some? ==> forall j: nat :: Present(entries, j) <==>
        if j < index then Present(old(entries), j) else j + 1 < ArraySize(old(entries))
    {
      hide ArrayMap, HasKey, Lookup, Sorted, ArraySize;
      ghost var before := entries;
      var found := LowerBound(entries, Index(index));
      if found >= |entries| || entries[found].key != Index(index) {
        assert !Present(entries, index) by { MissingIndex(entries, index); }
        return None;
      }
      PresentAt(entries, found, index);
      removed := Some(entries[found].value);
      var oldSize := ArraySize(entries);
      SizeIsPastTheLast(entries);
      SizeInRange(entries);
      assert index < oldSize;
      var i := index;
      while i < oldSize - 1
        invariant index <= i < oldSize
        invariant Valid()
        invariant forall j: nat {:trigger At(entries, j)} ::
          At(entries, j) == if index <= j < i then At(before, j + 1) else At(before, j)
        invariant forall j: nat :: Present(entries, j) <==> Present(before, j) || index <= j <= i
      {
        ghost var m0 := entries;
        var next := Touch(i + 1);
        assert next == At(m0, i + 1);
        Assign(i, next);
        i := i + 1;
      }
      EraseKeepsArray(entries, oldSize - 1);
      entries := Erase(entries, Index(oldSize - 1));
    }

    lemma MissingIndex(m: seq<Entry>, index: nat)
      requires ArrayMap(m)
      requires var i := LowerBound(m, Index(index)); i >= |m| || m[i].key != Index(index)
      ensures !Present(m, index)
    {
      LowerBoundFinds(m, Index(index));
    }

    lemma SizeInRange(m: seq<Entry>)
      requires ArrayMap(m)
      ensures ArraySize(m) <= MAX_UINT32
    {
    }

    /** resize.  The source asserts at the end that the size is the one asked for, and throws if it is not: when the
        array shrinks, that is exactly when the index below the new size is a hole. */
    method Resize(newSize: nat) returns (ok: bool)
      requires Valid() && newSize <= MAX_UINT32
      modifies this
      ensures Valid()
      ensures forall j: nat :: At(entries, j) == if j < newSize then At(old(entries), j) else Null
      ensures ok ==> ArraySize(entries) == newSize
      ensures ok <==> newSize == 0 || newSize > ArraySize(old(entries)) || Present(old(entries), newSize - 1)
      ensures forall j: nat :: Present(entries, j) <==>
        (j < newSize && Present(old(entries), j)) || (newSize > ArraySize(old(entries)) && j == newSize - 1)
    {
      hide ArrayMap, HasKey, Lookup, Sorted, ArraySize, Erase;
      var oldSize := ArraySize(entries);
      SizeIsPastTheLast(entries);
      if newSize == 0 {
        entries := [];
        EmptyArray();
        ok := true;
      } else if newSize > oldSize {
        var _ := Touch(newSize - 1);
        SizeByHighest(entries, newSize);
        ok := true;
      } else {
        var index := newSize;
        while index < oldSize
          invariant newSize <= index <= oldSize
          invariant Valid()
          invariant forall j: nat :: At(entries, j) == if newSize <= j < index then Null else At(old(entries), j)
          invariant forall j: nat :: Present(entries, j) <==> Present(old(entries), j) && !(newSize <= j < index)
        {
          EraseKeepsArray(entries, index);
          entries := Erase(entries, Index(index));
          index := index + 1;
        }
        ok := ArraySize(entries) == newSize;
        SizeIsPastTheLast(entries);
        if Present(entries, newSize - 1) {
          SizeByHighest(entries, newSize);
        }
      }
    }

    lemma EmptyArray()
      ensures ArrayMap([]) && ArraySize([]) == 0
      ensures forall j: nat :: At([], j) == Null && !Present([], j)
    {
    }
  }

  // ---- dense arrays are sequences

  /** The keys are exactly 0 up to the size. */
  predicate Dense(m: seq<Entry>) {
    forall i :: 0 <= i < ArraySize(m) ==> Present(m, i)
  }

  /** The elements up to `n`. */
  function Elements(m: seq<Entry>, n: nat): (s: seq<Value>)
    ensures |s| == n
    ensures forall i :: 0 <= i < n ==> s[i] == At(m, i)
  {
    if n == 0 then [] else Elements(m, n - 1) + [At(m, n - 1)]
  }

  function Contents(m: seq<Entry>): seq<Value> {
    Elements(m, ArraySize(m))
  }

  /** Assignment through operator[] replaces an element, holes included, or appends one at the size; a dense array stays
      dense exactly then. */
  lemma AssignReplaces(m: seq<Entry>, m': seq<Entry>, index: nat, v: Value)
    requires ArrayMap(m) && ArrayMap(m')
    requires forall j: nat :: At(m', j) == if j == index then v else At(m, j)
    requires forall j: nat :: Present(m', j) <==> j == index || Present(m, j)
    ensures index < ArraySize(m) ==> Contents(m') == Contents(m)[index := v]
    ensures index == ArraySize(m) ==> Contents(m') == Contents(m) + [v]
    ensures Dense(m) ==> (Dense(m') <==> index <= ArraySize(m))
  {
    hide ArraySize, ArrayMap, HasKey, Lookup;
    SizeIsPastTheLast(m);
    if index < ArraySize(m) {
      SizeByHighest(m', ArraySize(m));
    } else {
      SizeByHighest(m', index + 1);
      if index > ArraySize(m) { assert !Present(m', ArraySize(m)); }
    }
  }

  /** append is appending, for every array. */
  lemma AppendAppends(m: seq<Entry>, m': seq<Entry>, v: Value)
    requires ArrayMap(m) && ArrayMap(m') && ArraySize(m') == ArraySize(m) + 1
    requires forall j: nat :: At(m', j) == if j == ArraySize(m) then v else At(m, j)
    requires forall j: nat :: Present(m', j) <==> j == ArraySize(m) || Present(m, j)
    ensures Contents(m') == Contents(m) + [v]
    ensures Dense(m) ==> Dense(m')
  {
    hide ArraySize, ArrayMap, HasKey, Lookup;
  }

  /** On a dense array, removeIndex removes one element and leaves the array dense. */
  lemma RemoveIndexRemoves(m: seq<Entry>, m': seq<Entry>, index: nat)
    requires ArrayMap(m) && ArrayMap(m') && Dense(m) && index < ArraySize(m)
    requires forall j: nat {:trigger At(m', j)} :: At(m', j) == if j < index then At(m, j) else At(m, j + 1)
    requires forall j: nat :: Present(m', j) <==> if j < index then Present(m, j) else j + 1 < ArraySize(m)
    ensures Contents(m') == Contents(m)[..index] + Contents(m)[index + 1..]
    ensures Dense(m')
  {
    hide ArraySize, ArrayMap, HasKey, Lookup;
    SizeIsPastTheLast(m);
    SizeByHighest(m', ArraySize(m) - 1);
    var s, t := Contents(m), Contents(m');
    assert |t| == |s| - 1;
    forall i | 0 <= i < |t|
      ensures t[i] == (s[..index] + s[index + 1..])[i]
    {
      assert t[i] == At(m', i);
    }
  }

  /** On a dense array, shrinking never trips the assertion, cuts the elements off, and leaves the array dense. */
  lemma ShrinkingTruncates(m: seq<Entry>, m': seq<Entry>, newSize: nat)
    requires ArrayMap(m) && ArrayMap(m') && Dense(m) && newSize <= ArraySize(m)
    requires forall j: nat :: At(m', j) == if j < newSize then At(m, j) else Null
    requires forall j: nat :: Present(m', j) <==> j < newSize && Present(m, j)
    ensures newSize == 0 || Present(m, newSize - 1)
    ensures Contents(m') == Contents(m)[..newSize] && Dense(m')
  {
    hide ArraySize, ArrayMap, HasKey, Lookup;
    SizeByHighest(m', newSize);
  }

  /** Growing an array by more than one always leaves a hole. */
  lemma GrowingLeavesHoles(m: seq<Entry>, m': seq<Entry>, newSize: nat)
    requires ArrayMap(m) && ArrayMap(m') && ArraySize(m) + 1 < newSize
    requires forall j: nat :: Present(m', j) <==> (j < newSize && Present(m, j)) || j == newSize - 1
    ensures ArraySize(m') == newSize && !Dense(m')
  {
    hide ArraySize, ArrayMap, HasKey, Lookup;
    SizeIsPastTheLast(m);
    SizeByHighest(m', newSize);
    assert !Present(m', ArraySize(m));
  }
}
