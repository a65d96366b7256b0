/** Value::operator< and Value::operator==. */
module JsonOrder {
  import opened ByteStrings
  import opened JsonValue

  /** The enumerators of ValueType, in order. */
  function TypeRank(v: Value): int {
    match v
    case Null => 0
    case Int(_) => 1
    case UInt(_) => 2
    case Real(_) => 3
    case String(_) => 4
    case Bool(_) => 5
    case Array(_) => 6
    case Object(_) => 7
  }

  /** Conversion to a 32-bit int. */
  function ToInt32(x: int): int {
    (x + 0x8000_0000) % 0x1_0000_0000 - 0x8000_0000
  }

  lemma SmallDifference(m: nat, n: nat)
    requires m <= MAX_INT32 && n <= MAX_INT32
    ensures ToInt32(m - n) == m - n
  {
  }

  predicate DoubleLess(a: Double, b: Double) {
    match (a, b)
    case (NaN, _) => false
    case (_, NaN) => false
    case (NegInfinity, _) => b != NegInfinity
    case (_, PosInfinity) => a != PosInfinity
    case (Finite(x), Finite(y)) => x < y
    case _ => false
  }

  predicate DoubleEqual(a: Double, b: Double) {
    a == b && a != NaN
  }

  predicate Less(v: Value, w: Value)
    decreases Size(v) + Size(w), 0
  {
    if TypeRank(v) != TypeRank(w) then TypeRank(v) < TypeRank(w)
    else
      match v
      case Null => false
      case Int(i) => i < w.i
      case UInt(u) => u < w.u
      case Real(d) => DoubleLess(d, w.d)
      case Bool(b) => !b && w.b
      case String(s) => BytesLess(s, w.s)
      case Array(m) =>
        var delta := ToInt32(|m| - |w.entries|);
        if delta != 0 then delta < 0 else LessEntries(m, w.entries)
      case Object(m) =>
        var delta := ToInt32(|m| - |w.entries|);
        if delta != 0 then delta < 0 else LessEntries(m, w.entries)
  }

  /** std::map's operator<: lexicographical comparison of the entries. */
  predicate LessEntries(m: seq<Entry>, n: seq<Entry>)
    decreases SizeOfEntries(m) + SizeOfEntries(n), 1
  {
    if n == [] then false
    else if m == [] then true
    else if LessEntry(m[0], n[0]) then true
    else if LessEntry(n[0], m[0]) then false
    else LessEntries(m[1..], n[1..])
  }

  /** std::pair's operator<. */
  predicate LessEntry(e: Entry, f: Entry)
    decreases Size(e.value) + Size(f.value), 1
  {
    KeyLess(e.key, f.key) || (!KeyLess(f.key, e.key) && Less(e.value, f.value))
  }

  predicate Equal(v: Value, w: Value)
    decreases v
  {
    TypeRank(v) == TypeRank(w) &&
    match v
    case Null => true
    case Int(i) => i == w.i
    case UInt(u) => u == w.u
    case Real(d) => DoubleEqual(d, w.d)
    case Bool(b) => b == w.b
    case String(s) => s == w.s
    case Array(m) => |m| == |w.entries| && EqualEntries(m, w.entries)
    case Object(m) => |m| == |w.entries| && EqualEntries(m, w.entries)
  }

  predicate EqualEntries(m: seq<Entry>, n: seq<Entry>)
    requires |m| == |n|
    decreases m
  {
    m == [] ||
    assert m[0].value < m[0];
    (m[0].key == n[0].key && Equal(m[0].value, n[0].value) && EqualEntries(m[1..], n[1..]))
  }

  /** Every container is small enough for the difference of two sizes to be an int. */
  predicate Small(v: Value) {
    match v
    case Array(m) => |m| <= MAX_INT32 && forall e :: e in m ==> Small(e.value)
    case Object(m) => |m| <= MAX_INT32 && forall e :: e in m ==> Small(e.value)
    case _ => true
  }

  /** No real inside `v` is a NaN. */
  predicate NaNFree(v: Value) {
    match v
    case Real(d) => d != NaN
    case Array(m) => forall e :: e in m ==> NaNFree(e.value)
    case Object(m) => forall e :: e in m ==> NaNFree(e.value)
    case _ => true
  }

  ghost predicate Ordinary(v: Value) {
    NaNFree(v) && Small(v)
  }

  ghost predicate OrdinaryEntries(m: seq<Entry>) {
    forall e :: e in m ==> Ordinary(e.value)
  }

  // ---- operator== is equality

  lemma {:induction false} EqualIsEquality(v: Value, w: Value)
    requires NaNFree(v)
    ensures Equal(v, w) <==> v == w
    decreases v
  {
    if (v.Array? && w.Array?) || (v.Object? && w.Object?) {
      if |v.entries| == |w.entries| {
        EqualEntriesIsEquality(v.entries, w.entries);
      }
    }
  }

  lemma {:induction false} EqualEntriesIsEquality(m: seq<Entry>, n: seq<Entry>)
    requires |m| == |n|
    requires forall e :: e in m ==> NaNFree(e.value)
    ensures EqualEntries(m, n) <==> m == n
    decreases m
  {
    if m != [] {
      assert m == [m[0]] + m[1..] && n == [n[0]] + n[1..];
      assert m[0].value < m[0];
      EqualIsEquality(m[0].value, n[0].value);
      EqualEntriesIsEquality(m[1..], n[1..]);
    }
  }

  // ---- operator< is a strict total order

  /** Exactly one of `v < w`, `v == w`, `w < v` holds. */
  lemma {:induction false} Trichotomy(v: Value, w: Value)
    requires Ordinary(v) && Ordinary(w)
    ensures v == w ==> !Less(v, w)
    ensures v == w || Less(v, w) || Less(w, v)
    ensures !(Less(v, w) && Less(w, v))
    decreases Size(v) + Size(w), 0
  {
    hide ToInt32, BytesLess, LessEntries;
    if v.String? && w.String? {
      BytesLessTrichotomy(v.s, w.s);
    } else if (v.Array? && w.Array?) || (v.Object? && w.Object?) {
      SmallDifference(|v.entries|, |w.entries|);
      SmallDifference(|w.entries|, |v.entries|);
      TrichotomyOfEntries(v.entries, w.entries);
    }
  }

  lemma {:induction false} TrichotomyOfEntries(m: seq<Entry>, n: seq<Entry>)
    requires OrdinaryEntries(m) && OrdinaryEntries(n)
    ensures m == n ==> !LessEntries(m, n)
    ensures m == n || LessEntries(m, n) || LessEntries(n, m)
    ensures !(LessEntries(m, n) && LessEntries(n, m))
    decreases SizeOfEntries(m) + SizeOfEntries(n), 1
  {
    if m != [] && n != [] {
      assert m == [m[0]] + m[1..] && n == [n[0]] + n[1..];
      TrichotomyOfEntry(m[0], n[0]);
      TrichotomyOfEntries(m[1..], n[1..]);
    }
  }

  lemma {:induction false} TrichotomyOfEntry(e: Entry, f: Entry)
    requires Ordinary(e.value) && Ordinary(f.value)
    ensures e == f ==> !LessEntry(e, f)
    ensures e == f || LessEntry(e, f) || LessEntry(f, e)
    ensures !(LessEntry(e, f) && LessEntry(f, e))
    decreases Size(e.value) + Size(f.value), 1
  {
    KeyLessTrichotomy(e.key, f.key);
    Trichotomy(e.value, f.value);
  }

  lemma {:induction false} Transitivity(u: Value, v: Value, w: Value)
    requires Ordinary(u) && Ordinary(v) && Ordinary(w)
    requires Less(u, v) && Less(v, w)
    ensures Less(u, w)
    decreases Size(u) + Size(v) + Size(w), 0
  {
    hide ToInt32, BytesLess, LessEntries;
    if u.String? && v.String? && w.String? {
      BytesLessTransitive(u.s, v.s, w.s);
    } else if (u.Array? && v.Array? && w.Array?) || (u.Object? && v.Object? && w.Object?) {
      SmallDifference(|u.entries|, |v.entries|);
      SmallDifference(|v.entries|, |w.entries|);
      SmallDifference(|u.entries|, |w.entries|);
      if |u.entries| == |v.entries| == |w.entries| {
        TransitivityOfEntries(u.entries, v.entries, w.entries);
      }
    }
  }

  lemma {:induction false} TransitivityOfEntries(l: seq<Entry>, m: seq<Entry>, n: seq<Entry>)
    requires OrdinaryEntries(l) && OrdinaryEntries(m) && OrdinaryEntries(n)
    requires LessEntries(l, m) && LessEntries(m, n)
    ensures LessEntries(l, n)
    decreases SizeOfEntries(l) + SizeOfEntries(m) + SizeOfEntries(n), 1
  {
    if l != [] {
      TrichotomyOfEntry(l[0], m[0]);
      TrichotomyOfEntry(m[0], n[0]);
      TrichotomyOfEntry(l[0], n[0]);
      if LessEntry(l[0], m[0]) && LessEntry(m[0], n[0]) {
        TransitivityOfEntry(l[0], m[0], n[0]);
      } else if l[0] == m[0] == n[0] {
        TransitivityOfEntries(l[1..], m[1..], n[1..]);
      }
    }
  }

  lemma {:induction false} TransitivityOfEntry(e: Entry, f: Entry, g: Entry)
    requires Ordinary(e.value) && Ordinary(f.value) && Ordinary(g.value)
    requires LessEntry(e, f) && LessEntry(f, g)
    ensures LessEntry(e, g)
    decreases Size(e.value) + Size(f.value) + Size(g.value), 1
  {
    KeyLessTrichotomy(e.key, f.key);
    KeyLessTrichotomy(f.key, g.key);
    if KeyLess(e.key, f.key) && KeyLess(f.key, g.key) {
      KeyLessTransitive(e.key, f.key, g.key);
    } else if e.key == f.key == g.key {
      KeyLessTrichotomy(e.key, g.key);
      Transitivity(e.value, f.value, g.value);
    }
  }

  /** operator< is a strict total order on NaN-free values, and operator== is the equality it decides. */
  lemma LessIsStrictTotalOrder(u: Value, v: Value, w: Value)
    requires Ordinary(u) && Ordinary(v) && Ordinary(w)
    ensures !Less(v, v)
    ensures Equal(v, w) <==> v == w
    ensures Equal(v, w) <==> !Less(v, w) && !Less(w, v)
    ensures !(Less(v, w) && Less(w, v))
    ensures Less(u, v) && Less(v, w) ==> Less(u, w)
  {
    Trichotomy(v, v);
    Trichotomy(v, w);
    EqualIsEquality(v, w);
    if Less(u, v) && Less(v, w) {
      Transitivity(u, v, w);
    }
  }

  /** NaN is exactly what breaks operator==: a value equals itself if and only if it holds none. */
  lemma {:induction false} ReflexiveExactlyWithoutNaN(v: Value)
    ensures Equal(v, v) <==> NaNFree(v)
    decreases v
  {
    if v.Array? || v.Object? {
      EntriesReflexiveExactlyWithoutNaN(v.entries);
    }
  }

  lemma {:induction false} EntriesReflexiveExactlyWithoutNaN(m: seq<Entry>)
    ensures EqualEntries(m, m) <==> forall e :: e in m ==> NaNFree(e.value)
    decreases m
  {
    if m != [] {
      assert m[0].value < m[0];
      assert forall e :: e in m <==> e == m[0] || e in m[1..];
      ReflexiveExactlyWithoutNaN(m[0].value);
      EntriesReflexiveExactlyWithoutNaN(m[1..]);
    }
  }
}
