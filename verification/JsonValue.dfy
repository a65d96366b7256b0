/** Json::Value and the std::map<CZString, Value> it keeps arrays and objects in. */
module JsonValue {
  import opened ByteStrings

  const MIN_INT64: int := -0x8000_0000_0000_0000
  const MAX_INT64: int := 0x7fff_ffff_ffff_ffff
  const MAX_UINT64: int := 0xffff_ffff_ffff_ffff
  const MAX_INT32: int := 0x7fff_ffff
  const MAX_UINT32: int := 0xffff_ffff

  /** The longest string duplicateAndPrefixStringValue accepts: maxInt - sizeof(unsigned) - 1. */
  const MAX_STRING: int := MAX_INT32 - 5

  /** Keys must be shorter than this many bytes. */
  const KEY_LIMIT: int := 0x4000_0000

  /** What sscanf("%lf") can deliver; arithmetic on it is not modelled. */
  datatype Double = NaN | NegInfinity | PosInfinity | Finite(r: real)

  /** A map key: an array index, or an object member name. */
  datatype CZString = Index(index: nat) | Name(bytes: Bytes)

  datatype Entry = Entry(key: CZString, value: Value)

  /** The std::map of an array or object is the sequence of its entries in iteration order. */
  datatype Value =
    | Null
    | Int(i: int)
    | UInt(u: int)
    | Real(d: Double)
    | String(s: Bytes)
    | Bool(b: bool)
    | Array(entries: seq<Entry>)
    | Object(entries: seq<Entry>)

  /** CZString::operator<.  An index and a name are never compared by the source; they are ordered here only to
      keep the function total. */
  predicate KeyLess(k: CZString, l: CZString) {
    match (k, l)
    case (Index(i), Index(j)) => i < j
    case (Name(a), Name(b)) => BytesLess(a, b)
    case (Index(_), Name(_)) => true
    case (Name(_), Index(_)) => false
  }

  lemma KeyLessTrichotomy(k: CZString, l: CZString)
    ensures !KeyLess(k, k)
    ensures k == l || KeyLess(k, l) || KeyLess(l, k)
    ensures !(KeyLess(k, l) && KeyLess(l, k))
    ensures KeyLess(k, l) ==> k != l
  {
    if k.Name? && l.Name? { BytesLessTrichotomy(k.bytes, l.bytes); }
    if k.Name? { BytesLessTrichotomy(k.bytes, k.bytes); }
  }

  lemma KeyLessTransitive(k: CZString, l: CZString, m: CZString)
    requires KeyLess(k, l) && KeyLess(l, m)
    ensures KeyLess(k, m)
  {
    if k.Name? && l.Name? && m.Name? { BytesLessTransitive(k.bytes, l.bytes, m.bytes); }
  }

  // ---- the ordered map

  predicate Sorted(m: seq<Entry>) {
    forall i, j :: 0 <= i < j < |m| ==> KeyLess(m[i].key, m[j].key)
  }

  predicate HasKey(m: seq<Entry>, k: CZString) {
    exists i :: 0 <= i < |m| && m[i].key == k
  }

  /** std::map::lower_bound: the first position whose key is not less than `k`. */
  function LowerBound(m: seq<Entry>, k: CZString): (i: nat)
    ensures i <= |m|
    ensures forall j :: 0 <= j < i ==> KeyLess(m[j].key, k)
    ensures i < |m| ==> !KeyLess(m[i].key, k)
  {
    if m == [] || !KeyLess(m[0].key, k) then 0 else 1 + LowerBound(m[1..], k)
  }

  /** The value stored at `k`, or null: the shared null value the source returns for a missing key. */
  function Lookup(m: seq<Entry>, k: CZString): Value {
    var i := LowerBound(m, k);
    if i < |m| && m[i].key == k then m[i].value else Null
  }

  /** Assignment through `operator[]`: overwrite the entry at `k`, or insert it where lower_bound says. */
  function Put(m: seq<Entry>, k: CZString, v: Value): seq<Entry> {
    var i := LowerBound(m, k);
    if i < |m| && m[i].key == k then m[i := Entry(k, v)] else m[..i] + [Entry(k, v)] + m[i..]
  }

  lemma LowerBoundFinds(m: seq<Entry>, k: CZString)
    requires Sorted(m)
    ensures HasKey(m, k) <==> LowerBound(m, k) < |m| && m[LowerBound(m, k)].key == k
    ensures forall j :: 0 <= j < |m| && m[j].key == k ==> j == LowerBound(m, k)
    ensures forall j :: LowerBound(m, k) <= j < |m| && m[j].key != k ==> KeyLess(k, m[j].key)
  {
    var i := LowerBound(m, k);
    forall j | 0 <= j < |m| && m[j].key == k
      ensures j == i
    {
      KeyLessTrichotomy(k, k);
    }
    forall j | i <= j < |m| && m[j].key != k
      ensures KeyLess(k, m[j].key)
    {
      KeyLessTrichotomy(m[j].key, k);
      KeyLessTrichotomy(m[i].key, k);
      if KeyLess(m[j].key, k) && i < j {
        KeyLessTransitive(m[i].key, m[j].key, k);
      }
    }
  }

  /** Insertion keeps the map sorted, and afterwards `k` holds `v` and every other key what it held before. */
  lemma PutSpec(m: seq<Entry>, k: CZString, v: Value)
    requires Sorted(m)
    ensures Sorted(Put(m, k, v))
    ensures HasKey(Put(m, k, v), k) && Lookup(Put(m, k, v), k) == v
    ensures forall l :: l != k ==> Lookup(Put(m, k, v), l) == Lookup(m, l)
    ensures forall l :: l != k ==> (HasKey(Put(m, k, v), l) <==> HasKey(m, l))
  {
    var p := Put(m, k, v);
    PutSorted(m, k, v);
    assert p[LowerBound(m, k)] == Entry(k, v);
    LowerBoundFinds(p, k);
    forall l | l != k
      ensures Lookup(p, l) == Lookup(m, l)
      ensures HasKey(p, l) <==> HasKey(m, l)
    {
      PutFrame(m, k, v, l);
    }
  }

  lemma PutFrame(m: seq<Entry>, k: CZString, v: Value, l: CZString)
    requires Sorted(m) && l != k
    ensures Lookup(Put(m, k, v), l) == Lookup(m, l)
    ensures HasKey(Put(m, k, v), l) <==> HasKey(m, l)
  {
    var i, p := LowerBound(m, k), Put(m, k, v);
    var hit := i < |m| && m[i].key == k;
    PutSorted(m, k, v);
    if HasKey(m, l) {
      var j :| 0 <= j < |m| && m[j].key == l;
      var j' := if hit || j < i then j else j + 1;
      assert p[j'] == m[j];
      LookupEntry(m, j);
      LookupEntry(p, j');
    } else {
      forall j | 0 <= j < |p|
        ensures p[j].key != l
      {
        assert j == i || p[j] == m[if hit || j < i then j else j - 1];
      }
      LowerBoundFinds(m, l);
      LowerBoundFinds(p, l);
    }
  }

  lemma LookupEntry(m: seq<Entry>, i: nat)
    requires Sorted(m) && i < |m|
    ensures Lookup(m, m[i].key) == m[i].value
  {
    LowerBoundFinds(m, m[i].key);
  }

  lemma PutSorted(m: seq<Entry>, k: CZString, v: Value)
    requires Sorted(m)
    ensures Sorted(Put(m, k, v))
  {
    LowerBoundFinds(m, k);
  }

  /** A key above all others is inserted at the end. */
  lemma PutAppends(m: seq<Entry>, k: CZString, v: Value)
    requires forall j :: 0 <= j < |m| ==> KeyLess(m[j].key, k)
    ensures Put(m, k, v) == m + [Entry(k, v)]
  {
  }

  // ---- sizes and well-formedness

  /** Value::size of an array: one past the highest index, in 32 bits. */
  function ArraySize(m: seq<Entry>): (n: nat)
    ensures n > 0 ==> m != []
    ensures n < 0x1_0000_0000
  {
    if m == [] || !m[|m| - 1].key.Index? then 0 else (m[|m| - 1].key.index + 1) % 0x1_0000_0000
  }

  /** The number of values and entries in `v`, a measure for recursion through maps. */
  function Size(v: Value): nat
    decreases v
  {
    match v
    case Array(m) => 1 + SizeOfEntries(m)
    case Object(m) => 1 + SizeOfEntries(m)
    case _ => 1
  }

  function SizeOfEntries(m: seq<Entry>): nat
    decreases m
  {
    if m == [] then 0
    else
      assert m[0].value < m[0];
      1 + Size(m[0].value) + SizeOfEntries(m[1..])
  }

  lemma {:induction false} LookupIsSmaller(m: seq<Entry>, k: CZString)
    requires m != []
    ensures Size(Lookup(m, k)) < SizeOfEntries(m)
  {
    var i := LowerBound(m, k);
    if i < |m| && m[i].key == k {
      EntryIsSmaller(m, i);
    }
  }

  lemma {:induction false} EntryIsSmaller(m: seq<Entry>, i: nat)
    requires i < |m|
    ensures Size(m[i].value) < SizeOfEntries(m)
  {
    if i > 0 {
      EntryIsSmaller(m[1..], i - 1);
    }
  }

  predicate ArrayMap(m: seq<Entry>) {
    && Sorted(m)
    && forall i :: 0 <= i < |m| ==> m[i].key.Index? && m[i].key.index < MAX_UINT32
  }

  /** The keys are exactly 0, 1, 2 and so on. */
  predicate DenseKeys(m: seq<Entry>) {
    forall i :: 0 <= i < |m| ==> m[i].key == Index(i)
  }

  predicate ObjectMap(m: seq<Entry>) {
    && Sorted(m)
    && forall i :: 0 <= i < |m| ==> m[i].key.Name? && |m[i].key.bytes| < KEY_LIMIT
  }

  /** What every Json::Value satisfies: numbers fit their 64-bit fields, strings and keys their length fields, and
      the maps are sorted and hold keys of the right kind. */
  predicate WellFormed(v: Value) {
    match v
    case Int(i) => MIN_INT64 <= i <= MAX_INT64
    case UInt(u) => 0 <= u <= MAX_UINT64
    case String(s) => |s| <= MAX_STRING
    case Array(m) => ArrayMap(m) && forall e :: e in m ==> WellFormed(e.value)
    case Object(m) => ObjectMap(m) && forall e :: e in m ==> WellFormed(e.value)
    case _ => true
  }

  predicate RealFree(v: Value) {
    match v
    case Real(_) => false
    case Array(m) => forall e :: e in m ==> RealFree(e.value)
    case Object(m) => forall e :: e in m ==> RealFree(e.value)
    case _ => true
  }

  /** Array holes read as null; the entry an array shows at each index below its size. */
  function At(m: seq<Entry>, i: nat): Value {
    Lookup(m, Index(i))
  }
}
