/** Bytes, byte strings and their std::string order.

    Characters of the original are modelled as the unsigned bytes they are stored in.  Where the source works on
    bits, `x & (2^k - 1)` is written `x % 2^k`, `x >> k` is written `x / 2^k`, and `|` of operands that share no
    bit is written `+`. */
module ByteStrings {

  type Byte = b: int | 0 <= b < 0x100

  type Bytes = seq<Byte>

  datatype Option<+T> = None | Some(value: T)

  /** memcmp over the common length, then the shorter string first: the order of std::string and of CZString names. */
  predicate BytesLess(a: Bytes, b: Bytes) {
    if b == [] then false
    else if a == [] then true
    else if a[0] != b[0] then a[0] < b[0]
    else BytesLess(a[1..], b[1..])
  }

  lemma {:induction false} BytesLessTrichotomy(a: Bytes, b: Bytes)
    ensures !BytesLess(a, a)
    ensures a == b || BytesLess(a, b) || BytesLess(b, a)
    ensures !(BytesLess(a, b) && BytesLess(b, a))
    ensures BytesLess(a, b) ==> a != b
  {
    if a != [] {
      BytesLessTrichotomy(a[1..], if b == [] then [] else b[1..]);
      if b != [] && a[0] == b[0] && a[1..] == b[1..] {
        assert a == [a[0]] + a[1..] == [b[0]] + b[1..] == b;
      }
    }
  }

  lemma {:induction false} BytesLessTransitive(a: Bytes, b: Bytes, c: Bytes)
    requires BytesLess(a, b) && BytesLess(b, c)
    ensures BytesLess(a, c)
  {
    if a != [] && a[0] == b[0] == c[0] {
      BytesLessTransitive(a[1..], b[1..], c[1..]);
    }
  }

  lemma DropLeft(a: Bytes, b: Bytes)
    ensures (a + b)[|a|..] == b && (a + b)[..|a|] == a
  {
  }

  lemma Assoc(a: Bytes, b: Bytes, c: Bytes)
    ensures a + b + c == a + (b + c)
  {
  }

  lemma EmptyIsNeutral(a: Bytes)
    ensures [] + a == a && a + [] == a
  {
  }

  lemma Regroup(a: Bytes, b: Bytes, c: Bytes, d: Bytes)
    ensures a + b + c + d == a + (b + c + d) == a + (b + (c + d)) == a + b + (c + d)
    ensures a == [] ==> a + b == b
  {
  }

  lemma RegroupRight(a: Bytes, b: Bytes, c: Bytes, d: Bytes, e: Bytes)
    ensures a + b + c + d + e == a + (b + (c + (d + e)))
    ensures a == [] ==> a + b == b
  {
  }
}
