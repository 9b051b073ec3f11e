/** Byte strings and the unsigned lexicographic order that every key comparison of the engine uses. */
module ByteStrings {

  type Byte = b: int | 0 <= b < 256

  type Bytes = seq<Byte>

  datatype Option<+T> = None | Some(value: T)

  /** Strict lexicographic order: a proper prefix comes first. */
  predicate Less(a: Bytes, b: Bytes) {
    b != [] && (a == [] || a[0] < b[0] || (a[0] == b[0] && Less(a[1..], b[1..])))
  }

  predicate HasPrefix(k: Bytes, p: Bytes) {
    |p| <= |k| && k[..|p|] == p
  }

  lemma LessTransitive(a: Bytes, b: Bytes, c: Bytes)
    requires Less(a, b) && Less(b, c)
    ensures Less(a, c)
  {
    if a != [] && a[0] == b[0] == c[0] {
      LessTransitive(a[1..], b[1..], c[1..]);
    }
  }

  /** Exactly one of a < b, a == b and b < a holds. */
  lemma {:induction false} LessTrichotomy(a: Bytes, b: Bytes)
    ensures Less(a, b) || a == b || Less(b, a)
    ensures !(Less(a, b) && Less(b, a))
  {
    if a != [] && b != [] {
      LessTrichotomy(a[1..], b[1..]);
      assert a == [a[0]] + a[1..] && b == [b[0]] + b[1..];
    }
  }

  /** The order laws in quantified form, for proofs that mix many keys. */
  lemma LessIsStrictTotalOrder()
    ensures forall a: Bytes, b: Bytes, c: Bytes :: Less(a, b) && Less(b, c) ==> Less(a, c)
    ensures forall a: Bytes, b: Bytes :: Less(a, b) ==> !Less(b, a)
    ensures forall a: Bytes, b: Bytes :: a != b ==> Less(a, b) || Less(b, a)
    ensures forall a: Bytes :: !Less(a, a)
  {
    forall a: Bytes, b: Bytes, c: Bytes | Less(a, b) && Less(b, c) ensures Less(a, c) {
      LessTransitive(a, b, c);
    }
    forall a: Bytes, b: Bytes ensures (Less(a, b) ==> !Less(b, a)) && (a != b ==> Less(a, b) || Less(b, a)) {
      LessTrichotomy(a, b);
    }
  }

  /** A string is never below its own prefix. */
  lemma {:induction false} PrefixNotGreater(k: Bytes, p: Bytes)
    requires HasPrefix(k, p)
    ensures !Less(k, p)
  {
    if p != [] {
      assert k[1..][..|p| - 1] == k[..|p|][1..] == p[1..];
      PrefixNotGreater(k[1..], p[1..]);
    }
  }

  /** Byte-wise comparison: the sign of the answer is the lexicographic order. */
  method Compare(a: Bytes, b: Bytes) returns (r: int)
    ensures r == if Less(a, b) then -1 else if a == b then 0 else 1
  {
    var limit := if |a| < |b| then |a| else |b|;
    var i := 0;
    while i < limit
      invariant 0 <= i <= limit
      invariant a[..i] == b[..i]
      invariant Less(a, b) <==> Less(a[i..], b[i..])
    {
      LessTrichotomy(a[i..], b[i..]);
      if a[i] < b[i] {
        assert a[i..] != b[i..];
        return -1;
      }
      if a[i] > b[i] {
        return 1;
      }
      assert a[i..][1..] == a[i + 1..] && b[i..][1..] == b[i + 1..];
      assert a[..i + 1] == a[..i] + [a[i]] && b[..i + 1] == b[..i] + [b[i]];
      i := i + 1;
    }
    LessTrichotomy(a, b);
    if |a| < |b| {
      return -1;
    }
    if |a| > |b| {
      return 1;
    }
    assert a == a[..i] && b == b[..i];
    return 0;
  }

  /** Compares the leading bytes of a key with a prefix, one by one. */
  method PrefixMatch(key: Bytes, prefix: Bytes) returns (r: bool)
    ensures r == HasPrefix(key, prefix)
  {
    if |prefix| > |key| {
      return false;
    }
    for i := 0 to |prefix|
      invariant key[..i] == prefix[..i]
    {
      if key[i] != prefix[i] {
        assert key[..|prefix|][i] != prefix[i];
        return false;
      }
    }
    return true;
  }
}
