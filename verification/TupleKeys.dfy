/** Hierarchical keys: each part behind its length, one byte below 128, a marker and two bytes from 128 up. */
module TupleKeys {
  import opened ByteStrings
  import opened Layout

  const INLINE_MAX := 128
  const LONG_MARKER := 255
  const MAX_SUBSCRIPTS := 16
  const MAX_KEY_SIZE := 256
  const MAX_PART := 65536

  function Prefix(n: nat): (r: Bytes)
    requires n < MAX_PART
    ensures |r| == PrefixSize(n)
  {
    if n < INLINE_MAX then [n] else [LONG_MARKER, n / 256, n % 256]
  }

  function PrefixSize(n: int): nat {
    if n < INLINE_MAX then 1 else 3
  }

  predicate AllShort(parts: seq<Bytes>) {
    forall i :: 0 <= i < |parts| ==> |parts[i]| < MAX_PART
  }

  function PartBytes(p: Bytes): (r: Bytes)
    requires |p| < MAX_PART
    ensures |r| == PrefixSize(|p|) + |p|
  {
    Prefix(|p|) + p
  }

  /** The encoding of a tuple. */
  function KeyBytes(parts: seq<Bytes>): Bytes
    requires AllShort(parts)
  {
    if parts == [] then []
    else
      var n := |parts| - 1;
      KeyBytes(parts[..n]) + PartBytes(parts[n])
  }

  /** The first klen bytes of the buffer are the key of these parts. */
  ghost predicate IsKey(s: Bytes, klen: int, parts: seq<Bytes>) {
    AllShort(parts) && klen == |KeyBytes(parts)| <= |s| && s[..klen] == KeyBytes(parts)
  }

  // ---------- the encoding is a free concatenation ----------

  lemma Assoc(a: Bytes, b: Bytes, c: Bytes)
    ensures (a + b) + c == a + (b + c)
  {
  }

  lemma {:induction false} KeyAppend(parts: seq<Bytes>, p: Bytes)
    requires AllShort(parts) && |p| < MAX_PART
    ensures KeyBytes(parts + [p]) == KeyBytes(parts) + PartBytes(p)
  {
    assert (parts + [p])[..|parts|] == parts;
  }

  /** The key of a longer tuple is the concatenation of the keys of its pieces. */
  lemma {:induction false} KeyConcat(a: seq<Bytes>, b: seq<Bytes>)
    requires AllShort(a) && AllShort(b)
    ensures KeyBytes(a + b) == KeyBytes(a) + KeyBytes(b)
  {
    if b == [] {
      assert a + b == a;
      assert KeyBytes(a) + [] == KeyBytes(a);
    } else {
      var n := |b| - 1;
      var c, p := b[..n], b[n];
      KeyConcat(a, c);
      assert b == c + [p] && a + b == (a + c) + [p];
      KeyAppend(a + c, p);
      KeyAppend(c, p);
      Assoc(KeyBytes(a), KeyBytes(c), PartBytes(p));
    }
  }

  /** What the length prefix at an offset says; one cut off by the end of the buffer is taken as it stands. */
  function DecodeLength(s: Bytes, offset: nat): nat
    requires offset < |s|
  {
    var v0: int := s[offset];
    if v0 != LONG_MARKER || offset + 2 >= |s| then v0
    else
      var v1: int, v2: int := s[offset + 1], s[offset + 2];
      v1 * 256 + v2
  }

  lemma {:induction false} LengthDecodes(s: Bytes, offset: nat, n: nat, rest: Bytes)
    requires n < MAX_PART && offset <= |s| && s[offset..] == Prefix(n) + rest
    ensures offset < |s| && DecodeLength(s, offset) == n && (s[offset] == LONG_MARKER <==> n >= INLINE_MAX)
  {
    var t := s[offset..];
    assert s[offset] == t[0];
    if n >= INLINE_MAX {
      assert s[offset + 1] == t[1] && s[offset + 2] == t[2];
    }
  }

  /** A key around its part i. */
  lemma {:induction false} KeyAround(parts: seq<Bytes>, i: nat)
    requires AllShort(parts) && i < |parts|
    ensures AllShort(parts[i + 1..])
    ensures KeyBytes(parts) == KeyBytes(parts[..i]) + (Prefix(|parts[i]|) + (parts[i] + KeyBytes(parts[i + 1..])))
    ensures |KeyBytes(parts[..i + 1])| == |KeyBytes(parts[..i])| + PrefixSize(|parts[i]|) + |parts[i]|
  {
    var k, p, rest := KeyBytes(parts[..i]), Prefix(|parts[i]|), KeyBytes(parts[i + 1..]);
    assert parts == parts[..i + 1] + parts[i + 1..];
    KeyConcat(parts[..i + 1], parts[i + 1..]);
    assert parts[..i + 1][..i] == parts[..i];
    Assoc(k, p + parts[i], rest);
    Assoc(p, parts[i], rest);
  }

  lemma {:induction false} SplitEqual(a: Bytes, b: Bytes, c: Bytes, d: Bytes)
    requires a + b == c + d && |a| == |c|
    ensures a == c && b == d
  {
    assert a == (a + b)[..|a|] && c == (c + d)[..|c|];
    assert b == (a + b)[|a|..] && d == (c + d)[|c|..];
  }

  /** Different tuples have different keys. */
  lemma {:induction false} KeysAreUnique(a: seq<Bytes>, b: seq<Bytes>)
    requires AllShort(a) && AllShort(b) && KeyBytes(a) == KeyBytes(b)
    ensures a == b
  {
    if a != [] && b != [] {
      FirstPart(a);
      FirstPart(b);
      var p := Prefix(|a[0]|);
      assert |a[0]| == |b[0]|;
      SplitEqual(p, a[0] + KeyBytes(a[1..]), p, b[0] + KeyBytes(b[1..]));
      SplitEqual(a[0], KeyBytes(a[1..]), b[0], KeyBytes(b[1..]));
      KeysAreUnique(a[1..], b[1..]);
      assert a == [a[0]] + a[1..] && b == [b[0]] + b[1..];
    }
  }

  lemma {:induction false} FirstPart(a: seq<Bytes>)
    requires AllShort(a) && a != []
    ensures AllShort(a[1..]) && KeyBytes(a) == Prefix(|a[0]|) + (a[0] + KeyBytes(a[1..]))
    ensures KeyBytes(a) != [] && DecodeLength(KeyBytes(a), 0) == |a[0]|
  {
    KeyAround(a, 0);
    var k := Prefix(|a[0]|) + (a[0] + KeyBytes(a[1..]));
    assert a[..0] == [] && [] + k == k;
    assert KeyBytes(a)[0..] == k;
    LengthDecodes(KeyBytes(a), 0, |a[0]|, a[0] + KeyBytes(a[1..]));
  }

  // ---------- the order of keys ----------

  /** Parts by length first, then by bytes. */
  predicate PartBefore(p: Bytes, q: Bytes) {
    |p| < |q| || (|p| == |q| && Less(p, q))
  }

  /** Tuples part by part in that order, a proper prefix first. */
  predicate TupleBefore(a: seq<Bytes>, b: seq<Bytes>) {
    b != [] && (a == [] || PartBefore(a[0], b[0]) || (a[0] == b[0] && TupleBefore(a[1..], b[1..])))
  }

  /** Tuples part by part in the order of their bytes, a proper prefix first. */
  predicate PartsBefore(a: seq<Bytes>, b: seq<Bytes>) {
    b != [] && (a == [] || Less(a[0], b[0]) || (a[0] == b[0] && PartsBefore(a[1..], b[1..])))
  }

  /**
   * Where the tuples first differ, one has ended, or the parts have equal length, or the shorter
   * part is also the smaller one.
   */
  predicate LengthsAgree(a: seq<Bytes>, b: seq<Bytes>) {
    a == [] || b == []
    || (if a[0] == b[0] then LengthsAgree(a[1..], b[1..]) else |a[0]| == |b[0]| || (|a[0]| < |b[0]| <==> Less(a[0], b[0])))
  }

  lemma {:induction false} LessBehind(p: Bytes, x: Bytes, y: Bytes)
    ensures Less(p + x, p + y) <==> Less(x, y)
  {
    if p == [] {
      assert p + x == x && p + y == y;
    } else {
      assert (p + x)[1..] == p[1..] + x && (p + y)[1..] == p[1..] + y;
      LessBehind(p[1..], x, y);
    }
  }

  lemma {:induction false} LessDecided(p: Bytes, q: Bytes, x: Bytes, y: Bytes)
    requires |p| == |q| && p != q
    ensures Less(p + x, q + y) <==> Less(p, q)
  {
    assert (p + x)[1..] == p[1..] + x && (q + y)[1..] == q[1..] + y;
    if p[0] == q[0] {
      assert p == [p[0]] + p[1..] && q == [q[0]] + q[1..];
      LessDecided(p[1..], q[1..], x, y);
    }
  }

  /** Length prefixes sort as the lengths do, whatever follows. */
  lemma {:induction false} PrefixOrder(n: nat, m: nat, x: Bytes, y: Bytes)
    requires n < m < MAX_PART
    ensures Less(Prefix(n) + x, Prefix(m) + y) && !Less(Prefix(m) + y, Prefix(n) + x)
  {
    if n >= INLINE_MAX {
      var p, q := Prefix(n), Prefix(m);
      assert p[0] == q[0] && p[1..][0] == p[1] && q[1..][0] == q[1] && p[1..][1..][0] == p[2] && q[1..][1..][0] == q[2];
      assert Less(p, q);
      LessDecided(p, q, x, y);
    }
    LessTrichotomy(Prefix(n) + x, Prefix(m) + y);
  }

  /** Keys sort as their tuples do when parts are compared by length first. */
  lemma {:induction false} KeyOrder(a: seq<Bytes>, b: seq<Bytes>)
    requires AllShort(a) && AllShort(b)
    ensures Less(KeyBytes(a), KeyBytes(b)) <==> TupleBefore(a, b)
  {
    KeyEmpty(a);
    if a != [] && b != [] {
      FirstPart(a);
      FirstPart(b);
      var n, m, x, y := |a[0]|, |b[0]|, KeyBytes(a[1..]), KeyBytes(b[1..]);
      if n < m {
        PrefixOrder(n, m, a[0] + x, b[0] + y);
      } else if m < n {
        PrefixOrder(m, n, b[0] + y, a[0] + x);
      } else {
        LessBehind(Prefix(n), a[0] + x, b[0] + y);
        LessTrichotomy(a[0], b[0]);
        if a[0] == b[0] {
          LessBehind(a[0], x, y);
          KeyOrder(a[1..], b[1..]);
        } else {
          LessDecided(a[0], b[0], x, y);
        }
      }
    }
  }

  lemma {:induction false} KeyEmpty(a: seq<Bytes>)
    requires AllShort(a)
    ensures KeyBytes(a) == [] <==> a == []
  {
    if a != [] {
      FirstPart(a);
    }
  }

  /** Keys sort as the parts themselves do exactly when the lengths agree with that at the first difference. */
  lemma {:induction false} OrderIsKeptWhen(a: seq<Bytes>, b: seq<Bytes>)
    requires AllShort(a) && AllShort(b)
    ensures (Less(KeyBytes(a), KeyBytes(b)) <==> PartsBefore(a, b)) <==> LengthsAgree(a, b)
  {
    KeyOrder(a, b);
    OrdersCompared(a, b);
  }

  lemma {:induction false} OrdersCompared(a: seq<Bytes>, b: seq<Bytes>)
    ensures (TupleBefore(a, b) <==> PartsBefore(a, b)) <==> LengthsAgree(a, b)
  {
    if a != [] && b != [] {
      LessTrichotomy(a[0], b[0]);
      if a[0] == b[0] {
        OrdersCompared(a[1..], b[1..]);
      }
    }
  }

  /** It does go wrong: a longer part comes later whatever its bytes. */
  lemma {:induction false} OrderIsNotKept()
    ensures PartsBefore([[97, 97]], [[98]]) && Less(KeyBytes([[98]]), KeyBytes([[97, 97]]))
  {
    KeyOrder([[98]], [[97, 97]]);
  }

  /** Part i of a key: where it starts, what its prefix says, and where it ends. */
  lemma {:induction false} PartAt(s: Bytes, klen: int, parts: seq<Bytes>, i: nat)
    requires IsKey(s, klen, parts) && i < |parts|
    ensures var at, h, n := |KeyBytes(parts[..i])|, PrefixSize(|parts[i]|), |parts[i]|;
            && at < at + h + n == |KeyBytes(parts[..i + 1])| <= klen
            && DecodeLength(s, at) == n && (s[at] == LONG_MARKER <==> h == 3)
            && s[at + h..at + h + n] == parts[i] && s[..at] == KeyBytes(parts[..i])
  {
    KeyAround(parts, i);
    var k, p, rest := KeyBytes(parts[..i]), Prefix(|parts[i]|), KeyBytes(parts[i + 1..]) + s[klen..];
    assert s == s[..klen] + s[klen..];
    AssocFour(k, p, parts[i], KeyBytes(parts[i + 1..]), s[klen..]);
    PieceOf(s, k, p, parts[i], rest);
    LengthDecodes(s, |k|, |parts[i]|, parts[i] + rest);
  }

  lemma AssocFour(a: Bytes, b: Bytes, c: Bytes, d: Bytes, e: Bytes)
    ensures (a + (b + (c + d))) + e == a + (b + (c + (d + e)))
  {
    Assoc(a, b + (c + d), e);
    Assoc(b, c + d, e);
    Assoc(c, d, e);
  }

  lemma {:induction false} PieceOf(s: Bytes, a: Bytes, b: Bytes, c: Bytes, d: Bytes)
    requires s == a + (b + (c + d))
    ensures s[..|a|] == a && s[|a|..] == b + (c + d) && s[|a| + |b|..|a| + |b| + |c|] == c
  {
  }

  /** A prefix of the tuple has a prefix of the key. */
  lemma {:induction false} PrefixIsKey(s: Bytes, klen: int, parts: seq<Bytes>, i: nat)
    requires IsKey(s, klen, parts) && i <= |parts|
    ensures IsKey(s, |KeyBytes(parts[..i])|, parts[..i])
  {
    if i < |parts| {
      PartAt(s, klen, parts, i);
    } else {
      assert parts[..i] == parts;
    }
  }

  // ---------- operations ----------

  method EncodeLength(buf: array<Byte>, offset: nat, n: nat) returns (end: nat)
    requires n < MAX_PART && offset + PrefixSize(n) <= buf.Length
    modifies buf
    ensures end == offset + PrefixSize(n) && Patched(old(buf[..]), buf[..], offset, Prefix(n))
  {
    ghost var s := buf[..];
    if n < INLINE_MAX {
      buf[offset] := n;
      end := offset + 1;
    } else {
      buf[offset] := LONG_MARKER;
      buf[offset + 1] := n / 256 % 256;
      buf[offset + 2] := n % 256;
      assert n / 256 % 256 == n / 256;
      end := offset + 3;
    }
    PatchedIs(s, buf[..], offset, Prefix(n));
  }

  ghost predicate ZeroFrom(s: Bytes, at: int) {
    0 <= at <= |s| && forall j :: at <= j < |s| ==> s[j] == 0
  }

  method Clear(out: array<Byte>)
    modifies out
    ensures ZeroFrom(out[..], 0)
  {
    for i := 0 to out.Length
      invariant forall j :: 0 <= j < i ==> out[j] == 0
    {
      out[i] := 0;
    }
  }

  /** Appends a part to the key that the first `offset` bytes hold. */
  method AppendPart(out: array<Byte>, offset: nat, p: Bytes, ghost parts: seq<Bytes>) returns (end: nat)
    requires IsKey(out[..], offset, parts) && |p| < MAX_PART && offset + PrefixSize(|p|) + |p| <= out.Length
    requires ZeroFrom(out[..], offset)
    modifies out
    ensures end == offset + PrefixSize(|p|) + |p| && IsKey(out[..], end, parts + [p]) && ZeroFrom(out[..], end)
  {
    ghost var s := out[..];
    end := EncodeLength(out, offset, |p|);
    ghost var t := out[..];
    CopyBytesIn(out, end, p);
    end := end + |p|;
    ghost var u := out[..];
    AppendedIs(s, t, u, offset, Prefix(|p|), p);
    assert (parts + [p])[..|parts|] == parts;
    assert u[..end] == s[..offset] + PartBytes(p);
  }

  lemma {:induction false} AppendedIs(s: Bytes, t: Bytes, u: Bytes, at: nat, a: Bytes, b: Bytes)
    requires Patched(s, t, at, a) && Patched(t, u, at + |a|, b) && ZeroFrom(s, at)
    ensures u[..at + |a| + |b|] == s[..at] + (a + b) && ZeroFrom(u, at + |a| + |b|)
  {
    var end := at + |a| + |b|;
    PatchedOutside(t, u, at + |a|, b, 0, at);
    PatchedOutside(t, u, at + |a|, b, at, at + |a|);
    SameWithin(s, t, at + |a|, |s|, end, |s|);
    assert u[..end] == u[0..at] + (u[at..at + |a|] + u[at + |a|..end]);
    assert s[0..at] == s[..at];
    forall j | end <= j < |u| ensures u[j] == 0 {
      assert u[j] == u[end..|u|][j - end] && t[j] == t[end..|u|][j - end] && s[j] == s[end..|u|][j - end];
    }
  }

  /** The key of the tuple, followed by zeros. */
  method EncodeKeyTuple(parts: seq<Bytes>, out: array<Byte>) returns (ghost end: nat)
    requires |parts| <= MAX_SUBSCRIPTS && AllShort(parts) && |KeyBytes(parts)| <= out.Length == MAX_KEY_SIZE
    modifies out
    ensures end == |KeyBytes(parts)| && IsKey(out[..], end, parts) && ZeroFrom(out[..], end)
  {
    Clear(out);
    var offset: nat := 0;
    for i := 0 to |parts|
      invariant IsKey(out[..], offset, parts[..i]) && ZeroFrom(out[..], offset)
    {
      assert IsKey(KeyBytes(parts), |KeyBytes(parts)|, parts) by {
        assert KeyBytes(parts)[..|KeyBytes(parts)|] == KeyBytes(parts);
      }
      PartAt(KeyBytes(parts), |KeyBytes(parts)|, parts, i);
      offset := AppendPart(out, offset, parts[i], parts[..i]);
      assert parts[..i] + [parts[i]] == parts[..i + 1];
    }
    assert parts[..|parts|] == parts;
    end := offset;
  }

  /** Where each part lies in the buffer: at most 16 of them. */
  datatype Piece = Piece(at: nat, len: nat)

  function Text(s: Bytes, p: Piece): Bytes {
    if p.at + p.len <= |s| then s[p.at..p.at + p.len] else []
  }

  ghost predicate Texts(s: Bytes, r: seq<Piece>, parts: seq<Bytes>) {
    |r| <= |parts| && forall i :: 0 <= i < |r| ==> Text(s, r[i]) == parts[i]
  }

  lemma {:induction false} TextsMore(s: Bytes, r: seq<Piece>, p: Piece, parts: seq<Bytes>)
    requires Texts(s, r, parts) && |r| < |parts| && Text(s, p) == parts[|r|]
    ensures Texts(s, r + [p], parts)
  {
  }

  /** The part at an offset, and where the next one starts. */
  method ReadPiece(s: Bytes, offset: nat, ghost klen: int, ghost parts: seq<Bytes>, ghost i: nat) returns (p: Piece, next: nat)
    requires offset < |s|
    ensures IsKey(s, klen, parts) && i < |parts| && offset == |KeyBytes(parts[..i])| ==> Text(s, p) == parts[i] && next == |KeyBytes(parts[..i + 1])|
  {
    if IsKey(s, klen, parts) && i < |parts| && offset == |KeyBytes(parts[..i])| {
      PartAt(s, klen, parts, i);
    }
    var n := DecodeLength(s, offset);
    var h := if s[offset] == LONG_MARKER then 3 else 1;
    p := Piece(offset + h, n);
    next := offset + h + n;
  }

  method DecodeKeyTuple(s: Bytes, elen: nat, ghost parts: seq<Bytes>) returns (r: seq<Piece>)
    requires elen <= |s|
    ensures |r| <= MAX_SUBSCRIPTS
    ensures IsKey(s, elen, parts) && |parts| <= MAX_SUBSCRIPTS ==> |r| == |parts| && forall i :: 0 <= i < |r| ==> Text(s, r[i]) == parts[i]
  {
    ghost var written := IsKey(s, elen, parts) && |parts| <= MAX_SUBSCRIPTS;
    r := [];
    var offset: nat := 0;
    while offset < elen && |r| < MAX_SUBSCRIPTS
      invariant |r| <= MAX_SUBSCRIPTS
      invariant written ==> DecodedTo(s, elen, parts, r, offset)
      decreases MAX_SUBSCRIPTS - |r|
    {
      if written {
        KeyGrows(s, elen, parts, |r|);
      }
      var p, next := ReadPiece(s, offset, elen, parts, |r|);
      if written {
        TextsMore(s, r, p, parts);
      }
      r := r + [p];
      offset := next;
    }
    if written {
      DecodedAll(s, elen, parts, r, offset);
    }
  }

  /** The pieces are the first parts of the key, and the next part starts at the offset. */
  ghost predicate DecodedTo(s: Bytes, elen: int, parts: seq<Bytes>, r: seq<Piece>, offset: nat) {
    IsKey(s, elen, parts) && Texts(s, r, parts) && offset == |KeyBytes(parts[..|r|])|
  }

  lemma {:induction false} DecodedAll(s: Bytes, elen: int, parts: seq<Bytes>, r: seq<Piece>, offset: nat)
    requires DecodedTo(s, elen, parts, r, offset) && |parts| <= MAX_SUBSCRIPTS && !(offset < elen && |r| < MAX_SUBSCRIPTS)
    ensures |r| == |parts| && forall i :: 0 <= i < |r| ==> Text(s, r[i]) == parts[i]
  {
    KeyEnds(s, elen, parts, |r|);
  }

  /** Before the end of the key there is another part; at the end there is none. */
  lemma {:induction false} KeyGrows(s: Bytes, klen: int, parts: seq<Bytes>, i: nat)
    requires IsKey(s, klen, parts) && i <= |parts|
    ensures |KeyBytes(parts[..i])| < klen <==> i < |parts|
  {
    if i < |parts| {
      PartAt(s, klen, parts, i);
    } else {
      assert parts[..i] == parts;
    }
  }

  lemma {:induction false} KeyEnds(s: Bytes, klen: int, parts: seq<Bytes>, i: nat)
    requires IsKey(s, klen, parts) && i <= |parts| <= MAX_SUBSCRIPTS
    requires !(|KeyBytes(parts[..i])| < klen && i < MAX_SUBSCRIPTS)
    ensures i == |parts|
  {
    KeyGrows(s, klen, parts, i);
  }

  method SubscriptCount(s: Bytes, klen: nat, ghost parts: seq<Bytes>) returns (count: nat)
    requires klen <= |s|
    ensures IsKey(s, klen, parts) ==> count == |parts|
  {
    ghost var written := IsKey(s, klen, parts);
    count := 0;
    var offset: nat := 0;
    while offset < klen
      invariant written ==> count <= |parts| && offset == |KeyBytes(parts[..count])|
      decreases klen - offset
    {
      if written {
        KeyGrows(s, klen, parts, count);
        PartAt(s, klen, parts, count);
      }
      var n := DecodeLength(s, offset);
      offset := offset + PrefixSize(n) + n;
      count := count + 1;
    }
    if written {
      KeyGrows(s, klen, parts, count);
    }
  }

  /** Where part idx starts; the end of the key for the index behind the last part; -1 beyond that. */
  method SubscriptOffset(s: Bytes, klen: nat, idx: nat, ghost parts: seq<Bytes>) returns (r: int)
    requires klen <= |s|
    ensures r <= klen
    ensures IsKey(s, klen, parts) ==> r == if idx <= |parts| then |KeyBytes(parts[..idx])| else -1
  {
    ghost var written := IsKey(s, klen, parts);
    var offset: nat := 0;
    for i := 0 to idx
      invariant offset <= klen
      invariant written ==> i <= |parts| && offset == |KeyBytes(parts[..i])|
    {
      if written {
        KeyGrows(s, klen, parts, i);
      }
      if offset >= klen {
        return -1;
      }
      if written {
        PartAt(s, klen, parts, i);
      }
      var n := DecodeLength(s, offset);
      offset := offset + PrefixSize(n) + n;
      if offset > klen {
        return -1;
      }
    }
    return offset;
  }

  /** The key of the first n parts, or -1 when there are fewer parts or too little space. */
  method KeyPrefix(s: Bytes, klen: nat, n: nat, out: array<Byte>, ghost parts: seq<Bytes>) returns (r: int)
    requires klen <= |s|
    modifies out
    ensures IsKey(s, klen, parts) && n <= |parts| && |KeyBytes(parts[..n])| <= out.Length ==>
              r == |KeyBytes(parts[..n])| && IsKey(out[..], r, parts[..n]) && ZeroFrom(out[..], r)
    ensures IsKey(s, klen, parts) && (n > |parts| || |KeyBytes(parts[..n])| > out.Length) ==> r == -1
  {
    var len := SubscriptOffset(s, klen, n, parts);
    if len > out.Length {
      return -1;
    }
    Clear(out);
    var i := 0;
    while i < len
      invariant 0 <= i && (i <= len || i == 0)
      invariant forall j :: 0 <= j < out.Length ==> out[j] == if j < i then s[j] else 0
    {
      out[i] := s[i];
      i := i + 1;
    }
    if IsKey(s, klen, parts) && n <= |parts| {
      PrefixIsKey(s, klen, parts, n);
      assert out[..][..len] == s[..len];
    }
    return len;
  }

  method ExtractSubscript(s: Bytes, klen: nat, idx: nat, ghost parts: seq<Bytes>) returns (sub: Bytes)
    requires IsKey(s, klen, parts) && idx < |parts|
    ensures sub == parts[idx]
  {
    var offset := SubscriptOffset(s, klen, idx, parts);
    PartAt(s, klen, parts, idx);
    var n := DecodeLength(s, offset);
    var from := offset + PrefixSize(n);
    sub := [];
    for j := 0 to n
      invariant sub == s[from..from + j]
    {
      assert s[from..from + j + 1] == s[from..from + j] + [s[from + j]];
      sub := sub + [s[from + j]];
    }
  }

  /** The key of the tuple with one more part, or -1 when it does not fit. */
  method ConcatPrefix(parent: Bytes, sub: Bytes, out: array<Byte>, ghost parts: seq<Bytes>) returns (total: int)
    requires IsKey(parent, |parent|, parts) && |sub| < MAX_PART
    modifies out
    ensures total == if |KeyBytes(parts + [sub])| <= out.Length then |KeyBytes(parts + [sub])| else -1
    ensures total >= 0 ==> IsKey(out[..], total, parts + [sub]) && ZeroFrom(out[..], total)
    ensures total < 0 ==> out[..] == old(out[..])
  {
    assert (parts + [sub])[..|parts|] == parts;
    total := |parent| + PrefixSize(|sub|) + |sub|;
    if total > out.Length {
      return -1;
    }
    Clear(out);
    for i := 0 to |parent|
      invariant forall j :: 0 <= j < out.Length ==> out[j] == if j < i then parent[j] else 0
    {
      out[i] := parent[i];
    }
    assert out[..][..|parent|] == parent == parent[..|parent|];
    var end := AppendPart(out, |parent|, sub, parts);
  }
}
