/**
 * Records as CBOR (RFC 8949, section 3.1): key-value pairs are arrays of two byte strings, descriptors
 * are maps of two entries. String lengths take at most one byte, so strings have at most 255 bytes.
 */
module RecordCodec {
  import opened ByteStrings
  import opened Layout

  const UINT_BASE := 0
  const NEGINT_BASE := 32
  const BYTES_BASE := 64
  const TEXT_BASE := 96
  const ARRAY_BASE := 128
  const MAP_BASE := 160
  const SIMPLE_BASE := 224
  const SIMPLE_FALSE := 20
  const SIMPLE_TRUE := 21

  lemma {:induction false} PatchJoin(s: Bytes, t: Bytes, u: Bytes, at: int, a: Bytes, b: Bytes)
    requires Patched(s, t, at, a) && Patched(t, u, at + |a|, b)
    ensures Patched(s, u, at, a + b)
  {
    PatchedOutside(t, u, at + |a|, b, 0, at);
    PatchedOutside(t, u, at + |a|, b, at, at + |a|);
    SameWithin(s, t, at + |a|, |s|, at + |a| + |b|, |s|);
    assert u[at..at + |a + b|] == u[at..at + |a|] + u[at + |a|..at + |a| + |b|];
  }

  // ---------- integers ----------

  /** The shortest head of at most five bytes for an argument. */
  function Head(base: int, v: int): (r: Bytes)
    requires base in {UINT_BASE, NEGINT_BASE} && 0 <= v < 0x1_0000_0000
    ensures 1 <= |r| <= 5 && base <= r[0] < base + 27
  {
    if v < 24 then [base + v]
    else if v < 256 then [base + 24, v]
    else if v < 65536 then [base + 25, v / 256, v % 256]
    else [base + 26, v / 16777216, v / 65536 % 256, v / 256 % 256, v % 256]
  }

  method EncodeHead(buf: array<Byte>, pos: nat, base: int, v: int) returns (end: nat)
    requires base in {UINT_BASE, NEGINT_BASE} && 0 <= v < 0x8000_0000 && pos + 5 <= buf.Length
    modifies buf
    ensures end == pos + |Head(base, v)| && Patched(old(buf[..]), buf[..], pos, Head(base, v))
  {
    if v < 24 {
      CopyBytesIn(buf, pos, [base + v]);
      end := pos + 1;
    } else if v < 256 {
      CopyBytesIn(buf, pos, [base + 24, v]);
      end := pos + 2;
    } else if v < 65536 {
      assert v / 256 % 256 == v / 256;
      CopyBytesIn(buf, pos, [base + 25, v / 256 % 256, v % 256]);
      end := pos + 3;
    } else {
      assert v / 16777216 % 256 == v / 16777216;
      CopyBytesIn(buf, pos, [base + 26, v / 16777216 % 256, v / 65536 % 256, v / 256 % 256, v % 256]);
      end := pos + 5;
    }
  }

  datatype Decoded = Malformed | Number(v: int, end: nat)

  /** Reads a head of the given base; nothing is read at or behind elen. */
  function DecodeHead(s: Bytes, elen: nat, pos: nat, base: int): Decoded
    requires pos < elen <= |s|
  {
    var fb: int := s[pos];
    if base <= fb < base + 24 then Number(fb - base, pos + 1)
    else if fb == base + 24 && pos + 1 < elen then Number(s[pos + 1], pos + 2)
    else if fb == base + 25 && pos + 2 < elen then
      var b0: int, b1: int := s[pos + 1], s[pos + 2];
      Number(b0 * 256 + b1, pos + 3)
    else if fb == base + 26 && pos + 4 < elen then
      var b0: int, b1: int, b2: int, b3: int := s[pos + 1], s[pos + 2], s[pos + 3], s[pos + 4];
      Number(b0 * 16777216 + b1 * 65536 + b2 * 256 + b3, pos + 5)
    else Malformed
  }

  ghost predicate At(s: Bytes, pos: int, b: Bytes) {
    0 <= pos && pos + |b| <= |s| && s[pos..pos + |b|] == b
  }

  lemma {:induction false} AtIndex(s: Bytes, pos: int, b: Bytes, i: nat)
    requires At(s, pos, b) && i < |b|
    ensures s[pos + i] == b[i]
  {
    assert s[pos..pos + |b|][i] == s[pos + i];
  }

  lemma {:induction false} AtSplit(s: Bytes, pos: int, a: Bytes, b: Bytes)
    requires At(s, pos, a + b)
    ensures At(s, pos, a) && At(s, pos + |a|, b)
  {
    var whole := s[pos..pos + |a + b|];
    assert s[pos..pos + |a|] == whole[..|a|] == a;
    assert s[pos + |a|..pos + |a| + |b|] == whole[|a|..] == b;
  }

  lemma {:induction false} BigEndian(v: int)
    requires 0 <= v < 0x1_0000_0000
    ensures v == v / 16777216 * 16777216 + v / 65536 % 256 * 65536 + v / 256 % 256 * 256 + v % 256
  {
    var a, b, c := v / 256, v / 65536, v / 16777216;
    assert v == 256 * a + v % 256 && a == 256 * b + a % 256 && b == 256 * c + b % 256;
  }

  /** Every head of 32 bits is read back, and reading stops right behind it. */
  lemma {:induction false} HeadDecodes(s: Bytes, elen: nat, pos: nat, base: int, v: int)
    requires base in {UINT_BASE, NEGINT_BASE} && 0 <= v < 0x1_0000_0000
    requires At(s, pos, Head(base, v)) && pos + |Head(base, v)| <= elen <= |s|
    ensures DecodeHead(s, elen, pos, base) == Number(v, pos + |Head(base, v)|)
  {
    var h := Head(base, v);
    AtIndex(s, pos, h, 0);
    if v >= 24 {
      AtIndex(s, pos, h, 1);
    }
    if v >= 256 {
      AtIndex(s, pos, h, 2);
    }
    if v >= 65536 {
      AtIndex(s, pos, h, 3);
      AtIndex(s, pos, h, 4);
      BigEndian(v);
    }
  }

  // ---------- byte strings ----------

  /** The length byte wraps, so this is the encoding only up to 255 bytes. */
  function StringBytes(d: Bytes): (r: Bytes)
    ensures |r| == |d| + if |d| < 24 then 1 else 2
  {
    (if |d| < 24 then [BYTES_BASE + |d|] else [BYTES_BASE + 24, |d| % 256]) + d
  }

  method EncodeString(buf: array<Byte>, pos: nat, d: Bytes) returns (end: nat)
    requires pos + 2 + |d| <= buf.Length
    modifies buf
    ensures end == pos + |StringBytes(d)| && Patched(old(buf[..]), buf[..], pos, StringBytes(d))
  {
    ghost var s := buf[..];
    ghost var head;
    if |d| < 24 {
      buf[pos] := BYTES_BASE + |d|;
      end := pos + 1;
      head := [BYTES_BASE + |d|];
    } else {
      buf[pos] := BYTES_BASE + 24;
      buf[pos + 1] := |d| % 256;
      end := pos + 2;
      head := [BYTES_BASE + 24, |d| % 256];
    }
    PatchedIs(s, buf[..], pos, head);
    ghost var t := buf[..];
    CopyBytesIn(buf, end, d);
    PatchJoin(s, t, buf[..], pos, head, d);
    end := end + |d|;
  }

  /** What a written string reads back as: its length byte holds only the length modulo 256. */
  function Truncated(d: Bytes): (r: Bytes)
    ensures r == d <==> |d| <= 255
    ensures |r| <= 255
  {
    if |d| < 24 then d else d[..|d| % 256]
  }

  /** Copies the string out and returns the position behind it; 0 for a length form that is not supported. */
  method DecodeString(s: Bytes, elen: nat, pos: nat, ghost d: Bytes) returns (end: int, out: Bytes)
    requires elen <= |s| && pos + 2 + 255 <= |s|
    ensures end <= pos + 2 + 255
    ensures At(s, pos, StringBytes(d)) && pos + |StringBytes(d)| <= elen ==> out == Truncated(d)
    ensures |d| <= 255 && At(s, pos, StringBytes(d)) && pos + |StringBytes(d)| <= elen ==> end == pos + |StringBytes(d)|
  {
    ghost var written := At(s, pos, StringBytes(d)) && pos + |StringBytes(d)| <= elen;
    if written {
      StringHead(s, pos, d);
    }
    var fb: int := s[pos];
    var ai := fb - BYTES_BASE;
    var slen: int;
    var from: nat := pos;
    if ai < 24 {
      slen := ai;
      from := pos + 1;
    } else if ai == 24 && pos + 1 < elen {
      slen := s[pos + 1];
      from := pos + 2;
    } else {
      return 0, [];
    }
    out := [];
    var i := 0;
    while i < slen
      invariant 0 <= i && (slen >= 0 ==> i <= slen)
      invariant i <= slen || i == 0
      invariant out == s[from..from + i]
    {
      out := out + [s[from + i]];
      i := i + 1;
    }
    end := from + slen;
    if written && |d| >= 24 {
      assert s[from..from + slen] == s[from..from + |d|][..slen];
    }
  }

  /** What the first two bytes and the rest of a written string are. */
  lemma {:induction false} StringHead(s: Bytes, pos: nat, d: Bytes)
    requires At(s, pos, StringBytes(d))
    ensures if |d| < 24 then s[pos] == BYTES_BASE + |d| && s[pos + 1..pos + 1 + |d|] == d
            else pos + 2 + |d| <= |s| && s[pos] == BYTES_BASE + 24 && s[pos + 1] == |d| % 256 && s[pos + 2..pos + 2 + |d|] == d
  {
    AtIndex(s, pos, StringBytes(d), 0);
    if |d| < 24 {
      AtSplit(s, pos, [BYTES_BASE + |d|], d);
    } else {
      AtIndex(s, pos, StringBytes(d), 1);
      AtSplit(s, pos, [BYTES_BASE + 24, |d| % 256], d);
    }
  }

  // ---------- key-value records ----------

  function KvBytes(key: Bytes, value: Bytes): (r: Bytes)
    ensures |r| <= 5 + |key| + |value|
  {
    [ARRAY_BASE + 2] + (StringBytes(key) + StringBytes(value))
  }

  method EncodeKv(buf: array<Byte>, key: Bytes, value: Bytes) returns (end: nat)
    requires 5 + |key| + |value| <= buf.Length
    modifies buf
    ensures end == |KvBytes(key, value)| && buf[..end] == KvBytes(key, value)
  {
    ghost var s := buf[..];
    buf[0] := ARRAY_BASE + 2;
    ghost var t := buf[..];
    PatchedIs(s, t, 0, [ARRAY_BASE + 2]);
    end := EncodeString(buf, 1, key);
    ghost var u := buf[..];
    end := EncodeString(buf, end, value);
    ThreeParts(s, t, u, buf[..], [ARRAY_BASE + 2], StringBytes(key), StringBytes(value));
  }

  datatype Kv = NoKv | Kv(key: Bytes, value: Bytes)

  /** elen bytes of the buffer are the record; what was written is read back exactly when both strings have at most 255 bytes. */
  method DecodeKv(s: Bytes, elen: int, ghost key: Bytes, ghost value: Bytes) returns (r: Kv)
    requires elen <= |s| && |s| >= 1024
    ensures elen == |KvBytes(key, value)| && At(s, 0, KvBytes(key, value)) ==> (r == Kv(key, value) <==> |key| <= 255 && |value| <= 255)
    ensures elen == |KvBytes(key, value)| && At(s, 0, KvBytes(key, value)) && r.Kv? ==> r.key == Truncated(key)
    ensures elen <= 0 ==> r == NoKv
  {
    if elen <= 0 {
      return NoKv;
    }
    ghost var written := elen == |KvBytes(key, value)| && At(s, 0, KvBytes(key, value));
    if written {
      AtIndex(s, 0, KvBytes(key, value), 0);
      AtSplit(s, 0, [ARRAY_BASE + 2], StringBytes(key) + StringBytes(value));
      AtSplit(s, 1, StringBytes(key), StringBytes(value));
    }
    var fb: int := s[0];
    if fb < ARRAY_BASE || fb >= ARRAY_BASE + 32 {
      return NoKv;
    }
    var ai := fb - ARRAY_BASE;
    var count: int := if ai < 24 then ai else if ai == 24 && 1 < elen then s[1] else 0;
    if count != 2 {
      return NoKv;
    }
    var pos: int := if ai == 24 then 2 else 1;
    var keyEnd, k := DecodeString(s, elen, pos, key);
    if keyEnd <= 0 {
      return NoKv;
    }
    var end, v := DecodeString(s, elen, keyEnd, value);
    if end <= 0 {
      return NoKv;
    }
    r := Kv(k, v);
  }

  // ---------- descriptors ----------

  function CidHead(chainId: int): (r: Bytes)
    requires IsI32(chainId)
    ensures 1 <= |r| <= 5
  {
    if chainId >= 0 then Head(UINT_BASE, chainId) else Head(NEGINT_BASE, -1 - chainId)
  }

  function DescriptorBytes(chainId: int, hasChildren: bool): Bytes
    requires IsI32(chainId)
  {
    [MAP_BASE + 2, TEXT_BASE + 3, 99, 105, 100]
    + (CidHead(chainId) + [TEXT_BASE + 2, 104, 99, SIMPLE_BASE + if hasChildren then SIMPLE_TRUE else SIMPLE_FALSE])
  }

  datatype Descriptor = Descriptor(chainId: int, hasChildren: bool)

  /**
   * Skips the first text, reads the id, skips the second text, reads the flag; what cannot be read stays
   * zero. A text length below zero would lead out of the buffer; here it ends the parse.
   */
  function DecodeDescriptor(s: Bytes, elen: nat): Descriptor
    requires elen <= |s|
  {
    if elen == 0 || s[0] < MAP_BASE || s[0] >= MAP_BASE + 32 || elen == 1 then Descriptor(0, false)
    else
      var first: int := s[1];
      var pos := 2 + first - TEXT_BASE;
      if pos < 0 || pos >= elen || s[pos] >= NEGINT_BASE + 32 then Descriptor(0, false)
      else
        var negative := s[pos] >= NEGINT_BASE;
        var d := DecodeHead(s, elen, pos, if negative then NEGINT_BASE else UINT_BASE);
        var cid := if d.Malformed? then 0 else if negative then -1 - d.v else d.v;
        var next := if d.Malformed? then pos else d.end;
        Descriptor(cid, DecodeFlag(s, elen, next))
  }

  function DecodeFlag(s: Bytes, elen: nat, pos: nat): bool
    requires elen <= |s|
  {
    if pos >= elen then false
    else
      var second: int := s[pos];
      var at := pos + 1 + second - TEXT_BASE;
      0 <= at < elen && s[at] == SIMPLE_BASE + SIMPLE_TRUE
  }

  method EncodeDescriptor(chainId: int, hasChildren: bool, buf: array<Byte>) returns (end: nat)
    requires IsI32(chainId) && buf.Length >= 64
    modifies buf
    ensures end == |DescriptorBytes(chainId, hasChildren)| && buf[..end] == DescriptorBytes(chainId, hasChildren)
  {
    ghost var s, first := buf[..], [MAP_BASE + 2, TEXT_BASE + 3, 99, 105, 100];
    CopyBytesIn(buf, 0, [MAP_BASE + 2, TEXT_BASE + 3, 99, 105, 100]);
    ghost var t := buf[..];
    var pos := EncodeCid(chainId, buf, 5);
    ghost var u := buf[..];
    var flag: Byte := if hasChildren then SIMPLE_BASE + SIMPLE_TRUE else SIMPLE_BASE + SIMPLE_FALSE;
    CopyBytesIn(buf, pos, [TEXT_BASE + 2, 104, 99, flag]);
    end := pos + 4;
    ThreeParts(s, t, u, buf[..], first, CidHead(chainId), [TEXT_BASE + 2, 104, 99, flag]);
  }

  method EncodeCid(chainId: int, buf: array<Byte>, pos: nat) returns (end: nat)
    requires IsI32(chainId) && pos + 5 <= buf.Length
    modifies buf
    ensures end == pos + |CidHead(chainId)| && Patched(old(buf[..]), buf[..], pos, CidHead(chainId))
  {
    if chainId >= 0 {
      end := EncodeHead(buf, pos, UINT_BASE, chainId);
    } else {
      end := EncodeHead(buf, pos, NEGINT_BASE, -1 - chainId);
    }
  }

  /** Three parts written one behind the other from the start. */
  lemma {:induction false} ThreeParts(s: Bytes, t: Bytes, u: Bytes, w: Bytes, a: Bytes, b: Bytes, c: Bytes)
    requires Patched(s, t, 0, a) && Patched(t, u, |a|, b) && Patched(u, w, |a| + |b|, c)
    ensures |a| + |b| + |c| <= |w| && w[..|a| + |b| + |c|] == a + (b + c)
  {
    PatchJoin(t, u, w, |a|, b, c);
    PatchJoin(s, t, w, 0, a, b + c);
    assert w[0..|a| + |b| + |c|] == w[..|a| + |b| + |c|];
  }

  /** Descriptors of every 32-bit id, negative ones included, survive, whatever follows them in the buffer. */
  lemma {:induction false} DescriptorDecodes(chainId: int, hasChildren: bool, s: Bytes, elen: nat)
    requires IsI32(chainId) && At(s, 0, DescriptorBytes(chainId, hasChildren)) && |DescriptorBytes(chainId, hasChildren)| <= elen <= |s|
    ensures DecodeDescriptor(s, elen) == Descriptor(chainId, hasChildren)
  {
    var first, head := [MAP_BASE + 2, TEXT_BASE + 3, 99, 105, 100], CidHead(chainId);
    var last := [TEXT_BASE + 2, 104, 99, SIMPLE_BASE + if hasChildren then SIMPLE_TRUE else SIMPLE_FALSE];
    AtSplit(s, 0, first, head + last);
    AtIndex(s, 0, first, 0);
    AtIndex(s, 0, first, 1);
    AtSplit(s, 5, head, last);
    AtIndex(s, 5, head, 0);
    var at := 5 + |head|;
    AtIndex(s, at, last, 0);
    AtIndex(s, at, last, 3);
    HeadDecodes(s, elen, 5, if chainId >= 0 then UINT_BASE else NEGINT_BASE, if chainId >= 0 then chainId else -1 - chainId);
    assert DecodeFlag(s, elen, at) == hasChildren;
  }
}
