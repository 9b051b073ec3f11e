/** Little-endian integers inside byte buffers. Shifts of a negative value are divisions rounding down. */
module Layout {
  import opened ByteStrings

  predicate IsI32(v: int) {
    -0x8000_0000 <= v < 0x8000_0000
  }

  function Bytes32(v: int): (r: Bytes)
    ensures |r| == 4
  {
    [v % 256, v / 256 % 256, v / 0x1_0000 % 256, v / 0x100_0000 % 256]
  }

  /** Four unsigned bytes, then the sign bit. */
  function Value32(b: Bytes): int
    requires |b| == 4
  {
    var b0: int, b1: int, b2: int, b3: int := b[0], b[1], b[2], b[3];
    var u := b0 + 256 * b1 + 0x1_0000 * b2 + 0x100_0000 * b3;
    if u >= 0x8000_0000 then u - 0x1_0000_0000 else u
  }

  function Get32(s: Bytes, at: nat): int
    requires at + 4 <= |s|
  {
    Value32(s[at..at + 4])
  }

  /** Every 32-bit integer, negative ones included, reads back as written. */
  lemma {:induction false} RoundTrip32(v: int)
    requires IsI32(v)
    ensures Value32(Bytes32(v)) == v
  {
    var a, b, c := v / 256, v / 0x1_0000, v / 0x100_0000;
    assert v == 256 * a + v % 256;
    assert a == 256 * b + a % 256;
    assert b == 256 * c + b % 256;
    assert -128 <= c < 128;
    assert c % 256 == if c < 0 then c + 256 else c;
  }

  /** The two buffers agree on the bytes from lo up to hi. */
  ghost predicate Same(s: Bytes, t: Bytes, lo: int, hi: int) {
    |t| == |s| && 0 <= lo <= hi <= |s| && t[lo..hi] == s[lo..hi]
  }

  /** The second buffer is the first with `b` copied in at `at`. */
  ghost predicate Patched(s: Bytes, t: Bytes, at: int, b: Bytes) {
    0 <= at && at + |b| <= |s| && Same(s, t, 0, at) && t[at..at + |b|] == b && Same(s, t, at + |b|, |s|)
  }

  lemma {:induction false} SameWithin(s: Bytes, t: Bytes, lo: int, hi: int, a: int, b: int)
    requires Same(s, t, lo, hi) && lo <= a <= b <= hi
    ensures Same(s, t, a, b)
  {
    forall k | 0 <= k < b - a ensures t[a..b][k] == s[a..b][k] {
      assert s[a + k] == s[lo..hi][a - lo + k] && t[a + k] == t[lo..hi][a - lo + k];
    }
  }

  /** A patch changes nothing outside it. */
  lemma {:induction false} PatchedOutside(s: Bytes, t: Bytes, at: int, b: Bytes, lo: int, hi: int)
    requires Patched(s, t, at, b) && 0 <= lo <= hi <= |s| && (hi <= at || at + |b| <= lo)
    ensures Same(s, t, lo, hi)
  {
    if hi <= at {
      SameWithin(s, t, 0, at, lo, hi);
    } else {
      SameWithin(s, t, at + |b|, |s|, lo, hi);
    }
  }

  /** A patch is determined by its effect. */
  lemma {:induction false} PatchedIs(s: Bytes, t: Bytes, at: nat, b: Bytes)
    requires at + |b| <= |s| == |t|
    requires forall j :: 0 <= j < |s| ==> t[j] == if at <= j < at + |b| then b[j - at] else s[j]
    ensures Patched(s, t, at, b)
  {
  }

  method CopyBytesIn(buf: array<Byte>, at: nat, b: Bytes)
    requires at + |b| <= buf.Length
    modifies buf
    ensures Patched(old(buf[..]), buf[..], at, b)
  {
    ghost var s := buf[..];
    for i := 0 to |b|
      invariant forall j :: 0 <= j < buf.Length ==> buf[j] == if at <= j < at + i then b[j - at] else s[j]
    {
      buf[at + i] := b[i];
    }
    PatchedIs(s, buf[..], at, b);
  }

  method Put4(buf: array<Byte>, at: nat, b0: Byte, b1: Byte, b2: Byte, b3: Byte)
    requires at + 4 <= buf.Length
    modifies buf
    ensures Patched(old(buf[..]), buf[..], at, [b0, b1, b2, b3])
  {
    ghost var s := buf[..];
    buf[at] := b0;
    buf[at + 1] := b1;
    buf[at + 2] := b2;
    buf[at + 3] := b3;
    PatchedIs(s, buf[..], at, [b0, b1, b2, b3]);
  }

  method Put32(buf: array<Byte>, at: nat, v: int)
    requires at + 4 <= buf.Length
    modifies buf
    ensures Patched(old(buf[..]), buf[..], at, Bytes32(v))
  {
    Put4(buf, at, v % 256, v / 256 % 256, v / 0x1_0000 % 256, v / 0x100_0000 % 256);
  }

  method Read32(buf: array<Byte>, at: nat) returns (v: int)
    requires at + 4 <= buf.Length
    ensures v == Get32(buf[..], at)
  {
    var b0: int, b1: int, b2: int, b3: int := buf[at], buf[at + 1], buf[at + 2], buf[at + 3];
    assert buf[..][at..at + 4] == [b0, b1, b2, b3];
    v := b0 + 256 * b1 + 0x1_0000 * b2 + 0x100_0000 * b3;
    if v >= 0x8000_0000 {
      v := v - 0x1_0000_0000;
    }
  }
}
