/**
 * The compressed block format, as a list of sequences with its encoding and its meaning,
 * and the decoder as a function on bytes.
 */
module Lz4Format {
  import opened ByteStrings

  const MIN_MATCH := 4
  const MAX_INPUT_SIZE := 65536

  /** Literals, then a copy of `len` bytes from `offset` bytes back. */
  datatype Sequence = Sequence(lits: Bytes, offset: nat, len: nat)

  ghost predicate Encodable(s: Sequence) {
    0 < s.offset < 65536 && s.len >= MIN_MATCH
  }

  // ---------- encoding ----------

  function Ext(n: nat): (r: Bytes)
    ensures |r| == 1 + n / 255
  {
    if n < 255 then [n] else [255] + Ext(n - 255)
  }

  /** The extra length bytes after a token field. */
  function LenExt(n: nat): (r: Bytes)
    ensures |r| == if n < 15 then 0 else 1 + (n - 15) / 255
  {
    if n < 15 then [] else Ext(n - 15)
  }

  function Nibble(n: nat): (r: nat)
    ensures r <= 15
  {
    if n > 15 then 15 else n
  }

  function EncodeSeq(s: Sequence): Bytes
    requires 0 < s.offset < 65536 && s.len >= MIN_MATCH
  {
    [Nibble(|s.lits|) * 16 + Nibble(s.len - MIN_MATCH)] + LenExt(|s.lits|) + s.lits
    + [s.offset % 256, s.offset / 256] + LenExt(s.len - MIN_MATCH)
  }

  /** The closing run of literals, which has no match. */
  function EncodeLast(lits: Bytes): Bytes {
    [Nibble(|lits|) * 16] + LenExt(|lits|) + lits
  }

  ghost predicate AllEncodable(ss: seq<Sequence>) {
    forall i :: 0 <= i < |ss| ==> Encodable(ss[i])
  }

  ghost function EncodeAll(ss: seq<Sequence>): Bytes
    requires AllEncodable(ss)
  {
    if ss == [] then [] else EncodeSeq(ss[0]) + EncodeAll(ss[1..])
  }

  lemma {:induction false} EncodeAllAppend(ss: seq<Sequence>, s: Sequence)
    requires AllEncodable(ss) && Encodable(s)
    ensures EncodeAll(ss + [s]) == EncodeAll(ss) + EncodeSeq(s)
  {
    if ss == [] {
      assert ss + [s] == [s] && [s][1..] == [];
    } else {
      assert (ss + [s])[0] == ss[0] && (ss + [s])[1..] == ss[1..] + [s];
      EncodeAllAppend(ss[1..], s);
    }
  }

  // ---------- meaning ----------

  /** Byte-by-byte copy from off back; it may read what it has just written. */
  function CopyMatch(out: Bytes, off: nat, n: nat): (r: Bytes)
    requires off > 0
    ensures |r| == |out| + n && r[..|out|] == out
    decreases n
  {
    if n == 0 then out
    else CopyMatch(out + [if off <= |out| then out[|out| - off] else 0], off, n - 1)
  }

  ghost function Expand(out: Bytes, ss: seq<Sequence>): Bytes
    requires AllEncodable(ss)
    decreases |ss|
  {
    if ss == [] then out
    else Expand(CopyMatch(out + ss[0].lits, ss[0].offset, ss[0].len), ss[1..])
  }

  lemma {:induction false} ExpandAppend(out: Bytes, ss: seq<Sequence>, s: Sequence)
    requires AllEncodable(ss) && Encodable(s)
    ensures Expand(out, ss + [s]) == CopyMatch(Expand(out, ss) + s.lits, s.offset, s.len)
    decreases |ss|
  {
    if ss == [] {
      assert ss + [s] == [s] && [s][1..] == [];
    } else {
      assert (ss + [s])[0] == ss[0] && (ss + [s])[1..] == ss[1..] + [s];
      ExpandAppend(CopyMatch(out + ss[0].lits, ss[0].offset, ss[0].len), ss[1..], s);
    }
  }

  lemma {:induction false} ExpandGrows(out: Bytes, ss: seq<Sequence>)
    requires AllEncodable(ss)
    ensures |Expand(out, ss)| >= |out|
    decreases |ss|
  {
    if ss != [] {
      ExpandGrows(CopyMatch(out + ss[0].lits, ss[0].offset, ss[0].len), ss[1..]);
    }
  }

  /** Copying an earlier occurrence of the next n bytes continues the source. */
  lemma {:induction false} CopyMatchRebuilds(src: Bytes, p: nat, off: nat, n: nat)
    requires 0 < off <= p && p + n <= |src| && src[p - off..p - off + n] == src[p..p + n]
    ensures CopyMatch(src[..p], off, n) == src[..p + n]
    decreases n
  {
    if n > 0 {
      assert src[p - off..p - off + n][0] == src[p..p + n][0];
      assert src[..p] + [src[p - off]] == src[..p + 1];
      assert src[p + 1 - off..p - off + n] == src[p - off..p - off + n][1..] == src[p..p + n][1..] == src[p + 1..p + n];
      CopyMatchRebuilds(src, p + 1, off, n - 1);
    }
  }

  // ---------- decoding ----------

  /** Adds up extension bytes, the first one below 255 being the last; None when they do not end. */
  function ReadExt(s: Bytes, acc: nat): (r: Option<(nat, Bytes)>)
    ensures r.Some? ==> |r.value.1| < |s|
  {
    if s == [] then None
    else if s[0] == 255 then ReadExt(s[1..], acc + 255)
    else Some((acc + s[0], s[1..]))
  }

  function ReadLen(nibble: nat, s: Bytes): (r: Option<(nat, Bytes)>)
    ensures r.Some? ==> |r.value.1| <= |s|
  {
    if nibble == 15 then ReadExt(s, 15) else Some((nibble, s))
  }

  /** Decodes s onto out, within cap bytes. */
  function Decode(s: Bytes, out: Bytes, cap: nat): Option<Bytes>
    decreases |s|
  {
    if s == [] then Some(out)
    else
      match ReadLen(s[0] / 16, s[1..])
      case None => None
      case Some((n, r)) =>
        if |r| < n || |out| + n > cap then None
        else if |r| == n then Some(out + r[..n])
        else DecodeMatch(s[0] % 16, r[n..], out + r[..n], cap)
  }

  /** The little-endian offset at the head of s. */
  function OffsetOf(s: Bytes): nat
    requires |s| >= 2
  {
    (s[0] as int) + (s[1] as int) * 256
  }

  function DecodeMatch(nibble: nat, s: Bytes, out: Bytes, cap: nat): Option<Bytes>
    decreases |s|
  {
    if |s| < 2 then None
    else
      var offset := OffsetOf(s);
      if offset == 0 then None
      else
        match ReadLen(nibble, s[2..])
        case None => None
        case Some((n, r)) =>
          if |out| + n + MIN_MATCH > cap then None
          else Decode(r, CopyMatch(out, offset, n + MIN_MATCH), cap)
  }

  /** What the decompressor answers: nothing for empty input or no room at all. */
  function Decompressed(s: Bytes, cap: nat): Option<Bytes> {
    if s == [] || cap == 0 then None else Decode(s, [], cap)
  }

  /** More room changes no answer, and no answer exceeds the room. */
  lemma {:induction false} DecodeMoreRoom(s: Bytes, out: Bytes, cap: nat, more: nat)
    requires |out| <= cap <= more && Decode(s, out, cap).Some?
    ensures Decode(s, out, more) == Decode(s, out, cap) && |Decode(s, out, cap).value| <= cap
    decreases |s|
  {
    if s != [] {
      var (n, r) := ReadLen(s[0] / 16, s[1..]).value;
      if |r| > n {
        var t := r[n..];
        var (len, rest) := ReadLen(s[0] % 16, t[2..]).value;
        DecodeMoreRoom(rest, CopyMatch(out + r[..n], OffsetOf(t), len + MIN_MATCH), cap, more);
      }
    }
  }

  // ---------- the decoder undoes the encoding ----------

  lemma {:induction false} ReadExtOfExt(n: nat, acc: nat, rest: Bytes)
    ensures ReadExt(Ext(n) + rest, acc) == Some((acc + n, rest))
    decreases n
  {
    var s := Ext(n) + rest;
    if n >= 255 {
      assert s[1..] == Ext(n - 255) + rest;
      ReadExtOfExt(n - 255, acc + 255, rest);
    } else {
      assert s[1..] == rest;
    }
  }

  lemma {:induction false} ReadLenOfLenExt(n: nat, rest: Bytes)
    ensures ReadLen(Nibble(n), LenExt(n) + rest) == Some((n, rest))
  {
    if n >= 15 {
      ReadExtOfExt(n - 15, 15, rest);
    } else {
      assert LenExt(n) + rest == rest;
    }
  }

  /** Reading a token, its length bytes and its literals. */
  lemma {:induction false} DecodeLits(token: Byte, lits: Bytes, tail: Bytes, out: Bytes, cap: nat)
    requires (token as int) / 16 == Nibble(|lits|) && |out| + |lits| <= cap
    ensures Decode([token] + (LenExt(|lits|) + (lits + tail)), out, cap) ==
            if tail == [] then Some(out + lits) else DecodeMatch(token % 16, tail, out + lits, cap)
  {
    var n, s := |lits|, [token] + (LenExt(|lits|) + (lits + tail));
    assert s[1..] == LenExt(n) + (lits + tail);
    ReadLenOfLenExt(n, lits + tail);
    assert (lits + tail)[..n] == lits && (lits + tail)[n..] == tail;
  }

  lemma {:induction false} DecodeLast(lits: Bytes, out: Bytes, cap: nat)
    requires |out| + |lits| <= cap
    ensures Decode(EncodeLast(lits), out, cap) == Some(out + lits)
  {
    assert lits + [] == lits;
    assert EncodeLast(lits) == [Nibble(|lits|) * 16] + (LenExt(|lits|) + (lits + []));
    DecodeLits(Nibble(|lits|) * 16, lits, [], out, cap);
  }

  ghost function TokenOf(q: Sequence): (t: Byte)
    requires Encodable(q)
    ensures (t as int) / 16 == Nibble(|q.lits|) && (t as int) % 16 == Nibble(q.len - MIN_MATCH)
  {
    Nibble(|q.lits|) * 16 + Nibble(q.len - MIN_MATCH)
  }

  /** What follows the literals of q in the stream. */
  ghost function MatchPart(q: Sequence, rest: Bytes): Bytes
    requires Encodable(q)
  {
    [q.offset % 256, q.offset / 256] + (LenExt(q.len - MIN_MATCH) + rest)
  }

  lemma {:induction false} EncodeSeqParts(q: Sequence, rest: Bytes)
    requires Encodable(q)
    ensures EncodeSeq(q) + rest == [TokenOf(q)] + (LenExt(|q.lits|) + (q.lits + MatchPart(q, rest)))
  {
    var a, b, c, d, e := [TokenOf(q)], LenExt(|q.lits|), q.lits, [q.offset % 256, q.offset / 256], LenExt(q.len - MIN_MATCH);
    Regroup(a + b, c, d + e, rest);
    Regroup(a, b, c, d + (e + rest));
    assert a + b + c + d + e == a + b + c + (d + e);
    assert d + e + rest == d + (e + rest);
  }

  lemma {:induction false} Regroup(a: Bytes, b: Bytes, c: Bytes, d: Bytes)
    ensures a + b + c + d == a + b + (c + d) == a + (b + (c + d))
  {
  }

  lemma {:induction false} DecodeMatchPart(q: Sequence, rest: Bytes, out: Bytes, cap: nat)
    requires Encodable(q) && |out| + q.len <= cap
    ensures DecodeMatch(Nibble(q.len - MIN_MATCH), MatchPart(q, rest), out, cap) == Decode(rest, CopyMatch(out, q.offset, q.len), cap)
  {
    var tail := MatchPart(q, rest);
    assert tail[2..] == LenExt(q.len - MIN_MATCH) + rest;
    ReadLenOfLenExt(q.len - MIN_MATCH, rest);
    assert OffsetOf(tail) == q.offset;
  }

  lemma {:induction false} DecodeSeq(q: Sequence, rest: Bytes, out: Bytes, cap: nat)
    requires Encodable(q) && |out| + |q.lits| + q.len <= cap
    ensures Decode(EncodeSeq(q) + rest, out, cap) == Decode(rest, CopyMatch(out + q.lits, q.offset, q.len), cap)
  {
    EncodeSeqParts(q, rest);
    DecodeLits(TokenOf(q), q.lits, MatchPart(q, rest), out, cap);
    DecodeMatchPart(q, rest, out + q.lits, cap);
  }

  /** Decoding an encoded block gives what its sequences and closing literals mean. */
  lemma {:induction false} DecodeEncoded(ss: seq<Sequence>, lits: Bytes, out: Bytes, cap: nat)
    requires AllEncodable(ss) && |Expand(out, ss)| + |lits| <= cap
    ensures Decode(EncodeAll(ss) + EncodeLast(lits), out, cap) == Some(Expand(out, ss) + lits)
    decreases |ss|
  {
    if ss == [] {
      assert EncodeAll(ss) + EncodeLast(lits) == EncodeLast(lits);
      DecodeLast(lits, out, cap);
    } else {
      var q := ss[0];
      var rest := EncodeAll(ss[1..]) + EncodeLast(lits);
      assert EncodeAll(ss) + EncodeLast(lits) == EncodeSeq(q) + rest;
      var next := CopyMatch(out + q.lits, q.offset, q.len);
      ExpandGrows(next, ss[1..]);
      DecodeSeq(q, rest, out, cap);
      DecodeEncoded(ss[1..], lits, next, cap);
    }
  }

  // ---------- size ----------

  /** A sequence costs at most the bytes it stands for, plus one in 255. */
  lemma {:induction false} SequenceCost(q: Sequence)
    requires Encodable(q)
    ensures |EncodeSeq(q)| <= |q.lits| + q.len + (|q.lits| + q.len) / 255
  {
    var l, m := |q.lits|, q.len - MIN_MATCH;
    assert |EncodeSeq(q)| == 3 + l + |LenExt(l)| + |LenExt(m)|;
    assert (l + q.len) / 255 >= l / 255;
    assert |LenExt(m)| <= m && |LenExt(l)| <= 1 + l / 255;
  }

  lemma {:induction false} QuotientsAdd(a: nat, b: nat)
    ensures a / 255 + b / 255 <= (a + b) / 255
  {
  }

  lemma {:induction false} LastCost(lits: Bytes)
    ensures |EncodeLast(lits)| <= |lits| + |lits| / 255 + 2
  {
  }

  /** Decoded output never exceeds the capacity. */
  lemma {:induction false} DecodeFits(s: Bytes, out: Bytes, cap: nat)
    requires |out| <= cap
    ensures Decode(s, out, cap).Some? ==> |Decode(s, out, cap).value| <= cap
    decreases |s|
  {
    if s != [] {
      match ReadLen(s[0] / 16, s[1..])
      case None =>
      case Some((n, r)) =>
        if n < |r| && |out| + n <= cap && |r[n..]| >= 2 && OffsetOf(r[n..]) != 0 {
          match ReadLen(s[0] % 16, r[n..][2..])
          case None =>
          case Some((m, r')) =>
            if |out| + n + m + MIN_MATCH <= cap {
              DecodeFits(r', CopyMatch(out + r[..n], OffsetOf(r[n..]), m + MIN_MATCH), cap);
            }
        }
    }
  }
}
