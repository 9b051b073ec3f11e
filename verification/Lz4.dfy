/** The block compressor and decompressor, writing into bounded buffers. */
module Lz4 {
  import opened ByteStrings
  import opened Lz4Format
  import opened Lz4Greedy
  import opened Sequences

  /** Worst-case size of the compressed form of n bytes; 0 for inputs that are too long. */
  function CompressBound(n: nat): nat {
    if n > MAX_INPUT_SIZE then 0 else n + n / 255 + 16
  }

  // ---------- match finder ----------

  /** How far the bytes at s agree with those at ip, up to maxCmp. */
  method CommonLength(src: Bytes, s: nat, ip: nat, maxCmp: nat) returns (len: nat)
    requires s + maxCmp <= ip && ip + maxCmp <= |src|
    ensures len <= maxCmp && Matches(src, s, ip, len)
    ensures maxCmp == Min(ip - s, |src| - ip) ==> forall n: nat :: Matches(src, s, ip, n) ==> n <= len
  {
    len := 0;
    while len < maxCmp && src[s + len] == src[ip + len]
      invariant len <= maxCmp && Matches(src, s, ip, len)
    {
      len := len + 1;
    }
  }

  /**
   * Best match for the bytes at ip among the starts from the hash table's candidate on, or none. The table
   * then points at ip.
   */
  method MatchFind(src: Bytes, ip: nat, table: array<int>) returns (off: nat, len: nat)
    requires table.Length == HASH_TABLE_SIZE && ip + MIN_MATCH <= |src| <= MAX_INPUT_SIZE
    modifies table
    ensures table[..] == old(table[..])[HashAt(src, ip) := ip]
    ensures var c := old(table[HashAt(src, ip)]);
            if 0 <= c < ip then (if len >= MIN_MATCH then Best(src, c, ip, off, len) else len == 0 && NoMatch(src, c, ip)) else len == 0
  {
    off, len := 0, 0;
    var h := HashAt(src, ip);
    var idx := table[h];
    if idx < 0 || idx >= ip {
      table[h] := ip;
      return;
    }
    var limit := Min(ip, MAX_INPUT_SIZE);
    var s: nat := idx;
    var bestLen: nat, bestOff: nat := 0, 0;
    while s < ip && bestLen < limit
      invariant idx <= s <= ip && bestLen <= limit && BestSoFar(src, idx, s, ip, bestOff, bestLen)
      invariant table[..] == old(table[..])
    {
      var maxCmp := Min(Min(ip - s, limit), |src| - ip);
      var l := CommonLength(src, s, ip, maxCmp);
      BestStep(src, idx, s, ip, bestOff, bestLen, l);
      if l >= MIN_MATCH && l > bestLen {
        bestLen, bestOff := l, ip - s;
      }
      s := s + 1;
    }
    table[h] := ip;
    if bestLen >= MIN_MATCH {
      off, len := bestOff, bestLen;
    }
  }

  /** The best match among the starts from c up to s; a length of zero says that there is none. */
  ghost predicate BestSoFar(src: Bytes, c: nat, s: nat, ip: nat, off: nat, len: nat) {
    && (len > 0 ==> len >= MIN_MATCH && c <= ip - off < s && Matches(src, ip - off, ip, len))
    && forall x: nat, n: nat :: c <= x < s && n >= MIN_MATCH && Matches(src, x, ip, n) ==> n < len || (n == len && ip - off <= x)
  }

  lemma {:induction false} BestStep(src: Bytes, c: nat, s: nat, ip: nat, off: nat, len: nat, l: nat)
    requires c <= s < ip && BestSoFar(src, c, s, ip, off, len) && Matches(src, s, ip, l)
    requires forall n: nat :: Matches(src, s, ip, n) ==> n <= l
    ensures if l >= MIN_MATCH && l > len then BestSoFar(src, c, s + 1, ip, ip - s, l) else BestSoFar(src, c, s + 1, ip, off, len)
  {
  }

  // ---------- writing one sequence ----------

  lemma {:induction false} ExtUnfold(a: Bytes, n: nat)
    requires n >= 255
    ensures a + Ext(n) == a + [255] + Ext(n - 255)
  {
  }

  /** Writes extension bytes: 255 for each 255 in ext, then the rest. */
  method EmitExt(out: array<Byte>, op: nat, n: nat) returns (op': nat)
    requires op + |Ext(n)| <= out.Length
    modifies out
    ensures op' == op + |Ext(n)|
    ensures out[..op'] == old(out[..op]) + Ext(n)
  {
    op' := op;
    var ext := n;
    while ext >= 255
      invariant op <= op' && op' + |Ext(ext)| == op + |Ext(n)|
      invariant out[..op'] + Ext(ext) == old(out[..op]) + Ext(n)
      decreases ext
    {
      ghost var before := out[..op'];
      out[op'] := 255;
      assert out[..op' + 1] == before + [255];
      ExtUnfold(before, ext);
      op' := op' + 1;
      ext := ext - 255;
    }
    ghost var before := out[..op'];
    out[op'] := ext;
    assert out[..op' + 1] == before + [ext];
    op' := op' + 1;
  }

  /** Writes the extra length bytes for n at op. */
  method EmitLength(out: array<Byte>, op: nat, n: nat) returns (op': nat)
    requires op + |LenExt(n)| <= out.Length
    modifies out
    ensures op' == op + |LenExt(n)|
    ensures out[..op'] == old(out[..op]) + LenExt(n)
  {
    op' := op;
    if n >= 15 {
      op' := EmitExt(out, op, n - 15);
    } else {
      assert out[..op] + [] == out[..op];
    }
  }

  /** Copies literals to op. */
  method EmitLiterals(out: array<Byte>, op: nat, src: Bytes, anchor: nat, n: nat) returns (op': nat)
    requires anchor + n <= |src| && op + n <= out.Length
    modifies out
    ensures op' == op + n
    ensures out[..op'] == old(out[..op]) + src[anchor..anchor + n]
  {
    op' := op;
    for i := 0 to n
      invariant op' == op + i
      invariant out[..op'] == old(out[..op]) + src[anchor..anchor + i]
    {
      ghost var before := out[..op'];
      out[op'] := src[anchor + i];
      assert out[..op' + 1] == before + [src[anchor + i]];
      assert src[anchor..anchor + i + 1] == src[anchor..anchor + i] + [src[anchor + i]];
      op' := op' + 1;
    }
  }

  /** Everything of a sequence but its token. */
  method EmitBody(out: array<Byte>, op: nat, src: Bytes, anchor: nat, litLen: nat, offset: nat, matchLen: nat) returns (op': nat)
    requires anchor + litLen <= |src| && 0 < offset < 65536
    requires op + |LenExt(litLen)| + litLen + 2 + |LenExt(matchLen)| <= out.Length
    modifies out
    ensures op' == op + |LenExt(litLen)| + litLen + 2 + |LenExt(matchLen)|
    ensures out[..op'] == old(out[..op]) + LenExt(litLen) + src[anchor..anchor + litLen]
                          + [offset % 256, offset / 256] + LenExt(matchLen)
  {
    op' := EmitLength(out, op, litLen);
    op' := EmitLiterals(out, op', src, anchor, litLen);
    op' := EmitOffset(out, op', offset);
    op' := EmitLength(out, op', matchLen);
  }

  /** Two bytes, low byte first. */
  method EmitOffset(out: array<Byte>, op: nat, offset: nat) returns (op': nat)
    requires 0 < offset < 65536 && op + 2 <= out.Length
    modifies out
    ensures op' == op + 2 && out[..op'] == old(out[..op]) + [offset % 256, offset / 256]
  {
    out[op] := offset % 256;
    out[op + 1] := offset / 256;
    op' := op + 2;
  }

  function Token(litLen: nat, matchLen: nat): (t: Byte)
    ensures t == Nibble(litLen) * 16 + Nibble(matchLen)
  {
    if litLen > 15 then
      if matchLen > 15 then 15 * 16 + 15 else 15 * 16 + matchLen
    else
      if matchLen > 15 then litLen * 16 + 15 else litLen * 16 + matchLen
  }

  lemma {:induction false} PlaceToken(start: Bytes, t: Byte, token: Byte, b: Bytes, c: Bytes, d: Bytes, e: Bytes, all: Bytes)
    requires all == start + [t] + b + c + d + e
    ensures all[|start| := token] == start + ([token] + b + c + d + e)
  {
  }

  lemma {:induction false} EncodeSeqIs(q: Sequence, litLen: nat, matchLen: nat)
    requires Encodable(q) && litLen == |q.lits| && matchLen == q.len - MIN_MATCH
    ensures EncodeSeq(q) == [Token(litLen, matchLen)] + LenExt(litLen) + q.lits + [q.offset % 256, q.offset / 256] + LenExt(matchLen)
    ensures |EncodeSeq(q)| == 1 + |LenExt(litLen)| + litLen + 2 + |LenExt(matchLen)|
  {
  }

  /** Literals, offset and match length; the token's byte is filled in last. */
  method EmitSequence(out: array<Byte>, op: nat, src: Bytes, anchor: nat, litLen: nat, offset: nat, matchLen: nat,
                      ghost q: Sequence) returns (op': nat)
    requires anchor + litLen <= |src| && Encodable(q)
    requires q == Sequence(src[anchor..anchor + litLen], offset, matchLen + MIN_MATCH)
    requires op + |EncodeSeq(q)| <= out.Length
    modifies out
    ensures op' == op + |EncodeSeq(q)| && out[..op'] == old(out[..op]) + EncodeSeq(q)
  {
    EncodeSeqIs(q, litLen, matchLen);
    ghost var start, t := out[..op], out[op];
    var tokenPos := op;
    assert out[..op + 1] == start + [t];
    op' := EmitBody(out, op + 1, src, anchor, litLen, offset, matchLen);
    ghost var all := out[..op'];
    out[tokenPos] := Token(litLen, matchLen);
    assert out[..op'] == all[tokenPos := Token(litLen, matchLen)];
    PlaceToken(start, t, Token(litLen, matchLen), LenExt(litLen), q.lits, [offset % 256, offset / 256], LenExt(matchLen), all);
  }

  /** The closing literals. */
  method EmitLast(out: array<Byte>, op: nat, src: Bytes, anchor: nat) returns (op': nat)
    requires anchor <= |src| && op + |EncodeLast(src[anchor..])| <= out.Length
    modifies out
    ensures op' == op + |EncodeLast(src[anchor..])| && out[..op'] == old(out[..op]) + EncodeLast(src[anchor..])
  {
    ghost var start, t := out[..op], out[op];
    var litLen := |src| - anchor;
    var tokenPos := op;
    assert out[..op + 1] == start + [t];
    op' := EmitLength(out, op + 1, litLen);
    op' := EmitLiterals(out, op', src, anchor, litLen);
    assert src[anchor..anchor + litLen] == src[anchor..];
    ghost var all := out[..op'];
    out[tokenPos] := Token(litLen, 0);
    assert out[..op'] == all[tokenPos := Token(litLen, 0)];
    assert all == start + [t] + LenExt(litLen) + src[anchor..] + [] + [];
    PlaceToken(start, t, Token(litLen, 0), LenExt(litLen), src[anchor..], [], [], all);
    assert EncodeLast(src[anchor..]) == [Token(litLen, 0)] + LenExt(litLen) + src[anchor..] + [] + [];
  }

  // ---------- compressor ----------

  /** out is a block for src: ss covers the first part, the rest of src follows as literals. */
  ghost predicate IsBlock(out: Bytes, src: Bytes, ss: seq<Sequence>, anchor: nat) {
    && anchor <= |src| && AllEncodable(ss) && Expand([], ss) == src[..anchor]
    && out == EncodeAll(ss) + EncodeLast(src[anchor..])
  }

  lemma {:induction false} BlockDecodes(out: Bytes, src: Bytes, ss: seq<Sequence>, anchor: nat, cap: nat)
    requires IsBlock(out, src, ss, anchor) && 0 < |src| <= cap
    ensures Decompressed(out, cap) == Some(src)
  {
    DecodeEncoded(ss, src[anchor..], [], cap);
    assert src[..anchor] + src[anchor..] == src;
  }

  /** The compressed prefix of a run of the main loop. */
  ghost predicate Progress(out: Bytes, src: Bytes, ss: seq<Sequence>, anchor: nat) {
    && anchor <= |src| && AllEncodable(ss) && Expand([], ss) == src[..anchor]
    && out == EncodeAll(ss) && |out| <= anchor + anchor / 255
  }

  lemma {:induction false} ProgressStep(out: Bytes, src: Bytes, ss: seq<Sequence>, anchor: nat, ip: nat, off: nat, len: nat)
    requires Progress(out, src, ss, anchor) && anchor <= ip && |src| <= MAX_INPUT_SIZE
    requires len >= MIN_MATCH && 0 < off <= ip && Matches(src, ip - off, ip, len)
    ensures var q := Sequence(src[anchor..ip], off, len);
            && Encodable(q) && Progress(out + EncodeSeq(q), src, ss + [q], ip + len)
  {
    var q := Sequence(src[anchor..ip], off, len);
    EncodeAllAppend(ss, q);
    ExpandAppend([], ss, q);
    assert src[..anchor] + src[anchor..ip] == src[..ip];
    assert src[ip - off..ip - off + len] == src[ip..ip + len];
    CopyMatchRebuilds(src, ip, off, len);
    SequenceCost(q);
    QuotientsAdd(anchor, ip + len - anchor);
  }

  lemma {:induction false} RoomFor(anchor: nat, n: nat)
    requires anchor <= n
    ensures anchor + anchor / 255 <= n + n / 255
  {
  }

  lemma {:induction false} LastFits(out: Bytes, src: Bytes, ss: seq<Sequence>, anchor: nat)
    requires Progress(out, src, ss, anchor)
    ensures |out| + |EncodeLast(src[anchor..])| <= |src| + |src| / 255 + 2
  {
    LastCost(src[anchor..]);
    QuotientsAdd(anchor, |src| - anchor);
  }

  /** The table holds the latest searched position of every hash. */
  ghost predicate TableOk(table: seq<int>, src: Bytes, ss: seq<Sequence>, ip: nat) {
    |table| == HASH_TABLE_SIZE && forall h :: 0 <= h < HASH_TABLE_SIZE ==> table[h] == Latest(src, ss, h, ip)
  }

  lemma {:induction false} TablePassed(table: seq<int>, src: Bytes, ss: seq<Sequence>, ip: nat)
    requires TableOk(table, src, ss, ip) && Reach(ss) <= ip && ip + 3 <= |src|
    ensures TableOk(table[HashAt(src, ip) := ip], src, ss, ip + 1)
  {
    var now := table[HashAt(src, ip) := ip];
    InteriorBelow(ss, ip);
    forall h | 0 <= h < HASH_TABLE_SIZE ensures now[h] == Latest(src, ss, h, ip + 1) {
      LatestSearched(src, ss, h, ip);
    }
  }

  lemma {:induction false} TableMatched(table: seq<int>, now: seq<int>, src: Bytes, ss: seq<Sequence>, ip: nat, q: Sequence,
                                        parsed: seq<Sequence>, next: nat)
    requires TableOk(table, src, ss, ip) && ip == MatchAt(ss, q) && ip + 3 <= |src| && q.len > 0
    requires now == table[HashAt(src, ip) := ip] && parsed == ss + [q] && next == ip + q.len
    ensures TableOk(now, src, parsed, next)
  {
    forall h | 0 <= h < HASH_TABLE_SIZE ensures now[h] == Latest(src, parsed, h, next) {
      LatestMatched(src, ss, q, h);
    }
  }

  /** The parse up to ip. */
  ghost predicate ParsedTo(src: Bytes, ss: seq<Sequence>, anchor: nat, ip: nat) {
    Parsed(src, ss) && Reach(ss) == anchor <= ip && forall p :: anchor <= p < ip && p + LAST_BYTES < |src| ==> Passed(src, ss, p)
  }

  lemma {:induction false} MatchFollows(src: Bytes, ss: seq<Sequence>, anchor: nat, ip: nat, q: Sequence, parsed: seq<Sequence>, next: nat)
    requires ParsedTo(src, ss, anchor, ip) && ip + LAST_BYTES < |src| && q.lits == src[anchor..ip]
    requires Best(src, Latest(src, ss, HashAt(src, ip), ip), ip, q.offset, q.len)
    requires parsed == ss + [q] && next == ip + q.len
    ensures ParsedTo(src, parsed, next, next) && MatchAt(ss, q) == ip
  {
    ParsedMore(src, ss, q);
  }

  /** The sequence for the literals from anchor on and the match at ip. */
  method EmitMatch(src: Bytes, out: array<Byte>, op: nat, anchor: nat, ip: nat, off: nat, len: nat, ghost ss: seq<Sequence>)
    returns (op': nat, ghost q: Sequence)
    requires |src| <= MAX_INPUT_SIZE && out.Length > |src| + |src| / 255 && op <= out.Length
    requires Progress(out[..op], src, ss, anchor) && anchor <= ip
    requires len >= MIN_MATCH && 0 < off <= ip && Matches(src, ip - off, ip, len)
    modifies out
    ensures op' <= out.Length && q == Sequence(src[anchor..ip], off, len)
    ensures Progress(out[..op'], src, ss + [q], ip + len)
  {
    q := Sequence(src[anchor..ip], off, len);
    ProgressStep(out[..op], src, ss, anchor, ip, off, len);
    RoomFor(ip + len, |src|);
    op' := EmitSequence(out, op, src, anchor, ip - anchor, off, len - MIN_MATCH, q);
  }

  /** The main loop's state: what is parsed, and the positions that the table holds. */
  ghost predicate Searched(table: seq<int>, src: Bytes, ss: seq<Sequence>, anchor: nat, ip: nat) {
    ParsedTo(src, ss, anchor, ip) && TableOk(table, src, ss, ip)
  }

  lemma {:induction false} MatchStep(table: seq<int>, now: seq<int>, src: Bytes, ss: seq<Sequence>, anchor: nat, ip: nat, q: Sequence,
                                     parsed: seq<Sequence>, next: nat)
    requires Searched(table, src, ss, anchor, ip) && ip + LAST_BYTES < |src| && q.lits == src[anchor..ip]
    requires Best(src, table[HashAt(src, ip)], ip, q.offset, q.len) && now == table[HashAt(src, ip) := ip]
    requires parsed == ss + [q] && next == ip + q.len
    ensures Searched(now, src, parsed, next, next)
  {
    MatchFollows(src, ss, anchor, ip, q, parsed, next);
    TableMatched(table, now, src, ss, ip, q, parsed, next);
  }

  lemma {:induction false} LiteralStep(table: seq<int>, now: seq<int>, src: Bytes, ss: seq<Sequence>, anchor: nat, ip: nat)
    requires Searched(table, src, ss, anchor, ip) && ip + LAST_BYTES < |src|
    requires NoMatch(src, table[HashAt(src, ip)], ip) && now == table[HashAt(src, ip) := ip]
    ensures Searched(now, src, ss, anchor, ip + 1)
  {
    TablePassed(table, src, ss, ip);
  }

  lemma {:induction false} NothingSearched(table: seq<int>, src: Bytes)
    requires |table| == HASH_TABLE_SIZE && forall h :: 0 <= h < HASH_TABLE_SIZE ==> table[h] == -1
    ensures Searched(table, src, [], 0, 0)
  {
  }

  /** One round of the main loop: a sequence for the match at ip, or one more literal. */
  method EmitStep(src: Bytes, out: array<Byte>, op: nat, anchor: nat, ip: nat, table: array<int>, ghost ss: seq<Sequence>)
    returns (op': nat, anchor': nat, ip': nat, ghost ss': seq<Sequence>)
    requires |src| <= MAX_INPUT_SIZE && out.Length > |src| + |src| / 255 && op <= out.Length
    requires anchor <= ip && ip + LAST_BYTES < |src| && Progress(out[..op], src, ss, anchor)
    requires Searched(table[..], src, ss, anchor, ip)
    modifies out, table
    ensures op' <= out.Length && anchor' <= ip' && ip < ip' <= |src| && Progress(out[..op'], src, ss', anchor')
    ensures Searched(table[..], src, ss', anchor', ip')
  {
    ghost var was := table[..];
    var off, len := MatchFind(src, ip, table);
    ghost var now := table[..];
    op', anchor', ip', ss' := op, anchor, ip + 1, ss;
    if len >= MIN_MATCH {
      ghost var q;
      op', q := EmitMatch(src, out, op, anchor, ip, off, len, ss);
      ss', ip' := ss + [q], ip + len;
      anchor' := ip';
      MatchStep(was, now, src, ss, anchor, ip, q, ss', ip');
    } else {
      LiteralStep(was, now, src, ss, anchor, ip);
    }
  }

  /** The main loop: emits a sequence for every match; the last 12 bytes are never searched from. */
  method EmitMatches(src: Bytes, out: array<Byte>) returns (op: nat, anchor: nat, ghost ss: seq<Sequence>)
    requires |src| <= MAX_INPUT_SIZE && out.Length > |src| + |src| / 255
    modifies out
    ensures op <= out.Length && Progress(out[..op], src, ss, anchor)
    ensures Greedy(src, ss) && Reach(ss) == anchor
  {
    op, anchor, ss := 0, 0, [];
    assert src[..0] == [] && out[..0] == [];
    if |src| < LAST_BYTES {
      return;
    }
    var table := new int[HASH_TABLE_SIZE](_ => -1);
    NothingSearched(table[..], src);
    var ip: nat := 0;
    var ipLimit := |src| - LAST_BYTES;
    while ip < ipLimit
      invariant anchor <= ip <= |src| && op <= out.Length && Progress(out[..op], src, ss, anchor)
      invariant Searched(table[..], src, ss, anchor, ip)
      decreases |src| - ip
    {
      op, anchor, ip, ss := EmitStep(src, out, op, anchor, ip, table, ss);
    }
  }

  /** out is the block of the input's greedy parse. */
  ghost predicate CompressedTo(src: Bytes, out: Bytes) {
    exists ss :: Greedy(src, ss) && IsBlock(out, src, ss, Reach(ss))
  }

  lemma {:induction false} CompressedDecodes(src: Bytes, out: Bytes, cap: nat)
    requires CompressedTo(src, out) && 0 < |src| <= cap
    ensures Decompressed(out, cap) == Some(src)
  {
    var ss :| Greedy(src, ss) && IsBlock(out, src, ss, Reach(ss));
    BlockDecodes(out, src, ss, Reach(ss), cap);
  }

  /** There is one such block for every input. */
  lemma {:induction false} OneBlock(src: Bytes, a: Bytes, b: Bytes)
    requires CompressedTo(src, a) && CompressedTo(src, b)
    ensures a == b
  {
    var ss :| Greedy(src, ss) && IsBlock(a, src, ss, Reach(ss));
    var tt :| Greedy(src, tt) && IsBlock(b, src, tt, Reach(tt));
    GreedyIsUnique(src, ss, tt);
  }

  /** What the sequences from i on cost. */
  lemma {:induction false} RestCost(ss: seq<Sequence>, i: nat)
    requires AllEncodable(ss) && i <= |ss|
    ensures Reach(ss[..i]) <= Reach(ss)
    ensures var m := Reach(ss) - Reach(ss[..i]); |EncodeAll(ss)| <= |EncodeAll(ss[..i])| + m + m / 255
  {
    var n := |ss| - 1;
    if i > n {
      assert ss[..i] == ss;
    } else {
      var front, q := ss[..n], ss[n];
      RestCost(front, i);
      assert front[..i] == ss[..i] && ss == front + [q];
      EncodeAllAppend(front, q);
      SequenceCost(q);
      QuotientsAdd(Reach(front) - Reach(ss[..i]), |q.lits| + q.len);
    }
  }

  lemma {:induction false} FirstCost(ss: seq<Sequence>, w: Bytes)
    requires AllEncodable(ss) && ss != [] && ss[0] == Sequence(w, |w|, |w|)
    ensures |w| >= MIN_MATCH && |EncodeAll(ss[..1])| == 3 + |w| + |LenExt(|w|)| + |LenExt(|w| - MIN_MATCH)|
  {
    var q := ss[0];
    assert ss[..1] == [q] && [q][1..] == [] && EncodeAll([q]) == EncodeSeq(q) + [];
    EncodeSeqIs(q, |w|, |w| - MIN_MATCH);
  }

  lemma {:induction false} SumsUp(w: nat, t: nat, reach: nat, sequences: nat, last: nat, all: nat)
    requires w >= 2 * MIN_MATCH && 2 * w <= reach <= 2 * w + t && all == sequences + last
    requires var m := reach - 2 * w; sequences <= 3 + w + |LenExt(w)| + |LenExt(w - MIN_MATCH)| + m + m / 255
    requires var r := 2 * w + t - reach; last <= r + r / 255 + 2
    ensures all <= w + t + |LenExt(w)| + |LenExt(w - MIN_MATCH)| + t / 255 + 5
    ensures t < 765 ==> all < 2 * w + t
  {
    QuotientsAdd(reach - 2 * w, 2 * w + t - reach);
  }

  /** A word that is repeated at once is stored once: the block is shorter by its length, but for the overhead. */
  lemma {:induction false} RepeatPays(src: Bytes, out: Bytes, w: Bytes, t: Bytes)
    requires CompressedTo(src, out) && Repeats(src, w, t)
    ensures |out| + |w| <= |src| + |LenExt(|w|)| + |LenExt(|w| - MIN_MATCH)| + |t| / 255 + 5
    ensures |t| < 765 ==> |out| < |src|
  {
    var ss :| Greedy(src, ss) && IsBlock(out, src, ss, Reach(ss));
    RepeatIsFound(src, ss, w, t);
    FirstCost(ss, w);
    RestCost(ss, 1);
    LastCost(src[Reach(ss)..]);
    SumsUp(|w|, |t|, Reach(ss), |EncodeAll(ss)|, |EncodeLast(src[Reach(ss)..])|, |out|);
  }

  /**
   * Compresses 1 to 65536 bytes. The result is the block of the input's greedy parse, of which there is
   * only one; it stays within the announced bound, and decompressing it with room for the input gives the
   * input back.
   */
  method Compress(src: Bytes) returns (r: Option<Bytes>)
    ensures r.Some? <==> 0 < |src| <= MAX_INPUT_SIZE
    ensures r.Some? ==> CompressedTo(src, r.value)
    ensures r.Some? ==> 0 < |r.value| <= |src| + |src| / 255 + 2 < CompressBound(|src|)
    ensures r.Some? ==> forall cap: nat :: cap >= |src| ==> Decompressed(r.value, cap) == Some(src)
  {
    if |src| == 0 || |src| > MAX_INPUT_SIZE {
      return None;
    }
    var maxOut := CompressBound(|src|);
    var out := new Byte[maxOut + 1];
    var op, anchor;
    ghost var ss;
    op, anchor, ss := EmitMatches(src, out);
    LastFits(out[..op], src, ss, anchor);
    op := EmitLast(out, op, src, anchor);
    ghost var block := out[..op];
    assert IsBlock(block, src, ss, anchor);
    forall cap: nat | cap >= |src| ensures Decompressed(block, cap) == Some(src) {
      BlockDecodes(block, src, ss, anchor, cap);
    }
    r := Some(out[..op]);
  }

  // ---------- decompressor ----------

  /** Reads extension bytes from ip on. */
  method ReadLength(src: Bytes, ip: nat, nibble: nat) returns (ok: bool, len: nat, ip': nat)
    requires ip <= |src|
    ensures ok ==> ip <= ip' <= |src| && ReadLen(nibble, src[ip..]) == Some((len, src[ip'..]))
    ensures !ok ==> ReadLen(nibble, src[ip..]) == None
  {
    ok, len, ip' := true, nibble, ip;
    if nibble == 15 {
      if ip' >= |src| {
        return false, len, ip';
      }
      var ext: int := src[ip'];
      assert src[ip..][1..] == src[ip' + 1..];
      ip' := ip' + 1;
      len := len + ext;
      while ext == 255
        invariant ip < ip' <= |src| && len >= ext
        invariant ReadLen(nibble, src[ip..]) == if ext == 255 then ReadExt(src[ip'..], len) else Some((len, src[ip'..]))
        decreases |src| - ip'
      {
        if ip' >= |src| {
          return false, len, ip';
        }
        ext := src[ip'];
        assert src[ip'..][1..] == src[ip' + 1..];
        ip' := ip' + 1;
        len := len + ext;
      }
    }
  }

  /** Copies n literals; refused when the input or the room runs out. */
  method CopyLiterals(src: Bytes, ip: nat, out: array<Byte>, op: nat, n: nat, cap: nat) returns (ok: bool, ip': nat, op': nat)
    requires ip <= |src| && op <= cap <= out.Length
    modifies out
    ensures ok <==> ip + n <= |src| && op + n <= cap
    ensures ok ==> ip' == ip + n && op' == op + n && out[..op'] == old(out[..op]) + src[ip..ip + n]
  {
    ok, ip', op' := true, ip, op;
    var left: nat := n;
    assert out[..op] == old(out[..op]) + src[ip..ip];
    while left > 0
      invariant left <= n && ip' == ip + (n - left) <= |src| && op' == op + (n - left) <= cap
      invariant out[..op'] == old(out[..op]) + src[ip..ip']
    {
      if op' >= cap || ip' >= |src| {
        return false, ip', op';
      }
      ghost var before := out[..op'];
      out[op'] := src[ip'];
      assert out[..op' + 1] == before + [src[ip']] && src[ip..ip' + 1] == src[ip..ip'] + [src[ip']];
      op', ip', left := op' + 1, ip' + 1, left - 1;
    }
  }

  /** Copies n bytes from `offset` back, byte by byte; zeros where that is before the start. */
  method CopyBack(out: array<Byte>, op: nat, offset: nat, n: nat, cap: nat) returns (ok: bool, op': nat)
    requires 0 < offset && op <= cap <= out.Length
    modifies out
    ensures ok <==> op + n <= cap
    ensures ok ==> op' == op + n && out[..op'] == CopyMatch(old(out[..op]), offset, n)
  {
    ok, op' := true, op;
    var left: nat := n;
    while left > 0
      invariant left <= n && op' == op + (n - left) <= cap
      invariant CopyMatch(out[..op'], offset, left) == CopyMatch(old(out[..op]), offset, n)
    {
      if op' >= cap {
        return false, op';
      }
      ghost var before := out[..op'];
      out[op'] := if offset <= op' then out[op' - offset] else 0;
      assert out[..op' + 1] == before + [if offset <= |before| then before[|before| - offset] else 0];
      op', left := op' + 1, left - 1;
    }
  }

  /** A token whose literals are known: too many, the last ones, or followed by a match. */
  lemma {:induction false} TokenDecodes(s: Bytes, out: Bytes, cap: nat, n: nat, r: Bytes)
    requires s != [] && ReadLen(s[0] / 16, s[1..]) == Some((n, r))
    ensures Decode(s, out, cap) ==
            if |r| < n || |out| + n > cap then None
            else if |r| == n then Some(out + r[..n])
            else DecodeMatch(s[0] % 16, r[n..], out + r[..n], cap)
  {
  }

  /** One token and what belongs to it. `done` says that the input ended after the literals. */
  method DecodeToken(src: Bytes, ip: nat, out: array<Byte>, op: nat, cap: nat) returns (ok: bool, done: bool, ip': nat, op': nat)
    requires ip < |src| && op <= cap <= out.Length
    modifies out
    ensures !ok ==> old(Decode(src[ip..], out[..op], cap)) == None
    ensures ok ==> ip < ip' <= |src| && op <= op' <= cap
    ensures ok && done ==> old(Decode(src[ip..], out[..op], cap)) == Some(out[..op'])
    ensures ok && !done ==> old(Decode(src[ip..], out[..op], cap)) == Decode(src[ip'..], out[..op'], cap)
  {
    var token: int := src[ip];
    ghost var s, before := src[ip..], out[..op];
    assert s[1..] == src[ip + 1..];
    op', done := op, false;
    var litLen;
    ok, litLen, ip' := ReadLength(src, ip + 1, token / 16);
    if !ok {
      return;
    }
    ghost var r := src[ip'..];
    TokenDecodes(s, before, cap, litLen, r);
    var ip0 := ip';
    ok, ip', op' := CopyLiterals(src, ip', out, op', litLen, cap);
    if !ok {
      return;
    }
    assert r[..litLen] == src[ip0..ip'] && r[litLen..] == src[ip'..];
    if ip' >= |src| {
      done := true;
      return;
    }
    ok, ip', op' := DecodeMatchPartAt(src, ip', out, op', token % 16, cap);
  }

  method DecodeMatchPartAt(src: Bytes, ip: nat, out: array<Byte>, op: nat, nibble: nat, cap: nat)
    returns (ok: bool, ip': nat, op': nat)
    requires ip < |src| && op <= cap <= out.Length
    modifies out
    ensures !ok ==> old(DecodeMatch(nibble, src[ip..], out[..op], cap)) == None
    ensures ok ==> ip < ip' <= |src| && op <= op' <= cap
    ensures ok ==> old(DecodeMatch(nibble, src[ip..], out[..op], cap)) == Decode(src[ip'..], out[..op'], cap)
  {
    ip', op' := ip, op;
    if ip' + 2 > |src| {
      return false, ip', op';
    }
    var offset := (src[ip'] as int) + (src[ip' + 1] as int) * 256;
    assert OffsetOf(src[ip..]) == offset && src[ip..][2..] == src[ip + 2..];
    ip' := ip' + 2;
    if offset == 0 {
      return false, ip', op';
    }
    var matchLen;
    ok, matchLen, ip' := ReadLength(src, ip', nibble);
    if !ok {
      return;
    }
    ok, op' := CopyBack(out, op', offset, matchLen + MIN_MATCH, cap);
  }

  /** Decompresses any input at all: it ends, stays within cap, and answers what the format means. */
  method Decompress(src: Bytes, cap: nat) returns (r: Option<Bytes>)
    ensures r == Decompressed(src, cap)
    ensures r.Some? ==> |r.value| <= cap
  {
    if |src| == 0 || cap == 0 {
      return None;
    }
    var out := new Byte[cap + 1];
    var op: nat, ip: nat := 0, 0;
    assert out[..0] == [] && src[0..] == src;
    while ip < |src|
      invariant ip <= |src| && op <= cap
      invariant Decode(src[ip..], out[..op], cap) == Decode(src, [], cap)
      decreases |src| - ip
    {
      var ok, done;
      ok, done, ip, op := DecodeToken(src, ip, out, op, cap);
      if !ok {
        return None;
      }
      if done {
        break;
      }
    }
    assert ip == |src| ==> src[ip..] == [];
    DecodeFits(src, [], cap);
    r := Some(out[..op]);
  }
}
