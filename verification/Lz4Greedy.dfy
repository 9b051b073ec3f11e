/**
 * The parse that the compressor makes of its input, defined without its loops: from every position it
 * searches from the last searched position with the same hash on, and takes the longest match, the farthest
 * one among equals.
 */
module Lz4Greedy {
  import opened ByteStrings
  import opened Lz4Format

  const HASH_TABLE_SIZE := 32768
  const LAST_BYTES := 12

  /** Hash of the three bytes at ip: their shifts do not overlap, so the exclusive ors are sums. */
  function HashAt(src: Bytes, ip: nat): (h: nat)
    requires ip + 3 <= |src|
    ensures h < HASH_TABLE_SIZE
  {
    ((src[ip] as int) * 65536 + (src[ip + 1] as int) * 256 + (src[ip + 2] as int)) % HASH_TABLE_SIZE
  }

  /** The n bytes at s are those at ip, and end before ip. */
  ghost predicate Matches(src: Bytes, s: nat, ip: nat, n: nat) {
    s + n <= ip && ip + n <= |src| && forall j :: s <= j < s + n ==> src[j] == src[j - s + ip]
  }

  // ---------- which positions are searched ----------

  /** How much of the input the sequences cover. */
  function Reach(ss: seq<Sequence>): nat {
    if ss == [] then 0 else Reach(ss[..|ss| - 1]) + |ss[|ss| - 1].lits| + ss[|ss| - 1].len
  }

  /** Where the match of q starts, behind ss. */
  function MatchAt(ss: seq<Sequence>, q: Sequence): nat {
    Reach(ss) + |q.lits|
  }

  /** The position lies inside a match; it is not searched. */
  function Interior(ss: seq<Sequence>, p: nat): bool {
    ss != []
    && var front, q := ss[..|ss| - 1], ss[|ss| - 1];
       (MatchAt(front, q) < p < Reach(ss)) || Interior(front, p)
  }

  /** The last searched position before p with this hash, or -1. */
  function Latest(src: Bytes, ss: seq<Sequence>, h: nat, p: nat): (r: int)
    ensures -1 <= r < p
    ensures r >= 0 ==> r + 3 <= |src| && HashAt(src, r) == h && !Interior(ss, r)
  {
    if p == 0 then -1
    else if !Interior(ss, p - 1) && p + 2 <= |src| && HashAt(src, p - 1) == h then p - 1
    else Latest(src, ss, h, p - 1)
  }

  // ---------- the parse ----------

  /** The match is the longest of those that start at c or later, and the farthest back of the longest. */
  ghost predicate Best(src: Bytes, c: int, p: nat, off: nat, len: nat) {
    && 0 <= c <= p - off < p && len >= MIN_MATCH && Matches(src, p - off, p, len)
    && forall s: nat, n: nat :: c <= s < p && n >= MIN_MATCH && Matches(src, s, p, n) ==> n < len || (n == len && p - off <= s)
  }

  ghost predicate NoMatch(src: Bytes, c: int, p: nat) {
    c >= 0 ==> forall s: nat, n: nat :: c <= s < p && n >= MIN_MATCH ==> !Matches(src, s, p, n)
  }

  /** With ss before it, position p has no match to offer. */
  ghost predicate Passed(src: Bytes, ss: seq<Sequence>, p: nat) {
    p + LAST_BYTES < |src| && NoMatch(src, Latest(src, ss, HashAt(src, p), p), p)
  }

  /** The positions from where ss ends up to the match of q are passed, and there is its match. */
  ghost predicate Follows(src: Bytes, ss: seq<Sequence>, q: Sequence) {
    var a, m := Reach(ss), MatchAt(ss, q);
    && m + LAST_BYTES < |src| && q.lits == src[a..m]
    && (forall p :: a <= p < m ==> Passed(src, ss, p))
    && Best(src, Latest(src, ss, HashAt(src, m), m), m, q.offset, q.len)
  }

  ghost predicate Parsed(src: Bytes, ss: seq<Sequence>) {
    ss == [] || (Parsed(src, ss[..|ss| - 1]) && Follows(src, ss[..|ss| - 1], ss[|ss| - 1]))
  }

  /** All matches are taken: from where ss ends there is none to be found before the last 12 bytes. */
  ghost predicate Greedy(src: Bytes, ss: seq<Sequence>) {
    Parsed(src, ss) && forall p :: Reach(ss) <= p && p + LAST_BYTES < |src| ==> Passed(src, ss, p)
  }

  // ---------- there is only one ----------

  lemma {:induction false} NotPassed(src: Bytes, ss: seq<Sequence>, q: Sequence)
    requires Follows(src, ss, q)
    ensures !Passed(src, ss, MatchAt(ss, q))
  {
    var m := MatchAt(ss, q);
    assert Matches(src, m - q.offset, m, q.len);
  }

  lemma {:induction false} FollowsOnce(src: Bytes, ss: seq<Sequence>, q: Sequence, r: Sequence)
    requires Follows(src, ss, q) && Follows(src, ss, r)
    ensures q == r
  {
    NotPassed(src, ss, q);
    NotPassed(src, ss, r);
    assert MatchAt(ss, q) == MatchAt(ss, r);
    BestOnce(src, Latest(src, ss, HashAt(src, MatchAt(ss, q)), MatchAt(ss, q)), MatchAt(ss, q), q.offset, q.len, r.offset, r.len);
  }

  lemma {:induction false} BestOnce(src: Bytes, c: int, p: nat, off: nat, len: nat, off': nat, len': nat)
    requires Best(src, c, p, off, len) && Best(src, c, p, off', len')
    ensures off == off' && len == len'
  {
    assert Matches(src, p - off, p, len) && Matches(src, p - off', p, len');
  }

  lemma {:induction false} ParsedBefore(src: Bytes, ss: seq<Sequence>, i: nat)
    requires Parsed(src, ss) && i <= |ss|
    ensures Parsed(src, ss[..i])
    ensures i < |ss| ==> Follows(src, ss[..i], ss[i])
  {
    var n := |ss| - 1;
    if i < n {
      ParsedBefore(src, ss[..n], i);
      assert ss[..n][..i] == ss[..i];
    } else if i == |ss| {
      assert ss[..i] == ss;
    }
  }

  /** One greedy parse begins with every other. */
  lemma {:induction false} SameUpTo(src: Bytes, a: seq<Sequence>, b: seq<Sequence>, i: nat)
    requires Greedy(src, a) && Greedy(src, b) && i <= |a|
    ensures i <= |b| && a[..i] == b[..i]
  {
    if i > 0 {
      SameUpTo(src, a, b, i - 1);
      ParsedBefore(src, a, i - 1);
      OneMoreSame(src, b, i - 1, a[i - 1]);
      assert a[..i] == a[..i - 1] + [a[i - 1]] && b[..i] == b[..i - 1] + [b[i - 1]];
    }
  }

  /** What may follow a prefix of a greedy parse is what does follow it. */
  lemma {:induction false} OneMoreSame(src: Bytes, b: seq<Sequence>, i: nat, q: Sequence)
    requires Greedy(src, b) && i <= |b| && Follows(src, b[..i], q)
    ensures i < |b| && b[i] == q
  {
    NotPassed(src, b[..i], q);
    assert b[..|b|] == b;
    ParsedBefore(src, b, i);
    FollowsOnce(src, b[..i], b[i], q);
  }

  /** So the greedy parse of an input is unique. */
  lemma {:induction false} GreedyIsUnique(src: Bytes, a: seq<Sequence>, b: seq<Sequence>)
    requires Greedy(src, a) && Greedy(src, b)
    ensures a == b
  {
    SameUpTo(src, a, b, |a|);
    SameUpTo(src, b, a, |b|);
    assert a[..|a|] == a && b[..|b|] == b;
  }

  // ---------- keeping the table ----------

  lemma {:induction false} InteriorBelow(ss: seq<Sequence>, p: nat)
    requires Reach(ss) <= p
    ensures !Interior(ss, p)
  {
    if ss != [] {
      InteriorBelow(ss[..|ss| - 1], p);
    }
  }

  /** Positions up to the new match are as before, those inside it are not searched. */
  lemma {:induction false} InteriorMore(ss: seq<Sequence>, q: Sequence, p: nat)
    ensures p <= MatchAt(ss, q) ==> Interior(ss + [q], p) == Interior(ss, p)
    ensures MatchAt(ss, q) < p < MatchAt(ss, q) + q.len ==> Interior(ss + [q], p)
    ensures Reach(ss + [q]) == MatchAt(ss, q) + q.len
  {
    assert (ss + [q])[..|ss|] == ss;
  }

  /** A position that was searched becomes the latest with its hash. */
  lemma {:induction false} LatestSearched(src: Bytes, ss: seq<Sequence>, h: nat, p: nat)
    requires !Interior(ss, p) && p + 3 <= |src|
    ensures Latest(src, ss, h, p + 1) == if HashAt(src, p) == h then p else Latest(src, ss, h, p)
  {
  }

  lemma {:induction false} LatestBefore(src: Bytes, ss: seq<Sequence>, q: Sequence, h: nat, p: nat)
    requires p <= MatchAt(ss, q)
    ensures Latest(src, ss + [q], h, p) == Latest(src, ss, h, p)
  {
    if p > 0 {
      InteriorMore(ss, q, p - 1);
      LatestBefore(src, ss, q, h, p - 1);
    }
  }

  lemma {:induction false} LatestSkips(src: Bytes, ss: seq<Sequence>, h: nat, p: nat)
    requires p > 0 && Interior(ss, p - 1)
    ensures Latest(src, ss, h, p) == Latest(src, ss, h, p - 1)
  {
  }

  lemma {:induction false} LatestInside(src: Bytes, ss: seq<Sequence>, q: Sequence, h: nat, p: nat)
    requires MatchAt(ss, q) < p <= MatchAt(ss, q) + q.len
    ensures Latest(src, ss + [q], h, p) == Latest(src, ss + [q], h, MatchAt(ss, q) + 1)
  {
    if p > MatchAt(ss, q) + 1 {
      InteriorMore(ss, q, p - 1);
      LatestSkips(src, ss + [q], h, p);
      LatestInside(src, ss, q, h, p - 1);
    }
  }

  /** Of a match only the position where it starts enters the table. */
  lemma {:induction false} LatestMatched(src: Bytes, ss: seq<Sequence>, q: Sequence, h: nat)
    requires var m := MatchAt(ss, q); m + 3 <= |src| && q.len > 0
    ensures var m := MatchAt(ss, q);
            Latest(src, ss + [q], h, m + q.len) == if HashAt(src, m) == h then m else Latest(src, ss, h, m)
  {
    var m := MatchAt(ss, q);
    LatestInside(src, ss, q, h, m + q.len);
    InteriorMore(ss, q, m);
    InteriorBelow(ss, m);
    LatestSearched(src, ss + [q], h, m);
    LatestBefore(src, ss, q, h, m);
  }

  lemma {:induction false} ParsedMore(src: Bytes, ss: seq<Sequence>, q: Sequence)
    requires Parsed(src, ss) && Follows(src, ss, q)
    ensures Parsed(src, ss + [q]) && Reach(ss + [q]) == MatchAt(ss, q) + q.len
  {
    assert (ss + [q])[..|ss|] == ss && (ss + [q])[|ss|] == q;
  }

  // ---------- a repeated word is found ----------

  /** The bytes of w twice, then t; in the first w nothing repeats, and no later position has the first one's hash. */
  ghost predicate Repeats(src: Bytes, w: Bytes, t: Bytes) {
    && src == w + w + t && |w| >= 2 * MIN_MATCH && |t| >= LAST_BYTES
    && (forall p: nat :: 0 < p < |w| ==> HashAt(src, p) != HashAt(src, 0))
    && forall s: nat, p: nat :: s < p < |w| ==> !Matches(src, s, p, MIN_MATCH)
  }

  lemma {:induction false} LatestIsFirst(src: Bytes, h: nat, p: nat)
    requires 0 < p && p + 2 <= |src| && h == HashAt(src, 0)
    requires forall x: nat :: 0 < x < p ==> HashAt(src, x) != h
    ensures Latest(src, [], h, p) == 0
  {
    if p > 1 {
      LatestIsFirst(src, h, p - 1);
    }
  }

  lemma {:induction false} NoneLonger(src: Bytes, s: nat, p: nat, k: nat)
    requires k >= MIN_MATCH && !Matches(src, s, p, MIN_MATCH)
    ensures !Matches(src, s, p, k)
  {
  }

  /** The first sequence is w as literals and one match for its whole repetition. */
  lemma {:induction false} RepeatFollows(src: Bytes, w: Bytes, t: Bytes)
    requires Repeats(src, w, t)
    ensures Follows(src, [], Sequence(w, |w|, |w|))
  {
    var n := |w|;
    assert src[0..n] == w;
    forall p: nat | p < n ensures Passed(src, [], p) {
      forall s: nat, k: nat | s < p && k >= MIN_MATCH ensures !Matches(src, s, p, k) {
        NoneLonger(src, s, p, k);
      }
    }
    assert forall j :: 0 <= j < n ==> src[j] == w[j] && src[n + j] == w[j];
    assert src[0] == src[n] && src[1] == src[n + 1] && src[2] == src[n + 2];
    LatestIsFirst(src, HashAt(src, 0), n);
    assert Matches(src, 0, n, n);
    assert Best(src, 0, n, n, n);
  }

  lemma {:induction false} RepeatIsFound(src: Bytes, ss: seq<Sequence>, w: Bytes, t: Bytes)
    requires Greedy(src, ss) && Repeats(src, w, t)
    ensures ss != [] && ss[0] == Sequence(w, |w|, |w|) && Reach(ss[..1]) == 2 * |w|
  {
    RepeatFollows(src, w, t);
    assert ss[..0] == [];
    OneMoreSame(src, ss, 0, Sequence(w, |w|, |w|));
    assert ss[..1][..0] == [] && ss[..1][0] == ss[0];
  }

  lemma {:induction false} SmallHash(src: Bytes, p: nat)
    requires p + 3 <= |src| && src[p + 1] < 128
    ensures HashAt(src, p) == (src[p + 1] as int) * 256 + (src[p + 2] as int)
  {
    assert (src[p] as int) * 65536 == (src[p] as int) * 2 * HASH_TABLE_SIZE;
  }

  /** A word of different bytes below 128 is such a word. */
  lemma {:induction false} DifferentBytesRepeat(src: Bytes, w: Bytes, t: Bytes)
    requires src == w + w + t && |w| >= 2 * MIN_MATCH && |t| >= LAST_BYTES
    requires forall i, j :: 0 <= i < j < |w| ==> w[i] != w[j]
    requires forall i :: 0 <= i < |w| ==> w[i] < 128
    ensures Repeats(src, w, t)
  {
    var n := |w|;
    assert forall i :: 0 <= i < n ==> src[i] == w[i] && src[n + i] == w[i];
    assert src[n] == w[0];
    SmallHash(src, 0);
    forall p: nat | 0 < p < n ensures HashAt(src, p) != HashAt(src, 0) {
      SmallHash(src, p);
      assert src[p + 1] == if p + 1 < n then w[p + 1] else w[0];
    }
    forall s: nat, p: nat | s < p < n ensures !Matches(src, s, p, MIN_MATCH) {
      assert src[s] != src[p];
    }
  }
}
