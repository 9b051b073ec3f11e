/** Cursors: a prefix-filtered walk along the leaf chain. */
module Cursor {
  import opened ByteStrings
  import opened Tree
  import opened Contents
  import opened TreeInsert
  import opened BTree

  // ---------- filtered entry lists ----------

  function Matching(s: seq<Entry>, prefix: Bytes): seq<Entry> {
    if s == [] then []
    else (if HasPrefix(s[0].key, prefix) then [s[0]] else []) + Matching(s[1..], prefix)
  }

  lemma {:induction false} MatchingConcat(a: seq<Entry>, b: seq<Entry>, prefix: Bytes)
    ensures Matching(a + b, prefix) == Matching(a, prefix) + Matching(b, prefix)
  {
    if a == [] {
      assert a + b == b;
    } else {
      assert (a + b)[1..] == a[1..] + b && (a + b)[0] == a[0];
      MatchingConcat(a[1..], b, prefix);
      var first := if HasPrefix(a[0].key, prefix) then [a[0]] else [];
      assert (first + Matching(a[1..], prefix)) + Matching(b, prefix) == first + (Matching(a[1..], prefix) + Matching(b, prefix));
    }
  }

  lemma {:induction false} MatchingMembers(s: seq<Entry>, prefix: Bytes)
    ensures forall e :: e in Matching(s, prefix) <==> e in s && HasPrefix(e.key, prefix)
    ensures SortedEntries(s) ==> SortedEntries(Matching(s, prefix))
  {
    if s != [] {
      MatchingMembers(s[1..], prefix);
      assert s == [s[0]] + s[1..];
      if SortedEntries(s) {
        forall e | e in s[1..] ensures Less(s[0].key, e.key) {
        }
      }
    }
  }

  lemma {:induction false} MatchingNone(s: seq<Entry>, prefix: Bytes)
    requires AllBelow(s, prefix)
    ensures Matching(s, prefix) == []
  {
    if s != [] {
      assert s[0] in s;
      if HasPrefix(s[0].key, prefix) {
        PrefixNotGreater(s[0].key, prefix);
      }
      MatchingNone(s[1..], prefix);
    }
  }

  /** The empty prefix filters nothing out. */
  lemma {:induction false} MatchingAll(s: seq<Entry>)
    ensures Matching(s, []) == s
  {
    if s != [] {
      MatchingAll(s[1..]);
    }
  }

  // ---------- the leaf chain as a list of trees ----------

  ghost predicate LeafList(ls: seq<Tree>) {
    forall i :: 0 <= i < |ls| ==> ls[i].Leaf? && |ls[i].vals| == |ls[i].keys|
  }

  ghost function ChainEntries(ls: seq<Tree>): seq<Entry>
    requires LeafList(ls)
  {
    if ls == [] then [] else Zip(ls[0].keys, ls[0].vals) + ChainEntries(ls[1..])
  }

  lemma {:induction false} ChainEntriesConcat(a: seq<Tree>, b: seq<Tree>)
    requires LeafList(a) && LeafList(b)
    ensures LeafList(a + b) && ChainEntries(a + b) == ChainEntries(a) + ChainEntries(b)
  {
    if a == [] {
      assert a + b == b;
    } else {
      assert (a + b)[1..] == a[1..] + b;
      ChainEntriesConcat(a[1..], b);
    }
  }

  /** The leaves carry the entries, and every leaf's page is there. */
  lemma {:induction false} LeavesCarryEntries(pages: map<int, Node>, t: Tree, h: nat, lo: Option<Bytes>, hi: Option<Bytes>)
    requires Rep(pages, t) && Ordered(t, h, lo, hi)
    ensures LeafList(Leaves(t)) && ChainEntries(Leaves(t)) == Entries(t) && RepKids(pages, Leaves(t))
    ensures Leaves(t) != []
    decreases t, 0
  {
    if t.Inner? {
      KidLeavesCarryEntries(pages, t.keys, t.kids, h - 1, lo, hi, 0);
      assert t.kids[0..] == t.kids;
    } else {
      assert [t][1..] == [] && Zip(t.keys, t.vals) + [] == Zip(t.keys, t.vals);
    }
  }

  lemma {:induction false} KidLeavesCarryEntries(pages: map<int, Node>, keys: seq<Bytes>, kids: seq<Tree>, h: nat,
                                                 lo: Option<Bytes>, hi: Option<Bytes>, i: nat)
    requires i < |kids| && RepKids(pages, kids[i..]) && NodeOrdered(keys, kids, h, lo, hi)
    ensures LeafList(LeavesOf(kids[i..])) && ChainEntries(LeavesOf(kids[i..])) == EntriesOf(kids[i..])
    ensures RepKids(pages, LeavesOf(kids[i..])) && LeavesOf(kids[i..]) != []
    decreases kids, |kids| - i
  {
    LeavesCarryEntries(pages, kids[i], h, LowOf(keys, i, lo), HighOf(keys, i, hi));
    assert kids[i..][0] == kids[i] && kids[i..][1..] == kids[i + 1..];
    if i + 1 < |kids| {
      KidLeavesCarryEntries(pages, keys, kids, h, lo, hi, i + 1);
      ChainEntriesConcat(Leaves(kids[i]), LeavesOf(kids[i + 1..]));
      RepConcat(pages, Leaves(kids[i]), LeavesOf(kids[i + 1..]));
    } else {
      assert LeavesOf(kids[i..]) == Leaves(kids[i]) && EntriesOf(kids[i..]) == Entries(kids[i]);
    }
  }

  /** Descending left of, or at, the prefix's own child skips only entries below the prefix. */
  lemma {:induction false} SkippedBelow(keys: seq<Bytes>, kids: seq<Tree>, h: nat, lo: Option<Bytes>, hi: Option<Bytes>, prefix: Bytes, i: nat)
    requires NodeOrdered(keys, kids, h, lo, hi) && i <= Route(keys, prefix)
    ensures AllBelow(EntriesOf(kids[..i]), prefix)
  {
    RouteSeparates(keys, kids, h, lo, hi, prefix);
    var r := Route(keys, prefix);
    assert kids[..r] == kids[..i] + kids[i..r];
    EntriesOfConcat(kids[..i], kids[i..r]);
  }

  /** The leaf that the descent reaches starts the part of the chain with all matches. */
  lemma {:induction false} StartHere(pages: map<int, Node>, t: Tree, h: nat, p: Bytes, skipped: seq<Tree>, ahead: seq<Tree>)
    requires Rep(pages, t) && Ordered(t, h, None, None) && Chained(Leaves(t), NO_PAGE)
    requires forall q :: q in Footprint(t) ==> q >= 0
    requires Leaves(t) == skipped + ahead && ahead != []
    requires LeafList(skipped) && Matching(ChainEntries(skipped), p) == []
    ensures LeafList(ahead) && RepKids(pages, ahead) && Chained(ahead, NO_PAGE)
    ensures forall i :: 0 <= i < |ahead| ==> ahead[i].pid >= 0
    ensures Matching(Zip(ahead[0].keys, ahead[0].vals)[0..] + ChainEntries(ahead[1..]), p) == Matching(Entries(t), p)
  {
    LeavesCarryEntries(pages, t, h, None, None);
    forall i | 0 <= i < |ahead| ensures ahead[i].Leaf? && |ahead[i].vals| == |ahead[i].keys| && ahead[i].pid >= 0 {
      assert ahead[i] == Leaves(t)[|skipped| + i];
      LeafPage(t, |skipped| + i);
    }
    ChainedConcat(skipped, ahead, NO_PAGE);
    RepConcat(pages, skipped, ahead);
    ChainEntriesConcat(skipped, ahead);
    MatchingConcat(ChainEntries(skipped), ChainEntries(ahead), p);
    assert Zip(ahead[0].keys, ahead[0].vals)[0..] == Zip(ahead[0].keys, ahead[0].vals);
  }

  lemma {:induction false} LeafPage(t: Tree, i: nat)
    requires i < |Leaves(t)|
    ensures Leaves(t)[i].pid in Footprint(t)
    decreases t, 0
  {
    if t.Inner? {
      LeafPageOf(t.kids, i);
    }
  }

  lemma {:induction false} LeafPageOf(kids: seq<Tree>, i: nat)
    requires i < |LeavesOf(kids)|
    ensures LeavesOf(kids)[i].pid in FootprintOf(kids)
    decreases kids, 1
  {
    var n := |Leaves(kids[0])|;
    if i < n {
      LeafPage(kids[0], i);
    } else {
      LeafPageOf(kids[1..], i - n);
    }
  }

  /** Moving down to child idx leaves only non-matching leaves behind. */
  lemma {:induction false} SkipKids(pages: map<int, Node>, cur: Tree, height: nat, lo: Option<Bytes>, hi: Option<Bytes>, p: Bytes, idx: nat)
    requires cur.Inner? && Rep(pages, cur) && Ordered(cur, height, lo, hi) && idx < |cur.kids|
    requires idx <= Route(cur.keys, p) || (p == [] && idx == 0)
    ensures LeafList(LeavesOf(cur.kids[..idx])) && Matching(ChainEntries(LeavesOf(cur.kids[..idx])), p) == []
  {
    if idx > 0 {
      FirstKids(pages, cur.keys, cur.kids, height - 1, lo, hi, idx);
      SkippedBelow(cur.keys, cur.kids, height - 1, lo, hi, p, idx);
      MatchingNone(EntriesOf(cur.kids[..idx]), p);
    }
  }

  lemma {:induction false} FirstKids(pages: map<int, Node>, keys: seq<Bytes>, kids: seq<Tree>, h: nat, lo: Option<Bytes>, hi: Option<Bytes>, i: nat)
    requires RepKids(pages, kids) && NodeOrdered(keys, kids, h, lo, hi) && 0 < i < |kids|
    ensures LeafList(LeavesOf(kids[..i])) && ChainEntries(LeavesOf(kids[..i])) == EntriesOf(kids[..i])
  {
    var cs := kids[..i];
    assert kids == cs + kids[i..];
    RepConcat(pages, cs, kids[i..]);
    SplitNodeOrdered(keys, kids, h, lo, hi, i - 1);
    assert kids[..i - 1 + 1] == cs && cs[0..] == cs;
    KidLeavesCarryEntries(pages, keys[..i - 1], cs, h, lo, Some(keys[i - 1]), 0);
  }

  /** The subtree `cur` of t, with the leaves to its left already known not to match. */
  ghost predicate Descent(pages: map<int, Node>, t: Tree, cur: Tree, skipped: seq<Tree>, later: seq<Tree>, p: Bytes) {
    && Rep(pages, cur)
    && Leaves(t) == skipped + Leaves(cur) + later
    && LeafList(skipped) && Matching(ChainEntries(skipped), p) == []
  }

  lemma {:induction false} DescentStep(pages: map<int, Node>, t: Tree, cur: Tree, skipped: seq<Tree>, later: seq<Tree>, p: Bytes,
                                       height: nat, lo: Option<Bytes>, hi: Option<Bytes>, idx: nat)
    requires Descent(pages, t, cur, skipped, later, p) && cur.Inner? && Ordered(cur, height, lo, hi) && idx < |cur.kids|
    requires idx <= Route(cur.keys, p) || (p == [] && idx == 0)
    ensures Descent(pages, t, cur.kids[idx], skipped + LeavesOf(cur.kids[..idx]), LeavesOf(cur.kids[idx + 1..]) + later, p)
  {
    var left := LeavesOf(cur.kids[..idx]);
    SkipKids(pages, cur, height, lo, hi, p, idx);
    ChainEntriesConcat(skipped, left);
    MatchingConcat(ChainEntries(skipped), ChainEntries(left), p);
    ContentsAround(cur.kids, idx);
    Regroup(skipped, left, Leaves(cur.kids[idx]), LeavesOf(cur.kids[idx + 1..]), later);
    RepKid(pages, cur.kids, idx);
  }

  lemma {:induction false} Regroup<T>(a: seq<T>, b: seq<T>, c: seq<T>, d: seq<T>, e: seq<T>)
    ensures a + (b + c + d) + e == (a + b) + c + (d + e)
  {
  }

  /** The child to descend into: the prefix's own child, but never the last one. */
  method StartChild(node: Node, p: Bytes) returns (idx: nat)
    requires |node.keys| > 0
    ensures idx < |node.keys| && (idx <= Route(node.keys, p) || (p == [] && idx == 0))
  {
    idx := 0;
    if |p| > 0 {
      idx := InternalFind(node, p);
      if idx >= |node.keys| {
        idx := |node.keys| - 1;
      }
    }
  }

  /** One level down: the child keeps its order and size, and is where the node says. */
  lemma {:induction false} OneDown(pages: map<int, Node>, cur: Tree, height: nat, lo: Option<Bytes>, hi: Option<Bytes>, idx: nat)
    requires cur.Inner? && Rep(pages, cur) && Ordered(cur, height, lo, hi) && idx < |cur.kids|
    ensures |cur.kids| == |cur.keys| + 1 && height > 0 && Ordered(cur.kids[idx], height - 1, LowOf(cur.keys, idx, lo), HighOf(cur.keys, idx, hi))
    ensures RootSized(cur) ==> RootSized(cur.kids[idx])
    ensures cur.pid in pages && idx < |pages[cur.pid].children| && pages[cur.pid].children[idx] == cur.kids[idx].pid
  {
  }

  lemma {:induction false} DescentEnds(pages: map<int, Node>, t: Tree, cur: Tree, skipped: seq<Tree>, later: seq<Tree>, p: Bytes)
    requires Descent(pages, t, cur, skipped, later, p) && cur.Leaf?
    ensures Leaves(t) == skipped + ([cur] + later)
  {
  }

  /** A point of the descent: an ordered subtree of t, with everything to its left known not to match. */
  ghost predicate OnTheWay(pages: map<int, Node>, t: Tree, cur: Tree, height: nat, lo: Option<Bytes>, hi: Option<Bytes>,
                           skipped: seq<Tree>, later: seq<Tree>, p: Bytes)
  {
    && Ordered(cur, height, lo, hi) && (RootSized(t) ==> RootSized(cur))
    && Descent(pages, t, cur, skipped, later, p)
  }

  lemma {:induction false} WayDown(pages: map<int, Node>, t: Tree, cur: Tree, height: nat, lo: Option<Bytes>, hi: Option<Bytes>,
                                   skipped: seq<Tree>, later: seq<Tree>, p: Bytes, idx: nat)
    requires OnTheWay(pages, t, cur, height, lo, hi, skipped, later, p) && cur.Inner? && idx < |cur.kids|
    requires idx <= Route(cur.keys, p) || (p == [] && idx == 0)
    ensures |cur.kids| == |cur.keys| + 1 && height > 0
    ensures OnTheWay(pages, t, cur.kids[idx], height - 1, LowOf(cur.keys, idx, lo), HighOf(cur.keys, idx, hi),
                     skipped + LeavesOf(cur.kids[..idx]), LeavesOf(cur.kids[idx + 1..]) + later, p)
    ensures cur.pid in pages && idx < |pages[cur.pid].children| && pages[cur.pid].children[idx] == cur.kids[idx].pid
  {
    OneDown(pages, cur, height, lo, hi, idx);
    DescentStep(pages, t, cur, skipped, later, p, height, lo, hi, idx);
  }

  /** What the node at a point of the descent says. */
  lemma {:induction false} NodeHere(pages: map<int, Node>, t: Tree, cur: Tree, height: nat, lo: Option<Bytes>, hi: Option<Bytes>,
                                    skipped: seq<Tree>, later: seq<Tree>, p: Bytes)
    requires OnTheWay(pages, t, cur, height, lo, hi, skipped, later, p)
    ensures cur.pid in pages && pages[cur.pid].keys == cur.keys && pages[cur.pid].leaf == cur.Leaf?
    ensures cur.Inner? ==> |cur.kids| == |cur.keys| + 1 && (RootSized(t) ==> cur.keys != [])
  {
    assert cur.Inner? ==> NodeOrdered(cur.keys, cur.kids, height - 1, lo, hi);
  }

  /**
   * Descends towards the prefix. The child index is clamped below the last child, so the
   * walk may start early but never late; an internal node without keys ends it.
   */
  method Descend(s: Store, p: Bytes, ghost t: Tree, ghost h: nat)
    returns (page: int, gaveUp: bool, ghost ahead: seq<Tree>, ghost skipped: seq<Tree>)
    requires t.pid == s.root && Rep(s.pages, t) && Ordered(t, h, None, None)
    ensures RootSized(t) ==> !gaveUp
    ensures !gaveUp ==>
      && Leaves(t) == skipped + ahead && ahead != [] && ahead[0].pid == page
      && LeafList(skipped) && Matching(ChainEntries(skipped), p) == []
  {
    page := s.root;
    ghost var cur, height, lo, hi := t, h, None, None;
    ghost var later := [];
    skipped, ahead := [], [];
    assert [] + Leaves(t) + [] == Leaves(t);
    while true
      invariant page == cur.pid && OnTheWay(s.pages, t, cur, height, lo, hi, skipped, later, p)
      decreases height
    {
      NodeHere(s.pages, t, cur, height, lo, hi, skipped, later, p);
      var node := s.Load(page);
      if node.leaf {
        ahead := [cur] + later;
        DescentEnds(s.pages, t, cur, skipped, later, p);
        return page, false, ahead, skipped;
      }
      if |node.keys| == 0 {
        return page, true, ahead, skipped;
      }
      var idx := StartChild(node, p);
      WayDown(s.pages, t, cur, height, lo, hi, skipped, later, p, idx);
      skipped, later := skipped + LeavesOf(cur.kids[..idx]), LeavesOf(cur.kids[idx + 1..]) + later;
      page := node.children[idx];
      cur, height, lo, hi := cur.kids[idx], height - 1, LowOf(cur.keys, idx, lo), HighOf(cur.keys, idx, hi);
    }
  }

  /** First slot from `slot` on whose key has the prefix, or the number of keys. */
  method ScanPage(node: Node, slot: nat, prefix: Bytes) returns (i: nat)
    requires |node.vals| == |node.keys| && slot <= |node.keys|
    ensures slot <= i <= |node.keys|
    ensures forall j :: slot <= j < i ==> !HasPrefix(node.keys[j], prefix)
    ensures i < |node.keys| ==> HasPrefix(node.keys[i], prefix)
  {
    i := slot;
    while i < |node.keys|
      invariant slot <= i <= |node.keys|
      invariant forall j :: slot <= j < i ==> !HasPrefix(node.keys[j], prefix)
    {
      var matches := false;
      if |prefix| > 0 {
        matches := PrefixMatch(node.keys[i], prefix);
      }
      if matches || |prefix| == 0 {
        return;
      }
      i := i + 1;
    }
  }

  lemma {:induction false} SkipScanned(es: seq<Entry>, slot: nat, i: nat, tail: seq<Entry>, prefix: Bytes)
    requires slot <= i <= |es|
    requires forall j :: slot <= j < i ==> !HasPrefix(es[j].key, prefix)
    ensures Matching(es[slot..] + tail, prefix) == Matching(es[i..] + tail, prefix)
    ensures i < |es| && HasPrefix(es[i].key, prefix) ==>
            Matching(es[i..] + tail, prefix) == [es[i]] + Matching(es[i + 1..] + tail, prefix)
    ensures i == |es| ==> Matching(es[i..] + tail, prefix) == Matching(tail, prefix)
    decreases i - slot
  {
    var s := es[slot..] + tail;
    if slot < i {
      assert s[0] == es[slot] && s[1..] == es[slot + 1..] + tail;
      SkipScanned(es, slot + 1, i, tail, prefix);
    } else if i < |es| {
      assert s[0] == es[i] && s[1..] == es[i + 1..] + tail;
    } else {
      assert s == tail;
    }
  }

  ghost predicate ChainAt(pages: map<int, Node>, ahead: seq<Tree>, page: int, slot: nat) {
    && ahead != [] && LeafList(ahead) && RepKids(pages, ahead) && Chained(ahead, NO_PAGE)
    && ahead[0].pid == page && slot <= |ahead[0].keys| && page in pages && pages[page] == Image(ahead[0])
    && forall i :: 0 <= i < |ahead| ==> ahead[i].pid >= 0
  }

  ghost function RestOf(ahead: seq<Tree>, slot: nat, prefix: Bytes): seq<Entry>
    requires ahead != [] && LeafList(ahead) && slot <= |ahead[0].keys|
  {
    Matching(Zip(ahead[0].keys, ahead[0].vals)[slot..] + ChainEntries(ahead[1..]), prefix)
  }

  /** A scanned page either shows the next entry to yield or hands over to the next leaf. */
  lemma {:induction false} RestAfterScan(pages: map<int, Node>, ahead: seq<Tree>, page: int, slot: nat, i: nat, prefix: Bytes)
    requires ChainAt(pages, ahead, page, slot) && slot <= i <= |ahead[0].keys|
    requires forall j :: slot <= j < i ==> !HasPrefix(ahead[0].keys[j], prefix)
    requires i < |ahead[0].keys| ==> HasPrefix(ahead[0].keys[i], prefix)
    ensures i < |ahead[0].keys| ==>
      RestOf(ahead, slot, prefix) == [Entry(ahead[0].keys[i], ahead[0].vals[i])] + RestOf(ahead, i + 1, prefix)
    ensures i == |ahead[0].keys| && ahead[0].next >= 0 ==>
      ChainAt(pages, ahead[1..], ahead[0].next, 0) && RestOf(ahead[1..], 0, prefix) == RestOf(ahead, slot, prefix)
    ensures i == |ahead[0].keys| && ahead[0].next < 0 ==> RestOf(ahead, slot, prefix) == []
  {
    var es, rest := Zip(ahead[0].keys, ahead[0].vals), ahead[1..];
    SkipScanned(es, slot, i, ChainEntries(rest), prefix);
    if i == |es| && ahead[0].next >= 0 {
      assert rest != [];
      RepKid(pages, ahead, 1);
      var es' := Zip(rest[0].keys, rest[0].vals);
      assert es'[0..] == es';
    }
  }

  /** Scans forward from a slot to the next match, following next_page links. */
  method Walk(s: Store, page0: int, slot0: nat, ghost ahead0: seq<Tree>, prefix: Bytes)
    returns (found: bool, entry: Entry, page: int, slot: nat, ghost ahead: seq<Tree>)
    requires ChainAt(s.pages, ahead0, page0, slot0)
    ensures found ==> ChainAt(s.pages, ahead, page, slot)
    ensures found ==> RestOf(ahead0, slot0, prefix) == [entry] + RestOf(ahead, slot, prefix)
    ensures !found ==> RestOf(ahead0, slot0, prefix) == []
  {
    page, slot, ahead, entry := page0, slot0, ahead0, Entry([], []);
    while true
      invariant ChainAt(s.pages, ahead, page, slot)
      invariant RestOf(ahead, slot, prefix) == RestOf(ahead0, slot0, prefix)
      decreases |ahead|
    {
      var node := s.Load(page);
      var i := ScanPage(node, slot, prefix);
      RestAfterScan(s.pages, ahead, page, slot, i, prefix);
      if i < |node.keys| {
        return true, Entry(node.keys[i], node.vals[i]), page, i + 1, ahead;
      }
      if node.next < 0 {
        return false, entry, page, slot, ahead;
      }
      page, slot, ahead := node.next, 0, ahead[1..];
    }
  }

  class TreeCursor {
    const store: Store
    const prefix: Bytes
    var currentPage: int
    var currentSlot: nat
    var exhausted: bool
    ghost var ahead: seq<Tree>  // the leaves from the current one to the end of the chain

    /** The cursor stands at slot currentSlot of ahead[0], and the chain goes on as `ahead` says. */
    ghost predicate Valid()
      reads this, store
    {
      !exhausted ==> ChainAt(store.pages, ahead, currentPage, currentSlot)
    }

    /** The entries that the cursor still has to yield. */
    ghost function Rest(): seq<Entry>
      reads this, store
      requires Valid()
    {
      if exhausted then [] else RestOf(ahead, currentSlot, prefix)
    }

    /** Positions the cursor so that everything still ahead of it includes every match. */
    constructor Open(s: Store, p: Bytes, ghost t: Tree, ghost h: nat)
      requires t.pid == s.root && Rep(s.pages, t) && Ordered(t, h, None, None)
      requires Chained(Leaves(t), NO_PAGE) && forall q :: q in Footprint(t) ==> q >= 0
      ensures store == s && prefix == p && Valid()
      ensures RootSized(t) ==> !exhausted
      ensures !exhausted ==> Rest() == Matching(Entries(t), p)
    {
      store, prefix, currentSlot := s, p, 0;
      var page, gaveUp;
      ghost var chain, skipped;
      page, gaveUp, chain, skipped := Descend(s, p, t, h);
      currentPage, exhausted, ahead := page, gaveUp, chain;
      new;
      if !gaveUp {
        StartHere(s.pages, t, h, p, skipped, ahead);
      }
    }

    /** Yields the next matching entry, following next_page links as needed. */
    method Next() returns (found: bool, entry: Entry)
      requires Valid()
      modifies this
      ensures Valid()
      ensures found == (old(Rest()) != [])
      ensures found ==> entry == old(Rest())[0] && Rest() == old(Rest())[1..]
      ensures !found ==> exhausted
    {
      if exhausted {
        return false, Entry([], []);
      }
      var page, slot;
      ghost var rest;
      found, entry, page, slot, rest := Walk(store, currentPage, currentSlot, ahead, prefix);
      if found {
        currentPage, currentSlot, ahead := page, slot, rest;
      } else {
        exhausted := true;
      }
    }
  }
}
