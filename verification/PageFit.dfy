/** Which page sizes hold every node of every tree: what storing a node needs to succeed. */
module PageFit {
  import opened ByteStrings
  import opened SlottedPage
  import opened RecordCodec
  import opened Tree
  import opened Contents
  import opened TreeInsert
  import opened TreeDelete
  import opened BTree
  import opened NodeCodec
  import opened TreeRuns

  /** The longest descriptor: five bytes of id between nine others. */
  const MAX_VALUE := 14
  const ID_LIMIT := 0x8000_0000 - PAGE_ID_BIAS

  lemma {:induction false} DescriptorsAreShort(cid: int, hasChildren: bool)
    requires Layout.IsI32(cid)
    ensures |DescriptorBytes(cid, hasChildren)| <= MAX_VALUE
  {
  }

  // ---------- one node ----------

  predicate AtMost(strings: seq<Bytes>, length: nat) {
    forall i :: 0 <= i < |strings| ==> |strings[i]| <= length
  }

  /** A node of short keys and descriptors. */
  predicate Tame(n: Node) {
    Storable(n) && AtMost(n.keys, 255) && AtMost(n.vals, MAX_VALUE)
  }

  lemma {:induction false} TotalBound(recs: seq<Bytes>, first: nat, other: nat)
    requires recs != [] && |recs[0]| <= first && forall i :: 1 <= i < |recs| ==> |recs[i]| <= other
    ensures Total(recs) <= first + other * (|recs| - 1)
  {
    var n := |recs| - 1;
    if n == 0 {
      assert recs[..n] == [];
    } else {
      TotalBound(recs[..n], first, other);
    }
  }

  /** The largest node: a leaf of three keys of 255 bytes and three of the longest descriptors. */
  const LARGEST_NODE := 878

  lemma {:induction false} TameFits(n: Node, size: nat)
    requires Tame(n) && LARGEST_NODE <= size <= MAX_PAGE_SIZE
    ensures RoomOk(NodeRecs(n), size) && Short(n)
  {
    var recs := NodeRecs(n);
    var first, other := if n.leaf then 11 else 31, if n.leaf then 258 + 1 + MAX_VALUE else 259;
    assert |MetaBytes(n)| <= first;
    forall i | 1 <= i < |recs| ensures |recs[i]| <= other {
      assert recs[i] == EntryBytes(n, i - 1);
      EntrySize(n, i - 1);
    }
    TotalBound(recs, first, other);
  }

  lemma {:induction false} EntrySize(n: Node, i: nat)
    requires Storable(n) && i < |n.keys|
    ensures var v := if n.leaf then n.vals[i] else [];
            |EntryBytes(n, i)| == 1 + |n.keys[i]| + (if |n.keys[i]| < 24 then 1 else 2) + |v| + if |v| < 24 then 1 else 2
  {
  }

  // ---------- every node of a tree ----------

  /** A page id below the limit, or none. */
  predicate LinkOk(id: int, limit: int) {
    id == NO_PAGE || 0 <= id < limit
  }

  /** The node's own keys, values and links, not those of its kids. */
  predicate OwnFine(t: Tree, limit: int) {
    && |t.keys| <= MAX_KEYS && AtMost(t.keys, 255) && (t.Leaf? ==> AtMost(t.vals, MAX_VALUE))
    && 0 <= t.pid < limit && LinkOk(t.next, limit) && LinkOk(t.prev, limit)
  }

  /** Short keys, descriptors and page ids below the limit, in every node. */
  ghost predicate Fine(t: Tree, limit: int) {
    OwnFine(t, limit) && (t.Inner? ==> forall i :: 0 <= i < |t.kids| ==> Fine(t.kids[i], limit))
  }

  ghost predicate AllFine(kids: seq<Tree>, limit: int) {
    forall i :: 0 <= i < |kids| ==> Fine(kids[i], limit)
  }

  ghost predicate ResultFine(r: InsertResult) {
    match r
    case One(t, free) => Fine(t, free)
    case Two(left, sep, right, free) => Fine(left, free) && Fine(right, free) && |sep| <= 255
  }

  lemma {:induction false} FineMore(t: Tree, limit: int, more: int)
    requires Fine(t, limit) && limit <= more
    ensures Fine(t, more)
    decreases t
  {
    if t.Inner? {
      forall i | 0 <= i < |t.kids| ensures Fine(t.kids[i], more) {
        FineMore(t.kids[i], limit, more);
      }
    }
  }

  lemma {:induction false} SpliceFine(kids: seq<Tree>, i: nat, mid: seq<Tree>, limit: int, more: int)
    requires AllFine(kids, limit) && i < |kids| && limit <= more && AllFine(mid, more)
    ensures AllFine(Splice(kids, i, mid), more)
  {
    var s := Splice(kids, i, mid);
    forall j | 0 <= j < |s| ensures Fine(s[j], more) {
      if j < i {
        FineMore(kids[j], limit, more);
      } else if j >= i + |mid| {
        FineMore(kids[j - |mid| + 1], limit, more);
      }
    }
  }

  lemma {:induction false} InsertAtMost(strings: seq<Bytes>, p: nat, x: Bytes, length: nat)
    requires AtMost(strings, length) && p <= |strings| && |x| <= length
    ensures AtMost(InsertAt(strings, p, x), length)
    ensures forall mid :: 0 <= mid <= |strings| + 1 ==> AtMost(InsertAt(strings, p, x)[..mid], length) && AtMost(InsertAt(strings, p, x)[mid..], length)
  {
    var s := InsertAt(strings, p, x);
    forall i | 0 <= i < |s| ensures |s[i]| <= length {
      assert s[i] == if i < p then strings[i] else if i == p then x else strings[i - 1];
    }
  }

  lemma {:induction false} InsertLeafFine(t: Tree, k: Bytes, v: Bytes, free: int)
    requires t.Leaf? && |t.vals| == |t.keys| && Fine(t, free) && |k| <= 255 && |v| <= MAX_VALUE
    ensures ResultFine(InsertLeaf(t, k, v, free))
  {
    if IndexOf(t.keys, k) < 0 {
      var p := Route(t.keys, k);
      InsertAtMost(t.keys, p, k, 255);
      InsertAtMost(t.vals, p, v, MAX_VALUE);
    }
  }

  lemma {:induction false} AddPairFine(t: Tree, i: nat, left: Tree, sep: Bytes, right: Tree, was: int, free: int)
    requires t.Inner? && i <= |t.keys| && |t.kids| == |t.keys| + 1 && Fine(t, was) && was <= free
    requires Fine(left, free) && Fine(right, free) && |sep| <= 255
    ensures ResultFine(AddPair(t, i, left, sep, right, free))
  {
    var keys, kids := InsertAt(t.keys, i, sep), Splice(t.kids, i, [left, right]);
    assert AtMost(keys, 255);
    SpliceFine(t.kids, i, [left, right], was, free);
    forall j | 0 <= j < |kids| ensures Fine(kids[j], free + 1) {
      FineMore(kids[j], free, free + 1);
    }
  }

  /** Insertion brings in no key but the new one, and separators are keys. */
  lemma {:induction false} InsertFine(t: Tree, k: Bytes, v: Bytes, free: int)
    requires Aligned(t) && Fine(t, free) && |k| <= 255 && |v| <= MAX_VALUE
    ensures ResultFine(InsertTree(t, k, v, free)) && free <= InsertTree(t, k, v, free).free
    decreases t
  {
    if t.Leaf? {
      InsertLeafFine(t, k, v, free);
    } else {
      var i := Route(t.keys, k);
      InsertFine(t.kids[i], k, v, free);
      match InsertTree(t.kids[i], k, v, free)
      case One(c, f) =>
        SpliceFine(t.kids, i, [c], free, f);
      case Two(l, sep, r, f) =>
        AddPairFine(t, i, l, sep, r, free, f);
    }
  }

  lemma {:induction false} GrownFine(r: InsertResult)
    requires ResultFine(r) && 0 <= r.free
    ensures Fine(GrowRoot(r), FreeAfter(r))
  {
    if r.Two? {
      FineMore(r.left, r.free, r.free + 1);
      FineMore(r.right, r.free, r.free + 1);
    }
  }

  lemma {:induction false} InsertKeepsFine(t: Tree, k: Bytes, v: Bytes, free: int)
    requires Aligned(t) && Fine(t, free) && 0 <= free && |k| <= 255 && |v| <= MAX_VALUE
    ensures var r := InsertTree(t, k, v, free); Fine(GrowRoot(r), FreeAfter(r))
  {
    InsertFine(t, k, v, free);
    GrownFine(InsertTree(t, k, v, free));
  }

  lemma {:induction false} MergeFine(t: Tree, j: nat, limit: int)
    requires t.Inner? && j < |t.keys| && |t.kids| == |t.keys| + 1 && Fine(t, limit)
    ensures Fine(MergeAt(t, j), limit)
  {
    var l, r := t.kids[j], t.kids[j + 1];
    if MergedKeys(l, r) <= MAX_KEYS {
      var m := Merge(l, t.keys[j], r);
      assert Fine(l, limit) && Fine(r, limit);
      assert AtMost(m.keys, 255);
      assert Fine(m, limit);
    }
  }

  lemma {:induction false} DeleteFine(t: Tree, k: Bytes, limit: int)
    requires Aligned(t) && Fine(t, limit)
    ensures Fine(DeleteTree(t, k), limit)
    decreases t
  {
    if t.Inner? {
      var i := Route(t.keys, k);
      var c := DeleteTree(t.kids[i], k);
      DeleteFine(t.kids[i], k, limit);
      SpliceFine(t.kids, i, [c], limit, limit);
      if |c.keys| < MIN_KEYS && t.keys != [] {
        MergeFine(WithKid(t, i, c), LeftOfPair(i), limit);
      }
    }
  }

  // ---------- runs ----------

  /** Every node can be stored in a page of this size and is loaded as it was. */
  ghost predicate EachFits(t: Tree, size: nat) {
    && Storable(Image(t)) && RoomOk(NodeRecs(Image(t)), size) && Short(Image(t))
    && (t.Inner? ==> forall i :: 0 <= i < |t.kids| ==> EachFits(t.kids[i], size))
  }

  lemma {:induction false} FineFits(t: Tree, limit: int, size: nat)
    requires Fine(t, limit) && Aligned(t) && limit <= ID_LIMIT && LARGEST_NODE <= size <= MAX_PAGE_SIZE
    ensures EachFits(t, size)
    decreases t
  {
    if t.Inner? {
      forall i | 0 <= i < |t.kids| ensures EachFits(t.kids[i], size) {
        FineFits(t.kids[i], limit, size);
      }
      forall i | 0 <= i < |t.kids| ensures IdOk(Image(t).children[i]) {
        assert Fine(t.kids[i], limit);
      }
    }
    TameFits(Image(t), size);
  }

  /** The run stores only short keys and descriptors. */
  predicate Modest(ops: seq<Op>) {
    forall i :: 0 <= i < |ops| && ops[i].Put? ==> |ops[i].key| <= 255 && |ops[i].value| <= MAX_VALUE
  }

  lemma {:induction false} RunFine(root: nat, ops: seq<Op>)
    requires Modest(ops)
    ensures Fine(After(root, ops).tree, After(root, ops).free) && 0 <= After(root, ops).free && Aligned(After(root, ops).tree)
  {
    if ops != [] {
      var n := |ops| - 1;
      RunFine(root, ops[..n]);
      StepFine(After(root, ops[..n]), ops[n]);
    }
  }

  lemma {:induction false} StepFine(a: Snapshot, op: Op)
    requires Fine(a.tree, a.free) && 0 <= a.free && Aligned(a.tree)
    requires op.Put? ==> |op.key| <= 255 && |op.value| <= MAX_VALUE
    ensures var b := Step(a, op); Fine(b.tree, b.free) && 0 <= b.free && Aligned(b.tree)
  {
    if Shaped(a) {
      match op
      case Put(k, v) =>
        InsertKeepsFine(a.tree, k, v, a.free);
        PutKeeps(a, k, v);
      case Drop(k) =>
        if PathSized(a.tree, k) {
          DeleteFine(a.tree, k, a.free);
          DropKeeps(a, k);
        }
    }
  }

  /** A page size that a database may have. */
  predicate PageSizeAllowed(size: nat) {
    512 <= size <= MAX_PAGE_SIZE && size % 512 == 0
  }

  ghost predicate RunsFit(size: nat) {
    forall root: nat, ops :: Modest(ops) && After(root, ops).free <= ID_LIMIT ==> EachFits(After(root, ops).tree, size)
  }

  /** Two keys of 255 bytes share a leaf, which a page of 512 bytes does not hold, whatever the values. */
  lemma {:induction false} TwoLongKeys(root: nat, v: Bytes, w: Bytes)
    requires |v| <= MAX_VALUE && |w| <= MAX_VALUE && root < ID_LIMIT
    ensures var k: Bytes, q: Bytes := seq(255, _ => 0), seq(255, _ => 1);
            var a := After(root, [Put(k, v), Put(q, w)]);
            a.free == root + 1 && !EachFits(a.tree, 512)
  {
    var k: Bytes, q: Bytes := seq(255, _ => 0), seq(255, _ => 1);
    var ops := [Put(k, v), Put(q, w)];
    var a := Step(Empty(root), Put(k, v));
    AfterTwo(root, Put(k, v), Put(q, w));
    EmptyIsGood(root);
    PutKeeps(Empty(root), k, v);
    assert k[0] != q[0];
    LeafPut(Empty(root), k, v);
    LeafPut(a, q, w);
    LongPairTooBig(After(root, ops).tree);
  }

  lemma {:induction false} AfterTwo(root: nat, first: Op, second: Op)
    ensures After(root, [first, second]) == Step(Step(Empty(root), first), second)
  {
    assert [first, second][..1] == [first] && [first][..0] == [];
    assert After(root, [first]) == Step(After(root, []), first);
  }

  /** An insertion into a leaf that has at most one key, and not this one. */
  lemma {:induction false} LeafPut(a: Snapshot, k: Bytes, v: Bytes)
    requires Good(a) && a.tree.Leaf? && |a.tree.keys| <= 1 && k !in a.tree.keys
    ensures var t, p := a.tree, Route(a.tree.keys, k);
            Step(a, Put(k, v)) == Snapshot(t.(keys := InsertAt(t.keys, p, k), vals := InsertAt(t.vals, p, v)), a.free, a.height)
  {
  }

  lemma {:induction false} LongPairTooBig(t: Tree)
    requires t.Leaf? && |t.keys| == 2 && |t.keys[0]| == |t.keys[1]| == 255
    ensures !EachFits(t, 512)
  {
    if Storable(Image(t)) {
      var recs := NodeRecs(Image(t));
      EntrySize(Image(t), 0);
      EntrySize(Image(t), 1);
      TotalStep(recs, 1);
      TotalStep(recs, 2);
      assert recs[..3] == recs;
    }
  }

  /**
   * Over all runs that store keys of at most 255 bytes and descriptors, every node of every tree fits
   * its page exactly when the pages are larger than the smallest that a database may have.
   */
  lemma {:induction false} NodesFit(size: nat)
    requires PageSizeAllowed(size)
    ensures RunsFit(size) <==> size > 512
  {
    if size > 512 {
      forall root: nat, ops | Modest(ops) && After(root, ops).free <= ID_LIMIT ensures EachFits(After(root, ops).tree, size) {
        RunFine(root, ops);
        FineFits(After(root, ops).tree, After(root, ops).free, size);
      }
    } else {
      TwoLongKeys(1, [], []);
      var k: Bytes, q: Bytes := seq(255, _ => 0), seq(255, _ => 1);
      var ops := [Put(k, []), Put(q, [])];
      assert Modest(ops) && !EachFits(After(1, ops).tree, 512);
    }
  }
}
