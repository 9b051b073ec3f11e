/** The B-tree over numbered pages: nodes are loaded, changed and stored back one page at a time. */
module BTree {
  import opened ByteStrings
  import opened Tree
  import opened Contents
  import opened TreeInsert
  import opened TreeDelete
  import opened Sequences

  /** A node as a page stores it: a leaf has vals, an internal node has children. */
  datatype Node = Node(leaf: bool, keys: seq<Bytes>, vals: seq<Bytes>, children: seq<int>, next: int, prev: int)

  const EMPTY_LEAF := Node(true, [], [], [], NO_PAGE, NO_PAGE)
  const EMPTY_INTERNAL := Node(false, [], [], [], NO_PAGE, NO_PAGE)

  // ---------- which tree a set of pages represents ----------

  function Pids(kids: seq<Tree>): (r: seq<int>)
    ensures |r| == |kids| && forall i :: 0 <= i < |r| ==> r[i] == kids[i].pid
  {
    seq(|kids|, i requires 0 <= i < |kids| => kids[i].pid)
  }

  function Image(t: Tree): Node {
    match t
    case Leaf(_, keys, vals, next, prev) => Node(true, keys, vals, [], next, prev)
    case Inner(_, keys, kids, next, prev) => Node(false, keys, [], Pids(kids), next, prev)
  }

  ghost predicate Rep(pages: map<int, Node>, t: Tree)
    decreases t, 0
  {
    && t.pid in pages && pages[t.pid] == Image(t)
    && (t.Inner? ==> RepKids(pages, t.kids))
  }

  ghost predicate RepKids(pages: map<int, Node>, kids: seq<Tree>)
    decreases kids, 1
  {
    kids == [] || (Rep(pages, kids[0]) && RepKids(pages, kids[1..]))
  }

  ghost predicate Agree(p: map<int, Node>, q: map<int, Node>, ids: set<int>) {
    forall i :: i in ids && i in p ==> i in q && q[i] == p[i]
  }

  /** Everything outside ids is as before. */
  ghost predicate Outside(p: map<int, Node>, q: map<int, Node>, ids: set<int>) {
    forall i :: i in p && i !in ids ==> i in q && q[i] == p[i]
  }

  /** Allocation hands out ids that no page has yet. */
  ghost predicate IdsBelow(p: map<int, Node>, n: int) {
    0 <= n && forall i :: i in p ==> i < n
  }

  lemma {:induction false} RepFrame(p: map<int, Node>, q: map<int, Node>, t: Tree)
    requires Rep(p, t) && Agree(p, q, Footprint(t))
    ensures Rep(q, t)
    decreases t, 0
  {
    if t.Inner? {
      RepKidsFrame(p, q, t.kids);
    }
  }

  lemma {:induction false} RepKidsFrame(p: map<int, Node>, q: map<int, Node>, kids: seq<Tree>)
    requires RepKids(p, kids) && Agree(p, q, FootprintOf(kids))
    ensures RepKids(q, kids)
    decreases kids, 1
  {
    if kids != [] {
      RepFrame(p, q, kids[0]);
      RepKidsFrame(p, q, kids[1..]);
    }
  }

  lemma {:induction false} RepConcat(pages: map<int, Node>, a: seq<Tree>, b: seq<Tree>)
    ensures RepKids(pages, a + b) <==> RepKids(pages, a) && RepKids(pages, b)
  {
    if a == [] {
      assert a + b == b;
    } else {
      assert (a + b)[1..] == a[1..] + b;
      RepConcat(pages, a[1..], b);
    }
  }

  lemma {:induction false} RepSplice(pages: map<int, Node>, kids: seq<Tree>, i: nat, mid: seq<Tree>)
    requires i < |kids|
    ensures RepKids(pages, Splice(kids, i, mid)) <==>
            RepKids(pages, kids[..i]) && RepKids(pages, mid) && RepKids(pages, kids[i + 1..])
  {
    RepConcat(pages, kids[..i], mid);
    RepConcat(pages, kids[..i] + mid, kids[i + 1..]);
  }

  lemma {:induction false} RepKid(pages: map<int, Node>, kids: seq<Tree>, i: nat)
    requires RepKids(pages, kids) && i < |kids|
    ensures Rep(pages, kids[i])
  {
    if i > 0 {
      RepKid(pages, kids[1..], i - 1);
    }
  }

  /** After kids[i] was rewritten to mid, the siblings still stand. */
  lemma {:induction false} RepAfterKid(p: map<int, Node>, q: map<int, Node>, kids: seq<Tree>, i: nat, mid: seq<Tree>)
    requires i < |kids| && DistinctKids(kids) && RepKids(p, kids)
    requires Outside(p, q, Footprint(kids[i])) && RepKids(q, mid)
    ensures RepKids(q, Splice(kids, i, mid))
  {
    assert kids == Splice(kids, i, [kids[i]]);
    Singleton(kids[i]);
    SplicePages(kids, i, [kids[i]]);
    RepSplice(p, kids, i, [kids[i]]);
    RepKidsFrame(p, q, kids[..i]);
    RepKidsFrame(p, q, kids[i + 1..]);
    RepSplice(q, kids, i, mid);
  }

  /** Both halves of a cut list of kids survive writes to other pages. */
  lemma {:induction false} RepSplitKids(p: map<int, Node>, q: map<int, Node>, cs: seq<Tree>, mid: nat, written: set<int>)
    requires mid <= |cs| && RepKids(p, cs) && Outside(p, q, written) && written !! FootprintOf(cs)
    ensures RepKids(q, cs[..mid]) && RepKids(q, cs[mid..])
  {
    RepKidsFrame(p, q, cs);
    assert cs == cs[..mid] + cs[mid..];
    RepConcat(q, cs[..mid], cs[mid..]);
  }

  /** What the pages hold once an insertion below `page` has come back with result r. */
  ghost predicate InsertDone(pages: map<int, Node>, nextPage: int, r: InsertResult, page: int, sep: Bytes, newChild: int) {
    match r
    case One(t, f) => newChild == -1 && nextPage == f && t.pid == page && Rep(pages, t)
    case Two(l, s, rt, f) =>
      && l.pid == page && newChild == rt.pid && newChild >= 0 && sep == s && nextPage == f
      && Rep(pages, l) && Rep(pages, rt)
  }

  lemma {:induction false} RepCouple(pages: map<int, Node>, l: Tree, r: Tree)
    ensures RepKids(pages, [l]) <==> Rep(pages, l)
    ensures RepKids(pages, [l, r]) <==> Rep(pages, l) && Rep(pages, r)
  {
    assert [l, r][0] == l && [l, r][1..] == [r] && [l][1..] == [] && [r][1..] == [];
  }

  // ---------- scanning and shifting inside one node ----------

  /** Linear scan for an equal key. */
  method LeafFind(node: Node, key: Bytes) returns (r: int)
    ensures r == IndexOf(node.keys, key)
  {
    for i := 0 to |node.keys|
      invariant key !in node.keys[..i]
    {
      if node.keys[i] == key {
        return i;
      }
    }
    assert node.keys[..|node.keys|] == node.keys;
    return -1;
  }

  /** Linear scan for the first separator above the key. */
  method InternalFind(node: Node, key: Bytes) returns (r: nat)
    ensures r == Route(node.keys, key)
  {
    for i := 0 to |node.keys|
      invariant forall j :: 0 <= j < i ==> !Less(key, node.keys[j])
    {
      var c := Compare(key, node.keys[i]);
      if c < 0 {
        return i;
      }
    }
    return |node.keys|;
  }

  /**
   * The scan that places a key in a leaf with room: right to left, stopping at the first hit.
   * With at most one entry it finds the sorted position.
   */
  method ScanPosition(node: Node, key: Bytes) returns (idx: nat)
    requires |node.keys| < MAX_KEYS - 1
    ensures idx == Route(node.keys, key)
  {
    var n := |node.keys|;
    var i := n - 1;
    idx := n;
    while i >= 0 && idx == n
      invariant -1 <= i < n && idx <= n
      invariant idx == n ==> forall j :: i < j < n ==> !Less(key, node.keys[j])
      invariant idx < n ==> i == idx - 1 && Less(key, node.keys[idx])
      decreases i
    {
      var c := Compare(key, node.keys[i]);
      if c < 0 {
        idx := i;
      }
      i := i - 1;
    }
  }

  /** Makes room at idx by moving the later slots one to the right. */
  method ShiftIn<T>(s: seq<T>, idx: nat, x: T) returns (r: seq<T>)
    requires idx <= |s|
    ensures r == InsertAt(s, idx, x)
  {
    r := s + [x];
    var i := |s|;
    while i > idx
      invariant idx <= i <= |s| && |r| == |s| + 1
      invariant r[..i] == s[..i]
      invariant r[i + 1..] == s[i..]
    {
      ghost var before := r;
      r := r[i := r[i - 1]];
      assert r[i..] == [s[i - 1]] + before[i + 1..] && s[i - 1..] == [s[i - 1]] + s[i..];
      i := i - 1;
    }
    r := r[idx := x];
    assert r == r[..idx] + [x] + r[idx + 1..];
  }

  /** Copies s into a scratch array of capacity MAX_KEYS + 2 with x put at pos. */
  method Gather<T(0)>(s: seq<T>, pos: nat, x: T) returns (tmp: array<T>)
    requires pos <= |s| <= MAX_KEYS + 1
    ensures fresh(tmp) && tmp.Length == MAX_KEYS + 2
    ensures tmp[..|s| + 1] == InsertAt(s, pos, x)
  {
    tmp := new T[MAX_KEYS + 2];
    ghost var want := InsertAt(s, pos, x);
    for i := 0 to pos
      invariant forall j :: 0 <= j < i ==> tmp[j] == want[j]
    {
      tmp[i] := s[i];
    }
    tmp[pos] := x;
    for i := pos to |s|
      invariant forall j :: 0 <= j <= i ==> tmp[j] == want[j]
    {
      tmp[i + 1] := s[i];
      assert want[i + 1] == s[i];
    }
    assert tmp[..|s| + 1] == want;
  }

  /** Puts an entry at position idx of a leaf; refused when the leaf is full. */
  method LeafInsert(node: Node, key: Bytes, value: Bytes, idx: nat) returns (ok: bool, r: Node)
    requires idx <= |node.keys| == |node.vals|
    ensures ok <==> |node.keys| < MAX_KEYS
    ensures ok ==> r == node.(keys := InsertAt(node.keys, idx, key), vals := InsertAt(node.vals, idx, value))
    ensures !ok ==> r == node
  {
    if |node.keys| >= MAX_KEYS {
      return false, node;
    }
    var keys := ShiftIn(node.keys, idx, key);
    var vals := ShiftIn(node.vals, idx, value);
    return true, node.(keys := keys, vals := vals);
  }

  /** Puts an entry into scratch arrays at its sorted position and deals them out to two leaves. */
  method CutLeaf(page: int, node: Node, key: Bytes, value: Bytes, newPage: int, empty: Node) returns (left: Node, right: Node)
    requires |node.keys| <= MAX_KEYS && |node.vals| == |node.keys|
    ensures var p := Route(node.keys, key);
            var keys, vals := InsertAt(node.keys, p, key), InsertAt(node.vals, p, value);
            var mid := |keys| / 2;
            && left == node.(keys := keys[..mid], vals := vals[..mid], next := newPage)
            && right == empty.(keys := keys[mid..], vals := vals[mid..], next := node.next, prev := page)
  {
    var n := |node.keys| + 1;
    var mid := n / 2;
    var pos := InternalFind(node, key);
    var tmpKeys := Gather(node.keys, pos, key);
    var tmpVals := Gather(node.vals, pos, value);
    assert tmpKeys[mid..n] == tmpKeys[..n][mid..] && tmpKeys[..mid] == tmpKeys[..n][..mid];
    assert tmpVals[mid..n] == tmpVals[..n][mid..] && tmpVals[..mid] == tmpVals[..n][..mid];
    right := empty.(keys := tmpKeys[mid..n], vals := tmpVals[mid..n], next := node.next, prev := page);
    left := node.(keys := tmpKeys[..mid], vals := tmpVals[..mid], next := newPage);
  }

  /** Puts a separator and child into scratch arrays and deals them out to two nodes. */
  method CutNode(page: int, node: Node, idx: nat, insertKey: Bytes, insertChild: int, newPage: int, empty: Node)
    returns (left: Node, sep: Bytes, right: Node)
    requires idx <= |node.keys| <= MAX_KEYS && |node.children| == |node.keys| + 1
    ensures var keys, children := InsertAt(node.keys, idx, insertKey), InsertAt(node.children, idx + 1, insertChild);
            var mid := |keys| / 2;
            && left == node.(keys := keys[..mid], children := children[..mid + 1], next := newPage)
            && sep == keys[mid]
            && right == empty.(keys := keys[mid + 1..], children := children[mid + 1..], next := node.next, prev := page)
  {
    var n := |node.keys| + 1;
    var mid := n / 2;
    var tmpKeys := Gather(node.keys, idx, insertKey);
    var tmpChildren := Gather(node.children, idx + 1, insertChild);
    assert tmpKeys[mid + 1..n] == tmpKeys[..n][mid + 1..] && tmpKeys[..mid] == tmpKeys[..n][..mid];
    assert tmpChildren[mid + 1..n + 1] == tmpChildren[..n + 1][mid + 1..] && tmpChildren[..mid + 1] == tmpChildren[..n + 1][..mid + 1];
    assert tmpKeys[mid] == tmpKeys[..n][mid];
    right := empty.(keys := tmpKeys[mid + 1..n], children := tmpChildren[mid + 1..n + 1], next := node.next, prev := page);
    left := node.(keys := tmpKeys[..mid], children := tmpChildren[..mid + 1], next := newPage);
    sep := tmpKeys[mid];
  }

  /** Splitting child idx in two adds one id to the list of children. */
  lemma {:induction false} SplicePids(kids: seq<Tree>, i: nat, l: Tree, r: Tree)
    requires i < |kids| && l.pid == kids[i].pid
    ensures Pids(Splice(kids, i, [l, r])) == InsertAt(Pids(kids), i + 1, r.pid)
  {
  }

  lemma {:induction false} CutRep(p: map<int, Node>, q: map<int, Node>, t: Tree, cs: seq<Tree>, mid: nat, newPage: int)
    requires mid <= |cs| && RepKids(p, cs) && Outside(p, q, {t.pid, newPage})
    requires t.pid !in FootprintOf(cs) && newPage !in FootprintOf(cs)
    ensures RepKids(q, cs[..mid]) && RepKids(q, cs[mid..])
    ensures Pids(cs)[..mid] == Pids(cs[..mid]) && Pids(cs)[mid..] == Pids(cs[mid..])
  {
    RepSplitKids(p, q, cs, mid, {t.pid, newPage});
  }

  /** The two stored halves are the images of the two trees that AddPair makes. */
  lemma {:induction false} CutDone(p: map<int, Node>, q: map<int, Node>, t: Tree, i: nat, l: Tree, sep: Bytes, r: Tree, free: int)
    requires t.Inner? && i <= |t.keys| == MAX_KEYS && |t.kids| == |t.keys| + 1
    requires l.pid == t.kids[i].pid && RepKids(p, Splice(t.kids, i, [l, r]))
    requires t.pid !in FootprintOf(Splice(t.kids, i, [l, r])) && free !in FootprintOf(Splice(t.kids, i, [l, r]))
    requires 0 <= t.pid < free && Outside(p, q, {t.pid, free}) && t.pid in q && free in q
    requires var keys, children := InsertAt(t.keys, i, sep), InsertAt(Pids(t.kids), i + 1, r.pid);
             && q[t.pid] == Image(t).(keys := keys[..2], children := children[..3], next := free)
             && q[free] == EMPTY_INTERNAL.(keys := keys[3..], children := children[3..], next := t.next, prev := t.pid)
    ensures AddPair(t, i, l, sep, r, free).Two?
    ensures InsertDone(q, free + 1, AddPair(t, i, l, sep, r, free), t.pid, InsertAt(t.keys, i, sep)[2], free)
  {
    var cs := Splice(t.kids, i, [l, r]);
    SplicePids(t.kids, i, l, r);
    CutRep(p, q, t, cs, 3, free);
    var a := AddPair(t, i, l, sep, r, free);
    assert q[t.pid] == Image(a.left);
    assert q[free] == Image(a.right);
  }

  // ---------- how one node's tree follows from its child's ----------

  /** The child was changed in place: the node's own page already is what it should be. */
  lemma {:induction false} StepOne(p: map<int, Node>, q: map<int, Node>, t: Tree, i: nat, c: Tree)
    requires t.Inner? && i < |t.kids| && Rep(p, t) && Distinct(t)
    requires Outside(p, q, Footprint(t.kids[i])) && Rep(q, c) && c.pid == t.kids[i].pid
    ensures Rep(q, t.(kids := Splice(t.kids, i, [c])))
    ensures Outside(p, q, Footprint(t))
  {
    KidPages(t, i, 0);
    RepCouple(q, c, c);
    RepAfterKid(p, q, t.kids, i, [c]);
    assert Pids(Splice(t.kids, i, [c])) == Pids(t.kids);
  }

  /** The child was split: its two halves and its siblings stand, off the node's page and unused pages. */
  lemma {:induction false} StepTwo(p: map<int, Node>, q: map<int, Node>, t: Tree, i: nat, l: Tree, r: Tree, free: int, free': int)
    requires t.Inner? && i < |t.kids| && Rep(p, t) && Distinct(t) && PagesBelow(t, free)
    requires Outside(p, q, Footprint(t.kids[i])) && Rep(q, l) && Rep(q, r)
    requires Distinct(l) && Distinct(r) && Footprint(l) !! Footprint(r)
    requires Grown(Footprint(l) + Footprint(r), Footprint(t.kids[i]), free, free')
    ensures RepKids(q, Splice(t.kids, i, [l, r]))
    ensures t.pid !in FootprintOf(Splice(t.kids, i, [l, r])) && free' !in FootprintOf(Splice(t.kids, i, [l, r]))
    ensures 0 <= t.pid < free <= free' && t.pid in Footprint(t) && Footprint(t.kids[i]) <= Footprint(t)
  {
    KidPages(t, i, free);
    RepCouple(q, l, r);
    RepAfterKid(p, q, t.kids, i, [l, r]);
    AddPairKids(t, i, l, r, free, free');
  }

  /** The new root and the two halves of the old one. */
  lemma {:induction false} RepGrown(p: map<int, Node>, q: map<int, Node>, r: InsertResult)
    requires r.Two? && Rep(p, r.left) && Rep(p, r.right)
    requires q == p[r.free := Node(false, [r.sep], [], [r.left.pid, r.right.pid], NO_PAGE, NO_PAGE)]
    requires r.free !in Footprint(r.left) && r.free !in Footprint(r.right)
    ensures Rep(q, GrowRoot(r))
  {
    RepFrame(p, q, r.left);
    RepFrame(p, q, r.right);
    RepCouple(q, r.left, r.right);
    assert Pids([r.left, r.right]) == [r.left.pid, r.right.pid];
  }

  class Store {
    var pages: map<int, Node>
    var nextPage: int
    var root: int
    var freeList: seq<int>  // pages given back, most recent first

    /** An empty database: the root is an empty leaf. */
    constructor (rootPage: int)
      requires 0 <= rootPage
      ensures Represents(Leaf(rootPage, [], [], NO_PAGE, NO_PAGE), 0)
      ensures nextPage == rootPage + 1
    {
      pages := map[rootPage := EMPTY_LEAF];
      nextPage := rootPage + 1;
      root := rootPage;
      freeList := [];
    }

    /** The pages reachable from the root form tree t of height h, with no page shared. */
    ghost predicate Represents(t: Tree, h: nat)
      reads this
    {
      Shaped(t, h) && RootSized(t)
    }

    /** All of that but the minimum size of nodes, which a refused merge can break. */
    ghost predicate Shaped(t: Tree, h: nat)
      reads this
    {
      && t.pid == root && Rep(pages, t)
      && Ordered(t, h, None, None) && Aligned(t)
      && Distinct(t) && PagesBelow(t, nextPage)
      && Chained(Leaves(t), NO_PAGE)
      && IdsBelow(pages, nextPage)
    }

    method Load(pid: int) returns (n: Node)
      ensures n == if pid in pages then pages[pid] else EMPTY_LEAF
    {
      n := if pid in pages then pages[pid] else EMPTY_LEAF;
    }

    method StoreNode(pid: int, n: Node)
      modifies this`pages
      ensures pages == old(pages)[pid := n]
    {
      pages := pages[pid := n];
    }

    method AllocateLeaf() returns (pid: int)
      modifies this`pages, this`nextPage
      ensures pid == old(nextPage) && nextPage == pid + 1 && pages == old(pages)[pid := EMPTY_LEAF]
    {
      pid := nextPage;
      nextPage := nextPage + 1;
      pages := pages[pid := EMPTY_LEAF];
    }

    method AllocateInternal() returns (pid: int)
      modifies this`pages, this`nextPage
      ensures pid == old(nextPage) && nextPage == pid + 1 && pages == old(pages)[pid := EMPTY_INTERNAL]
    {
      pid := nextPage;
      nextPage := nextPage + 1;
      pages := pages[pid := EMPTY_INTERNAL];
    }

    /** Takes an id for a page that is no node. */
    method AllocatePage(ghost t: Tree, ghost h: nat) returns (pid: int)
      requires Represents(t, h)
      modifies this`nextPage
      ensures pid == old(nextPage) && nextPage == pid + 1 && Represents(t, h)
    {
      pid := nextPage;
      nextPage := nextPage + 1;
    }

    // ---------- lookup ----------

    /** Descends from the root, giving up at an internal node without keys. */
    method Search(key: Bytes, ghost t: Tree, ghost h: nat) returns (found: bool, value: Bytes)
      requires t.pid == root && Rep(pages, t) && Ordered(t, h, None, None)
      ensures (if found then Some(value) else None) == Find(t, key)
      ensures RootSized(t) ==> (if found then Some(value) else None) == Get(MapOf(Entries(t)), key)
    {
      if RootSized(t) {
        SizedPath(t, key);
        FindIsGet(t, h, None, None, key);
      }
      var page := root;
      ghost var cur, height, lo, hi := t, h, None, None;
      while true
        invariant page == cur.pid && Rep(pages, cur) && Ordered(cur, height, lo, hi)
        invariant Find(cur, key) == Find(t, key)
        decreases cur
      {
        var node := Load(page);
        if node.leaf {
          var idx := LeafFind(node, key);
          if idx < 0 {
            return false, [];
          }
          return true, node.vals[idx];
        }
        if |node.keys| == 0 {
          return false, [];
        }
        var child := InternalFind(node, key);
        RepKid(pages, cur.kids, child);
        page := node.children[child];
        cur, height, lo, hi := cur.kids[child], height - 1, LowOf(cur.keys, child, lo), HighOf(cur.keys, child, hi);
      }
    }

    // ---------- insertion ----------

    /** Splits a full leaf; the median and everything above it move to a new page on the right. */
    method LeafSplit(page: int, node: Node, key: Bytes, value: Bytes, ghost t: Tree)
      returns (sep: Bytes, newPage: int, left: Node)
      requires t.Leaf? && t.pid == page && node == Image(t) && |t.vals| == |t.keys|
      requires MAX_KEYS - 1 <= |t.keys| <= MAX_KEYS && key !in t.keys && 0 <= page < nextPage
      requires IdsBelow(pages, nextPage)
      modifies this`pages, this`nextPage
      ensures InsertLeaf(t, key, value, old(nextPage)).Two?
      ensures left == Image(InsertLeaf(t, key, value, old(nextPage)).left)
      ensures InsertDone(pages, nextPage, InsertLeaf(t, key, value, old(nextPage)), page, sep, newPage)
      ensures Outside(old(pages), pages, {page}) && IdsBelow(pages, nextPage)
    {
      newPage := AllocateLeaf();
      var empty := Load(newPage);
      var right;
      left, right := CutLeaf(page, node, key, value, newPage, empty);
      sep := right.keys[0];
      StoreNode(newPage, right);
      StoreNode(page, left);
    }

    /** Splits a full internal node; the median separator moves up. */
    method InternalSplit(page: int, node: Node, idx: nat, insertKey: Bytes, insertChild: int,
                         ghost t: Tree, ghost l: Tree, ghost r: Tree)
      returns (sep: Bytes, newPage: int)
      requires t.Inner? && t.pid == page && node == Image(t) && |t.kids| == |t.keys| + 1
      requires |t.keys| == MAX_KEYS && idx <= |t.keys| && 0 <= page < nextPage
      requires l.pid == t.kids[idx].pid && r.pid == insertChild
      requires RepKids(pages, Splice(t.kids, idx, [l, r]))
      requires page !in FootprintOf(Splice(t.kids, idx, [l, r])) && nextPage !in FootprintOf(Splice(t.kids, idx, [l, r]))
      requires IdsBelow(pages, nextPage)
      modifies this`pages, this`nextPage
      ensures AddPair(t, idx, l, insertKey, r, old(nextPage)).Two?
      ensures InsertDone(pages, nextPage, AddPair(t, idx, l, insertKey, r, old(nextPage)), page, sep, newPage)
      ensures Outside(old(pages), pages, {page}) && IdsBelow(pages, nextPage)
    {
      newPage := AllocateInternal();
      var empty := Load(newPage);
      var left, right;
      left, sep, right := CutNode(page, node, idx, insertKey, insertChild, newPage, empty);
      StoreNode(newPage, right);
      StoreNode(page, left);
      CutDone(old(pages), pages, t, idx, l, insertKey, r, newPage);
    }

    /** Puts a separator and a new child next to child idx, in a node that has room. */
    method AddChild(page: int, node: Node, idx: nat, sep: Bytes, newChild: int, ghost t: Tree, ghost l: Tree, ghost r: Tree)
      requires t.Inner? && t.pid == page && node == Image(t) && |t.kids| == |t.keys| + 1
      requires |t.keys| < MAX_KEYS && idx <= |t.keys| && 0 <= page < nextPage
      requires l.pid == t.kids[idx].pid && r.pid == newChild
      requires RepKids(pages, Splice(t.kids, idx, [l, r])) && page !in FootprintOf(Splice(t.kids, idx, [l, r]))
      requires IdsBelow(pages, nextPage)
      modifies this`pages
      ensures InsertDone(pages, nextPage, AddPair(t, idx, l, sep, r, nextPage), page, [], -1)
      ensures Outside(old(pages), pages, {page}) && IdsBelow(pages, nextPage)
    {
      var keys := ShiftIn(node.keys, idx, sep);
      var children := ShiftIn(node.children, idx + 1, newChild);
      ghost var cs := Splice(t.kids, idx, [l, r]);
      assert children == Pids(cs);
      StoreNode(page, node.(keys := keys, children := children));
      RepKidsFrame(old(pages), pages, cs);
    }

    /** Inserts at a leaf page. */
    method InsertAtLeaf(page: int, node0: Node, key: Bytes, value: Bytes, ghost t: Tree)
      returns (inserted: bool, sep: Bytes, newChild: int)
      requires t.Leaf? && t.pid == page && node0 == Image(t) && |t.vals| == |t.keys| <= MAX_KEYS
      requires 0 <= page < nextPage && IdsBelow(pages, nextPage)
      modifies this`pages, this`nextPage
      ensures inserted
      ensures InsertDone(pages, nextPage, InsertLeaf(t, key, value, old(nextPage)), page, sep, newChild)
      ensures Outside(old(pages), pages, {page}) && IdsBelow(pages, nextPage)
    {
      inserted, sep, newChild := true, [], -1;
      var node := node0;
      var idx := LeafFind(node, key);
      if idx >= 0 {
        node := node.(keys := node.keys[idx := key], vals := node.vals[idx := value]);
        StoreNode(page, node);
        return;
      }
      if |node.keys| < MAX_KEYS - 1 {
        idx := ScanPosition(node, key);
        inserted, node := LeafInsert(node, key, value, idx);
        StoreNode(page, node);
        return;
      }
      sep, newChild, node := LeafSplit(page, node, key, value, t);
      StoreNode(page, node);
      assert pages == pages[page := node];
    }

    /** Inserts below `page`; a split comes back as a separator and a new page. */
    method InsertRec(page: int, key: Bytes, value: Bytes, ghost t: Tree, ghost h: nat, ghost lo: Option<Bytes>, ghost hi: Option<Bytes>)
      returns (inserted: bool, sep: Bytes, newChild: int)
      requires t.pid == page && Rep(pages, t) && Distinct(t) && PagesBelow(t, nextPage)
      requires Aligned(t) && Ordered(t, h, lo, hi) && IdsBelow(pages, nextPage)
      modifies this`pages, this`nextPage
      ensures inserted
      ensures InsertDone(pages, nextPage, InsertTree(t, key, value, old(nextPage)), page, sep, newChild)
      ensures Outside(old(pages), pages, Footprint(t)) && IdsBelow(pages, nextPage)
      decreases t
    {
      inserted, sep, newChild := true, [], -1;
      var node := Load(page);
      assert page in Footprint(t);
      if node.leaf {
        inserted, sep, newChild := InsertAtLeaf(page, node, key, value, t);
      } else {
        var idx := InternalFind(node, key);
        var child := node.children[idx];
        RepKid(pages, t.kids, idx);
        KidPages(t, idx, nextPage);
        InsertPages(t.kids[idx], key, value, nextPage);
        ghost var r := InsertTree(t.kids[idx], key, value, nextPage);
        var childSep, childNew;
        inserted, childSep, childNew :=
          InsertRec(child, key, value, t.kids[idx], h - 1, LowOf(t.keys, idx, lo), HighOf(t.keys, idx, hi));
        if inserted && childNew >= 0 {
          StepTwo(old(pages), pages, t, idx, r.left, r.right, old(nextPage), nextPage);
          if |node.keys| < MAX_KEYS {
            AddChild(page, node, idx, childSep, childNew, t, r.left, r.right);
          } else {
            sep, newChild := InternalSplit(page, node, idx, childSep, childNew, t, r.left, r.right);
          }
        } else {
          StepOne(old(pages), pages, t, idx, r.tree);
        }
      }
    }

    /** Puts a new root above the two halves of a split one. */
    method GrowSplitRoot(sep: Bytes, newChild: int, ghost r: InsertResult)
      requires r.Two? && r.left.pid == root && r.right.pid == newChild && r.sep == sep && r.free == nextPage
      requires Rep(pages, r.left) && Rep(pages, r.right) && IdsBelow(pages, nextPage)
      requires nextPage !in Footprint(r.left) && nextPage !in Footprint(r.right)
      modifies this`pages, this`nextPage, this`root
      ensures Rep(pages, GrowRoot(r)) && root == GrowRoot(r).pid && nextPage == FreeAfter(r) && IdsBelow(pages, nextPage)
    {
      ghost var before := pages;
      var newRoot := AllocateInternal();
      StoreNode(newRoot, Node(false, [sep], [], [root, newChild], NO_PAGE, NO_PAGE));
      root := newRoot;
      assert pages == before[newRoot := pages[newRoot]];
      RepGrown(before, pages, r);
    }

    /** Inserts or overwrites one key; the tree grows a level when the root splits. */
    method Insert(key: Bytes, value: Bytes, ghost t: Tree, ghost h: nat)
      returns (inserted: bool, ghost t': Tree, ghost h': nat)
      requires Shaped(t, h)
      modifies this
      ensures inserted && Shaped(t', h') && (RootSized(t) ==> RootSized(t')) && h <= h' <= h + 1
      ensures Entries(t') == Upsert(Entries(t), key, value)
      ensures MapOf(Entries(t')) == MapOf(Entries(t))[key := value]
      ensures Grown(Footprint(t'), Footprint(t), old(nextPage), nextPage)
      ensures var r := InsertTree(t, key, value, old(nextPage)); t' == GrowRoot(r) && nextPage == FreeAfter(r)
    {
      ghost var r := InsertTree(t, key, value, nextPage);
      InsertedShape(t, key, value, nextPage, h);
      t', h' := GrowRoot(r), if r.Two? then h + 1 else h;
      var rootNode := Load(root);
      var origEntries := |rootNode.keys|;
      var sep, newChild;
      inserted, sep, newChild := InsertRec(root, key, value, t, h, None, None);
      if newChild >= 0 {
        rootNode := Load(root);
        if |rootNode.keys| <= origEntries {
          GrowSplitRoot(sep, newChild, r);
        }
      }
    }

    // ---------- deletion ----------

    /** Gives a page back: its node is gone and its id heads the free list. */
    method FreePage(pid: int)
      modifies this`pages, this`freeList
      ensures pages == old(pages) - {pid} && freeList == [pid] + old(freeList)
    {
      pages := pages - {pid};
      freeList := [pid] + freeList;
    }

    /**
     * Merges the underflowed child with its left sibling, or, when it is the first child, takes in
     * the right one. Nothing happens when the result would have too many keys.
     */
    method RebalanceChild(page: int, parent: Node, childIdx: nat, ghost t: Tree) returns (merged: bool, parent': Node)
      requires t.Inner? && t.pid == page && parent == Image(t) && |t.kids| == |t.keys| + 1
      requires childIdx <= |t.keys| && |t.keys| >= 1 && Rep(pages, t) && Distinct(t)
      requires var j := LeftOfPair(childIdx);
               && t.kids[j].Leaf? == t.kids[j + 1].Leaf?
               && (t.kids[j].Inner? ==> |t.kids[j].kids| == |t.kids[j].keys| + 1)
      modifies this`pages
      ensures var j := LeftOfPair(childIdx);
              && (merged <==> MergedKeys(t.kids[j], t.kids[j + 1]) <= MAX_KEYS)
              && parent' == Image(MergeAt(t, j)) && Rep(pages, MergeAt(t, j))
      ensures pages.Keys == old(pages).Keys && Outside(old(pages), pages, Footprint(t))
    {
      var left, right, at;
      var childPage := parent.children[childIdx];
      ghost var j := LeftOfPair(childIdx);
      RepKid(pages, t.kids, j);
      RepKid(pages, t.kids, j + 1);
      if childIdx > 0 {
        at := childIdx - 1;
        left := Load(parent.children[at]);
        right := Load(childPage);
      } else {
        at := childIdx;
        left := Load(childPage);
        right := Load(parent.children[childIdx + 1]);
      }
      var mergedKeys := |left.keys| + |right.keys|;
      if !left.leaf {
        mergedKeys := mergedKeys + 1;
      }
      if mergedKeys > MAX_KEYS {
        return false, parent;
      }
      if !left.leaf {
        left := left.(keys := left.keys + [parent.keys[at]]);
      }
      left := left.(keys := left.keys + right.keys, vals := left.vals + right.vals, next := right.next);
      if !right.leaf {
        left := left.(children := left.children + right.children);
      }
      var keys := ShiftOut(parent.keys, at);
      var children := ShiftOut(parent.children, at + 1);
      parent' := parent.(keys := keys, children := children);
      StoreNode(parent.children[at], left);
      StoreNode(page, parent');
      MergeDone(old(pages), pages, t, at, left);
      return true, parent';
    }

    method DeleteAtLeaf(page: int, node0: Node, key: Bytes, ghost t: Tree) returns (node: Node)
      requires t.Leaf? && t.pid == page && node0 == Image(t) && |t.vals| == |t.keys| && page in pages
      modifies this`pages
      ensures node == Image(DeleteTree(t, key))
      ensures pages == old(pages)[page := node] || (pages == old(pages) && node == node0)
    {
      node := node0;
      var idx := LeafFind(node, key);
      if idx >= 0 {
        var keys := ShiftOut(node.keys, idx);
        var vals := ShiftOut(node.vals, idx);
        node := node.(keys := keys, vals := vals);
        StoreNode(page, node);
      }
    }

    /** After the deletion in child idx: an emptied child is merged. `before` is what the pages held at first. */
    method MergeIfEmpty(page: int, node0: Node, idx: nat, below: bool, ghost before: map<int, Node>, ghost key: Bytes,
                        ghost t: Tree, ghost h: nat, ghost lo: Option<Bytes>, ghost hi: Option<Bytes>) returns (node: Node)
      requires t.Inner? && t.pid == page && node0 == Image(t) && Ordered(t, h, lo, hi) && t.keys != [] && Aligned(t) && Distinct(t)
      requires Rep(before, t) && idx == Route(t.keys, key) && Outside(before, pages, Footprint(t.kids[idx])) && pages.Keys == before.Keys
      requires Rep(pages, DeleteTree(t.kids[idx], key)) && (below <==> |DeleteTree(t.kids[idx], key).keys| < MIN_KEYS)
      modifies this`pages
      ensures node == Image(DeleteTree(t, key)) && Rep(pages, DeleteTree(t, key))
      ensures pages.Keys == before.Keys && Outside(before, pages, Footprint(t))
    {
      node := node0;
      DeleteStep(before, pages, t, key, h, lo, hi);
      if below {
        var merged;
        merged, node := RebalanceChild(page, node, idx, WithKid(t, idx, DeleteTree(t.kids[idx], key)));
      }
    }

    /** Deletes below `page` and says whether that page has underflowed. */
    method DeleteRec(page: int, key: Bytes, ghost t: Tree, ghost h: nat, ghost lo: Option<Bytes>, ghost hi: Option<Bytes>)
      returns (underflowed: bool)
      requires t.pid == page && Rep(pages, t) && Distinct(t) && Aligned(t) && Ordered(t, h, lo, hi) && PathSized(t, key)
      modifies this`pages
      ensures Rep(pages, DeleteTree(t, key))
      ensures underflowed <==> |DeleteTree(t, key).keys| < MIN_KEYS
      ensures pages.Keys == old(pages).Keys && Outside(old(pages), pages, Footprint(t))
      decreases t
    {
      var node := Load(page);
      if node.leaf {
        node := DeleteAtLeaf(page, node, key, t);
      } else {
        var idx := InternalFind(node, key);
        var child := node.children[idx];
        OnTheWay(pages, t, key, h, lo, hi);
        var below := DeleteRec(child, key, t.kids[idx], h - 1, LowOf(t.keys, idx, lo), HighOf(t.keys, idx, hi));
        node := MergeIfEmpty(page, node, idx, below, old(pages), key, t, h, lo, hi);
      }
      underflowed := |node.keys| < MIN_KEYS;
    }

    /** Drops a root page that has lost its last key. */
    method ShrinkEmptyRoot(ghost d: Tree)
      requires d.pid == root && Rep(pages, d) && Distinct(d) && (d.Inner? ==> |d.kids| == |d.keys| + 1)
      requires IdsBelow(pages, nextPage)
      modifies this`pages, this`root, this`freeList
      ensures Rep(pages, ShrinkRoot(d)) && root == ShrinkRoot(d).pid && IdsBelow(pages, nextPage)
    {
      var rnode := Load(root);
      if !rnode.leaf && |rnode.keys| == 0 {
        RepShrunk(pages, d);
        FreePage(root);
        root := rnode.children[0];
      }
    }

    /**
     * Deletes one key; a root left without keys is freed and gives way to its only child. The path of
     * the key must not meet a node without keys, where the code would take page 0 for a sibling.
     */
    method Delete(key: Bytes, ghost t: Tree, ghost h: nat) returns (ghost t': Tree, ghost h': nat)
      requires Shaped(t, h) && PathSized(t, key)
      modifies this
      ensures Shaped(t', h') && Entries(t') == Remove(Entries(t), key)
      ensures MapOf(Entries(t')) == MapOf(Entries(t)) - {key}
      ensures t' == AfterDelete(t, key) && (RootSized(t) ==> (RootSized(t') <==> !WillRefuse(t, key)))
    {
      t', h' := AfterDelete(t, key), HeightAfter(t, key, h);
      DeletedShape(t, key, h);
      var underflowed := DeleteRec(root, key, t, h, None, None);
      if underflowed {
        ShrinkEmptyRoot(DeleteTree(t, key));
      }
      assert PagesBelow(t', nextPage);
    }
  }

  lemma {:induction false} InsertedShape(t: Tree, k: Bytes, v: Bytes, free: int, h: nat)
    requires Ordered(t, h, None, None) && Distinct(t) && PagesBelow(t, free) && 0 <= free
    requires Chained(Leaves(t), NO_PAGE) && Aligned(t)
    ensures var r := InsertTree(t, k, v, free);
            var t' := GrowRoot(r);
            && Ordered(t', if r.Two? then h + 1 else h, None, None) && (RootSized(t) ==> RootSized(t')) && Aligned(t')
            && Distinct(t') && PagesBelow(t', FreeAfter(r)) && Grown(Footprint(t'), Footprint(t), free, FreeAfter(r))
            && Chained(Leaves(t'), NO_PAGE)
            && Entries(t') == Upsert(Entries(t), k, v)
            && MapOf(Entries(t')) == MapOf(Entries(t))[k := v]
            && (r.Two? ==> |r.left.keys| <= |t.keys| && r.free !in Footprint(r.left) && r.free !in Footprint(r.right))
  {
    InsertSound(t, k, v, free, h);
    InsertPages(t, k, v, free);
    var r := InsertTree(t, k, v, free);
    OrderedAligned(GrowRoot(r), if r.Two? then h + 1 else h, None, None);
  }

  /** What the root page needs to know of the tree that a deletion leaves. */
  lemma {:induction false} DeletedShape(t: Tree, k: Bytes, h: nat)
    requires Ordered(t, h, None, None) && Aligned(t) && Distinct(t) && Chained(Leaves(t), NO_PAGE)
    ensures var d := DeleteTree(t, k);
            d.pid == t.pid && Distinct(d) && (d.Inner? ==> |d.kids| == |d.keys| + 1) && (d.keys != [] ==> ShrinkRoot(d) == d)
    ensures var t' := AfterDelete(t, k);
            && Ordered(t', HeightAfter(t, k, h), None, None) && Aligned(t')
            && Distinct(t') && Footprint(t') <= Footprint(t) && Chained(Leaves(t'), NO_PAGE)
            && Entries(t') == Remove(Entries(t), k) && MapOf(Entries(t')) == MapOf(Entries(t)) - {k}
            && (RootSized(t) ==> (RootSized(t') <==> !WillRefuse(t, k)))
  {
    DeleteSound(t, k, h);
    DeletePages(t, k);
    DeleteOrdered(t, k, h, None, None);
    OrderedAligned(AfterDelete(t, k), HeightAfter(t, k, h), None, None);
  }

  /** The kid on the path of k may be deleted from in turn. */
  lemma {:induction false} OnTheWay(p: map<int, Node>, t: Tree, k: Bytes, h: nat, lo: Option<Bytes>, hi: Option<Bytes>)
    requires t.Inner? && Rep(p, t) && Distinct(t) && Aligned(t) && Ordered(t, h, lo, hi) && PathSized(t, k)
    ensures var i := Route(t.keys, k);
            && t.keys != [] && h > 0 && i < |t.kids| && Image(t).children[i] == t.kids[i].pid
            && Rep(p, t.kids[i]) && Distinct(t.kids[i]) && Aligned(t.kids[i]) && PathSized(t.kids[i], k)
            && Ordered(t.kids[i], h - 1, LowOf(t.keys, i, lo), HighOf(t.keys, i, hi))
  {
    var i := Route(t.keys, k);
    RepKid(p, t.kids, i);
    KidPages(t, i, 0);
  }

  /** After the deletion in a kid, before any merge: t with that kid replaced, ready to be rebalanced. */
  lemma {:induction false} DeleteStep(p: map<int, Node>, q: map<int, Node>, t: Tree, k: Bytes, h: nat, lo: Option<Bytes>, hi: Option<Bytes>)
    requires t.Inner? && Ordered(t, h, lo, hi) && t.keys != [] && Aligned(t) && Distinct(t) && Rep(p, t)
    requires var i := Route(t.keys, k);
             Outside(p, q, Footprint(t.kids[i])) && Rep(q, DeleteTree(t.kids[i], k))
    ensures var i := Route(t.keys, k);
            var t1, j := WithKid(t, i, DeleteTree(t.kids[i], k)), LeftOfPair(i);
            && Rep(q, t1) && Distinct(t1) && Image(t1) == Image(t) && Footprint(t1) <= Footprint(t)
            && Outside(p, q, Footprint(t))
            && j + 1 < |t1.kids| && t1.kids[j].Leaf? == t1.kids[j + 1].Leaf?
            && (t1.kids[j].Inner? ==> |t1.kids[j].kids| == |t1.kids[j].keys| + 1)
  {
    var i := Route(t.keys, k);
    var c := DeleteTree(t.kids[i], k);
    KidPages(t, i, 0);
    DeletePages(t.kids[i], k);
    StepOne(p, q, t, i, c);
    WithKidPages(t, i, c);
    SameKind(t, k, h, lo, hi, LeftOfPair(i));
    assert Pids(Splice(t.kids, i, [c])) == Pids(t.kids);
  }

  /** The only kid of a root without keys stands after the root's page is gone. */
  lemma {:induction false} RepShrunk(p: map<int, Node>, d: Tree)
    requires Rep(p, d) && Distinct(d) && d.Inner? && d.keys == [] && |d.kids| > 0
    ensures Rep(p - {d.pid}, ShrinkRoot(d)) && ShrinkRoot(d).pid == Image(d).children[0]
  {
    RepKid(p, d.kids, 0);
    KidPages(d, 0, 0);
    RepFrame(p, p - {d.pid}, d.kids[0]);
  }

  /** What a merge has written represents the parent without the merged kid. */
  lemma {:induction false} MergeDone(p: map<int, Node>, q: map<int, Node>, t: Tree, j: nat, left: Node)
    requires t.Inner? && j < |t.keys| && |t.kids| == |t.keys| + 1 && Rep(p, t) && Distinct(t)
    requires t.kids[j].Leaf? == t.kids[j + 1].Leaf? && MergedKeys(t.kids[j], t.kids[j + 1]) <= MAX_KEYS
    requires left == Image(Merge(t.kids[j], t.keys[j], t.kids[j + 1]))
    requires q == p[t.kids[j].pid := left][t.pid := Image(t).(keys := RemoveAt(t.keys, j), children := RemoveAt(Pids(t.kids), j + 1))]
    ensures Rep(q, MergeAt(t, j)) && Image(MergeAt(t, j)) == q[t.pid]
    ensures q.Keys == p.Keys && Outside(p, q, Footprint(t))
  {
    MergeFrame(p, q, t, j);
    MergedKids(p, q, t, j);
    MergeImage(t, j);
  }

  lemma {:induction false} MergeImage(t: Tree, j: nat)
    requires t.Inner? && j < |t.keys| && |t.kids| == |t.keys| + 1 && MergedKeys(t.kids[j], t.kids[j + 1]) <= MAX_KEYS
    ensures Merge(t.kids[j], t.keys[j], t.kids[j + 1]).pid == t.kids[j].pid
    ensures Image(MergeAt(t, j)) == Image(t).(keys := RemoveAt(t.keys, j), children := RemoveAt(Pids(t.kids), j + 1))
  {
    var cs := t.kids[..j] + [Merge(t.kids[j], t.keys[j], t.kids[j + 1])] + t.kids[j + 2..];
    assert Pids(cs) == RemoveAt(Pids(t.kids), j + 1);
  }

  lemma {:induction false} MergeFrame(p: map<int, Node>, q: map<int, Node>, t: Tree, j: nat)
    requires t.Inner? && j + 1 < |t.kids| && RepKids(p, t.kids) && t.pid in p && Distinct(t)
    requires t.pid in q && t.kids[j].pid in q && q == p[t.kids[j].pid := q[t.kids[j].pid]][t.pid := q[t.pid]]
    ensures t.kids[j].pid != t.pid && q.Keys == p.Keys && Outside(p, q, Footprint(t))
  {
    PairPages(t, j);
    RepKid(p, t.kids, j);
  }

  lemma {:induction false} MergedKids(p: map<int, Node>, q: map<int, Node>, t: Tree, j: nat)
    requires t.Inner? && j + 1 < |t.kids| && j < |t.keys| && RepKids(p, t.kids) && Distinct(t)
    requires t.kids[j].Leaf? == t.kids[j + 1].Leaf? && t.kids[j].pid in q
    requires q[t.kids[j].pid] == Image(Merge(t.kids[j], t.keys[j], t.kids[j + 1]))
    requires forall i :: i in p && i != t.pid && i != t.kids[j].pid ==> i in q && q[i] == p[i]
    ensures RepKids(q, t.kids[..j] + [Merge(t.kids[j], t.keys[j], t.kids[j + 1])] + t.kids[j + 2..])
  {
    var l, r, a, b := t.kids[j], t.kids[j + 1], t.kids[..j], t.kids[j + 2..];
    var m := Merge(l, t.keys[j], r);
    PairPages(t, j);
    assert RepKids(p, a) && Rep(p, l) && Rep(p, r) && RepKids(p, b) by {
      assert t.kids == a + [l, r] + b;
      RepConcat(p, a + [l, r], b);
      RepConcat(p, a, [l, r]);
      RepCouple(p, l, r);
    }
    RepKidsFrame(p, q, a);
    RepKidsFrame(p, q, b);
    RepMerged(p, q, l, t.keys[j], r);
    RepCouple(q, m, m);
    RepConcat(q, a + [m], b);
    RepConcat(q, a, [m]);
  }

  /** Two neighbouring kids, the kids around them and the node itself are on different pages. */
  lemma {:induction false} PairPages(t: Tree, j: nat)
    requires t.Inner? && j + 1 < |t.kids| && Distinct(t)
    ensures var l, r, a, b := t.kids[j], t.kids[j + 1], FootprintOf(t.kids[..j]), FootprintOf(t.kids[j + 2..]);
            && l.pid !in a && l.pid !in b && t.pid !in a && t.pid !in b
            && t.pid !in Footprint(l) && t.pid !in Footprint(r) && Footprint(l) !! Footprint(r)
            && Distinct(l) && l.pid in Footprint(t) && t.pid in Footprint(t) && l.pid != t.pid
  {
    var l, r, a, b := t.kids[j], t.kids[j + 1], t.kids[..j], t.kids[j + 2..];
    assert t.kids == a + [l, r] + b;
    FootprintConcat(a + [l, r], b);
    FootprintConcat(a, [l, r]);
    Couple(l, r);
    assert l.pid in Footprint(l);
  }

  lemma {:induction false} RepMerged(p: map<int, Node>, q: map<int, Node>, l: Tree, sep: Bytes, r: Tree)
    requires l.Leaf? == r.Leaf? && Rep(p, l) && Rep(p, r) && Distinct(l) && Footprint(l) !! Footprint(r)
    requires l.pid in q && q[l.pid] == Image(Merge(l, sep, r))
    requires forall i :: i in Footprint(l) + Footprint(r) && i != l.pid ==> i in p ==> i in q && q[i] == p[i]
    ensures Rep(q, Merge(l, sep, r))
  {
    if l.Inner? {
      assert FootprintOf(l.kids) <= Footprint(l) && FootprintOf(r.kids) <= Footprint(r) && l.pid in Footprint(l);
      RepKidsFrame(p, q, l.kids);
      RepKidsFrame(p, q, r.kids);
      RepConcat(q, l.kids, r.kids);
    }
  }
}
