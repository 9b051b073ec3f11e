/** Insertion as a function on trees, and what it keeps. */
module TreeInsert {
  import opened ByteStrings
  import opened Tree
  import opened Contents

  /** The outcome at one node: updated in place, or split in two; `free` is the next unused page id. */
  datatype InsertResult =
    | One(tree: Tree, free: int)
    | Two(left: Tree, sep: Bytes, right: Tree, free: int)

  function InsertAt<T>(s: seq<T>, i: nat, x: T): (r: seq<T>)
    requires i <= |s|
    ensures |r| == |s| + 1
  {
    s[..i] + [x] + s[i..]
  }

  function InsertLeaf(t: Tree, k: Bytes, v: Bytes, free: int): InsertResult
    requires t.Leaf? && |t.vals| == |t.keys|
  {
    var i := IndexOf(t.keys, k);
    if i >= 0 then One(t.(keys := t.keys[i := k], vals := t.vals[i := v]), free)
    else
      var p := Route(t.keys, k);
      var keys, vals := InsertAt(t.keys, p, k), InsertAt(t.vals, p, v);
      if |t.keys| < MAX_KEYS - 1 then One(t.(keys := keys, vals := vals), free)
      else
        var mid := |keys| / 2;
        Two(Leaf(t.pid, keys[..mid], vals[..mid], free, t.prev), keys[mid],
            Leaf(free, keys[mid..], vals[mid..], t.next, t.pid), free + 1)
  }

  /** Puts the two halves of kids[i] into t, splitting t when it is full. */
  function AddPair(t: Tree, i: nat, left: Tree, sep: Bytes, right: Tree, free: int): InsertResult
    requires t.Inner? && i <= |t.keys| && |t.kids| == |t.keys| + 1
  {
    var keys := InsertAt(t.keys, i, sep);
    var kids := Splice(t.kids, i, [left, right]);
    if |t.keys| < MAX_KEYS then One(t.(keys := keys, kids := kids), free)
    else
      var mid := |keys| / 2;
      Two(Inner(t.pid, keys[..mid], kids[..mid + 1], free, t.prev), keys[mid],
          Inner(free, keys[mid + 1..], kids[mid + 1..], t.next, t.pid), free + 1)
  }

  /** Every node has as many values as keys, or one kid more than keys. */
  ghost predicate Aligned(t: Tree) {
    match t
    case Leaf(_, keys, vals, _, _) => |vals| == |keys|
    case Inner(_, keys, kids, _, _) => |kids| == |keys| + 1 && forall i :: 0 <= i < |kids| ==> Aligned(kids[i])
  }

  ghost function InsertTree(t: Tree, k: Bytes, v: Bytes, free: int): InsertResult
    requires Aligned(t)
  {
    match t
    case Leaf(_, _, _, _, _) => InsertLeaf(t, k, v, free)
    case Inner(_, keys, kids, _, _) =>
      var i := Route(keys, k);
      match InsertTree(kids[i], k, v, free)
      case One(c, f) => One(t.(kids := Splice(kids, i, [c])), f)
      case Two(l, sep, r, f) => AddPair(t, i, l, sep, r, f)
  }

  /** The root grows by one level when it was split. */
  function GrowRoot(r: InsertResult): Tree {
    match r
    case One(t, _) => t
    case Two(l, sep, rt, f) => Inner(f, [sep], [l, rt], NO_PAGE, NO_PAGE)
  }

  function FreeAfter(r: InsertResult): int {
    match r
    case One(_, f) => f
    case Two(_, _, _, f) => f + 1
  }

  lemma {:induction false} OrderedAligned(t: Tree, h: nat, lo: Option<Bytes>, hi: Option<Bytes>)
    requires Ordered(t, h, lo, hi)
    ensures Aligned(t)
  {
    if t.Inner? {
      forall i | 0 <= i < |t.kids| ensures Aligned(t.kids[i]) {
        OrderedAligned(t.kids[i], h - 1, LowOf(t.keys, i, lo), HighOf(t.keys, i, hi));
      }
    }
  }

  // ---------- order and size ----------

  ghost predicate ResultOrdered(r: InsertResult, h: nat, lo: Option<Bytes>, hi: Option<Bytes>) {
    match r
    case One(t, _) => Ordered(t, h, lo, hi)
    case Two(l, sep, rt, _) =>
      && Above(lo, sep) && Below(sep, hi)
      && Ordered(l, h, lo, Some(sep)) && Ordered(rt, h, Some(sep), hi)
  }

  ghost predicate ResultSized(r: InsertResult) {
    match r
    case One(t, _) => Sized(t)
    case Two(l, _, rt, _) => Sized(l) && Sized(rt)
  }

  lemma {:induction false} InsertAtSorted(keys: seq<Bytes>, i: nat, k: Bytes)
    requires Sorted(keys) && i <= |keys|
    requires i > 0 ==> Less(keys[i - 1], k)
    requires i < |keys| ==> Less(k, keys[i])
    ensures Sorted(InsertAt(keys, i, k))
  {
    LessIsStrictTotalOrder();
    var r := InsertAt(keys, i, k);
    forall x, y | 0 <= x < y < |r| ensures Less(r[x], r[y]) {
      assert r[x] == if x < i then keys[x] else if x == i then k else keys[x - 1];
      assert r[y] == if y < i then keys[y] else if y == i then k else keys[y - 1];
    }
  }

  lemma {:induction false} RouteNeighbours(keys: seq<Bytes>, k: Bytes)
    requires k !in keys
    ensures Route(keys, k) > 0 ==> Less(keys[Route(keys, k) - 1], k)
  {
    var p := Route(keys, k);
    if p > 0 {
      assert keys[p - 1] in keys;
      LessTrichotomy(keys[p - 1], k);
    }
  }

  lemma {:induction false} InsertAtOrdered(keys: seq<Bytes>, vals: seq<Bytes>, k: Bytes, v: Bytes, lo: Option<Bytes>, hi: Option<Bytes>)
    requires LeafOrdered(keys, vals, lo, hi) && k !in keys && AtLeast(lo, k) && Below(k, hi)
    ensures LeafOrdered(InsertAt(keys, Route(keys, k), k), InsertAt(vals, Route(keys, k), v), lo, hi)
  {
    var p := Route(keys, k);
    RouteNeighbours(keys, k);
    InsertAtSorted(keys, p, k);
    var ks := InsertAt(keys, p, k);
    forall x | 0 <= x < |ks| ensures AtLeast(lo, ks[x]) && Below(ks[x], hi) {
      assert ks[x] == if x < p then keys[x] else if x == p then k else keys[x - 1];
    }
  }

  lemma {:induction false} InsertLeafOrdered(t: Tree, k: Bytes, v: Bytes, free: int, lo: Option<Bytes>, hi: Option<Bytes>)
    requires t.Leaf? && Ordered(t, 0, lo, hi) && AtLeast(lo, k) && Below(k, hi)
    ensures ResultOrdered(InsertLeaf(t, k, v, free), 0, lo, hi)
  {
    var i := IndexOf(t.keys, k);
    if i >= 0 {
      assert t.keys[i := k] == t.keys;
    } else {
      InsertAtOrdered(t.keys, t.vals, k, v, lo, hi);
      var keys, vals := InsertAt(t.keys, Route(t.keys, k), k), InsertAt(t.vals, Route(t.keys, k), v);
      if |t.keys| >= MAX_KEYS - 1 {
        SplitLeafOrdered(keys, vals, |keys| / 2, lo, hi);
      }
    }
  }

  lemma {:induction false} SplitLeafOrdered(keys: seq<Bytes>, vals: seq<Bytes>, mid: nat, lo: Option<Bytes>, hi: Option<Bytes>)
    requires LeafOrdered(keys, vals, lo, hi) && 0 < mid < |keys|
    ensures LeafOrdered(keys[..mid], vals[..mid], lo, Some(keys[mid]))
    ensures LeafOrdered(keys[mid..], vals[mid..], Some(keys[mid]), hi)
    ensures Above(lo, keys[mid]) && Below(keys[mid], hi)
  {
    LessIsStrictTotalOrder();
    assert Less(keys[0], keys[mid]);
  }

  /** Replacing one kid by two with a separator between them. */
  lemma {:induction false} AddPairOrdered(keys: seq<Bytes>, kids: seq<Tree>, h: nat, lo: Option<Bytes>, hi: Option<Bytes>,
                                          i: nat, l: Tree, sep: Bytes, r: Tree)
    requires NodeOrdered(keys, kids, h, lo, hi) && i <= |keys|
    requires Above(LowOf(keys, i, lo), sep) && Below(sep, HighOf(keys, i, hi))
    requires Ordered(l, h, LowOf(keys, i, lo), Some(sep)) && Ordered(r, h, Some(sep), HighOf(keys, i, hi))
    ensures NodeOrdered(InsertAt(keys, i, sep), Splice(kids, i, [l, r]), h, lo, hi)
  {
    var ks, cs := InsertAt(keys, i, sep), Splice(kids, i, [l, r]);
    SepsInsert(keys, lo, hi, i, sep);
    forall x | 0 <= x < |cs| ensures Ordered(cs[x], h, LowOf(ks, x, lo), HighOf(ks, x, hi)) {
      if x < i {
        assert cs[x] == kids[x] && LowOf(ks, x, lo) == LowOf(keys, x, lo) && HighOf(ks, x, hi) == HighOf(keys, x, hi);
      } else if x > i + 1 {
        assert cs[x] == kids[x - 1] && LowOf(ks, x, lo) == LowOf(keys, x - 1, lo) && HighOf(ks, x, hi) == HighOf(keys, x - 1, hi);
      }
    }
  }

  lemma {:induction false} SepsInsert(keys: seq<Bytes>, lo: Option<Bytes>, hi: Option<Bytes>, i: nat, sep: Bytes)
    requires SepsOrdered(keys, lo, hi) && i <= |keys|
    requires Above(LowOf(keys, i, lo), sep) && Below(sep, HighOf(keys, i, hi))
    ensures SepsOrdered(InsertAt(keys, i, sep), lo, hi)
  {
    InsertAtSorted(keys, i, sep);
    if i > 0 && lo.Some? {
      LessTransitive(lo.value, keys[i - 1], sep);
    }
    if i < |keys| && hi.Some? {
      LessTransitive(sep, keys[i], hi.value);
    }
    var ks := InsertAt(keys, i, sep);
    forall x | 0 <= x < |ks| ensures Above(lo, ks[x]) && Below(ks[x], hi) {
      assert ks[x] == if x < i then keys[x] else if x == i then sep else keys[x - 1];
    }
  }

  /** Cutting a node at a separator, which moves up. */
  lemma {:induction false} SplitNodeOrdered(keys: seq<Bytes>, kids: seq<Tree>, h: nat, lo: Option<Bytes>, hi: Option<Bytes>, mid: nat)
    requires NodeOrdered(keys, kids, h, lo, hi) && mid < |keys|
    ensures NodeOrdered(keys[..mid], kids[..mid + 1], h, lo, Some(keys[mid]))
    ensures NodeOrdered(keys[mid + 1..], kids[mid + 1..], h, Some(keys[mid]), hi)
    ensures Above(lo, keys[mid]) && Below(keys[mid], hi)
  {
    var a, b := keys[..mid], keys[mid + 1..];
    var ka, kb := kids[..mid + 1], kids[mid + 1..];
    forall x | 0 <= x < |ka| ensures Ordered(ka[x], h, LowOf(a, x, lo), HighOf(a, x, Some(keys[mid]))) {
      assert LowOf(a, x, lo) == LowOf(keys, x, lo) && HighOf(a, x, Some(keys[mid])) == HighOf(keys, x, hi);
      assert ka[x] == kids[x];
    }
    forall x | 0 <= x < |kb| ensures Ordered(kb[x], h, LowOf(b, x, Some(keys[mid])), HighOf(b, x, hi)) {
      var y := mid + 1 + x;
      assert LowOf(b, x, Some(keys[mid])) == LowOf(keys, y, lo) && HighOf(b, x, hi) == HighOf(keys, y, hi);
      assert kb[x] == kids[y];
    }
  }

  lemma {:induction false} ReplaceKidOrdered(t: Tree, h: nat, lo: Option<Bytes>, hi: Option<Bytes>, i: nat, c: Tree)
    requires t.Inner? && Ordered(t, h, lo, hi) && i < |t.kids| == |t.keys| + 1
    requires Ordered(c, h - 1, LowOf(t.keys, i, lo), HighOf(t.keys, i, hi))
    ensures Ordered(t.(kids := Splice(t.kids, i, [c])), h, lo, hi)
  {
    var cs := Splice(t.kids, i, [c]);
    assert forall x :: 0 <= x < |cs| ==> cs[x] == if x == i then c else t.kids[x];
  }

  lemma {:induction false} SplitResult(t: Tree, h: nat, lo: Option<Bytes>, hi: Option<Bytes>, keys: seq<Bytes>, kids: seq<Tree>, mid: nat, free: int)
    requires t.Inner? && h > 0 && NodeOrdered(keys, kids, h - 1, lo, hi) && mid < |keys| == MAX_KEYS + 1
    ensures ResultOrdered(Two(Inner(t.pid, keys[..mid], kids[..mid + 1], free, t.prev), keys[mid],
                              Inner(free, keys[mid + 1..], kids[mid + 1..], t.next, t.pid), free + 1), h, lo, hi)
  {
    SplitNodeOrdered(keys, kids, h - 1, lo, hi, mid);
  }

  lemma {:induction false} AddPairResult(t: Tree, h: nat, lo: Option<Bytes>, hi: Option<Bytes>,
                                         i: nat, l: Tree, sep: Bytes, r: Tree, free: int)
    requires t.Inner? && Ordered(t, h, lo, hi) && i <= |t.keys| && |t.kids| == |t.keys| + 1
    requires Above(LowOf(t.keys, i, lo), sep) && Below(sep, HighOf(t.keys, i, hi))
    requires Ordered(l, h - 1, LowOf(t.keys, i, lo), Some(sep)) && Ordered(r, h - 1, Some(sep), HighOf(t.keys, i, hi))
    ensures ResultOrdered(AddPair(t, i, l, sep, r, free), h, lo, hi)
  {
    AddPairOrdered(t.keys, t.kids, h - 1, lo, hi, i, l, sep, r);
    if |t.keys| >= MAX_KEYS {
      SplitResult(t, h, lo, hi, InsertAt(t.keys, i, sep), Splice(t.kids, i, [l, r]), (|t.keys| + 1) / 2, free);
    }
  }

  lemma {:induction false} AddPairSized(t: Tree, i: nat, l: Tree, sep: Bytes, r: Tree, free: int)
    requires t.Inner? && i <= |t.keys| && |t.kids| == |t.keys| + 1 && Sized(t) && Sized(l) && Sized(r)
    ensures ResultSized(AddPair(t, i, l, sep, r, free))
  {
    AllSizedSplice(t.kids, i, l, r);
    if |t.keys| >= MAX_KEYS {
      AllSizedSplit(Splice(t.kids, i, [l, r]), (|t.keys| + 1) / 2 + 1);
    }
  }

  lemma {:induction false} AllSizedSplice(kids: seq<Tree>, i: nat, l: Tree, r: Tree)
    requires i < |kids| && Sized(l) && Sized(r)
    requires forall x :: 0 <= x < |kids| ==> Sized(kids[x])
    ensures forall x :: 0 <= x < |kids| + 1 ==> Sized(Splice(kids, i, [l, r])[x])
  {
    var cs := Splice(kids, i, [l, r]);
    forall x | 0 <= x < |cs| ensures Sized(cs[x]) {
      assert cs[x] == if x < i then kids[x] else if x == i then l else if x == i + 1 then r else kids[x - 1];
    }
  }

  lemma {:induction false} AllSizedSplit(cs: seq<Tree>, mid: nat)
    requires mid <= |cs| && forall x :: 0 <= x < |cs| ==> Sized(cs[x])
    ensures forall x :: 0 <= x < |cs[..mid]| ==> Sized(cs[..mid][x])
    ensures forall x :: 0 <= x < |cs[mid..]| ==> Sized(cs[mid..][x])
  {
  }

  /** Insertion leaves no node without keys, if there was none. */
  lemma {:induction false} InsertSized(t: Tree, k: Bytes, v: Bytes, free: int)
    requires Aligned(t) && RootSized(t)
    ensures ResultSized(InsertTree(t, k, v, free))
    decreases t
  {
    if t.Inner? {
      var i := Route(t.keys, k);
      InsertSized(t.kids[i], k, v, free);
      match InsertTree(t.kids[i], k, v, free)
      case One(c, f) =>
        var cs := Splice(t.kids, i, [c]);
        assert forall x :: 0 <= x < |cs| ==> cs[x] == if x == i then c else t.kids[x];
      case Two(l, sep, r, f) => AddPairSized(t, i, l, sep, r, f);
    } else if IndexOf(t.keys, k) >= 0 {
      assert t.keys != [];
    }
  }

  /** Insertion keeps search order, leaf depth and capacity. */
  lemma {:induction false} InsertOrdered(t: Tree, k: Bytes, v: Bytes, free: int, h: nat, lo: Option<Bytes>, hi: Option<Bytes>)
    requires Ordered(t, h, lo, hi) && AtLeast(lo, k) && Below(k, hi)
    requires Aligned(t)
    ensures ResultOrdered(InsertTree(t, k, v, free), h, lo, hi)
    decreases t
  {
    if t.Leaf? {
      InsertLeafOrdered(t, k, v, free, lo, hi);
    } else {
      var i := Route(t.keys, k);
      RouteSeparates(t.keys, t.kids, h - 1, lo, hi, k);
      InsertOrdered(t.kids[i], k, v, free, h - 1, LowOf(t.keys, i, lo), HighOf(t.keys, i, hi));
      match InsertTree(t.kids[i], k, v, free)
      case One(c, f) => ReplaceKidOrdered(t, h, lo, hi, i, c);
      case Two(l, sep, r, f) => AddPairResult(t, h, lo, hi, i, l, sep, r, f);
    }
  }

  // ---------- contents ----------

  ghost function ResultEntries(r: InsertResult): seq<Entry> {
    match r
    case One(t, _) => Entries(t)
    case Two(l, _, rt, _) => Entries(l) + Entries(rt)
  }

  ghost function ResultLeaves(r: InsertResult): seq<Tree> {
    match r
    case One(t, _) => Leaves(t)
    case Two(l, _, rt, _) => Leaves(l) + Leaves(rt)
  }

  lemma {:induction false} UpsertZipPresent(keys: seq<Bytes>, vals: seq<Bytes>, k: Bytes, v: Bytes)
    requires |keys| == |vals| && Sorted(keys) && IndexOf(keys, k) >= 0
    ensures Upsert(Zip(keys, vals), k, v) == Zip(keys[IndexOf(keys, k) := k], vals[IndexOf(keys, k) := v])
  {
    assert Zip(keys, vals)[1..] == Zip(keys[1..], vals[1..]);
    if keys[0] != k {
      LessTrichotomy(keys[0], k);
      assert Less(keys[0], keys[IndexOf(keys, k)]);
      UpsertZipPresent(keys[1..], vals[1..], k, v);
    }
  }

  lemma {:induction false} UpsertZipAbsent(keys: seq<Bytes>, vals: seq<Bytes>, k: Bytes, v: Bytes)
    requires |keys| == |vals| && k !in keys
    ensures Upsert(Zip(keys, vals), k, v) == Zip(InsertAt(keys, Route(keys, k), k), InsertAt(vals, Route(keys, k), v))
  {
    if keys != [] {
      ZipHead(keys, vals);
      var p := Route(keys[1..], k);
      if !Less(k, keys[0]) {
        UpsertZipAbsent(keys[1..], vals[1..], k, v);
        InsertBehind(keys, p, k);
        InsertBehind(vals, p, v);
        ZipHead(InsertAt(keys, 1 + p, k), InsertAt(vals, 1 + p, v));
      }
    }
  }

  lemma {:induction false} ZipHead(keys: seq<Bytes>, vals: seq<Bytes>)
    requires |keys| == |vals| > 0
    ensures Zip(keys, vals)[1..] == Zip(keys[1..], vals[1..])
    ensures Zip(keys, vals) == [Entry(keys[0], vals[0])] + Zip(keys[1..], vals[1..])
  {
  }

  lemma {:induction false} InsertBehind<T>(s: seq<T>, p: nat, x: T)
    requires s != [] && p < |s|
    ensures InsertAt(s, 1 + p, x)[0] == s[0] && InsertAt(s, 1 + p, x)[1..] == InsertAt(s[1..], p, x)
  {
  }

  lemma {:induction false} InsertLeafEntries(t: Tree, k: Bytes, v: Bytes, free: int)
    requires t.Leaf? && |t.vals| == |t.keys| && Sorted(t.keys)
    ensures ResultEntries(InsertLeaf(t, k, v, free)) == Upsert(Entries(t), k, v)
  {
    assert Entries(t) == Zip(t.keys, t.vals);
    var i := IndexOf(t.keys, k);
    if i >= 0 {
      UpsertZipPresent(t.keys, t.vals, k, v);
    } else {
      UpsertZipAbsent(t.keys, t.vals, k, v);
      ZipSplit(InsertAt(t.keys, Route(t.keys, k), k), InsertAt(t.vals, Route(t.keys, k), v), (|t.keys| + 1) / 2);
    }
  }

  lemma {:induction false} ZipSplit(keys: seq<Bytes>, vals: seq<Bytes>, mid: nat)
    requires |keys| == |vals| && mid <= |keys|
    ensures Zip(keys, vals) == Zip(keys[..mid], vals[..mid]) + Zip(keys[mid..], vals[mid..])
  {
  }

  lemma {:induction false} AddPairContents(t: Tree, i: nat, l: Tree, sep: Bytes, r: Tree, free: int)
    requires t.Inner? && i <= |t.keys| && |t.kids| == |t.keys| + 1
    ensures ResultEntries(AddPair(t, i, l, sep, r, free)) == EntriesOf(Splice(t.kids, i, [l, r]))
    ensures ResultLeaves(AddPair(t, i, l, sep, r, free)) == LeavesOf(Splice(t.kids, i, [l, r]))
  {
    var cs := Splice(t.kids, i, [l, r]);
    if |t.keys| >= MAX_KEYS {
      var mid := (|t.keys| + 1) / 2;
      assert cs == cs[..mid + 1] + cs[mid + 1..];
      EntriesOfConcat(cs[..mid + 1], cs[mid + 1..]);
      LeavesOfConcat(cs[..mid + 1], cs[mid + 1..]);
    }
  }

  /** The contents of an inner node after one of its kids took an insertion. */
  lemma {:induction false} InsertContents(t: Tree, k: Bytes, v: Bytes, free: int)
    requires t.Inner? && Aligned(t)
    ensures var i := Route(t.keys, k);
            ResultEntries(InsertTree(t, k, v, free)) ==
            EntriesOf(t.kids[..i]) + ResultEntries(InsertTree(t.kids[i], k, v, free)) + EntriesOf(t.kids[i + 1..])
    ensures var i := Route(t.keys, k);
            ResultLeaves(InsertTree(t, k, v, free)) ==
            LeavesOf(t.kids[..i]) + ResultLeaves(InsertTree(t.kids[i], k, v, free)) + LeavesOf(t.kids[i + 1..])
  {
    var i := Route(t.keys, k);
    match InsertTree(t.kids[i], k, v, free)
    case One(n, f) =>
      Singleton(n);
      SpliceContents(t.kids, i, [n]);
    case Two(l, sep, r, f) =>
      Couple(l, r);
      SpliceContents(t.kids, i, [l, r]);
      AddPairContents(t, i, l, sep, r, f);
  }

  /** Insertion is exactly an upsert of the in-order contents. */
  lemma {:induction false} InsertEntries(t: Tree, k: Bytes, v: Bytes, free: int, h: nat, lo: Option<Bytes>, hi: Option<Bytes>)
    requires Ordered(t, h, lo, hi) && Aligned(t)
    ensures ResultEntries(InsertTree(t, k, v, free)) == Upsert(Entries(t), k, v)
    decreases t
  {
    if t.Leaf? {
      InsertLeafEntries(t, k, v, free);
    } else {
      var i := Route(t.keys, k);
      var a, b, c := EntriesOf(t.kids[..i]), Entries(t.kids[i]), EntriesOf(t.kids[i + 1..]);
      assert Entries(t) == a + b + c by {
        ContentsAround(t.kids, i);
      }
      assert AllBelow(a, k) && AllAbove(k, c) by {
        RouteSeparates(t.keys, t.kids, h - 1, lo, hi, k);
      }
      UpsertMiddle(a, b, c, k, v);
      InsertEntries(t.kids[i], k, v, free, h - 1, LowOf(t.keys, i, lo), HighOf(t.keys, i, hi));
      InsertContents(t, k, v, free);
    }
  }

  lemma {:induction false} ChainReplace(a: seq<Tree>, b: seq<Tree>, c: seq<Tree>, d: seq<Tree>, after: int)
    requires Chained(a + b + c, after)
    requires Chained(d, FirstPid(c, after))
    requires FirstPid(d, FirstPid(c, after)) == FirstPid(b, FirstPid(c, after))
    ensures Chained(a + d + c, after)
    ensures FirstPid(a + d + c, after) == FirstPid(a + b + c, after)
  {
    ChainedConcat(a + b, c, after);
    ChainedConcat(a, b, FirstPid(c, after));
    ChainedConcat(a, d, FirstPid(c, after));
    ChainedConcat(a + d, c, after);
  }

  lemma {:induction false} ChainMiddle(a: seq<Tree>, b: seq<Tree>, c: seq<Tree>, after: int)
    requires Chained(a + b + c, after)
    ensures Chained(b, FirstPid(c, after))
  {
    ChainedConcat(a + b, c, after);
    ChainedConcat(a, b, FirstPid(c, after));
  }

  lemma {:induction false} InsertLeafChain(t: Tree, k: Bytes, v: Bytes, free: int, after: int)
    requires t.Leaf? && |t.vals| == |t.keys| && Chained([t], after)
    ensures Chained(ResultLeaves(InsertLeaf(t, k, v, free)), after)
    ensures FirstPid(ResultLeaves(InsertLeaf(t, k, v, free)), after) == t.pid
  {
    var r := InsertLeaf(t, k, v, free);
    if r.Two? {
      assert ([r.left] + [r.right])[1..] == [r.right];
    }
  }

  /** A split links the new leaf between its left half and the old successor. */
  lemma {:induction false} InsertChain(t: Tree, k: Bytes, v: Bytes, free: int, after: int)
    requires Aligned(t) && Chained(Leaves(t), after)
    ensures Chained(ResultLeaves(InsertTree(t, k, v, free)), after)
    ensures FirstPid(ResultLeaves(InsertTree(t, k, v, free)), after) == FirstPid(Leaves(t), after)
    decreases t
  {
    if t.Leaf? {
      InsertLeafChain(t, k, v, free, after);
    } else {
      var i := Route(t.keys, k);
      var a, b, c := LeavesOf(t.kids[..i]), Leaves(t.kids[i]), LeavesOf(t.kids[i + 1..]);
      assert Leaves(t) == a + b + c by {
        ContentsAround(t.kids, i);
      }
      ChainMiddle(a, b, c, after);
      InsertChain(t.kids[i], k, v, free, FirstPid(c, after));
      ChainReplace(a, b, c, ResultLeaves(InsertTree(t.kids[i], k, v, free)), after);
      InsertContents(t, k, v, free);
    }
  }

  // ---------- pages ----------

  ghost function ResultPages(r: InsertResult): set<int> {
    match r
    case One(t, _) => Footprint(t)
    case Two(l, _, rt, _) => Footprint(l) + Footprint(rt)
  }

  ghost predicate ResultDistinct(r: InsertResult) {
    match r
    case One(t, _) => Distinct(t)
    case Two(l, _, rt, _) => Distinct(l) && Distinct(rt) && Footprint(l) !! Footprint(rt)
  }

  ghost predicate Grown(now: set<int>, was: set<int>, free: int, free': int) {
    free <= free' && forall p :: p in now ==> p in was || free <= p < free'
  }

  /** Replacing kids[i] by trees on its own or unused pages keeps pages distinct. */
  lemma {:induction false} ReplaceKid(kids: seq<Tree>, i: nat, mid: seq<Tree>, free: int, free': int)
    requires i < |kids| && DistinctKids(kids) && DistinctKids(mid)
    requires forall p :: p in FootprintOf(kids) ==> p < free
    requires Grown(FootprintOf(mid), Footprint(kids[i]), free, free')
    ensures DistinctKids(Splice(kids, i, mid))
    ensures Grown(FootprintOf(Splice(kids, i, mid)), FootprintOf(kids), free, free')
  {
    assert kids == Splice(kids, i, [kids[i]]);
    Singleton(kids[i]);
    SplicePages(kids, i, [kids[i]]);
    SplicePages(kids, i, mid);
    forall p | p in FootprintOf(mid) ensures p !in FootprintOf(kids[..i]) && p !in FootprintOf(kids[i + 1..]) {
      assert p in FootprintOf(kids) ==> p in Footprint(kids[i]);
    }
  }

  lemma {:induction false} AddPairKids(t: Tree, i: nat, l: Tree, r: Tree, free: int, free': int)
    requires t.Inner? && i < |t.kids| && Distinct(t) && PagesBelow(t, free)
    requires Distinct(l) && Distinct(r) && Footprint(l) !! Footprint(r)
    requires Grown(Footprint(l) + Footprint(r), Footprint(t.kids[i]), free, free')
    ensures DistinctKids(Splice(t.kids, i, [l, r]))
    ensures Grown(FootprintOf(Splice(t.kids, i, [l, r])), FootprintOf(t.kids), free, free')
    ensures 0 <= t.pid < free && t.pid !in FootprintOf(Splice(t.kids, i, [l, r]))
    ensures forall p :: p in FootprintOf(t.kids) ==> p < free
  {
    Couple(l, r);
    KidPages(t, i, free);
    ReplaceKid(t.kids, i, [l, r], free, free');
    assert t.pid in Footprint(t);
  }

  lemma {:induction false} AddPairPages(t: Tree, i: nat, l: Tree, sep: Bytes, r: Tree, free: int, free': int)
    requires t.Inner? && i <= |t.keys| && |t.kids| == |t.keys| + 1 && Distinct(t) && PagesBelow(t, free)
    requires Distinct(l) && Distinct(r) && Footprint(l) !! Footprint(r)
    requires Grown(Footprint(l) + Footprint(r), Footprint(t.kids[i]), free, free')
    ensures ResultDistinct(AddPair(t, i, l, sep, r, free'))
    ensures Grown(ResultPages(AddPair(t, i, l, sep, r, free')), Footprint(t), free, AddPair(t, i, l, sep, r, free').free)
  {
    AddPairKids(t, i, l, r, free, free');
    if |t.keys| >= MAX_KEYS {
      SplitPages(t.pid, free', Splice(t.kids, i, [l, r]), (|t.keys| + 1) / 2 + 1);
    }
  }

  lemma {:induction false} SplitPages(p: int, q: int, cs: seq<Tree>, mid: nat)
    requires mid <= |cs| && DistinctKids(cs) && p != q && p !in FootprintOf(cs) && q !in FootprintOf(cs)
    ensures DistinctKids(cs[..mid]) && DistinctKids(cs[mid..])
    ensures FootprintOf(cs) == FootprintOf(cs[..mid]) + FootprintOf(cs[mid..])
    ensures {p} + FootprintOf(cs[..mid]) !! {q} + FootprintOf(cs[mid..])
  {
    assert cs == cs[..mid] + cs[mid..];
    FootprintConcat(cs[..mid], cs[mid..]);
  }

  /** Insertion takes only unused pages and never uses a page twice. */
  lemma {:induction false} InsertPages(t: Tree, k: Bytes, v: Bytes, free: int)
    requires Aligned(t) && Distinct(t) && PagesBelow(t, free) && 0 <= free
    ensures ResultDistinct(InsertTree(t, k, v, free))
    ensures Grown(ResultPages(InsertTree(t, k, v, free)), Footprint(t), free, InsertTree(t, k, v, free).free)
    decreases t
  {
    assert t.pid in Footprint(t);
    if t.Inner? {
      var i := Route(t.keys, k);
      KidPages(t, i, free);
      InsertPages(t.kids[i], k, v, free);
      match InsertTree(t.kids[i], k, v, free)
      case One(c, f) =>
        Singleton(c);
        ReplaceKid(t.kids, i, [c], free, f);
      case Two(l, sep, r, f) =>
        AddPairPages(t, i, l, sep, r, free, f);
    }
  }

  // ---------- the whole tree ----------

  /** A split root was full: the half that stays is no larger than the root was. */
  lemma {:induction false} SplitShrinks(t: Tree, k: Bytes, v: Bytes, free: int)
    requires Aligned(t) && InsertTree(t, k, v, free).Two?
    ensures |InsertTree(t, k, v, free).left.keys| <= |t.keys|
  {
  }

  /**
   * Inserting into an ordered tree gives an ordered tree, one level higher exactly when the root
   * split, whose contents are the old ones with k bound to v. No node comes to be without keys.
   */
  lemma {:induction false} InsertSound(t: Tree, k: Bytes, v: Bytes, free: int, h: nat)
    requires Ordered(t, h, None, None) && Distinct(t) && PagesBelow(t, free) && 0 <= free
    requires Chained(Leaves(t), NO_PAGE) && Aligned(t)
    ensures var r := InsertTree(t, k, v, free);
            var t' := GrowRoot(r);
            && Ordered(t', if r.Two? then h + 1 else h, None, None) && (RootSized(t) ==> RootSized(t'))
            && Distinct(t') && PagesBelow(t', FreeAfter(r)) && Grown(Footprint(t'), Footprint(t), free, FreeAfter(r))
            && Chained(Leaves(t'), NO_PAGE)
            && Entries(t') == Upsert(Entries(t), k, v)
            && MapOf(Entries(t')) == MapOf(Entries(t))[k := v]
    ensures InsertTree(t, k, v, free).Two? ==> |InsertTree(t, k, v, free).left.keys| <= |t.keys|
  {
    InsertOrdered(t, k, v, free, h, None, None);
    InsertEntries(t, k, v, free, h, None, None);
    InsertChain(t, k, v, free, NO_PAGE);
    InsertPages(t, k, v, free);
    MapOfUpsert(Entries(t), k, v);
    var r := InsertTree(t, k, v, free);
    if RootSized(t) {
      InsertSized(t, k, v, free);
    }
    if r.Two? {
      SplitShrinks(t, k, v, free);
      GrownOrdered(r, h);
    }
    GrownPages(r, free);
    GrownContents(r);
  }

  lemma {:induction false} GrownPages(r: InsertResult, free: int)
    requires ResultDistinct(r) && 0 <= free <= r.free && forall p :: p in ResultPages(r) ==> 0 <= p < r.free
    ensures Distinct(GrowRoot(r)) && PagesBelow(GrowRoot(r), FreeAfter(r))
    ensures Footprint(GrowRoot(r)) == ResultPages(r) + if r.Two? then {r.free} else {}
  {
    match r
    case One(t, f) =>
      assert ResultPages(r) == Footprint(t);
    case Two(l, sep, rt, f) =>
      Couple(l, rt);
      assert ResultPages(r) == FootprintOf([l, rt]);
      assert Footprint(GrowRoot(r)) == {f} + FootprintOf([l, rt]);
  }

  lemma {:induction false} GrownContents(r: InsertResult)
    ensures Entries(GrowRoot(r)) == ResultEntries(r) && Leaves(GrowRoot(r)) == ResultLeaves(r)
  {
    if r.Two? {
      Couple(r.left, r.right);
    }
  }

  lemma {:induction false} GrownOrdered(r: InsertResult, h: nat)
    requires r.Two? && ResultOrdered(r, h, None, None)
    ensures Ordered(GrowRoot(r), h + 1, None, None) && (ResultSized(r) ==> RootSized(GrowRoot(r)))
  {
  }
}
