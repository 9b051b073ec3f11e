/**
 * The B-tree as a mathematical tree: the value that a set of pages represents.
 * A leaf holds sorted entries; an inner node with n separators has n + 1 kids, and the
 * keys under kids[i] lie in [keys[i-1], keys[i]).
 */
module Tree {
  import opened ByteStrings

  const MAX_KEYS := 3
  const MIN_KEYS := 1
  const NO_PAGE := -1

  datatype Tree =
    | Leaf(pid: int, keys: seq<Bytes>, vals: seq<Bytes>, next: int, prev: int)
    | Inner(pid: int, keys: seq<Bytes>, kids: seq<Tree>, next: int, prev: int)

  datatype Entry = Entry(key: Bytes, val: Bytes)

  // ---------- contents ----------

  /** The leaves from left to right. */
  ghost function Leaves(t: Tree): seq<Tree>
    decreases t, 0
  {
    match t
    case Leaf(_, _, _, _, _) => [t]
    case Inner(_, _, kids, _, _) => LeavesOf(kids)
  }

  ghost function LeavesOf(kids: seq<Tree>): seq<Tree>
    decreases kids, 1
  {
    if kids == [] then [] else Leaves(kids[0]) + LeavesOf(kids[1..])
  }

  function Zip(keys: seq<Bytes>, vals: seq<Bytes>): (r: seq<Entry>)
    requires |keys| == |vals|
    ensures |r| == |keys| && forall i :: 0 <= i < |r| ==> r[i] == Entry(keys[i], vals[i])
  {
    seq(|keys|, i requires 0 <= i < |keys| => Entry(keys[i], vals[i]))
  }

  /** The stored entries in key order. */
  ghost function Entries(t: Tree): seq<Entry>
    decreases t, 0
  {
    match t
    case Leaf(_, keys, vals, _, _) => if |keys| == |vals| then Zip(keys, vals) else []
    case Inner(_, _, kids, _, _) => EntriesOf(kids)
  }

  ghost function EntriesOf(kids: seq<Tree>): seq<Entry>
    decreases kids, 1
  {
    if kids == [] then [] else Entries(kids[0]) + EntriesOf(kids[1..])
  }

  lemma {:induction false} EntriesOfConcat(a: seq<Tree>, b: seq<Tree>)
    ensures EntriesOf(a + b) == EntriesOf(a) + EntriesOf(b)
  {
    if a == [] {
      assert a + b == b;
    } else {
      assert (a + b)[1..] == a[1..] + b;
      EntriesOfConcat(a[1..], b);
    }
  }

  lemma {:induction false} LeavesOfConcat(a: seq<Tree>, b: seq<Tree>)
    ensures LeavesOf(a + b) == LeavesOf(a) + LeavesOf(b)
  {
    if a == [] {
      assert a + b == b;
    } else {
      assert (a + b)[1..] == a[1..] + b;
      LeavesOfConcat(a[1..], b);
    }
  }

  /** kids with kids[i] replaced by the trees in mid. */
  function Splice(kids: seq<Tree>, i: nat, mid: seq<Tree>): (r: seq<Tree>)
    requires i < |kids|
    ensures |r| == |kids| - 1 + |mid|
  {
    kids[..i] + mid + kids[i + 1..]
  }

  lemma {:induction false} SpliceContents(kids: seq<Tree>, i: nat, mid: seq<Tree>)
    requires i < |kids|
    ensures EntriesOf(Splice(kids, i, mid)) == EntriesOf(kids[..i]) + EntriesOf(mid) + EntriesOf(kids[i + 1..])
    ensures LeavesOf(Splice(kids, i, mid)) == LeavesOf(kids[..i]) + LeavesOf(mid) + LeavesOf(kids[i + 1..])
  {
    EntriesOfConcat(kids[..i], mid);
    EntriesOfConcat(kids[..i] + mid, kids[i + 1..]);
    LeavesOfConcat(kids[..i], mid);
    LeavesOfConcat(kids[..i] + mid, kids[i + 1..]);
  }

  /** Splits the contents of a list of kids around kids[i]. */
  lemma {:induction false} ContentsAround(kids: seq<Tree>, i: nat)
    requires i < |kids|
    ensures EntriesOf(kids) == EntriesOf(kids[..i]) + Entries(kids[i]) + EntriesOf(kids[i + 1..])
    ensures LeavesOf(kids) == LeavesOf(kids[..i]) + Leaves(kids[i]) + LeavesOf(kids[i + 1..])
  {
    assert kids == Splice(kids, i, [kids[i]]);
    SpliceContents(kids, i, [kids[i]]);
    Singleton(kids[i]);
  }

  // ---------- well-formedness ----------

  predicate Sorted(keys: seq<Bytes>) {
    forall i, j :: 0 <= i < j < |keys| ==> Less(keys[i], keys[j])
  }

  /** lo <= k, where a missing bound is minus infinity. */
  predicate AtLeast(lo: Option<Bytes>, k: Bytes) {
    lo.None? || !Less(k, lo.value)
  }

  predicate Above(lo: Option<Bytes>, k: Bytes) {
    lo.None? || Less(lo.value, k)
  }

  predicate Below(k: Bytes, hi: Option<Bytes>) {
    hi.None? || Less(k, hi.value)
  }

  function LowOf(keys: seq<Bytes>, i: nat, lo: Option<Bytes>): Option<Bytes>
    requires i <= |keys|
  {
    if i == 0 then lo else Some(keys[i - 1])
  }

  function HighOf(keys: seq<Bytes>, i: nat, hi: Option<Bytes>): Option<Bytes>
    requires i <= |keys|
  {
    if i == |keys| then hi else Some(keys[i])
  }

  ghost predicate LeafOrdered(keys: seq<Bytes>, vals: seq<Bytes>, lo: Option<Bytes>, hi: Option<Bytes>) {
    && |vals| == |keys|
    && Sorted(keys)
    && forall i :: 0 <= i < |keys| ==> AtLeast(lo, keys[i]) && Below(keys[i], hi)
  }

  ghost predicate SepsOrdered(keys: seq<Bytes>, lo: Option<Bytes>, hi: Option<Bytes>) {
    && Sorted(keys)
    && forall i :: 0 <= i < |keys| ==> Above(lo, keys[i]) && Below(keys[i], hi)
  }

  /**
   * Search order, equal leaf depth h, and the capacity of every node:
   * what insertion and deletion keep in all cases.
   */
  ghost predicate Ordered(t: Tree, h: nat, lo: Option<Bytes>, hi: Option<Bytes>)
    decreases t, 0
  {
    match t
    case Leaf(_, keys, vals, _, _) => h == 0 && |keys| <= MAX_KEYS && LeafOrdered(keys, vals, lo, hi)
    case Inner(_, keys, kids, _, _) => h > 0 && |keys| <= MAX_KEYS && NodeOrdered(keys, kids, h - 1, lo, hi)
  }

  ghost predicate NodeOrdered(keys: seq<Bytes>, kids: seq<Tree>, h: nat, lo: Option<Bytes>, hi: Option<Bytes>)
    decreases kids, 1
  {
    && |kids| == |keys| + 1
    && SepsOrdered(keys, lo, hi)
    && forall i :: 0 <= i < |kids| ==> Ordered(kids[i], h, LowOf(keys, i, lo), HighOf(keys, i, hi))
  }

  /** Every node, the root of t included, has at least one key. */
  ghost predicate Sized(t: Tree) {
    && |t.keys| >= MIN_KEYS
    && (t.Inner? ==> forall i :: 0 <= i < |t.kids| ==> Sized(t.kids[i]))
  }

  /** A whole tree: only a root leaf may be empty. */
  ghost predicate RootSized(t: Tree) {
    t.Leaf? || Sized(t)
  }

  // ---------- the leaf chain ----------

  ghost function FirstPid(ls: seq<Tree>, after: int): int {
    if ls == [] then after else ls[0].pid
  }

  /** Each leaf's next_page is the leaf to its right; the last one links to `after`. */
  ghost predicate Chained(ls: seq<Tree>, after: int) {
    ls == [] || (ls[0].next == FirstPid(ls[1..], after) && Chained(ls[1..], after))
  }

  lemma {:induction false} ChainedConcat(a: seq<Tree>, b: seq<Tree>, after: int)
    ensures Chained(a + b, after) <==> Chained(a, FirstPid(b, after)) && Chained(b, after)
  {
    if a == [] {
      assert a + b == b;
    } else {
      assert (a + b)[1..] == a[1..] + b;
      ChainedConcat(a[1..], b, after);
    }
  }

  // ---------- page footprints ----------

  ghost function Footprint(t: Tree): set<int>
    decreases t, 0
  {
    match t
    case Leaf(pid, _, _, _, _) => {pid}
    case Inner(pid, _, kids, _, _) => {pid} + FootprintOf(kids)
  }

  ghost function FootprintOf(kids: seq<Tree>): set<int>
    decreases kids, 1
  {
    if kids == [] then {} else Footprint(kids[0]) + FootprintOf(kids[1..])
  }

  /** No page is used twice. */
  ghost predicate Distinct(t: Tree)
    decreases t, 0
  {
    t.Inner? ==> t.pid !in FootprintOf(t.kids) && DistinctKids(t.kids)
  }

  ghost predicate DistinctKids(kids: seq<Tree>)
    decreases kids, 1
  {
    kids == [] || (Distinct(kids[0]) && Footprint(kids[0]) !! FootprintOf(kids[1..]) && DistinctKids(kids[1..]))
  }

  lemma {:induction false} FootprintConcat(a: seq<Tree>, b: seq<Tree>)
    ensures FootprintOf(a + b) == FootprintOf(a) + FootprintOf(b)
    ensures DistinctKids(a + b) <==> DistinctKids(a) && DistinctKids(b) && FootprintOf(a) !! FootprintOf(b)
  {
    if a == [] {
      assert a + b == b;
    } else {
      assert (a + b)[1..] == a[1..] + b;
      FootprintConcat(a[1..], b);
    }
  }

  lemma {:induction false} SplicePages(kids: seq<Tree>, i: nat, mid: seq<Tree>)
    requires i < |kids|
    ensures FootprintOf(Splice(kids, i, mid)) == FootprintOf(kids[..i]) + FootprintOf(mid) + FootprintOf(kids[i + 1..])
    ensures DistinctKids(Splice(kids, i, mid)) <==>
            && DistinctKids(kids[..i]) && DistinctKids(mid) && DistinctKids(kids[i + 1..])
            && FootprintOf(kids[..i]) !! FootprintOf(mid)
            && FootprintOf(kids[..i]) !! FootprintOf(kids[i + 1..])
            && FootprintOf(mid) !! FootprintOf(kids[i + 1..])
  {
    FootprintConcat(kids[..i], mid);
    FootprintConcat(kids[..i] + mid, kids[i + 1..]);
  }

  ghost predicate PagesBelow(t: Tree, n: int) {
    forall p :: p in Footprint(t) ==> 0 <= p < n
  }

  lemma {:induction false} Singleton(k: Tree)
    ensures EntriesOf([k]) == Entries(k) && LeavesOf([k]) == Leaves(k)
    ensures FootprintOf([k]) == Footprint(k) && (DistinctKids([k]) <==> Distinct(k))
  {
    assert [k][0] == k && [k][1..] == [];
    assert Leaves(k) + [] == Leaves(k) && Entries(k) + [] == Entries(k) && Footprint(k) + {} == Footprint(k);
  }

  lemma {:induction false} Couple(l: Tree, r: Tree)
    ensures EntriesOf([l, r]) == Entries(l) + Entries(r) && LeavesOf([l, r]) == Leaves(l) + Leaves(r)
    ensures FootprintOf([l, r]) == Footprint(l) + Footprint(r)
    ensures DistinctKids([l, r]) <==> Distinct(l) && Distinct(r) && Footprint(l) !! Footprint(r)
  {
    assert [l, r][0] == l && [l, r][1..] == [r];
    Singleton(r);
  }

  lemma {:induction false} KidPages(t: Tree, i: nat, n: int)
    requires t.Inner? && i < |t.kids|
    ensures Footprint(t.kids[i]) <= FootprintOf(t.kids) <= Footprint(t)
    ensures PagesBelow(t, n) ==> PagesBelow(t.kids[i], n) && forall p :: p in FootprintOf(t.kids) ==> 0 <= p < n
    ensures Distinct(t) ==> Distinct(t.kids[i]) && DistinctKids(t.kids) && t.pid !in FootprintOf(t.kids)
  {
    assert t.kids == Splice(t.kids, i, [t.kids[i]]);
    Singleton(t.kids[i]);
    SplicePages(t.kids, i, [t.kids[i]]);
    assert FootprintOf(t.kids) <= Footprint(t);
    if PagesBelow(t, n) {
      forall p | p in FootprintOf(t.kids) ensures 0 <= p < n {
        assert p in Footprint(t);
      }
    }
  }

  // ---------- searching ----------

  /** Index of an entry with key k, or -1. */
  function IndexOf(keys: seq<Bytes>, k: Bytes): (r: int)
    ensures r >= -1 && (r < 0 ==> k !in keys)
    ensures r >= 0 ==> r < |keys| && keys[r] == k && k !in keys[..r]
  {
    if keys == [] then -1
    else if keys[0] == k then 0
    else var r := IndexOf(keys[1..], k); if r < 0 then -1 else r + 1
  }

  /** First index whose key is greater than k, or the number of keys. */
  function Route(keys: seq<Bytes>, k: Bytes): (r: nat)
    ensures r <= |keys|
    ensures forall j :: 0 <= j < r ==> !Less(k, keys[j])
    ensures r < |keys| ==> Less(k, keys[r])
  {
    if keys == [] then 0 else if Less(k, keys[0]) then 0 else 1 + Route(keys[1..], k)
  }

  /** What a lookup answers: it gives up at an inner node that has no keys. */
  ghost function Find(t: Tree, k: Bytes): Option<Bytes>
    decreases t
  {
    match t
    case Leaf(_, keys, vals, _, _) => var i := IndexOf(keys, k); if 0 <= i < |vals| then Some(vals[i]) else None
    case Inner(_, keys, kids, _, _) =>
      var i := Route(keys, k);
      if keys == [] || i >= |kids| then None else Find(kids[i], k)
  }
}
