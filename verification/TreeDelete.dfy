/** Deletion as a function on trees: merges, the one case in which a merge is refused, and root shrinking. */
module TreeDelete {
  import opened ByteStrings
  import opened Tree
  import opened Contents
  import opened TreeInsert
  import opened Sequences

  /** Keys of the node that merging l and r would make. */
  function MergedKeys(l: Tree, r: Tree): nat {
    |l.keys| + |r.keys| + if l.Inner? then 1 else 0
  }

  /** r is emptied into l; between inner nodes the separator comes down. */
  function Merge(l: Tree, sep: Bytes, r: Tree): Tree {
    if l.Leaf? && r.Leaf? then Leaf(l.pid, l.keys + r.keys, l.vals + r.vals, r.next, l.prev)
    else if l.Inner? && r.Inner? then Inner(l.pid, l.keys + [sep] + r.keys, l.kids + r.kids, r.next, l.prev)
    else l
  }

  /** Merges kids[j] and kids[j + 1] of t, unless the result would be too large. */
  function MergeAt(t: Tree, j: nat): Tree
    requires t.Inner? && j < |t.keys| && |t.kids| == |t.keys| + 1
  {
    var l, r := t.kids[j], t.kids[j + 1];
    if MergedKeys(l, r) > MAX_KEYS then t
    else t.(keys := RemoveAt(t.keys, j), kids := t.kids[..j] + [Merge(l, t.keys[j], r)] + t.kids[j + 2..])
  }

  /** An underflowed kid goes into its left sibling; the leftmost kid takes in its right sibling. */
  function LeftOfPair(i: nat): nat {
    if i > 0 then i - 1 else 0
  }

  function WithKid(t: Tree, i: nat, c: Tree): Tree
    requires t.Inner? && i < |t.kids|
  {
    t.(kids := Splice(t.kids, i, [c]))
  }

  /** A node without keys has no sibling to merge its only kid with, so nothing is merged there. */
  ghost function DeleteTree(t: Tree, k: Bytes): Tree
    requires Aligned(t)
  {
    match t
    case Leaf(_, keys, vals, _, _) =>
      var i := IndexOf(keys, k);
      if i < 0 then t else t.(keys := RemoveAt(keys, i), vals := RemoveAt(vals, i))
    case Inner(_, keys, kids, _, _) =>
      var i := Route(keys, k);
      var c := DeleteTree(kids[i], k);
      if |c.keys| < MIN_KEYS && keys != [] then MergeAt(WithKid(t, i, c), LeftOfPair(i)) else WithKid(t, i, c)
  }

  /** On the path of k, an emptied inner node has a sibling too full to merge with. */
  ghost predicate Refused(t: Tree, k: Bytes)
    requires Aligned(t)
  {
    t.Inner? && t.keys != [] &&
    var i := Route(t.keys, k);
    var c := DeleteTree(t.kids[i], k);
    var t1, j := WithKid(t, i, c), LeftOfPair(i);
    Refused(t.kids[i], k) || (|c.keys| < MIN_KEYS && MergedKeys(t1.kids[j], t1.kids[j + 1]) > MAX_KEYS)
  }

  /** A root without keys gives way to its only kid. */
  function ShrinkRoot(t: Tree): Tree {
    if t.Inner? && t.keys == [] && |t.kids| > 0 then t.kids[0] else t
  }

  // ---------- order ----------

  lemma {:induction false} RemoveAtSorted(keys: seq<Bytes>, i: nat)
    requires Sorted(keys) && i < |keys|
    ensures Sorted(RemoveAt(keys, i))
  {
    var r := RemoveAt(keys, i);
    forall x, y | 0 <= x < y < |r| ensures Less(r[x], r[y]) {
      assert r[x] == keys[if x < i then x else x + 1] && r[y] == keys[if y < i then y else y + 1];
    }
  }

  lemma {:induction false} DeleteLeafOrdered(t: Tree, k: Bytes, lo: Option<Bytes>, hi: Option<Bytes>)
    requires t.Leaf? && Ordered(t, 0, lo, hi) && Aligned(t)
    ensures Ordered(DeleteTree(t, k), 0, lo, hi)
  {
    var i := IndexOf(t.keys, k);
    if i >= 0 {
      RemoveAtSorted(t.keys, i);
      var r := RemoveAt(t.keys, i);
      assert forall x :: 0 <= x < |r| ==> r[x] == t.keys[if x < i then x else x + 1];
    }
  }

  lemma {:induction false} MergeLeavesOrdered(l: Tree, sep: Bytes, r: Tree, lo: Option<Bytes>, hi: Option<Bytes>)
    requires l.Leaf? && r.Leaf? && Above(lo, sep) && Below(sep, hi)
    requires LeafOrdered(l.keys, l.vals, lo, Some(sep)) && LeafOrdered(r.keys, r.vals, Some(sep), hi)
    ensures LeafOrdered(l.keys + r.keys, l.vals + r.vals, lo, hi)
  {
    LessIsStrictTotalOrder();
    var ks := l.keys + r.keys;
    forall x, y | 0 <= x < y < |ks| ensures Less(ks[x], ks[y]) {
      if x < |l.keys| <= y {
        assert Less(l.keys[x], sep) && !Less(r.keys[y - |l.keys|], sep);
      }
    }
  }

  lemma {:induction false} JoinSeps(a: seq<Bytes>, sep: Bytes, b: seq<Bytes>, lo: Option<Bytes>, hi: Option<Bytes>)
    requires SepsOrdered(a, lo, Some(sep)) && SepsOrdered(b, Some(sep), hi) && Above(lo, sep) && Below(sep, hi)
    ensures SepsOrdered(a + [sep] + b, lo, hi)
  {
    LessIsStrictTotalOrder();
    var ks := a + [sep] + b;
    forall x | 0 <= x < |ks|
      ensures ks[x] == if x < |a| then a[x] else if x == |a| then sep else b[x - |a| - 1]
    {
    }
  }

  lemma {:induction false} JoinOrdered(l: Tree, sep: Bytes, r: Tree, h: nat, lo: Option<Bytes>, hi: Option<Bytes>)
    requires l.Inner? && r.Inner? && Above(lo, sep) && Below(sep, hi)
    requires NodeOrdered(l.keys, l.kids, h, lo, Some(sep)) && NodeOrdered(r.keys, r.kids, h, Some(sep), hi)
    ensures NodeOrdered(l.keys + [sep] + r.keys, l.kids + r.kids, h, lo, hi)
  {
    JoinSeps(l.keys, sep, r.keys, lo, hi);
    var ks, cs, n := l.keys + [sep] + r.keys, l.kids + r.kids, |l.keys|;
    forall x | 0 <= x < |cs| ensures Ordered(cs[x], h, LowOf(ks, x, lo), HighOf(ks, x, hi)) {
      if x <= n {
        assert LowOf(ks, x, lo) == LowOf(l.keys, x, lo) && HighOf(ks, x, hi) == HighOf(l.keys, x, Some(sep));
        assert cs[x] == l.kids[x];
      } else {
        var y := x - n - 1;
        assert LowOf(ks, x, lo) == LowOf(r.keys, y, Some(sep)) && HighOf(ks, x, hi) == HighOf(r.keys, y, hi);
        assert cs[x] == r.kids[y];
      }
    }
  }

  lemma {:induction false} MergeOrdered(l: Tree, sep: Bytes, r: Tree, h: nat, lo: Option<Bytes>, hi: Option<Bytes>)
    requires Ordered(l, h, lo, Some(sep)) && Ordered(r, h, Some(sep), hi) && Above(lo, sep) && Below(sep, hi)
    requires MergedKeys(l, r) <= MAX_KEYS
    ensures Ordered(Merge(l, sep, r), h, lo, hi)
  {
    if l.Leaf? {
      MergeLeavesOrdered(l, sep, r, lo, hi);
    } else {
      JoinOrdered(l, sep, r, h - 1, lo, hi);
    }
  }

  lemma {:induction false} MergeAtOrdered(t: Tree, j: nat, h: nat, lo: Option<Bytes>, hi: Option<Bytes>)
    requires t.Inner? && Ordered(t, h, lo, hi) && j < |t.keys| && |t.kids| == |t.keys| + 1
    ensures Ordered(MergeAt(t, j), h, lo, hi)
  {
    var l, r, sep := t.kids[j], t.kids[j + 1], t.keys[j];
    if MergedKeys(l, r) <= MAX_KEYS {
      var a, b := LowOf(t.keys, j, lo), HighOf(t.keys, j + 1, hi);
      assert Ordered(l, h - 1, a, Some(sep)) && Ordered(r, h - 1, Some(sep), b);
      assert Above(a, sep) && Below(sep, b);
      MergeOrdered(l, sep, r, h - 1, a, b);
      RemoveAtSorted(t.keys, j);
      var ks, cs := RemoveAt(t.keys, j), t.kids[..j] + [Merge(l, sep, r)] + t.kids[j + 2..];
      forall x | 0 <= x < |ks| ensures Above(lo, ks[x]) && Below(ks[x], hi) {
        assert ks[x] == t.keys[if x < j then x else x + 1];
      }
      forall x | 0 <= x < |cs| ensures Ordered(cs[x], h - 1, LowOf(ks, x, lo), HighOf(ks, x, hi)) {
        if x < j {
          assert cs[x] == t.kids[x] && LowOf(ks, x, lo) == LowOf(t.keys, x, lo) && HighOf(ks, x, hi) == HighOf(t.keys, x, hi);
        } else if x == j {
          assert LowOf(ks, x, lo) == a && HighOf(ks, x, hi) == b;
        } else {
          assert cs[x] == t.kids[x + 1];
          assert LowOf(ks, x, lo) == LowOf(t.keys, x + 1, lo) && HighOf(ks, x, hi) == HighOf(t.keys, x + 1, hi);
        }
      }
    }
  }

  lemma {:induction false} WithKidOrdered(t: Tree, i: nat, c: Tree, h: nat, lo: Option<Bytes>, hi: Option<Bytes>)
    requires t.Inner? && Ordered(t, h, lo, hi) && i < |t.kids| == |t.keys| + 1
    requires Ordered(c, h - 1, LowOf(t.keys, i, lo), HighOf(t.keys, i, hi))
    ensures Ordered(WithKid(t, i, c), h, lo, hi)
  {
    var cs := Splice(t.kids, i, [c]);
    assert forall x :: 0 <= x < |cs| ==> cs[x] == if x == i then c else t.kids[x];
  }

  /** Deletion keeps search order, equal leaf depth and capacity, whether or not a merge is refused. */
  lemma {:induction false} DeleteOrdered(t: Tree, k: Bytes, h: nat, lo: Option<Bytes>, hi: Option<Bytes>)
    requires Ordered(t, h, lo, hi) && Aligned(t)
    ensures Ordered(DeleteTree(t, k), h, lo, hi)
    decreases t
  {
    if t.Leaf? {
      DeleteLeafOrdered(t, k, lo, hi);
    } else {
      var i := Route(t.keys, k);
      DeleteOrdered(t.kids[i], k, h - 1, LowOf(t.keys, i, lo), HighOf(t.keys, i, hi));
      var c := DeleteTree(t.kids[i], k);
      WithKidOrdered(t, i, c, h, lo, hi);
      if |c.keys| < MIN_KEYS && t.keys != [] {
        MergeAtOrdered(WithKid(t, i, c), LeftOfPair(i), h, lo, hi);
      }
    }
  }

  // ---------- contents ----------

  lemma {:induction false} RemoveFirst(s: seq<Entry>, k: Bytes, i: nat)
    requires i < |s| && s[i].key == k && forall j :: 0 <= j < i ==> s[j].key != k
    ensures Remove(s, k) == RemoveAt(s, i)
  {
    if i > 0 {
      RemoveFirst(s[1..], k, i - 1);
    }
  }

  lemma {:induction false} ZipRemoveAt(keys: seq<Bytes>, vals: seq<Bytes>, i: nat)
    requires |keys| == |vals| && i < |keys|
    ensures RemoveAt(Zip(keys, vals), i) == Zip(RemoveAt(keys, i), RemoveAt(vals, i))
  {
  }

  lemma {:induction false} DeleteLeafEntries(t: Tree, k: Bytes)
    requires t.Leaf? && |t.keys| == |t.vals|
    ensures Entries(DeleteTree(t, k)) == Remove(Entries(t), k)
  {
    var i, es := IndexOf(t.keys, k), Zip(t.keys, t.vals);
    if i >= 0 {
      forall j | 0 <= j < i ensures es[j].key != k {
        assert t.keys[..i][j] == t.keys[j];
      }
      RemoveFirst(es, k, i);
      ZipRemoveAt(t.keys, t.vals, i);
    } else {
      forall e | e in es ensures e.key != k {
      }
      RemoveAbsent(es, k);
    }
  }

  lemma {:induction false} MergeAtContents(t: Tree, j: nat)
    requires t.Inner? && j < |t.keys| && |t.kids| == |t.keys| + 1
    requires t.kids[j].Leaf? == t.kids[j + 1].Leaf? && Aligned(t.kids[j]) && Aligned(t.kids[j + 1])
    ensures Entries(MergeAt(t, j)) == Entries(t)
  {
    var l, r := t.kids[j], t.kids[j + 1];
    if MergedKeys(l, r) <= MAX_KEYS {
      var m := Merge(l, t.keys[j], r);
      MergeContents(l, t.keys[j], r);
      Couple(l, r);
      Singleton(m);
      assert t.kids == t.kids[..j] + [l, r] + t.kids[j + 2..];
      EntriesOfConcat(t.kids[..j] + [l, r], t.kids[j + 2..]);
      EntriesOfConcat(t.kids[..j], [l, r]);
      EntriesOfConcat(t.kids[..j] + [m], t.kids[j + 2..]);
      EntriesOfConcat(t.kids[..j], [m]);
    }
  }

  lemma {:induction false} MergeContents(l: Tree, sep: Bytes, r: Tree)
    requires l.Leaf? == r.Leaf?
    requires l.Leaf? ==> |l.keys| == |l.vals| && |r.keys| == |r.vals|
    ensures Entries(Merge(l, sep, r)) == Entries(l) + Entries(r)
  {
    if l.Inner? {
      EntriesOfConcat(l.kids, r.kids);
    }
  }

  lemma {:induction false} WithKidEntries(t: Tree, i: nat, c: Tree, k: Bytes, h: nat, lo: Option<Bytes>, hi: Option<Bytes>)
    requires t.Inner? && Ordered(t, h, lo, hi) && i == Route(t.keys, k) && |t.kids| == |t.keys| + 1
    requires Entries(c) == Remove(Entries(t.kids[i]), k)
    ensures Entries(WithKid(t, i, c)) == Remove(Entries(t), k)
  {
    var a, b, d := EntriesOf(t.kids[..i]), Entries(t.kids[i]), EntriesOf(t.kids[i + 1..]);
    RouteSeparates(t.keys, t.kids, h - 1, lo, hi, k);
    RemoveMiddle(a, b, d, k);
    ContentsAround(t.kids, i);
    Singleton(c);
    SpliceContents(t.kids, i, [c]);
  }

  /** Siblings are of one kind, also after a deletion in one of them. */
  lemma {:induction false} SameKind(t: Tree, k: Bytes, h: nat, lo: Option<Bytes>, hi: Option<Bytes>, j: nat)
    requires t.Inner? && Ordered(t, h, lo, hi) && Aligned(t) && j < |t.keys|
    ensures var i := Route(t.keys, k);
            var t1 := WithKid(t, i, DeleteTree(t.kids[i], k));
            && t1.kids[j].Leaf? == t1.kids[j + 1].Leaf? && Aligned(t1.kids[j]) && Aligned(t1.kids[j + 1])
            && |t1.kids[j].keys| <= MAX_KEYS && |t1.kids[j + 1].keys| <= MAX_KEYS
  {
    var i := Route(t.keys, k);
    var c := DeleteTree(t.kids[i], k);
    DeleteOrdered(t.kids[i], k, h - 1, LowOf(t.keys, i, lo), HighOf(t.keys, i, hi));
    WithKidOrdered(t, i, c, h, lo, hi);
    var t1 := WithKid(t, i, c);
    OrderedAligned(t1.kids[j], h - 1, LowOf(t.keys, j, lo), HighOf(t.keys, j, hi));
    OrderedAligned(t1.kids[j + 1], h - 1, LowOf(t.keys, j + 1, lo), HighOf(t.keys, j + 1, hi));
  }

  /** Deletion removes exactly k from the in-order contents. */
  lemma {:induction false} DeleteEntries(t: Tree, k: Bytes, h: nat, lo: Option<Bytes>, hi: Option<Bytes>)
    requires Ordered(t, h, lo, hi) && Aligned(t)
    ensures Entries(DeleteTree(t, k)) == Remove(Entries(t), k)
    decreases t
  {
    if t.Leaf? {
      DeleteLeafEntries(t, k);
    } else {
      var i := Route(t.keys, k);
      var c := DeleteTree(t.kids[i], k);
      DeleteEntries(t.kids[i], k, h - 1, LowOf(t.keys, i, lo), HighOf(t.keys, i, hi));
      WithKidEntries(t, i, c, k, h, lo, hi);
      if |c.keys| < MIN_KEYS && t.keys != [] {
        SameKind(t, k, h, lo, hi, LeftOfPair(i));
        MergeAtContents(WithKid(t, i, c), LeftOfPair(i));
      }
    }
  }

  // ---------- the leaf chain ----------

  /** A merge drops one leaf from the chain, or none. */
  lemma {:induction false} MergeLeaves(l: Tree, sep: Bytes, r: Tree, after: int)
    requires l.Leaf? == r.Leaf? && Chained(Leaves(l) + Leaves(r), after)
    ensures Chained(Leaves(Merge(l, sep, r)), after)
    ensures FirstPid(Leaves(Merge(l, sep, r)), after) == FirstPid(Leaves(l) + Leaves(r), after)
  {
    if l.Inner? {
      LeavesOfConcat(l.kids, r.kids);
    } else {
      ChainedConcat([l], [r], after);
    }
  }

  lemma {:induction false} MergeAtChain(t: Tree, j: nat, after: int)
    requires t.Inner? && j < |t.keys| && |t.kids| == |t.keys| + 1 && t.kids[j].Leaf? == t.kids[j + 1].Leaf?
    requires Chained(Leaves(t), after)
    ensures Chained(Leaves(MergeAt(t, j)), after)
    ensures FirstPid(Leaves(MergeAt(t, j)), after) == FirstPid(Leaves(t), after)
  {
    var l, r := t.kids[j], t.kids[j + 1];
    if MergedKeys(l, r) <= MAX_KEYS {
      var m := Merge(l, t.keys[j], r);
      var a, b, d := LeavesOf(t.kids[..j]), Leaves(l) + Leaves(r), LeavesOf(t.kids[j + 2..]);
      assert Leaves(t) == a + b + d by {
        Couple(l, r);
        assert t.kids == t.kids[..j] + [l, r] + t.kids[j + 2..];
        LeavesOfConcat(t.kids[..j] + [l, r], t.kids[j + 2..]);
        LeavesOfConcat(t.kids[..j], [l, r]);
      }
      assert Leaves(MergeAt(t, j)) == a + Leaves(m) + d by {
        Singleton(m);
        LeavesOfConcat(t.kids[..j] + [m], t.kids[j + 2..]);
        LeavesOfConcat(t.kids[..j], [m]);
      }
      ChainMiddle(a, b, d, after);
      MergeLeaves(l, t.keys[j], r, FirstPid(d, after));
      ChainReplace(a, b, d, Leaves(m), after);
    }
  }

  lemma {:induction false} WithKidChain(t: Tree, i: nat, c: Tree, after: int)
    requires t.Inner? && i < |t.kids| && Chained(Leaves(t), after)
    ensures var next := FirstPid(LeavesOf(t.kids[i + 1..]), after);
            && Chained(Leaves(t.kids[i]), next)
            && (Chained(Leaves(c), next) && FirstPid(Leaves(c), next) == FirstPid(Leaves(t.kids[i]), next) ==>
                Chained(Leaves(WithKid(t, i, c)), after) && FirstPid(Leaves(WithKid(t, i, c)), after) == FirstPid(Leaves(t), after))
  {
    var a, b, d := LeavesOf(t.kids[..i]), Leaves(t.kids[i]), LeavesOf(t.kids[i + 1..]);
    ContentsAround(t.kids, i);
    ChainMiddle(a, b, d, after);
    Singleton(c);
    SpliceContents(t.kids, i, [c]);
    var next := FirstPid(d, after);
    if Chained(Leaves(c), next) && FirstPid(Leaves(c), next) == FirstPid(b, next) {
      ChainReplace(a, b, d, Leaves(c), after);
    }
  }

  lemma {:induction false} MergeStepChain(t: Tree, k: Bytes, h: nat, lo: Option<Bytes>, hi: Option<Bytes>, after: int)
    requires t.Inner? && Ordered(t, h, lo, hi) && Aligned(t)
    requires Chained(Leaves(WithKid(t, Route(t.keys, k), DeleteTree(t.kids[Route(t.keys, k)], k))), after)
    ensures var t1 := WithKid(t, Route(t.keys, k), DeleteTree(t.kids[Route(t.keys, k)], k));
            Chained(Leaves(DeleteTree(t, k)), after) && FirstPid(Leaves(DeleteTree(t, k)), after) == FirstPid(Leaves(t1), after)
  {
    var i := Route(t.keys, k);
    var c := DeleteTree(t.kids[i], k);
    if |c.keys| < MIN_KEYS && t.keys != [] {
      SameKind(t, k, h, lo, hi, LeftOfPair(i));
      MergeAtChain(WithKid(t, i, c), LeftOfPair(i), after);
    }
  }

  /** Deletion keeps the forward leaf chain. */
  lemma {:induction false} DeleteChain(t: Tree, k: Bytes, h: nat, lo: Option<Bytes>, hi: Option<Bytes>, after: int)
    requires Ordered(t, h, lo, hi) && Aligned(t) && Chained(Leaves(t), after)
    ensures Chained(Leaves(DeleteTree(t, k)), after)
    ensures FirstPid(Leaves(DeleteTree(t, k)), after) == FirstPid(Leaves(t), after)
    decreases t
  {
    if t.Leaf? {
      assert [t][1..] == [] && [DeleteTree(t, k)][1..] == [];
    } else {
      var i := Route(t.keys, k);
      WithKidChain(t, i, DeleteTree(t.kids[i], k), after);
      DeleteChain(t.kids[i], k, h - 1, LowOf(t.keys, i, lo), HighOf(t.keys, i, hi), FirstPid(LeavesOf(t.kids[i + 1..]), after));
      MergeStepChain(t, k, h, lo, hi, after);
    }
  }

  // ---------- pages ----------

  lemma {:induction false} MergePages(l: Tree, sep: Bytes, r: Tree)
    requires Distinct(l) && Distinct(r) && Footprint(l) !! Footprint(r)
    ensures Distinct(Merge(l, sep, r)) && Footprint(Merge(l, sep, r)) <= Footprint(l) + Footprint(r)
    ensures Merge(l, sep, r).pid == l.pid
  {
    if l.Inner? && r.Inner? {
      FootprintConcat(l.kids, r.kids);
      assert FootprintOf(l.kids) <= Footprint(l) && FootprintOf(r.kids) <= Footprint(r) && l.pid in Footprint(l);
    }
  }

  lemma {:induction false} MergeAtPages(t: Tree, j: nat)
    requires t.Inner? && j < |t.keys| && |t.kids| == |t.keys| + 1 && Distinct(t)
    ensures Distinct(MergeAt(t, j)) && Footprint(MergeAt(t, j)) <= Footprint(t) && MergeAt(t, j).pid == t.pid
  {
    var l, r := t.kids[j], t.kids[j + 1];
    if MergedKeys(l, r) <= MAX_KEYS {
      var m := Merge(l, t.keys[j], r);
      Couple(l, r);
      Singleton(m);
      assert t.kids == t.kids[..j] + [l, r] + t.kids[j + 2..];
      FootprintConcat(t.kids[..j] + [l, r], t.kids[j + 2..]);
      FootprintConcat(t.kids[..j], [l, r]);
      MergePages(l, t.keys[j], r);
      FootprintConcat(t.kids[..j] + [m], t.kids[j + 2..]);
      FootprintConcat(t.kids[..j], [m]);
    }
  }

  lemma {:induction false} WithKidPages(t: Tree, i: nat, c: Tree)
    requires t.Inner? && i < |t.kids| && Distinct(t)
    requires Distinct(c) && Footprint(c) <= Footprint(t.kids[i])
    ensures Distinct(WithKid(t, i, c)) && Footprint(WithKid(t, i, c)) <= Footprint(t)
  {
    assert t.kids == Splice(t.kids, i, [t.kids[i]]);
    Singleton(t.kids[i]);
    Singleton(c);
    SplicePages(t.kids, i, [t.kids[i]]);
    SplicePages(t.kids, i, [c]);
  }

  /** Deletion takes no new page and keeps the pages distinct. */
  lemma {:induction false} DeletePages(t: Tree, k: Bytes)
    requires Aligned(t) && Distinct(t)
    ensures Distinct(DeleteTree(t, k)) && Footprint(DeleteTree(t, k)) <= Footprint(t) && DeleteTree(t, k).pid == t.pid
    decreases t
  {
    if t.Inner? {
      var i := Route(t.keys, k);
      var c := DeleteTree(t.kids[i], k);
      KidPages(t, i, 0);
      DeletePages(t.kids[i], k);
      WithKidPages(t, i, c);
      if |c.keys| < MIN_KEYS && t.keys != [] {
        MergeAtPages(WithKid(t, i, c), LeftOfPair(i));
      }
    }
  }

  // ---------- node sizes and the refused merge ----------

  ghost predicate KidsSized(t: Tree) {
    t.Inner? ==> forall i :: 0 <= i < |t.kids| ==> Sized(t.kids[i])
  }

  /** Number of inner nodes without keys. */
  ghost function EmptyNodes(t: Tree): nat
    decreases t, 0
  {
    if t.Leaf? then 0 else (if t.keys == [] then 1 else 0) + EmptyNodesOf(t.kids)
  }

  ghost function EmptyNodesOf(kids: seq<Tree>): nat
    decreases kids, 1
  {
    if kids == [] then 0 else EmptyNodes(kids[0]) + EmptyNodesOf(kids[1..])
  }

  lemma {:induction false} SizedHasNoEmptyNode(t: Tree)
    requires Sized(t)
    ensures EmptyNodes(t) == 0
    decreases t, 0
  {
    if t.Inner? {
      SizedKidsHaveNoEmptyNode(t.kids);
    }
  }

  lemma {:induction false} SizedKidsHaveNoEmptyNode(kids: seq<Tree>)
    requires forall i :: 0 <= i < |kids| ==> Sized(kids[i])
    ensures EmptyNodesOf(kids) == 0
    decreases kids, 1
  {
    if kids != [] {
      SizedHasNoEmptyNode(kids[0]);
      SizedKidsHaveNoEmptyNode(kids[1..]);
    }
  }

  lemma {:induction false} EmptyNodesSplice(kids: seq<Tree>, i: nat, c: Tree)
    requires i < |kids| && forall x :: 0 <= x < |kids| ==> Sized(kids[x])
    ensures EmptyNodesOf(Splice(kids, i, [c])) == EmptyNodes(c)
  {
    var cs := Splice(kids, i, [c]);
    if i == 0 {
      assert cs[0] == c && cs[1..] == kids[1..];
      SizedKidsHaveNoEmptyNode(kids[1..]);
    } else {
      assert cs[0] == kids[0] && cs[1..] == Splice(kids[1..], i - 1, [c]);
      SizedHasNoEmptyNode(kids[0]);
      EmptyNodesSplice(kids[1..], i - 1, c);
    }
  }

  /** Merging a kid without keys into a sized sibling gives a sized node. */
  lemma {:induction false} MergeSized(l: Tree, sep: Bytes, r: Tree)
    requires l.Leaf? == r.Leaf? && KidsSized(l) && KidsSized(r) && (Sized(l) || Sized(r))
    ensures Sized(Merge(l, sep, r))
  {
    if l.Inner? {
      var cs := l.kids + r.kids;
      assert forall x :: 0 <= x < |cs| ==> cs[x] == if x < |l.kids| then l.kids[x] else r.kids[x - |l.kids|];
    }
  }

  /** t is sized except that kids[i] may have no keys. */
  ghost predicate SizedBut(t: Tree, i: nat) {
    && t.Inner? && i < |t.kids| && KidsSized(t.kids[i])
    && forall x :: 0 <= x < |t.kids| && x != i ==> Sized(t.kids[x])
  }

  lemma {:induction false} MergeAtSized(t: Tree, i: nat, h: nat, lo: Option<Bytes>, hi: Option<Bytes>)
    requires SizedBut(t, i) && |t.keys| >= 1 && |t.kids| == |t.keys| + 1 && Ordered(t, h, lo, hi)
    requires var j := LeftOfPair(i); MergedKeys(t.kids[j], t.kids[j + 1]) <= MAX_KEYS
    ensures KidsSized(MergeAt(t, LeftOfPair(i)))
  {
    var j := LeftOfPair(i);
    var l, r, sep := t.kids[j], t.kids[j + 1], t.keys[j];
    assert Ordered(l, h - 1, LowOf(t.keys, j, lo), HighOf(t.keys, j, hi));
    assert Ordered(r, h - 1, LowOf(t.keys, j + 1, lo), HighOf(t.keys, j + 1, hi));
    MergeSized(l, sep, r);
    var cs := t.kids[..j] + [Merge(l, sep, r)] + t.kids[j + 2..];
    assert forall x :: 0 <= x < |cs| ==> cs[x] == if x < j then t.kids[x] else if x == j then Merge(l, sep, r) else t.kids[x + 1];
  }

  /** One level of DeleteSized: t1 is t after the deletion in kids[i], before any merge. */
  lemma {:induction false} DeleteSizedStep(t: Tree, i: nat, c: Tree, h: nat, lo: Option<Bytes>, hi: Option<Bytes>)
    requires t.Inner? && Sized(t) && i < |t.kids| == |t.keys| + 1 && Ordered(WithKid(t, i, c), h, lo, hi) && KidsSized(c)
    ensures |c.keys| >= MIN_KEYS ==> KidsSized(WithKid(t, i, c))
    ensures |c.keys| < MIN_KEYS ==>
      var t1, j := WithKid(t, i, c), LeftOfPair(i);
      if MergedKeys(t1.kids[j], t1.kids[j + 1]) <= MAX_KEYS then KidsSized(MergeAt(t1, j)) else EmptyNodes(t1) == 1
  {
    var t1, j := WithKid(t, i, c), LeftOfPair(i);
    assert forall x :: 0 <= x < |t1.kids| ==> t1.kids[x] == if x == i then c else t.kids[x];
    if |c.keys| < MIN_KEYS {
      if MergedKeys(t1.kids[j], t1.kids[j + 1]) <= MAX_KEYS {
        MergeAtSized(t1, i, h, lo, hi);
      } else {
        RefusedKidIsInner(t1, i, h, lo, hi);
        SizedKidsHaveNoEmptyNode(c.kids);
        EmptyNodesSplice(t.kids, i, c);
      }
    }
  }

  /**
   * Without a refused merge every node below the root keeps a key. With one, the node itself keeps
   * its keys, and exactly one inner node in the tree is left without keys.
   */
  lemma {:induction false} DeleteSized(t: Tree, k: Bytes, h: nat, lo: Option<Bytes>, hi: Option<Bytes>)
    requires Ordered(t, h, lo, hi) && RootSized(t) && Aligned(t)
    ensures !Refused(t, k) ==> KidsSized(DeleteTree(t, k))
    ensures Refused(t, k) ==> DeleteTree(t, k).keys == t.keys && EmptyNodes(DeleteTree(t, k)) == 1
    decreases t
  {
    if t.Inner? {
      var i := Route(t.keys, k);
      var c := DeleteTree(t.kids[i], k);
      DeleteSized(t.kids[i], k, h - 1, LowOf(t.keys, i, lo), HighOf(t.keys, i, hi));
      if Refused(t.kids[i], k) {
        EmptyNodesSplice(t.kids, i, c);
      } else {
        DeleteOrdered(t.kids[i], k, h - 1, LowOf(t.keys, i, lo), HighOf(t.keys, i, hi));
        WithKidOrdered(t, i, c, h, lo, hi);
        DeleteSizedStep(t, i, c, h, lo, hi);
      }
    }
  }

  /** Only inner nodes are refused: two leaves always fit in one when one of them is empty. */
  lemma {:induction false} RefusedKidIsInner(t: Tree, i: nat, h: nat, lo: Option<Bytes>, hi: Option<Bytes>)
    requires t.Inner? && Ordered(t, h, lo, hi) && |t.kids| == |t.keys| + 1 && |t.keys| >= 1
    requires i < |t.kids| && t.kids[i].keys == []
    requires var j := LeftOfPair(i); MergedKeys(t.kids[j], t.kids[j + 1]) > MAX_KEYS
    ensures t.kids[i].Inner?
  {
    var j := LeftOfPair(i);
    assert Ordered(t.kids[j], h - 1, LowOf(t.keys, j, lo), HighOf(t.keys, j, hi));
    assert Ordered(t.kids[j + 1], h - 1, LowOf(t.keys, j + 1, lo), HighOf(t.keys, j + 1, hi));
  }

  // ---------- the refusal foreseen ----------

  /** The sibling that the kid merges with when it underflows. */
  function SiblingOf(i: nat): nat {
    if i > 0 then i - 1 else 1
  }

  /** An emptied kid fits into this sibling: always among leaves, below the limit among inner nodes. */
  predicate HasRoom(sibling: Tree) {
    sibling.Leaf? || |sibling.keys| < MAX_KEYS
  }

  /**
   * Deleting k takes the node's last key, read off the tree as it is: the leaf on k's path holds k
   * alone, and every node above it has a single key and a sibling with room beside the path.
   */
  ghost predicate RunsEmpty(t: Tree, k: Bytes)
    requires Aligned(t)
  {
    match t
    case Leaf(_, keys, _, _, _) => keys == [k]
    case Inner(_, keys, kids, _, _) =>
      var i := Route(keys, k);
      |keys| == 1 && RunsEmpty(kids[i], k) && HasRoom(kids[SiblingOf(i)])
  }

  /** Somewhere on k's path a kid runs empty beside an inner sibling that is full. */
  ghost predicate WillRefuse(t: Tree, k: Bytes)
    requires Aligned(t)
  {
    t.Inner? && t.keys != [] &&
    var i := Route(t.keys, k);
    WillRefuse(t.kids[i], k) || (RunsEmpty(t.kids[i], k) && !HasRoom(t.kids[SiblingOf(i)]))
  }

  /** The pair that a kid and its sibling form, before the merge. */
  lemma {:induction false} PairBeside(t: Tree, i: nat, c: Tree, h: nat, lo: Option<Bytes>, hi: Option<Bytes>)
    requires t.Inner? && Ordered(t, h, lo, hi) && t.keys != [] && i < |t.kids| == |t.keys| + 1
    requires c.Leaf? == t.kids[i].Leaf? && c.keys == []
    ensures var t1, j, s := WithKid(t, i, c), LeftOfPair(i), t.kids[SiblingOf(i)];
            && s.Leaf? == c.Leaf? && (MergedKeys(t1.kids[j], t1.kids[j + 1]) > MAX_KEYS <==> !HasRoom(s))
  {
    var j, t1 := LeftOfPair(i), WithKid(t, i, c);
    assert Ordered(t.kids[j], h - 1, LowOf(t.keys, j, lo), HighOf(t.keys, j, hi));
    assert Ordered(t.kids[j + 1], h - 1, LowOf(t.keys, j + 1, lo), HighOf(t.keys, j + 1, hi));
    assert t1.kids[i] == c && t1.kids[SiblingOf(i)] == t.kids[SiblingOf(i)];
  }

  /** The deletion takes a node's last key exactly when RunsEmpty says so. */
  lemma {:induction false} RunsEmptyIs(t: Tree, k: Bytes, h: nat, lo: Option<Bytes>, hi: Option<Bytes>)
    requires Ordered(t, h, lo, hi) && Sized(t) && Aligned(t)
    ensures DeleteTree(t, k).keys == [] <==> RunsEmpty(t, k)
    ensures DeleteTree(t, k).Leaf? == t.Leaf?
    decreases t
  {
    if t.Inner? {
      var i := Route(t.keys, k);
      var c := DeleteTree(t.kids[i], k);
      RunsEmptyIs(t.kids[i], k, h - 1, LowOf(t.keys, i, lo), HighOf(t.keys, i, hi));
      if c.keys == [] {
        PairBeside(t, i, c, h, lo, hi);
      }
    } else {
      var i := IndexOf(t.keys, k);
      if i >= 0 && |t.keys| == 1 {
        assert t.keys == [t.keys[0]];
      }
    }
  }

  /** A merge is refused exactly when the tree before the call says so. */
  lemma {:induction false} RefusalForeseen(t: Tree, k: Bytes, h: nat, lo: Option<Bytes>, hi: Option<Bytes>)
    requires Ordered(t, h, lo, hi) && RootSized(t) && Aligned(t)
    ensures Refused(t, k) <==> WillRefuse(t, k)
    decreases t
  {
    if t.Inner? {
      var i := Route(t.keys, k);
      var c := DeleteTree(t.kids[i], k);
      RefusalForeseen(t.kids[i], k, h - 1, LowOf(t.keys, i, lo), HighOf(t.keys, i, hi));
      RunsEmptyIs(t.kids[i], k, h - 1, LowOf(t.keys, i, lo), HighOf(t.keys, i, hi));
      if c.keys == [] {
        PairBeside(t, i, c, h, lo, hi);
      }
    }
  }

  // ---------- what lookups answer afterwards ----------

  lemma {:induction false} FindGivesUp(t: Tree, k: Bytes)
    requires Aligned(t) && !PathSized(t, k)
    ensures Find(t, k) == None
  {
    if t.keys != [] {
      FindGivesUp(t.kids[Route(t.keys, k)], k);
    }
  }

  /** An entry's key is routed to the kid that holds it. */
  lemma {:induction false} RouteFindsKid(t: Tree, h: nat, lo: Option<Bytes>, hi: Option<Bytes>, i: nat, e: Entry)
    requires t.Inner? && Ordered(t, h, lo, hi) && |t.kids| == |t.keys| + 1 && i < |t.kids| && e in Entries(t.kids[i])
    ensures Route(t.keys, e.key) == i
  {
    EntriesBounded(t.kids[i], h - 1, LowOf(t.keys, i, lo), HighOf(t.keys, i, hi));
    LessIsStrictTotalOrder();
    assert i > 0 ==> !Less(e.key, t.keys[i - 1]);
    assert i < |t.keys| ==> Less(e.key, t.keys[i]);
  }

  lemma {:induction false} SizedHasEntry(t: Tree, h: nat, lo: Option<Bytes>, hi: Option<Bytes>)
    requires Ordered(t, h, lo, hi) && Sized(t)
    ensures Entries(t) != []
    decreases t
  {
    if t.Inner? {
      SizedHasEntry(t.kids[0], h - 1, LowOf(t.keys, 0, lo), HighOf(t.keys, 0, hi));
    }
  }

  /** An entry out of reach below kids[i] is out of reach from t. */
  lemma {:induction false} LostInKid(t: Tree, i: nat, h: nat, lo: Option<Bytes>, hi: Option<Bytes>, e: Entry)
    requires t.Inner? && Ordered(t, h, lo, hi) && |t.kids| == |t.keys| + 1 && i < |t.kids|
    requires e in Entries(t.kids[i]) && !PathSized(t.kids[i], e.key)
    ensures e in Entries(t) && !PathSized(t, e.key)
  {
    ContentsAround(t.kids, i);
    RouteFindsKid(t, h, lo, hi, i, e);
  }

  lemma {:induction false} LostInEmpty(c: Tree, h: nat, lo: Option<Bytes>, hi: Option<Bytes>) returns (e: Entry)
    requires c.Inner? && c.keys == [] && Ordered(c, h, lo, hi) && KidsSized(c)
    ensures e in Entries(c) && !PathSized(c, e.key)
  {
    SizedHasEntry(c.kids[0], h - 1, LowOf(c.keys, 0, lo), HighOf(c.keys, 0, hi));
    ContentsAround(c.kids, 0);
    e := Entries(c.kids[0])[0];
  }

  lemma {:induction false} LostStep(t: Tree, k: Bytes, h: nat, lo: Option<Bytes>, hi: Option<Bytes>, e: Entry)
    requires Ordered(t, h, lo, hi) && RootSized(t) && Aligned(t) && t.Inner?
    requires var i := Route(t.keys, k);
             var c := DeleteTree(t.kids[i], k);
             && e in Entries(c) && !PathSized(c, e.key)
             && DeleteTree(t, k) == WithKid(t, i, c)
    ensures e in Entries(DeleteTree(t, k)) && !PathSized(DeleteTree(t, k), e.key)
  {
    var i := Route(t.keys, k);
    DeleteOrdered(t, k, h, lo, hi);
    assert DeleteTree(t, k).kids[i] == DeleteTree(t.kids[i], k);
    LostInKid(DeleteTree(t, k), i, h, lo, hi, e);
  }

  lemma {:induction false} EmptiedKid(t: Tree, k: Bytes, h: nat, lo: Option<Bytes>, hi: Option<Bytes>)
    requires Ordered(t, h, lo, hi) && RootSized(t) && Aligned(t) && Refused(t, k) && !Refused(t.kids[Route(t.keys, k)], k)
    ensures var i := Route(t.keys, k);
            var c := DeleteTree(t.kids[i], k);
            c.Inner? && c.keys == [] && Ordered(c, h - 1, LowOf(t.keys, i, lo), HighOf(t.keys, i, hi))
  {
    var i := Route(t.keys, k);
    var c := DeleteTree(t.kids[i], k);
    DeleteOrdered(t.kids[i], k, h - 1, LowOf(t.keys, i, lo), HighOf(t.keys, i, hi));
    SameKind(t, k, h, lo, hi, LeftOfPair(i));
    assert WithKid(t, i, c).kids[i] == c;
  }

  /** The refused merge is the one at t: the kid on the path has lost all its keys. */
  lemma {:induction false} LostHere(t: Tree, k: Bytes, h: nat, lo: Option<Bytes>, hi: Option<Bytes>) returns (e: Entry)
    requires Ordered(t, h, lo, hi) && RootSized(t) && Aligned(t) && Refused(t, k) && !Refused(t.kids[Route(t.keys, k)], k)
    ensures var c := DeleteTree(t.kids[Route(t.keys, k)], k); e in Entries(c) && !PathSized(c, e.key)
  {
    var i := Route(t.keys, k);
    EmptiedKid(t, k, h, lo, hi);
    DeleteSized(t.kids[i], k, h - 1, LowOf(t.keys, i, lo), HighOf(t.keys, i, hi));
    e := LostInEmpty(DeleteTree(t.kids[i], k), h - 1, LowOf(t.keys, i, lo), HighOf(t.keys, i, hi));
  }

  /** Whether the merge is refused here or further down, nothing is merged here. */
  lemma {:induction false} RefusedIsNotMerged(t: Tree, k: Bytes, h: nat, lo: Option<Bytes>, hi: Option<Bytes>)
    requires Ordered(t, h, lo, hi) && RootSized(t) && Aligned(t) && Refused(t, k)
    ensures var i := Route(t.keys, k);
            DeleteTree(t, k) == WithKid(t, i, DeleteTree(t.kids[i], k)) && Ordered(t.kids[i], h - 1, LowOf(t.keys, i, lo), HighOf(t.keys, i, hi)) && RootSized(t.kids[i])
  {
    var i := Route(t.keys, k);
    if Refused(t.kids[i], k) {
      DeleteSized(t.kids[i], k, h - 1, LowOf(t.keys, i, lo), HighOf(t.keys, i, hi));
    }
  }

  /** After a refused merge some stored key is out of reach. */
  lemma {:induction false} RefusedLosesKey(t: Tree, k: Bytes, h: nat, lo: Option<Bytes>, hi: Option<Bytes>) returns (e: Entry)
    requires Ordered(t, h, lo, hi) && RootSized(t) && Aligned(t) && Refused(t, k)
    ensures e in Entries(DeleteTree(t, k)) && !PathSized(DeleteTree(t, k), e.key)
    decreases t
  {
    var i := Route(t.keys, k);
    RefusedIsNotMerged(t, k, h, lo, hi);
    if Refused(t.kids[i], k) {
      e := RefusedLosesKey(t.kids[i], k, h - 1, LowOf(t.keys, i, lo), HighOf(t.keys, i, hi));
    } else {
      e := LostHere(t, k, h, lo, hi);
    }
    LostStep(t, k, h, lo, hi, e);
  }

  // ---------- the whole tree ----------

  /** The tree a deletion leaves behind, the root shrunk if it lost its last key. */
  ghost function AfterDelete(t: Tree, k: Bytes): Tree
    requires Aligned(t)
  {
    ShrinkRoot(DeleteTree(t, k))
  }

  ghost function HeightAfter(t: Tree, k: Bytes, h: nat): nat
    requires Aligned(t)
  {
    if h > 0 && DeleteTree(t, k).keys == [] then h - 1 else h
  }

  lemma {:induction false} ShrinkOrdered(t: Tree, h: nat)
    requires Ordered(t, h, None, None)
    ensures Ordered(ShrinkRoot(t), if h > 0 && t.keys == [] then h - 1 else h, None, None)
    ensures Entries(ShrinkRoot(t)) == Entries(t) && Leaves(ShrinkRoot(t)) == Leaves(t)
    ensures Footprint(ShrinkRoot(t)) <= Footprint(t) && (Distinct(t) ==> Distinct(ShrinkRoot(t)))
  {
    if t.Inner? && t.keys == [] {
      assert Ordered(t.kids[0], h - 1, LowOf(t.keys, 0, None), HighOf(t.keys, 0, None));
      assert t.kids == [t.kids[0]];
      Singleton(t.kids[0]);
      KidPages(t, 0, 0);
    }
  }

  /**
   * Deletion from an ordered tree removes exactly k from the contents and keeps search order, equal
   * leaf depth, distinct pages and the leaf chain. If every node had a key, that stays so exactly
   * when no merge is refused; otherwise exactly one inner node has no keys.
   */
  lemma {:induction false} DeleteSound(t: Tree, k: Bytes, h: nat)
    requires Ordered(t, h, None, None) && Aligned(t) && Distinct(t) && Chained(Leaves(t), NO_PAGE)
    ensures var t' := AfterDelete(t, k);
            && Ordered(t', HeightAfter(t, k, h), None, None)
            && Distinct(t') && Footprint(t') <= Footprint(t) && Chained(Leaves(t'), NO_PAGE)
            && Entries(t') == Remove(Entries(t), k) && MapOf(Entries(t')) == MapOf(Entries(t)) - {k}
    ensures RootSized(t) ==> (RootSized(AfterDelete(t, k)) <==> !WillRefuse(t, k))
    ensures RootSized(t) && WillRefuse(t, k) ==> EmptyNodes(AfterDelete(t, k)) == 1
  {
    DeleteOrdered(t, k, h, None, None);
    DeleteEntries(t, k, h, None, None);
    DeleteChain(t, k, h, None, None, NO_PAGE);
    DeletePages(t, k);
    ShrinkOrdered(DeleteTree(t, k), h);
    EntriesBounded(t, h, None, None);
    MapOfRemove(Entries(t), k);
    if RootSized(t) {
      RefusalForeseen(t, k, h, None, None);
      DeleteRootSized(t, k, h);
    }
  }

  lemma {:induction false} DeleteRootSized(t: Tree, k: Bytes, h: nat)
    requires Ordered(t, h, None, None) && RootSized(t) && Aligned(t)
    ensures RootSized(AfterDelete(t, k)) <==> !Refused(t, k)
    ensures Refused(t, k) ==> EmptyNodes(AfterDelete(t, k)) == 1
  {
    DeleteSized(t, k, h, None, None);
    DeleteOrdered(t, k, h, None, None);
    var t' := AfterDelete(t, k);
    if Refused(t, k) && Sized(t') {
      SizedHasNoEmptyNode(t');
    }
  }

  /** Every lookup after a deletion: the updated map, except below a node that has lost its keys. */
  lemma {:induction false} DeleteLookup(t: Tree, k: Bytes, h: nat, q: Bytes)
    requires Ordered(t, h, None, None) && Aligned(t)
    ensures Find(AfterDelete(t, k), q) ==
            if PathSized(AfterDelete(t, k), q) then Get(MapOf(Entries(t)) - {k}, q) else None
  {
    var t' := AfterDelete(t, k);
    DeleteOrdered(t, k, h, None, None);
    ShrinkOrdered(DeleteTree(t, k), h);
    DeleteEntries(t, k, h, None, None);
    EntriesBounded(t, h, None, None);
    MapOfRemove(Entries(t), k);
    if PathSized(t', q) {
      FindIsGet(t', HeightAfter(t, k, h), None, None, q);
    } else {
      OrderedAligned(t', HeightAfter(t, k, h), None, None);
      FindGivesUp(t', q);
    }
  }

  /**
   * Lookups agree with the map without k for every key exactly when, in the tree before the call, no
   * kid on the path runs empty beside a full inner sibling.
   */
  lemma {:induction false} DeleteExact(t: Tree, k: Bytes, h: nat)
    requires Ordered(t, h, None, None) && RootSized(t) && Aligned(t)
    ensures (forall q :: Find(AfterDelete(t, k), q) == Get(MapOf(Entries(t)) - {k}, q)) <==> !WillRefuse(t, k)
  {
    RefusalForeseen(t, k, h, None, None);
    DeleteRootSized(t, k, h);
    if Refused(t, k) {
      var e := RefusedLosesKey(t, k, h, None, None);
      DeleteSized(t, k, h, None, None);
      DeleteEntries(t, k, h, None, None);
      EntriesBounded(t, h, None, None);
      MapOfRemove(Entries(t), k);
      MapOfKeys(Remove(Entries(t), k), e.key);
      DeleteLookup(t, k, h, e.key);
      assert Find(AfterDelete(t, k), e.key) != Get(MapOf(Entries(t)) - {k}, e.key);
    } else {
      forall q ensures Find(AfterDelete(t, k), q) == Get(MapOf(Entries(t)) - {k}, q) {
        SizedPath(AfterDelete(t, k), q);
        DeleteLookup(t, k, h, q);
      }
    }
  }

  // ---------- a deletion whose merge is refused ----------

  function OneKeyLeaf(pid: int, b: Byte, next: int): Tree {
    Leaf(pid, [[b]], [[]], next, NO_PAGE)
  }

  function SmallKid(): Tree {
    Inner(20, [[2]], [OneKeyLeaf(1, 1, 2), OneKeyLeaf(2, 2, 3)], 21, NO_PAGE)
  }

  function FullKid(): Tree {
    Inner(21, [[4], [5], [6]],
          [OneKeyLeaf(3, 3, 4), OneKeyLeaf(4, 4, 5), OneKeyLeaf(5, 5, 6), OneKeyLeaf(6, 6, NO_PAGE)], NO_PAGE, 20)
  }

  /** Two inner kids: a small one with leaves 1 and 2, and a full one with leaves 3 to 6. */
  function LopsidedTree(): Tree {
    Inner(30, [[3]], [SmallKid(), FullKid()], NO_PAGE, NO_PAGE)
  }

  lemma {:induction false} SingleByteOrder()
    ensures forall a: Byte, b: Byte :: Less([a], [b]) <==> a < b
  {
  }

  lemma {:induction false} OneKeyOrdered(pid: int, b: Byte, next: int, lo: Option<Bytes>, hi: Option<Bytes>)
    requires AtLeast(lo, [b]) && Below([b], hi)
    ensures Ordered(OneKeyLeaf(pid, b, next), 0, lo, hi) && Sized(OneKeyLeaf(pid, b, next))
  {
  }

  lemma {:induction false} SmallKidFine()
    ensures Ordered(SmallKid(), 1, None, Some([3])) && Sized(SmallKid())
  {
    SingleByteOrder();
    OneKeyOrdered(1, 1, 2, None, Some([2]));
    OneKeyOrdered(2, 2, 3, Some([2]), Some([3]));
  }

  lemma {:induction false} FullKidFine()
    ensures Ordered(FullKid(), 1, Some([3]), None) && Sized(FullKid())
  {
    SingleByteOrder();
    OneKeyOrdered(3, 3, 4, Some([3]), Some([4]));
    OneKeyOrdered(4, 4, 5, Some([4]), Some([5]));
    OneKeyOrdered(5, 5, 6, Some([5]), Some([6]));
    OneKeyOrdered(6, 6, NO_PAGE, Some([6]), None);
  }

  lemma {:induction false} SmallKidEmptied()
    requires Aligned(SmallKid())
    ensures RootSized(SmallKid()) && !Refused(SmallKid(), [1]) && DeleteTree(SmallKid(), [1]).keys == []
  {
    SmallKidFine();
    SingleByteOrder();
    var t := SmallKid();
    assert Route(t.keys, [1]) == 0;
    assert DeleteTree(t.kids[0], [1]).keys == [];
  }

  /**
   * Deleting key 1 from this well-formed tree empties the small kid, which the full one cannot
   * take in; so some other stored key is lost to lookups.
   */
  lemma {:induction false} RefusalHappens()
    ensures var t := LopsidedTree();
            && Ordered(t, 2, None, None) && RootSized(t) && Aligned(t) && WillRefuse(t, [1])
            && exists q :: Find(AfterDelete(t, [1]), q) != Get(MapOf(Entries(t)) - {[1]}, q)
  {
    var t := LopsidedTree();
    SmallKidFine();
    FullKidFine();
    SingleByteOrder();
    OrderedAligned(t, 2, None, None);
    SmallKidEmptied();
    assert Route(t.keys, [1]) == 0 && t.kids[0] == SmallKid();
    assert WithKid(t, 0, DeleteTree(SmallKid(), [1])).kids[1] == FullKid();
    DeleteExact(t, [1], 2);
  }
}
