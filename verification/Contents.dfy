/** Sorted entry lists, the finite map they denote, and how a tree's shape bounds its entries. */
module Contents {
  import opened ByteStrings
  import opened Tree

  predicate SortedEntries(s: seq<Entry>) {
    forall i, j :: 0 <= i < j < |s| ==> Less(s[i].key, s[j].key)
  }

  function MapOf(s: seq<Entry>): map<Bytes, Bytes> {
    if s == [] then map[] else MapOf(s[1..])[s[0].key := s[0].val]
  }

  function Get(m: map<Bytes, Bytes>, k: Bytes): Option<Bytes> {
    if k in m then Some(m[k]) else None
  }

  /** Inserts or overwrites k in a sorted list. */
  function Upsert(s: seq<Entry>, k: Bytes, v: Bytes): seq<Entry> {
    if s == [] then [Entry(k, v)]
    else if s[0].key == k then [Entry(k, v)] + s[1..]
    else if Less(k, s[0].key) then [Entry(k, v)] + s
    else [s[0]] + Upsert(s[1..], k, v)
  }

  function Remove(s: seq<Entry>, k: Bytes): seq<Entry> {
    if s == [] then []
    else if s[0].key == k then s[1..]
    else [s[0]] + Remove(s[1..], k)
  }

  ghost predicate AllBelow(s: seq<Entry>, k: Bytes) {
    forall e :: e in s ==> Less(e.key, k)
  }

  ghost predicate AllAtLeast(lo: Option<Bytes>, s: seq<Entry>) {
    forall e :: e in s ==> AtLeast(lo, e.key)
  }

  ghost predicate AllAbove(k: Bytes, s: seq<Entry>) {
    forall e :: e in s ==> Less(k, e.key)
  }

  lemma {:induction false} MapOfUpsert(s: seq<Entry>, k: Bytes, v: Bytes)
    ensures MapOf(Upsert(s, k, v)) == MapOf(s)[k := v]
  {
    if s != [] && s[0].key != k && !Less(k, s[0].key) {
      MapOfUpsert(s[1..], k, v);
      assert Upsert(s, k, v)[1..] == Upsert(s[1..], k, v);
    } else if s != [] {
      assert Upsert(s, k, v)[1..] == if s[0].key == k then s[1..] else s;
    }
  }

  lemma {:induction false} MapOfKeys(s: seq<Entry>, k: Bytes)
    ensures k in MapOf(s) <==> exists e :: e in s && e.key == k
  {
    if s != [] {
      MapOfKeys(s[1..], k);
      assert s == [s[0]] + s[1..];
      if s[0].key == k {
        assert s[0] in s;
      }
    }
  }

  lemma {:induction false} MapOfRemove(s: seq<Entry>, k: Bytes)
    requires SortedEntries(s)
    ensures MapOf(Remove(s, k)) == MapOf(s) - {k}
  {
    if s != [] {
      if s[0].key == k {
        LessIsStrictTotalOrder();
        MapOfKeys(s[1..], k);
        assert forall e :: e in s[1..] ==> Less(k, e.key);
      } else {
        MapOfRemove(s[1..], k);
        assert Remove(s, k)[1..] == Remove(s[1..], k);
      }
    }
  }

  lemma {:induction false} UpsertFront(b: seq<Entry>, c: seq<Entry>, k: Bytes, v: Bytes)
    requires AllAbove(k, c)
    ensures Upsert(b + c, k, v) == Upsert(b, k, v) + c
  {
    if b == [] {
      assert b + c == c;
      if c != [] {
        assert c[0] in c;
        LessTrichotomy(k, k);
      }
    } else {
      assert (b + c)[1..] == b[1..] + c;
      UpsertFront(b[1..], c, k, v);
    }
  }

  /** Only the middle part of a list matters to a key that the outer parts exclude. */
  lemma {:induction false} UpsertMiddle(a: seq<Entry>, b: seq<Entry>, c: seq<Entry>, k: Bytes, v: Bytes)
    requires AllBelow(a, k) && AllAbove(k, c)
    ensures Upsert(a + b + c, k, v) == a + Upsert(b, k, v) + c
  {
    if a == [] {
      assert a + b + c == b + c && a + Upsert(b, k, v) + c == Upsert(b, k, v) + c;
      UpsertFront(b, c, k, v);
    } else {
      assert (a + b + c)[1..] == a[1..] + b + c;
      assert a[0] in a;
      LessTrichotomy(a[0].key, k);
      UpsertMiddle(a[1..], b, c, k, v);
    }
  }

  lemma {:induction false} RemoveMiddle(a: seq<Entry>, b: seq<Entry>, c: seq<Entry>, k: Bytes)
    requires AllBelow(a, k) && AllAbove(k, c)
    ensures Remove(a + b + c, k) == a + Remove(b, k) + c
    decreases |a|, |b|
  {
    LessIsStrictTotalOrder();
    var s := a + b + c;
    if a != [] {
      assert s[1..] == a[1..] + b + c;
      assert a[0] in a;
      RemoveMiddle(a[1..], b, c, k);
    } else if b != [] && b[0].key != k {
      assert s[1..] == a + b[1..] + c;
      RemoveMiddle(a, b[1..], c, k);
    } else if b == [] {
      assert s == c;
      RemoveAbsent(c, k);
    } else {
      assert s[1..] == b[1..] + c;
    }
  }

  lemma {:induction false} RemoveAbsent(s: seq<Entry>, k: Bytes)
    requires forall e :: e in s ==> e.key != k
    ensures Remove(s, k) == s
  {
    if s != [] {
      assert s[0] in s;
      RemoveAbsent(s[1..], k);
    }
  }

  lemma {:induction false} GetMiddle(a: seq<Entry>, b: seq<Entry>, c: seq<Entry>, k: Bytes)
    requires AllBelow(a, k) && AllAbove(k, c)
    ensures Get(MapOf(a + b + c), k) == Get(MapOf(b), k)
    decreases |a|, |b|
  {
    LessIsStrictTotalOrder();
    var s := a + b + c;
    if a != [] {
      assert s[1..] == a[1..] + b + c;
      assert a[0] in a;
      GetMiddle(a[1..], b, c, k);
    } else if b != [] {
      assert s[1..] == a + b[1..] + c;
      GetMiddle(a, b[1..], c, k);
    } else {
      assert s == c;
      MapOfKeys(c, k);
    }
  }

  // ---------- entries of an ordered tree ----------

  lemma {:induction false} EntriesBounded(t: Tree, h: nat, lo: Option<Bytes>, hi: Option<Bytes>)
    requires Ordered(t, h, lo, hi)
    ensures SortedEntries(Entries(t))
    ensures AllAtLeast(lo, Entries(t))
    ensures hi.Some? ==> AllBelow(Entries(t), hi.value)
    decreases t, 0
  {
    if t.Inner? {
      KidsBounded(t.keys, t.kids, h - 1, lo, hi, |t.kids|);
      assert t.kids[..|t.kids|] == t.kids;
      if hi.Some? {
        LessIsStrictTotalOrder();
      }
    }
  }

  /** The entries of the first i kids are sorted, at least lo, and below the next separator. */
  lemma {:induction false} KidsBounded(keys: seq<Bytes>, kids: seq<Tree>, h: nat, lo: Option<Bytes>, hi: Option<Bytes>, i: nat)
    requires NodeOrdered(keys, kids, h, lo, hi) && i <= |kids|
    ensures SortedEntries(EntriesOf(kids[..i]))
    ensures AllAtLeast(lo, EntriesOf(kids[..i]))
    ensures i > 0 && HighOf(keys, i - 1, hi).Some? ==> AllBelow(EntriesOf(kids[..i]), HighOf(keys, i - 1, hi).value)
    decreases kids, i
  {
    if i == 0 {
    } else {
      var j := i - 1;
      KidsBounded(keys, kids, h, lo, hi, j);
      EntriesBounded(kids[j], h, LowOf(keys, j, lo), HighOf(keys, j, hi));
      ContentsAround(kids[..i], j);
      assert kids[..i][..j] == kids[..j] && kids[..i][j] == kids[j] && kids[..i][i..] == [];
      var a, b := EntriesOf(kids[..j]), Entries(kids[j]);
      assert EntriesOf(kids[..i]) == a + b;
      BoundedConcat(a, b, keys, lo, hi, j);
    }
  }

  lemma {:induction false} BoundedConcat(a: seq<Entry>, b: seq<Entry>, keys: seq<Bytes>, lo: Option<Bytes>, hi: Option<Bytes>, j: nat)
    requires j <= |keys| && SepsOrdered(keys, lo, hi)
    requires SortedEntries(a) && SortedEntries(b) && AllAtLeast(lo, a) && AllAtLeast(LowOf(keys, j, lo), b)
    requires j > 0 ==> AllBelow(a, keys[j - 1])
    requires j == 0 ==> a == []
    requires HighOf(keys, j, hi).Some? ==> AllBelow(b, HighOf(keys, j, hi).value)
    ensures SortedEntries(a + b) && AllAtLeast(lo, a + b)
    ensures HighOf(keys, j, hi).Some? ==> AllBelow(a + b, HighOf(keys, j, hi).value)
  {
    LessIsStrictTotalOrder();
    if j > 0 {
      forall x, y | x in a && y in b ensures Less(x.key, y.key) {
        assert Less(x.key, keys[j - 1]) && !Less(y.key, keys[j - 1]);
      }
    }
    forall x, y | 0 <= x < y < |a + b| ensures Less((a + b)[x].key, (a + b)[y].key) {
      if x < |a| <= y {
        assert a[x] in a && b[y - |a|] in b;
      }
    }
  }

  /** The entries of kids[i..] are at least the separator before them. */
  lemma {:induction false} KidsAtLeast(keys: seq<Bytes>, kids: seq<Tree>, h: nat, lo: Option<Bytes>, hi: Option<Bytes>, i: nat)
    requires NodeOrdered(keys, kids, h, lo, hi) && i < |kids|
    ensures AllAtLeast(LowOf(keys, i, lo), EntriesOf(kids[i..]))
    decreases |kids| - i
  {
    EntriesBounded(kids[i], h, LowOf(keys, i, lo), HighOf(keys, i, hi));
    var s := kids[i..];
    assert s[0] == kids[i] && s[1..] == kids[i + 1..];
    if i + 1 < |kids| {
      KidsAtLeast(keys, kids, h, lo, hi, i + 1);
      LessIsStrictTotalOrder();
    }
  }

  /** Outside the kid a key is routed to, all entries are on the expected side of the key. */
  lemma {:induction false} RouteSeparates(keys: seq<Bytes>, kids: seq<Tree>, h: nat, lo: Option<Bytes>, hi: Option<Bytes>, k: Bytes)
    requires NodeOrdered(keys, kids, h, lo, hi)
    ensures AllBelow(EntriesOf(kids[..Route(keys, k)]), k)
    ensures AllAbove(k, EntriesOf(kids[Route(keys, k) + 1..]))
    ensures AtLeast(lo, k) ==> AtLeast(LowOf(keys, Route(keys, k), lo), k)
    ensures Below(k, hi) ==> Below(k, HighOf(keys, Route(keys, k), hi))
  {
    LessIsStrictTotalOrder();
    var i := Route(keys, k);
    if i > 0 {
      KidsBounded(keys, kids, h, lo, hi, i);
      assert !Less(k, keys[i - 1]);
    }
    if i < |keys| {
      KidsAtLeast(keys, kids, h, lo, hi, i + 1);
    }
  }

  // ---------- lookup ----------

  /** Every inner node on the search path of k has a key. */
  ghost predicate PathSized(t: Tree, k: Bytes) {
    t.Inner? ==> t.keys != [] && (Route(t.keys, k) < |t.kids| ==> PathSized(t.kids[Route(t.keys, k)], k))
  }

  lemma {:induction false} SizedPath(t: Tree, k: Bytes)
    requires RootSized(t)
    ensures PathSized(t, k)
  {
    if t.Inner? && Route(t.keys, k) < |t.kids| {
      SizedPath(t.kids[Route(t.keys, k)], k);
    }
  }

  lemma {:induction false} LeafLookup(t: Tree, lo: Option<Bytes>, hi: Option<Bytes>, k: Bytes)
    requires t.Leaf? && Ordered(t, 0, lo, hi)
    ensures Find(t, k) == Get(MapOf(Entries(t)), k)
  {
    EntriesBounded(t, 0, lo, hi);
    var es, i := Entries(t), IndexOf(t.keys, k);
    MapOfKeys(es, k);
    if i >= 0 {
      assert es[i] in es;
      MapOfSortedAt(es, i);
    } else {
      forall e | e in es ensures e.key != k {
        var j :| 0 <= j < |es| && es[j] == e;
        assert t.keys[j] == e.key;
      }
    }
  }

  lemma {:induction false} MapOfSortedAt(s: seq<Entry>, i: nat)
    requires SortedEntries(s) && i < |s|
    ensures s[i].key in MapOf(s) && MapOf(s)[s[i].key] == s[i].val
  {
    if i > 0 {
      LessIsStrictTotalOrder();
      MapOfSortedAt(s[1..], i - 1);
      assert Less(s[0].key, s[i].key);
    }
  }

  /** A lookup whose path meets no empty inner node answers what the contents say. */
  lemma {:induction false} FindIsGet(t: Tree, h: nat, lo: Option<Bytes>, hi: Option<Bytes>, k: Bytes)
    requires Ordered(t, h, lo, hi) && PathSized(t, k)
    ensures Find(t, k) == Get(MapOf(Entries(t)), k)
    decreases t
  {
    if t.Leaf? {
      LeafLookup(t, lo, hi, k);
    } else {
      var i := Route(t.keys, k);
      FindIsGet(t.kids[i], h - 1, LowOf(t.keys, i, lo), HighOf(t.keys, i, hi), k);
      ContentsAround(t.kids, i);
      RouteSeparates(t.keys, t.kids, h - 1, lo, hi, k);
      GetMiddle(EntriesOf(t.kids[..i]), Entries(t.kids[i]), EntriesOf(t.kids[i + 1..]), k);
    }
  }
}
