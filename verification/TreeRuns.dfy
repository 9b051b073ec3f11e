/** Whole runs of insertions and deletions on an initially empty tree, against a map. */
module TreeRuns {
  import opened ByteStrings
  import opened Tree
  import opened Contents
  import opened TreeInsert
  import opened TreeDelete

  datatype Op = Put(key: Bytes, value: Bytes) | Drop(key: Bytes)

  datatype Snapshot = Snapshot(tree: Tree, free: int, height: nat)

  ghost predicate Shaped(a: Snapshot) {
    && Ordered(a.tree, a.height, None, None) && Aligned(a.tree)
    && Distinct(a.tree) && PagesBelow(a.tree, a.free) && 0 <= a.free && Chained(Leaves(a.tree), NO_PAGE)
  }

  /** All of that, and no node without keys. */
  ghost predicate Good(a: Snapshot) {
    Shaped(a) && RootSized(a.tree)
  }

  /**
   * One operation. A deletion whose path meets a node without keys is left out: there the code would
   * take page 0 for a sibling.
   */
  ghost function Step(a: Snapshot, op: Op): Snapshot {
    if !Shaped(a) then a
    else
      match op
      case Put(k, v) =>
        var r := InsertTree(a.tree, k, v, a.free);
        Snapshot(GrowRoot(r), FreeAfter(r), if r.Two? then a.height + 1 else a.height)
      case Drop(k) =>
        if PathSized(a.tree, k) then Snapshot(AfterDelete(a.tree, k), a.free, HeightAfter(a.tree, k, a.height)) else a
  }

  function Empty(root: nat): Snapshot {
    Snapshot(Leaf(root, [], [], NO_PAGE, NO_PAGE), root + 1, 0)
  }

  ghost function After(root: nat, ops: seq<Op>): Snapshot {
    if ops == [] then Empty(root) else Step(After(root, ops[..|ops| - 1]), ops[|ops| - 1])
  }

  function MapAfter(ops: seq<Op>): map<Bytes, Bytes> {
    if ops == [] then map[]
    else
      var m := MapAfter(ops[..|ops| - 1]);
      match ops[|ops| - 1]
      case Put(k, v) => m[k := v]
      case Drop(k) => m - {k}
  }

  ghost predicate RefusedAt(root: nat, ops: seq<Op>, n: nat)
    requires n < |ops|
  {
    var t := After(root, ops[..n]).tree;
    ops[n].Drop? && Aligned(t) && WillRefuse(t, ops[n].key)
  }

  /** No deletion of the run meets a merge that its siblings have no room for. */
  ghost predicate NoRefusal(root: nat, ops: seq<Op>) {
    forall n :: 0 <= n < |ops| ==> !RefusedAt(root, ops, n)
  }

  /** Every lookup after every prefix of the run answers as the map does. */
  ghost predicate LookupsAgree(root: nat, ops: seq<Op>, n: nat)
    requires n <= |ops|
  {
    forall q :: Find(After(root, ops[..n]).tree, q) == Get(MapAfter(ops[..n]), q)
  }

  lemma {:induction false} NoRefusalBefore(root: nat, ops: seq<Op>, n: nat)
    requires NoRefusal(root, ops) && n <= |ops|
    ensures NoRefusal(root, ops[..n])
  {
    forall i | 0 <= i < n ensures !RefusedAt(root, ops[..n], i) {
      assert ops[..n][..i] == ops[..i];
      assert !RefusedAt(root, ops, i);
    }
  }

  /** While no merge is refused the tree stays well-formed and holds exactly the map. */
  lemma {:induction false} RunKeepsTree(root: nat, ops: seq<Op>)
    requires NoRefusal(root, ops)
    ensures Good(After(root, ops)) && MapOf(Entries(After(root, ops).tree)) == MapAfter(ops)
  {
    if ops == [] {
      EmptyIsGood(root);
    } else {
      var n := |ops| - 1;
      var a := After(root, ops[..n]);
      NoRefusalBefore(root, ops, n);
      RunKeepsTree(root, ops[..n]);
      assert !RefusedAt(root, ops, n);
      match ops[n]
      case Put(k, v) => PutKeeps(a, k, v);
      case Drop(k) =>
        SizedPath(a.tree, k);
        DropKeeps(a, k);
    }
  }

  lemma {:induction false} EmptyIsGood(root: nat)
    ensures Good(Empty(root)) && MapOf(Entries(Empty(root).tree)) == map[]
  {
  }

  lemma {:induction false} PutKeeps(a: Snapshot, k: Bytes, v: Bytes)
    requires Shaped(a)
    ensures Shaped(Step(a, Put(k, v))) && (Good(a) ==> Good(Step(a, Put(k, v))))
    ensures MapOf(Entries(Step(a, Put(k, v)).tree)) == MapOf(Entries(a.tree))[k := v]
  {
    InsertSound(a.tree, k, v, a.free, a.height);
    var b := Step(a, Put(k, v));
    OrderedAligned(b.tree, b.height, None, None);
  }

  lemma {:induction false} DropKeeps(a: Snapshot, k: Bytes)
    requires Shaped(a) && PathSized(a.tree, k)
    ensures Shaped(Step(a, Drop(k))) && (Good(a) ==> (Good(Step(a, Drop(k))) <==> !WillRefuse(a.tree, k)))
    ensures MapOf(Entries(Step(a, Drop(k)).tree)) == MapOf(Entries(a.tree)) - {k}
  {
    DeleteSound(a.tree, k, a.height);
    var b := Step(a, Drop(k));
    OrderedAligned(b.tree, b.height, None, None);
  }

  lemma {:induction false} GoodAgrees(root: nat, ops: seq<Op>, n: nat)
    requires NoRefusal(root, ops) && n <= |ops|
    ensures LookupsAgree(root, ops, n)
  {
    NoRefusalBefore(root, ops, n);
    RunKeepsTree(root, ops[..n]);
    var a := After(root, ops[..n]);
    forall q ensures Find(a.tree, q) == Get(MapAfter(ops[..n]), q) {
      SizedPath(a.tree, q);
      FindIsGet(a.tree, a.height, None, None, q);
    }
  }

  /** The first refused merge makes some lookup go wrong at once. */
  lemma {:induction false} RefusalShows(root: nat, ops: seq<Op>, n: nat)
    requires n < |ops| && NoRefusal(root, ops[..n]) && RefusedAt(root, ops, n)
    ensures !LookupsAgree(root, ops, n + 1)
  {
    var a, k := After(root, ops[..n]), ops[n].key;
    RunKeepsTree(root, ops[..n]);
    assert ops[..n + 1][..n] == ops[..n];
    SizedPath(a.tree, k);
    DeleteExact(a.tree, k, a.height);
    var q :| Find(AfterDelete(a.tree, k), q) != Get(MapOf(Entries(a.tree)) - {k}, q);
    assert Find(After(root, ops[..n + 1]).tree, q) != Get(MapAfter(ops[..n + 1]), q);
  }

  lemma {:induction false} FirstRefusal(root: nat, ops: seq<Op>) returns (n: nat)
    requires !NoRefusal(root, ops)
    ensures n < |ops| && NoRefusal(root, ops[..n]) && RefusedAt(root, ops, n)
  {
    var last := |ops| - 1;
    var c := ops[..last];
    if NoRefusal(root, c) {
      n := last;
      forall i | 0 <= i < last ensures !RefusedAt(root, ops, i) {
        assert c[..i] == ops[..i];
        assert !RefusedAt(root, c, i);
      }
    } else {
      n := FirstRefusal(root, c);
      assert c[..n] == ops[..n];
    }
  }

  /**
   * Over every run from an empty tree: lookups answer as the map does after each operation exactly
   * when no deletion has a merge refused.
   */
  lemma {:induction false} RunsRefineTheMap(root: nat, ops: seq<Op>)
    ensures NoRefusal(root, ops) <==> forall n :: 0 <= n <= |ops| ==> LookupsAgree(root, ops, n)
  {
    if NoRefusal(root, ops) {
      forall n | 0 <= n <= |ops| ensures LookupsAgree(root, ops, n) {
        GoodAgrees(root, ops, n);
      }
    } else {
      var n := FirstRefusal(root, ops);
      RefusalShows(root, ops, n);
    }
  }

  // ---------- past a refusal ----------

  /** No deletion of the run goes down a path with a node without keys on it. */
  ghost predicate NoDeadEnd(root: nat, ops: seq<Op>) {
    forall n :: 0 <= n < |ops| && ops[n].Drop? ==> PathSized(After(root, ops[..n]).tree, ops[n].key)
  }

  lemma {:induction false} NoDeadEndBefore(root: nat, ops: seq<Op>, n: nat)
    requires NoDeadEnd(root, ops) && n <= |ops|
    ensures NoDeadEnd(root, ops[..n])
  {
    forall i | 0 <= i < n && ops[..n][i].Drop? ensures PathSized(After(root, ops[..n][..i]).tree, ops[..n][i].key) {
      assert ops[..n][..i] == ops[..i];
    }
  }

  /** Refused merges lose nothing that is stored. */
  lemma {:induction false} RunKeepsEntries(root: nat, ops: seq<Op>)
    requires NoDeadEnd(root, ops)
    ensures Shaped(After(root, ops)) && MapOf(Entries(After(root, ops).tree)) == MapAfter(ops)
  {
    if ops == [] {
      EmptyIsGood(root);
    } else {
      var n := |ops| - 1;
      NoDeadEndBefore(root, ops, n);
      RunKeepsEntries(root, ops[..n]);
      match ops[n]
      case Put(k, v) => PutKeeps(After(root, ops[..n]), k, v);
      case Drop(k) => DropKeeps(After(root, ops[..n]), k);
    }
  }

  /** After any such run, refusals included, a lookup answers as the map or, below a node without keys, finds nothing. */
  lemma {:induction false} RunLookup(root: nat, ops: seq<Op>, q: Bytes)
    requires NoDeadEnd(root, ops)
    ensures Find(After(root, ops).tree, q) == if PathSized(After(root, ops).tree, q) then Get(MapAfter(ops), q) else None
  {
    var a := After(root, ops);
    RunKeepsEntries(root, ops);
    if PathSized(a.tree, q) {
      FindIsGet(a.tree, a.height, None, None, q);
    } else {
      FindGivesUp(a.tree, q);
    }
  }

  /** So a stored key is out of reach exactly when its path meets a node without keys. */
  lemma {:induction false} ReachedExactly(root: nat, ops: seq<Op>)
    requires NoDeadEnd(root, ops)
    ensures forall q :: q in MapAfter(ops) ==> (Find(After(root, ops).tree, q) == None <==> !PathSized(After(root, ops).tree, q))
    ensures (forall q :: Find(After(root, ops).tree, q) == Get(MapAfter(ops), q)) <==>
            forall q :: q in MapAfter(ops) ==> PathSized(After(root, ops).tree, q)
  {
    var t := After(root, ops).tree;
    forall q ensures Find(t, q) == if PathSized(t, q) then Get(MapAfter(ops), q) else None {
      RunLookup(root, ops, q);
    }
  }
}
