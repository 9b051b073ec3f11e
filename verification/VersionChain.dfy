/** Version chains: which version a transaction sees, and which versions pruning keeps. */
module VersionChain {
  import opened ByteStrings

  /** deleted == 0 means that no deleter is recorded. */
  datatype Version = Version(created: int, deleted: int, tombstone: bool, value: Bytes)

  predicate DeletedBy(v: Version, snap: int) {
    v.deleted != 0 && v.deleted <= snap
  }

  /** A version counts for a reader unless it is too new, deleted, or by another listed transaction. */
  predicate Sees(v: Version, snap: int, active: seq<int>) {
    v.created <= snap && !DeletedBy(v, snap) && (v.created == snap || v.created !in active)
  }

  /** The newest version the reader sees, tombstones included. */
  function LastVisible(chain: seq<Version>, snap: int, active: seq<int>): Option<Version> {
    if chain == [] then None
    else
      var n := |chain| - 1;
      if Sees(chain[n], snap, active) then Some(chain[n]) else LastVisible(chain[..n], snap, active)
  }

  function ValueOf(v: Option<Version>): Option<Bytes> {
    if v.Some? && !v.value.tombstone then Some(v.value.value) else None
  }

  /** Some listed transaction could read the version and its creator is not listed. */
  predicate NeededBy(v: Version, active: seq<int>) {
    v.created !in active && exists a :: a in active && v.created <= a && !DeletedBy(v, a)
  }

  /** The newest version stays; an older one stays when it is needed. */
  function Survivors(chain: seq<Version>, active: seq<int>): seq<Version> {
    if chain == [] then [] else Needed(chain[..|chain| - 1], active) + [chain[|chain| - 1]]
  }

  function Needed(chain: seq<Version>, active: seq<int>): seq<Version> {
    if chain == [] then []
    else
      var n := |chain| - 1;
      Needed(chain[..n], active) + if NeededBy(chain[n], active) then [chain[n]] else []
  }

  ghost predicate NewestAt(chain: seq<Version>, i: int, v: Version, snap: int, active: seq<int>) {
    0 <= i < |chain| && chain[i] == v && forall j :: i < j < |chain| ==> !Sees(chain[j], snap, active)
  }

  /** The version shown is in the chain and seen, and nothing behind it in the chain is seen. */
  lemma {:induction false} LastVisibleIsNewest(chain: seq<Version>, snap: int, active: seq<int>)
    ensures match LastVisible(chain, snap, active)
            case None => forall v :: v in chain ==> !Sees(v, snap, active)
            case Some(v) => Sees(v, snap, active) && exists i :: NewestAt(chain, i, v, snap, active)
  {
    if chain != [] {
      var n := |chain| - 1;
      LastVisibleIsNewest(chain[..n], snap, active);
      if Sees(chain[n], snap, active) {
        assert NewestAt(chain, n, chain[n], snap, active);
      } else {
        match LastVisible(chain[..n], snap, active)
        case None =>
        case Some(v) =>
          var i :| NewestAt(chain[..n], i, v, snap, active);
          forall j | i < j < |chain| ensures !Sees(chain[j], snap, active) {
            assert j < n ==> chain[..n][j] == chain[j];
          }
          assert NewestAt(chain, i, v, snap, active);
      }
    }
  }

  lemma {:induction false} NeededMembers(chain: seq<Version>, active: seq<int>)
    ensures forall v :: v in Needed(chain, active) ==> v in chain && NeededBy(v, active)
  {
    if chain != [] {
      NeededMembers(chain[..|chain| - 1], active);
    }
  }

  // ---------- pruning ----------

  method IsNeeded(v: Version, active: seq<int>) returns (r: bool)
    ensures r == NeededBy(v, active)
  {
    r := false;
    for k := 0 to |active|
      invariant r <==> v.created !in active && exists j :: 0 <= j < k && v.created <= active[j] && !DeletedBy(v, active[j])
    {
      var snap := active[k];
      if v.created <= snap && !(v.deleted != 0 && v.deleted <= snap) {
        var creatorActive := false;
        for m := 0 to |active|
          invariant creatorActive <==> v.created in active[..m]
        {
          if active[m] == v.created {
            creatorActive := true;
          }
        }
        assert active[..|active|] == active;
        if !creatorActive {
          r := true;
        }
      }
    }
  }

  // ---------- what pruning preserves ----------

  lemma {:induction false} LastVisibleAppend(chain: seq<Version>, v: Version, snap: int, active: seq<int>)
    ensures LastVisible(chain + [v], snap, active) == if Sees(v, snap, active) then Some(v) else LastVisible(chain, snap, active)
  {
    assert (chain + [v])[..|chain|] == chain;
  }

  /** The newest visible version survives when it is needed, whatever else is dropped. */
  lemma {:induction false} NeededShows(chain: seq<Version>, snap: int, active: seq<int>, readers: seq<int>)
    requires var seen := LastVisible(chain, snap, readers); seen.None? || NeededBy(seen.value, active)
    ensures LastVisible(Needed(chain, active), snap, readers) == LastVisible(chain, snap, readers)
  {
    if chain != [] {
      var n := |chain| - 1;
      var kept := Needed(chain[..n], active);
      assert kept + [] == kept;
      LastVisibleAppend(kept, chain[n], snap, readers);
      if !Sees(chain[n], snap, readers) {
        NeededShows(chain[..n], snap, active, readers);
      }
    }
  }

  /** Pruning keeps what a reader sees exactly when that is the newest version or is needed. */
  lemma {:induction false} SurvivorsShow(chain: seq<Version>, snap: int, active: seq<int>, readers: seq<int>)
    requires chain != []
    ensures var seen, newest := LastVisible(chain, snap, readers), chain[|chain| - 1];
            LastVisible(Survivors(chain, active), snap, readers) == seen <==>
            seen.None? || Sees(newest, snap, readers) || NeededBy(seen.value, active)
  {
    var n := |chain| - 1;
    var kept, seen := Needed(chain[..n], active), LastVisible(chain, snap, readers);
    LastVisibleAppend(kept, chain[n], snap, readers);
    if !Sees(chain[n], snap, readers) {
      if seen.None? || NeededBy(seen.value, active) {
        NeededShows(chain[..n], snap, active, readers);
      } else {
        NeededMembers(chain[..n], active);
        LastVisibleIsNewest(kept, snap, readers);
      }
    }
  }

  /** No version by t is followed by another transaction's version. */
  ghost predicate TailOf(chain: seq<Version>, t: int) {
    forall i, j :: 0 <= i <= j < |chain| && chain[i].created == t ==> chain[j].created == t
  }

  ghost predicate NoDeleter(chain: seq<Version>) {
    forall i :: 0 <= i < |chain| ==> chain[i].deleted == 0
  }

  /** Pruning changes no answer to a listed reader whose own versions end the chain. */
  lemma {:induction false} PruneForListed(chain: seq<Version>, t: int, active: seq<int>)
    requires t in active && TailOf(chain, t) && NoDeleter(chain) && chain != []
    ensures LastVisible(Survivors(chain, active), t, active) == LastVisible(chain, t, active)
  {
    var n, seen := |chain| - 1, LastVisible(chain, t, active);
    LastVisibleIsNewest(chain, t, active);
    SurvivorsShow(chain, t, active, active);
    if !Sees(chain[n], t, active) && seen.Some? {
      var i :| 0 <= i < |chain| && chain[i] == seen.value;
      assert chain[i].created == t ==> chain[n].created == t;
    }
  }

  /** A reader that comes later than everything in the chain and everything listed. */
  ghost predicate Later(chain: seq<Version>, s: int, active: seq<int>) {
    (forall i :: 0 <= i < |chain| ==> chain[i].created < s) && (forall a :: a in active ==> a < s)
  }

  /**
   * For a later reader, pruning preserves the visible version exactly when that version is the
   * newest one, or some listed transaction is at least as new as its creator.
   */
  lemma {:induction false} PruneForLater(chain: seq<Version>, s: int, active: seq<int>)
    requires Later(chain, s, active) && NoDeleter(chain) && chain != []
    ensures var seen := LastVisible(chain, s, active + [s]);
            LastVisible(Survivors(chain, active), s, active + [s]) == seen <==>
            seen.None? || Sees(chain[|chain| - 1], s, active + [s]) || exists a :: a in active && seen.value.created <= a
  {
    LastVisibleIsNewest(chain, s, active + [s]);
    SurvivorsShow(chain, s, active, active + [s]);
  }

  // ---------- every later reader ----------

  /** The newest version whose creator is not listed. */
  function LastUnlisted(chain: seq<Version>, active: seq<int>): Option<Version> {
    if chain == [] then None
    else
      var n := |chain| - 1;
      if chain[n].created !in active then Some(chain[n]) else LastUnlisted(chain[..n], active)
  }

  /** The newest version by an unlisted creator ends the chain, or some listed transaction is at least as new as it. */
  predicate Spared(chain: seq<Version>, active: seq<int>) {
    chain == [] || chain[|chain| - 1].created !in active
    || var u := LastUnlisted(chain, active); u.None? || exists a :: a in active && u.value.created <= a
  }

  /**
   * s may read with the list `readers` some time after `active` was the list: it is later than all of
   * the chain, nobody who had left is listed again, and whoever left since owned the chain's end.
   */
  ghost predicate Afterwards(chain: seq<Version>, active: seq<int>, s: int, readers: seq<int>) {
    forall v :: v in chain ==>
      && v.created < s
      && (v.created !in active ==> v.created !in readers)
      && (v.created in active && v.created !in readers ==> TailOf(chain, v.created))
  }

  lemma {:induction false} LastUnlistedIsSeen(chain: seq<Version>, active: seq<int>, s: int, readers: seq<int>)
    requires NoDeleter(chain)
    requires forall v :: v in chain ==> v.created < s && (v.created in active <==> v.created in readers)
    ensures LastVisible(chain, s, readers) == LastUnlisted(chain, active)
  {
    if chain != [] {
      var n := |chain| - 1;
      assert chain[n] in chain;
      assert forall v :: v in chain[..n] ==> v in chain;
      LastUnlistedIsSeen(chain[..n], active, s, readers);
    }
  }

  lemma {:induction false} LastVisibleBehind(chain: seq<Version>, other: seq<Version>, more: seq<Version>, s: int, readers: seq<int>)
    requires LastVisible(chain, s, readers) == LastVisible(other, s, readers)
    ensures LastVisible(chain + more, s, readers) == LastVisible(other + more, s, readers)
  {
    if more == [] {
      assert chain + more == chain && other + more == other;
    } else {
      var n := |more| - 1;
      LastVisibleBehind(chain, other, more[..n], s, readers);
      assert chain + more == (chain + more[..n]) + [more[n]] && other + more == (other + more[..n]) + [more[n]];
      LastVisibleAppend(chain + more[..n], more[n], s, readers);
      LastVisibleAppend(other + more[..n], more[n], s, readers);
    }
  }

  /** Where the newest version is hidden, creators are listed afterwards exactly when they were before. */
  lemma {:induction false} SameListing(chain: seq<Version>, active: seq<int>, s: int, readers: seq<int>)
    requires NoDeleter(chain) && chain != [] && Afterwards(chain, active, s, readers)
    requires !Sees(chain[|chain| - 1], s, readers)
    ensures forall v :: v in chain ==> (v.created in active <==> v.created in readers)
  {
    var last := chain[|chain| - 1];
    assert last in chain && last.created in readers;
    forall v | v in chain && v.created in active ensures v.created in readers {
      var i :| 0 <= i < |chain| && chain[i] == v;
      assert TailOf(chain, v.created) ==> last.created == v.created;
    }
  }

  /** In a spared chain pruning changes nothing for any later reader, whatever has been appended meanwhile. */
  lemma {:induction false} PruneForReaders(chain: seq<Version>, active: seq<int>, s: int, readers: seq<int>, more: seq<Version>)
    requires NoDeleter(chain) && Afterwards(chain, active, s, readers) && Spared(chain, active)
    ensures LastVisible(Survivors(chain, active) + more, s, readers) == LastVisible(chain + more, s, readers)
  {
    if chain != [] {
      var last := chain[|chain| - 1];
      if !Sees(last, s, readers) {
        SameListing(chain, active, s, readers);
        LastUnlistedIsSeen(chain, active, s, readers);
        LastVisibleIsNewest(chain, s, readers);
        assert last in chain;
      }
      SurvivorsShow(chain, s, active, readers);
    }
    LastVisibleBehind(Survivors(chain, active), chain, more, s, readers);
  }

  /** In a chain that is not spared, the next reader misses the version it would be shown. */
  lemma {:induction false} UnsparedIsMissed(chain: seq<Version>, active: seq<int>, s: int)
    requires NoDeleter(chain) && Later(chain, s, active) && !Spared(chain, active)
    ensures LastVisible(Survivors(chain, active), s, active + [s]) != LastVisible(chain, s, active + [s])
  {
    LastUnlistedIsSeen(chain, active, s, active + [s]);
    PruneForLater(chain, s, active);
  }

  ghost predicate SameFor(chain: seq<Version>, active: seq<int>, s: int, readers: seq<int>, more: seq<Version>) {
    LastVisible(Survivors(chain, active) + more, s, readers) == LastVisible(chain + more, s, readers)
  }

  /**
   * Pruning goes unnoticed by a later reader, with every list it may have and every continuation of the
   * chain, exactly when the chain is spared.
   */
  lemma {:induction false} SparedExactly(chain: seq<Version>, active: seq<int>, s: int)
    requires NoDeleter(chain) && Later(chain, s, active)
    ensures Spared(chain, active) <==>
            forall readers, more :: Afterwards(chain, active, s, readers) ==> SameFor(chain, active, s, readers, more)
  {
    if Spared(chain, active) {
      forall readers, more | Afterwards(chain, active, s, readers) ensures SameFor(chain, active, s, readers, more) {
        PruneForReaders(chain, active, s, readers, more);
      }
    } else {
      var readers := active + [s];
      assert Afterwards(chain, active, s, readers);
      UnsparedIsMissed(chain, active, s);
      assert chain + [] == chain && Survivors(chain, active) + [] == Survivors(chain, active);
      assert !SameFor(chain, active, s, readers, []);
    }
  }

  ghost predicate InOrder(chain: seq<Version>) {
    forall i, j :: 0 <= i <= j < |chain| ==> chain[i].created <= chain[j].created
  }

  lemma {:induction false} LastUnlistedIn(chain: seq<Version>, active: seq<int>)
    ensures match LastUnlisted(chain, active)
            case None => forall v :: v in chain ==> v.created in active
            case Some(u) => u in chain && u.created !in active
  {
    if chain != [] {
      LastUnlistedIn(chain[..|chain| - 1], active);
    }
  }

  /** A chain whose creators are in nondecreasing order is always spared. */
  lemma {:induction false} PruneInOrder(chain: seq<Version>, active: seq<int>)
    requires InOrder(chain)
    ensures Spared(chain, active)
  {
    LastUnlistedIn(chain, active);
    var u := LastUnlisted(chain, active);
    if chain != [] && u.Some? {
      var i :| 0 <= i < |chain| && chain[i] == u.value;
      assert chain[i].created <= chain[|chain| - 1].created;
    }
  }

  /** Out of order, pruning can drop a committed version that later transactions would read. */
  lemma {:induction false} PruneOutOfOrder()
    ensures var chain := [Version(2, 0, false, [7]), Version(1, 0, false, [8])];
            && LastVisible(chain, 3, [1, 3]) == Some(chain[0])
            && LastVisible(Survivors(chain, [1]), 3, [1, 3]) == None
  {
    var chain := [Version(2, 0, false, [7]), Version(1, 0, false, [8])];
    assert chain[..1] == [chain[0]] && [chain[0]][..0] == [];
    assert Needed([chain[0]], [1]) == [];
    var kept := Survivors(chain, [1]);
    assert kept == [chain[1]] && kept[..0] == [];
  }
}
