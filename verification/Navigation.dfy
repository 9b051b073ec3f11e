/** Ordered key navigation over the keys at which the transaction reads a value. */
module Navigation {
  import opened ByteStrings
  import opened Tree
  import opened Contents
  import opened BTree
  import opened Cursor
  import opened Mvcc
  import opened Engine
  import Layout
  import RecordCodec
  import TxnList
  import Lz4
  import opened VersionChain

  // ---------- visible entries ----------

  /** What a cursor gets for what is stored: with `values` it decompresses, else it only looks whether there is any. */
  function Fetched(values: bool, lz4: bool, stored: Option<Bytes>): Option<Bytes> {
    if values then Unpacked(lz4, stored) else stored
  }

  /** What t gets at each key at which it gets anything. */
  ghost function Shown(s: State, t: int, values: bool, lz4: bool): map<Bytes, Bytes> {
    map k | k in s.chains && Fetched(values, lz4, Read(s, t, k)).Some? :: Fetched(values, lz4, Read(s, t, k)).value
  }

  ghost function Visible(s: seq<Entry>, shown: set<Bytes>): seq<Entry> {
    if s == [] then []
    else (if s[0].key in shown then [s[0]] else []) + Visible(s[1..], shown)
  }

  lemma {:induction false} VisibleMembers(s: seq<Entry>, shown: set<Bytes>)
    ensures forall e :: e in Visible(s, shown) <==> e in s && e.key in shown
    ensures SortedEntries(s) ==> SortedEntries(Visible(s, shown))
  {
    if s != [] {
      VisibleMembers(s[1..], shown);
      assert s == [s[0]] + s[1..];
      if SortedEntries(s) {
        forall e | e in s[1..] ensures Less(s[0].key, e.key) {
        }
      }
    }
  }

  /** Every shown key has exactly one visible entry. */
  lemma {:induction false} VisibleKeys(t: Tree, h: nat, cids: map<Bytes, int>, shown: set<Bytes>)
    requires Ordered(t, h, None, None) && shown <= cids.Keys
    requires (forall k :: k in cids ==> Layout.IsI32(cids[k])) && MapOf(Entries(t)) == Descriptors(cids)
    ensures SortedEntries(Visible(Entries(t), shown))
    ensures forall e :: e in Visible(Entries(t), shown) ==> e.key in shown
    ensures forall k :: k in shown ==> exists e :: e in Visible(Entries(t), shown) && e.key == k
  {
    EntriesBounded(t, h, None, None);
    VisibleMembers(Entries(t), shown);
    forall k | k in shown ensures exists e :: e in Visible(Entries(t), shown) && e.key == k {
      assert k in MapOf(Entries(t));
      MapOfKeys(Entries(t), k);
    }
  }

  /** Every entry holds the descriptor of its key's chain page. */
  ghost predicate Described(s: seq<Entry>, cids: map<Bytes, int>) {
    forall e :: e in s ==> e.key in cids && Layout.IsI32(cids[e.key]) && e.val == RecordCodec.DescriptorBytes(cids[e.key], false)
  }

  lemma {:induction false} TreeDescribed(t: Tree, h: nat, cids: map<Bytes, int>)
    requires Ordered(t, h, None, None)
    requires (forall k :: k in cids ==> Layout.IsI32(cids[k])) && MapOf(Entries(t)) == Descriptors(cids)
    ensures Described(Entries(t), cids)
  {
    EntriesBounded(t, h, None, None);
    forall e | e in Entries(t) ensures e.key in cids && e.val == RecordCodec.DescriptorBytes(cids[e.key], false) {
      var i :| 0 <= i < |Entries(t)| && Entries(t)[i] == e;
      MapOfSortedAt(Entries(t), i);
    }
  }

  // ---------- the cursor over visible entries ----------

  /** The reader gets exactly what `got` says. */
  ghost predicate Shows(versions: Versions, txn: int, active: seq<int>, values: bool, lz4: bool, cids: map<Bytes, int>, got: map<Bytes, Bytes>)
    reads versions, versions.overflow
  {
    && versions.Valid() && (forall k :: k in cids ==> cids[k] in versions.chains)
    && forall k {:trigger versions.chains[cids[k]]} :: k in cids ==>
         Fetched(values, lz4, ValueOf(LastVisible(versions.chains[cids[k]], txn, active))) == if k in got then Some(got[k]) else None
  }

  /** Decodes the entry's descriptor, scans the chain page and, when the value is wanted, decompresses it. */
  method Fetch(versions: Versions, txn: int, active: seq<int>, values: bool, lz4: bool, entry: Entry,
               ghost cids: map<Bytes, int>, ghost got: map<Bytes, Bytes>) returns (r: Option<Bytes>)
    requires Shows(versions, txn, active, values, lz4, cids, got) && Described([entry], cids)
    ensures r == if entry.key in got then Some(got[entry.key]) else None
  {
    assert entry in [entry];
    var cid := DecodeCid(entry.val, cids[entry.key]);
    r := versions.FindVisible(cid, txn, active);
    if r.Some? && values && lz4 {
      r := Lz4.Decompress(r.value, MAX_RECORD_SIZE);
    }
  }

  /** Steps over entries at which the transaction gets nothing. */
  method NextVisible(c: TreeCursor, versions: Versions, txn: int, active: seq<int>, values: bool, lz4: bool,
                     ghost cids: map<Bytes, int>, ghost got: map<Bytes, Bytes>) returns (found: bool, entry: Entry, value: Bytes)
    requires c.Valid() && Described(c.Rest(), cids) && Shows(versions, txn, active, values, lz4, cids, got)
    modifies c
    ensures c.Valid() && Described(c.Rest(), cids)
    ensures found == (Visible(old(c.Rest()), got.Keys) != [])
    ensures found ==> entry.key in got && value == got[entry.key]
    ensures found ==> Visible(old(c.Rest()), got.Keys) == [entry] + Visible(c.Rest(), got.Keys) && |c.Rest()| < |old(c.Rest())|
  {
    value := [];
    while true
      invariant c.Valid() && Described(c.Rest(), cids) && |c.Rest()| <= |old(c.Rest())|
      invariant Visible(c.Rest(), got.Keys) == Visible(old(c.Rest()), got.Keys)
      decreases |c.Rest()|
    {
      found, entry := c.Next();
      if !found {
        return;
      }
      var r := Fetch(versions, txn, active, values, lz4, entry, cids, got);
      if r.Some? {
        return found, entry, r.value;
      }
    }
  }

  /** A cursor over the whole tree; what it will yield, with values or without, is what the transaction reads. */
  method OpenAll(session: Session, txn: int, values: bool, ghost got: map<Bytes, Bytes>) returns (c: TreeCursor)
    requires session.Valid() && TxnList.IsActive(session.table.View(), txn) && got == Shown(session.View(), txn, values, session.lz4)
    ensures fresh(c) && c.Valid() && c.Rest() == Entries(session.directory.shape) && Described(c.Rest(), session.directory.cids)
    ensures Shows(session.versions, txn, session.table.activeTxns, values, session.lz4, session.directory.cids, got)
  {
    c := new TreeCursor.Open(session.directory.tree, [], session.directory.shape, session.directory.height);
    MatchingAll(Entries(session.directory.shape));
    TreeDescribed(session.directory.shape, session.directory.height, session.directory.cids);
  }

  /** What the session shows the transaction, as the entries of its tree. */
  ghost function VisibleEntries(session: Session, txn: int): seq<Entry>
    requires session.Valid()
    reads session, session.table, session.lockMgr, session.directory, session.directory.tree, session.versions, session.versions.overflow
  {
    Visible(Entries(session.directory.shape), Shown(session.View(), txn, false, session.lz4).Keys)
  }

  lemma {:induction false} VisibleEntriesAreReads(session: Session, txn: int)
    requires session.Valid()
    ensures SortedEntries(VisibleEntries(session, txn))
    ensures forall e :: e in VisibleEntries(session, txn) ==> Read(session.View(), txn, e.key).Some?
    ensures forall k :: Read(session.View(), txn, k).Some? ==> exists e :: e in VisibleEntries(session, txn) && e.key == k
  {
    var shown := Shown(session.View(), txn, false, session.lz4).Keys;
    VisibleKeys(session.directory.shape, session.directory.height, session.directory.cids, shown);
    forall k | Read(session.View(), txn, k).Some? ensures k in shown {
    }
  }

  // ---------- navigation ----------

  /** The least key at which the transaction reads a value, if there is one. */
  method First(session: Session, txn: int) returns (found: bool, key: Bytes)
    requires session.Valid()
    ensures found <==> exists k :: Read(session.View(), txn, k).Some?
    ensures found ==> Read(session.View(), txn, key).Some? && forall k :: Read(session.View(), txn, k).Some? ==> !Less(k, key)
  {
    key := [];
    var active := session.table.TxnIsActive(txn);
    if !active {
      return false, key;
    }
    VisibleSorted(session, txn);
    ghost var got := Shown(session.View(), txn, false, session.lz4);
    var c := OpenAll(session, txn, false, got);
    found, key := ScanFirst(c, session.versions, txn, session.table.activeTxns, session.lz4, session.directory.cids, got);
    FirstIs(session, txn, found, key);
  }

  lemma {:induction false} VisibleSorted(session: Session, txn: int)
    requires session.Valid()
    ensures SortedEntries(VisibleEntries(session, txn))
  {
    VisibleEntriesAreReads(session, txn);
  }

  lemma {:induction false} FirstIs(session: Session, txn: int, found: bool, key: Bytes)
    requires session.Valid() && Foremost(VisibleEntries(session, txn), found, key)
    ensures found <==> exists k :: Read(session.View(), txn, k).Some?
    ensures found ==> Read(session.View(), txn, key).Some? && forall k :: Read(session.View(), txn, k).Some? ==> !Less(k, key)
  {
    VisibleEntriesAreReads(session, txn);
    ForemostIsLeast(session.View(), txn, VisibleEntries(session, txn), found, key);
  }

  lemma {:induction false} ForemostIsLeast(s: State, t: int, all: seq<Entry>, found: bool, key: Bytes)
    requires (forall e :: e in all ==> Read(s, t, e.key).Some?) && Foremost(all, found, key)
    requires forall k :: Read(s, t, k).Some? ==> exists e :: e in all && e.key == k
    ensures found <==> exists k :: Read(s, t, k).Some?
    ensures found ==> Read(s, t, key).Some? && forall k :: Read(s, t, k).Some? ==> !Less(k, key)
  {
    if found {
      assert Read(s, t, key).Some?;
    }
  }

  method ScanFirst(c: TreeCursor, versions: Versions, txn: int, active: seq<int>, lz4: bool,
                   ghost cids: map<Bytes, int>, ghost got: map<Bytes, Bytes>)
      returns (found: bool, key: Bytes)
    requires c.Valid() && Described(c.Rest(), cids) && Shows(versions, txn, active, false, lz4, cids, got)
    requires SortedEntries(Visible(c.Rest(), got.Keys))
    modifies c
    ensures Foremost(Visible(old(c.Rest()), got.Keys), found, key)
  {
    ghost var all := Visible(c.Rest(), got.Keys);
    var entry, value;
    found, entry, value := NextVisible(c, versions, txn, active, false, lz4, cids, got);
    key := entry.key;
    if found {
      assert all[0] == entry;
      LessIsStrictTotalOrder();
    }
  }

  ghost predicate Foremost(all: seq<Entry>, found: bool, key: Bytes) {
    && (found <==> exists e :: e in all)
    && (found ==> (exists e :: e in all && e.key == key) && forall e :: e in all ==> !Less(e.key, key))
  }

  ghost predicate LeastAbove(all: seq<Entry>, after: Bytes, found: bool, key: Bytes) {
    && (found <==> exists e :: e in all && Less(after, e.key))
    && (found ==> Less(after, key) && exists e :: e in all && e.key == key)
    && (found ==> forall e :: e in all && Less(after, e.key) ==> !Less(e.key, key))
  }

  /** The least visible key greater than `after`, if there is one. */
  method NextKey(session: Session, txn: int, after: Bytes) returns (found: bool, key: Bytes)
    requires session.Valid()
    ensures found <==> after != [] && exists k :: Read(session.View(), txn, k).Some? && Less(after, k)
    ensures found ==> Read(session.View(), txn, key).Some? && Less(after, key)
    ensures found ==> forall k :: Read(session.View(), txn, k).Some? && Less(after, k) ==> !Less(k, key)
  {
    found, key := false, [];
    var active := session.table.TxnIsActive(txn);
    if !active || after == [] {
      return;
    }
    VisibleEntriesAreReads(session, txn);
    ghost var got := Shown(session.View(), txn, false, session.lz4);
    var c := OpenAll(session, txn, false, got);
    found, key := ScanAbove(c, session.versions, txn, session.table.activeTxns, session.lz4, after, session.directory.cids, got);
  }

  method ScanAbove(c: TreeCursor, versions: Versions, txn: int, active: seq<int>, lz4: bool, after: Bytes,
                   ghost cids: map<Bytes, int>, ghost got: map<Bytes, Bytes>)
      returns (found: bool, key: Bytes)
    requires c.Valid() && Described(c.Rest(), cids) && Shows(versions, txn, active, false, lz4, cids, got)
    requires SortedEntries(Visible(c.Rest(), got.Keys))
    modifies c
    ensures LeastAbove(Visible(old(c.Rest()), got.Keys), after, found, key)
  {
    ghost var shown := got.Keys;
    ghost var all, done := Visible(c.Rest(), shown), [];
    assert all == [] + all;
    found, key := false, [];
    while true
      invariant c.Valid() && Described(c.Rest(), cids)
      invariant all == done + Visible(c.Rest(), shown)
      invariant NoneAbove(done, after) && !found && key == []
      decreases |c.Rest()|
    {
      var more, entry, value;
      more, entry, value := NextVisible(c, versions, txn, active, false, lz4, cids, got);
      if !more {
        AboveEnd(all, done, after);
        return;
      }
      var cmp := Compare(entry.key, after);
      AboveStep(all, done, entry, Visible(c.Rest(), shown), after, cmp);
      if cmp > 0 {
        found, key := true, entry.key;
        return;
      }
      done := done + [entry];
    }
  }

  ghost predicate NoneAbove(done: seq<Entry>, after: Bytes) {
    forall e :: e in done ==> !Less(after, e.key)
  }

  lemma {:induction false} AboveEnd(all: seq<Entry>, done: seq<Entry>, after: Bytes)
    requires all == done + [] && NoneAbove(done, after)
    ensures LeastAbove(all, after, false, [])
  {
    assert all == done;
  }

  /** The next visible entry is the least above, or nothing up to it is above. */
  lemma {:induction false} AboveStep(all: seq<Entry>, done: seq<Entry>, entry: Entry, rest: seq<Entry>, after: Bytes, cmp: int)
    requires all == done + ([entry] + rest) && SortedEntries(all) && NoneAbove(done, after)
    requires cmp == if Less(entry.key, after) then -1 else if entry.key == after then 0 else 1
    ensures cmp > 0 ==> LeastAbove(all, after, true, entry.key)
    ensures cmp <= 0 ==> NoneAbove(done + [entry], after)
    ensures all == done + [entry] + rest
  {
    assert all == done + [entry] + rest;
    LessTrichotomy(entry.key, after);
    if cmp > 0 {
      LeastOfRest(done, entry, rest, after);
      assert all[|done|] == entry;
    }
  }

  lemma {:induction false} LeastOfRest(done: seq<Entry>, entry: Entry, rest: seq<Entry>, after: Bytes)
    requires SortedEntries(done + [entry] + rest)
    requires forall e :: e in done ==> !Less(after, e.key)
    ensures forall e :: e in done + [entry] + rest && Less(after, e.key) ==> !Less(e.key, entry.key)
  {
    var all := done + [entry] + rest;
    forall e | e in all && Less(after, e.key) ensures !Less(e.key, entry.key) {
      var i :| 0 <= i < |all| && all[i] == e;
      if i >= |done| {
        assert all[|done|] == entry;
        LessTrichotomy(e.key, entry.key);
      }
    }
  }

  /** key is the greatest below `before` in the entries seen so far; found says there is one. */
  ghost predicate BestBelow(done: seq<Entry>, before: Bytes, found: bool, key: Bytes) {
    && (found ==> Less(key, before) && exists e :: e in done && e.key == key)
    && (forall e :: e in done && Less(e.key, before) ==> found && !Less(key, e.key))
  }

  lemma {:induction false} BestStep(all: seq<Entry>, done: seq<Entry>, entry: Entry, rest: seq<Entry>, before: Bytes, found: bool, key: Bytes)
    requires all == done + ([entry] + rest) && SortedEntries(all) && BestBelow(done, before, found, key)
    ensures all == done + [entry] + rest
    ensures Less(entry.key, before) ==> BestBelow(done + [entry], before, true, entry.key)
    ensures !Less(entry.key, before) ==> BestBelow(done + [entry], before, found, key)
  {
    var now := done + [entry];
    assert all == done + [entry] + rest;
    assert now[|done|] == entry;
    forall e | e in now ensures e in done || e == entry {
    }
    forall e | e in done ensures e in now && !Less(entry.key, e.key) {
      var i :| 0 <= i < |done| && done[i] == e;
      assert now[i] == e && all[i] == e && all[|done|] == entry;
      LessTrichotomy(e.key, entry.key);
    }
    LessTrichotomy(entry.key, entry.key);
  }

  /** The greatest visible key less than `before`, if there is one. */
  method PrevKey(session: Session, txn: int, before: Bytes) returns (found: bool, key: Bytes)
    requires session.Valid()
    ensures found <==> before != [] && exists k :: Read(session.View(), txn, k).Some? && Less(k, before)
    ensures found ==> Read(session.View(), txn, key).Some? && Less(key, before)
    ensures found ==> forall k :: Read(session.View(), txn, k).Some? && Less(k, before) ==> !Less(key, k)
  {
    found, key := false, [];
    var active := session.table.TxnIsActive(txn);
    if !active || before == [] {
      return;
    }
    VisibleEntriesAreReads(session, txn);
    ghost var got := Shown(session.View(), txn, false, session.lz4);
    var c := OpenAll(session, txn, false, got);
    found, key := ScanBelow(c, session.versions, txn, session.table.activeTxns, session.lz4, before, session.directory.cids, got);
  }

  method ScanBelow(c: TreeCursor, versions: Versions, txn: int, active: seq<int>, lz4: bool, before: Bytes,
                   ghost cids: map<Bytes, int>, ghost got: map<Bytes, Bytes>)
      returns (found: bool, key: Bytes)
    requires c.Valid() && Described(c.Rest(), cids) && Shows(versions, txn, active, false, lz4, cids, got)
    requires SortedEntries(Visible(c.Rest(), got.Keys))
    modifies c
    ensures BestBelow(Visible(old(c.Rest()), got.Keys), before, found, key)
  {
    ghost var shown := got.Keys;
    ghost var all, done := Visible(c.Rest(), shown), [];
    assert all == [] + all;
    found, key := false, [];
    while true
      invariant c.Valid() && Described(c.Rest(), cids)
      invariant all == done + Visible(c.Rest(), shown)
      invariant BestBelow(done, before, found, key)
      decreases |c.Rest()|
    {
      var more, entry, value;
      more, entry, value := NextVisible(c, versions, txn, active, false, lz4, cids, got);
      if !more {
        assert all == done;
        return;
      }
      BestStep(all, done, entry, Visible(c.Rest(), shown), before, found, key);
      var cmp := Compare(entry.key, before);
      if cmp < 0 {
        found, key := true, entry.key;
      }
      done := done + [entry];
    }
  }
}
