/** Version chains as bytes: entries in a slotted page, long values in overflow pages. */
module ChainPage {
  import opened ByteStrings
  import opened Layout
  import opened SlottedPage
  import opened Overflow
  import opened Sequences
  import opened VersionChain

  const ENTRY_HEADER := 14
  const NODE_CHAIN := 4
  const FLAG_OVERFLOW := 1

  /** Creator, deleter, value length, tombstone mark, flags, payload. */
  function EntryBytes(created: int, len: int, tombstone: bool, flags: Byte, payload: Bytes): (r: Bytes)
    ensures |r| == ENTRY_HEADER + |payload|
  {
    Bytes32(created) + Bytes32(0) + Bytes32(len) + [if tombstone then 1 else 0] + [flags] + payload
  }

  lemma {:induction false} EntryParses(created: int, len: int, tombstone: bool, flags: Byte, payload: Bytes)
    requires IsI32(created) && IsI32(len)
    ensures var r := EntryBytes(created, len, tombstone, flags, payload);
            && Get32(r, 0) == created && Get32(r, 4) == 0 && Get32(r, 8) == len
            && (r[12] != 0 <==> tombstone) && r[13] == flags && r[ENTRY_HEADER..] == payload
  {
    var r := EntryBytes(created, len, tombstone, flags, payload);
    assert r[0..4] == Bytes32(created) && r[4..8] == Bytes32(0) && r[8..12] == Bytes32(len);
    RoundTrip32(created);
    RoundTrip32(0);
    RoundTrip32(len);
  }

  /** The value that an entry stores: inline, or behind its overflow pointer. */
  function Stored(rec: Bytes, pages: map<int, Bytes>, size: nat): Option<Bytes>
    requires 512 <= size <= MAX_PAGE_SIZE && AllSized(pages, size) && |rec| >= ENTRY_HEADER
  {
    var len := Get32(rec, 8);
    if rec[13] % 2 == FLAG_OVERFLOW then
      if len >= 0 && |rec| >= ENTRY_HEADER + PTR_SIZE then ReadChain(pages, size, Get32(rec, ENTRY_HEADER), len) else None
    else if 0 <= len <= |rec| - ENTRY_HEADER then Some(rec[ENTRY_HEADER..ENTRY_HEADER + len])
    else None
  }

  function InlineCapacity(pageSize: nat): int {
    pageSize - HEADER_SIZE - PTR_SIZE - ENTRY_HEADER
  }

  /** The length of the entry for a value: long ones go behind an overflow pointer. */
  function EntrySize(pageSize: nat, len: nat): nat {
    if len > InlineCapacity(pageSize) then ENTRY_HEADER + PTR_SIZE else ENTRY_HEADER + len
  }

  /** The record is an entry for this version. */
  ghost predicate Denotes(rec: Bytes, pages: map<int, Bytes>, size: nat, v: Version)
    requires 512 <= size <= MAX_PAGE_SIZE && AllSized(pages, size)
  {
    && |rec| == EntrySize(size, |v.value|) >= ENTRY_HEADER && Get32(rec, 0) == v.created && Get32(rec, 4) == v.deleted
    && (rec[12] != 0 <==> v.tombstone) && (!v.tombstone ==> Stored(rec, pages, size) == Some(v.value))
  }

  ghost predicate AllDenote(recs: seq<Bytes>, pages: map<int, Bytes>, size: nat, chain: seq<Version>)
    requires 512 <= size <= MAX_PAGE_SIZE && AllSized(pages, size)
  {
    |recs| == |chain| && forall i :: 0 <= i < |recs| ==> Denotes(recs[i], pages, size, chain[i])
  }

  /** The page's records are the versions of the chain, oldest first. */
  ghost predicate ChainHolds(s: Bytes, pages: map<int, Bytes>, recs: seq<Bytes>, chain: seq<Version>)
    requires 512 <= |s| <= MAX_PAGE_SIZE && AllSized(pages, |s|)
  {
    Holds(s, recs) && AllDenote(recs, pages, |s|, chain)
  }

  lemma {:induction false} InlineDenotes(txn: int, value: Bytes, tombstone: bool, pages: map<int, Bytes>, size: nat)
    requires 512 <= size <= MAX_PAGE_SIZE && AllSized(pages, size) && IsI32(txn) && IsI32(|value|) && |value| <= InlineCapacity(size)
    ensures Denotes(EntryBytes(txn, |value|, tombstone, 0, value), pages, size, Version(txn, 0, tombstone, value))
  {
    EntryParses(txn, |value|, tombstone, 0, value);
    var r := EntryBytes(txn, |value|, tombstone, 0, value);
    assert r[ENTRY_HEADER..ENTRY_HEADER + |value|] == r[ENTRY_HEADER..];
  }

  lemma {:induction false} OverflowDenotes(txn: int, value: Bytes, head: int, pages: map<int, Bytes>, size: nat)
    requires 512 <= size <= MAX_PAGE_SIZE && AllSized(pages, size) && IsI32(txn) && IsI32(|value|) && IsI32(head)
    requires ReadChain(pages, size, head, |value|) == Some(value) && |value| > InlineCapacity(size)
    ensures Denotes(EntryBytes(txn, |value|, false, FLAG_OVERFLOW, Bytes32(head)), pages, size, Version(txn, 0, false, value))
  {
    EntryParses(txn, |value|, false, FLAG_OVERFLOW, Bytes32(head));
    RoundTrip32(head);
    var r := EntryBytes(txn, |value|, false, FLAG_OVERFLOW, Bytes32(head));
    assert r[ENTRY_HEADER..ENTRY_HEADER + 4] == r[ENTRY_HEADER..];
  }

  /** Writing more overflow pages leaves every entry denoting what it did. */
  lemma {:induction false} DenotesStays(recs: seq<Bytes>, pages: map<int, Bytes>, more: map<int, Bytes>, size: nat, chain: seq<Version>)
    requires 512 <= size <= MAX_PAGE_SIZE && AllSized(pages, size) && AllSized(more, size)
    requires AllDenote(recs, pages, size, chain) && ReadsKept(pages, more, size)
    ensures AllDenote(recs, more, size, chain)
  {
    forall i | 0 <= i < |recs| ensures Denotes(recs[i], more, size, chain[i]) {
      assert Denotes(recs[i], pages, size, chain[i]);
    }
  }

  // ---------- room ----------

  /** The bytes that a chain's entries take. */
  function SpaceOf(chain: seq<Version>, size: nat): nat {
    if chain == [] then 0 else SpaceOf(chain[..|chain| - 1], size) + EntrySize(size, |chain[|chain| - 1].value|)
  }

  /** The page of this chain takes one more entry of n bytes, and its slot. */
  predicate TakesEntry(chain: seq<Version>, size: nat, n: nat) {
    |chain| < MAX_SLOTS && n + SLOT_SIZE <= size - SpaceOf(chain, size) - (HEADER_SIZE + SLOT_SIZE * |chain|)
  }

  predicate TakesTombstone(chain: seq<Version>, size: nat) {
    TakesEntry(chain, size, ENTRY_HEADER)
  }

  /** How many tombstones the page of this chain takes. */
  function Spare(chain: seq<Version>, size: nat): nat {
    var gap := size - SpaceOf(chain, size) - (HEADER_SIZE + SLOT_SIZE * |chain|);
    if |chain| >= MAX_SLOTS || gap < ENTRY_HEADER + SLOT_SIZE then 0 else Min(MAX_SLOTS - |chain|, gap / (ENTRY_HEADER + SLOT_SIZE))
  }

  lemma {:induction false} SpaceOfTombstones(chain: seq<Version>, more: seq<Version>, size: nat)
    requires 512 <= size && forall v :: v in more ==> v.value == []
    ensures SpaceOf(chain + more, size) == SpaceOf(chain, size) + ENTRY_HEADER * |more|
  {
    if more == [] {
      assert chain + more == chain;
    } else {
      var n := |more| - 1;
      SpaceOfTombstones(chain, more[..n], size);
      assert (chain + more)[..|chain| + n] == chain + more[..n];
    }
  }

  /** Behind the chain and `more` tombstones there is room for another exactly as long as they are fewer than the page takes. */
  lemma {:induction false} SpareIsExact(chain: seq<Version>, more: seq<Version>, size: nat)
    requires 512 <= size && forall v :: v in more ==> v.value == []
    ensures TakesTombstone(chain + more, size) <==> |more| < Spare(chain, size)
  {
    SpaceOfTombstones(chain, more, size);
  }

  lemma {:induction false} TotalIsSpace(recs: seq<Bytes>, pages: map<int, Bytes>, size: nat, chain: seq<Version>)
    requires 512 <= size <= MAX_PAGE_SIZE && AllSized(pages, size) && AllDenote(recs, pages, size, chain)
    ensures Total(recs) == SpaceOf(chain, size)
  {
    if recs != [] {
      var n := |recs| - 1;
      assert Denotes(recs[n], pages, size, chain[n]);
      TotalIsSpace(recs[..n], pages, size, chain[..n]);
    }
  }

  /** What fits behind a page's records depends on the versions alone. */
  lemma {:induction false} FitsIsTakes(recs: seq<Bytes>, pages: map<int, Bytes>, size: nat, chain: seq<Version>, r: Bytes)
    requires 512 <= size <= MAX_PAGE_SIZE && AllSized(pages, size) && AllDenote(recs, pages, size, chain)
    ensures Fits(recs, size, r) <==> TakesEntry(chain, size, |r|)
  {
    TotalIsSpace(recs, pages, size, chain);
  }

  // ---------- appending ----------

  method Append(buf: array<Byte>, txn: int, value: Bytes, ghost recs: seq<Bytes>) returns (ok: bool)
    requires Holds(buf[..], recs)
    modifies buf
    ensures ok <==> |value| <= InlineCapacity(buf.Length) && Fits(recs, buf.Length, EntryBytes(txn, |value|, false, 0, value))
    ensures Holds(buf[..], if ok then recs + [EntryBytes(txn, |value|, false, 0, value)] else recs)
  {
    if |value| > InlineCapacity(buf.Length) {
      return false;
    }
    var slot := PageInsert(buf, EntryBytes(txn, |value|, false, 0, value), recs);
    return slot >= 0;
  }

  method AppendTombstone(buf: array<Byte>, txn: int, ghost recs: seq<Bytes>) returns (ok: bool)
    requires Holds(buf[..], recs)
    modifies buf
    ensures ok <==> Fits(recs, buf.Length, EntryBytes(txn, 0, true, 0, []))
    ensures Holds(buf[..], if ok then recs + [EntryBytes(txn, 0, true, 0, [])] else recs)
  {
    var slot := PageInsert(buf, EntryBytes(txn, 0, true, 0, []), recs);
    return slot >= 0;
  }

  method AppendOverflow(buf: array<Byte>, txn: int, len: int, head: int, ghost recs: seq<Bytes>) returns (ok: bool)
    requires Holds(buf[..], recs)
    modifies buf
    ensures ok <==> Fits(recs, buf.Length, EntryBytes(txn, len, false, FLAG_OVERFLOW, Bytes32(head)))
    ensures Holds(buf[..], if ok then recs + [EntryBytes(txn, len, false, FLAG_OVERFLOW, Bytes32(head))] else recs)
  {
    var slot := PageInsert(buf, EntryBytes(txn, len, false, FLAG_OVERFLOW, Bytes32(head)), recs);
    return slot >= 0;
  }

  /** Room for the entry, and, when the value does not fit in the page, pages for it from `next` on. */
  ghost predicate FitsFrom(next: int, limit: int, chain: seq<Version>, size: nat, value: Bytes)
    requires 512 <= size <= MAX_PAGE_SIZE
  {
    && TakesEntry(chain, size, EntrySize(size, |value|))
    && (|value| > InlineCapacity(size) ==> next + Chunks(|value|, ChunkSize(size)) <= limit)
  }

  ghost predicate SetFits(store: PageStore, chain: seq<Version>, size: nat, value: Bytes)
    reads store
    requires 512 <= size <= MAX_PAGE_SIZE
  {
    FitsFrom(store.nextPage, store.limit, chain, size, value)
  }

  /** Unless the overflow pages have run out, the chain page alone decides. */
  ghost predicate Decided(before: int, now: int, limit: int, ok: bool, chain: seq<Version>, size: nat, value: Bytes) {
    before <= now && (now < limit ==> (ok <==> TakesEntry(chain, size, EntrySize(size, |value|))))
  }

  method SetOverflow(store: PageStore, buf: array<Byte>, txn: int, value: Bytes, ghost recs: seq<Bytes>, ghost chain: seq<Version>)
      returns (ok: bool, ghost recs': seq<Bytes>)
    requires store.Valid() && store.pageSize == buf.Length && IsI32(txn) && IsI32(|value|)
    requires ChainHolds(buf[..], store.pages, recs, chain) && |value| > InlineCapacity(buf.Length)
    modifies store, buf
    ensures store.Valid() && ReadsKept(old(store.pages), store.pages, store.pageSize)
    ensures ok <==> old(SetFits(store, chain, buf.Length, value))
    ensures Decided(old(store.nextPage), store.nextPage, store.limit, ok, chain, buf.Length, value)
    ensures ChainHolds(buf[..], store.pages, recs', if ok then chain + [Version(txn, 0, false, value)] else chain)
  {
    ghost var pages0 := store.pages;
    var head := store.Write(value);
    DenotesStays(recs, pages0, store.pages, buf.Length, chain);
    if head < 0 {
      return false, recs;
    }
    OverflowDenotes(txn, value, head, store.pages, buf.Length);
    FitsIsTakes(recs, store.pages, buf.Length, chain, EntryBytes(txn, |value|, false, FLAG_OVERFLOW, Bytes32(head)));
    ok := AppendOverflow(buf, txn, |value|, head, recs);
    recs' := if ok then recs + [EntryBytes(txn, |value|, false, FLAG_OVERFLOW, Bytes32(head))] else recs;
  }

  method SetInline(store: PageStore, buf: array<Byte>, txn: int, value: Bytes, ghost recs: seq<Bytes>, ghost chain: seq<Version>)
      returns (ok: bool, ghost recs': seq<Bytes>)
    requires store.Valid() && store.pageSize == buf.Length && IsI32(txn) && IsI32(|value|)
    requires ChainHolds(buf[..], store.pages, recs, chain) && |value| <= InlineCapacity(buf.Length)
    modifies buf
    ensures ok <==> old(SetFits(store, chain, buf.Length, value))
    ensures ChainHolds(buf[..], store.pages, recs', if ok then chain + [Version(txn, 0, false, value)] else chain)
  {
    InlineDenotes(txn, value, false, store.pages, buf.Length);
    FitsIsTakes(recs, store.pages, buf.Length, chain, EntryBytes(txn, |value|, false, 0, value));
    ok := Append(buf, txn, value, recs);
    recs' := if ok then recs + [EntryBytes(txn, |value|, false, 0, value)] else recs;
  }

  /** A new version of any length: success appends exactly it to the chain, failure appends nothing. */
  method MvccSet(store: PageStore, buf: array<Byte>, txn: int, value: Bytes, ghost recs: seq<Bytes>, ghost chain: seq<Version>)
      returns (ok: bool, ghost recs': seq<Bytes>)
    requires store.Valid() && store.pageSize == buf.Length && IsI32(txn) && IsI32(|value|)
    requires ChainHolds(buf[..], store.pages, recs, chain)
    modifies store, buf
    ensures store.Valid() && ReadsKept(old(store.pages), store.pages, store.pageSize)
    ensures ok <==> old(SetFits(store, chain, buf.Length, value))
    ensures Decided(old(store.nextPage), store.nextPage, store.limit, ok, chain, buf.Length, value)
    ensures ChainHolds(buf[..], store.pages, recs', if ok then chain + [Version(txn, 0, false, value)] else chain)
  {
    if |value| > InlineCapacity(buf.Length) {
      ok, recs' := SetOverflow(store, buf, txn, value, recs, chain);
    } else {
      AllReadsStay(store.pages, store.pages, buf.Length);
      ok, recs' := SetInline(store, buf, txn, value, recs, chain);
    }
  }

  /** A tombstone: success appends exactly it. */
  method MvccDelete(store: PageStore, buf: array<Byte>, txn: int, ghost recs: seq<Bytes>, ghost chain: seq<Version>)
      returns (ok: bool, ghost recs': seq<Bytes>)
    requires store.Valid() && store.pageSize == buf.Length && IsI32(txn)
    requires ChainHolds(buf[..], store.pages, recs, chain)
    modifies buf
    ensures ok <==> TakesTombstone(chain, buf.Length)
    ensures ChainHolds(buf[..], store.pages, recs', if ok then chain + [Version(txn, 0, true, [])] else chain)
  {
    InlineDenotes(txn, [], true, store.pages, buf.Length);
    FitsIsTakes(recs, store.pages, buf.Length, chain, EntryBytes(txn, 0, true, 0, []));
    ok := AppendTombstone(buf, txn, recs);
    recs' := if ok then recs + [EntryBytes(txn, 0, true, 0, [])] else recs;
  }

  // ---------- reading ----------

  method EntryVisible(created: int, deleted: int, snap: int, active: seq<int>) returns (visible: bool)
    ensures visible <==> created <= snap && !(deleted != 0 && deleted <= snap) && (created == snap || created !in active)
  {
    visible := created <= snap;
    if visible && deleted != 0 && deleted <= snap {
      visible := false;
    }
    if visible {
      for k := 0 to |active|
        invariant visible <==> created == snap || created !in active[..k]
      {
        if active[k] == created && active[k] != snap {
          return false;
        }
      }
      assert active[..|active|] == active;
    }
  }

  method ReadStored(store: PageStore, rec: Bytes) returns (r: Option<Bytes>)
    requires store.Valid() && |rec| >= ENTRY_HEADER
    ensures r == Stored(rec, store.pages, store.pageSize)
  {
    var len := Get32(rec, 8);
    if rec[13] % 2 == FLAG_OVERFLOW {
      if len < 0 || |rec| < ENTRY_HEADER + PTR_SIZE {
        return None;
      }
      r := store.Read(Get32(rec, ENTRY_HEADER), len);
    } else if 0 <= len <= |rec| - ENTRY_HEADER {
      r := Some(rec[ENTRY_HEADER..ENTRY_HEADER + len]);
    } else {
      r := None;
    }
  }

  /** Scans the page from its last record; what it returns is what the chain shows the reader. */
  method FindVisible(store: PageStore, buf: array<Byte>, snap: int, active: seq<int>, ghost recs: seq<Bytes>, ghost chain: seq<Version>)
      returns (r: Option<Bytes>)
    requires store.Valid() && store.pageSize == buf.Length && ChainHolds(buf[..], store.pages, recs, chain)
    ensures r == ValueOf(LastVisible(chain, snap, active))
  {
    var count := Read32(buf, OFF_COUNT);
    var i := count - 1;
    assert chain[..i + 1] == chain;
    while i >= 0
      invariant -1 <= i < |chain| == |recs|
      invariant LastVisible(chain[..i + 1], snap, active) == LastVisible(chain, snap, active)
    {
      var len, rec := PageGet(buf, i, recs);
      assert Denotes(recs[i], store.pages, buf.Length, chain[i]);
      if len >= ENTRY_HEADER {
        var visible := EntryVisible(Get32(rec, 0), Get32(rec, 4), snap, active);
        assert visible == Sees(chain[i], snap, active);
        assert chain[..i + 1][..i] == chain[..i];
        if visible {
          if rec[12] != 0 {
            return None;
          }
          r := ReadStored(store, rec);
          if r.Some? {
            return;
          }
        }
      }
      i := i - 1;
    }
    return None;
  }

  /** Whether the chain shows the reader a value; decided by the tombstone mark, without reading the value. */
  method HasVisible(store: PageStore, buf: array<Byte>, snap: int, active: seq<int>, ghost recs: seq<Bytes>, ghost chain: seq<Version>)
      returns (r: bool)
    requires store.Valid() && store.pageSize == buf.Length && ChainHolds(buf[..], store.pages, recs, chain)
    ensures r <==> ValueOf(LastVisible(chain, snap, active)).Some?
  {
    var count := Read32(buf, OFF_COUNT);
    var i := count - 1;
    assert chain[..i + 1] == chain;
    while i >= 0
      invariant -1 <= i < |chain| == |recs|
      invariant LastVisible(chain[..i + 1], snap, active) == LastVisible(chain, snap, active)
    {
      var len, rec := PageGet(buf, i, recs);
      assert Denotes(recs[i], store.pages, buf.Length, chain[i]);
      if len >= ENTRY_HEADER {
        var visible := EntryVisible(Get32(rec, 0), Get32(rec, 4), snap, active);
        assert visible == Sees(chain[i], snap, active);
        assert chain[..i + 1][..i] == chain[..i];
        if visible {
          return rec[12] == 0;
        }
      }
      i := i - 1;
    }
    return false;
  }

  // ---------- pruning ----------

  /** The records marked to be kept, in order. */
  function Kept<T>(s: seq<T>, keep: seq<bool>): (r: seq<T>)
    requires |keep| == |s|
    ensures |r| <= |s|
  {
    if s == [] then []
    else
      var n := |s| - 1;
      Kept(s[..n], keep[..n]) + if keep[n] then [s[n]] else []
  }

  lemma {:induction false} KeptIsSmaller(recs: seq<Bytes>, keep: seq<bool>)
    requires |keep| == |recs|
    ensures Total(Kept(recs, keep)) <= Total(recs)
  {
    if recs != [] {
      var n := |recs| - 1;
      KeptIsSmaller(recs[..n], keep[..n]);
      var k := Kept(recs[..n], keep[..n]);
      if keep[n] {
        assert (k + [recs[n]])[..|k|] == k;
      } else {
        assert k + [] == k;
      }
    }
  }

  /** Copying some of a page's records into a fresh page never runs out of room. */
  lemma {:induction false} KeptFits(recs: seq<Bytes>, keep: seq<bool>, size: nat, i: nat)
    requires |keep| == |recs| && RoomOk(recs, size) && i < |recs|
    ensures Fits(Kept(recs[..i], keep[..i]), size, recs[i])
  {
    KeptIsSmaller(recs[..i], keep[..i]);
    TotalStep(recs, i);
    TotalPrefix(recs, i + 1, |recs|);
    assert recs[..|recs|] == recs;
  }

  lemma {:induction false} KeptDenotes(recs: seq<Bytes>, keep: seq<bool>, pages: map<int, Bytes>, size: nat, chain: seq<Version>)
    requires 512 <= size <= MAX_PAGE_SIZE && AllSized(pages, size) && |keep| == |recs| && AllDenote(recs, pages, size, chain)
    ensures AllDenote(Kept(recs, keep), pages, size, Kept(chain, keep))
  {
    if recs != [] {
      var n := |recs| - 1;
      KeptDenotes(recs[..n], keep[..n], pages, size, chain[..n]);
    }
  }

  /** What pruning marks: the newest version, and those that some listed transaction needs. */
  predicate Marked(chain: seq<Version>, keep: seq<bool>, active: seq<int>) {
    |keep| == |chain| && forall i :: 0 <= i < |chain| ==> (keep[i] <==> i == |chain| - 1 || NeededBy(chain[i], active))
  }

  lemma {:induction false} KeptNeeded(chain: seq<Version>, keep: seq<bool>, active: seq<int>)
    requires |keep| == |chain| && forall i :: 0 <= i < |chain| ==> (keep[i] <==> NeededBy(chain[i], active))
    ensures Kept(chain, keep) == Needed(chain, active)
  {
    if chain != [] {
      var n := |chain| - 1;
      KeptNeeded(chain[..n], keep[..n], active);
    }
  }

  lemma {:induction false} KeptSurvives(chain: seq<Version>, keep: seq<bool>, active: seq<int>)
    requires Marked(chain, keep, active)
    ensures Kept(chain, keep) == Survivors(chain, active)
  {
    if chain != [] {
      var n := |chain| - 1;
      KeptNeeded(chain[..n], keep[..n], active);
    }
  }

  method Mark(store: PageStore, buf: array<Byte>, active: seq<int>, ghost recs: seq<Bytes>, ghost chain: seq<Version>) returns (keep: seq<bool>)
    requires store.Valid() && store.pageSize == buf.Length && ChainHolds(buf[..], store.pages, recs, chain)
    ensures Marked(chain, keep, active)
  {
    var count := Read32(buf, OFF_COUNT);
    keep := [];
    for i := 0 to count
      invariant |keep| == i && forall j :: 0 <= j < i ==> (keep[j] <==> j == count - 1 || NeededBy(chain[j], active))
    {
      var len, rec := PageGet(buf, i, recs);
      assert Denotes(recs[i], store.pages, buf.Length, chain[i]);
      var needed := IsNeeded(Version(Get32(rec, 0), Get32(rec, 4), false, []), active);
      assert needed == NeededBy(chain[i], active);
      keep := keep + [i == count - 1 || needed];
    }
  }

  /** Copies the marked records into a fresh page. */
  method CopyKept(buf: array<Byte>, tmp: array<Byte>, keep: seq<bool>, ghost recs: seq<Bytes>)
    requires Holds(buf[..], recs) && |keep| == |recs| && tmp != buf && tmp.Length == buf.Length >= 512
    modifies tmp
    ensures Holds(tmp[..], Kept(recs, keep))
  {
    PageInit(tmp, NODE_CHAIN, 0);
    for i := 0 to |keep|
      invariant Holds(tmp[..], Kept(recs[..i], keep[..i])) && buf[..] == old(buf[..])
    {
      assert recs[..i + 1][..i] == recs[..i] && keep[..i + 1][..i] == keep[..i];
      if keep[i] {
        var len, rec := PageGet(buf, i, recs);
        KeptFits(recs, keep, buf.Length, i);
        var slot := PageInsert(tmp, rec, Kept(recs[..i], keep[..i]));
      } else {
        assert Kept(recs[..i], keep[..i]) + [] == Kept(recs[..i], keep[..i]);
      }
    }
    assert recs[..|recs|] == recs && keep[..|keep|] == keep;
  }

  method CopyBack(tmp: array<Byte>, buf: array<Byte>)
    requires tmp != buf && tmp.Length == buf.Length
    modifies buf
    ensures buf[..] == tmp[..] == old(tmp[..])
  {
    for j := 0 to buf.Length
      invariant forall k :: 0 <= k < j ==> buf[k] == tmp[k]
      invariant tmp[..] == old(tmp[..])
    {
      buf[j] := tmp[j];
    }
    assert forall k :: 0 <= k < buf.Length ==> buf[..][k] == tmp[..][k];
  }

  /** Rewrites the page in place so that it holds exactly the surviving versions. */
  method Prune(store: PageStore, buf: array<Byte>, active: seq<int>, ghost recs: seq<Bytes>, ghost chain: seq<Version>)
      returns (ghost recs': seq<Bytes>)
    requires store.Valid() && store.pageSize == buf.Length && ChainHolds(buf[..], store.pages, recs, chain)
    modifies buf
    ensures ChainHolds(buf[..], store.pages, recs', if |chain| <= 1 then chain else Survivors(chain, active))
  {
    var count := Read32(buf, OFF_COUNT);
    if count <= 1 {
      return recs;
    }
    var keep := Mark(store, buf, active, recs, chain);
    var tmp := new Byte[buf.Length];
    CopyKept(buf, tmp, keep, recs);
    KeptDenotes(recs, keep, store.pages, buf.Length, chain);
    KeptSurvives(chain, keep, active);
    CopyBack(tmp, buf);
    recs' := Kept(recs, keep);
  }
}
