/**
 * The engine's calls over pages of bytes, in the order the code takes its steps, each proved to be one
 * step of the state machine: a B-tree of descriptors, a page of versions behind each, long values in
 * overflow pages, and values compressed or not.
 */
module Engine {
  import opened ByteStrings
  import opened Layout
  import opened VersionChain
  import opened LockTable
  import opened TxnList
  import opened Mvcc
  import SlottedPage
  import RecordCodec
  import Tree
  import Contents
  import WriteLog
  import TreeInsert
  import BTree
  import Overflow
  import ChainPage
  import Lz4Format
  import Lz4
  import PageFit
  import opened Isolation
  import opened CollectionRuns
  import opened Reopening

  const MAX_RECORD_SIZE := 16384
  const LOOKUP_BUF_SIZE := 512
  const FIRST_PAGE := 2
  const MAX_PAGES := 0x8000_0000

  // ---------- what the pages hold ----------

  /** What the B-tree maps each key to: the descriptor of its chain page. */
  function Descriptors(directory: map<Bytes, int>): map<Bytes, Bytes>
    requires forall k :: k in directory ==> IsI32(directory[k])
  {
    map k | k in directory :: RecordCodec.DescriptorBytes(directory[k], false)
  }

  lemma {:induction false} DescriptorsMore(directory: map<Bytes, int>, key: Bytes, cid: int)
    requires (forall k :: k in directory ==> IsI32(directory[k])) && IsI32(cid) && key !in directory
    ensures Descriptors(directory[key := cid]) == Descriptors(directory)[key := RecordCodec.DescriptorBytes(cid, false)]
    ensures KeysShort(directory[key := cid]) ==> KeysShort(directory) && |key| <= 255
  {
    if KeysShort(directory[key := cid]) {
      assert key in directory[key := cid];
      forall k | k in directory ensures |k| <= 255 {
        assert k in directory[key := cid];
      }
    }
  }

  /** Every key has a chain page of its own. */
  ghost predicate Directed(directory: map<Bytes, int>, ids: set<int>) {
    && (forall k :: k in directory ==> directory[k] in ids)
    && forall k, q {:trigger directory[k], directory[q]} :: k in directory && q in directory && directory[k] == directory[q] ==> k == q
  }

  ghost predicate PageSizeOk(size: nat) {
    512 <= size <= SlottedPage.MAX_PAGE_SIZE
  }

  /** Page p has these records, which are the versions of its chain. */
  ghost predicate Bears(page: Bytes, size: nat, more: map<int, Bytes>, recs: seq<Bytes>, chain: seq<Version>)
    requires PageSizeOk(size) && Overflow.AllSized(more, size)
  {
    |page| == size && ChainPage.ChainHolds(page, more, recs, chain)
  }

  ghost predicate Paged(pages: map<int, Bytes>, size: nat, more: map<int, Bytes>, recs: map<int, seq<Bytes>>, chains: map<int, seq<Version>>)
    requires PageSizeOk(size) && Overflow.AllSized(more, size)
  {
    && pages.Keys == recs.Keys == chains.Keys
    && forall p {:trigger Bears(pages[p], size, more, recs[p], chains[p])} :: p in pages ==> Bears(pages[p], size, more, recs[p], chains[p])
  }

  /** Rewriting one page, and adding overflow pages, leaves what the other pages hold. */
  lemma {:induction false} PagedPut(pages: map<int, Bytes>, size: nat, more: map<int, Bytes>, more': map<int, Bytes>,
                                    recs: map<int, seq<Bytes>>, chains: map<int, seq<Version>>,
                                    p: int, page: Bytes, rs: seq<Bytes>, chain: seq<Version>)
    requires PageSizeOk(size) && Overflow.AllSized(more, size) && Overflow.AllSized(more', size)
    requires Paged(pages, size, more, recs, chains) && Overflow.ReadsKept(more, more', size)
    requires Bears(page, size, more', rs, chain)
    ensures Paged(pages[p := page], size, more', recs[p := rs], chains[p := chain])
  {
    forall q | q in pages && q != p ensures Bears(pages[q], size, more', recs[q], chains[q]) {
      assert Bears(pages[q], size, more, recs[q], chains[q]);
      ChainPage.DenotesStays(recs[q], more, more', size, chains[q]);
    }
  }

  lemma {:induction false} PagedKept(pages: map<int, Bytes>, size: nat, more: map<int, Bytes>, more': map<int, Bytes>,
                                     recs: map<int, seq<Bytes>>, chains: map<int, seq<Version>>)
    requires PageSizeOk(size) && Overflow.AllSized(more, size) && Overflow.AllSized(more', size)
    requires Paged(pages, size, more, recs, chains) && Overflow.ReadsKept(more, more', size)
    ensures Paged(pages, size, more', recs, chains)
  {
    forall q | q in pages ensures Bears(pages[q], size, more', recs[q], chains[q]) {
      assert Bears(pages[q], size, more, recs[q], chains[q]);
      ChainPage.DenotesStays(recs[q], more, more', size, chains[q]);
    }
  }

  lemma {:induction false} SameReads(more: map<int, Bytes>, size: nat)
    requires PageSizeOk(size) && Overflow.AllSized(more, size)
    ensures Overflow.ReadsKept(more, more, size)
  {
  }

  function ChainsOf(directory: map<Bytes, int>, chains: map<int, seq<Version>>): map<Bytes, seq<Version>>
    requires forall k :: k in directory ==> directory[k] in chains
  {
    map k | k in directory :: chains[directory[k]]
  }

  /** Extending the chain on a key's page extends the key's chain, and so does not extending it. */
  lemma {:induction false} ChainExtended(s: State, directory: map<Bytes, int>, chains: map<int, seq<Version>>, key: Bytes, done: bool, v: Version)
    requires Directed(directory, chains.Keys) && key in directory && s.chains == ChainsOf(directory, chains)
    ensures var c := chains[directory[key] := Extended(chains[directory[key]], done, v)];
            && c.Keys == chains.Keys
            && s.(chains := ChainsOf(directory, c)) == if done then Mvcc.Append(s, key, v) else s
  {
    var c := chains[directory[key] := Extended(chains[directory[key]], done, v)];
    assert ChainsOf(directory, c) == ChainsOf(directory, chains)[key := c[directory[key]]];
    if !done {
      assert ChainsOf(directory, c) == ChainsOf(directory, chains);
    }
  }

  /** A chain that comes in with its key. */
  lemma {:induction false} ChainsEntered(directory: map<Bytes, int>, chains: map<int, seq<Version>>, key: Bytes, cid: int)
    requires Directed(directory, chains.Keys) && key !in directory && cid !in chains
    ensures Directed(directory[key := cid], chains.Keys + {cid})
    ensures ChainsOf(directory[key := cid], chains[cid := []]) == ChainsOf(directory, chains)[key := []]
  {
  }

  lemma {:induction false} ChainsBeside(directory: map<Bytes, int>, chains: map<int, seq<Version>>, cid: int)
    requires Directed(directory, chains.Keys) && cid !in chains
    ensures chains[cid := []].Keys == chains.Keys + {cid} && Directed(directory, chains[cid := []].Keys)
    ensures ChainsOf(directory, chains[cid := []]) == ChainsOf(directory, chains)
  {
  }

  function Extended(chain: seq<Version>, done: bool, v: Version): seq<Version> {
    if done then chain + [v] else chain
  }

  /** The chain is found or made. */
  function Entered(s: State, k: Bytes, alloc: bool): State {
    if k !in s.chains && alloc then s.(chains := s.chains[k := []]) else s
  }

  /** And then the version appended. */
  function Written(s: State, t: int, k: Bytes, stored: Bytes, alloc: bool, room: bool): State {
    var s' := Entered(s, k, alloc);
    if k in s'.chains && room then Mvcc.Append(s', k, Version(t, 0, false, stored)) else s'
  }

  /** The key has a chain, and its page takes a tombstone. */
  ghost predicate HasRoom(s: State, k: Bytes, size: nat) {
    k in s.chains && ChainPage.TakesTombstone(s.chains[k], size)
  }

  /** The lock is granted, and there is a chain or a page for one. */
  ghost predicate Grantable(s: State, t: int, k: Bytes, alloc: bool) {
    !SetRefused(s, t, k) && (k in s.chains || alloc)
  }

  /** The key's page, an empty one if it has none, takes the entry for what is stored. */
  ghost predicate TakesValue(s: State, k: Bytes, stored: Bytes, size: nat) {
    ChainPage.TakesEntry(if k in s.chains then s.chains[k] else [], size, ChainPage.EntrySize(size, |stored|))
  }

  ghost predicate FitsValue(s: State, k: Bytes, stored: Bytes, size: nat, next: int, limit: int)
    requires PageSizeOk(size)
  {
    ChainPage.FitsFrom(next, limit, if k in s.chains then s.chains[k] else [], size, stored)
  }

  lemma {:induction false} SameOnceEntered(s: State, k: Bytes, alloc: bool, stored: Bytes, size: nat, next: int, limit: int)
    requires PageSizeOk(size)
    ensures forall s1: State :: s1.chains == s.chains ==>
              FitsValue(Entered(s1, k, alloc), k, stored, size, next, limit) == FitsValue(s, k, stored, size, next, limit)
              && TakesValue(Entered(s1, k, alloc), k, stored, size) == TakesValue(s, k, stored, size)
  {
  }

  /** From s the lock leads to s1, and the tombstone, if there is one, to s2: a deletion. */
  lemma {:induction false} DeleteIs(s: State, s1: State, s2: State, t: int, k: Bytes, room: bool)
    requires k != [] && s1 == if IsActive(s.txns, t) && Grants(s.locks, t, k, true) then s.(locks := Acquired(s.locks, t, k, true)) else s
    requires room ==> !DeleteRefused(s, t, k) && k in s.chains
    requires s2 == if room then Mvcc.Append(s1, k, Version(t, 0, true, [])) else s1
    ensures s2 == Next(s, Step.Delete(t, k, room))
    ensures LogsDelete(s, Step.Delete(t, k, room)) <==> IsActive(s.txns, t) && Grants(s.locks, t, k, true) && k in s.chains
  {
  }

  function Swept(chain: seq<Version>, cached: bool, active: seq<int>): seq<Version> {
    if cached then Pruned(chain, active) else chain
  }

  /** The pages before pid have been swept. */
  ghost predicate SweptUpTo(chains: map<int, seq<Version>>, chains': map<int, seq<Version>>, cached: set<int>, active: seq<int>, pid: int) {
    && chains'.Keys == chains.Keys
    && forall p :: p in chains ==> chains'[p] == if p < pid then Swept(chains[p], p in cached, active) else chains[p]
  }

  /** Sweeping the cached pages below `end` collects the keys whose pages those are. */
  lemma {:induction false} SweepIsCollect(s: State, s': State, directory: map<Bytes, int>, chains: map<int, seq<Version>>, chains': map<int, seq<Version>>,
                                          stored: map<Bytes, int>, end: int, cached: set<int>, keys: set<Bytes>)
    requires Directed(directory, chains.Keys) && StoredBelow(directory, stored, end) && SweptUpTo(chains, chains', cached, s.txns.active, end)
    requires s.chains == ChainsOf(directory, chains) && s' == s.(chains := ChainsOf(directory, chains'))
    requires forall k :: k in keys <==> k in stored && stored[k] in cached
    ensures s' == Next(s, Collect(keys))
  {
    var c := CollectStep(s, keys).chains;
    forall k | k in directory ensures c[k] == chains'[directory[k]] {
      assert k in keys <==> directory[k] < end && directory[k] in cached;
      assert c[k] == Swept(chains[directory[k]], k in keys, s.txns.active);
    }
    assert c == s'.chains;
  }

  /** The keys of the database as it was opened are those whose pages lie below the end of the sweep. */
  ghost predicate StoredBelow(directory: map<Bytes, int>, stored: map<Bytes, int>, end: int) {
    && (forall k :: k in stored ==> k in directory && directory[k] == stored[k])
    && forall k :: k in directory ==> (k in stored <==> directory[k] < end)
  }

  lemma {:induction false} StoredStays(directory: map<Bytes, int>, stored: map<Bytes, int>, end: int, key: Bytes, cid: int)
    requires StoredBelow(directory, stored, end) && key !in directory && end <= cid
    ensures StoredBelow(directory[key := cid], stored, end)
  {
  }

  predicate KeysShort(directory: map<Bytes, int>) {
    forall k :: k in directory ==> |k| <= 255
  }

  // ---------- descriptors and compression ----------

  /** The chain page that a looked-up descriptor names; `lookup` is padded with zeros to the buffer's size. */
  method DecodeCid(lookup: Bytes, ghost cid: int) returns (r: int)
    requires 0 < |lookup| <= LOOKUP_BUF_SIZE
    ensures IsI32(cid) && lookup == RecordCodec.DescriptorBytes(cid, false) ==> r == cid
  {
    var buf := lookup + seq(LOOKUP_BUF_SIZE - |lookup|, _ => 0);
    if buf[0] as int == RecordCodec.MAP_BASE + 2 {
      if IsI32(cid) && lookup == RecordCodec.DescriptorBytes(cid, false) {
        assert buf[0..|lookup|] == lookup;
        RecordCodec.DescriptorDecodes(cid, false, buf, LOOKUP_BUF_SIZE);
      }
      return RecordCodec.DecodeDescriptor(buf, LOOKUP_BUF_SIZE).chainId;
    }
    return buf[0] as int;
  }

  /** What is stored for the value. */
  ghost predicate Packs(lz4: bool, value: Bytes, stored: Bytes) {
    if lz4 then Packable(lz4, value) && Lz4.CompressedTo(value, stored) else stored == value
  }

  predicate Packable(lz4: bool, value: Bytes) {
    lz4 ==> 0 < |value| <= Lz4Format.MAX_INPUT_SIZE
  }

  /** What a reader is handed for what is stored. */
  function Unpacked(lz4: bool, stored: Option<Bytes>): Option<Bytes> {
    if lz4 && stored.Some? then Lz4Format.Decompressed(stored.value, MAX_RECORD_SIZE) else stored
  }

  /** What was stored for a value is read back exactly when it is not longer than a record may be. */
  lemma {:induction false} UnpackedIs(lz4: bool, value: Bytes, stored: Bytes)
    requires Packs(lz4, value, stored)
    ensures Unpacked(lz4, Some(stored)) == if lz4 && |value| > MAX_RECORD_SIZE then None else Some(value)
  {
    if lz4 {
      Lz4.CompressedDecodes(value, stored, |value|);
    }
    if lz4 && |value| <= MAX_RECORD_SIZE {
      Lz4.CompressedDecodes(value, stored, MAX_RECORD_SIZE);
    }
    if lz4 && |value| > MAX_RECORD_SIZE {
      if Lz4Format.Decompressed(stored, MAX_RECORD_SIZE).Some? {
        Lz4Format.DecodeMoreRoom(stored, [], MAX_RECORD_SIZE, |value|);
      }
    }
  }

  // ---------- the tree of descriptors ----------

  lemma {:induction false} StaysApart(ids: set<int>, was: set<int>, now: set<int>, first: int, next: int)
    requires ids !! was && TreeInsert.Grown(now, was, first, next) && forall p :: p in ids ==> p < first
    ensures ids !! now
  {
    forall p | p in ids ensures p !in now {
    }
  }

  class Directory {
    const tree: BTree.Store
    ghost var shape: Tree.Tree
    ghost var height: nat
    ghost var cids: map<Bytes, int>

    /** The tree holds exactly the descriptors of the keys' chain pages. */
    ghost predicate Valid()
      reads this, tree
    {
      && tree.Represents(shape, height) && (forall k :: k in cids ==> IsI32(cids[k]))
      && Contents.MapOf(Tree.Entries(shape)) == Descriptors(cids)
      && (KeysShort(cids) ==> PageFit.Fine(shape, tree.nextPage))
    }

    /** Chain pages have been allocated, and none is a page of the tree. */
    ghost predicate Apart(ids: set<int>)
      reads this, tree
    {
      1 <= tree.nextPage && ids !! Tree.Footprint(shape) && forall p :: p in ids ==> 1 <= p < tree.nextPage && IsI32(p)
    }

    constructor ()
      ensures Valid() && fresh(tree) && cids == map[] && Apart({}) && tree.nextPage == FIRST_PAGE
    {
      tree := new BTree.Store(1);
      shape, height, cids := Tree.Leaf(1, [], [], Tree.NO_PAGE, Tree.NO_PAGE), 0, map[];
    }

    /** The chain page of the key, or a negative id. */
    method Lookup(key: Bytes, ghost ids: set<int>) returns (cid: int)
      requires Valid() && Apart(ids) && Directed(cids, ids)
      ensures cid >= 0 <==> key in cids
      ensures cid >= 0 ==> cid == cids[key]
    {
      var found, lookup := tree.Search(key, shape, height);
      if !found {
        return -1;
      }
      assert lookup == RecordCodec.DescriptorBytes(cids[key], false);
      cid := DecodeCid(lookup, cids[key]);
    }

    method NewPage(ghost ids: set<int>) returns (cid: int)
      requires Valid() && Apart(ids) && tree.nextPage < MAX_PAGES
      modifies tree
      ensures Valid() && Apart(ids + {cid}) && cid !in ids && cid == old(tree.nextPage) <= tree.nextPage
    {
      if KeysShort(cids) {
        PageFit.FineMore(shape, tree.nextPage, tree.nextPage + 1);
      }
      cid := tree.AllocatePage(shape, height);
    }

    /** Writes the descriptor of the key's chain page into the tree. */
    method Enter(key: Bytes, cid: int, ghost ids: set<int>)
      requires Valid() && Apart(ids) && key !in cids && cid in ids
      modifies this, tree
      ensures Valid() && Apart(ids) && cids == old(cids)[key := cid] && old(tree.nextPage) <= tree.nextPage
    {
      var desc := new Byte[64];
      var end := RecordCodec.EncodeDescriptor(cid, false, desc);
      PageFit.DescriptorsAreShort(cid, false);
      InsertDescriptor(key, desc[..end], ids);
      DescriptorsMore(cids, key, cid);
      cids := cids[key := cid];
    }

    method InsertDescriptor(key: Bytes, desc: Bytes, ghost ids: set<int>)
      requires Valid() && Apart(ids)
      modifies this`shape, this`height, tree
      ensures tree.Represents(shape, height) && Apart(ids)
      ensures Contents.MapOf(Tree.Entries(shape)) == Descriptors(cids)[key := desc] && old(tree.nextPage) <= tree.nextPage
      ensures KeysShort(cids) && |key| <= 255 && |desc| <= PageFit.MAX_VALUE ==> PageFit.Fine(shape, tree.nextPage)
    {
      ghost var was, first := Tree.Footprint(shape), tree.nextPage;
      if KeysShort(cids) && |key| <= 255 && |desc| <= PageFit.MAX_VALUE {
        PageFit.InsertKeepsFine(shape, key, desc, first);
      }
      var inserted;
      inserted, shape, height := tree.Insert(key, desc, shape, height);
      StaysApart(ids, was, Tree.Footprint(shape), first, tree.nextPage);
    }
  }

  /** With keys of at most 255 bytes every node of the tree fits its page and is loaded as it was stored. */
  lemma {:induction false} DirectoryFits(d: Directory, size: nat)
    requires d.Valid() && KeysShort(d.cids) && d.tree.nextPage <= PageFit.ID_LIMIT
    requires PageFit.PageSizeAllowed(size) && size > 512
    ensures PageFit.EachFits(d.shape, size)
  {
    PageFit.FineFits(d.shape, d.tree.nextPage, size);
  }

  // ---------- the pages of versions ----------

  class Versions {
    const overflow: Overflow.PageStore
    var pages: map<int, Bytes>
    ghost var recs: map<int, seq<Bytes>>
    ghost var chains: map<int, seq<Version>>

    ghost predicate Valid()
      reads this, overflow
    {
      overflow.Valid() && Paged(pages, overflow.pageSize, overflow.pages, recs, chains)
    }

    constructor (pageSize: nat, limit: int)
      requires PageSizeOk(pageSize) && 0 <= limit < MAX_PAGES
      ensures Valid() && fresh(overflow) && chains == map[]
    {
      overflow := new Overflow.PageStore(pageSize, limit);
      pages, recs, chains := map[], map[], map[];
    }

    /** The page in the cache, as its holder sees it. */
    method Pin(cid: int) returns (buf: array<Byte>)
      requires Valid() && cid in chains
      ensures fresh(buf) && buf[..] == pages[cid] && Bears(buf[..], overflow.pageSize, overflow.pages, recs[cid], chains[cid])
    {
      var page := pages[cid];
      buf := new Byte[|page|](i requires 0 <= i < |page| => page[i]);
      assert Bears(pages[cid], overflow.pageSize, overflow.pages, recs[cid], chains[cid]);
    }

    /** The holder of a page leaves these bytes in it; overflow pages may have been added since `more`. */
    method PutAfter(ghost more: map<int, Bytes>, cid: int, buf: array<Byte>, ghost rs: seq<Bytes>, ghost chain: seq<Version>)
      requires overflow.Valid() && Overflow.AllSized(more, overflow.pageSize) && Overflow.ReadsKept(more, overflow.pages, overflow.pageSize)
      requires Paged(pages, overflow.pageSize, more, recs, chains) && Bears(buf[..], overflow.pageSize, overflow.pages, rs, chain)
      modifies this
      ensures Valid() && recs == old(recs)[cid := rs] && chains == old(chains)[cid := chain]
    {
      PagedPut(pages, overflow.pageSize, more, overflow.pages, recs, chains, cid, buf[..], rs, chain);
      pages, recs, chains := pages[cid := buf[..]], recs[cid := rs], chains[cid := chain];
    }

    method Put(cid: int, buf: array<Byte>, ghost rs: seq<Bytes>, ghost chain: seq<Version>)
      requires Valid() && Bears(buf[..], overflow.pageSize, overflow.pages, rs, chain)
      modifies this
      ensures Valid() && recs == old(recs)[cid := rs] && chains == old(chains)[cid := chain]
    {
      SameReads(overflow.pages, overflow.pageSize);
      PutAfter(overflow.pages, cid, buf, rs, chain);
    }

    /** An empty chain. */
    method Open(cid: int)
      requires Valid()
      modifies this
      ensures Valid() && recs == old(recs)[cid := []] && chains == old(chains)[cid := []]
    {
      var buf := new Byte[overflow.pageSize];
      SlottedPage.PageInit(buf, ChainPage.NODE_CHAIN, 0);
      Put(cid, buf, [], []);
    }

    method FindVisible(cid: int, snap: int, active: seq<int>) returns (r: Option<Bytes>)
      requires Valid() && cid in chains
      ensures r == ValueOf(LastVisible(chains[cid], snap, active))
    {
      var buf := Pin(cid);
      r := ChainPage.FindVisible(overflow, buf, snap, active, recs[cid], chains[cid]);
    }

    /** Writes a value over overflow pages that belong to no chain. */
    method WriteAside(value: Bytes) returns (ok: bool)
      requires Valid()
      modifies overflow
      ensures Valid() && overflow.nextPage == Overflow.PagesGone(old(overflow.nextPage), overflow.limit, Overflow.Chunks(|value|, Overflow.ChunkSize(overflow.pageSize)))
      ensures ok <==> value != [] && old(overflow.nextPage) + Overflow.Chunks(|value|, Overflow.ChunkSize(overflow.pageSize)) <= overflow.limit
    {
      ghost var more := overflow.pages;
      var head := overflow.Write(value);
      PagedKept(pages, overflow.pageSize, more, overflow.pages, recs, chains);
      ok := head >= 0;
    }

    method SetOn(buf: array<Byte>, txn: int, stored: Bytes, ghost rs: seq<Bytes>, ghost chain: seq<Version>) returns (ok: bool, ghost rs': seq<Bytes>)
      requires overflow.Valid() && Bears(buf[..], overflow.pageSize, overflow.pages, rs, chain) && IsI32(txn) && IsI32(|stored|)
      modifies overflow, buf
      ensures overflow.Valid() && Overflow.ReadsKept(old(overflow.pages), overflow.pages, overflow.pageSize)
      ensures ok == old(ChainPage.SetFits(overflow, chain, overflow.pageSize, stored))
      ensures ChainPage.Decided(old(overflow.nextPage), overflow.nextPage, overflow.limit, ok, chain, overflow.pageSize, stored)
      ensures Bears(buf[..], overflow.pageSize, overflow.pages, rs', Extended(chain, ok, Version(txn, 0, false, stored)))
    {
      ok, rs' := ChainPage.MvccSet(overflow, buf, txn, stored, rs, chain);
    }

    /** Appends a version, with overflow pages for a long value. */
    method Append(cid: int, txn: int, stored: Bytes) returns (ok: bool)
      requires Valid() && cid in chains && IsI32(txn) && IsI32(|stored|)
      modifies this, overflow
      ensures Valid() && ok == old(ChainPage.SetFits(overflow, chains[cid], overflow.pageSize, stored))
      ensures ChainPage.Decided(old(overflow.nextPage), overflow.nextPage, overflow.limit, ok, old(chains[cid]), overflow.pageSize, stored)
      ensures chains == old(chains)[cid := Extended(old(chains)[cid], ok, Version(txn, 0, false, stored))]
    {
      var buf := Pin(cid);
      ghost var more, rs := overflow.pages, [];
      ok, rs := SetOn(buf, txn, stored, recs[cid], chains[cid]);
      PutAfter(more, cid, buf, rs, Extended(chains[cid], ok, Version(txn, 0, false, stored)));
    }

    /** The overflow pages have not run out. */
    ghost predicate Plenty()
      reads overflow
    {
      overflow.nextPage < overflow.limit
    }

    /** Whether a value has found room on the key's page, with the overflow pages from `next` on. */
    ghost predicate Room(s: State, k: Bytes, stored: Bytes, next: int, room: bool)
      requires PageSizeOk(overflow.pageSize)
      reads overflow
    {
      && next <= overflow.nextPage && (room <==> FitsValue(s, k, stored, overflow.pageSize, next, overflow.limit))
      && (Plenty() ==> (room <==> TakesValue(s, k, stored, overflow.pageSize)))
    }

    /** Room for one more entry without a value. */
    ghost predicate TombstoneFits(cid: int)
      requires cid in chains
      reads this
    {
      ChainPage.TakesTombstone(chains[cid], overflow.pageSize)
    }

    method DeleteOn(buf: array<Byte>, txn: int, ghost rs: seq<Bytes>, ghost chain: seq<Version>) returns (ok: bool, ghost rs': seq<Bytes>)
      requires overflow.Valid() && Bears(buf[..], overflow.pageSize, overflow.pages, rs, chain) && IsI32(txn)
      modifies buf
      ensures ok <==> ChainPage.TakesTombstone(chain, overflow.pageSize)
      ensures Bears(buf[..], overflow.pageSize, overflow.pages, rs', Extended(chain, ok, Version(txn, 0, true, [])))
    {
      ok, rs' := ChainPage.MvccDelete(overflow, buf, txn, rs, chain);
    }

    method AppendTombstone(cid: int, txn: int) returns (ok: bool)
      requires Valid() && cid in chains && IsI32(txn)
      modifies this
      ensures Valid() && ok == old(TombstoneFits(cid))
      ensures chains == old(chains)[cid := Extended(old(chains)[cid], ok, Version(txn, 0, true, []))]
    {
      var buf := Pin(cid);
      ghost var rs;
      ok, rs := DeleteOn(buf, txn, recs[cid], chains[cid]);
      Put(cid, buf, rs, Extended(chains[cid], ok, Version(txn, 0, true, [])));
    }

    method PruneOne(cid: int, snapshot: seq<int>)
      requires Valid() && cid in chains
      modifies this
      ensures Valid() && chains == old(chains)[cid := Pruned(old(chains)[cid], snapshot)]
    {
      var buf := Pin(cid);
      ghost var rs := ChainPage.Prune(overflow, buf, snapshot, recs[cid], chains[cid]);
      Put(cid, buf, rs, Pruned(chains[cid], snapshot));
    }

    /** Prunes the pages below `end` that are cached, in page order. */
    method PruneCached(end: int, cached: set<int>, snapshot: seq<int>)
      requires Valid() && 1 <= end && forall p :: p in chains ==> 1 <= p
      modifies this
      ensures Valid() && SweptUpTo(old(chains), chains, cached, snapshot, end)
    {
      ghost var chains0 := chains;
      for pid := 1 to end
        invariant Valid() && SweptUpTo(chains0, chains, cached, snapshot, pid)
      {
        if pid in cached && pid in pages {
          PruneOne(pid, snapshot);
        }
      }
    }
  }

  // ---------- the session ----------

  class Session {
    const table: TxnTable
    const lockMgr: LockManager
    const directory: Directory
    const versions: Versions
    const log: WriteLog.Log
    const lz4: bool
    /** The page count in the header, which is written only when the database is created or closed. */
    const totalPages: int
    /** The keys of the database as it was opened, and their chain pages. */
    ghost const atOpening: map<Bytes, int>

    ghost predicate Valid()
      reads this, table, lockMgr, directory, directory.tree, versions, versions.overflow
    {
      && |table.txnStates| == |table.activeTxns| && directory.Valid() && versions.Valid()
      && directory.Apart(versions.chains.Keys) && Directed(directory.cids, versions.chains.Keys)
      && (forall k :: k in directory.cids ==> KeyFits(k))
      && 1 <= totalPages <= directory.tree.nextPage && StoredBelow(directory.cids, atOpening, totalPages)
    }

    ghost function View(): State
      requires Valid()
      reads this, table, lockMgr, directory, directory.tree, versions, versions.overflow
    {
      State(table.View(), lockMgr.nodes, ChainsOf(directory.cids, versions.chains))
    }

    constructor (maxTxns: nat, pageSize: nat, limit: int, lz4: bool)
      requires PageSizeOk(pageSize) && 0 <= limit < MAX_PAGES
      ensures Valid() && fresh(table) && fresh(lockMgr) && fresh(directory) && fresh(directory.tree) && fresh(versions) && fresh(versions.overflow)
      ensures fresh(log) && log.records == []
      ensures View() == Start(maxTxns) && this.lz4 == lz4 && atOpening == map[]
    {
      table := new TxnTable(maxTxns);
      lockMgr := new LockManager();
      directory := new Directory();
      versions := new Versions(pageSize, limit);
      log := new WriteLog.Log();
      this.lz4, totalPages, atOpening := lz4, FIRST_PAGE, map[];
    }

    /** The database that `closed` leaves behind, before anything is replayed. */
    constructor Open(closed: Session)
      requires closed.Valid()
      ensures Valid() && fresh(table) && fresh(lockMgr) && directory == closed.directory && versions == closed.versions && log == closed.log
      ensures View() == closed.View().(txns := Txns(closed.table.nextTxid, closed.table.maxTxns, [], []), locks := [])
      ensures lz4 == closed.lz4 && totalPages == closed.directory.tree.nextPage && atOpening == closed.directory.cids
    {
      table := new TxnTable.Resume(closed.table.nextTxid, closed.table.maxTxns);
      lockMgr := new LockManager();
      directory, versions, log, lz4 := closed.directory, closed.versions, closed.log, closed.lz4;
      totalPages, atOpening := closed.directory.tree.nextPage, closed.directory.cids;
    }

    method Begin() returns (txn: int)
      requires Valid()
      modifies table
      ensures Valid() && View() == Next(old(View()), Step.Begin)
      ensures txn == if CanBegin(old(View()).txns) then old(table.nextTxid) else -1
    {
      txn := table.Begin();
    }

    method Commit(txn: int)
      requires Valid()
      modifies table, lockMgr, log
      ensures Valid() && View() == Next(old(View()), Step.Commit(txn))
      ensures log.records == old(log.records) + [WriteLog.Committed(txn)]
    {
      log.Append(WriteLog.Committed(txn));
      table.RemoveActive(txn);
      lockMgr.Release(txn);
    }

    method Rollback(txn: int)
      requires Valid()
      modifies table, lockMgr, log
      ensures Valid() && View() == Next(old(View()), Step.Rollback(txn))
      ensures log.records == old(log.records) + [WriteLog.Aborted(txn)]
    {
      log.Append(WriteLog.Aborted(txn));
      table.MarkRolledBack(txn);
      lockMgr.Release(txn);
    }

    /** Descends the tree, decodes the descriptor, scans the chain page, and decompresses. */
    method Get(txn: int, key: Bytes) returns (r: Option<Bytes>)
      requires Valid()
      ensures r == Unpacked(lz4, Read(View(), txn, key))
    {
      if |key| <= 0 || |key| > MAX_KEY_SIZE {
        return None;
      }
      var active := table.TxnIsActive(txn);
      if !active {
        return None;
      }
      var cid := directory.Lookup(key, versions.chains.Keys);
      if cid < 0 {
        return None;
      }
      r := versions.FindVisible(cid, txn, table.activeTxns);
      if r.Some? && lz4 {
        r := Lz4.Decompress(r.value, MAX_RECORD_SIZE);
      }
    }

    method Pack(value: Bytes) returns (stored: Option<Bytes>)
      requires IsI32(|value|)
      ensures stored.Some? <==> Packable(lz4, value)
      ensures stored.Some? ==> Packs(lz4, value, stored.value) && IsI32(|stored.value|)
    {
      if lz4 {
        stored := Lz4.Compress(value);
      } else {
        stored := Some(value);
      }
    }

    /** A fresh page with an empty chain. */
    method NewChain() returns (cid: int)
      requires Valid() && directory.tree.nextPage < MAX_PAGES
      modifies directory.tree, versions
      ensures Valid() && cid !in old(versions.chains) && totalPages <= cid
      ensures old(directory.tree.nextPage) <= directory.tree.nextPage
      ensures versions.chains == old(versions.chains)[cid := []]
    {
      ghost var was := versions.chains;
      cid := directory.NewPage(was.Keys);
      ChainsBeside(directory.cids, was, cid);
      versions.Open(cid);
    }

    /** A fresh page with an empty chain, whose descriptor goes into the tree. */
    method AddChain(key: Bytes) returns (cid: int)
      requires Valid() && KeyFits(key) && key !in directory.cids && directory.tree.nextPage < MAX_PAGES
      modifies directory, directory.tree, versions
      ensures Valid() && View() == old(View()).(chains := old(View()).chains[key := []])
      ensures old(directory.tree.nextPage) <= directory.tree.nextPage
      ensures key in directory.cids && directory.cids[key] == cid && cid !in old(versions.chains) && versions.chains == old(versions.chains)[cid := []]
    {
      ghost var was := versions.chains;
      cid := NewChain();
      ChainsEntered(directory.cids, was, key, cid);
      StoredStays(directory.cids, atOpening, totalPages, key, cid);
      directory.Enter(key, cid, versions.chains.Keys);
    }

    /** The key's exclusive lock, for a transaction that is not finished. */
    method Lock(txn: int, key: Bytes) returns (granted: bool)
      requires Valid()
      modifies lockMgr
      ensures Valid() && granted == (IsActive(table.View(), txn) && Grants(old(lockMgr.nodes), txn, key, true))
      ensures lockMgr.nodes == if granted then Acquired(old(lockMgr.nodes), txn, key, true) else old(lockMgr.nodes)
    {
      granted := table.TxnIsActive(txn);
      if granted {
        granted := lockMgr.Acquire(txn, key, true);
      }
    }

    method AppendVersion(txn: int, key: Bytes, cid: int, stored: Bytes) returns (ok: bool)
      requires Valid() && key in directory.cids && cid == directory.cids[key] && IsI32(txn) && IsI32(|stored|)
      modifies versions, versions.overflow
      ensures Valid() && versions.Room(old(View()), key, stored, old(versions.overflow.nextPage), ok)
      ensures View() == if ok then Mvcc.Append(old(View()), key, Version(txn, 0, false, stored)) else old(View())
    {
      ghost var s, was := View(), versions.chains;
      ok := versions.Append(cid, txn, stored);
      ChainExtended(s, directory.cids, was, key, ok, Version(txn, 0, false, stored));
    }

    method AppendTombstone(txn: int, key: Bytes, cid: int) returns (ok: bool)
      requires Valid() && key in directory.cids && cid == directory.cids[key] && IsI32(txn)
      modifies versions
      ensures Valid() && ok == HasRoom(old(View()), key, versions.overflow.pageSize)
      ensures View() == if ok then Mvcc.Append(old(View()), key, Version(txn, 0, true, [])) else old(View())
    {
      ghost var s, was := View(), versions.chains;
      ok := versions.AppendTombstone(cid, txn);
      ChainExtended(s, directory.cids, was, key, ok, Version(txn, 0, true, []));
    }

    /** Overflow pages that the log takes for a value longer than a record has space for. */
    ghost function Aside(value: Bytes): nat
      requires PageSizeOk(versions.overflow.pageSize)
    {
      if |value| > MAX_KEY_SIZE then Overflow.Chunks(|value|, Overflow.ChunkSize(versions.overflow.pageSize)) else 0
    }

    /** The record of an update; none when the overflow pages for a long value run out. */
    ghost function UpdateRecord(txn: int, key: Bytes, value: Bytes): seq<WriteLog.Record>
      requires PageSizeOk(versions.overflow.pageSize)
      reads versions.overflow
    {
      if versions.overflow.nextPage + Aside(value) <= versions.overflow.limit then [WriteLog.Update(txn, key, value)] else []
    }

    /** A long value goes over overflow pages; when they run out there is no record, and no error either. */
    method LogUpdate(txn: int, key: Bytes, value: Bytes)
      requires Valid()
      modifies versions.overflow, log
      ensures Valid() && View() == old(View())
      ensures log.records == old(log.records) + old(UpdateRecord(txn, key, value))
      ensures versions.overflow.nextPage == old(NextAfterLog(value))
    {
      assert log.records + [] == log.records;
      if |value| > MAX_KEY_SIZE {
        var ok := versions.WriteAside(value);
        if !ok {
          return;
        }
      }
      log.Append(WriteLog.Update(txn, key, value));
    }

    /** The first overflow page once the update is logged. */
    ghost function NextAfterLog(value: Bytes): int
      requires PageSizeOk(versions.overflow.pageSize)
      reads versions.overflow
    {
      Overflow.PagesGone(versions.overflow.nextPage, versions.overflow.limit, Aside(value))
    }

    /** What a value is stored as and whether it finds room, given a chain. */
    ghost predicate Filled(s: State, key: Bytes, value: Bytes, stored: Bytes, next: int, room: bool)
      requires PageSizeOk(versions.overflow.pageSize)
      reads versions.overflow
    {
      if Packable(lz4, value) then Packs(lz4, value, stored) && versions.Room(s, key, stored, next, room) else !room
    }

    /** The chain page of the key, a new one if need be and if there is one. */
    method ChainOrNew(key: Bytes, found: bool) returns (cid: int)
      requires Valid() && KeyFits(key) && (found ==> directory.tree.nextPage < MAX_PAGES)
      modifies directory, directory.tree, versions
      ensures Valid() && View() == Entered(old(View()), key, found)
      ensures old(directory.tree.nextPage) <= directory.tree.nextPage
      ensures cid >= 0 <==> key in old(View()).chains || found
      ensures cid >= 0 ==> key in directory.cids && cid == directory.cids[key]
    {
      cid := directory.Lookup(key, versions.chains.Keys);
      if cid < 0 && found {
        cid := AddChain(key);
      }
    }

    ghost function Pages(): Setting
      reads this, directory, directory.tree, versions, versions.overflow
    {
      Setting(lz4, versions.overflow.pageSize, atOpening, directory.tree.nextPage < MAX_PAGES && versions.Plenty())
    }

    /** Pages are only added. */
    ghost predicate Grown(pages: int, more: int)
      reads directory, directory.tree, versions.overflow
    {
      pages <= directory.tree.nextPage && more <= versions.overflow.nextPage
    }

    /** What Set does once the key is locked. */
    method Write(txn: int, key: Bytes, value: Bytes, found: bool) returns (ok: bool, ghost stored: Bytes, ghost room: bool)
      requires Valid() && KeyFits(key) && IsI32(txn) && IsI32(|value|) && (found ==> directory.tree.nextPage < MAX_PAGES)
      modifies directory, directory.tree, versions, versions.overflow, log
      ensures Valid() && View() == Written(old(View()), txn, key, stored, found, room)
      ensures room == ok && if key in old(View()).chains || found then Filled(Entered(old(View()), key, found), key, value, stored, old(NextAfterLog(value)), room) else !room
      ensures Grown(old(directory.tree.nextPage), old(versions.overflow.nextPage))
      ensures log.records == old(log.records) + if key in old(View()).chains || found then old(UpdateRecord(txn, key, value)) else []
    {
      ok, stored := false, [];
      assert log.records + [] == log.records;
      var cid := ChainOrNew(key, found);
      if cid >= 0 {
        ok, stored := WriteInto(txn, key, value, cid);
      }
      room := ok;
    }

    /** The log record, the compression and the version, once there is a chain. */
    method WriteInto(txn: int, key: Bytes, value: Bytes, cid: int) returns (ok: bool, ghost stored: Bytes)
      requires Valid() && key in directory.cids && cid == directory.cids[key] && IsI32(txn) && IsI32(|value|)
      modifies versions, versions.overflow, log
      ensures Valid() && View() == if ok then Mvcc.Append(old(View()), key, Version(txn, 0, false, stored)) else old(View())
      ensures Filled(old(View()), key, value, stored, old(NextAfterLog(value)), ok)
      ensures Grown(old(directory.tree.nextPage), old(versions.overflow.nextPage))
      ensures log.records == old(log.records) + old(UpdateRecord(txn, key, value))
    {
      LogUpdate(txn, key, value);
      ok, stored := PackAndAppend(txn, key, value, cid);
    }

    method PackAndAppend(txn: int, key: Bytes, value: Bytes, cid: int) returns (ok: bool, ghost stored: Bytes)
      requires Valid() && key in directory.cids && cid == directory.cids[key] && IsI32(txn) && IsI32(|value|)
      modifies versions, versions.overflow
      ensures Valid() && View() == if ok then Mvcc.Append(old(View()), key, Version(txn, 0, false, stored)) else old(View())
      ensures Filled(old(View()), key, value, stored, old(versions.overflow.nextPage), ok)
      ensures old(versions.overflow.nextPage) <= versions.overflow.nextPage
    {
      var packed := Pack(value);
      if packed.None? {
        return false, [];
      }
      ok := AppendVersion(txn, key, cid, packed.value);
      stored := packed.value;
    }

    method LockAndWrite(txn: int, key: Bytes, value: Bytes, found: bool) returns (ok: bool, ghost stored: Bytes, ghost room: bool)
      requires Valid() && KeyFits(key) && IsI32(txn) && IsI32(|value|) && (found ==> directory.tree.nextPage < MAX_PAGES)
      modifies lockMgr, directory, directory.tree, versions, versions.overflow, log
      ensures Valid() && View() == Next(old(View()), Step.Set(txn, key, stored, found, room))
      ensures if Grantable(old(View()), txn, key, found) then Filled(old(View()), key, value, stored, old(NextAfterLog(value)), room) else !room
      ensures room == ok == SetSucceeds(old(View()), txn, key, found, room)
      ensures Grown(old(directory.tree.nextPage), old(versions.overflow.nextPage))
      ensures log.records == old(log.records) + if Grantable(old(View()), txn, key, found) then old(UpdateRecord(txn, key, value)) else []
    {
      ghost var s := View();
      stored, room := [], false;
      ok := Lock(txn, key);
      if ok {
        ghost var next, size, limit := NextAfterLog(value), versions.overflow.pageSize, versions.overflow.limit;
        ok, stored, room := Write(txn, key, value, found);
        SameOnceEntered(s, key, found, stored, size, next, limit);
      } else {
        assert log.records + [] == log.records;
      }
    }

    /**
     * Writes a version. `free` is the cache's answer to a request for a page; everything else is decided
     * by what the pages hold. With compression an empty value or one over 65536 bytes is refused, but
     * only after the key has been locked and entered and the update logged.
     */
    method Set(txn: int, key: Bytes, value: Bytes, free: bool) returns (ok: bool, ghost stored: Bytes, ghost alloc: bool, ghost room: bool)
      requires Valid() && IsI32(txn) && IsI32(|value|)
      modifies lockMgr, directory, directory.tree, versions, versions.overflow, log
      ensures Valid() && View() == Next(old(View()), Step.Set(txn, key, stored, alloc, room))
      ensures alloc <==> free && old(directory.tree.nextPage) < MAX_PAGES
      ensures if Grantable(old(View()), txn, key, alloc) then Filled(old(View()), key, value, stored, old(NextAfterLog(value)), room) else !room
      ensures room == ok == SetSucceeds(old(View()), txn, key, alloc, room)
      ensures Grown(old(directory.tree.nextPage), old(versions.overflow.nextPage))
      ensures log.records == old(log.records) + if Grantable(old(View()), txn, key, alloc) then old(UpdateRecord(txn, key, value)) else []
      ensures WriteLog.Essential(log.records) == WriteLog.Essential(old(log.records))
    {
      var found := free && directory.tree.nextPage < MAX_PAGES;
      alloc := found;
      WriteLog.EssentialMore(log.records, WriteLog.Update(txn, key, value));
      assert log.records + [] == log.records;
      if |key| <= 0 || |key| > MAX_KEY_SIZE {
        ok, stored, room := false, [], false;
      } else {
        ok, stored, room := LockAndWrite(txn, key, value, found);
      }
    }

    /** Appends a tombstone behind the key's versions, if it has any; `logged` says whether to make a record first. */
    method Bury(txn: int, key: Bytes, logged: bool) returns (ok: bool)
      requires Valid() && IsI32(txn)
      modifies versions, log
      ensures ok ==> key in old(View()).chains
      ensures Valid() && View() == if ok then Mvcc.Append(old(View()), key, Version(txn, 0, true, [])) else old(View())
      ensures ok <==> HasRoom(old(View()), key, versions.overflow.pageSize)
      ensures log.records == old(log.records) + if logged && key in directory.cids then [WriteLog.Deletion(txn, key)] else []
    {
      var cid := directory.Lookup(key, versions.chains.Keys);
      if cid < 0 {
        return false;
      }
      if logged {
        log.Append(WriteLog.Deletion(txn, key));
      }
      ok := AppendTombstone(txn, key, cid);
    }

    method LockAndBury(txn: int, key: Bytes) returns (ok: bool)
      requires Valid() && IsI32(txn) && key != []
      modifies lockMgr, versions, log
      ensures Valid() && View() == Next(old(View()), Step.Delete(txn, key, ok))
      ensures ok <==> !DeleteRefused(old(View()), txn, key) && HasRoom(old(View()), key, versions.overflow.pageSize)
      ensures log.records == old(log.records) + if LogsDelete(old(View()), Step.Delete(txn, key, ok)) then [WriteLog.Deletion(txn, key)] else []
    {
      ghost var s := View();
      ok := Lock(txn, key);
      ghost var s1 := View();
      if ok {
        ok := Bury(txn, key, true);
      }
      DeleteIs(s, s1, View(), txn, key, ok);
    }

    /** The record goes into the log before there is found to be room. */
    method Delete(txn: int, key: Bytes) returns (ok: bool, ghost room: bool)
      requires Valid() && IsI32(txn)
      modifies lockMgr, versions, log
      ensures Valid() && View() == Next(old(View()), Step.Delete(txn, key, room))
      ensures room == ok == DeleteSucceeds(old(View()), txn, key, room)
      ensures ok <==> !DeleteRefused(old(View()), txn, key) && HasRoom(old(View()), key, versions.overflow.pageSize)
      ensures log.records == old(log.records) + if LogsDelete(old(View()), Step.Delete(txn, key, room)) then [WriteLog.Deletion(txn, key)] else []
    {
      if |key| <= 0 {
        return false, false;
      }
      ok := LockAndBury(txn, key);
      room := ok;
    }

    // ---------- opening ----------

    /** Appends a tombstone for each of these deletions; what has no room or no key is passed over. */
    method Recover(entries: seq<(int, Bytes)>)
      requires Valid() && forall i :: 0 <= i < |entries| ==> IsI32(entries[i].0)
      modifies versions, log
      ensures Valid() && View() == old(View()).(chains := Replayed(old(View()).chains, entries, versions.overflow.pageSize))
      ensures log.records == old(log.records)
    {
      ghost var s := View();
      for i := 0 to |entries|
        invariant Valid() && View() == s.(chains := Replayed(s.chains, entries[..i], versions.overflow.pageSize))
        invariant log.records == old(log.records)
      {
        var ok := Bury(entries[i].0, entries[i].1, false);
        ReplayedMore(s.chains, entries, i, versions.overflow.pageSize);
      }
      assert entries[..|entries|] == entries;
    }

    /** The stored keys whose pages a collection reaches. */
    ghost function Sweepable(cached: set<int>): set<Bytes>
      reads this
    {
      set k | k in atOpening && atOpening[k] in cached
    }

    /**
     * Prunes the cached chain pages below the page count that the database was opened with, in page order,
     * against the active list taken at the start. Those are the pages of keys that were stored then.
     */
    method Gc(cached: set<int>)
      requires Valid()
      modifies versions
      ensures Valid() && View() == Next(old(View()), Collect(Sweepable(cached)))
    {
      ghost var s, was, keys := View(), versions.chains, Sweepable(cached);
      versions.PruneCached(totalPages, cached, table.activeTxns);
      ghost var s' := View();
      SweepIsCollect(s, s', directory.cids, was, versions.chains, atOpening, totalPages, cached, keys);
    }

    /** Collects, then empties the log. */
    method Checkpoint(cached: set<int>)
      requires Valid()
      modifies versions, log
      ensures Valid() && View() == Next(old(View()), Collect(Sweepable(cached))) && log.records == []
    {
      Gc(cached);
      log.Truncate();
    }
  }

  lemma {:induction false} ReplaysInRange(part: seq<WriteLog.Record>, all: seq<WriteLog.Record>)
    requires forall r :: r in part && r.Deletion? ==> IsI32(r.txn)
    ensures forall i :: 0 <= i < |WriteLog.ToReplay(part, all)| ==> IsI32(WriteLog.ToReplay(part, all)[i].0)
  {
    if part != [] {
      var n := |part| - 1;
      assert part[n] in part;
      ReplaysInRange(part[..n], all);
    }
  }

  /**
   * Opening a database that was closed: the same pages, nobody listed, and a tombstone for every deletion
   * in the log whose transaction has a commit record there, where the key's page has room. The log goes on.
   */
  method Reopen(closed: Session) returns (session: Session)
    requires closed.Valid() && forall r :: r in closed.log.records && r.Deletion? ==> IsI32(r.txn)
    modifies closed.versions, closed.log
    ensures fresh(session) && session.Valid()
    ensures var log := old(closed.log.records);
            session.View() == Reopened(old(closed.View()), WriteLog.ToReplay(log, log), closed.versions.overflow.pageSize)
    ensures session.atOpening == closed.directory.cids == session.directory.cids
    ensures session.totalPages == closed.directory.tree.nextPage == session.directory.tree.nextPage
    ensures session.log == closed.log && session.log.records == old(closed.log.records)
  {
    var entries := WriteLog.Deletions(closed.log.records);
    ReplaysInRange(closed.log.records, closed.log.records);
    session := new Session.Open(closed);
    session.Recover(entries);
  }

  // ---------- whole sessions ----------

  /** A call with its arguments; a collection names the pages that are cached. */
  datatype Request =
    | BeginTxn
    | SetKey(txn: int, key: Bytes, value: Bytes, free: bool)
    | DeleteKey(txn: int, key: Bytes)
    | CommitTxn(txn: int)
    | RollbackTxn(txn: int)
    | RunGc(cached: set<int>)

  predicate InRange(q: Request) {
    match q
    case SetKey(t, _, v, _) => IsI32(t) && IsI32(|v|)
    case DeleteKey(t, _) => IsI32(t)
    case BeginTxn => true
    case CommitTxn(_) => true
    case RollbackTxn(_) => true
    case RunGc(_) => true
  }

  /**
   * What of a session's pages decides about its steps: the page size, the keys stored at the opening with
   * their pages, and whether there are pages left, for chains as for long values.
   */
  datatype Setting = Setting(lz4: bool, size: nat, stored: map<Bytes, int>, plenty: bool)

  /** The value is stored in the form that packing gives it, if the key's page takes the entry. */
  ghost predicate Stores(s: State, step: Step, value: Bytes, e: Setting)
    requires step.Set?
  {
    if Grantable(s, step.txn, step.key, step.alloc) && Packable(e.lz4, value) then
      && Packs(e.lz4, value, step.value)
      && (step.room ==> TakesValue(s, step.key, step.value, e.size))
      && (e.plenty && TakesValue(s, step.key, step.value, e.size) ==> step.room)
    else !step.room
  }

  /** The step that a request turns into in state s: what the pages decide is filled in. */
  ghost predicate Becomes(q: Request, step: Step, s: State, e: Setting) {
    match q
    case BeginTxn => step.Begin?
    case SetKey(t, k, v, free) =>
      step.Set? && step.txn == t && step.key == k && (step.alloc ==> free) && (e.plenty && free ==> step.alloc) && Stores(s, step, v, e)
    case DeleteKey(t, k) =>
      step.Delete? && step.txn == t && step.key == k && (step.room <==> !DeleteRefused(s, t, k) && HasRoom(s, k, e.size))
    case CommitTxn(t) => step == Step.Commit(t)
    case RollbackTxn(t) => step == Step.Rollback(t)
    case RunGc(cached) => step.Collect? && step.keys == set k | k in e.stored && e.stored[k] in cached
  }

  method Serve(session: Session, q: Request) returns (ghost step: Step)
    requires session.Valid() && InRange(q)
    modifies session.table, session.lockMgr, session.directory, session.directory.tree, session.versions, session.versions.overflow, session.log
    ensures WriteLog.Essential(session.log.records) == WriteLog.Essential(old(session.log.records)) + LoggedBy(old(session.View()), step)
    ensures session.Valid() && session.View() == Next(old(session.View()), step)
    ensures Becomes(q, step, old(session.View()), session.Pages())
    ensures session.Pages().plenty ==> old(session.Pages()).plenty
  {
    ghost var records, s := session.log.records, session.View();
    match q {
      case BeginTxn =>
        var txn := session.Begin();
        step := Step.Begin;
      case SetKey(t, k, v, free) =>
        var ok;
        ghost var stored, alloc, room;
        ok, stored, alloc, room := session.Set(t, k, v, free);
        step := Step.Set(t, k, stored, alloc, room);
      case DeleteKey(t, k) =>
        var ok;
        ghost var room;
        ok, room := session.Delete(t, k);
        step := Step.Delete(t, k, room);
      case CommitTxn(t) =>
        session.Commit(t);
        step := Step.Commit(t);
      case RollbackTxn(t) =>
        session.Rollback(t);
        step := Step.Rollback(t);
      case RunGc(cached) =>
        session.Gc(cached);
        step := Collect(session.Sweepable(cached));
    }
    RecordsOf(records, session.log.records, s, step);
  }

  /** What a call has appended to the log is, as far as a replay looks, what its step says. */
  lemma {:induction false} RecordsOf(records: seq<WriteLog.Record>, records': seq<WriteLog.Record>, s: State, step: Step)
    requires match step
             case Commit(t) => records' == records + [WriteLog.Committed(t)]
             case Rollback(t) => records' == records + [WriteLog.Aborted(t)]
             case Delete(t, k, _) => records' == records + if LogsDelete(s, step) then [WriteLog.Deletion(t, k)] else []
             case Begin => records' == records
             case Set(_, _, _, _, _) => WriteLog.Essential(records') == WriteLog.Essential(records)
             case Collect(_) => records' == records
    ensures WriteLog.Essential(records') == WriteLog.Essential(records) + LoggedBy(s, step)
  {
    match step
    case Commit(t) => WriteLog.EssentialMore(records, WriteLog.Committed(t));
    case Rollback(t) => WriteLog.EssentialMore(records, WriteLog.Aborted(t));
    case Delete(t, k, _) =>
      WriteLog.EssentialMore(records, WriteLog.Deletion(t, k));
      assert records + [] == records;
    case Begin =>
    case Set(_, _, _, _, _) =>
    case Collect(_) =>
  }

  ghost predicate AllBecome(requests: seq<Request>, steps: seq<Step>, s: State, e: Setting) {
    |steps| == |requests| && forall i :: 0 <= i < |steps| ==> Becomes(requests[i], steps[i], Run(s, steps[..i]), e)
  }

  lemma {:induction false} OneMoreBecomes(requests: seq<Request>, n: nat, steps: seq<Step>, step: Step, s: State, e: Setting, e': Setting)
    requires n < |requests| && AllBecome(requests[..n], steps, s, e) && Becomes(requests[n], step, Run(s, steps), e')
    requires e' == e.(plenty := e'.plenty) && (e'.plenty ==> e.plenty)
    ensures AllBecome(requests[..n + 1], steps + [step], s, e')
  {
    var more := steps + [step];
    forall i | 0 <= i <= n ensures Becomes(requests[..n + 1][i], more[i], Run(s, more[..i]), e') {
      if i < n {
        assert more[..i] == steps[..i];
        assert Becomes(requests[..n][i], steps[i], Run(s, steps[..i]), e);
      } else {
        assert more[..n] == steps;
      }
    }
  }

  lemma {:induction false} FrontBecomes(requests: seq<Request>, steps: seq<Step>, s: State, e: Setting)
    requires AllBecome(requests, steps, s, e) && steps != []
    ensures var n := |steps| - 1; AllBecome(requests[..n], steps[..n], s, e) && Becomes(requests[n], steps[n], Run(s, steps[..n]), e)
  {
    var n := |steps| - 1;
    forall i | 0 <= i < n ensures Becomes(requests[..n][i], steps[..n][i], Run(s, steps[..n][..i]), e) {
      assert steps[..n][..i] == steps[..i];
      assert Becomes(requests[i], steps[i], Run(s, steps[..i]), e);
    }
  }

  lemma {:induction false} PacksOnce(lz4: bool, value: Bytes, a: Bytes, b: Bytes)
    requires Packs(lz4, value, a) && Packs(lz4, value, b)
    ensures a == b
  {
    if lz4 {
      Lz4.OneBlock(value, a, b);
    }
  }

  lemma {:induction false} NextIsOne(q: Request, a: Step, b: Step, s: State, e: Setting)
    requires e.plenty && Becomes(q, a, s, e) && Becomes(q, b, s, e)
    ensures Next(s, a) == Next(s, b)
  {
    if q.SetKey? && Grantable(s, q.txn, q.key, q.free) && Packable(e.lz4, q.value) {
      PacksOnce(e.lz4, q.value, a.value, b.value);
    }
  }

  /** As long as there are pages left, the requests alone decide where a session ends. */
  lemma {:induction false} RequestsDecide(requests: seq<Request>, a: seq<Step>, b: seq<Step>, s: State, e: Setting)
    requires e.plenty && AllBecome(requests, a, s, e) && AllBecome(requests, b, s, e)
    ensures Run(s, a) == Run(s, b)
  {
    if requests != [] {
      var n := |requests| - 1;
      FrontBecomes(requests, a, s, e);
      FrontBecomes(requests, b, s, e);
      RequestsDecide(requests[..n], a[..n], b[..n], s, e);
      NextIsOne(requests[n], a[n], b[n], Run(s, a[..n]), e);
    }
  }

  /** In a session, collections go no further than what was stored when the database was opened. */
  lemma {:induction false} SweepsOnlyStored(open: State, requests: seq<Request>, steps: seq<Step>, e: Setting)
    requires AllBecome(requests, steps, open, e) && e.stored.Keys <= open.chains.Keys
    ensures SweepsStored(open, steps)
  {
    forall i | 0 <= i < |steps| && steps[i].Collect? ensures steps[i].keys <= open.chains.Keys {
      assert Becomes(requests[i], steps[i], Run(open, steps[..i]), e);
    }
  }

  /** So in the first session on a new database they leave everything as it is. */
  lemma {:induction false} NewSessionNeverPrunes(maxTxns: nat, requests: seq<Request>, steps: seq<Step>, e: Setting)
    requires AllBecome(requests, steps, Start(maxTxns), e) && e.stored == map[]
    ensures Run(Start(maxTxns), steps) == Run(Start(maxTxns), WithoutCollections(steps))
  {
    SweepsOnlyStored(Start(maxTxns), requests, steps, e);
    NewIsNeverPruned(Start(maxTxns), steps);
  }

  /** The steps so far lead from s to v, and what they logged stands behind e. */
  ghost predicate Tracks(s: State, e: seq<WriteLog.Record>, steps: seq<Step>, v: State, records: seq<WriteLog.Record>) {
    v == Run(s, steps) && WriteLog.Essential(records) == e + Logged(s, steps)
  }

  lemma {:induction false} TracksMore(s: State, e: seq<WriteLog.Record>, steps: seq<Step>, v: State, records: seq<WriteLog.Record>,
                                      step: Step, v': State, records': seq<WriteLog.Record>)
    requires Tracks(s, e, steps, v, records) && v' == Next(v, step)
    requires WriteLog.Essential(records') == WriteLog.Essential(records) + LoggedBy(v, step)
    ensures Tracks(s, e, steps + [step], v', records')
  {
    RunMore(s, steps, step);
    LoggedMore(s, steps, step);
  }

  /**
   * Whatever is asked of a database, its pages are afterwards in the state that the corresponding steps
   * of the state machine lead to; what the state machine keeps, the pages keep.
   */
  method ServeAll(session: Session, requests: seq<Request>) returns (ghost steps: seq<Step>)
    requires session.Valid() && forall i :: 0 <= i < |requests| ==> InRange(requests[i])
    modifies session.table, session.lockMgr, session.directory, session.directory.tree, session.versions, session.versions.overflow, session.log
    ensures session.Valid() && AllBecome(requests, steps, old(session.View()), session.Pages())
    ensures Tracks(old(session.View()), WriteLog.Essential(old(session.log.records)), steps, session.View(), session.log.records)
    ensures old(Inv(session.View())) ==> Inv(session.View())
  {
    ghost var s, e := session.View(), WriteLog.Essential(session.log.records);
    steps := [];
    assert e + [] == e;
    for n := 0 to |requests|
      invariant session.Valid() && AllBecome(requests[..n], steps, s, session.Pages())
      invariant Tracks(s, e, steps, session.View(), session.log.records)
    {
      ghost var v, records, e0 := session.View(), session.log.records, session.Pages();
      ghost var step := Serve(session, requests[n]);
      OneMoreBecomes(requests, n, steps, step, s, e0, session.Pages());
      TracksMore(s, e, steps, v, records, step, session.View(), session.log.records);
      steps := steps + [step];
    }
    assert requests[..|requests|] == requests;
    if Inv(s) {
      RunKeeps(s, steps);
    }
  }

  lemma {:induction false} LoggedInRange(open: State, requests: seq<Request>, steps: seq<Step>, e: Setting)
    requires AllBecome(requests, steps, open, e) && forall i :: 0 <= i < |requests| ==> InRange(requests[i])
    ensures forall r :: r in Logged(open, steps) && r.Deletion? ==> IsI32(r.txn)
  {
    if steps != [] {
      var n := |steps| - 1;
      FrontBecomes(requests, steps, open, e);
      assert InRange(requests[n]);
      LoggedInRange(open, requests[..n], steps[..n], e);
    }
  }

  lemma {:induction false} ReplaysOf(records: seq<WriteLog.Record>, open: State, steps: seq<Step>)
    requires WriteLog.Essential(records) == Logged(open, steps)
    ensures WriteLog.ToReplay(records, records) == Replays(open, steps, steps)
  {
    WriteLog.EssentialReplays(records, records);
    LogReplays(open, steps, steps);
  }

  /**
   * A session that starts with an empty log, is closed and opened again: its pages are in the state in
   * which the state machine says that the next session finds the database.
   */
  method ServeAndReopen(session: Session, requests: seq<Request>) returns (next: Session, ghost steps: seq<Step>)
    requires session.Valid() && session.log.records == [] && forall i :: 0 <= i < |requests| ==> InRange(requests[i])
    modifies session.table, session.lockMgr, session.directory, session.directory.tree, session.versions, session.versions.overflow, session.log
    ensures next.Valid() && AllBecome(requests, steps, old(session.View()), session.Pages())
    ensures next.View() == NextSession(old(session.View()), steps, session.versions.overflow.pageSize)
    ensures next.atOpening == next.directory.cids && next.totalPages == next.directory.tree.nextPage
  {
    ghost var s := session.View();
    steps := ServeAll(session, requests);
    assert [] + Logged(s, steps) == Logged(s, steps);
    ghost var records := session.log.records;
    LoggedInRange(s, requests, steps, session.Pages());
    WriteLog.EssentialDeletions(records);
    next := Reopen(session);
    ReplaysOf(records, s, steps);
  }

  /** What a successful write stores, its transaction reads back, unless compressed and too long for a record. */
  lemma {:induction false} SetIsRead(s: State, t: int, k: Bytes, value: Bytes, stored: Bytes, alloc: bool, room: bool, lz4: bool)
    requires SetSucceeds(s, t, k, alloc, room) && Packs(lz4, value, stored)
    ensures Unpacked(lz4, Read(Next(s, Step.Set(t, k, stored, alloc, room)), t, k)) ==
            if lz4 && |value| > MAX_RECORD_SIZE then None else Some(value)
  {
    UnpackedIs(lz4, value, stored);
  }
}
