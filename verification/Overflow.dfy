/** Values too long for a chain page: written over linked pages, read back by following the links. */
module Overflow {
  import opened ByteStrings
  import opened Layout
  import opened SlottedPage
  import opened Sequences

  const PTR_SIZE := 4
  const NODE_OVERFLOW := 2
  const NO_PAGE := -1

  /** Value bytes per page. */
  function ChunkSize(pageSize: nat): (r: nat)
    requires 512 <= pageSize <= MAX_PAGE_SIZE
    ensures r > 0
  {
    pageSize - HEADER_SIZE - PTR_SIZE
  }

  /** How many pages a value of n bytes takes. */
  function Chunks(n: nat, cap: nat): nat
    requires cap > 0
  {
    if n == 0 then 0 else if n <= cap then 1 else 1 + Chunks(n - cap, cap)
  }

  /** The next page when n more are taken, as far as there are any. */
  function PagesGone(next: int, limit: int, n: nat): int {
    if next + n <= limit then next + n else limit
  }

  ghost predicate AllSized(pages: map<int, Bytes>, size: nat) {
    forall p :: p in pages ==> |pages[p]| == size
  }

  /** The page links to `next` and starts with these bytes. */
  ghost predicate Link(page: Bytes, next: int, data: Bytes) {
    && HEADER_SIZE + PTR_SIZE + |data| <= |page| && Get32(page, HEADER_SIZE) == next
    && page[HEADER_SIZE + PTR_SIZE..HEADER_SIZE + PTR_SIZE + |data|] == data
  }

  /** Pages pid to last hold v, all of them full but the last, which has `tail` bytes. */
  ghost predicate Chain(pages: map<int, Bytes>, pid: int, last: int, v: Bytes, tail: nat, cap: nat)
    decreases last - pid
  {
    && 0 <= pid <= last && pid in pages
    && if pid == last then 0 < |v| == tail <= cap && Link(pages[pid], NO_PAGE, v)
       else |v| > cap && Link(pages[pid], pid + 1, v[..cap]) && Chain(pages, pid + 1, last, v[cap..], tail, cap)
  }

  /** What following the links from pid yields for n bytes. */
  function ReadChain(pages: map<int, Bytes>, size: nat, pid: int, n: nat): Option<Bytes>
    requires 512 <= size <= MAX_PAGE_SIZE && AllSized(pages, size)
    decreases n
  {
    if n == 0 then Some([])
    else if pid < 0 || pid !in pages then None
    else
      var k := Min(n, ChunkSize(size));
      var rest := ReadChain(pages, size, Get32(pages[pid], HEADER_SIZE), n - k);
      if rest.None? then None else Some(pages[pid][HEADER_SIZE + PTR_SIZE..HEADER_SIZE + PTR_SIZE + k] + rest.value)
  }

  /** Reading a chain gives the value that it holds. */
  lemma {:induction false} ChainReads(pages: map<int, Bytes>, size: nat, pid: int, last: int, v: Bytes, tail: nat)
    requires 512 <= size <= MAX_PAGE_SIZE && AllSized(pages, size)
    requires Chain(pages, pid, last, v, tail, ChunkSize(size))
    ensures ReadChain(pages, size, pid, |v|) == Some(v)
    decreases last - pid
  {
    var cap := ChunkSize(size);
    if pid != last {
      ChainReads(pages, size, pid + 1, last, v[cap..], tail);
      assert v == v[..cap] + v[cap..];
    } else {
      assert v + [] == v;
    }
  }

  /** Adding pages changes nothing that could be read before. */
  lemma {:induction false} ReadStays(pages: map<int, Bytes>, more: map<int, Bytes>, size: nat, pid: int, n: nat)
    requires 512 <= size <= MAX_PAGE_SIZE && AllSized(pages, size) && AllSized(more, size)
    requires forall p :: p in pages ==> p in more && more[p] == pages[p]
    requires ReadChain(pages, size, pid, n).Some?
    ensures ReadChain(more, size, pid, n) == ReadChain(pages, size, pid, n)
    decreases n
  {
    if n != 0 {
      ReadStays(pages, more, size, Get32(pages[pid], HEADER_SIZE), n - Min(n, ChunkSize(size)));
    }
  }

  /** Linking one more page behind a chain whose last page is full. */
  lemma {:induction false} ChainGrows(pages: map<int, Bytes>, more: map<int, Bytes>, pid: int, last: int, v: Bytes, chunk: Bytes, cap: nat)
    requires Chain(pages, pid, last, v, cap, cap) && 0 < |chunk| <= cap
    requires forall p :: pid <= p < last && p in pages ==> p in more && more[p] == pages[p]
    requires last in pages && last in more && forall u :: Link(pages[last], NO_PAGE, u) ==> Link(more[last], last + 1, u)
    requires last + 1 in more && Link(more[last + 1], NO_PAGE, chunk)
    ensures Chain(more, pid, last + 1, v + chunk, |chunk|, cap)
    decreases last - pid
  {
    if pid == last {
      assert (v + chunk)[..cap] == v && (v + chunk)[cap..] == chunk;
    } else {
      ChainGrows(pages, more, pid + 1, last, v[cap..], chunk, cap);
      assert (v + chunk)[..cap] == v[..cap] && (v + chunk)[cap..] == v[cap..] + chunk;
    }
  }

  /** Whatever could be read is read as before. */
  ghost predicate ReadsKept(pages: map<int, Bytes>, more: map<int, Bytes>, size: nat)
    requires 512 <= size <= MAX_PAGE_SIZE && AllSized(pages, size) && AllSized(more, size)
  {
    forall pid, n: nat :: ReadChain(pages, size, pid, n).Some? ==> ReadChain(more, size, pid, n) == ReadChain(pages, size, pid, n)
  }

  lemma {:induction false} AllReadsStay(pages: map<int, Bytes>, more: map<int, Bytes>, size: nat)
    requires 512 <= size <= MAX_PAGE_SIZE && AllSized(pages, size) && AllSized(more, size)
    requires forall p :: p in pages ==> p in more && more[p] == pages[p]
    ensures ReadsKept(pages, more, size)
  {
    forall pid, n: nat | ReadChain(pages, size, pid, n).Some?
      ensures ReadChain(more, size, pid, n) == ReadChain(pages, size, pid, n)
    {
      ReadStays(pages, more, size, pid, n);
    }
  }

  class PageStore {
    const pageSize: nat
    const limit: int
    var pages: map<int, Bytes>
    var nextPage: int

    ghost predicate Valid()
      reads this
    {
      && 512 <= pageSize <= MAX_PAGE_SIZE && 0 <= nextPage <= limit < 0x8000_0000 && AllSized(pages, pageSize)
      && forall p :: p in pages ==> 0 <= p < nextPage
    }

    ghost predicate Extends(before: map<int, Bytes>)
      reads this
    {
      forall p :: p in before ==> p in pages && pages[p] == before[p]
    }

    /** Only page pid is new or changed. */
    ghost predicate Updates(before: map<int, Bytes>, pid: int)
      reads this
    {
      pid in pages && pages == before[pid := pages[pid]]
    }

    constructor (pageSize: nat, limit: int)
      requires 512 <= pageSize <= MAX_PAGE_SIZE && 0 <= limit < 0x8000_0000
      ensures Valid() && pages == map[]
    {
      this.pageSize, this.limit, pages, nextPage := pageSize, limit, map[], 0;
    }

    /** A fresh id, or -1 when there are no more pages. */
    method Allocate() returns (pid: int)
      requires Valid()
      modifies this`nextPage
      ensures Valid() && nextPage == old(nextPage) + if pid >= 0 then 1 else 0
      ensures pid == if old(nextPage) < limit then old(nextPage) else -1
    {
      if nextPage >= limit {
        return -1;
      }
      pid := nextPage;
      nextPage := nextPage + 1;
    }

    /** A new overflow page that holds a chunk and links nowhere. */
    method WriteChunk(pid: int, chunk: Bytes)
      requires Valid() && 0 <= pid < nextPage && |chunk| <= ChunkSize(pageSize)
      modifies this`pages
      ensures Valid() && Updates(old(pages), pid) && Link(pages[pid], NO_PAGE, chunk)
    {
      var buf := new Byte[pageSize];
      PageInit(buf, NODE_OVERFLOW, 0);
      CopyBytesIn(buf, HEADER_SIZE + PTR_SIZE, chunk);
      ghost var s := buf[..];
      Put32(buf, HEADER_SIZE, NO_PAGE);
      FieldSet(s, buf[..], HEADER_SIZE, NO_PAGE);
      PatchedOutside(s, buf[..], HEADER_SIZE, Bytes32(NO_PAGE), HEADER_SIZE + PTR_SIZE, HEADER_SIZE + PTR_SIZE + |chunk|);
      pages := pages[pid := buf[..]];
    }

    /** Overwrites the link of a page and nothing else in it. */
    method Relink(pid: int, next: int)
      requires Valid() && pid in pages && IsI32(next)
      modifies this`pages
      ensures Valid() && Updates(old(pages), pid)
      ensures forall was, u :: Link(old(pages)[pid], was, u) ==> Link(pages[pid], next, u)
    {
      var buf := new Byte[pageSize];
      ghost var s := pages[pid];
      CopyBytesIn(buf, 0, pages[pid]);
      assert buf[..] == s;
      Put32(buf, HEADER_SIZE, next);
      FieldSet(s, buf[..], HEADER_SIZE, next);
      forall was, u | Link(s, was, u) ensures Link(buf[..], next, u) {
        PatchedOutside(s, buf[..], HEADER_SIZE, Bytes32(next), HEADER_SIZE + PTR_SIZE, HEADER_SIZE + PTR_SIZE + |u|);
      }
      pages := pages[pid := buf[..]];
    }

    /** One more page behind `prev`, if there is one left. `done` is what the chain holds so far. */
    method AppendChunk(head: int, prev: int, chunk: Bytes, ghost done: Bytes) returns (pid: int)
      requires Valid() && 0 < |chunk| <= ChunkSize(pageSize)
      requires if prev < 0 then done == [] else prev in pages && Chain(pages, head, prev, done, ChunkSize(pageSize), ChunkSize(pageSize))
      requires prev < 0 || prev == nextPage - 1
      modifies this
      ensures Valid() && nextPage == old(nextPage) + if pid >= 0 then 1 else 0
      ensures pid == if old(nextPage) < limit then old(nextPage) else -1
      ensures forall p :: p in old(pages) && p != prev ==> p in pages && pages[p] == old(pages)[p]
      ensures forall p :: p in pages ==> p in old(pages) || p == pid
      ensures pid >= 0 ==> pid in pages && Chain(pages, if prev < 0 then pid else head, pid, done + chunk, |chunk|, ChunkSize(pageSize))
    {
      pid := Allocate();
      if pid < 0 {
        return -1;
      }
      ghost var before := pages;
      WriteChunk(pid, chunk);
      if prev >= 0 {
        Relink(prev, pid);
        ChainGrows(before, pages, head, prev, done, chunk, ChunkSize(pageSize));
      } else {
        assert done + chunk == chunk;
      }
    }

    /** What has been written so far: nothing, or a chain from head to prev, the last page taken. */
    ghost predicate Partly(head: int, prev: int, done: Bytes, first: int, tail: nat)
      requires 512 <= pageSize <= MAX_PAGE_SIZE
      reads this
    {
      if done == [] then head == -1 && prev == -1 && nextPage == first
      else first <= head <= prev == nextPage - 1 && prev in pages && Chain(pages, head, prev, done, tail, ChunkSize(pageSize))
    }

    /** The first page of a new chain that holds the value; -1 for an empty value or when pages run out. */
    method Write(value: Bytes) returns (head: int)
      requires Valid()
      modifies this
      ensures Valid() && Extends(old(pages))
      ensures head >= 0 <==> value != [] && old(nextPage) + Chunks(|value|, ChunkSize(pageSize)) <= limit
      ensures head >= 0 ==> ReadChain(pages, pageSize, head, |value|) == Some(value)
      ensures ReadsKept(old(pages), pages, pageSize)
      ensures nextPage == PagesGone(old(nextPage), limit, Chunks(|value|, ChunkSize(pageSize)))
    {
      head := -1;
      var prev, offset := -1, 0;
      var cap := ChunkSize(pageSize);
      ghost var pages0, first, tail, need := pages, nextPage, 0, Chunks(|value|, cap);
      while offset < |value|
        invariant Valid() && 0 <= offset <= |value| && Extends(pages0)
        invariant Partly(head, prev, value[..offset], first, tail) && (0 < offset < |value| ==> tail == cap)
        invariant nextPage + Chunks(|value| - offset, cap) == first + need
        invariant forall p :: p in pages0 ==> p < first
        decreases |value| - offset
      {
        var k := Min(cap, |value| - offset);
        var pid := AppendChunk(head, prev, value[offset..offset + k], value[..offset]);
        if pid < 0 {
          AllReadsStay(pages0, pages, pageSize);
          return -1;
        }
        if head == -1 {
          head := pid;
        }
        assert value[..offset + k] == value[..offset] + value[offset..offset + k];
        tail := k;
        prev := pid;
        offset := offset + k;
      }
      if value != [] {
        assert value[..|value|] == value;
        ChainReads(pages, pageSize, head, prev, value, tail);
      }
      AllReadsStay(pages0, pages, pageSize);
    }

    /** Follows the links until enough bytes are copied or the chain ends. */
    method Read(head: int, total: nat) returns (out: Option<Bytes>)
      requires Valid()
      ensures out == ReadChain(pages, pageSize, head, total)
    {
      var pid, copied: Bytes := head, [];
      var cap := ChunkSize(pageSize);
      ghost var goal := ReadChain(pages, pageSize, head, total);
      assert goal.Some? ==> [] + goal.value == goal.value;
      while pid >= 0 && |copied| < total
        invariant |copied| <= total
        invariant var rest := ReadChain(pages, pageSize, pid, total - |copied|);
                  goal == if rest.None? then None else Some(copied + rest.value)
        decreases total - |copied|
      {
        if pid !in pages {
          return None;
        }
        var page := pages[pid];
        var k := Min(cap, total - |copied|);
        var next := Get32(page, HEADER_SIZE);
        ghost var rest := ReadChain(pages, pageSize, next, total - |copied| - k);
        assert rest.Some? ==> copied + (page[HEADER_SIZE + PTR_SIZE..HEADER_SIZE + PTR_SIZE + k] + rest.value)
                              == (copied + page[HEADER_SIZE + PTR_SIZE..HEADER_SIZE + PTR_SIZE + k]) + rest.value;
        copied := copied + page[HEADER_SIZE + PTR_SIZE..HEADER_SIZE + PTR_SIZE + k];
        pid := next;
      }
      assert copied + [] == copied;
      return if |copied| == total then Some(copied) else None;
    }
  }
}
