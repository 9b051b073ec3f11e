/**
 * The page cache. What a page holds is defined by the slots and the disk together; every call keeps
 * it, except a write to the page itself.
 */
module BufferPool {
  import opened ByteStrings
  import opened Layout

  const NO_SLOT := -1
  const COUNTER_LIMIT := 0x1_0000_0000

  /** One cache slot: the entries at one index of the pool's parallel arrays. */
  datatype Slot = Slot(pageId: int, pin: nat, dirty: bool, loaded: bool, lastAccess: int, data: Bytes)

  predicate Caches(x: Slot, pid: int) {
    x.loaded && x.pageId == pid
  }

  function SlotOf(slots: seq<Slot>, pid: int): (r: int)
    ensures -1 <= r < |slots|
    ensures r >= 0 ==> Caches(slots[r], pid) && forall i :: 0 <= i < r ==> !Caches(slots[i], pid)
    ensures r < 0 ==> forall i :: 0 <= i < |slots| ==> !Caches(slots[i], pid)
  {
    if slots == [] then NO_SLOT
    else if Caches(slots[0], pid) then 0
    else var r := SlotOf(slots[1..], pid); if r < 0 then NO_SLOT else r + 1
  }

  /** A page that was never written reads as zeros. */
  function OnDisk(disk: map<int, Bytes>, zeros: Bytes, pid: int): Bytes {
    if pid in disk then disk[pid] else zeros
  }

  /** What the page holds: the cached copy if there is one, else what is on disk. */
  function Content(slots: seq<Slot>, disk: map<int, Bytes>, zeros: Bytes, pid: int): Bytes {
    var i := SlotOf(slots, pid);
    if i >= 0 then slots[i].data else OnDisk(disk, zeros, pid)
  }

  function Pins(slots: seq<Slot>, pid: int): nat {
    var i := SlotOf(slots, pid);
    if i >= 0 then slots[i].pin else 0
  }

  // ---------- the invariant ----------

  /** Each page occupies at most one slot. */
  ghost predicate OneSlotEach(slots: seq<Slot>) {
    forall i, j :: 0 <= i < j < |slots| && slots[i].loaded && slots[j].loaded ==> slots[i].pageId != slots[j].pageId
  }

  /** An unloaded slot is clean and unpinned; a clean loaded one agrees with the disk. */
  ghost predicate SlotOk(x: Slot, disk: map<int, Bytes>, zeros: Bytes) {
    if x.loaded then 0 <= x.pageId && (x.dirty || x.data == OnDisk(disk, zeros, x.pageId))
    else !x.dirty && x.pin == 0
  }

  ghost predicate Coherent(slots: seq<Slot>, disk: map<int, Bytes>, zeros: Bytes) {
    OneSlotEach(slots) && forall i :: 0 <= i < |slots| ==> SlotOk(slots[i], disk, zeros)
  }

  /** No page's content differs, except possibly that of `but`. */
  ghost predicate SameContent(slots: seq<Slot>, disk: map<int, Bytes>, slots': seq<Slot>, disk': map<int, Bytes>,
                              zeros: Bytes, but: set<int>)
  {
    forall p :: p !in but ==> Content(slots', disk', zeros, p) == Content(slots, disk, zeros, p)
  }

  /** Every pinned page is where it was, and no page but `but` has a different number of pins. */
  ghost predicate SamePins(slots: seq<Slot>, slots': seq<Slot>, but: set<int>) {
    && (forall p :: Pins(slots, p) > 0 ==> SlotOf(slots', p) == SlotOf(slots, p))
    && forall p :: p !in but ==> Pins(slots', p) == Pins(slots, p)
  }

  /** No page but `but` is newly cached. */
  ghost predicate NoneComesIn(slots: seq<Slot>, slots': seq<Slot>, but: set<int>) {
    forall p :: p !in but && SlotOf(slots', p) >= 0 ==> SlotOf(slots, p) >= 0
  }

  /** Nothing a client can see differs: no content, no pin, no page newly cached or newly marked, and no stamp. */
  ghost predicate Undisturbed(slots: seq<Slot>, disk: map<int, Bytes>, slots': seq<Slot>, disk': map<int, Bytes>, zeros: Bytes) {
    && SameContent(slots, disk, slots', disk', zeros, {}) && SamePins(slots, slots', {}) && NoneComesIn(slots, slots', {})
    && NoneDirtied(slots, slots', {}) && SameStamps(slots, slots')
  }

  ghost predicate SameStamps(slots: seq<Slot>, slots': seq<Slot>) {
    |slots'| == |slots| && forall i :: 0 <= i < |slots| ==> slots'[i].lastAccess == slots[i].lastAccess
  }

  lemma {:induction false} UndisturbedTwice(slots: seq<Slot>, disk: map<int, Bytes>, between: seq<Slot>, diskBetween: map<int, Bytes>,
                                            slots': seq<Slot>, disk': map<int, Bytes>, zeros: Bytes)
    requires Undisturbed(slots, disk, between, diskBetween, zeros) && Undisturbed(between, diskBetween, slots', disk', zeros)
    ensures Undisturbed(slots, disk, slots', disk', zeros)
  {
    forall p ensures Content(slots', disk', zeros, p) == Content(slots, disk, zeros, p) && Pins(slots', p) == Pins(slots, p)
                     && (Pins(slots, p) > 0 ==> SlotOf(slots', p) == SlotOf(slots, p))
                     && (SlotOf(slots', p) >= 0 ==> SlotOf(slots, p) >= 0) && (DirtyAt(slots', p) ==> DirtyAt(slots, p)) {
      assert DirtyAt(slots', p) ==> DirtyAt(between, p);
      assert Content(between, diskBetween, zeros, p) == Content(slots, disk, zeros, p);
      assert Pins(between, p) == Pins(slots, p);
    }
  }

  lemma {:induction false} SlotIs(slots: seq<Slot>, i: nat)
    requires OneSlotEach(slots) && i < |slots| && slots[i].loaded
    ensures SlotOf(slots, slots[i].pageId) == i
  {
    assert Caches(slots[i], slots[i].pageId);
    assert SlotOf(slots, slots[i].pageId) >= 0;
  }

  /** Overwriting a slot moves only the page that was in it and the page that is put in. */
  lemma {:induction false} SlotAfter(slots: seq<Slot>, i: nat, x: Slot, pid: int)
    requires OneSlotEach(slots) && i < |slots| && OneSlotEach(slots[i := x])
    ensures SlotOf(slots[i := x], pid) ==
            if Caches(x, pid) then i else if SlotOf(slots, pid) == i then NO_SLOT else SlotOf(slots, pid)
  {
    var after := slots[i := x];
    if Caches(x, pid) {
      SlotIs(after, i);
    } else {
      var a := SlotOf(slots, pid);
      if a >= 0 && a != i {
        SlotIs(after, a);
      } else {
        forall j | 0 <= j < |after| && j != i ensures !Caches(after[j], pid) {
          assert after[j] == slots[j];
        }
      }
    }
  }

  /** Changing a loaded slot but not its page: pins, recency, the dirty mark, or new data marked dirty. */
  lemma {:induction false} Touch(slots: seq<Slot>, disk: map<int, Bytes>, zeros: Bytes, i: nat, x: Slot)
    requires Coherent(slots, disk, zeros) && i < |slots| && slots[i].loaded
    requires x.loaded && x.pageId == slots[i].pageId
    requires SlotOk(x, disk, zeros)
    ensures Coherent(slots[i := x], disk, zeros)
    ensures SameContent(slots, disk, slots[i := x], disk, zeros, {x.pageId})
    ensures Content(slots[i := x], disk, zeros, x.pageId) == x.data && Content(slots, disk, zeros, x.pageId) == slots[i].data
    ensures SamePins(slots, slots[i := x], {x.pageId}) && NoneComesIn(slots, slots[i := x], {})
    ensures Pins(slots[i := x], x.pageId) == x.pin && Pins(slots, x.pageId) == slots[i].pin
    ensures SlotOf(slots[i := x], x.pageId) == i == SlotOf(slots, x.pageId)
  {
    var slots' := slots[i := x];
    SlotIs(slots, i);
    assert OneSlotEach(slots');
    forall p ensures SlotOf(slots', p) == SlotOf(slots, p) {
      SlotAfter(slots, i, x, p);
    }
    forall j | 0 <= j < |slots| ensures SlotOk(slots'[j], disk, zeros) {
      assert SlotOk(slots[j], disk, zeros);
    }
  }

  /** While its slot is dirty, what the file holds for a page does not matter. */
  lemma {:induction false} DirtyHidesDisk(slots: seq<Slot>, disk: map<int, Bytes>, zeros: Bytes, i: nat, bytes: Bytes)
    requires Coherent(slots, disk, zeros) && i < |slots| && slots[i].loaded && slots[i].dirty
    ensures Coherent(slots, disk[slots[i].pageId := bytes], zeros)
    ensures SameContent(slots, disk, slots, disk[slots[i].pageId := bytes], zeros, {})
  {
    var disk' := disk[slots[i].pageId := bytes];
    SlotIs(slots, i);
    forall j | 0 <= j < |slots| ensures SlotOk(slots[j], disk', zeros) {
      assert SlotOk(slots[j], disk, zeros);
      assert j != i && slots[j].loaded ==> slots[j].pageId != slots[i].pageId;
    }
    assert SlotOk(slots[i], disk, zeros);
  }

  /** Putting a page into a slot that holds nothing needed: an unloaded slot, or a clean unpinned one. */
  lemma {:induction false} Replace(slots: seq<Slot>, disk: map<int, Bytes>, zeros: Bytes, i: nat, x: Slot)
    requires Coherent(slots, disk, zeros) && i < |slots| && !slots[i].dirty && slots[i].pin == 0
    requires x.loaded && SlotOf(slots, x.pageId) < 0 && 0 <= x.pageId && x.data == OnDisk(disk, zeros, x.pageId)
    ensures Coherent(slots[i := x], disk, zeros)
    ensures SameContent(slots, disk, slots[i := x], disk, zeros, {})
    ensures SamePins(slots, slots[i := x], {x.pageId}) && NoneComesIn(slots, slots[i := x], {x.pageId})
    ensures Pins(slots, x.pageId) == 0 && Pins(slots[i := x], x.pageId) == x.pin && SlotOf(slots[i := x], x.pageId) == i
  {
    var slots' := slots[i := x];
    forall j | 0 <= j < |slots| && slots[j].loaded ensures slots[j].pageId != x.pageId {
      assert !Caches(slots[j], x.pageId);
    }
    assert OneSlotEach(slots');
    assert SlotOk(slots[i], disk, zeros);
    forall p ensures && (p != x.pageId ==> Pins(slots', p) == Pins(slots, p))
                     && (Pins(slots, p) > 0 ==> SlotOf(slots', p) == SlotOf(slots, p))
                     && (p != x.pageId && SlotOf(slots', p) >= 0 ==> SlotOf(slots, p) >= 0)
                     && Content(slots', disk, zeros, p) == Content(slots, disk, zeros, p) {
      SlotAfter(slots, i, x, p);
    }
    SlotAfter(slots, i, x, x.pageId);
    forall j | 0 <= j < |slots| ensures SlotOk(slots'[j], disk, zeros) {
      assert SlotOk(slots[j], disk, zeros);
    }
  }

  /**
   * Handing out an id puts a clean page of zeros into slot i. That keeps the pool coherent exactly when
   * the id is cached in no other slot and the page holds zeros already.
   */
  lemma {:induction false} HandOut(slots: seq<Slot>, disk: map<int, Bytes>, zeros: Bytes, i: nat, x: Slot)
    requires Coherent(slots, disk, zeros) && i < |slots| && !slots[i].dirty && slots[i].pin == 0
    requires x.loaded && 0 <= x.pageId && x.data == zeros && !x.dirty && x.pin == 0
    ensures Coherent(slots[i := x], disk, zeros) <==>
            SlotOf(slots, x.pageId) in {NO_SLOT, i as int} && Content(slots, disk, zeros, x.pageId) == zeros
    ensures Coherent(slots[i := x], disk, zeros) ==>
            && SameContent(slots, disk, slots[i := x], disk, zeros, {}) && SamePins(slots, slots[i := x], {x.pageId})
            && NoneComesIn(slots, slots[i := x], {x.pageId}) && Pins(slots[i := x], x.pageId) == Pins(slots, x.pageId) && SlotOf(slots[i := x], x.pageId) == i
  {
    var slots', q := slots[i := x], SlotOf(slots, x.pageId);
    assert SlotOk(slots[i], disk, zeros);
    assert Coherent(slots', disk, zeros) ==> SlotOk(slots'[i], disk, zeros);
    assert q >= 0 && q != i ==> Caches(slots'[q], x.pageId);
    if q == NO_SLOT && OnDisk(disk, zeros, x.pageId) == zeros {
      Replace(slots, disk, zeros, i, x);
    } else if q == i && slots[i].data == zeros {
      Touch(slots, disk, zeros, i, x);
    }
  }

  /** Every pinned page but `but` is where it was, with as many pins. */
  ghost predicate SamePinsBut(slots: seq<Slot>, slots': seq<Slot>, but: int) {
    && (forall p :: p != but && Pins(slots, p) > 0 ==> SlotOf(slots', p) == SlotOf(slots, p))
    && forall p :: p != but ==> Pins(slots', p) == Pins(slots, p)
  }

  ghost predicate DisturbsOnly(slots: seq<Slot>, disk: map<int, Bytes>, slots': seq<Slot>, disk': map<int, Bytes>, zeros: Bytes, pid: int) {
    SameContent(slots, disk, slots', disk', zeros, {pid}) && SamePinsBut(slots, slots', pid) && NoneComesIn(slots, slots', {pid})
  }

  lemma {:induction false} DisturbsTwice(slots: seq<Slot>, disk: map<int, Bytes>, between: seq<Slot>, diskBetween: map<int, Bytes>,
                                         slots': seq<Slot>, disk': map<int, Bytes>, zeros: Bytes, pid: int)
    requires DisturbsOnly(slots, disk, between, diskBetween, zeros, pid) && DisturbsOnly(between, diskBetween, slots', disk', zeros, pid)
    ensures DisturbsOnly(slots, disk, slots', disk', zeros, pid)
  {
    forall p | p != pid
      ensures Content(slots', disk', zeros, p) == Content(slots, disk, zeros, p) && Pins(slots', p) == Pins(slots, p)
      ensures (Pins(slots, p) > 0 ==> SlotOf(slots', p) == SlotOf(slots, p)) && (SlotOf(slots', p) >= 0 ==> SlotOf(slots, p) >= 0)
    {
      assert Content(between, diskBetween, zeros, p) == Content(slots, disk, zeros, p);
      assert Pins(between, p) == Pins(slots, p);
    }
  }

  /** Emptying a slot moves no page but the one in it, which then reads from the file. */
  lemma {:induction false} Unload(slots: seq<Slot>, disk: map<int, Bytes>, zeros: Bytes, i: nat, x: Slot)
    requires Coherent(slots, disk, zeros) && i < |slots| && slots[i].loaded && !x.loaded && !x.dirty && x.pin == 0
    ensures Coherent(slots[i := x], disk, zeros)
    ensures SameContent(slots, disk, slots[i := x], disk, zeros, {slots[i].pageId})
    ensures SlotOf(slots[i := x], slots[i].pageId) < 0
    ensures SamePinsBut(slots, slots[i := x], slots[i].pageId) && NoneComesIn(slots, slots[i := x], {})
  {
    var slots' := slots[i := x];
    SlotIs(slots, i);
    assert OneSlotEach(slots');
    forall p ensures SlotOf(slots', p) == if SlotOf(slots, p) == i then NO_SLOT else SlotOf(slots, p) {
      SlotAfter(slots, i, x, p);
    }
    forall p | p != slots[i].pageId ensures SlotOf(slots, p) != i {
    }
    forall j | 0 <= j < |slots| ensures SlotOk(slots'[j], disk, zeros) {
      assert SlotOk(slots[j], disk, zeros);
    }
  }

  /** The link that a freed page holds in its first four bytes. */
  function LinkOf(data: Bytes): int {
    if |data| >= 4 then Get32(data, 0) else -1
  }

  function WithLink(data: Bytes, link: int): Bytes {
    if |data| >= 4 then Bytes32(link) + data[4..] else data
  }

  lemma {:induction false} LinkIs(data: Bytes, link: int)
    requires |data| >= 4 && IsI32(link)
    ensures LinkOf(WithLink(data, link)) == link
  {
    RoundTrip32(link);
    assert WithLink(data, link)[0..4] == Bytes32(link);
  }

  // ---------- the pool ----------

  ghost predicate Evictable(slots: seq<Slot>, r: int) {
    if r < 0 then forall i :: 0 <= i < |slots| ==> slots[i].loaded && (slots[i].pin > 0 || slots[i].lastAccess >= COUNTER_LIMIT - 1)
    else r < |slots| && (!slots[r].loaded || LeastRecent(slots, r))
  }

  /** Everything is loaded, the slot is unpinned, and no unpinned slot was used longer ago. */
  ghost predicate LeastRecent(slots: seq<Slot>, r: int)
    requires 0 <= r < |slots|
  {
    && slots[r].pin == 0 && (forall i :: 0 <= i < |slots| ==> slots[i].loaded)
    && forall i :: 0 <= i < |slots| && slots[i].pin == 0 ==> slots[r].lastAccess <= slots[i].lastAccess
  }

  /** There is nothing to evict, or the slot to evict is dirty and writing it back has failed. */
  ghost predicate Blocked(slots: seq<Slot>, failed: bool) {
    if failed then exists v :: 0 <= v < |slots| && LeastRecent(slots, v) && slots[v].dirty else Evictable(slots, NO_SLOT)
  }

  /** The page is cached and marked as changed since it was last in step with the file. */
  predicate DirtyAt(slots: seq<Slot>, pid: int) {
    var i := SlotOf(slots, pid);
    i >= 0 && slots[i].dirty
  }

  /** No page but `but` is newly marked. */
  ghost predicate NoneDirtied(slots: seq<Slot>, slots': seq<Slot>, but: set<int>) {
    forall p :: p !in but && DirtyAt(slots', p) ==> DirtyAt(slots, p)
  }

  /** No slot was used after the stamp. */
  ghost predicate Stamped(slots: seq<Slot>, stamp: int) {
    forall i :: 0 <= i < |slots| ==> slots[i].lastAccess <= stamp
  }

  /** As long as the counter does not wrap, it goes up by at most n and no stamp exceeds it. */
  ghost predicate StampsMoveOn(slots: seq<Slot>, stamp: int, slots': seq<Slot>, stamp': int, n: nat) {
    0 <= stamp < COUNTER_LIMIT - n && Stamped(slots, stamp) ==> stamp <= stamp' <= stamp + n && Stamped(slots', stamp')
  }

  /** Cleaning a slot moves no page and marks none. */
  lemma {:induction false} CleanMoves(slots: seq<Slot>, i: nat)
    requires i < |slots|
    ensures var s := slots[i := slots[i].(dirty := false)]; SameSlots(slots, s) && NoneDirtied(slots, s, {})
  {
    var s := slots[i := slots[i].(dirty := false)];
    forall p ensures SlotOf(s, p) == SlotOf(slots, p) {
      forall j | 0 <= j < |slots| ensures Caches(s[j], p) <==> Caches(slots[j], p) {
      }
    }
  }

  ghost predicate SameSlots(slots: seq<Slot>, slots': seq<Slot>) {
    forall p :: SlotOf(slots', p) == SlotOf(slots, p)
  }

  /** A slot that is overwritten marks its own page at most. */
  lemma {:induction false} OneSlotMarks(slots: seq<Slot>, i: nat, x: Slot)
    requires i < |slots| && OneSlotEach(slots) && OneSlotEach(slots[i := x])
    ensures NoneDirtied(slots, slots[i := x], if x.loaded && x.dirty then {x.pageId} else {})
  {
    forall p ensures SlotOf(slots[i := x], p) == if Caches(x, p) then i else if SlotOf(slots, p) == i then NO_SLOT else SlotOf(slots, p) {
      SlotAfter(slots, i, x, p);
    }
  }

  class Pool {
    const slots: array<Slot>
    const zeros: Bytes
    var disk: map<int, Bytes>
    var nextPage: int
    var freeHead: int  // the first freed page, or -1
    var accessCounter: int
    ghost var failures: nat  // how many writes to the file have failed

    ghost predicate Valid()
      reads this, slots
    {
      0 <= nextPage && Coherent(slots[..], disk, zeros)
    }

    ghost function Page(pid: int): Bytes
      reads this, slots
    {
      Content(slots[..], disk, zeros, pid)
    }

    constructor (capacity: nat, zeros: Bytes)
      requires 0 < capacity <= 256
      ensures Valid() && fresh(slots) && slots.Length == capacity && this.zeros == zeros && nextPage == 0 && freeHead == -1 && accessCounter == 0 && failures == 0
      ensures forall pid :: Page(pid) == zeros && SlotOf(slots[..], pid) < 0
      ensures Stamped(slots[..], 0)
    {
      slots := new Slot[capacity](_ => Slot(0, 0, false, false, 0, []));
      this.zeros := zeros;
      disk, nextPage, freeHead, accessCounter, failures := map[], 0, -1, 0, 0;
    }

    method FindSlot(pid: int) returns (r: int)
      ensures r == SlotOf(slots[..], pid)
    {
      for i := 0 to slots.Length
        invariant forall j :: 0 <= j < i ==> !Caches(slots[j], pid)
      {
        if slots[i].loaded && slots[i].pageId == pid {
          return i;
        }
      }
      return NO_SLOT;
    }

    /** An unloaded slot, or the least recently used unpinned one, or none. */
    method FindEvictionCandidate() returns (best: int)
      ensures -1 <= best < slots.Length
      ensures Evictable(slots[..], best)
    {
      for i := 0 to slots.Length
        invariant forall j :: 0 <= j < i ==> slots[j].loaded
      {
        if !slots[i].loaded {
          return i;
        }
      }
      best := NO_SLOT;
      var bestAccess := COUNTER_LIMIT - 1;
      for i := 0 to slots.Length
        invariant -1 <= best < i
        invariant best >= 0 ==> slots[best].pin == 0 && bestAccess == slots[best].lastAccess
        invariant best < 0 ==> bestAccess == COUNTER_LIMIT - 1
        invariant forall j :: 0 <= j < i && slots[j].pin == 0 ==> bestAccess <= slots[j].lastAccess
      {
        if slots[i].pin == 0 && slots[i].lastAccess < bestAccess {
          bestAccess := slots[i].lastAccess;
          best := i;
        }
      }
    }

    /** May fail, and then leaves anything at all in that page of the file. */
    method WritePage(pid: int, data: Bytes) returns (ok: bool, ghost stored: Bytes)
      modifies this`disk, this`failures
      ensures disk == old(disk)[pid := stored] && (ok ==> stored == data)
      ensures failures == old(failures) + if ok then 0 else 1
    {
      ok := *;
      var bytes: Bytes := *;
      if ok {
        bytes := data;
      } else {
        failures := failures + 1;
      }
      stored := bytes;
      disk := disk[pid := bytes];
    }

    /** Writes a dirty slot back; on failure it stays dirty. */
    method Clean(i: nat) returns (ok: bool)
      requires Valid() && i < slots.Length && slots[i].loaded && slots[i].dirty
      modifies this`disk, this`failures, slots
      ensures Valid() && Undisturbed(old(slots[..]), old(disk), slots[..], disk, zeros)
      ensures slots[..] == if ok then old(slots[..])[i := old(slots[i]).(dirty := false)] else old(slots[..])
      ensures failures == old(failures) + if ok then 0 else 1
      ensures SameSlots(old(slots[..]), slots[..])
    {
      ghost var s, d := slots[..], disk;
      ghost var stored;
      CleanMoves(s, i);
      ok, stored := WritePage(slots[i].pageId, slots[i].data);
      DirtyHidesDisk(s, d, zeros, i, stored);
      assert SlotOk(s[i], d, zeros);
      if ok {
        slots[i] := slots[i].(dirty := false);
        assert slots[..] == s[i := slots[i]];
        Touch(s, disk, zeros, i, slots[i]);
      }
    }

    /** A slot that may be filled, written back if it has to be; or none. */
    method MakeRoom() returns (idx: int)
      requires Valid()
      modifies this`disk, this`failures, slots
      ensures Valid() && Undisturbed(old(slots[..]), old(disk), slots[..], disk, zeros) && -1 <= idx < slots.Length
      ensures idx < 0 ==> slots[..] == old(slots[..]) && Blocked(slots[..], failures != old(failures)) && failures <= old(failures) + 1
      ensures idx >= 0 ==> failures == old(failures) && Evictable(old(slots[..]), idx)
      ensures idx >= 0 ==> slots[..] == old(slots[..])[idx := old(slots[..])[idx].(dirty := false)] && slots[idx].pin == 0
      ensures old(failures) <= failures && SameSlots(old(slots[..]), slots[..])
    {
      idx := FindEvictionCandidate();
      if idx == NO_SLOT {
        return;
      }
      assert SlotOk(slots[..][idx], disk, zeros);
      CleanMoves(slots[..], idx);
      if slots[idx].dirty {
        var ok := Clean(idx);
        if !ok {
          return NO_SLOT;
        }
      } else {
        assert slots[..] == old(slots[..])[idx := old(slots[..])[idx].(dirty := false)];
      }
    }

    /** The slot now holding the page, or none exactly when nothing can be evicted or the victim's write fails. */
    method EnsureLoaded(pid: int) returns (idx: int)
      requires Valid() && 0 <= pid
      modifies this`disk, this`failures, this`accessCounter, slots
      ensures Valid()
      ensures SameContent(old(slots[..]), old(disk), slots[..], disk, zeros, {})
      ensures SamePins(old(slots[..]), slots[..], {pid}) && NoneComesIn(old(slots[..]), slots[..], {pid}) && Pins(slots[..], pid) == Pins(old(slots[..]), pid)
      ensures idx >= 0 ==> idx == SlotOf(slots[..], pid) && failures == old(failures)
      ensures idx < 0 ==> slots[..] == old(slots[..]) && SlotOf(slots[..], pid) < 0 && Blocked(slots[..], failures != old(failures))
      ensures SlotOf(old(slots[..]), pid) >= 0 ==> slots[..] == old(slots[..])
      ensures idx >= 0 && SlotOf(old(slots[..]), pid) < 0 ==> Evictable(old(slots[..]), idx)
      ensures old(failures) <= failures && NoneDirtied(old(slots[..]), slots[..], {})
      ensures StampsMoveOn(old(slots[..]), old(accessCounter), slots[..], accessCounter, 1)
    {
      idx := FindSlot(pid);
      if idx != NO_SLOT {
        return;
      }
      idx := MakeRoom();
      if idx == NO_SLOT {
        return;
      }
      Fill(idx, pid);
    }

    /** Reads the page into a slot that holds nothing needed. */
    method Fill(idx: nat, pid: int)
      requires Valid() && idx < slots.Length && 0 <= pid && SlotOf(slots[..], pid) < 0 && !slots[idx].dirty && slots[idx].pin == 0
      modifies this`accessCounter, slots
      ensures Valid() && SameContent(old(slots[..]), disk, slots[..], disk, zeros, {}) && idx == SlotOf(slots[..], pid)
      ensures SamePins(old(slots[..]), slots[..], {pid}) && NoneComesIn(old(slots[..]), slots[..], {pid}) && Pins(slots[..], pid) == 0
      ensures NoneDirtied(old(slots[..]), slots[..], {}) && StampsMoveOn(old(slots[..]), old(accessCounter), slots[..], accessCounter, 1)
    {
      ghost var s := slots[..];
      accessCounter := (accessCounter + 1) % COUNTER_LIMIT;
      slots[idx] := Slot(pid, 0, false, true, accessCounter, OnDisk(disk, zeros, pid));
      assert slots[..] == s[idx := slots[idx]];
      Replace(s, disk, zeros, idx, slots[idx]);
      OneSlotMarks(s, idx, slots[idx]);
    }

    method PinSlot(idx: nat)
      requires Valid() && idx < slots.Length && slots[idx].loaded
      modifies this`accessCounter, slots
      ensures Valid() && SameContent(old(slots[..]), disk, slots[..], disk, zeros, {})
      ensures var pid := old(slots[idx].pageId);
              && SlotOf(slots[..], pid) == idx && Pins(slots[..], pid) == Pins(old(slots[..]), pid) + 1
              && SamePins(old(slots[..]), slots[..], {pid}) && NoneComesIn(old(slots[..]), slots[..], {})
      ensures slots[idx].data == old(slots[idx].data)
      ensures slots[idx].lastAccess == accessCounter == (old(accessCounter) + 1) % COUNTER_LIMIT
      ensures NoneDirtied(old(slots[..]), slots[..], {}) && StampsMoveOn(old(slots[..]), old(accessCounter), slots[..], accessCounter, 1)
    {
      ghost var s := slots[..];
      accessCounter := (accessCounter + 1) % COUNTER_LIMIT;
      assert SlotOk(s[idx], disk, zeros);
      slots[idx] := slots[idx].(pin := slots[idx].pin + 1, lastAccess := accessCounter);
      assert slots[..] == s[idx := slots[idx]];
      Touch(s, disk, zeros, idx, slots[idx]);
      OneSlotMarks(s, idx, slots[idx]);
      SlotIs(s, idx);
    }

    /**
     * The slot of the page, loaded and pinned once more; its data is the page's content. None exactly when the
     * page is not cached and nothing can be evicted, or the victim's write fails.
     */
    method PinPage(pid: int) returns (idx: int)
      requires Valid()
      modifies this`disk, this`failures, this`accessCounter, slots
      ensures Valid()
      ensures SameContent(old(slots[..]), old(disk), slots[..], disk, zeros, {})
      ensures SamePins(old(slots[..]), slots[..], {pid}) && NoneComesIn(old(slots[..]), slots[..], {pid})
      ensures Pins(slots[..], pid) == Pins(old(slots[..]), pid) + if idx >= 0 then 1 else 0
      ensures idx >= 0 ==> idx == SlotOf(slots[..], pid) && slots[idx].data == old(Page(pid)) && slots[idx].lastAccess == accessCounter
      ensures idx >= 0 && SlotOf(old(slots[..]), pid) < 0 ==> Evictable(old(slots[..]), idx)
      ensures idx < 0 ==> slots[..] == old(slots[..]) && (pid >= 0 ==> SlotOf(slots[..], pid) < 0 && Blocked(slots[..], failures != old(failures)))
      ensures old(failures) <= failures && (idx >= 0 || pid < 0 ==> failures == old(failures))
      ensures NoneDirtied(old(slots[..]), slots[..], {}) && StampsMoveOn(old(slots[..]), old(accessCounter), slots[..], accessCounter, 2)
    {
      if pid < 0 {
        NotCached(slots[..], disk, zeros, pid);
        return NO_SLOT;
      }
      idx := EnsureLoaded(pid);
      if idx >= 0 {
        PinSlot(idx);
      }
    }

    method TryPin(pid: int) returns (idx: int)
      requires Valid()
      modifies this`accessCounter, slots
      ensures Valid()
      ensures SameContent(old(slots[..]), disk, slots[..], disk, zeros, {})
      ensures SamePins(old(slots[..]), slots[..], {pid}) && NoneComesIn(old(slots[..]), slots[..], {})
      ensures Pins(slots[..], pid) == Pins(old(slots[..]), pid) + if idx >= 0 then 1 else 0
      ensures idx == SlotOf(old(slots[..]), pid) && (idx >= 0 ==> slots[idx].data == old(Page(pid)))
      ensures idx >= 0 ==> slots[idx].lastAccess == accessCounter == (old(accessCounter) + 1) % COUNTER_LIMIT
      ensures NoneDirtied(old(slots[..]), slots[..], {}) && StampsMoveOn(old(slots[..]), old(accessCounter), slots[..], accessCounter, 1)
    {
      if pid < 0 {
        NotCached(slots[..], disk, zeros, pid);
        return NO_SLOT;
      }
      idx := FindSlot(pid);
      if idx != NO_SLOT {
        PinSlot(idx);
      }
    }

    method ReleasePage(pid: int)
      requires Valid()
      modifies slots
      ensures Valid()
      ensures SameContent(old(slots[..]), disk, slots[..], disk, zeros, {})
      ensures SamePins(old(slots[..]), slots[..], {pid}) && NoneComesIn(old(slots[..]), slots[..], {})
      ensures Pins(slots[..], pid) == if Pins(old(slots[..]), pid) > 0 then Pins(old(slots[..]), pid) - 1 else 0
      ensures NoneDirtied(old(slots[..]), slots[..], {}) && StampsMoveOn(old(slots[..]), accessCounter, slots[..], accessCounter, 0)
    {
      if pid < 0 {
        NotCached(slots[..], disk, zeros, pid);
        return;
      }
      var idx := FindSlot(pid);
      if idx != NO_SLOT && slots[idx].pin > 0 {
        ghost var s := slots[..];
        assert SlotOk(s[idx], disk, zeros);
        slots[idx] := slots[idx].(pin := slots[idx].pin - 1);
        assert slots[..] == s[idx := slots[idx]];
        Touch(s, disk, zeros, idx, slots[idx]);
        OneSlotMarks(s, idx, slots[idx]);
        SlotIs(s, idx);
      }
    }

    method PinCount(pid: int) returns (n: nat)
      requires Valid()
      ensures n == Pins(slots[..], pid)
    {
      if pid < 0 {
        NotCached(slots[..], disk, zeros, pid);
        return 0;
      }
      var idx := FindSlot(pid);
      n := if idx != NO_SLOT then slots[idx].pin else 0;
    }

    method MarkDirty(pid: int)
      modifies slots
      ensures slots[..] == var s, i := old(slots[..]), SlotOf(old(slots[..]), pid);
                           if pid >= 0 && i >= 0 then s[i := s[i].(dirty := true)] else s
    {
      if pid < 0 {
        return;
      }
      var idx := FindSlot(pid);
      if idx != NO_SLOT {
        slots[idx] := slots[idx].(dirty := true);
      }
    }

    /** What the holder of a pin does: writes the buffer, then marks the page dirty. */
    method Write(pid: int, data: Bytes)
      requires Valid() && 0 <= pid && Pins(slots[..], pid) > 0
      modifies slots
      ensures Valid() && Page(pid) == data
      ensures SameContent(old(slots[..]), disk, slots[..], disk, zeros, {pid})
      ensures SamePins(old(slots[..]), slots[..], {}) && NoneComesIn(old(slots[..]), slots[..], {})
      ensures NoneDirtied(old(slots[..]), slots[..], {pid}) && StampsMoveOn(old(slots[..]), accessCounter, slots[..], accessCounter, 0)
    {
      ghost var s := slots[..];
      var idx := FindSlot(pid);
      assert SlotOk(s[idx], disk, zeros);
      slots[idx] := slots[idx].(data := data);
      assert slots[..] == s[idx := slots[idx]];
      SlotAfter(s, idx, slots[idx], pid);
      MarkDirty(pid);
      assert slots[..] == s[idx := slots[idx]];
      Touch(s, disk, zeros, idx, slots[idx]);
      OneSlotMarks(s, idx, slots[idx]);
    }

    /**
     * Puts zeros into a slot under this id, without marking it dirty. The pool stays valid exactly when the
     * id is cached in no other slot and its page reads as zeros already.
     */
    method TakeSlot(pid: int) returns (idx: int)
      requires Valid() && 0 <= pid
      modifies this`disk, this`failures, this`accessCounter, slots
      ensures -1 <= idx < slots.Length
      ensures idx < 0 ==> Valid() && Undisturbed(old(slots[..]), old(disk), slots[..], disk, zeros)
      ensures idx < 0 ==> slots[..] == old(slots[..]) && Blocked(slots[..], failures != old(failures)) && accessCounter == old(accessCounter)
      ensures old(failures) <= failures && (idx >= 0 ==> failures == old(failures))
      ensures Valid() ==> NoneDirtied(old(slots[..]), slots[..], {})
      ensures StampsMoveOn(old(slots[..]), old(accessCounter), slots[..], accessCounter, 1)
      ensures idx >= 0 ==> Evictable(old(slots[..]), idx) && Caches(slots[idx], pid) && slots[idx].data == zeros
      ensures idx >= 0 ==> (Valid() <==> SlotOf(old(slots[..]), pid) in {NO_SLOT, idx} && old(Page(pid)) == zeros)
      ensures Valid() ==> SameContent(old(slots[..]), old(disk), slots[..], disk, zeros, {})
      ensures Valid() ==> SamePins(old(slots[..]), slots[..], {pid}) && NoneComesIn(old(slots[..]), slots[..], {pid}) && Pins(slots[..], pid) == Pins(old(slots[..]), pid)
    {
      idx := MakeRoom();
      if idx == NO_SLOT {
        return;
      }
      PutZeros(idx, pid);
    }

    /** Puts a clean page of zeros under this id into a slot that holds nothing needed. */
    method PutZeros(idx: nat, pid: int)
      requires Valid() && idx < slots.Length && 0 <= pid && !slots[idx].dirty && slots[idx].pin == 0
      modifies this`accessCounter, slots
      ensures Caches(slots[idx], pid) && slots[idx].data == zeros
      ensures Valid() <==> SlotOf(old(slots[..]), pid) in {NO_SLOT, idx as int} && old(Page(pid)) == zeros
      ensures Valid() ==> SameContent(old(slots[..]), disk, slots[..], disk, zeros, {}) && NoneDirtied(old(slots[..]), slots[..], {})
      ensures Valid() ==> SamePins(old(slots[..]), slots[..], {pid}) && NoneComesIn(old(slots[..]), slots[..], {pid}) && Pins(slots[..], pid) == Pins(old(slots[..]), pid)
      ensures StampsMoveOn(old(slots[..]), old(accessCounter), slots[..], accessCounter, 1)
    {
      ghost var s := slots[..];
      accessCounter := (accessCounter + 1) % COUNTER_LIMIT;
      slots[idx] := Slot(pid, 0, false, true, accessCounter, zeros);
      assert slots[..] == s[idx := slots[idx]];
      HandOut(s, disk, zeros, idx, slots[idx]);
      if Valid() {
        OneSlotMarks(s, idx, slots[idx]);
      }
    }

    /** The id that is handed out next: the first freed one, or else one never used. */
    ghost function NextId(): int
      reads this
    {
      if freeHead >= 0 then freeHead else nextPage
    }

    /**
     * Hands out an id in slot `idx`, reading as zeros. The pool stays valid exactly when that id is cached
     * in no other slot and its page holds zeros already. The list of freed pages moves on first, by the
     * link in the cached page, and is dropped when the page is not cached; that stays when the rest fails.
     */
    method Allocate() returns (pid: int, ghost idx: int)
      requires Valid()
      modifies this, slots
      ensures pid == old(NextId()) || pid == -1
      ensures nextPage == old(nextPage) + if pid >= 0 && old(freeHead) < 0 then 1 else 0
      ensures freeHead == if old(freeHead) < 0 then old(freeHead)
                          else if SlotOf(old(slots[..]), old(freeHead)) >= 0 then LinkOf(old(Page(freeHead))) else -1
      ensures pid < 0 ==> Valid() && slots[..] == old(slots[..]) && Blocked(slots[..], failures != old(failures))
      ensures old(failures) <= failures && (pid >= 0 ==> failures == old(failures))
      ensures (Valid() ==> NoneDirtied(old(slots[..]), slots[..], {})) && StampsMoveOn(old(slots[..]), old(accessCounter), slots[..], accessCounter, 1)
      ensures pid >= 0 ==> 0 <= idx < slots.Length && Evictable(old(slots[..]), idx) && Caches(slots[idx], pid) && slots[idx].data == zeros
      ensures pid >= 0 ==> (Valid() <==> old(SlotOf(slots[..], NextId())) in {NO_SLOT, idx} && old(Page(NextId())) == zeros)
      ensures Valid() ==> SameContent(old(slots[..]), old(disk), slots[..], disk, zeros, {})
      ensures Valid() ==> SamePins(old(slots[..]), slots[..], {pid}) && NoneComesIn(old(slots[..]), slots[..], {pid}) && Pins(slots[..], pid) == Pins(old(slots[..]), pid)
    {
      var next := if freeHead >= 0 then freeHead else nextPage;
      var unused := freeHead < 0;
      freeHead := NextFree();
      var slot := TakeSlot(next);
      idx := slot;
      if slot < 0 {
        return -1, idx;
      }
      pid := next;
      if unused {
        nextPage := nextPage + 1;
      }
    }

    /**
     * Gives a page back: it loses its pins and whatever could not be written, is loaded again, and gets the
     * link to the pages freed before. No other page is disturbed. When it was not cached and cannot be loaded
     * it heads the list without a link.
     */
    method FreePage(pid: int)
      requires Valid() && 0 <= pid
      modifies this`disk, this`failures, this`accessCounter, this`freeHead, slots
      ensures Valid() && freeHead == pid && Pins(slots[..], pid) == 0
      ensures DisturbsOnly(old(slots[..]), old(disk), slots[..], disk, zeros, pid)
      ensures SlotOf(slots[..], pid) < 0 ==> SlotOf(old(slots[..]), pid) < 0 && Blocked(old(slots[..]), failures != old(failures))
      ensures SlotOf(slots[..], pid) >= 0 && failures == old(failures) ==> Page(pid) == WithLink(old(Page(pid)), old(freeHead))
      ensures SlotOf(slots[..], pid) >= 0 && |Page(pid)| >= 4 && IsI32(old(freeHead)) ==> LinkOf(Page(pid)) == old(freeHead)
    {
      Evict(pid);
      ghost var s, d := slots[..], disk;
      LoadFreed(pid);
      DisturbsTwice(old(slots[..]), old(disk), s, d, slots[..], disk, zeros, pid);
      ghost var was := Content(s, d, zeros, pid);
      if |was| >= 4 && IsI32(freeHead) {
        LinkIs(was, freeHead);
      }
      freeHead := pid;
    }

    /** Loads the page that is being freed, if a slot can be had for it, and puts the link into it. */
    method LoadFreed(pid: int)
      requires Valid() && 0 <= pid && SlotOf(slots[..], pid) < 0
      modifies this`disk, this`failures, this`accessCounter, slots
      ensures Valid() && Pins(slots[..], pid) == 0 && DisturbsOnly(old(slots[..]), old(disk), slots[..], disk, zeros, pid)
      ensures SlotOf(slots[..], pid) < 0 ==> Blocked(old(slots[..]), failures != old(failures))
      ensures old(failures) <= failures && (SlotOf(slots[..], pid) >= 0 ==> failures == old(failures) && Page(pid) == WithLink(old(Page(pid)), freeHead))
    {
      var idx := EnsureLoaded(pid);
      ghost var s, d := slots[..], disk;
      assert DisturbsOnly(old(slots[..]), old(disk), s, d, zeros, pid);
      if idx >= 0 {
        SetLink(idx, freeHead);
        DisturbsTwice(old(slots[..]), old(disk), s, d, slots[..], disk, zeros, pid);
      }
    }

    /** Drops the page from the cache, written back or not. */
    method Evict(pid: int)
      requires Valid()
      modifies this`disk, this`failures, slots
      ensures Valid() && SlotOf(slots[..], pid) < 0
      ensures DisturbsOnly(old(slots[..]), old(disk), slots[..], disk, zeros, pid)
      ensures SlotOf(old(slots[..]), pid) >= 0 ==> exists i :: 0 <= i < slots.Length && !slots[i].loaded
      ensures SlotOf(old(slots[..]), pid) < 0 ==> slots[..] == old(slots[..]) && failures == old(failures)
      ensures old(failures) <= failures && (failures == old(failures) ==> Page(pid) == old(Page(pid)))
    {
      var idx := FindSlot(pid);
      if idx == NO_SLOT {
        return;
      }
      ghost var s, d := slots[..], disk;
      if slots[idx].dirty {
        ghost var stored;
        var ok;
        ok, stored := WritePage(slots[idx].pageId, slots[idx].data);
        DirtyHidesDisk(s, d, zeros, idx, stored);
      }
      slots[idx] := slots[idx].(loaded := false, pin := 0, dirty := false);
      assert slots[..] == s[idx := slots[idx]];
      Unload(s, disk, zeros, idx, slots[idx]);
    }

    /** Writes the link into the page in this slot. */
    method SetLink(idx: nat, link: int)
      requires Valid() && idx < slots.Length && slots[idx].loaded
      modifies slots
      ensures var pid := old(slots[idx].pageId);
              && Valid() && SameContent(old(slots[..]), disk, slots[..], disk, zeros, {pid}) && SamePins(old(slots[..]), slots[..], {})
              && NoneComesIn(old(slots[..]), slots[..], {}) && SlotOf(slots[..], pid) == idx && Page(pid) == WithLink(old(slots[idx].data), link)
    {
      ghost var s := slots[..];
      assert SlotOk(s[idx], disk, zeros);
      slots[idx] := slots[idx].(data := WithLink(slots[idx].data, link), dirty := true);
      assert slots[..] == s[idx := slots[idx]];
      Touch(s, disk, zeros, idx, slots[idx]);
    }

    /** What the list of freed pages goes on with. */
    method NextFree() returns (next: int)
      ensures next == if freeHead < 0 then freeHead else if SlotOf(slots[..], freeHead) >= 0 then LinkOf(Page(freeHead)) else -1
    {
      if freeHead < 0 {
        return freeHead;
      }
      var idx := FindSlot(freeHead);
      next := if idx != NO_SLOT then LinkOf(slots[idx].data) else -1;
    }

    /** Succeeds exactly when no write fails, and then the file holds the page's content. */
    method FlushPage(pid: int) returns (ok: bool)
      requires Valid()
      modifies this`disk, this`failures, slots
      ensures Valid()
      ensures Undisturbed(old(slots[..]), old(disk), slots[..], disk, zeros)
      ensures ok <==> pid >= 0 && failures == old(failures)
      ensures ok ==> OnDisk(disk, zeros, pid) == Page(pid) && !DirtyAt(slots[..], pid)
      ensures failures != old(failures) ==> failures == old(failures) + 1 && DirtyAt(old(slots[..]), pid)
    {
      if pid < 0 {
        return false;
      }
      var idx := FindSlot(pid);
      if idx != NO_SLOT && slots[idx].dirty {
        ghost var s := slots[..];
        ok := Clean(idx);
        if ok {
          SlotAfter(s, idx, slots[idx], pid);
          assert SlotOk(slots[..][idx], disk, zeros);
        }
        return;
      }
      assert idx >= 0 ==> SlotOk(slots[..][idx], disk, zeros);
      return true;
    }

    /** Stops at the first write that fails; if none does, the file holds every page's content. */
    method FlushAll()
      requires Valid()
      modifies this`disk, this`failures, slots
      ensures Valid()
      ensures Undisturbed(old(slots[..]), old(disk), slots[..], disk, zeros)
      ensures failures == old(failures) ==> forall pid :: OnDisk(disk, zeros, pid) == Page(pid) && !DirtyAt(slots[..], pid)
      ensures failures != old(failures) ==> failures == old(failures) + 1 && exists pid :: DirtyAt(old(slots[..]), pid)
    {
      for i := 0 to slots.Length
        invariant Valid() && failures == old(failures)
        invariant Undisturbed(old(slots[..]), old(disk), slots[..], disk, zeros)
        invariant forall j :: 0 <= j < i ==> !slots[j].dirty
      {
        if slots[i].loaded && slots[i].dirty {
          ghost var s, d := slots[..], disk;
          SlotIs(s, i);
          assert DirtyAt(s, slots[i].pageId) && DirtyAt(old(slots[..]), slots[i].pageId);
          var ok := Clean(i);
          UndisturbedTwice(old(slots[..]), old(disk), s, d, slots[..], disk, zeros);
          if !ok {
            return;
          }
        }
        assert SlotOk(slots[..][i], disk, zeros);
      }
      forall pid ensures OnDisk(disk, zeros, pid) == Page(pid) && !DirtyAt(slots[..], pid) {
        var r := SlotOf(slots[..], pid);
        assert r >= 0 ==> SlotOk(slots[..][r], disk, zeros);
      }
    }
  }

  /** Ids below zero are never cached. */
  lemma {:induction false} NotCached(slots: seq<Slot>, disk: map<int, Bytes>, zeros: Bytes, pid: int)
    requires Coherent(slots, disk, zeros) && pid < 0
    ensures SlotOf(slots, pid) < 0
  {
    forall j | 0 <= j < |slots| ensures !Caches(slots[j], pid) {
      assert SlotOk(slots[j], disk, zeros);
    }
  }
}
