/**
 * Whole runs of the page cache, for a client that pins what it writes, pins only allocated ids, and gives
 * no page back; and what goes wrong when a page that was given back is handed out again.
 */
module CacheRuns {
  import opened ByteStrings
  import opened Layout
  import opened BufferPool

  datatype Call =
    | Pin(pid: int)
    | TryPin(pid: int)
    | Release(pid: int)
    | Write(pid: int, data: Bytes)
    | Flush(pid: int)
    | FlushAll
    | Allocate

  /** What happened: the call, whether it took effect, and what a pin found. */
  datatype Event = Event(call: Call, done: bool, found: Bytes)

  // ---------- what a run amounts to ----------

  function Written(e: Event, pid: int, was: Bytes): Bytes {
    if e.done && e.call.Write? && e.call.pid == pid then e.call.data else was
  }

  /** The data of the last write to the page that took effect. */
  function LastWrite(log: seq<Event>, zeros: Bytes, pid: int): Bytes {
    if log == [] then zeros else Written(log[|log| - 1], pid, LastWrite(log[..|log| - 1], zeros, pid))
  }

  function HeldAfter(e: Event, pid: int, n: nat): nat {
    if (e.call.Pin? || e.call.TryPin?) && e.call.pid == pid && e.done then n + 1
    else if e.call.Release? && e.call.pid == pid && n > 0 then n - 1
    else n
  }

  /** Pins taken less pins given back. */
  function Held(log: seq<Event>, pid: int): nat {
    if log == [] then 0 else HeldAfter(log[|log| - 1], pid, Held(log[..|log| - 1], pid))
  }

  /** How many ids have been handed out. */
  function Allocated(log: seq<Event>): nat {
    if log == [] then 0
    else Allocated(log[..|log| - 1]) + if log[|log| - 1].call.Allocate? && log[|log| - 1].done then 1 else 0
  }

  /** `failed` says whether a write to the file failed during the event. */
  function UnflushedAfter(e: Event, failed: bool, pid: int, was: bool): bool {
    if e.done && e.call.Write? && e.call.pid == pid then true
    else if !failed && ((e.call.Flush? && e.call.pid == pid) || e.call.FlushAll?) then false
    else was
  }

  /** The page has been written since it was last flushed without a failure. */
  function Unflushed(log: seq<Event>, fails: seq<bool>, pid: int): bool
    requires |fails| == |log|
  {
    if log == [] then false
    else
      var n := |log| - 1;
      UnflushedAfter(log[n], fails[n], pid, Unflushed(log[..n], fails[..n], pid))
  }

  /** As many different pages are held as there are slots. */
  ghost predicate AllTaken(log: seq<Event>, capacity: nat) {
    exists held: set<int> :: |held| == capacity && forall p :: p in held ==> Held(log, p) > 0
  }

  /** Each call stamps at most two slots; past this length of a run stamps may reach the end of their range. */
  predicate Worn(n: nat) {
    2 * n >= COUNTER_LIMIT - 3
  }

  /** No slot can be had: a write failed, or every slot is held, or the stamps are used up. */
  ghost predicate Stuck(log: seq<Event>, capacity: nat, failed: bool) {
    failed || AllTaken(log, capacity) || Worn(|log|)
  }

  /**
   * A pin finds the last write. A pin of an allocated id takes effect unless no slot can be had, and so does
   * a request for a page; a pin of a held page always does. A write takes effect exactly when the page is
   * held, a flush of one page exactly when no write to the file fails, and none fails unless something is
   * unflushed. (Flushing everything gives no answer.)
   */
  ghost predicate Explained(log: seq<Event>, fails: seq<bool>, zeros: Bytes, capacity: nat, i: int)
    requires 0 <= i < |log| == |fails|
  {
    var before, e, failed := log[..i], log[i], fails[i];
    && (failed ==> exists q :: Unflushed(before, fails[..i], q))
    && (failed && !e.call.FlushAll? ==> !e.done)
    && match e.call
       case Pin(p) =>
         && (e.done ==> e.found == LastWrite(before, zeros, p) && 0 <= p < Allocated(before))
         && (0 <= p < Allocated(before) && !e.done ==> Held(before, p) == 0 && Stuck(before, capacity, failed))
       case TryPin(p) => (e.done ==> e.found == LastWrite(before, zeros, p)) && (Held(before, p) > 0 ==> e.done)
       case Write(p, _) => e.done <==> p >= 0 && Held(before, p) > 0
       case Release(_) => true
       case Flush(p) => e.done <==> p >= 0 && !failed
       case FlushAll => e.done
       case Allocate => !e.done ==> Stuck(before, capacity, failed)
  }

  // ---------- the pool agrees with the run ----------

  /** Contents are the last writes, pins are those of the log, and what differs from the file is unflushed. */
  ghost predicate AgreesAt(slots: seq<Slot>, disk: map<int, Bytes>, zeros: Bytes, log: seq<Event>, fails: seq<bool>)
    requires |fails| == |log|
  {
    && (forall pid :: Content(slots, disk, zeros, pid) == LastWrite(log, zeros, pid))
    && (forall pid :: Pins(slots, pid) == Held(log, pid))
    && forall pid :: DirtyAt(slots, pid) ==> Unflushed(log, fails, pid)
  }

  /** Ids not handed out yet have not been brought in. */
  ghost predicate Ahead(slots: seq<Slot>, disk: map<int, Bytes>, zeros: Bytes, next: int) {
    forall p :: next <= p ==> SlotOf(slots, p) < 0 && Content(slots, disk, zeros, p) == zeros
  }

  lemma {:induction false} StillAhead(slots: seq<Slot>, disk: map<int, Bytes>, slots': seq<Slot>, disk': map<int, Bytes>,
                                      zeros: Bytes, next: int, written: set<int>, loaded: set<int>)
    requires Ahead(slots, disk, zeros, next) && SameContent(slots, disk, slots', disk', zeros, written)
    requires NoneComesIn(slots, slots', loaded)
    requires (forall p :: p in written ==> p < next) && forall p :: p in loaded ==> p < next
    ensures Ahead(slots', disk', zeros, next)
  {
    forall p | next <= p ensures SlotOf(slots', p) < 0 && Content(slots', disk', zeros, p) == zeros {
      assert p !in written && p !in loaded;
      assert SlotOf(slots, p) < 0;
    }
  }

  /** No page has been given back, and no id is in use before it is handed out. */
  ghost predicate Unfreed(pool: Pool)
    reads pool, pool.slots
  {
    pool.Valid() && pool.freeHead < 0 && Ahead(pool.slots[..], pool.disk, pool.zeros, pool.nextPage)
  }

  /** The stamps after n calls, as long as they cannot have been used up. */
  ghost predicate Fresh(slots: seq<Slot>, stamp: int, n: nat) {
    !Worn(n) ==> 0 <= stamp <= 2 * n && Stamped(slots, stamp)
  }

  ghost predicate Agrees(pool: Pool, log: seq<Event>, fails: seq<bool>)
    requires |fails| == |log|
    reads pool, pool.slots
  {
    && Unfreed(pool) && pool.nextPage == Allocated(log) && Fresh(pool.slots[..], pool.accessCounter, |log|)
    && AgreesAt(pool.slots[..], pool.disk, pool.zeros, log, fails)
  }

  /** What one event may change. */
  ghost predicate Shows(slots: seq<Slot>, disk: map<int, Bytes>, slots': seq<Slot>, disk': map<int, Bytes>, zeros: Bytes, e: Event, failed: bool) {
    && (forall pid :: Content(slots', disk', zeros, pid) == Written(e, pid, Content(slots, disk, zeros, pid)))
    && (forall pid :: Pins(slots', pid) == HeldAfter(e, pid, Pins(slots, pid)))
    && forall pid :: DirtyAt(slots', pid) ==> UnflushedAfter(e, failed, pid, DirtyAt(slots, pid))
  }

  /** How the event's outcome depends on the slots before it. */
  ghost predicate Answers(slots: seq<Slot>, next: int, e: Event, failed: bool) {
    match e.call
    case Pin(p) =>
      && (e.done ==> 0 <= p < next && !failed)
      && (!e.done && 0 <= p < next ==> SlotOf(slots, p) < 0 && Blocked(slots, failed))
      && (failed ==> 0 <= p < next)
    case TryPin(p) => !failed && (SlotOf(slots, p) >= 0 ==> e.done)
    case Write(p, _) => !failed && (e.done <==> p >= 0 && Pins(slots, p) > 0)
    case Release(_) => !failed
    case Flush(p) => (e.done <==> p >= 0 && !failed) && (failed ==> DirtyAt(slots, p))
    case FlushAll => e.done && (failed ==> exists p :: DirtyAt(slots, p))
    case Allocate => (e.done ==> !failed) && (!e.done ==> Blocked(slots, failed))
  }

  lemma {:induction false} StillAgrees(slots: seq<Slot>, disk: map<int, Bytes>, slots': seq<Slot>, disk': map<int, Bytes>,
                                       zeros: Bytes, log: seq<Event>, fails: seq<bool>, e: Event, failed: bool)
    requires |fails| == |log| && AgreesAt(slots, disk, zeros, log, fails) && Shows(slots, disk, slots', disk', zeros, e, failed)
    ensures AgreesAt(slots', disk', zeros, log + [e], fails + [failed])
  {
    var more, moreFails := log + [e], fails + [failed];
    assert more[..|log|] == log && more[|log|] == e && moreFails[..|log|] == fails && moreFails[|log|] == failed;
    forall pid ensures Content(slots', disk', zeros, pid) == LastWrite(more, zeros, pid) && Pins(slots', pid) == Held(more, pid)
                       && (DirtyAt(slots', pid) ==> Unflushed(more, moreFails, pid)) {
      assert Content(slots, disk, zeros, pid) == LastWrite(log, zeros, pid);
      assert Pins(slots, pid) == Held(log, pid);
      assert DirtyAt(slots, pid) ==> Unflushed(log, fails, pid);
    }
  }

  /** The pages in the slots; all of them different when every slot is loaded. */
  function PagesOf(slots: seq<Slot>): set<int> {
    if slots == [] then {} else PagesOf(slots[..|slots| - 1]) + {slots[|slots| - 1].pageId}
  }

  lemma {:induction false} PagesAreMany(slots: seq<Slot>)
    requires OneSlotEach(slots) && forall i :: 0 <= i < |slots| ==> slots[i].loaded
    ensures |PagesOf(slots)| == |slots|
    ensures forall p :: p in PagesOf(slots) ==> exists i :: 0 <= i < |slots| && slots[i].pageId == p
  {
    if slots != [] {
      var n := |slots| - 1;
      PagesAreMany(slots[..n]);
      assert slots[n].pageId !in PagesOf(slots[..n]);
      forall p | p in PagesOf(slots[..n]) ensures exists i :: 0 <= i < |slots| && slots[i].pageId == p {
        var i :| 0 <= i < n && slots[..n][i].pageId == p;
        assert slots[i].pageId == p;
      }
    }
  }

  /** When no slot can be had, the run explains why. */
  lemma {:induction false} BlockedIsStuck(slots: seq<Slot>, disk: map<int, Bytes>, zeros: Bytes, stamp: int, log: seq<Event>, fails: seq<bool>, failed: bool)
    requires |fails| == |log| && Coherent(slots, disk, zeros) && AgreesAt(slots, disk, zeros, log, fails)
    requires Fresh(slots, stamp, |log|) && Blocked(slots, failed)
    ensures Stuck(log, |slots|, failed) && (failed ==> exists q :: Unflushed(log, fails, q))
  {
    if failed {
      var v :| 0 <= v < |slots| && LeastRecent(slots, v) && slots[v].dirty;
      SlotIs(slots, v);
      assert DirtyAt(slots, slots[v].pageId);
    } else if !Worn(|log|) {
      PagesAreMany(slots);
      forall p | p in PagesOf(slots) ensures Held(log, p) > 0 {
        var i :| 0 <= i < |slots| && slots[i].pageId == p;
        SlotIs(slots, i);
        assert Pins(slots, p) == slots[i].pin;
      }
    }
  }

  lemma {:induction false} AnswersExplained(slots: seq<Slot>, disk: map<int, Bytes>, zeros: Bytes, stamp: int, log: seq<Event>, fails: seq<bool>,
                                            e: Event, failed: bool)
    requires |fails| == |log| && Coherent(slots, disk, zeros) && AgreesAt(slots, disk, zeros, log, fails) && Fresh(slots, stamp, |log|)
    requires Answers(slots, Allocated(log), e, failed)
    requires (e.call.Pin? || e.call.TryPin?) && e.done ==> e.found == Content(slots, disk, zeros, e.call.pid)
    ensures Explained(log + [e], fails + [failed], zeros, |slots|, |log|)
  {
    assert (log + [e])[..|log|] == log && (fails + [failed])[..|log|] == fails;
    if (e.call.Pin? || e.call.Allocate?) && !e.done && Blocked(slots, failed) {
      BlockedIsStuck(slots, disk, zeros, stamp, log, fails, failed);
    }
    if e.call.Pin? || e.call.TryPin? || e.call.Write? {
      assert Pins(slots, e.call.pid) == Held(log, e.call.pid);
    }
  }

  lemma {:induction false} Quiet(slots: seq<Slot>, disk: map<int, Bytes>, slots': seq<Slot>, disk': map<int, Bytes>, zeros: Bytes, e: Event, failed: bool)
    requires SameContent(slots, disk, slots', disk', zeros, {}) && (forall p :: Pins(slots', p) == Pins(slots, p)) && NoneDirtied(slots, slots', {})
    requires e.call.Flush? || e.call.FlushAll? || e.call.Allocate? || (!e.done && !e.call.Release?)
    requires e.call.Flush? && !failed ==> !DirtyAt(slots', e.call.pid)
    requires e.call.FlushAll? && !failed ==> forall p :: !DirtyAt(slots', p)
    ensures Shows(slots, disk, slots', disk', zeros, e, failed)
  {
  }

  lemma {:induction false} PinsMove(slots: seq<Slot>, disk: map<int, Bytes>, slots': seq<Slot>, disk': map<int, Bytes>, zeros: Bytes, e: Event, failed: bool)
    requires SameContent(slots, disk, slots', disk', zeros, {}) && NoneDirtied(slots, slots', {})
    requires e.call.Pin? || e.call.TryPin? || e.call.Release?
    requires SamePins(slots, slots', {e.call.pid}) && Pins(slots', e.call.pid) == HeldAfter(e, e.call.pid, Pins(slots, e.call.pid))
    ensures Shows(slots, disk, slots', disk', zeros, e, failed)
  {
  }

  lemma {:induction false} OneWritten(slots: seq<Slot>, disk: map<int, Bytes>, slots': seq<Slot>, disk': map<int, Bytes>, zeros: Bytes, e: Event)
    requires e.call.Write? && e.done && SameContent(slots, disk, slots', disk', zeros, {e.call.pid}) && SamePins(slots, slots', {})
    requires Content(slots', disk', zeros, e.call.pid) == e.call.data && NoneDirtied(slots, slots', {e.call.pid})
    ensures Shows(slots, disk, slots', disk', zeros, e, false)
  {
  }

  // ---------- one call ----------

  /** Pins through the file (`load`) or only what is cached. */
  method PerformPin(pool: Pool, p: int, load: bool) returns (e: Event)
    requires Unfreed(pool)
    modifies pool, pool.slots
    ensures Unfreed(pool) && pool.nextPage == old(pool.nextPage)
    ensures e.call == (if load then Pin(p) else TryPin(p)) && (e.done ==> e.found == old(pool.Page(p)))
    ensures Shows(old(pool.slots[..]), old(pool.disk), pool.slots[..], pool.disk, pool.zeros, e, pool.failures != old(pool.failures))
    ensures Answers(old(pool.slots[..]), pool.nextPage, e, pool.failures != old(pool.failures))
    ensures StampsMoveOn(old(pool.slots[..]), old(pool.accessCounter), pool.slots[..], pool.accessCounter, 2)
  {
    ghost var s, d, f := pool.slots[..], pool.disk, pool.failures;
    var call := if load then Pin(p) else TryPin(p);
    if load && (p < 0 || p >= pool.nextPage) {
      e := Event(call, false, []);
      Quiet(s, d, s, d, pool.zeros, e, false);
      return;
    }
    var idx;
    if load {
      idx := pool.PinPage(p);
      StillAhead(s, d, pool.slots[..], pool.disk, pool.zeros, pool.nextPage, {}, {p});
    } else {
      idx := pool.TryPin(p);
      StillAhead(s, d, pool.slots[..], pool.disk, pool.zeros, pool.nextPage, {}, {});
    }
    e := Event(call, idx >= 0, if idx >= 0 then pool.slots[idx].data else []);
    PinsMove(s, d, pool.slots[..], pool.disk, pool.zeros, e, pool.failures != f);
  }

  method PerformWrite(pool: Pool, p: int, data: Bytes) returns (e: Event)
    requires Unfreed(pool)
    modifies pool, pool.slots
    ensures Unfreed(pool) && pool.nextPage == old(pool.nextPage) && e.call == Write(p, data) && pool.failures == old(pool.failures)
    ensures Shows(old(pool.slots[..]), old(pool.disk), pool.slots[..], pool.disk, pool.zeros, e, false)
    ensures Answers(old(pool.slots[..]), pool.nextPage, e, false)
    ensures StampsMoveOn(old(pool.slots[..]), old(pool.accessCounter), pool.slots[..], pool.accessCounter, 2)
  {
    ghost var s, d := pool.slots[..], pool.disk;
    var n := pool.PinCount(p);
    e := Event(Write(p, data), p >= 0 && n > 0, []);
    if e.done {
      pool.Write(p, data);
      OneWritten(s, d, pool.slots[..], pool.disk, pool.zeros, e);
      StillAhead(s, d, pool.slots[..], pool.disk, pool.zeros, pool.nextPage, {p}, {});
    }
  }

  method PerformAllocate(pool: Pool) returns (e: Event)
    requires Unfreed(pool)
    modifies pool, pool.slots
    ensures Unfreed(pool) && e.call == Allocate && pool.nextPage == old(pool.nextPage) + if e.done then 1 else 0
    ensures Shows(old(pool.slots[..]), old(pool.disk), pool.slots[..], pool.disk, pool.zeros, e, pool.failures != old(pool.failures))
    ensures Answers(old(pool.slots[..]), old(pool.nextPage), e, pool.failures != old(pool.failures))
    ensures StampsMoveOn(old(pool.slots[..]), old(pool.accessCounter), pool.slots[..], pool.accessCounter, 2)
  {
    ghost var s, d, f := pool.slots[..], pool.disk, pool.failures;
    var pid;
    ghost var idx;
    pid, idx := pool.Allocate();
    e := Event(Allocate, pid >= 0, []);
    assert forall p :: Pins(pool.slots[..], p) == Pins(s, p);
    Quiet(s, d, pool.slots[..], pool.disk, pool.zeros, e, pool.failures != f);
    StillAhead(s, d, pool.slots[..], pool.disk, pool.zeros, pool.nextPage, {}, {pid});
  }

  method PerformRelease(pool: Pool, p: int) returns (e: Event)
    requires Unfreed(pool)
    modifies pool, pool.slots
    ensures Unfreed(pool) && pool.nextPage == old(pool.nextPage) && e.call == Release(p)
    ensures Shows(old(pool.slots[..]), old(pool.disk), pool.slots[..], pool.disk, pool.zeros, e, pool.failures != old(pool.failures))
    ensures Answers(old(pool.slots[..]), pool.nextPage, e, pool.failures != old(pool.failures))
    ensures StampsMoveOn(old(pool.slots[..]), old(pool.accessCounter), pool.slots[..], pool.accessCounter, 2)
  {
    ghost var s, d := pool.slots[..], pool.disk;
    pool.ReleasePage(p);
    e := Event(Release(p), true, []);
    PinsMove(s, d, pool.slots[..], pool.disk, pool.zeros, e, false);
    StillAhead(s, d, pool.slots[..], pool.disk, pool.zeros, pool.nextPage, {}, {});
  }

  method PerformFlush(pool: Pool, p: int) returns (e: Event)
    requires Unfreed(pool)
    modifies pool, pool.slots
    ensures Unfreed(pool) && pool.nextPage == old(pool.nextPage) && e.call == Flush(p)
    ensures Shows(old(pool.slots[..]), old(pool.disk), pool.slots[..], pool.disk, pool.zeros, e, pool.failures != old(pool.failures))
    ensures Answers(old(pool.slots[..]), pool.nextPage, e, pool.failures != old(pool.failures))
    ensures StampsMoveOn(old(pool.slots[..]), old(pool.accessCounter), pool.slots[..], pool.accessCounter, 2)
  {
    ghost var s, d, f := pool.slots[..], pool.disk, pool.failures;
    var ok := pool.FlushPage(p);
    e := Event(Flush(p), ok, []);
    if p < 0 {
      NotCached(pool.slots[..], pool.disk, pool.zeros, p);
    }
    Quiet(s, d, pool.slots[..], pool.disk, pool.zeros, e, pool.failures != f);
    StillAhead(s, d, pool.slots[..], pool.disk, pool.zeros, pool.nextPage, {}, {});
  }

  method PerformFlushAll(pool: Pool) returns (e: Event)
    requires Unfreed(pool)
    modifies pool, pool.slots
    ensures Unfreed(pool) && pool.nextPage == old(pool.nextPage) && e.call == FlushAll
    ensures Shows(old(pool.slots[..]), old(pool.disk), pool.slots[..], pool.disk, pool.zeros, e, pool.failures != old(pool.failures))
    ensures Answers(old(pool.slots[..]), pool.nextPage, e, pool.failures != old(pool.failures))
    ensures StampsMoveOn(old(pool.slots[..]), old(pool.accessCounter), pool.slots[..], pool.accessCounter, 2)
  {
    ghost var s, d, f := pool.slots[..], pool.disk, pool.failures;
    pool.FlushAll();
    e := Event(FlushAll, true, []);
    Quiet(s, d, pool.slots[..], pool.disk, pool.zeros, e, pool.failures != f);
    StillAhead(s, d, pool.slots[..], pool.disk, pool.zeros, pool.nextPage, {}, {});
  }

  /** The call, carried out on the pool. */
  method Do(pool: Pool, call: Call) returns (e: Event)
    requires Unfreed(pool)
    modifies pool, pool.slots
    ensures Unfreed(pool) && e.call == call && pool.nextPage == old(pool.nextPage) + if call.Allocate? && e.done then 1 else 0
    ensures (call.Pin? || call.TryPin?) && e.done ==> e.found == old(pool.Page(call.pid))
    ensures Shows(old(pool.slots[..]), old(pool.disk), pool.slots[..], pool.disk, pool.zeros, e, pool.failures != old(pool.failures))
    ensures Answers(old(pool.slots[..]), old(pool.nextPage), e, pool.failures != old(pool.failures))
    ensures StampsMoveOn(old(pool.slots[..]), old(pool.accessCounter), pool.slots[..], pool.accessCounter, 2)
  {
    match call {
      case Pin(p) =>
        e := PerformPin(pool, p, true);
      case TryPin(p) =>
        e := PerformPin(pool, p, false);
      case Write(p, data) =>
        e := PerformWrite(pool, p, data);
      case Release(p) =>
        e := PerformRelease(pool, p);
      case Flush(p) =>
        e := PerformFlush(pool, p);
      case FlushAll =>
        e := PerformFlushAll(pool);
      case Allocate =>
        e := PerformAllocate(pool);
    }
  }

  method Perform(pool: Pool, call: Call, ghost log: seq<Event>, ghost fails: seq<bool>) returns (e: Event, ghost failed: bool)
    requires |fails| == |log| && Agrees(pool, log, fails)
    modifies pool, pool.slots
    ensures Agrees(pool, log + [e], fails + [failed]) && e.call == call
    ensures Explained(log + [e], fails + [failed], pool.zeros, pool.slots.Length, |log|)
  {
    ghost var s, d, stamp, f := pool.slots[..], pool.disk, pool.accessCounter, pool.failures;
    e := Do(pool, call);
    failed := pool.failures != f;
    StillAgrees(s, d, pool.slots[..], pool.disk, pool.zeros, log, fails, e, failed);
    AnswersExplained(s, d, pool.zeros, stamp, log, fails, e, failed);
    assert (log + [e])[..|log|] == log;
  }

  ghost predicate AllExplained(log: seq<Event>, fails: seq<bool>, zeros: Bytes, capacity: nat)
    requires |fails| == |log|
  {
    forall i :: 0 <= i < |log| ==> Explained(log, fails, zeros, capacity, i)
  }

  lemma {:induction false} OneMore(log: seq<Event>, fails: seq<bool>, zeros: Bytes, capacity: nat, e: Event, failed: bool)
    requires |fails| == |log| && AllExplained(log, fails, zeros, capacity)
    requires Explained(log + [e], fails + [failed], zeros, capacity, |log|)
    ensures AllExplained(log + [e], fails + [failed], zeros, capacity)
  {
    var more, moreFails := log + [e], fails + [failed];
    forall i | 0 <= i < |more| ensures Explained(more, moreFails, zeros, capacity, i) {
      if i < |log| {
        assert more[..i] == log[..i] && more[i] == log[i] && moreFails[..i] == fails[..i] && moreFails[i] == fails[i];
        assert Explained(log, fails, zeros, capacity, i);
      }
    }
  }

  /** While fewer pages are held than there are slots and nothing is unflushed, every allocated page can be pinned. */
  lemma {:induction false} PinTakesEffect(log: seq<Event>, fails: seq<bool>, zeros: Bytes, capacity: nat, i: nat)
    requires i < |log| == |fails| && Explained(log, fails, zeros, capacity, i) && !Worn(i)
    requires log[i].call.Pin? && 0 <= log[i].call.pid < Allocated(log[..i])
    requires !AllTaken(log[..i], capacity) && forall q :: !Unflushed(log[..i], fails[..i], q)
    ensures log[i].done && log[i].found == LastWrite(log[..i], zeros, log[i].call.pid)
  {
  }

  function Calls(log: seq<Event>): seq<Call> {
    if log == [] then [] else Calls(log[..|log| - 1]) + [log[|log| - 1].call]
  }

  method Open(capacity: nat, zeros: Bytes) returns (pool: Pool)
    requires 0 < capacity <= 256
    ensures fresh(pool) && fresh(pool.slots) && pool.slots.Length == capacity && pool.zeros == zeros && Agrees(pool, [], [])
  {
    pool := new Pool(capacity, zeros);
    forall pid ensures Content(pool.slots[..], pool.disk, zeros, pid) == LastWrite([], zeros, pid) {
      assert pool.Page(pid) == zeros;
    }
  }

  /** What is not unflushed is in the file. */
  lemma {:induction false} FlushedIsStored(slots: seq<Slot>, disk: map<int, Bytes>, zeros: Bytes, log: seq<Event>, fails: seq<bool>, pid: int)
    requires |fails| == |log| && Coherent(slots, disk, zeros) && AgreesAt(slots, disk, zeros, log, fails) && !Unflushed(log, fails, pid)
    ensures OnDisk(disk, zeros, pid) == LastWrite(log, zeros, pid)
  {
    assert !DirtyAt(slots, pid) && Content(slots, disk, zeros, pid) == LastWrite(log, zeros, pid);
    var i := SlotOf(slots, pid);
    if i >= 0 {
      assert SlotOk(slots[i], disk, zeros);
    }
  }

  /**
   * Every run, whatever is evicted and whichever writes to the file fail: each page's content is the last
   * write to it, every pin finds that content, no held page loses its pins, calls take effect as explained,
   * and the file holds the last write to every page that has been flushed since.
   */
  method Replay(pool: Pool, calls: seq<Call>) returns (log: seq<Event>, ghost fails: seq<bool>)
    requires Agrees(pool, [], [])
    modifies pool, pool.slots
    ensures Calls(log) == calls && |fails| == |log| && Agrees(pool, log, fails) && AllExplained(log, fails, pool.zeros, pool.slots.Length)
    ensures forall pid :: !Unflushed(log, fails, pid) ==> OnDisk(pool.disk, pool.zeros, pid) == LastWrite(log, pool.zeros, pid)
  {
    log, fails := [], [];
    for n := 0 to |calls|
      invariant Calls(log) == calls[..n] && |fails| == |log|
      invariant Agrees(pool, log, fails) && AllExplained(log, fails, pool.zeros, pool.slots.Length)
    {
      var e;
      ghost var failed;
      e, failed := Perform(pool, calls[n], log, fails);
      OneMore(log, fails, pool.zeros, pool.slots.Length, e, failed);
      assert (log + [e])[..|log|] == log;
      log, fails := log + [e], fails + [failed];
      assert calls[..n + 1] == calls[..n] + [calls[n]];
    }
    assert calls[..|calls|] == calls;
    forall pid | !Unflushed(log, fails, pid) ensures OnDisk(pool.disk, pool.zeros, pid) == LastWrite(log, pool.zeros, pid) {
      FlushedIsStored(pool.slots[..], pool.disk, pool.zeros, log, fails, pid);
    }
  }

  lemma {:induction false} ZerosLink(zeros: Bytes)
    requires |zeros| >= 4 && forall i :: 0 <= i < |zeros| ==> zeros[i] == 0
    ensures LinkOf(zeros) == 0
  {
    assert zeros[0..4] == [0, 0, 0, 0];
  }

  /**
   * A page given back and at once handed out again is marked clean although the file has other bytes for
   * it: the cache is no longer coherent, for every link but 0.
   */
  method FreeThenAllocate(pool: Pool, pid: int) returns (got: int, ghost held: Bytes)
    requires pool.Valid() && 0 <= pid && SlotOf(pool.slots[..], pid) >= 0
    requires IsI32(pool.freeHead) && pool.freeHead != 0 && forall i :: 0 <= i < |pool.zeros| ==> pool.zeros[i] == 0
    modifies pool, pool.slots
    ensures got >= 0 && |held| >= 4 ==> got == pid && !pool.Valid()
  {
    pool.FreePage(pid);
    held := pool.Page(pid);
    if |pool.zeros| >= 4 {
      ZerosLink(pool.zeros);
    }
    ghost var idx;
    got, idx := pool.Allocate();
  }
}
