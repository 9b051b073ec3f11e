/** What transactions can read, over whole runs of the engine. */
module Isolation {
  import opened ByteStrings
  import opened VersionChain
  import opened LockTable
  import opened TxnList
  import opened Mvcc

  // ---------- what happened in a run ----------

  /** The state before step i. */
  function Before(open: OpenState, steps: seq<Step>, i: nat): State
    requires i <= |steps|
  {
    Run(open, steps[..i])
  }

  ghost predicate WroteAt(open: OpenState, steps: seq<Step>, i: int, c: int, k: Bytes, v: Bytes) {
    && 0 <= i < |steps| && steps[i].Set? && steps[i].txn == c && steps[i].key == k && steps[i].value == v
    && SetSucceeds(Before(open, steps, i), c, k, steps[i].alloc, steps[i].room)
  }

  ghost predicate Wrote(open: OpenState, steps: seq<Step>, c: int, k: Bytes, v: Bytes) {
    exists i :: WroteAt(open, steps, i, c, k, v)
  }

  ghost predicate CommittedAt(open: OpenState, steps: seq<Step>, i: int, c: int) {
    0 <= i < |steps| && steps[i] == Commit(c) && c in Before(open, steps, i).txns.active
  }

  ghost predicate WasCommitted(open: OpenState, steps: seq<Step>, c: int) {
    exists i :: CommittedAt(open, steps, i, c)
  }

  ghost predicate RolledBackAt(open: OpenState, steps: seq<Step>, i: int, c: int) {
    0 <= i < |steps| && steps[i] == Rollback(c) && c in Before(open, steps, i).txns.active
  }

  ghost predicate WasRolledBack(open: OpenState, steps: seq<Step>, c: int) {
    exists i :: RolledBackAt(open, steps, i, c)
  }

  /** No transaction is committed after it was rolled back. */
  ghost predicate Disciplined(steps: seq<Step>) {
    forall i, j, c :: 0 <= i < j < |steps| && steps[i] == Rollback(c) ==> steps[j] != Commit(c)
  }

  // ---------- finishing is for ever ----------

  lemma {:induction false} RunSplit(s: State, a: seq<Step>, b: seq<Step>)
    ensures Run(s, a + b) == Run(Run(s, a), b)
  {
    if b == [] {
      assert a + b == a;
    } else {
      var n := |b| - 1;
      assert (a + b)[..|a + b| - 1] == a + b[..n];
      RunSplit(s, a, b[..n]);
    }
  }

  /** How one step changes who is unfinished and who is listed. */
  lemma {:induction false} ListAfter(s: State, step: Step, c: int)
    requires ListOk(s.txns)
    ensures var began := step == Begin && CanBegin(s.txns) && c == s.txns.nextTxid;
            && (IsActive(Next(s, step).txns, c) <==> began || (IsActive(s.txns, c) && step != Commit(c) && step != Rollback(c)))
            && (c in Next(s, step).txns.active <==> began || (c in s.txns.active && step != Commit(c)))
    ensures ListOk(Next(s, step).txns)
    ensures Next(s, step).txns.nextTxid == s.txns.nextTxid + if step == Begin && CanBegin(s.txns) then 1 else 0
  {
    match step
    case Begin => BeginKeeps(s.txns, c);
    case Commit(t) => CommitKeeps(s.txns, t, c);
    case Rollback(t) => RollbackKeeps(s.txns, t, c);
    case Set(t, k, v, alloc, room) =>
    case Delete(t, k, room) =>
    case Collect(keys) =>
  }

  /** An id that has been handed out and has left the list, or is finished, stays so. */
  lemma {:induction false} FinishedStays(s: State, steps: seq<Step>, c: int)
    requires ListOk(s.txns) && c < s.txns.nextTxid
    ensures ListOk(Run(s, steps).txns) && c < Run(s, steps).txns.nextTxid
    ensures !IsActive(s.txns, c) ==> !IsActive(Run(s, steps).txns, c)
    ensures c !in s.txns.active ==> c !in Run(s, steps).txns.active
  {
    if steps != [] {
      var n := |steps| - 1;
      FinishedStays(s, steps[..n], c);
      ListAfter(Run(s, steps[..n]), steps[n], c);
    }
  }

  lemma {:induction false} RunFrom(open: OpenState, steps: seq<Step>, i: nat, j: nat)
    requires i <= j <= |steps|
    ensures Before(open, steps, j) == Run(Before(open, steps, i), steps[i..j])
    ensures i < j ==> Before(open, steps, i + 1) == Next(Before(open, steps, i), steps[i])
  {
    assert steps[..j] == steps[..i] + steps[i..j];
    RunSplit(open, steps[..i], steps[i..j]);
    if i < j {
      assert steps[..i + 1][..i] == steps[..i];
    }
  }

  /** Listed ids have been handed out. */
  lemma {:induction false} ListedIsOld(l: Txns, c: int)
    requires ListOk(l) && c in l.active
    ensures 1 <= c < l.nextTxid
  {
  }

  /** After a rollback or a commit that reached it, a transaction is never unfinished again. */
  lemma {:induction false} EndedIsOver(open: OpenState, steps: seq<Step>, i: nat, j: nat, c: int)
    requires CommittedAt(open, steps, i, c) || RolledBackAt(open, steps, i, c)
    requires i < j <= |steps|
    ensures !IsActive(Before(open, steps, j).txns, c)
    ensures CommittedAt(open, steps, i, c) ==> c !in Before(open, steps, j).txns.active
  {
    var s, s' := Before(open, steps, i), Before(open, steps, i + 1);
    EveryRunIsOk(open, steps[..i]);
    EveryRunIsOk(open, steps[..i + 1]);
    RunFrom(open, steps, i, i + 1);
    RunFrom(open, steps, i + 1, j);
    ListedIsOld(s.txns, c);
    ListAfter(s, steps[i], c);
    FinishedStays(s', steps[i + 1..j], c);
  }

  /** In a disciplined run nothing is both rolled back and committed. */
  lemma {:induction false} RollbackIsFinal(open: OpenState, steps: seq<Step>, c: int)
    requires Disciplined(steps) && WasRolledBack(open, steps, c)
    ensures !WasCommitted(open, steps, c)
  {
    var i :| RolledBackAt(open, steps, i, c);
    if j :| CommittedAt(open, steps, j, c) {
      if j < i {
        EndedIsOver(open, steps, j, i, c);
      }
    }
  }

  // ---------- what is listed and what is stored ----------

  lemma {:induction false} Longer(open: OpenState, steps: seq<Step>, i: nat)
    requires 0 < |steps| && i < |steps|
    ensures Before(open, steps[..|steps| - 1], i) == Before(open, steps, i)
  {
    assert steps[..|steps| - 1][..i] == steps[..i];
  }

  lemma {:induction false} CommittedSoFar(open: OpenState, steps: seq<Step>, c: int)
    requires steps != []
    ensures WasCommitted(open, steps, c) <==>
            WasCommitted(open, steps[..|steps| - 1], c) || CommittedAt(open, steps, |steps| - 1, c)
  {
    var m := steps[..|steps| - 1];
    if i :| CommittedAt(open, steps, i, c) {
      Longer(open, steps, i);
      assert i < |m| ==> CommittedAt(open, m, i, c);
    }
    if i :| CommittedAt(open, m, i, c) {
      Longer(open, steps, i);
      assert CommittedAt(open, steps, i, c);
    }
  }

  /** Ids used up before the opening are never listed. */
  lemma {:induction false} EarlierIsUnlisted(open: OpenState, steps: seq<Step>, c: int)
    requires c < open.txns.nextTxid
    ensures c !in Run(open, steps).txns.active
  {
    OpenedIsOk(open);
    FinishedStays(open, steps, c);
  }

  /** An id that has been handed out is off the list exactly when it was committed. */
  lemma {:induction false} UnlistedIsCommitted(open: OpenState, steps: seq<Step>, c: int)
    requires open.txns.nextTxid <= c < Run(open, steps).txns.nextTxid
    ensures c !in Run(open, steps).txns.active <==> WasCommitted(open, steps, c)
  {
    if steps != [] {
      var n := |steps| - 1;
      var s := Run(open, steps[..n]);
      EveryRunIsOk(open, steps[..n]);
      ListAfter(s, steps[n], c);
      CommittedSoFar(open, steps, c);
      if c < s.txns.nextTxid {
        UnlistedIsCommitted(open, steps[..n], c);
      } else {
        NotYetCommitted(open, steps[..n], c);
      }
    }
  }

  lemma {:induction false} NotYetCommitted(open: OpenState, steps: seq<Step>, c: int)
    requires Run(open, steps).txns.nextTxid <= c
    ensures !WasCommitted(open, steps, c)
  {
    if i :| CommittedAt(open, steps, i, c) {
      EveryRunIsOk(open, steps[..i]);
      RunFrom(open, steps, i, |steps|);
      assert steps[..|steps|] == steps;
      ListedIsOld(Before(open, steps, i).txns, c);
      FinishedStays(Before(open, steps, i), steps[i..], c);
    }
  }

  /** Which versions a step can add. */
  lemma {:induction false} StepStores(s: State, step: Step, k: Bytes, x: Version)
    requires k in Next(s, step).chains && x in Next(s, step).chains[k] && !x.tombstone
    ensures (k in s.chains && x in s.chains[k]) || (step.Set? && step.key == k && x == Version(step.txn, 0, false, step.value)
                                                    && SetSucceeds(s, step.txn, k, step.alloc, step.room))
  {
    match step
    case Collect(keys) => PrunedMembers(s.chains[k], s.txns.active);
    case Set(t, q, v, alloc, room) =>
    case Delete(t, q, room) =>
    case Begin =>
    case Commit(t) =>
    case Rollback(t) =>
  }

  lemma {:induction false} WroteSoFar(open: OpenState, steps: seq<Step>, c: int, k: Bytes, v: Bytes)
    requires steps != [] && Wrote(open, steps[..|steps| - 1], c, k, v)
    ensures Wrote(open, steps, c, k, v)
  {
    var i :| WroteAt(open, steps[..|steps| - 1], i, c, k, v);
    Longer(open, steps, i);
    assert WroteAt(open, steps, i, c, k, v);
  }

  /** The value was there when the database was opened. */
  predicate WasThere(open: State, c: int, k: Bytes, v: Bytes) {
    k in open.chains && exists x :: x in open.chains[k] && x.created == c && !x.tombstone && x.value == v
  }

  /** Every stored value was there at the opening or written under its creator's id by a successful call. */
  lemma {:induction false} StoredWasWritten(open: OpenState, steps: seq<Step>, k: Bytes, x: Version)
    requires k in Run(open, steps).chains && x in Run(open, steps).chains[k] && !x.tombstone
    ensures Wrote(open, steps, x.created, k, x.value) || WasThere(open, x.created, k, x.value)
  {
    if steps != [] {
      var n := |steps| - 1;
      var s := Run(open, steps[..n]);
      StepStores(s, steps[n], k, x);
      if k in s.chains && x in s.chains[k] {
        StoredWasWritten(open, steps[..n], k, x);
        if Wrote(open, steps[..n], x.created, k, x.value) {
          WroteSoFar(open, steps, x.created, k, x.value);
        }
      } else {
        assert WroteAt(open, steps, n, x.created, k, x.value);
      }
    }
  }

  /** What c wrote counts for later readers: it was there at the opening, or c has been committed since. */
  ghost predicate Settled(open: OpenState, steps: seq<Step>, c: int) {
    c < open.txns.nextTxid || WasCommitted(open, steps, c)
  }

  // ---------- main results ----------

  /**
   * Which versions count for a reader, in any reachable state: its own, and those with lower ids that
   * were there at the opening or are by transactions committed since, however late.
   */
  lemma {:induction false} SeenExactly(open: OpenState, steps: seq<Step>, t: int, k: Bytes, x: Version)
    requires var s := Run(open, steps); k in s.chains && x in s.chains[k]
    ensures Sees(x, t, Run(open, steps).txns.active) <==>
            x.created == t || (x.created < t && Settled(open, steps, x.created))
  {
    var s := Run(open, steps);
    EveryRunIsOk(open, steps);
    assert ChainOk(s.chains[k], s, k);
    if x.created < open.txns.nextTxid {
      EarlierIsUnlisted(open, steps, x.created);
    } else {
      UnlistedIsCommitted(open, steps, x.created);
    }
  }

  /**
   * A value that a transaction reads was there at the opening, or written to that key either by itself
   * or by a committed transaction with a lower id; in a disciplined run, never by one that was rolled back.
   */
  lemma {:induction false} ReadsAreJustified(open: OpenState, steps: seq<Step>, t: int, k: Bytes, v: Bytes)
    requires Read(Run(open, steps), t, k) == Some(v)
    ensures exists c :: (Wrote(open, steps, c, k, v) || WasThere(open, c, k, v)) && (c == t || (c < t && Settled(open, steps, c)))
                        && (Disciplined(steps) ==> !WasRolledBack(open, steps, c))
  {
    var s := Run(open, steps);
    var seen := LastVisible(s.chains[k], t, s.txns.active);
    LastVisibleIsNewest(s.chains[k], t, s.txns.active);
    var x := seen.value;
    assert x in s.chains[k];
    StoredWasWritten(open, steps, k, x);
    SeenExactly(open, steps, t, k, x);
    assert steps[..|steps|] == steps;
    if Disciplined(steps) && WasRolledBack(open, steps, x.created) {
      RollbackIsFinal(open, steps, x.created);
      var i :| RolledBackAt(open, steps, i, x.created);
      if x.created < open.txns.nextTxid {
        EarlierIsUnlisted(open, steps[..i], x.created);
      }
      EndedIsOver(open, steps, i, |steps|, x.created);
    }
  }

  /** A collection changes no answer to any unfinished transaction. */
  lemma {:induction false} CollectIsInvisible(s: State, keys: set<Bytes>, t: int, k: Bytes)
    requires Inv(s)
    ensures Read(CollectStep(s, keys), t, k) == Read(s, t, k)
  {
    if KeyFits(k) && IsActive(s.txns, t) && k in s.chains && |s.chains[k]| > 1 {
      assert ChainOk(s.chains[k], s, k) && Owned(s.chains[k], s, k, t);
      ListedIff(s.txns, t);
      PruneForListed(s.chains[k], t, s.txns.active);
    }
  }

  /** So it is in every reachable state. */
  lemma {:induction false} CollectInAnyRun(open: OpenState, steps: seq<Step>, keys: set<Bytes>, t: int, k: Bytes)
    ensures Read(Run(open, steps + [Collect(keys)]), t, k) == Read(Run(open, steps), t, k)
  {
    EveryRunIsOk(open, steps);
    assert (steps + [Collect(keys)])[..|steps|] == steps;
    CollectIsInvisible(Run(open, steps), keys, t, k);
  }

  // ---------- reading one's own writes ----------

  ghost predicate Newest(s: State, t: int, k: Bytes, x: Version) {
    && IsActive(s.txns, t) && Holds(s.locks, t, k) && x.created == t
    && k in s.chains && s.chains[k] != [] && s.chains[k][|s.chains[k]| - 1] == x
  }

  /** The step is a write to k by t, or ends t. */
  predicate Touches(step: Step, t: int, k: Bytes) {
    match step
    case Set(u, q, _, _, _) => u == t && q == k
    case Delete(u, q, _) => u == t && q == k
    case Commit(u) => u == t
    case Rollback(u) => u == t
    case Begin => false
    case Collect(_) => false
  }

  lemma {:induction false} OthersAreRefused(s: State, t: int, u: int, k: Bytes)
    requires Inv(s) && Holds(s.locks, t, k) && u != t
    ensures !Grants(s.locks, u, k, true)
  {
    ExclusiveMeansOneHolder(s.locks, u, k);
  }

  lemma {:induction false} LocksAfter(s: State, step: Step, t: int, k: Bytes)
    requires Inv(s) && Holds(s.locks, t, k) && step != Commit(t) && step != Rollback(t)
    ensures Holds(Next(s, step).locks, t, k)
  {
    match step
    case Commit(u) => ReleaseIsExact(s.locks, u);
    case Rollback(u) => ReleaseIsExact(s.locks, u);
    case Set(u, q, _, _, _) =>
      if !SetRefused(s, u, q) {
        AcquireKeepsLocks(s, u, q);
      }
    case Delete(u, q, _) =>
      if !DeleteRefused(s, u, q) {
        AcquireKeepsLocks(s, u, q);
      }
    case Begin =>
    case Collect(_) =>
  }

  /** A write by another transaction leaves a locked key's chain alone. */
  lemma {:induction false} SetSparesChain(s: State, u: int, q: Bytes, v: Bytes, alloc: bool, room: bool, t: int, k: Bytes)
    requires Inv(s) && Holds(s.locks, t, k) && k in s.chains && (q == k ==> u != t)
    ensures var s' := SetStep(s, u, q, v, alloc, room); k in s'.chains && s'.chains[k] == s.chains[k]
  {
    if q == k {
      OthersAreRefused(s, t, u, k);
    }
  }

  lemma {:induction false} DeleteSparesChain(s: State, u: int, q: Bytes, room: bool, t: int, k: Bytes)
    requires Inv(s) && Holds(s.locks, t, k) && k in s.chains && (q == k ==> u != t)
    ensures var s' := DeleteStep(s, u, q, room); k in s'.chains && s'.chains[k] == s.chains[k]
  {
    if q == k {
      OthersAreRefused(s, t, u, k);
    }
  }

  lemma {:induction false} PruneKeepsNewest(chain: seq<Version>, active: seq<int>)
    requires chain != []
    ensures var p := Pruned(chain, active); p != [] && p[|p| - 1] == chain[|chain| - 1]
  {
  }

  /** While t holds the lock, only t changes what the chain of k ends with. */
  lemma {:induction false} EndStays(s: State, step: Step, t: int, k: Bytes)
    requires Inv(s) && Holds(s.locks, t, k) && k in s.chains && s.chains[k] != [] && !Touches(step, t, k)
    ensures var s' := Next(s, step);
            k in s'.chains && s'.chains[k] != [] && s'.chains[k][|s'.chains[k]| - 1] == s.chains[k][|s.chains[k]| - 1]
  {
    match step
    case Set(u, q, v, alloc, room) => SetSparesChain(s, u, q, v, alloc, room, t, k);
    case Delete(u, q, room) => DeleteSparesChain(s, u, q, room, t, k);
    case Collect(_) => PruneKeepsNewest(s.chains[k], s.txns.active);
    case Begin =>
    case Commit(_) =>
    case Rollback(_) =>
  }

  lemma {:induction false} NewestStays(s: State, step: Step, t: int, k: Bytes, x: Version)
    requires Inv(s) && Newest(s, t, k, x) && !Touches(step, t, k)
    ensures Newest(Next(s, step), t, k, x)
  {
    ListAfter(s, step, t);
    LocksAfter(s, step, t, k);
    EndStays(s, step, t, k);
  }

  lemma {:induction false} NewestStaysLong(s: State, steps: seq<Step>, t: int, k: Bytes, x: Version)
    requires Inv(s) && Newest(s, t, k, x)
    requires forall i :: 0 <= i < |steps| ==> !Touches(steps[i], t, k)
    ensures Inv(Run(s, steps)) && Newest(Run(s, steps), t, k, x)
  {
    if steps != [] {
      var n := |steps| - 1;
      NewestStaysLong(s, steps[..n], t, k, x);
      NewestStays(Run(s, steps[..n]), steps[n], t, k, x);
      StepKeeps(Run(s, steps[..n]), steps[n]);
    }
  }

  lemma {:induction false} NewestIsRead(s: State, t: int, k: Bytes, x: Version)
    requires Inv(s) && Newest(s, t, k, x) && KeyFits(k)
    ensures Read(s, t, k) == ValueOf(Some(x))
  {
    assert ChainOk(s.chains[k], s, k);
  }

  ghost predicate WriteSucceeds(s: State, step: Step) {
    match step
    case Set(t, k, v, alloc, room) => SetSucceeds(s, t, k, alloc, room)
    case Delete(t, k, room) => DeleteSucceeds(s, t, k, room) && KeyFits(k)
    case Begin => false
    case Commit(_) => false
    case Rollback(_) => false
    case Collect(_) => false
  }

  /**
   * After a successful write, and whatever else happens (collections and the other transactions'
   * calls included), the writer reads what it wrote until it writes that key again or ends.
   */
  lemma {:induction false} ReadYourWrites(open: OpenState, steps: seq<Step>, write: Step, rest: seq<Step>)
    requires WriteSucceeds(Run(open, steps), write)
    requires forall i :: 0 <= i < |rest| ==> !Touches(rest[i], write.txn, write.key)
    ensures Read(Run(open, steps + [write] + rest), write.txn, write.key) ==
            if write.Set? then Some(write.value) else None
  {
    var s := Run(open, steps);
    var s' := Next(s, write);
    EveryRunIsOk(open, steps);
    StepKeeps(s, write);
    AcquireKeepsLocks(s, write.txn, write.key);
    var x := Version(write.txn, 0, write.Delete?, if write.Set? then write.value else []);
    assert Newest(s', write.txn, write.key, x);
    assert (steps + [write])[..|steps|] == steps;
    RunSplit(open, steps + [write], rest);
    NewestStaysLong(s', rest, write.txn, write.key, x);
    NewestIsRead(Run(s', rest), write.txn, write.key, x);
  }

  // ---------- what ending a transaction does to the others ----------

  lemma {:induction false} SameSight(chain: seq<Version>, t: int, a: seq<int>, b: seq<int>)
    requires forall i :: 0 <= i < |chain| ==> (Sees(chain[i], t, a) <==> Sees(chain[i], t, b))
    ensures LastVisible(chain, t, a) == LastVisible(chain, t, b)
  {
    if chain != [] {
      SameSight(chain[..|chain| - 1], t, a, b);
    }
  }

  /** Taking c off the list shows t the end of a chain that c's versions end, and changes nothing else. */
  lemma {:induction false} UnlistedShows(chain: seq<Version>, c: int, t: int, a: seq<int>, b: seq<int>)
    requires chain != [] && TailOf(chain, c) && NoDeleter(chain) && t != c
    requires forall v :: v in chain ==> (v.created in b <==> v.created in a && v.created != c)
    ensures LastVisible(chain, t, b) ==
            if c < t && chain[|chain| - 1].created == c then Some(chain[|chain| - 1]) else LastVisible(chain, t, a)
  {
    var last := chain[|chain| - 1];
    assert last in chain;
    if last.created != c || t < c {
      forall i | 0 <= i < |chain| ensures Sees(chain[i], t, a) <==> Sees(chain[i], t, b) {
        assert chain[i] in chain;
      }
      SameSight(chain, t, a, b);
    }
  }

  lemma {:induction false} CommitShows(chain: seq<Version>, l: Txns, c: int, t: int)
    requires chain != [] && TailOf(chain, c) && NoDeleter(chain) && t != c && ListOk(l)
    ensures LastVisible(chain, t, Committed(l, c).active) ==
            if c < t && chain[|chain| - 1].created == c then Some(chain[|chain| - 1]) else LastVisible(chain, t, l.active)
  {
    forall v | v in chain ensures v.created in Committed(l, c).active <==> v.created in l.active && v.created != c {
      CommitKeeps(l, c, v.created);
    }
    UnlistedShows(chain, c, t, l.active, Committed(l, c).active);
  }

  /**
   * Commit shows the other transactions with higher ids, running ones included, what c wrote last
   * to each key, and shows nobody anything else. So reads are not from a snapshot.
   */
  lemma {:induction false} CommitPublishes(s: State, c: int, t: int, k: Bytes)
    requires Inv(s) && IsActive(s.txns, c) && t != c
    ensures Read(Next(s, Commit(c)), t, k) ==
            if c < t && KeyFits(k) && IsActive(s.txns, t) && k in s.chains && s.chains[k] != []
               && s.chains[k][|s.chains[k]| - 1].created == c
            then ValueOf(Some(s.chains[k][|s.chains[k]| - 1]))
            else Read(s, t, k)
  {
    var s' := Next(s, Commit(c));
    ListAfter(s, Commit(c), t);
    if KeyFits(k) && IsActive(s.txns, t) && k in s.chains && s.chains[k] != [] {
      assert ChainOk(s.chains[k], s, k) && Owned(s.chains[k], s, k, c);
      CommitShows(s.chains[k], s.txns, c, t);
    }
  }

  /** A rollback changes no answer to anyone else. */
  lemma {:induction false} RollbackHides(s: State, c: int, t: int, k: Bytes)
    requires Inv(s) && t != c
    ensures Read(Next(s, Rollback(c)), t, k) == Read(s, t, k)
  {
    RollbackKeeps(s.txns, c, t);
  }

  lemma {:induction false} AfterBoth(l: Txns, c: int, t: int)
    requires ListOk(l) && IsActive(l, t) && t != c
    ensures IsActive(Committed(RolledBack(l, c), c), t) && c !in Committed(RolledBack(l, c), c).active
  {
    RollbackKeeps(l, c, t);
    CommitKeeps(RolledBack(l, c), c, t);
    CommitKeeps(RolledBack(l, c), c, c);
  }

  lemma {:induction false} ReadIs(s: State, t: int, k: Bytes, x: Version)
    requires IsActive(s.txns, t) && KeyFits(k) && k in s.chains && s.chains[k] != [] && x == s.chains[k][|s.chains[k]| - 1]
    requires Sees(x, t, s.txns.active)
    ensures Read(s, t, k) == ValueOf(Some(x))
  {
    SeenAtTheEnd(s.chains[k], t, s.txns.active);
  }

  /** The discipline matters: a commit after the rollback publishes the discarded write. */
  lemma {:induction false} CommitAfterRollbackPublishes(s: State, c: int, t: int, k: Bytes, x: Version)
    requires Inv(s) && Newest(s, c, k, x) && IsActive(s.txns, t) && c < t && KeyFits(k)
    ensures Read(Next(Next(s, Rollback(c)), Commit(c)), t, k) == ValueOf(Some(x))
  {
    NewestIsClean(s, c, k, x);
    PublishedBy(s, Next(Next(s, Rollback(c)), Commit(c)), c, t, k, x);
  }

  lemma {:induction false} NewestIsClean(s: State, c: int, k: Bytes, x: Version)
    requires Inv(s) && Newest(s, c, k, x)
    ensures x.deleted == 0
  {
    assert ChainOk(s.chains[k], s, k);
  }

  lemma {:induction false} PublishedBy(s: State, e: State, c: int, t: int, k: Bytes, x: Version)
    requires ListOk(s.txns) && IsActive(s.txns, t) && c < t && KeyFits(k) && x.created == c && x.deleted == 0
    requires k in s.chains && s.chains[k] != [] && x == s.chains[k][|s.chains[k]| - 1]
    requires e.txns == Committed(RolledBack(s.txns, c), c) && e.chains == s.chains
    ensures Read(e, t, k) == ValueOf(Some(x))
  {
    AfterBoth(s.txns, c, t);
    ReadIs(e, t, k, x);
  }

  lemma {:induction false} SeenAtTheEnd(chain: seq<Version>, t: int, active: seq<int>)
    requires chain != [] && Sees(chain[|chain| - 1], t, active)
    ensures LastVisible(chain, t, active) == Some(chain[|chain| - 1])
  {
  }

  // ---------- collection and the next reader ----------

  /** The version that transaction t is shown at k. */
  function Shows(s: State, t: int, k: Bytes): Option<Version>
    requires k in s.chains
  {
    LastVisible(s.chains[k], t, s.txns.active)
  }

  /**
   * The next transaction to begin is shown the same version as without the collection exactly when
   * it is shown none, or the newest, or some listed transaction is at least as new as its creator.
   */
  lemma {:induction false} CollectForTheNext(s: State, keys: set<Bytes>, k: Bytes)
    requires Inv(s) && CanBegin(s.txns) && k in s.chains && k in keys && |s.chains[k]| > 1
    ensures var t, chain := s.txns.nextTxid, s.chains[k];
            var b := Next(s, Begin);
            var seen := Shows(b, t, k);
            Shows(Next(CollectStep(s, keys), Begin), t, k) == seen <==>
            || seen.None? || Sees(chain[|chain| - 1], t, b.txns.active)
            || exists a :: a in s.txns.active && seen.value.created <= a
  {
    assert ChainOk(s.chains[k], s, k);
    assert Later(s.chains[k], s.txns.nextTxid, s.txns.active);
    PruneForLater(s.chains[k], s.txns.nextTxid, s.txns.active);
  }

  lemma {:induction false} RunMore(s: State, steps: seq<Step>, step: Step)
    ensures Run(s, steps + [step]) == Next(Run(s, steps), step)
  {
    assert (steps + [step])[..|steps|] == steps;
  }

  lemma {:induction false} RunFive(s: State, a: Step, b: Step, c: Step, d: Step, e: Step)
    ensures Run(s, [a, b, c, d, e]) == Next(Next(Next(Next(Next(s, a), b), c), d), e)
  {
    assert Run(s, []) == s;
    assert [] + [a] == [a] && [a] + [b] == [a, b] && [a, b] + [c] == [a, b, c];
    assert [a, b, c] + [d] == [a, b, c, d] && [a, b, c, d] + [e] == [a, b, c, d, e];
    RunMore(s, [], a);
    RunMore(s, [a], b);
    RunMore(s, [a, b], c);
    RunMore(s, [a, b, c], d);
    RunMore(s, [a, b, c, d], e);
  }

  lemma {:induction false} UncontestedSet(s: State, t: int, k: Bytes, v: Bytes)
    requires KeyFits(k) && IsActive(s.txns, t) && s.locks == []
    ensures Next(s, Set(t, k, v, true, true)) ==
            State(s.txns, [Lock(t, k, true)], s.chains[k := (if k in s.chains then s.chains[k] else []) + [Version(t, 0, false, v)]])
  {
    assert !Holds(s.locks, t, k) && !Conflicts(s.locks, t, k, true);
    assert Acquired(s.locks, t, k, true) == [Lock(t, k, true)];
  }

  lemma {:induction false} TwoBegin(s: State, n: int)
    requires s.txns == Txns(n, 2, [], [])
    ensures Next(Next(s, Begin), Begin) == s.(txns := Txns(n + 2, 2, [n, n + 1], [Info(n, ACTIVE), Info(n + 1, ACTIVE)]))
  {
    assert [] + [n] == [n] && [n] + [n + 1] == [n, n + 1] && [] + [Info(n, ACTIVE)] == [Info(n, ACTIVE)];
    assert [Info(n, ACTIVE)] + [Info(n + 1, ACTIVE)] == [Info(n, ACTIVE), Info(n + 1, ACTIVE)];
    assert LiveCount([Info(n, ACTIVE)]) == 1 by {
      assert [Info(n, ACTIVE)][1..] == [];
    }
  }

  lemma {:induction false} SecondCommits(s: State, n: int, k: Bytes)
    requires s.txns == Txns(n + 2, 2, [n, n + 1], [Info(n, ACTIVE), Info(n + 1, ACTIVE)]) && s.locks == [Lock(n + 1, k, true)]
    ensures Next(s, Commit(n + 1)) == State(Txns(n + 2, 2, [n], [Info(n, ACTIVE)]), [], s.chains)
  {
    assert [n, n + 1][1..] == [n + 1] && SlotOf([n + 1], n + 1) == 0 && SlotOf([n, n + 1], n + 1) == 1;
    assert [Lock(n + 1, k, true)][1..] == [];
    assert Released([Lock(n + 1, k, true)], n + 1) == [];
  }

  /** A database in which an earlier session stored o at k, opened for two transactions at a time. */
  function Holding(n: int, c: int, k: Bytes, o: Bytes): State {
    State(Txns(n, 2, [], []), [], map[k := [Version(c, 0, false, o)]])
  }

  /** The second transaction commits a write; then the first one writes to the same key. */
  function LateWrite(n: int, k: Bytes, v: Bytes, w: Bytes): seq<Step> {
    [Begin, Begin, Set(n + 1, k, v, true, true), Commit(n + 1), Set(n, k, w, true, true)]
  }

  lemma {:induction false} LateWriter(n: int, c: int, k: Bytes, o: Bytes, v: Bytes, w: Bytes)
    requires KeyFits(k)
    ensures Run(Holding(n, c, k, o), LateWrite(n, k, v, w)) ==
            State(Txns(n + 2, 2, [n], [Info(n, ACTIVE)]), [Lock(n, k, true)],
                  map[k := [Version(c, 0, false, o), Version(n + 1, 0, false, v), Version(n, 0, false, w)]])
  {
    var s, a, b := Holding(n, c, k, o), Set(n + 1, k, v, true, true), Set(n, k, w, true, true);
    var x, y, z := Version(c, 0, false, o), Version(n + 1, 0, false, v), Version(n, 0, false, w);
    TwoBegin(s, n);
    var s2 := Next(Next(s, Begin), Begin);
    assert [n, n + 1][1..] == [n + 1] && SlotOf([n + 1], n + 1) == 0 && SlotOf([n, n + 1], n + 1) == 1;
    UncontestedSet(s2, n + 1, k, v);
    var s3 := Next(s2, a);
    assert s3.chains == map[k := [x, y]] by {
      assert [x] + [y] == [x, y];
    }
    SecondCommits(s3, n, k);
    var s4 := Next(s3, Commit(n + 1));
    assert SlotOf([n], n) == 0;
    UncontestedSet(s4, n, k, w);
    assert [x, y] + [z] == [x, y, z];
    RunFive(s, Begin, Begin, a, Commit(n + 1), b);
  }

  /** With n still listed, transaction n + 2 passes over what n wrote. */
  lemma {:induction false} ThirdSees(n: int, front: seq<Version>, seen: Version, young: Version)
    requires young.created == n && seen.deleted == 0 && seen.created < n + 2 && seen.created != n
    ensures LastVisible(front + [seen, young], n + 2, [n, n + 2]) == Some(seen)
  {
    assert !Sees(young, n + 2, [n, n + 2]) by {
      assert [n, n + 2][0] == n;
    }
    assert Sees(seen, n + 2, [n, n + 2]);
    var chain := front + [seen, young];
    assert chain[..|front| + 1] == front + [seen] && (front + [seen])[..|front|] == front;
    LastVisibleAppend(front, seen, n + 2, [n, n + 2]);
    LastVisibleAppend(front + [seen], young, n + 2, [n, n + 2]);
    assert chain == (front + [seen]) + [young];
  }

  lemma {:induction false} ThirdReads(s: State, n: int, k: Bytes)
    requires KeyFits(k) && s.txns == Txns(n + 2, 2, [n], [Info(n, ACTIVE)]) && k in s.chains
    ensures Read(Next(s, Begin), n + 2, k) == ValueOf(LastVisible(s.chains[k], n + 2, [n, n + 2]))
  {
    assert LiveCount([Info(n, ACTIVE)]) == 1 by {
      assert [Info(n, ACTIVE)][1..] == [];
    }
    assert [n] + [n + 2] == [n, n + 2] && [Info(n, ACTIVE)] + [Info(n + 2, ACTIVE)] == [Info(n, ACTIVE), Info(n + 2, ACTIVE)];
    assert [n, n + 2][1..] == [n + 2] && SlotOf([n + 2], n + 2) == 0 && SlotOf([n, n + 2], n + 2) == 1;
  }

  /** Pruned while only n is listed, the chain keeps the first version and the last. */
  lemma {:induction false} MiddleGoes(n: int, x: Version, y: Version, z: Version)
    requires x.created < n && x.deleted == 0 && y.created == n + 1
    ensures Survivors([x, y, z], [n]) == [x, z]
  {
    var chain := [x, y, z];
    assert chain[..2] == [x, y] && [x, y][..1] == [x] && [x][..0] == [];
    assert n in [n] && NeededBy(x, [n]) && !NeededBy(y, [n]);
    assert Needed([x], [n]) == [x] && Needed([x, y], [n]) == [x];
    assert [x] + [z] == [x, z];
  }

  /**
   * The condition can fail, on a key that was stored before the database was opened: a collection
   * between a late write and the next begin loses a committed value, and the one before it comes back.
   */
  lemma {:induction false} CollectLosesCommitted(n: int, c: int, k: Bytes, o: Bytes, v: Bytes, w: Bytes)
    requires KeyFits(k) && 1 <= c < n
    ensures var open, steps := Holding(n, c, k, o), LateWrite(n, k, v, w);
            && Opened(open) && k in open.chains
            && Read(Run(open, steps + [Begin]), n + 2, k) == Some(v)
            && Read(Run(open, steps + [Collect({k})] + [Begin]), n + 2, k) == Some(o)
  {
    var open, steps := Holding(n, c, k, o), LateWrite(n, k, v, w);
    var x, y, z := Version(c, 0, false, o), Version(n + 1, 0, false, v), Version(n, 0, false, w);
    LateWriter(n, c, k, o, v, w);
    assert [x] + [y, z] == [x, y, z];
    NextReads(open, steps, n, k, [x], y, z);
    CollectThenNextReads(open, steps, n, k, x, y, z);
  }

  lemma {:induction false} NextReads(s: State, steps: seq<Step>, n: int, k: Bytes, front: seq<Version>, seen: Version, young: Version)
    requires KeyFits(k) && young.created == n && seen.deleted == 0 && seen.created < n + 2 && seen.created != n
    requires Run(s, steps) == State(Txns(n + 2, 2, [n], [Info(n, ACTIVE)]), [Lock(n, k, true)], map[k := front + [seen, young]])
    ensures Read(Run(s, steps + [Begin]), n + 2, k) == ValueOf(Some(seen))
  {
    RunMore(s, steps, Begin);
    ThirdReads(Run(s, steps), n, k);
    ThirdSees(n, front, seen, young);
  }

  lemma {:induction false} CollectThenNextReads(s: State, steps: seq<Step>, n: int, k: Bytes, x: Version, y: Version, z: Version)
    requires KeyFits(k) && x.created < n && x.deleted == 0 && y.created == n + 1 && z.created == n
    requires Run(s, steps) == State(Txns(n + 2, 2, [n], [Info(n, ACTIVE)]), [Lock(n, k, true)], map[k := [x, y, z]])
    ensures Read(Run(s, steps + [Collect({k})] + [Begin]), n + 2, k) == ValueOf(Some(x))
  {
    RunMore(s, steps, Collect({k}));
    MiddleGoes(n, x, y, z);
    assert [] + [x, z] == [x, z];
    assert Run(s, steps + [Collect({k})]).chains == map[k := [] + [x, z]];
    NextReads(s, steps + [Collect({k})], n, k, [], x, z);
  }
}
