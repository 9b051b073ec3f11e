/**
 * When a call is granted, told from the calls alone: a book of who has begun and not ended and of who
 * wrote which key first, kept with sets and a map, which the slots and the lock list agree with.
 */
module Claims {
  import opened ByteStrings
  import opened Sequences
  import opened VersionChain
  import opened LockTable
  import opened TxnList
  import opened Mvcc
  import opened Isolation

  /** `holder` maps each claimed key to the transaction that claimed it. */
  datatype Book = Book(next: int, limit: nat, listed: set<int>, running: set<int>, holder: map<Bytes, int>)

  predicate MayBegin(b: Book) {
    |b.running| < b.limit && |b.listed| < 64 * b.limit
  }

  /** A running transaction may claim a key that nobody else has claimed. */
  predicate MayClaim(b: Book, t: int, k: Bytes) {
    KeyFits(k) && t in b.running && (k in b.holder ==> b.holder[k] == t)
  }

  function Claim(b: Book, t: int, k: Bytes): Book {
    if MayClaim(b, t, k) then b.(holder := b.holder[k := t]) else b
  }

  function End(b: Book, t: int): Book {
    b.(running := b.running - {t}, holder := map k | k in b.holder && b.holder[k] != t :: b.holder[k])
  }

  function Entered(b: Book, step: Step): Book {
    match step
    case Begin => if MayBegin(b) then b.(next := b.next + 1, listed := b.listed + {b.next}, running := b.running + {b.next}) else b
    case Set(t, k, _, _, _) => Claim(b, t, k)
    case Delete(t, k, _) => Claim(b, t, k)
    case Commit(t) => End(b, t).(listed := b.listed - {t})
    case Rollback(t) => End(b, t)
    case Collect(_) => b
  }

  function BookOf(open: OpenState, steps: seq<Step>): Book {
    if steps == [] then Book(open.txns.nextTxid, open.txns.maxTxns, {}, {}, map[])
    else Entered(BookOf(open, steps[..|steps| - 1]), steps[|steps| - 1])
  }

  // ---------- the state agrees with the book ----------

  ghost predicate ListAgrees(b: Book, l: Txns) {
    && l.nextTxid == b.next && l.maxTxns == b.limit
    && |l.active| == |b.listed| && LiveCount(l.infos) == |b.running|
    && (forall t :: t in b.listed <==> t in l.active)
    && forall t :: t in b.running <==> IsActive(l, t)
  }

  ghost predicate Held(b: Book, t: int, k: Bytes) {
    k in b.holder && b.holder[k] == t
  }

  ghost predicate LocksAgree(b: Book, locks: seq<Lock>) {
    && (forall k :: k in b.holder ==> KeyFits(k))
    && forall t, k :: Holds(locks, t, k) <==> Held(b, t, k)
  }

  ghost predicate Agrees(b: Book, s: State) {
    ListAgrees(b, s.txns) && LocksAgree(b, s.locks)
  }

  lemma {:induction false} LiveWithout(a: seq<Info>, i: nat)
    requires i < |a|
    ensures LiveCount(a) == LiveCount(RemoveAt(a, i)) + if a[i].state != ROLLED_BACK then 1 else 0
  {
    assert a == a[..i] + ([a[i]] + a[i + 1..]);
    LiveCountConcat(a[..i], [a[i]] + a[i + 1..]);
    LiveCountConcat([a[i]], a[i + 1..]);
    LiveCountConcat(a[..i], a[i + 1..]);
  }

  lemma {:induction false} BeginAgrees(b: Book, s: State)
    requires ListOk(s.txns) && ListAgrees(b, s.txns)
    ensures ListAgrees(Entered(b, Begin), Begun(s.txns))
  {
    var l := s.txns;
    forall t ensures t in Entered(b, Begin).running <==> IsActive(Begun(l), t)
      ensures t in Entered(b, Begin).listed <==> t in Begun(l).active {
      BeginKeeps(l, t);
    }
    if CanBegin(l) {
      LiveCountConcat(l.infos, [Info(l.nextTxid, ACTIVE)]);
      assert LiveCount([Info(l.nextTxid, ACTIVE)]) == 1;
      ListedIff(l, b.next);
      assert b.next !in l.active;
    }
  }

  /** A commit takes one off each count that the transaction was in, a rollback one off the unfinished. */
  lemma {:induction false} EndCounts(l: Txns, t: int)
    requires ListOk(l)
    ensures |Committed(l, t).active| == |l.active| - if t in l.active then 1 else 0
    ensures LiveCount(Committed(l, t).infos) == LiveCount(l.infos) - if IsActive(l, t) then 1 else 0
    ensures LiveCount(RolledBack(l, t).infos) == LiveCount(l.infos) - if IsActive(l, t) then 1 else 0
  {
    var i := SlotOf(l.active, t);
    if i >= 0 {
      var marked := RolledBack(l, t).infos;
      LiveWithout(l.infos, i);
      LiveWithout(marked, i);
      assert RemoveAt(marked, i) == RemoveAt(l.infos, i);
      assert t in l.active;
    }
  }

  lemma {:induction false} CommitAgrees(b: Book, l: Txns, t: int)
    requires ListOk(l) && ListAgrees(b, l)
    ensures ListAgrees(Entered(b, Commit(t)), Committed(l, t))
  {
    var b' := Entered(b, Commit(t));
    forall u ensures u in b'.running <==> IsActive(Committed(l, t), u)
      ensures u in b'.listed <==> u in Committed(l, t).active {
      CommitKeeps(l, t, u);
    }
    EndCounts(l, t);
    assert |b'.running| == |b.running| - if t in b.running then 1 else 0;
    assert |b'.listed| == |b.listed| - if t in b.listed then 1 else 0;
  }

  lemma {:induction false} RollbackAgrees(b: Book, l: Txns, t: int)
    requires ListOk(l) && ListAgrees(b, l)
    ensures ListAgrees(Entered(b, Rollback(t)), RolledBack(l, t))
  {
    var b' := Entered(b, Rollback(t));
    forall u ensures u in b'.running <==> IsActive(RolledBack(l, t), u) {
      RollbackKeeps(l, t, u);
    }
    EndCounts(l, t);
    RollbackKeeps(l, t, t);
    assert |b'.running| == |b.running| - if t in b.running then 1 else 0;
  }

  lemma {:induction false} ReleaseAgrees(b: Book, locks: seq<Lock>, t: int)
    requires LocksAgree(b, locks)
    ensures LocksAgree(End(b, t), Released(locks, t))
  {
    ReleaseIsExact(locks, t);
    forall u, k ensures Holds(Released(locks, t), u, k) <==> Holds(locks, u, k) && u != t {
      if Holds(locks, u, k) && u != t {
        var l :| l in locks && l.txn == u && l.key == k;
        assert l in Released(locks, t);
      }
    }
  }

  /** The lock list grants a key to exactly those that may claim it. */
  lemma {:induction false} GrantIsClaim(b: Book, s: State, t: int, k: Bytes)
    requires Inv(s) && Agrees(b, s)
    ensures MayClaim(b, t, k) <==> !SetRefused(s, t, k)
    ensures MayClaim(b, t, k) <==> !DeleteRefused(s, t, k)
  {
    ExclusiveMeansOneHolder(s.locks, t, k);
    if k in b.holder && b.holder[k] != t {
      assert Held(b, b.holder[k], k);
    }
    if l :| l in s.locks && l.key == k && l.txn != t {
      assert Holds(s.locks, l.txn, k);
    }
  }

  lemma {:induction false} ClaimAgrees(b: Book, s: State, t: int, k: Bytes)
    requires Inv(s) && Agrees(b, s) && MayClaim(b, t, k)
    ensures LocksAgree(Claim(b, t, k), Acquired(s.locks, t, k, true))
  {
    GrantIsClaim(b, s, t, k);
    AcquireKeepsLocks(s, t, k);
    var locks := Acquired(s.locks, t, k, true);
    forall u, q ensures Holds(locks, u, q) <==> Holds(s.locks, u, q) || (u == t && q == k) {
      if l :| l in locks && l.txn == u && l.key == q {
        assert l in s.locks || l == Lock(t, k, true);
      }
    }
  }

  lemma {:induction false} WriteAgrees(b: Book, s: State, step: Step)
    requires Inv(s) && Agrees(b, s) && (step.Set? || step.Delete?)
    ensures Agrees(Entered(b, step), Next(s, step))
  {
    var t, k := step.txn, step.key;
    GrantIsClaim(b, s, t, k);
    var s' := Next(s, step);
    assert s'.txns == s.txns && s'.locks == if MayClaim(b, t, k) then Acquired(s.locks, t, k, true) else s.locks;
    if MayClaim(b, t, k) {
      ClaimAgrees(b, s, t, k);
    }
  }

  lemma {:induction false} StepAgrees(b: Book, s: State, step: Step)
    requires Inv(s) && Agrees(b, s)
    ensures Agrees(Entered(b, step), Next(s, step))
  {
    match step
    case Begin => BeginAgrees(b, s);
    case Set(_, _, _, _, _) => WriteAgrees(b, s, step);
    case Delete(_, _, _) => WriteAgrees(b, s, step);
    case Commit(t) =>
      CommitAgrees(b, s.txns, t);
      ReleaseAgrees(b, s.locks, t);
    case Rollback(t) =>
      RollbackAgrees(b, s.txns, t);
      ReleaseAgrees(b, s.locks, t);
    case Collect(_) =>
  }

  /** In every reachable state the list of transactions and the locks are what the book says. */
  lemma {:induction false} BookAgrees(open: OpenState, steps: seq<Step>)
    ensures Agrees(BookOf(open, steps), Run(open, steps))
  {
    if steps == [] {
      assert forall t :: !IsActive(open.txns, t);
      assert forall t, k :: !Holds(open.locks, t, k);
    } else {
      var n := |steps| - 1;
      EveryRunIsOk(open, steps[..n]);
      BookAgrees(open, steps[..n]);
      StepAgrees(BookOf(open, steps[..n]), Run(open, steps[..n]), steps[n]);
    }
  }

  // ---------- the book, looked up in the run ----------

  predicate Ends(step: Step, t: int) {
    step == Commit(t) || step == Rollback(t)
  }

  predicate Writes(step: Step, t: int, k: Bytes) {
    (step.Set? && step.txn == t && step.key == k) || (step.Delete? && step.txn == t && step.key == k)
  }

  ghost predicate EndedSince(steps: seq<Step>, i: int, t: int) {
    exists j :: i < j < |steps| && 0 <= j && Ends(steps[j], t)
  }

  ghost predicate BegunAt(open: OpenState, steps: seq<Step>, i: int, t: int) {
    0 <= i < |steps| && steps[i] == Begin && BookOf(open, steps[..i]).next == t && MayBegin(BookOf(open, steps[..i]))
  }

  /** t has begun and has not ended. */
  ghost predicate Unfinished(open: OpenState, steps: seq<Step>, t: int) {
    exists i :: BegunAt(open, steps, i, t) && !EndedSince(steps, i, t)
  }

  ghost predicate GrantedAt(open: OpenState, steps: seq<Step>, i: int, t: int, k: Bytes) {
    0 <= i < |steps| && Writes(steps[i], t, k) && MayClaim(BookOf(open, steps[..i]), t, k)
  }

  /** t was granted a write to k and has not ended since. */
  ghost predicate HasClaimed(open: OpenState, steps: seq<Step>, t: int, k: Bytes) {
    exists i :: GrantedAt(open, steps, i, t, k) && !EndedSince(steps, i, t)
  }

  lemma {:induction false} EndedLater(steps: seq<Step>, i: int, t: int)
    requires steps != [] && i < |steps| - 1
    ensures EndedSince(steps, i, t) <==> EndedSince(steps[..|steps| - 1], i, t) || (Ends(steps[|steps| - 1], t) && |steps| > 0)
  {
    var front := steps[..|steps| - 1];
    if EndedSince(front, i, t) {
      var j :| i < j < |front| && 0 <= j && Ends(front[j], t);
      assert Ends(steps[j], t);
    }
    if EndedSince(steps, i, t) {
      var j :| i < j < |steps| && 0 <= j && Ends(steps[j], t);
      assert j < |front| ==> Ends(front[j], t);
    }
  }

  lemma {:induction false} UnfinishedNow(open: OpenState, steps: seq<Step>, t: int)
    requires steps != []
    ensures var n := |steps| - 1;
            Unfinished(open, steps, t) <==>
            BegunAt(open, steps, n, t) || (Unfinished(open, steps[..n], t) && !Ends(steps[n], t))
  {
    var n := |steps| - 1;
    var front := steps[..n];
    forall i: int | 0 <= i < n ensures BegunAt(open, steps, i, t) <==> BegunAt(open, front, i, t) {
      assert front[..i] == steps[..i];
    }
    if Unfinished(open, steps, t) {
      var i :| BegunAt(open, steps, i, t) && !EndedSince(steps, i, t);
      if i < n {
        EndedLater(steps, i, t);
        assert BegunAt(open, front, i, t);
      }
    }
    if Unfinished(open, front, t) && !Ends(steps[n], t) {
      var i :| BegunAt(open, front, i, t) && !EndedSince(front, i, t);
      EndedLater(steps, i, t);
      assert BegunAt(open, steps, i, t);
    }
    if BegunAt(open, steps, n, t) {
      assert !EndedSince(steps, n, t);
    }
  }

  lemma {:induction false} ClaimedNow(open: OpenState, steps: seq<Step>, t: int, k: Bytes)
    requires steps != []
    ensures var n := |steps| - 1;
            HasClaimed(open, steps, t, k) <==>
            GrantedAt(open, steps, n, t, k) || (HasClaimed(open, steps[..n], t, k) && !Ends(steps[n], t))
  {
    var n := |steps| - 1;
    var front := steps[..n];
    forall i: int | 0 <= i < n ensures GrantedAt(open, steps, i, t, k) <==> GrantedAt(open, front, i, t, k) {
      assert front[..i] == steps[..i];
    }
    if HasClaimed(open, steps, t, k) {
      var i :| GrantedAt(open, steps, i, t, k) && !EndedSince(steps, i, t);
      if i < n {
        EndedLater(steps, i, t);
        assert GrantedAt(open, front, i, t, k);
      }
    }
    if HasClaimed(open, front, t, k) && !Ends(steps[n], t) {
      var i :| GrantedAt(open, front, i, t, k) && !EndedSince(front, i, t);
      EndedLater(steps, i, t);
      assert GrantedAt(open, steps, i, t, k);
    }
    if GrantedAt(open, steps, n, t, k) {
      assert !EndedSince(steps, n, t);
    }
  }

  /** The running transactions are those that began and have not ended. */
  lemma {:induction false} RunningAre(open: OpenState, steps: seq<Step>, t: int)
    ensures t in BookOf(open, steps).running <==> Unfinished(open, steps, t)
  {
    if steps != [] {
      RunningAre(open, steps[..|steps| - 1], t);
      UnfinishedNow(open, steps, t);
    }
  }

  lemma {:induction false} HolderAfter(b: Book, step: Step, t: int, k: Bytes)
    ensures Held(Entered(b, step), t, k) <==> (Writes(step, t, k) && MayClaim(b, t, k)) || (Held(b, t, k) && !Ends(step, t))
  {
  }

  /** A key is held by the transaction that was granted a write to it and has not ended since. */
  lemma {:induction false} HolderIs(open: OpenState, steps: seq<Step>, t: int, k: Bytes)
    ensures Held(BookOf(open, steps), t, k) <==> HasClaimed(open, steps, t, k)
  {
    if steps != [] {
      var n := |steps| - 1;
      HolderIs(open, steps[..n], t, k);
      HolderAfter(BookOf(open, steps[..n]), steps[n], t, k);
      ClaimedNow(open, steps, t, k);
    }
  }

  // ---------- main results ----------

  /** The call is granted: t is unfinished, and no other unfinished transaction was granted a write to k before. */
  ghost predicate Uncontested(open: OpenState, steps: seq<Step>, t: int, k: Bytes) {
    KeyFits(k) && Unfinished(open, steps, t) && !exists u :: u != t && HasClaimed(open, steps, u, k)
  }

  lemma {:induction false} UncontestedIs(open: OpenState, steps: seq<Step>, t: int, k: Bytes)
    ensures Uncontested(open, steps, t, k) <==> MayClaim(BookOf(open, steps), t, k)
    ensures Uncontested(open, steps, t, k) <==> !SetRefused(Run(open, steps), t, k)
    ensures Uncontested(open, steps, t, k) <==> !DeleteRefused(Run(open, steps), t, k)
  {
    var b := BookOf(open, steps);
    RunningAre(open, steps, t);
    forall u ensures Held(b, u, k) <==> HasClaimed(open, steps, u, k) {
      HolderIs(open, steps, u, k);
    }
    if k in b.holder {
      assert Held(b, b.holder[k], k);
    }
    EveryRunIsOk(open, steps);
    BookAgrees(open, steps);
    GrantIsClaim(b, Run(open, steps), t, k);
  }

  /** The chain of k with one more version; the first one makes the chain. */
  function OneMore(chains: map<Bytes, seq<Version>>, k: Bytes, v: Version): map<Bytes, seq<Version>> {
    chains[k := (if k in chains then chains[k] else []) + [v]]
  }

  /**
   * In any run a Set that is given a page and room appends its version, and does nothing else to any
   * chain, exactly when it is granted.
   */
  lemma {:induction false} SetTakesEffect(open: OpenState, steps: seq<Step>, t: int, k: Bytes, v: Bytes, alloc: bool, room: bool)
    ensures var s, s' := Run(open, steps), Run(open, steps + [Set(t, k, v, alloc, room)]);
            s'.chains == if !Uncontested(open, steps, t, k) || (k !in s.chains && !alloc) then s.chains
                         else if room then OneMore(s.chains, k, Version(t, 0, false, v))
                         else if k in s.chains then s.chains else s.chains[k := []]
    ensures Uncontested(open, steps, t, k) ==> HasClaimed(open, steps + [Set(t, k, v, alloc, room)], t, k)
  {
    RunMore(open, steps, Set(t, k, v, alloc, room));
    UncontestedIs(open, steps, t, k);
    ClaimedBy(open, steps, Set(t, k, v, alloc, room), t, k);
  }

  /** A Delete appends a tombstone exactly when it is granted, the key has a chain, and there is room. */
  lemma {:induction false} DeleteTakesEffect(open: OpenState, steps: seq<Step>, t: int, k: Bytes, room: bool)
    ensures var s, s' := Run(open, steps), Run(open, steps + [Delete(t, k, room)]);
            s'.chains == if Uncontested(open, steps, t, k) && k in s.chains && room then OneMore(s.chains, k, Version(t, 0, true, []))
                         else s.chains
    ensures Uncontested(open, steps, t, k) ==> HasClaimed(open, steps + [Delete(t, k, room)], t, k)
  {
    RunMore(open, steps, Delete(t, k, room));
    UncontestedIs(open, steps, t, k);
    ClaimedBy(open, steps, Delete(t, k, room), t, k);
  }

  lemma {:induction false} ClaimedBy(open: OpenState, steps: seq<Step>, step: Step, t: int, k: Bytes)
    requires Writes(step, t, k)
    ensures Uncontested(open, steps, t, k) ==> HasClaimed(open, steps + [step], t, k)
  {
    var now := steps + [step];
    assert now[..|steps|] == steps;
    UncontestedIs(open, steps, t, k);
    ClaimedNow(open, now, t, k);
  }

  /**
   * A Begin hands out the next id exactly when fewer transactions than the limit are unfinished and fewer
   * than 64 times the limit are listed; the book counts both.
   */
  lemma {:induction false} BeginTakesEffect(open: OpenState, steps: seq<Step>)
    ensures var s, s', b := Run(open, steps), Run(open, steps + [Begin]), BookOf(open, steps);
            && (s'.txns.nextTxid == s.txns.nextTxid + 1 <==> |b.running| < open.txns.maxTxns && |b.listed| < 64 * open.txns.maxTxns)
            && (Unfinished(open, steps + [Begin], s.txns.nextTxid) <==> MayBegin(b))
            && forall t :: t in b.running <==> Unfinished(open, steps, t)
  {
    var now, b := steps + [Begin], BookOf(open, steps);
    RunMore(open, steps, Begin);
    BookAgrees(open, steps);
    LimitStays(open, steps);
    forall t ensures t in b.running <==> Unfinished(open, steps, t) {
      RunningAre(open, steps, t);
    }
    assert now[..|steps|] == steps;
    UnfinishedNow(open, now, b.next);
    EveryRunIsOk(open, steps);
    ListedIff(Run(open, steps).txns, b.next);
  }

  lemma {:induction false} LimitStays(open: OpenState, steps: seq<Step>)
    ensures BookOf(open, steps).limit == open.txns.maxTxns
  {
    if steps != [] {
      LimitStays(open, steps[..|steps| - 1]);
    }
  }
}
