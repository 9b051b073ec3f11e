/**
 * The transaction engine of one session as a state machine: each API call is one atomic step.
 * The B-tree is a map from keys to version chains.
 */
module Mvcc {
  import opened ByteStrings
  import opened VersionChain
  import opened LockTable
  import opened TxnList

  datatype State = State(txns: Txns, locks: seq<Lock>, chains: map<Bytes, seq<Version>>)

  /**
   * `alloc` and `room` are what the pages allow: a chain for a new key, and the append itself.
   * A collection reaches the chains that happen to be cached: those of `keys`.
   */
  datatype Step =
    | Begin
    | Set(txn: int, key: Bytes, value: Bytes, alloc: bool, room: bool)
    | Delete(txn: int, key: Bytes, room: bool)
    | Commit(txn: int)
    | Rollback(txn: int)
    | Collect(keys: set<Bytes>)

  // ---------- steps ----------

  predicate KeyFits(k: Bytes) {
    0 < |k| <= MAX_KEY_SIZE
  }

  function Append(s: State, k: Bytes, v: Version): State
    requires k in s.chains
  {
    s.(chains := s.chains[k := s.chains[k] + [v]])
  }

  predicate SetRefused(s: State, t: int, k: Bytes) {
    !KeyFits(k) || !IsActive(s.txns, t) || !Grants(s.locks, t, k, true)
  }

  predicate SetSucceeds(s: State, t: int, k: Bytes, alloc: bool, room: bool) {
    !SetRefused(s, t, k) && (k in s.chains || alloc) && room
  }

  /** Lock, then find or create the chain, then append. What an early step did stays when a later one fails. */
  function SetStep(s: State, t: int, k: Bytes, v: Bytes, alloc: bool, room: bool): State {
    if SetRefused(s, t, k) then s
    else
      var s1 := s.(locks := Acquired(s.locks, t, k, true));
      if k !in s.chains && !alloc then s1
      else
        var s2 := if k in s.chains then s1 else s1.(chains := s1.chains[k := []]);
        if room then Append(s2, k, Version(t, 0, false, v)) else s2
  }

  predicate DeleteRefused(s: State, t: int, k: Bytes) {
    k == [] || !IsActive(s.txns, t) || !Grants(s.locks, t, k, true)
  }

  predicate DeleteSucceeds(s: State, t: int, k: Bytes, room: bool) {
    !DeleteRefused(s, t, k) && k in s.chains && room
  }

  /** The lock is kept even when there is nothing to delete. */
  function DeleteStep(s: State, t: int, k: Bytes, room: bool): State {
    if DeleteRefused(s, t, k) then s
    else
      var s1 := s.(locks := Acquired(s.locks, t, k, true));
      if k in s.chains && room then Append(s1, k, Version(t, 0, true, [])) else s1
  }

  function Pruned(chain: seq<Version>, active: seq<int>): seq<Version> {
    if |chain| <= 1 then chain else Survivors(chain, active)
  }

  function CollectStep(s: State, keys: set<Bytes>): State {
    s.(chains := map k | k in s.chains :: if k in keys then Pruned(s.chains[k], s.txns.active) else s.chains[k])
  }

  function Next(s: State, step: Step): State {
    match step
    case Begin => s.(txns := Begun(s.txns))
    case Set(t, k, v, alloc, room) => SetStep(s, t, k, v, alloc, room)
    case Delete(t, k, room) => DeleteStep(s, t, k, room)
    case Commit(t) => s.(txns := Committed(s.txns, t), locks := Released(s.locks, t))
    case Rollback(t) => s.(txns := RolledBack(s.txns, t), locks := Released(s.locks, t))
    case Collect(keys) => CollectStep(s, keys)
  }

  /** What transaction t reads at k. */
  function Read(s: State, t: int, k: Bytes): Option<Bytes> {
    if !KeyFits(k) || !IsActive(s.txns, t) || k !in s.chains then None
    else ValueOf(LastVisible(s.chains[k], t, s.txns.active))
  }

  function Start(maxTxns: nat): State {
    State(Txns(1, maxTxns, [], []), [], map[])
  }

  /**
   * How a session may find a database: nobody has begun and nothing is locked, but earlier sessions may
   * have left any chains and used up any ids.
   */
  ghost predicate Opened(s: State) {
    && 1 <= s.txns.nextTxid && s.txns.active == [] && s.txns.infos == [] && s.locks == []
    && forall k :: k in s.chains ==>
         NoDeleter(s.chains[k]) && forall i :: 0 <= i < |s.chains[k]| ==> 1 <= s.chains[k][i].created < s.txns.nextTxid
  }

  type OpenState = s: State | Opened(s) witness Start(0)

  function Run(s: State, steps: seq<Step>): State {
    if steps == [] then s else Next(Run(s, steps[..|steps| - 1]), steps[|steps| - 1])
  }

  // ---------- the invariant ----------

  /** No key has two holders, and every holder is unfinished. */
  ghost predicate LocksOk(s: State) {
    OneHolder(s.locks) && forall l :: l in s.locks ==> IsActive(s.txns, l.txn)
  }

  ghost predicate Owned(chain: seq<Version>, s: State, k: Bytes, t: int) {
    (exists i :: 0 <= i < |chain| && chain[i].created == t) ==> Holds(s.locks, t, k) && TailOf(chain, t)
  }

  /** Creators have begun; an unfinished one holds the lock, so its versions end the chain. */
  ghost predicate ChainOk(chain: seq<Version>, s: State, k: Bytes) {
    && NoDeleter(chain)
    && (forall i :: 0 <= i < |chain| ==> 1 <= chain[i].created < s.txns.nextTxid)
    && forall t :: IsActive(s.txns, t) ==> Owned(chain, s, k, t)
  }

  ghost predicate ChainsOk(s: State) {
    forall k :: k in s.chains ==> ChainOk(s.chains[k], s, k)
  }

  ghost predicate Inv(s: State) {
    ListOk(s.txns) && LocksOk(s) && ChainsOk(s)
  }

  lemma {:induction false} AcquireKeepsLocks(s: State, t: int, k: Bytes)
    requires LocksOk(s) && IsActive(s.txns, t) && Grants(s.locks, t, k, true)
    ensures LocksOk(s.(locks := Acquired(s.locks, t, k, true)))
    ensures Holds(Acquired(s.locks, t, k, true), t, k)
    ensures forall u, q :: Holds(s.locks, u, q) ==> Holds(Acquired(s.locks, t, k, true), u, q)
    ensures forall u :: Holds(s.locks, u, k) ==> u == t
  {
    ExclusiveMeansOneHolder(s.locks, t, k);
    var a := Acquired(s.locks, t, k, true);
    if a != s.locks {
      assert a[0] == Lock(t, k, true) && a[1..] == s.locks;
      assert forall l :: l in s.locks ==> l in a;
    }
  }

  lemma {:induction false} MoreLocksKeepChain(chain: seq<Version>, s: State, s': State, k: Bytes)
    requires ChainOk(chain, s, k) && s'.txns == s.txns
    requires forall u, q :: Holds(s.locks, u, q) ==> Holds(s'.locks, u, q)
    ensures ChainOk(chain, s', k)
  {
    forall t | IsActive(s.txns, t) ensures Owned(chain, s', k, t) {
      assert Owned(chain, s, k, t);
    }
  }

  /** The only transaction that may append is the one that holds the lock. */
  lemma {:induction false} AppendKeepsChain(chain: seq<Version>, s: State, k: Bytes, t: int, v: Version)
    requires ChainOk(chain, s, k) && v.created == t && v.deleted == 0 && 1 <= t < s.txns.nextTxid
    requires Holds(s.locks, t, k) && forall u :: Holds(s.locks, u, k) ==> u == t
    ensures ChainOk(chain + [v], s, k)
  {
    var c := chain + [v];
    forall u | IsActive(s.txns, u) ensures Owned(c, s, k, u) {
      assert Owned(chain, s, k, u);
    }
  }

  lemma {:induction false} LockStepKeeps(s: State, t: int, k: Bytes)
    requires Inv(s) && IsActive(s.txns, t) && Grants(s.locks, t, k, true)
    ensures var s1 := s.(locks := Acquired(s.locks, t, k, true));
            Inv(s1) && Holds(s1.locks, t, k) && forall u :: Holds(s1.locks, u, k) ==> u == t
  {
    var s1 := s.(locks := Acquired(s.locks, t, k, true));
    AcquireKeepsLocks(s, t, k);
    forall q | q in s.chains ensures ChainOk(s.chains[q], s1, q) {
      MoreLocksKeepChain(s.chains[q], s, s1, q);
    }
  }

  lemma {:induction false} WriteKeeps(s: State, t: int, k: Bytes, v: Version)
    requires Inv(s) && k in s.chains && IsActive(s.txns, t) && v.created == t && v.deleted == 0
    requires Holds(s.locks, t, k) && forall u :: Holds(s.locks, u, k) ==> u == t
    ensures Inv(Append(s, k, v))
  {
    ListedIff(s.txns, t);
    AppendKeepsChain(s.chains[k], s, k, t, v);
    var s' := Append(s, k, v);
    forall q | q in s'.chains ensures ChainOk(s'.chains[q], s', q) {
      SameChain(s'.chains[q], s, s', q);
    }
  }

  lemma {:induction false} SameChain(chain: seq<Version>, s: State, s': State, k: Bytes)
    requires ChainOk(chain, s, k) && s'.txns == s.txns && s'.locks == s.locks
    ensures ChainOk(chain, s', k)
  {
    MoreLocksKeepChain(chain, s, s', k);
  }

  lemma {:induction false} SetKeeps(s: State, t: int, k: Bytes, v: Bytes, alloc: bool, room: bool)
    requires Inv(s)
    ensures Inv(SetStep(s, t, k, v, alloc, room))
  {
    if !SetRefused(s, t, k) {
      LockStepKeeps(s, t, k);
      var s1 := s.(locks := Acquired(s.locks, t, k, true));
      if k in s.chains || alloc {
        var s2 := if k in s.chains then s1 else s1.(chains := s1.chains[k := []]);
        forall q | q in s2.chains ensures ChainOk(s2.chains[q], s2, q) {
          if q in s1.chains {
            SameChain(s1.chains[q], s1, s2, q);
          }
        }
        if room {
          WriteKeeps(s2, t, k, Version(t, 0, false, v));
        }
      }
    }
  }

  lemma {:induction false} DeleteKeeps(s: State, t: int, k: Bytes, room: bool)
    requires Inv(s)
    ensures Inv(DeleteStep(s, t, k, room))
  {
    if !DeleteRefused(s, t, k) {
      LockStepKeeps(s, t, k);
      if k in s.chains && room {
        WriteKeeps(s.(locks := Acquired(s.locks, t, k, true)), t, k, Version(t, 0, true, []));
      }
    }
  }

  lemma {:induction false} BeginStepKeeps(s: State)
    requires Inv(s)
    ensures Inv(Next(s, Begin))
  {
    var s' := Next(s, Begin);
    BeginKeeps(s.txns, 0);
    forall l | l in s.locks ensures IsActive(s'.txns, l.txn) {
      BeginKeeps(s.txns, l.txn);
    }
    forall k | k in s.chains ensures ChainOk(s.chains[k], s', k) {
      forall t | IsActive(s'.txns, t) ensures Owned(s.chains[k], s', k, t) {
        BeginKeeps(s.txns, t);
        assert IsActive(s.txns, t) ==> Owned(s.chains[k], s, k, t);
      }
    }
  }

  /** Finishing t, one way or the other: its locks go, and it is no longer unfinished. */
  lemma {:induction false} FinishKeeps(s: State, t: int, txns: Txns)
    requires Inv(s) && ListOk(txns) && txns.nextTxid == s.txns.nextTxid
    requires forall u :: IsActive(txns, u) <==> IsActive(s.txns, u) && u != t
    ensures Inv(s.(txns := txns, locks := Released(s.locks, t)))
  {
    ReleaseIsExact(s.locks, t);
    var s' := s.(txns := txns, locks := Released(s.locks, t));
    forall k | k in s.chains ensures ChainOk(s.chains[k], s', k) {
      forall u | IsActive(txns, u) ensures Owned(s.chains[k], s', k, u) {
        assert Owned(s.chains[k], s, k, u);
      }
    }
  }

  lemma {:induction false} TailExtends(kept: seq<Version>, chain: seq<Version>, t: int)
    requires chain != [] && TailOf(chain, t) && TailOf(kept, t)
    requires forall v :: v in kept ==> v in chain[..|chain| - 1]
    ensures TailOf(kept + [chain[|chain| - 1]], t)
  {
    var n := |chain| - 1;
    if chain[n].created != t {
      forall i | 0 <= i < |kept| ensures kept[i].created != t {
        assert kept[i] in kept;
        var j :| 0 <= j < n && chain[j] == kept[i];
        assert chain[j].created != t;
      }
    }
  }

  lemma {:induction false} NeededTail(chain: seq<Version>, active: seq<int>, t: int)
    requires TailOf(chain, t)
    ensures TailOf(Needed(chain, active), t)
  {
    if chain != [] {
      NeededTail(chain[..|chain| - 1], active, t);
      NeededMembers(chain[..|chain| - 1], active);
      TailExtends(Needed(chain[..|chain| - 1], active), chain, t);
    }
  }

  lemma {:induction false} SurvivorsTail(chain: seq<Version>, active: seq<int>, t: int)
    requires TailOf(chain, t)
    ensures TailOf(Survivors(chain, active), t)
  {
    if chain != [] {
      NeededTail(chain[..|chain| - 1], active, t);
      NeededMembers(chain[..|chain| - 1], active);
      TailExtends(Needed(chain[..|chain| - 1], active), chain, t);
    }
  }

  /** Every surviving version was in the chain. */
  lemma {:induction false} PrunedMembers(chain: seq<Version>, active: seq<int>)
    ensures forall v :: v in Pruned(chain, active) ==> v in chain
  {
    if |chain| > 1 {
      NeededMembers(chain[..|chain| - 1], active);
    }
  }

  lemma {:induction false} PruneKeepsChain(chain: seq<Version>, s: State, k: Bytes)
    requires ChainOk(chain, s, k)
    ensures ChainOk(Pruned(chain, s.txns.active), s, k)
  {
    var p := Pruned(chain, s.txns.active);
    PrunedMembers(chain, s.txns.active);
    forall i | 0 <= i < |p| ensures p[i].deleted == 0 && 1 <= p[i].created < s.txns.nextTxid {
      assert p[i] in chain;
    }
    forall t | IsActive(s.txns, t) ensures Owned(p, s, k, t) {
      assert Owned(chain, s, k, t);
      if i :| 0 <= i < |p| && p[i].created == t {
        assert p[i] in chain;
        if |chain| > 1 {
          SurvivorsTail(chain, s.txns.active, t);
        }
      }
    }
  }

  lemma {:induction false} CollectKeeps(s: State, keys: set<Bytes>)
    requires Inv(s)
    ensures Inv(CollectStep(s, keys))
  {
    var s' := CollectStep(s, keys);
    forall k | k in s'.chains ensures ChainOk(s'.chains[k], s', k) {
      PruneKeepsChain(s.chains[k], s, k);
      SameChain(s'.chains[k], s, s', k);
    }
  }

  /** Every step keeps the list, the locks and the chains in order, whatever its arguments. */
  lemma {:induction false} StepKeeps(s: State, step: Step)
    requires Inv(s)
    ensures Inv(Next(s, step))
  {
    match step
    case Begin => BeginStepKeeps(s);
    case Set(t, k, v, alloc, room) => SetKeeps(s, t, k, v, alloc, room);
    case Delete(t, k, room) => DeleteKeeps(s, t, k, room);
    case Commit(t) =>
      forall u ensures IsActive(Committed(s.txns, t), u) <==> IsActive(s.txns, u) && u != t {
        CommitKeeps(s.txns, t, u);
      }
      CommitKeeps(s.txns, t, t);
      FinishKeeps(s, t, Committed(s.txns, t));
    case Rollback(t) =>
      forall u ensures IsActive(RolledBack(s.txns, t), u) <==> IsActive(s.txns, u) && u != t {
        RollbackKeeps(s.txns, t, u);
      }
      RollbackKeeps(s.txns, t, t);
      FinishKeeps(s, t, RolledBack(s.txns, t));
    case Collect(keys) => CollectKeeps(s, keys);
  }

  lemma {:induction false} RunKeeps(s: State, steps: seq<Step>)
    requires Inv(s)
    ensures Inv(Run(s, steps))
  {
    if steps != [] {
      RunKeeps(s, steps[..|steps| - 1]);
      StepKeeps(Run(s, steps[..|steps| - 1]), steps[|steps| - 1]);
    }
  }

  /** The invariant holds in every state that any sequence of calls can reach. */
  lemma {:induction false} EveryRunIsOk(open: OpenState, steps: seq<Step>)
    ensures Inv(Run(open, steps))
  {
    OpenedIsOk(open);
    RunKeeps(open, steps);
  }

  lemma {:induction false} OpenedIsOk(open: OpenState)
    ensures Inv(open)
  {
    assert forall t :: !IsActive(open.txns, t);
  }
}
