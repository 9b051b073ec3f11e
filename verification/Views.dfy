/** When the answer to a running transaction changes. */
module Views {
  import opened ByteStrings
  import opened VersionChain
  import opened LockTable
  import opened TxnList
  import opened Mvcc
  import opened Isolation
  import opened Collection
  import opened CollectionRuns

  // ---------- one step ----------

  /** The step commits a listed transaction with a lower id than t whose version ends the chain of k. */
  predicate Publishes(s: State, step: Step, t: int, k: Bytes) {
    step.Commit? && step.txn in s.txns.active && step.txn < t
    && k in s.chains && s.chains[k] != [] && s.chains[k][|s.chains[k]| - 1].created == step.txn
  }

  lemma {:induction false} BeginShows(chain: seq<Version>, l: Txns, t: int)
    requires forall i :: 0 <= i < |chain| ==> chain[i].created < l.nextTxid
    ensures LastVisible(chain, t, Begun(l).active) == LastVisible(chain, t, l.active)
  {
    forall i | 0 <= i < |chain| ensures Sees(chain[i], t, Begun(l).active) <==> Sees(chain[i], t, l.active) {
      assert chain[i].created in l.active + [l.nextTxid] <==> chain[i].created in l.active;
    }
    SameSight(chain, t, Begun(l).active, l.active);
  }

  /** A version that another unfinished transaction appends is not shown. */
  lemma {:induction false} OthersAppend(chain: seq<Version>, v: Version, t: int, active: seq<int>)
    requires v.created in active && v.created != t
    ensures LastVisible(chain + [v], t, active) == LastVisible(chain, t, active)
  {
    LastVisibleAppend(chain, v, t, active);
  }

  lemma {:induction false} SetShows(s: State, u: int, q: Bytes, v: Bytes, alloc: bool, room: bool, t: int, k: Bytes)
    requires Inv(s) && (u != t || q != k)
    ensures View(SetStep(s, u, q, v, alloc, room), t, k) == View(s, t, k)
  {
    if q == k && !SetRefused(s, u, q) {
      ListedIff(s.txns, u);
      var chain := if k in s.chains then s.chains[k] else [];
      OthersAppend(chain, Version(u, 0, false, v), t, s.txns.active);
    }
  }

  lemma {:induction false} DeleteShows(s: State, u: int, q: Bytes, room: bool, t: int, k: Bytes)
    requires Inv(s) && (u != t || q != k)
    ensures View(DeleteStep(s, u, q, room), t, k) == View(s, t, k)
  {
    if q == k && k in s.chains && !DeleteRefused(s, u, q) {
      ListedIff(s.txns, u);
      OthersAppend(s.chains[k], Version(u, 0, true, []), t, s.txns.active);
    }
  }

  lemma {:induction false} CollectShows(s: State, keys: set<Bytes>, t: int, k: Bytes)
    requires Inv(s) && IsActive(s.txns, t)
    ensures View(CollectStep(s, keys), t, k) == View(s, t, k)
  {
    if k in s.chains && s.chains[k] != [] {
      assert ChainOk(s.chains[k], s, k) && Owned(s.chains[k], s, k, t);
      ListedIff(s.txns, t);
      PrunedIsSurvivors(s.chains[k], s.txns.active);
      PruneForListed(s.chains[k], t, s.txns.active);
    }
  }

  lemma {:induction false} CommitView(s: State, c: int, t: int, k: Bytes)
    requires Inv(s) && t != c && Orderly(s.txns, Commit(c))
    ensures View(Next(s, Commit(c)), t, k) ==
            if Publishes(s, Commit(c), t, k) then Some(s.chains[k][|s.chains[k]| - 1]) else View(s, t, k)
  {
    if k in s.chains && s.chains[k] != [] && c in s.txns.active {
      assert ChainOk(s.chains[k], s, k) && Owned(s.chains[k], s, k, c);
      CommitShows(s.chains[k], s.txns, c, t);
    }
  }

  /** A step that neither writes k for t nor ends t changes what t is shown exactly when it publishes. */
  lemma {:induction false} StepView(s: State, step: Step, t: int, k: Bytes)
    requires Inv(s) && Orderly(s.txns, step) && IsActive(s.txns, t) && !Touches(step, t, k)
    ensures IsActive(Next(s, step).txns, t)
    ensures View(Next(s, step), t, k) ==
            if Publishes(s, step, t, k) then Some(s.chains[k][|s.chains[k]| - 1]) else View(s, t, k)
  {
    ListAfter(s, step, t);
    match step
    case Begin =>
      if k in s.chains {
        ChainIsOld(s, k);
        BeginShows(s.chains[k], s.txns, t);
      }
    case Set(u, q, v, alloc, room) => SetShows(s, u, q, v, alloc, room, t, k);
    case Delete(u, q, room) => DeleteShows(s, u, q, room, t, k);
    case Commit(c) => CommitView(s, c, t, k);
    case Rollback(_) =>
    case Collect(keys) => CollectShows(s, keys, t, k);
  }

  // ---------- a transaction's lifetime ----------

  ghost predicate PublishedIn(s: State, steps: seq<Step>, t: int, k: Bytes) {
    exists i :: 0 <= i < |steps| && Publishes(Run(s, steps[..i]), steps[i], t, k)
  }

  lemma {:induction false} PublishedSoFar(s: State, steps: seq<Step>, t: int, k: Bytes)
    requires steps != []
    ensures var n := |steps| - 1;
            PublishedIn(s, steps, t, k) <==> PublishedIn(s, steps[..n], t, k) || Publishes(Run(s, steps[..n]), steps[n], t, k)
  {
    var n := |steps| - 1;
    forall i | 0 <= i < n ensures Publishes(Run(s, steps[..i]), steps[i], t, k) <==> Publishes(Run(s, steps[..n][..i]), steps[..n][i], t, k) {
      assert steps[..n][..i] == steps[..i];
    }
  }

  /** The creator of a version first shown later: not t, and still listed or not begun at s. */
  ghost predicate Newcomer(l: Txns, x: Option<Version>, t: int) {
    x.Some? && x.value.created != t && (x.value.created in l.active || l.nextTxid <= x.value.created)
  }

  lemma {:induction false} ListedWasListed(s: State, steps: seq<Step>, c: int)
    requires Inv(s) && c in Run(s, steps).txns.active
    ensures c in s.txns.active || s.txns.nextTxid <= c
  {
    if c < s.txns.nextTxid {
      FinishedStays(s, steps, c);
    }
  }

  lemma {:induction false} ViewSoFar(s: State, steps: seq<Step>, t: int, k: Bytes)
    requires Inv(s) && OrderlyRun(s, steps) && IsActive(s.txns, t)
    requires forall i :: 0 <= i < |steps| ==> !Touches(steps[i], t, k)
    ensures Inv(Run(s, steps)) && IsActive(Run(s, steps).txns, t)
    ensures if PublishedIn(s, steps, t, k) then Newcomer(s.txns, View(Run(s, steps), t, k), t)
            else View(Run(s, steps), t, k) == View(s, t, k)
  {
    if steps != [] {
      var n := |steps| - 1;
      var a := Run(s, steps[..n]);
      OrderlyBefore(s, steps, n);
      ViewSoFar(s, steps[..n], t, k);
      assert Orderly(a.txns, steps[n]);
      StepView(a, steps[n], t, k);
      StepKeeps(a, steps[n]);
      PublishedSoFar(s, steps, t, k);
      if Publishes(a, steps[n], t, k) {
        ListedWasListed(s, steps[..n], steps[n].txn);
      }
    }
  }

  lemma {:induction false} ShownIsNoNewcomer(s: State, t: int, k: Bytes)
    requires Inv(s)
    ensures !Newcomer(s.txns, View(s, t, k), t)
  {
    if k in s.chains {
      LastVisibleIsNewest(s.chains[k], t, s.txns.active);
      ChainIsOld(s, k);
    }
  }

  /**
   * While t is unfinished and does not write k, the version it is shown at k is another one at the end
   * exactly when in between some transaction with a lower id commits whose version ends the chain.
   */
  lemma {:induction false} ViewChangesExactly(s: State, steps: seq<Step>, t: int, k: Bytes)
    requires Inv(s) && OrderlyRun(s, steps) && IsActive(s.txns, t)
    requires forall i :: 0 <= i < |steps| ==> !Touches(steps[i], t, k)
    ensures View(Run(s, steps), t, k) != View(s, t, k) <==> PublishedIn(s, steps, t, k)
  {
    ViewSoFar(s, steps, t, k);
    ShownIsNoNewcomer(s, t, k);
  }

  /** The same between two points of any disciplined run. */
  lemma {:induction false} ViewInRun(open: OpenState, before: seq<Step>, steps: seq<Step>, t: int, k: Bytes)
    requires Disciplined(before + steps) && IsActive(Run(open, before).txns, t)
    requires forall i :: 0 <= i < |steps| ==> !Touches(steps[i], t, k)
    ensures View(Run(open, before + steps), t, k) != View(Run(open, before), t, k) <==>
            PublishedIn(Run(open, before), steps, t, k)
  {
    EveryRunIsOk(open, before);
    DisciplinedIsOrderly(open, before, steps);
    RunSplit(open, before, steps);
    ViewChangesExactly(Run(open, before), steps, t, k);
  }

  // ---------- reachable examples ----------

  /** Two transactions run; the older one has written k. */
  function OneWrote(k: Bytes, v: Bytes): seq<Step> {
    [Begin, Begin] + [Set(1, k, v, true, true)]
  }

  lemma {:induction false} OneWroteState(k: Bytes, v: Bytes)
    requires KeyFits(k)
    ensures Run(Start(2), OneWrote(k, v)) ==
            State(Txns(3, 2, [1, 2], [Info(1, ACTIVE), Info(2, ACTIVE)]), [Lock(1, k, true)], map[k := [Version(1, 0, false, v)]])
  {
    TwoBegin(Start(2), 1);
    RunTwo(Start(2), Begin, Begin);
    RunMore(Start(2), [Begin, Begin], Set(1, k, v, true, true));
    var s := Next(Next(Start(2), Begin), Begin);
    assert SlotOf([1, 2], 1) == 0;
    UncontestedSet(s, 1, k, v);
    assert [] + [Version(1, 0, false, v)] == [Version(1, 0, false, v)];
  }

  lemma {:induction false} TwoSeesNothing(k: Bytes, v: Bytes)
    requires KeyFits(k)
    ensures var s := Run(Start(2), OneWrote(k, v));
            && Inv(s) && IsActive(s.txns, 1) && IsActive(s.txns, 2) && Newest(s, 1, k, Version(1, 0, false, v))
            && Read(s, 2, k) == None
  {
    OneWroteState(k, v);
    EveryRunIsOk(Start(2), OneWrote(k, v));
    assert [1, 2][1..] == [2] && SlotOf([2], 2) == 0 && SlotOf([1, 2], 2) == 1 && SlotOf([1, 2], 1) == 0;
    var chain := [Version(1, 0, false, v)];
    assert Lock(1, k, true) in [Lock(1, k, true)];
    assert !Sees(chain[0], 2, [1, 2]) by {
      assert [1, 2][0] == 1;
    }
    assert chain[..0] == [] && LastVisible([], 2, [1, 2]) == None;
    assert LastVisible(chain, 2, [1, 2]) == None;
  }

  /** A running transaction's answer changes when another one commits. */
  lemma {:induction false} AnswerChanges(k: Bytes, v: Bytes)
    requires KeyFits(k)
    ensures Read(Run(Start(2), OneWrote(k, v)), 2, k) == None
    ensures Read(Run(Start(2), OneWrote(k, v) + [Commit(1)]), 2, k) == Some(v)
  {
    TwoSeesNothing(k, v);
    OneWroteState(k, v);
    RunMore(Start(2), OneWrote(k, v), Commit(1));
    CommitPublishes(Run(Start(2), OneWrote(k, v)), 1, 2, k);
  }

  /** A write that was rolled back is shown once its transaction is committed all the same. */
  lemma {:induction false} DiscardedIsShown(k: Bytes, v: Bytes)
    requires KeyFits(k)
    ensures Read(Run(Start(2), OneWrote(k, v) + [Rollback(1)]), 2, k) == None
    ensures Read(Run(Start(2), OneWrote(k, v) + [Rollback(1)] + [Commit(1)]), 2, k) == Some(v)
  {
    TwoSeesNothing(k, v);
    var s := Run(Start(2), OneWrote(k, v));
    RunMore(Start(2), OneWrote(k, v), Rollback(1));
    RunMore(Start(2), OneWrote(k, v) + [Rollback(1)], Commit(1));
    RollbackHides(s, 1, 2, k);
    CommitAfterRollbackPublishes(s, 1, 2, k, Version(1, 0, false, v));
  }
}
