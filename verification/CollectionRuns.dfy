/** What a collection changes for reads, over whole runs. */
module CollectionRuns {
  import opened ByteStrings
  import opened VersionChain
  import opened LockTable
  import opened TxnList
  import opened Mvcc
  import opened Isolation
  import opened Collection

  // ---------- disciplined runs ----------

  /** A listed transaction that is not unfinished has been rolled back. */
  lemma {:induction false} RolledBackEarlier(open: OpenState, steps: seq<Step>, c: int)
    requires var l := Run(open, steps).txns; c in l.active && !IsActive(l, c)
    ensures exists j :: 0 <= j < |steps| && steps[j] == Rollback(c)
  {
    if steps != [] {
      var n := |steps| - 1;
      EveryRunIsOk(open, steps[..n]);
      ListAfter(Run(open, steps[..n]), steps[n], c);
      if steps[n] != Rollback(c) {
        RolledBackEarlier(open, steps[..n], c);
        var j :| 0 <= j < n && steps[..n][j] == Rollback(c);
        assert steps[j] == Rollback(c);
      }
    }
  }

  lemma {:induction false} NotRolledBackEarlier(steps: seq<Step>, i: nat, c: int)
    requires Disciplined(steps) && i < |steps| && steps[i] == Commit(c)
    ensures !exists j :: 0 <= j < i && steps[..i][j] == Rollback(c)
  {
    forall j | 0 <= j < i ensures steps[..i][j] != Rollback(c) {
      assert steps[..i][j] == steps[j];
    }
  }

  lemma {:induction false} OrderlyAt(open: OpenState, steps: seq<Step>, i: nat)
    requires Disciplined(steps) && i < |steps|
    ensures Orderly(Run(open, steps[..i]).txns, steps[i])
  {
    var l, step := Run(open, steps[..i]).txns, steps[i];
    if step.Commit? {
      NotRolledBackEarlier(steps, i, step.txn);
      if step.txn in l.active && !IsActive(l, step.txn) {
        RolledBackEarlier(open, steps[..i], step.txn);
      }
    }
  }

  /** The second part of a disciplined run is orderly from where the first part ends. */
  lemma {:induction false} DisciplinedIsOrderly(open: OpenState, before: seq<Step>, after: seq<Step>)
    requires Disciplined(before + after)
    ensures OrderlyRun(Run(open, before), after)
  {
    var s := Run(open, before);
    forall i | 0 <= i < |after| ensures Orderly(Run(s, after[..i]).txns, after[i]) {
      RunSplit(open, before, after[..i]);
      OrderlyAt(open, before + after, |before| + i);
      assert (before + after)[..|before| + i] == before + after[..i];
    }
  }

  // ---------- collections ----------

  /**
   * In a disciplined run a collection that touches k changes no read of k by t, then or at any later
   * time, if t was unfinished at the collection or the chain was spared.
   */
  lemma {:induction false} CollectInRun(open: OpenState, before: seq<Step>, keys: set<Bytes>, after: seq<Step>, t: int, k: Bytes)
    requires Disciplined(before + after)
    requires var s := Run(open, before);
             k in keys && k in s.chains ==> IsActive(s.txns, t) || Spared(s.chains[k], s.txns.active)
    ensures Read(Run(open, before + [Collect(keys)] + after), t, k) == Read(Run(open, before + after), t, k)
  {
    var s := Run(open, before);
    EveryRunIsOk(open, before);
    DisciplinedIsOrderly(open, before, after);
    RunMore(open, before, Collect(keys));
    RunSplit(open, before, after);
    RunSplit(open, before + [Collect(keys)], after);
    CollectionUnnoticed(s, keys, after, t, k);
  }

  /** Collections go no further than the keys that were stored when the database was opened. */
  predicate SweepsStored(open: State, steps: seq<Step>) {
    forall i :: 0 <= i < |steps| && steps[i].Collect? ==> steps[i].keys <= open.chains.Keys
  }

  function WithoutCollections(steps: seq<Step>): seq<Step> {
    if steps == [] then []
    else
      var n := |steps| - 1;
      WithoutCollections(steps[..n]) + if steps[n].Collect? then [] else [steps[n]]
  }

  /** In the first session on a new database collections do nothing at all. */
  lemma {:induction false} NewIsNeverPruned(open: State, steps: seq<Step>)
    requires open.chains == map[] && SweepsStored(open, steps)
    ensures Run(open, steps) == Run(open, WithoutCollections(steps))
  {
    if steps != [] {
      var n := |steps| - 1;
      NewIsNeverPruned(open, steps[..n]);
      var rest := WithoutCollections(steps[..n]);
      if steps[n].Collect? {
        NothingSwept(Run(open, steps[..n]), steps[n].keys);
        assert rest + [] == rest;
      } else {
        RunMore(open, rest, steps[n]);
      }
    }
  }

  lemma {:induction false} NothingSwept(s: State, keys: set<Bytes>)
    requires keys == {}
    ensures CollectStep(s, keys) == s
  {
    assert CollectStep(s, keys).chains == s.chains;
  }

  lemma {:induction false} ChainsStay(open: State, steps: seq<Step>, k: Bytes)
    requires k in open.chains
    ensures k in Run(open, steps).chains
  {
    if steps != [] {
      ChainsStay(open, steps[..|steps| - 1], k);
    }
  }

  /** In the continuation `after`, if it can happen and is disciplined, t is shown the same with the collection as without. */
  ghost predicate SameViewLater(open: OpenState, before: seq<Step>, keys: set<Bytes>, after: seq<Step>, t: int, k: Bytes) {
    var s := Run(open, before);
    Disciplined(before + after) && SweepsStored(open, after) && IsActive(Run(s, after).txns, t)
    ==> View(Run(CollectStep(s, keys), after), t, k) == View(Run(s, after), t, k)
  }

  /**
   * A collection of keys that were stored at the opening goes unnoticed by every transaction in every
   * disciplined continuation exactly when the chain is spared; provided that the list has room, so that
   * some transaction can still begin.
   */
  lemma {:induction false} CollectionExactly(open: OpenState, before: seq<Step>, keys: set<Bytes>, k: Bytes)
    requires Disciplined(before) && k in keys && k in open.chains
    requires |Run(open, before).txns.active| < 64 * open.txns.maxTxns
    ensures var s := Run(open, before);
            k in s.chains && (Spared(s.chains[k], s.txns.active) <==> forall after, t :: SameViewLater(open, before, keys, after, t, k))
  {
    var s := Run(open, before);
    EveryRunIsOk(open, before);
    ChainsStay(open, before, k);
    if Spared(s.chains[k], s.txns.active) {
      forall after, t ensures SameViewLater(open, before, keys, after, t, k) {
        if Disciplined(before + after) {
          DisciplinedIsOrderly(open, before, after);
          CollectionUnnoticed(s, keys, after, t, k);
        }
      }
    } else {
      MaxStays(open, before);
      var after := MakeRoom(s);
      StillDisciplined(before, after);
      MissedByTheNext(s, keys, after, k);
      assert !SameViewLater(open, before, keys, after, s.txns.nextTxid, k);
    }
  }

  lemma {:induction false} MaxStays(open: OpenState, steps: seq<Step>)
    ensures Run(open, steps).txns.maxTxns == open.txns.maxTxns
  {
    if steps != [] {
      MaxStays(open, steps[..|steps| - 1]);
    }
  }

  lemma {:induction false} LiveOne(infos: seq<Info>) returns (i: nat)
    requires LiveCount(infos) > 0
    ensures i < |infos| && infos[i].state != ROLLED_BACK
    ensures LiveCount(infos[i := infos[i].(state := ROLLED_BACK)]) == LiveCount(infos) - 1
  {
    if infos[0].state != ROLLED_BACK {
      i := 0;
      assert infos[0 := infos[0].(state := ROLLED_BACK)][1..] == infos[1..];
    } else {
      var j := LiveOne(infos[1..]);
      i := j + 1;
      assert infos[i := infos[i].(state := ROLLED_BACK)][1..] == infos[1..][j := infos[1..][j].(state := ROLLED_BACK)];
    }
  }

  /** Ends with a begin that succeeds; before it at most one rollback. */
  ghost predicate Opens(s: State, after: seq<Step>) {
    after == [Begin] || exists c :: after == [Rollback(c), Begin]
  }

  /** One rollback makes room for a begin, unless the list itself is full. */
  lemma {:induction false} MakeRoom(s: State) returns (after: seq<Step>)
    requires ListOk(s.txns) && |s.txns.active| < 64 * s.txns.maxTxns
    ensures Opens(s, after)
    ensures var e := Run(s, after); e.chains == s.chains && IsActive(e.txns, s.txns.nextTxid) && e.txns.active == s.txns.active + [s.txns.nextTxid]
    ensures forall keys :: var e := Run(CollectStep(s, keys), after);
                           e.chains == CollectStep(s, keys).chains && e.txns == Run(s, after).txns
  {
    if CanBegin(s.txns) {
      after := [Begin];
      RunOne(s, Begin);
      forall keys ensures Run(CollectStep(s, keys), after) == Next(CollectStep(s, keys), Begin) {
        RunOne(CollectStep(s, keys), Begin);
      }
      BeginKeeps(s.txns, s.txns.nextTxid);
    } else {
      after := RollOneBack(s);
    }
  }

  lemma {:induction false} RollOneBack(s: State) returns (after: seq<Step>)
    requires ListOk(s.txns) && |s.txns.active| < 64 * s.txns.maxTxns && !CanBegin(s.txns)
    ensures Opens(s, after)
    ensures var e := Run(s, after); e.chains == s.chains && IsActive(e.txns, s.txns.nextTxid) && e.txns.active == s.txns.active + [s.txns.nextTxid]
    ensures forall keys :: var e := Run(CollectStep(s, keys), after);
                           e.chains == CollectStep(s, keys).chains && e.txns == Run(s, after).txns
  {
    var i := LiveOne(s.txns.infos);
    var c := s.txns.active[i];
    after := [Rollback(c), Begin];
    SlotInIncreasing(s.txns.active, i);
    RollbackKeeps(s.txns, c, c);
    BeginKeeps(RolledBack(s.txns, c), s.txns.nextTxid);
    RollThenBegin(s, c);
    forall keys ensures var e := Run(CollectStep(s, keys), after);
                        e.chains == CollectStep(s, keys).chains && e.txns == Begun(RolledBack(s.txns, c)) {
      RollThenBegin(CollectStep(s, keys), c);
    }
  }

  lemma {:induction false} RollThenBegin(s: State, c: int)
    ensures var e := Run(s, [Rollback(c), Begin]); e.chains == s.chains && e.txns == Begun(RolledBack(s.txns, c))
  {
    RunTwo(s, Rollback(c), Begin);
  }

  lemma {:induction false} RunOne(s: State, a: Step)
    ensures Run(s, [a]) == Next(s, a)
  {
    assert [a][..0] == [] && Run(s, []) == s;
  }

  lemma {:induction false} RunTwo(s: State, a: Step, b: Step)
    ensures Run(s, [a, b]) == Next(Next(s, a), b)
  {
    RunOne(s, a);
    assert [a, b][..1] == [a];
  }

  lemma {:induction false} StillDisciplined(before: seq<Step>, after: seq<Step>)
    requires Disciplined(before) && (after == [Begin] || exists c :: after == [Rollback(c), Begin])
    ensures Disciplined(before + after)
  {
    var steps := before + after;
    forall i, j, c | 0 <= i < j < |steps| && steps[i] == Rollback(c) ensures steps[j] != Commit(c) {
      if j < |before| {
        assert before[i] == steps[i] && before[j] == steps[j];
      }
    }
  }

  lemma {:induction false} MissedByTheNext(s: State, keys: set<Bytes>, after: seq<Step>, k: Bytes)
    requires Inv(s) && k in s.chains && k in keys && !Spared(s.chains[k], s.txns.active)
    requires Run(s, after).chains == s.chains && Run(s, after).txns.active == s.txns.active + [s.txns.nextTxid]
    requires Run(CollectStep(s, keys), after).chains == CollectStep(s, keys).chains && Run(CollectStep(s, keys), after).txns == Run(s, after).txns
    ensures View(Run(CollectStep(s, keys), after), s.txns.nextTxid, k) != View(Run(s, after), s.txns.nextTxid, k)
  {
    assert ChainOk(s.chains[k], s, k);
    assert Later(s.chains[k], s.txns.nextTxid, s.txns.active);
    PrunedIsSurvivors(s.chains[k], s.txns.active);
    UnsparedIsMissed(s.chains[k], s.txns.active, s.txns.nextTxid);
  }
}
