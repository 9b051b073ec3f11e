/**
 * What a collection changes for readers at any later time: the run with it and the run without it,
 * step by step side by side.
 */
module Collection {
  import opened ByteStrings
  import opened VersionChain
  import opened LockTable
  import opened TxnList
  import opened Mvcc
  import opened Isolation

  // ---------- a chain and the same chain with versions missing ----------

  /** Now and ever after, whoever sees or needs v sees or needs w. */
  ghost predicate Covers(w: Version, v: Version, l: Txns) {
    w.created == v.created
    || (w.created !in l.active && v.created !in l.active && forall a :: a in l.active && v.created <= a ==> w.created <= a)
  }

  /** Reader r never sees v: it is too new, or was rolled back. */
  ghost predicate Hidden(v: Version, l: Txns, r: int) {
    v.created > r || (v.created in l.active && !IsActive(l, v.created))
  }

  ghost predicate Covered(v: Version, later: set<Version>, l: Txns, r: int) {
    Hidden(v, l, r) || exists w :: w in later && Covers(w, v, l)
  }

  /** `kept` is `full` without some versions that are covered; `later` is what kept has behind both. */
  ghost predicate Thinned(full: seq<Version>, kept: seq<Version>, later: set<Version>, l: Txns, r: int)
    decreases |full|
  {
    if full == [] then kept == []
    else
      var n := |full| - 1;
      || (kept != [] && kept[|kept| - 1] == full[n] && Thinned(full[..n], kept[..|kept| - 1], later + {full[n]}, l, r))
      || (Covered(full[n], later, l, r) && Thinned(full[..n], kept, later, l, r))
  }

  /** The same, with the newest version kept. */
  ghost predicate Twins(full: seq<Version>, kept: seq<Version>, l: Txns, r: int) {
    if full == [] || kept == [] then full == [] && kept == []
    else
      var n, m := |full| - 1, |kept| - 1;
      full[n] == kept[m] && Thinned(full[..n], kept[..m], {full[n]}, l, r)
  }

  ghost predicate Plain(later: set<Version>) {
    forall w :: w in later ==> w.deleted == 0
  }

  lemma {:induction false} ThinnedMore(full: seq<Version>, kept: seq<Version>, later: set<Version>, more: set<Version>, l: Txns, r: int)
    requires Thinned(full, kept, later, l, r) && later <= more
    ensures Thinned(full, kept, more, l, r)
    decreases |full|
  {
    if full != [] {
      var n := |full| - 1;
      if kept != [] && kept[|kept| - 1] == full[n] && Thinned(full[..n], kept[..|kept| - 1], later + {full[n]}, l, r) {
        ThinnedMore(full[..n], kept[..|kept| - 1], later + {full[n]}, more + {full[n]}, l, r);
      } else {
        ThinnedMore(full[..n], kept, later, more, l, r);
      }
    }
  }

  /** An unfinished reader that sees nothing in `later` sees the same in both. */
  lemma {:induction false} ThinnedShows(full: seq<Version>, kept: seq<Version>, later: set<Version>, l: Txns, r: int)
    requires Thinned(full, kept, later, l, r) && NoDeleter(full) && Plain(later) && IsActive(l, r) && r in l.active
    requires forall w :: w in later ==> !Sees(w, r, l.active)
    ensures LastVisible(full, r, l.active) == LastVisible(kept, r, l.active)
    decreases |full|
  {
    if full != [] {
      var n := |full| - 1;
      var v := full[n];
      if kept != [] && kept[|kept| - 1] == v && Thinned(full[..n], kept[..|kept| - 1], later + {v}, l, r) {
        if !Sees(v, r, l.active) {
          ThinnedShows(full[..n], kept[..|kept| - 1], later + {v}, l, r);
        }
      } else {
        assert !Sees(v, r, l.active);
        ThinnedShows(full[..n], kept, later, l, r);
      }
    }
  }

  /** Pruning both keeps them so. */
  lemma {:induction false} ThinnedPruned(full: seq<Version>, kept: seq<Version>, later: set<Version>, needed: set<Version>, l: Txns, r: int)
    requires Thinned(full, kept, later, l, r) && NoDeleter(full) && Plain(later)
    requires forall w :: w in later && NeededBy(w, l.active) ==> w in needed
    ensures Thinned(Needed(full, l.active), Needed(kept, l.active), needed, l, r)
    decreases |full|
  {
    if full != [] {
      var n := |full| - 1;
      var v := full[n];
      var f := Needed(full[..n], l.active);
      assert (f + [v])[..|f|] == f && f + [] == f;
      if kept != [] && kept[|kept| - 1] == v && Thinned(full[..n], kept[..|kept| - 1], later + {v}, l, r) {
        var k := Needed(kept[..|kept| - 1], l.active);
        assert (k + [v])[..|k|] == k && k + [] == k;
        if NeededBy(v, l.active) {
          ThinnedPruned(full[..n], kept[..|kept| - 1], later + {v}, needed + {v}, l, r);
        } else {
          ThinnedPruned(full[..n], kept[..|kept| - 1], later + {v}, needed, l, r);
        }
      } else {
        ThinnedPruned(full[..n], kept, later, needed, l, r);
        if NeededBy(v, l.active) {
          assert Covered(v, needed, l, r);
        }
      }
    }
  }

  // ---------- how the list may move on ----------

  /** Nobody handed out before is listed again, and what was rolled back stays so. */
  ghost predicate MovesOn(l: Txns, l': Txns) {
    && l.nextTxid <= l'.nextTxid
    && (forall c :: c in l'.active ==> c in l.active || l.nextTxid <= c)
    && forall c :: c in l.active && !IsActive(l, c) ==> c in l'.active && !IsActive(l', c)
  }

  ghost predicate OldIn(later: set<Version>, l: Txns) {
    forall w :: w in later ==> w.created < l.nextTxid
  }

  ghost predicate Old(chain: seq<Version>, l: Txns) {
    forall i :: 0 <= i < |chain| ==> chain[i].created < l.nextTxid
  }

  lemma {:induction false} CoveredMovesOn(v: Version, later: set<Version>, l: Txns, l': Txns, r: int)
    requires Covered(v, later, l, r) && MovesOn(l, l') && v.created < l.nextTxid && OldIn(later, l)
    ensures Covered(v, later, l', r)
  {
    if !Hidden(v, l, r) {
      var w :| w in later && Covers(w, v, l);
      assert Covers(w, v, l');
    }
  }

  lemma {:induction false} ThinnedMovesOn(full: seq<Version>, kept: seq<Version>, later: set<Version>, l: Txns, l': Txns, r: int)
    requires Thinned(full, kept, later, l, r) && MovesOn(l, l') && Old(full, l) && OldIn(later, l)
    ensures Thinned(full, kept, later, l', r)
    decreases |full|
  {
    if full != [] {
      var n := |full| - 1;
      if kept != [] && kept[|kept| - 1] == full[n] && Thinned(full[..n], kept[..|kept| - 1], later + {full[n]}, l, r) {
        ThinnedMovesOn(full[..n], kept[..|kept| - 1], later + {full[n]}, l, l', r);
      } else {
        CoveredMovesOn(full[n], later, l, l', r);
        ThinnedMovesOn(full[..n], kept, later, l, l', r);
      }
    }
  }

  // ---------- twins ----------

  lemma {:induction false} TwinsMoveOn(full: seq<Version>, kept: seq<Version>, l: Txns, l': Txns, r: int)
    requires Twins(full, kept, l, r) && MovesOn(l, l') && Old(full, l)
    ensures Twins(full, kept, l', r)
  {
    if full != [] {
      ThinnedMovesOn(full[..|full| - 1], kept[..|kept| - 1], {full[|full| - 1]}, l, l', r);
    }
  }

  lemma {:induction false} TwinsAppend(full: seq<Version>, kept: seq<Version>, v: Version, l: Txns, r: int)
    requires Twins(full, kept, l, r)
    ensures Twins(full + [v], kept + [v], l, r)
  {
    assert (full + [v])[..|full|] == full && (kept + [v])[..|kept|] == kept;
    if full != [] {
      var x := full[|full| - 1];
      ThinnedMore(full[..|full| - 1], kept[..|kept| - 1], {x}, {v} + {x}, l, r);
    }
  }

  lemma {:induction false} TwinsPruned(full: seq<Version>, kept: seq<Version>, l: Txns, r: int)
    requires Twins(full, kept, l, r) && NoDeleter(full)
    ensures Twins(Pruned(full, l.active), Pruned(kept, l.active), l, r)
  {
    PrunedIsSurvivors(full, l.active);
    PrunedIsSurvivors(kept, l.active);
    if full != [] {
      var n, m := |full| - 1, |kept| - 1;
      var f, k := Needed(full[..n], l.active), Needed(kept[..m], l.active);
      ThinnedPruned(full[..n], kept[..m], {full[n]}, {full[n]}, l, r);
      assert (f + [full[n]])[..|f|] == f && (k + [kept[m]])[..|k|] == k;
    }
  }

  lemma {:induction false} PrunedIsSurvivors(chain: seq<Version>, active: seq<int>)
    ensures Pruned(chain, active) == Survivors(chain, active)
  {
    if |chain| == 1 {
      assert chain[..0] == [] && [] + [chain[0]] == chain;
    }
  }

  lemma {:induction false} TwinsShow(full: seq<Version>, kept: seq<Version>, l: Txns, r: int)
    requires Twins(full, kept, l, r) && NoDeleter(full) && IsActive(l, r) && r in l.active
    ensures LastVisible(full, r, l.active) == LastVisible(kept, r, l.active)
  {
    if full != [] {
      var n, m := |full| - 1, |kept| - 1;
      if !Sees(full[n], r, l.active) {
        ThinnedShows(full[..n], kept[..m], {full[n]}, l, r);
      }
    }
  }

  /** What pruning drops from the front part of a chain is covered by what it keeps. */
  lemma {:induction false} PrunedFront(front: seq<Version>, later: set<Version>, l: Txns, r: int)
    requires NoDeleter(front)
    requires forall v :: v in front && IsActive(l, v.created) ==> exists w :: w in later && w.created == v.created
    requires (IsActive(l, r) && r in l.active) || (exists w :: w in later && w.created !in l.active)
             || var u := LastUnlisted(front, l.active); u.None? || NeededBy(u.value, l.active)
    ensures Thinned(front, Needed(front, l.active), later, l, r)
  {
    if front != [] {
      var n := |front| - 1;
      var v, k := front[n], Needed(front[..n], l.active);
      assert v in front && forall x :: x in front[..n] ==> x in front;
      assert k + [] == k && (k + [v])[..|k|] == k;
      if NeededBy(v, l.active) {
        assert v in later + {v};
        PrunedFront(front[..n], later + {v}, l, r);
      } else {
        PrunedFront(front[..n], later, l, r);
        assert Covered(v, later, l, r) by {
          if v.created !in l.active && v.created <= r {
            var w :| w in later && w.created !in l.active;
            assert Covers(w, v, l);
          } else if IsActive(l, v.created) {
            var w :| w in later && w.created == v.created;
            assert Covers(w, v, l);
          }
        }
      }
    }
  }

  /** For a reader that is unfinished now, or any reader of a spared chain, pruning leaves a twin. */
  lemma {:induction false} PruningLeavesTwin(s: State, k: Bytes, r: int)
    requires Inv(s) && k in s.chains && (IsActive(s.txns, r) || Spared(s.chains[k], s.txns.active))
    ensures Twins(s.chains[k], Pruned(s.chains[k], s.txns.active), s.txns, r)
  {
    var chain, l := s.chains[k], s.txns;
    assert ChainOk(chain, s, k);
    PrunedIsSurvivors(chain, l.active);
    ListedIff(l, r);
    if chain != [] {
      var n := |chain| - 1;
      var last, front := chain[n], chain[..n];
      forall v | v in front && IsActive(l, v.created) ensures last.created == v.created {
        assert Owned(chain, s, k, v.created);
        var i :| 0 <= i < n && chain[i] == v;
      }
      assert last in {last};
      LastUnlistedIn(chain, l.active);
      LastUnlistedIn(front, l.active);
      PrunedFront(front, {last}, l, r);
      assert (Needed(front, l.active) + [last])[..|Needed(front, l.active)|] == Needed(front, l.active);
    }
  }

  // ---------- two states side by side ----------

  ghost predicate SideBySide(s: State, s': State, k: Bytes, r: int) {
    && s.txns == s'.txns && s.locks == s'.locks && (k in s.chains <==> k in s'.chains)
    && (k in s.chains ==> Twins(s.chains[k], s'.chains[k], s.txns, r))
  }

  /** The step commits nothing that was rolled back. */
  predicate Orderly(l: Txns, step: Step) {
    step.Commit? && step.txn in l.active ==> IsActive(l, step.txn)
  }

  ghost predicate OrderlyRun(s: State, steps: seq<Step>) {
    forall i :: 0 <= i < |steps| ==> Orderly(Run(s, steps[..i]).txns, steps[i])
  }

  lemma {:induction false} ListMovesOn(s: State, step: Step)
    requires Inv(s) && Orderly(s.txns, step)
    ensures MovesOn(s.txns, Next(s, step).txns)
  {
    forall c ensures var l, l' := s.txns, Next(s, step).txns;
                     && (c in l'.active ==> c in l.active || l.nextTxid <= c)
                     && (c in l.active && !IsActive(l, c) ==> c in l'.active && !IsActive(l', c)) {
      ListAfter(s, step, c);
      if c in s.txns.active {
        ListedIsOld(s.txns, c);
      }
    }
    ListAfter(s, step, 0);
  }

  lemma {:induction false} ChainIsOld(s: State, k: Bytes)
    requires Inv(s) && k in s.chains
    ensures Old(s.chains[k], s.txns) && NoDeleter(s.chains[k])
  {
    assert ChainOk(s.chains[k], s, k);
  }

  lemma {:induction false} SetSideBySide(s: State, s': State, t: int, q: Bytes, v: Bytes, alloc: bool, room: bool, k: Bytes, r: int)
    requires SideBySide(s, s', k, r)
    ensures SideBySide(SetStep(s, t, q, v, alloc, room), SetStep(s', t, q, v, alloc, room), k, r)
  {
    TwinsAppend(if k in s.chains then s.chains[k] else [], if k in s.chains then s'.chains[k] else [], Version(t, 0, false, v), s.txns, r);
  }

  lemma {:induction false} DeleteSideBySide(s: State, s': State, t: int, q: Bytes, room: bool, k: Bytes, r: int)
    requires SideBySide(s, s', k, r)
    ensures SideBySide(DeleteStep(s, t, q, room), DeleteStep(s', t, q, room), k, r)
  {
    if k in s.chains {
      TwinsAppend(s.chains[k], s'.chains[k], Version(t, 0, true, []), s.txns, r);
    }
  }

  lemma {:induction false} CollectSideBySide(s: State, s': State, keys: set<Bytes>, k: Bytes, r: int)
    requires Inv(s) && SideBySide(s, s', k, r)
    ensures SideBySide(CollectStep(s, keys), CollectStep(s', keys), k, r)
  {
    if k in s.chains {
      ChainIsOld(s, k);
      TwinsPruned(s.chains[k], s'.chains[k], s.txns, r);
    }
  }

  lemma {:induction false} ListSideBySide(s: State, s': State, txns: Txns, locks: seq<Lock>, k: Bytes, r: int)
    requires Inv(s) && SideBySide(s, s', k, r) && MovesOn(s.txns, txns)
    ensures SideBySide(s.(txns := txns, locks := locks), s'.(txns := txns, locks := locks), k, r)
  {
    if k in s.chains {
      ChainIsOld(s, k);
      TwinsMoveOn(s.chains[k], s'.chains[k], s.txns, txns, r);
    }
  }

  /** Steps look at a chain only to append to it or to prune it, so they keep twins. */
  lemma {:induction false} StepSideBySide(s: State, s': State, step: Step, k: Bytes, r: int)
    requires Inv(s) && SideBySide(s, s', k, r) && Orderly(s.txns, step)
    requires s.chains.Keys == s'.chains.Keys
    ensures SideBySide(Next(s, step), Next(s', step), k, r) && Next(s, step).chains.Keys == Next(s', step).chains.Keys
  {
    match step
    case Set(t, q, v, alloc, room) => SetSideBySide(s, s', t, q, v, alloc, room, k, r);
    case Delete(t, q, room) => DeleteSideBySide(s, s', t, q, room, k, r);
    case Collect(keys) => CollectSideBySide(s, s', keys, k, r);
    case Begin =>
      ListMovesOn(s, step);
      ListSideBySide(s, s', Begun(s.txns), s.locks, k, r);
    case Commit(t) =>
      ListMovesOn(s, step);
      ListSideBySide(s, s', Committed(s.txns, t), Released(s.locks, t), k, r);
    case Rollback(t) =>
      ListMovesOn(s, step);
      ListSideBySide(s, s', RolledBack(s.txns, t), Released(s.locks, t), k, r);
  }

  lemma {:induction false} RunSideBySide(s: State, s': State, steps: seq<Step>, k: Bytes, r: int)
    requires Inv(s) && SideBySide(s, s', k, r) && OrderlyRun(s, steps) && s.chains.Keys == s'.chains.Keys
    ensures Inv(Run(s, steps)) && SideBySide(Run(s, steps), Run(s', steps), k, r)
    ensures Run(s, steps).chains.Keys == Run(s', steps).chains.Keys
  {
    if steps != [] {
      var n := |steps| - 1;
      OrderlyBefore(s, steps, n);
      RunSideBySide(s, s', steps[..n], k, r);
      assert Orderly(Run(s, steps[..n]).txns, steps[n]);
      StepSideBySide(Run(s, steps[..n]), Run(s', steps[..n]), steps[n], k, r);
      StepKeeps(Run(s, steps[..n]), steps[n]);
    }
  }

  lemma {:induction false} OrderlyBefore(s: State, steps: seq<Step>, n: nat)
    requires OrderlyRun(s, steps) && n <= |steps|
    ensures OrderlyRun(s, steps[..n])
  {
    forall i | 0 <= i < n ensures Orderly(Run(s, steps[..n][..i]).txns, steps[..n][i]) {
      assert steps[..n][..i] == steps[..i];
    }
  }

  // ---------- whole runs ----------

  /** The version that transaction t is shown at k. */
  function View(s: State, t: int, k: Bytes): Option<Version> {
    if k in s.chains then LastVisible(s.chains[k], t, s.txns.active) else None
  }

  /**
   * After a collection, and whatever happens then, a transaction is shown the same as without it: any
   * transaction if the chain was spared, and in any case one that was unfinished at the collection.
   */
  lemma {:induction false} CollectionUnnoticed(s: State, keys: set<Bytes>, after: seq<Step>, t: int, k: Bytes)
    requires Inv(s) && OrderlyRun(s, after)
    requires k in keys && k in s.chains ==> IsActive(s.txns, t) || Spared(s.chains[k], s.txns.active)
    ensures var e, e' := Run(s, after), Run(CollectStep(s, keys), after);
            && e'.txns == e.txns && (IsActive(e.txns, t) ==> View(e', t, k) == View(e, t, k)) && Read(e', t, k) == Read(e, t, k)
  {
    var s' := CollectStep(s, keys);
    if k in s.chains {
      if k in keys {
        PruningLeavesTwin(s, k, t);
      } else {
        SameIsTwin(s.chains[k], s.txns, t);
      }
    }
    RunSideBySide(s, s', after, k, t);
    var e, e' := Run(s, after), Run(s', after);
    if IsActive(e.txns, t) && k in e.chains {
      ChainIsOld(e, k);
      ListedIff(e.txns, t);
      TwinsShow(e.chains[k], e'.chains[k], e.txns, t);
    }
  }

  lemma {:induction false} SameIsThinned(chain: seq<Version>, later: set<Version>, l: Txns, r: int)
    ensures Thinned(chain, chain, later, l, r)
  {
    if chain != [] {
      SameIsThinned(chain[..|chain| - 1], later + {chain[|chain| - 1]}, l, r);
    }
  }

  lemma {:induction false} SameIsTwin(chain: seq<Version>, l: Txns, r: int)
    ensures Twins(chain, chain, l, r)
  {
    if chain != [] {
      SameIsThinned(chain[..|chain| - 1], {chain[|chain| - 1]}, l, r);
    }
  }
}
