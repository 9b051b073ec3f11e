/** A read returns the last write, in the order of the run, among those the reader may see. */
module LastWrites {
  import opened ByteStrings
  import opened VersionChain
  import opened LockTable
  import opened TxnList
  import opened Mvcc
  import opened Isolation
  import opened Collection
  import opened CollectionRuns

  /** What the step writes to k when it is taken in state s. */
  function WrittenBy(s: State, step: Step, k: Bytes): seq<Version> {
    match step
    case Set(t, q, v, alloc, room) => if q == k && SetSucceeds(s, t, q, alloc, room) then [Version(t, 0, false, v)] else []
    case Delete(t, q, room) => if q == k && DeleteSucceeds(s, t, q, room) then [Version(t, 0, true, [])] else []
    case Begin => []
    case Commit(_) => []
    case Rollback(_) => []
    case Collect(_) => []
  }

  /** The versions of k that were there at the opening, then all successful writes to k, in the order of the run. */
  function Writes(open: OpenState, steps: seq<Step>, k: Bytes): seq<Version> {
    if steps == [] then ChainOf(open, k)
    else
      var n := |steps| - 1;
      Writes(open, steps[..n], k) + WrittenBy(Run(open, steps[..n]), steps[n], k)
  }

  /** The last of the writes that t made itself, or with a lower id were there at the opening or committed since. */
  ghost function LastAllowed(open: OpenState, steps: seq<Step>, writes: seq<Version>, t: int): Option<Version> {
    if writes == [] then None
    else
      var n := |writes| - 1;
      var c := writes[n].created;
      if c == t || (c < t && Settled(open, steps, c)) then Some(writes[n])
      else LastAllowed(open, steps, writes[..n], t)
  }

  /** Each collection of k found t unfinished, or the chain spared. */
  ghost predicate Harmless(open: OpenState, steps: seq<Step>, i: int, t: int, k: Bytes)
    requires 0 <= i < |steps|
  {
    var s := Run(open, steps[..i]);
    steps[i].Collect? && k in steps[i].keys && k in s.chains ==> IsActive(s.txns, t) || Spared(s.chains[k], s.txns.active)
  }

  ghost predicate AllHarmless(open: OpenState, steps: seq<Step>, t: int, k: Bytes) {
    forall i :: 0 <= i < |steps| ==> Harmless(open, steps, i, t, k)
  }

  // ---------- thinning twice ----------

  /** r is unfinished, or later than every version. */
  ghost predicate Current(l: Txns, r: int) {
    (IsActive(l, r) && r in l.active) || l.nextTxid <= r
  }

  lemma {:induction false} CoveredThrough(v: Version, w: Version, later: set<Version>, l: Txns, r: int)
    requires Covers(w, v, l) && Covered(w, later, l, r) && Current(l, r) && w.created < l.nextTxid
    ensures Covered(v, later, l, r)
  {
    if !Hidden(w, l, r) {
      var x :| x in later && Covers(x, w, l);
      assert Covers(x, v, l);
    }
  }

  lemma {:induction false} ThinnedTwice(full: seq<Version>, kept: seq<Version>, rest: seq<Version>, a: set<Version>, b: set<Version>, l: Txns, r: int)
    requires Thinned(full, kept, a, l, r) && Thinned(kept, rest, b, l, r) && Current(l, r) && Old(full, l) && OldIn(a, l)
    requires forall w :: w in a ==> w in b || Covered(w, b, l, r)
    ensures Thinned(full, rest, b, l, r)
    decreases |full|
  {
    if full != [] {
      var n := |full| - 1;
      var v := full[n];
      if kept != [] && kept[|kept| - 1] == v && Thinned(full[..n], kept[..|kept| - 1], a + {v}, l, r) {
        var k := kept[..|kept| - 1];
        if rest != [] && rest[|rest| - 1] == v && Thinned(k, rest[..|rest| - 1], b + {v}, l, r) {
          forall w | w in a + {v} ensures w in b + {v} || Covered(w, b + {v}, l, r) {
            if w in a && w !in b && !Hidden(w, l, r) {
              var x :| x in b && Covers(x, w, l);
              assert x in b + {v};
            }
          }
          ThinnedTwice(full[..n], k, rest[..|rest| - 1], a + {v}, b + {v}, l, r);
        } else {
          ThinnedTwice(full[..n], k, rest, a + {v}, b, l, r);
        }
      } else {
        ThinnedTwice(full[..n], kept, rest, a, b, l, r);
        if !Hidden(v, l, r) {
          var w :| w in a && Covers(w, v, l);
          if w in b {
            assert Covered(v, b, l, r);
          } else {
            CoveredThrough(v, w, b, l, r);
          }
        }
      }
    }
  }

  lemma {:induction false} TwinsTwice(full: seq<Version>, kept: seq<Version>, rest: seq<Version>, l: Txns, r: int)
    requires Twins(full, kept, l, r) && Twins(kept, rest, l, r) && Current(l, r) && Old(full, l)
    ensures Twins(full, rest, l, r)
  {
    if full != [] {
      var n := |full| - 1;
      ThinnedTwice(full[..n], kept[..|kept| - 1], rest[..|rest| - 1], {full[n]}, {full[n]}, l, r);
    }
  }

  // ---------- the chain and the writes ----------

  function ChainOf(s: State, k: Bytes): seq<Version> {
    if k in s.chains then s.chains[k] else []
  }

  ghost predicate Recorded(writes: seq<Version>, s: State, k: Bytes, r: int) {
    NoDeleter(writes) && Old(writes, s.txns) && Twins(writes, ChainOf(s, k), s.txns, r)
  }

  lemma {:induction false} RecordedList(writes: seq<Version>, s: State, s': State, k: Bytes, r: int)
    requires Recorded(writes, s, k, r) && MovesOn(s.txns, s'.txns) && s'.chains == s.chains
    ensures Recorded(writes, s', k, r)
  {
    TwinsMoveOn(writes, ChainOf(s, k), s.txns, s'.txns, r);
  }

  lemma {:induction false} SetAppends(s: State, t: int, q: Bytes, v: Bytes, alloc: bool, room: bool, k: Bytes)
    ensures ChainOf(SetStep(s, t, q, v, alloc, room), k) == ChainOf(s, k) + WrittenBy(s, Set(t, q, v, alloc, room), k)
    ensures k in s.chains ==> k in SetStep(s, t, q, v, alloc, room).chains
  {
    assert ChainOf(s, k) + [] == ChainOf(s, k);
  }

  lemma {:induction false} DeleteAppends(s: State, t: int, q: Bytes, room: bool, k: Bytes)
    ensures ChainOf(DeleteStep(s, t, q, room), k) == ChainOf(s, k) + WrittenBy(s, Delete(t, q, room), k)
    ensures k in s.chains ==> k in DeleteStep(s, t, q, room).chains
  {
    assert ChainOf(s, k) + [] == ChainOf(s, k);
  }

  /** Only collections take anything away from a chain. */
  lemma {:induction false} StepAppends(s: State, step: Step, k: Bytes)
    requires !step.Collect?
    ensures ChainOf(Next(s, step), k) == ChainOf(s, k) + WrittenBy(s, step, k)
    ensures k in s.chains ==> k in Next(s, step).chains
  {
    match step
    case Set(t, q, v, alloc, room) => SetAppends(s, t, q, v, alloc, room, k);
    case Delete(t, q, room) => DeleteAppends(s, t, q, room, k);
    case Begin => assert ChainOf(s, k) + [] == ChainOf(s, k);
    case Commit(_) => assert ChainOf(s, k) + [] == ChainOf(s, k);
    case Rollback(_) => assert ChainOf(s, k) + [] == ChainOf(s, k);
  }

  lemma {:induction false} OneVersion(s: State, step: Step, k: Bytes)
    requires Inv(s)
    ensures var w := WrittenBy(s, step, k);
            |w| <= 1 && (w != [] ==> w[0].deleted == 0 && 1 <= w[0].created < s.txns.nextTxid)
  {
    if WrittenBy(s, step, k) != [] {
      ListedIff(s.txns, step.txn);
    }
  }

  lemma {:induction false} TwinsAppendAll(full: seq<Version>, kept: seq<Version>, w: seq<Version>, l: Txns, r: int)
    requires Twins(full, kept, l, r) && |w| <= 1
    ensures Twins(full + w, kept + w, l, r)
  {
    if w == [] {
      assert full + w == full && kept + w == kept;
    } else {
      TwinsAppend(full, kept, w[0], l, r);
      assert full + w == full + [w[0]] && kept + w == kept + [w[0]];
    }
  }

  lemma {:induction false} RecordedWrite(writes: seq<Version>, s: State, s': State, w: seq<Version>, k: Bytes, r: int)
    requires Recorded(writes, s, k, r) && s'.txns == s.txns && ChainOf(s', k) == ChainOf(s, k) + w
    requires |w| <= 1 && (w != [] ==> w[0].deleted == 0 && w[0].created < s.txns.nextTxid)
    ensures Recorded(writes + w, s', k, r)
  {
    TwinsAppendAll(writes, ChainOf(s, k), w, s.txns, r);
  }

  lemma {:induction false} RecordedCollect(writes: seq<Version>, s: State, keys: set<Bytes>, k: Bytes, r: int)
    requires Inv(s) && Recorded(writes, s, k, r) && Current(s.txns, r)
    requires k in keys && k in s.chains ==> IsActive(s.txns, r) || Spared(s.chains[k], s.txns.active)
    ensures Recorded(writes, CollectStep(s, keys), k, r)
  {
    if k in s.chains && k in keys {
      PruningLeavesTwin(s, k, r);
      TwinsTwice(writes, s.chains[k], Pruned(s.chains[k], s.txns.active), s.txns, r);
    }
  }

  lemma {:induction false} RecordedStep(writes: seq<Version>, s: State, step: Step, k: Bytes, r: int)
    requires Inv(s) && Recorded(writes, s, k, r) && Orderly(s.txns, step) && Current(s.txns, r)
    requires step.Collect? && k in step.keys && k in s.chains ==> IsActive(s.txns, r) || Spared(s.chains[k], s.txns.active)
    ensures Recorded(writes + WrittenBy(s, step, k), Next(s, step), k, r)
  {
    assert writes + [] == writes;
    if step.Set? || step.Delete? {
      StepAppends(s, step, k);
      OneVersion(s, step, k);
      RecordedWrite(writes, s, Next(s, step), WrittenBy(s, step, k), k, r);
    } else if step.Collect? {
      RecordedCollect(writes, s, step.keys, k, r);
    } else {
      ListMovesOn(s, step);
      RecordedList(writes, s, Next(s, step), k, r);
    }
  }

  /** A transaction that is unfinished at the end was so, or had not begun, all the time. */
  lemma {:induction false} CurrentAlong(s: State, steps: seq<Step>, t: int)
    requires Inv(s) && IsActive(Run(s, steps).txns, t)
    ensures Current(s.txns, t)
  {
    if t < s.txns.nextTxid {
      FinishedStays(s, steps, t);
      ListedIff(s.txns, t);
    }
  }

  lemma {:induction false} HarmlessBefore(open: OpenState, steps: seq<Step>, t: int, k: Bytes)
    requires AllHarmless(open, steps, t, k) && steps != []
    ensures AllHarmless(open, steps[..|steps| - 1], t, k)
  {
    var n := |steps| - 1;
    forall i | 0 <= i < n ensures Harmless(open, steps[..n], i, t, k) {
      assert steps[..n][..i] == steps[..i];
      assert Harmless(open, steps, i, t, k);
    }
  }

  lemma {:induction false} DisciplinedBefore(steps: seq<Step>, n: nat)
    requires Disciplined(steps) && n <= |steps|
    ensures Disciplined(steps[..n])
  {
    forall i, j, c | 0 <= i < j < n && steps[..n][i] == Rollback(c) ensures steps[..n][j] != Commit(c) {
      assert steps[i] == Rollback(c) && steps[j] == steps[..n][j];
    }
  }

  /** `rest` leads from the run so far to a state in which t is unfinished. */
  lemma {:induction false} WritesAreRecorded(open: OpenState, steps: seq<Step>, rest: seq<Step>, t: int, k: Bytes)
    requires Disciplined(steps) && AllHarmless(open, steps, t, k)
    requires IsActive(Run(Run(open, steps), rest).txns, t)
    ensures Recorded(Writes(open, steps, k), Run(open, steps), k, t)
  {
    if steps != [] {
      var n := |steps| - 1;
      var s := Run(open, steps[..n]);
      EveryRunIsOk(open, steps[..n]);
      DisciplinedBefore(steps, n);
      HarmlessBefore(open, steps, t, k);
      RunOne(s, steps[n]);
      RunSplit(s, [steps[n]], rest);
      WritesAreRecorded(open, steps[..n], [steps[n]] + rest, t, k);
      CurrentAlong(s, [steps[n]] + rest, t);
      OrderlyAt(open, steps, n);
      assert Harmless(open, steps, n, t, k);
      RecordedStep(Writes(open, steps[..n], k), s, steps[n], k, t);
    } else {
      OpenedIsOk(open);
      SameIsTwin(ChainOf(open, k), open.txns, t);
    }
  }

  ghost predicate HaveBegun(writes: seq<Version>, l: Txns) {
    forall i :: 0 <= i < |writes| ==> writes[i].deleted == 0 && 1 <= writes[i].created < l.nextTxid
  }

  lemma {:induction false} LastAllowedIsSeen(open: OpenState, steps: seq<Step>, writes: seq<Version>, t: int)
    requires HaveBegun(writes, Run(open, steps).txns)
    ensures LastVisible(writes, t, Run(open, steps).txns.active) == LastAllowed(open, steps, writes, t)
  {
    if writes != [] {
      var n := |writes| - 1;
      if writes[n].created < open.txns.nextTxid {
        EarlierIsUnlisted(open, steps, writes[n].created);
      } else {
        UnlistedIsCommitted(open, steps, writes[n].created);
      }
      LastAllowedIsSeen(open, steps, writes[..n], t);
    }
  }

  lemma {:induction false} WritersHaveBegun(open: OpenState, steps: seq<Step>, k: Bytes)
    ensures HaveBegun(Writes(open, steps, k), Run(open, steps).txns)
  {
    if steps != [] {
      var n := |steps| - 1;
      var s := Run(open, steps[..n]);
      var l := Next(s, steps[n]).txns;
      EveryRunIsOk(open, steps[..n]);
      WritersHaveBegun(open, steps[..n], k);
      ListAfter(s, steps[n], 0);
      var earlier, w := Writes(open, steps[..n], k), WrittenBy(s, steps[n], k);
      OneVersion(s, steps[n], k);
      assert HaveBegun(w, l);
      assert HaveBegun(earlier + w, l);
    }
  }

  /**
   * In a disciplined run whose collections of k were harmless, a read of k by an unfinished transaction
   * returns the last of all successful writes to k that are its own or were committed by a lower id.
   */
  lemma {:induction false} ReadIsLastWrite(open: OpenState, steps: seq<Step>, t: int, k: Bytes)
    requires Disciplined(steps) && AllHarmless(open, steps, t, k)
    requires KeyFits(k) && IsActive(Run(open, steps).txns, t)
    ensures Read(Run(open, steps), t, k) == ValueOf(LastAllowed(open, steps, Writes(open, steps, k), t))
  {
    var s, writes := Run(open, steps), Writes(open, steps, k);
    EveryRunIsOk(open, steps);
    assert Run(s, []) == s;
    WritesAreRecorded(open, steps, [], t, k);
    WritersHaveBegun(open, steps, k);
    LastAllowedIsSeen(open, steps, writes, t);
    ListedIff(s.txns, t);
    TwinsShow(writes, ChainOf(s, k), s.txns, t);
  }

  lemma {:induction false} ChainIsWrites(open: OpenState, steps: seq<Step>, k: Bytes)
    requires forall i :: 0 <= i < |steps| ==> !steps[i].Collect?
    ensures var s := Run(open, steps);
            Writes(open, steps, k) == ChainOf(s, k)
  {
    if steps != [] {
      var n := |steps| - 1;
      ChainIsWrites(open, steps[..n], k);
      StepAppends(Run(open, steps[..n]), steps[n], k);
    }
  }

  /** Without collections nothing more is needed, not even discipline. */
  lemma {:induction false} ReadWithoutCollections(open: OpenState, steps: seq<Step>, t: int, k: Bytes)
    requires forall i :: 0 <= i < |steps| ==> !steps[i].Collect?
    requires KeyFits(k) && IsActive(Run(open, steps).txns, t)
    ensures Read(Run(open, steps), t, k) == ValueOf(LastAllowed(open, steps, Writes(open, steps, k), t))
  {
    ChainIsWrites(open, steps, k);
    WritersHaveBegun(open, steps, k);
    LastAllowedIsSeen(open, steps, Writes(open, steps, k), t);
  }
}
