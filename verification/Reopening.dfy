/**
 * Closing a database cleanly and opening it again. The pages stay as they are; the active list, which
 * alone hides what was rolled back or not finished, does not.
 */
module Reopening {
  import opened ByteStrings
  import opened VersionChain
  import opened LockTable
  import opened TxnList
  import opened Mvcc
  import opened Isolation
  import opened Collection
  import opened CollectionRuns
  import opened Views
  import opened Sequences
  import ChainPage
  import WriteLog

  // ---------- the log ----------

  /** The step is a deletion that gets as far as the log, which it does before it looks for room. */
  predicate LogsDelete(s: State, step: Step) {
    step.Delete? && !DeleteRefused(s, step.txn, step.key) && step.key in s.chains
  }

  /** A commit is logged whether or not it reaches anything. */
  predicate CommitLogged(steps: seq<Step>, c: int) {
    Commit(c) in steps
  }

  /**
   * What opening finds to replay after a session that began with an empty log: the deletions of
   * `upTo` that are by transactions for which `steps` log a commit. Updates are passed over, since their
   * keys are in the tree.
   */
  function Replays(open: State, upTo: seq<Step>, steps: seq<Step>): seq<(int, Bytes)> {
    if upTo == [] then []
    else
      var n := |upTo| - 1;
      Replays(open, upTo[..n], steps)
      + if LogsDelete(Run(open, upTo[..n]), upTo[n]) && CommitLogged(steps, upTo[n].txn) then [(upTo[n].txn, upTo[n].key)] else []
  }

  /** The deletions replayed one by one: a tombstone each, if the key's page has room for one more. */
  function Replayed(chains: map<Bytes, seq<Version>>, log: seq<(int, Bytes)>, size: nat): map<Bytes, seq<Version>> {
    if log == [] then chains
    else
      var n := |log| - 1;
      var c, k := Replayed(chains, log[..n], size), log[n].1;
      if k in c && ChainPage.TakesTombstone(c[k], size) then c[k := c[k] + [Version(log[n].0, 0, true, [])]] else c
  }

  lemma {:induction false} ReplayedMore(chains: map<Bytes, seq<Version>>, log: seq<(int, Bytes)>, i: nat, size: nat)
    requires i < |log|
    ensures var c, k := Replayed(chains, log[..i], size), log[i].1;
            Replayed(chains, log[..i + 1], size) ==
            if k in c && ChainPage.TakesTombstone(c[k], size) then c[k := c[k] + [Version(log[i].0, 0, true, [])]] else c
  {
    assert log[..i + 1][..i] == log[..i];
  }

  /** The database as the next session finds it, on pages of this size. */
  function Reopened(s: State, log: seq<(int, Bytes)>, size: nat): State {
    State(Txns(s.txns.nextTxid, s.txns.maxTxns, [], []), [], Replayed(s.chains, log, size))
  }

  /** The tombstones that the log asks for at k. */
  function TombstonesOf(log: seq<(int, Bytes)>, k: Bytes): seq<Version> {
    if log == [] then []
    else
      var n := |log| - 1;
      TombstonesOf(log[..n], k) + if log[n].1 == k then [Version(log[n].0, 0, true, [])] else []
  }

  predicate Mentions(log: seq<(int, Bytes)>, k: Bytes) {
    exists i :: 0 <= i < |log| && log[i].1 == k
  }

  ghost predicate ByOlder(log: seq<(int, Bytes)>, next: int) {
    forall i :: 0 <= i < |log| ==> 1 <= log[i].0 < next
  }

  lemma {:induction false} TombstonesAre(log: seq<(int, Bytes)>, k: Bytes)
    ensures TombstonesOf(log, k) != [] <==> Mentions(log, k)
    ensures forall v :: v in TombstonesOf(log, k) ==> v.tombstone && v.deleted == 0 && v.value == []
    ensures forall v :: v in TombstonesOf(log, k) ==> exists i :: 0 <= i < |log| && log[i].0 == v.created
  {
    if log != [] {
      var n := |log| - 1;
      var front := log[..n];
      TombstonesAre(front, k);
      forall v | v in TombstonesOf(log, k)
        ensures v.tombstone && v.deleted == 0 && v.value == [] && exists i :: 0 <= i < |log| && log[i].0 == v.created
      {
        if v in TombstonesOf(front, k) {
          var i :| 0 <= i < |front| && front[i].0 == v.created;
          assert log[i].0 == v.created;
        } else {
          assert log[n].0 == v.created;
        }
      }
      if Mentions(front, k) {
        var i :| 0 <= i < |front| && front[i].1 == k;
        assert log[i].1 == k;
      }
    }
  }

  /** How many of them find room. */
  function Appended(chain: seq<Version>, log: seq<(int, Bytes)>, size: nat, k: Bytes): (n: nat)
    ensures n <= |TombstonesOf(log, k)|
  {
    Min(|TombstonesOf(log, k)|, ChainPage.Spare(chain, size))
  }

  /** Replaying appends to each chain the first tombstones for its key, as many as its page takes, and nothing else. */
  lemma {:induction false} ReplayedExactly(chains: map<Bytes, seq<Version>>, log: seq<(int, Bytes)>, size: nat, k: Bytes)
    requires 512 <= size
    ensures var c := Replayed(chains, log, size);
            && (k in c <==> k in chains)
            && (k in chains ==> c[k] == chains[k] + TombstonesOf(log, k)[..Appended(chains[k], log, size, k)])
  {
    if log == [] {
      assert k in chains ==> chains[k] + [] == chains[k];
    } else {
      var n := |log| - 1;
      var front := log[..n];
      ReplayedExactly(chains, front, size, k);
      if k in chains && log[n].1 == k {
        var had, m := TombstonesOf(front, k), Appended(chains[k], front, size, k);
        TombstonesAre(front, k);
        ChainPage.SpareIsExact(chains[k], had[..m], size);
        OneMoreTombstone(chains[k], had, m, Version(log[n].0, 0, true, []));
      } else {
        assert TombstonesOf(front, k) + [] == TombstonesOf(front, k);
      }
    }
  }

  lemma {:induction false} OneMoreTombstone(chain: seq<Version>, had: seq<Version>, m: nat, v: Version)
    requires m <= |had|
    ensures m == |had| ==> chain + had[..m] + [v] == chain + (had + [v])[..m + 1]
    ensures chain + had[..m] == chain + (had + [v])[..m]
  {
  }

  /** So every result about runs holds of the next session too. */
  lemma {:induction false} ReopenedIsOpen(s: State, log: seq<(int, Bytes)>, size: nat)
    requires Inv(s) && ByOlder(log, s.txns.nextTxid) && 512 <= size
    ensures Opened(Reopened(s, log, size))
  {
    var c := Replayed(s.chains, log, size);
    forall k | k in c ensures NoDeleter(c[k]) && forall i :: 0 <= i < |c[k]| ==> 1 <= c[k][i].created < s.txns.nextTxid {
      ReplayedExactly(s.chains, log, size, k);
      TombstonesAre(log, k);
      assert ChainOk(s.chains[k], s, k);
      OldWithTombstones(s.chains[k], TombstonesOf(log, k), Appended(s.chains[k], log, size, k), log, s.txns.nextTxid);
    }
  }

  lemma {:induction false} OldWithTombstones(chain: seq<Version>, tombs: seq<Version>, n: nat, log: seq<(int, Bytes)>, next: int)
    requires NoDeleter(chain) && ByOlder(log, next) && n <= |tombs| && forall i :: 0 <= i < |chain| ==> 1 <= chain[i].created < next
    requires forall v :: v in tombs ==> v.deleted == 0 && exists i :: 0 <= i < |log| && log[i].0 == v.created
    ensures var r := chain + tombs[..n]; NoDeleter(r) && forall i :: 0 <= i < |r| ==> 1 <= r[i].created < next
  {
    forall v | v in tombs ensures v.deleted == 0 && 1 <= v.created < next {
      var i :| 0 <= i < |log| && log[i].0 == v.created;
    }
  }

  // ---------- what the next session reads ----------

  /** The newest of all versions, whoever made it. */
  function Latest(chain: seq<Version>): Option<Version> {
    if chain == [] then None else Some(chain[|chain| - 1])
  }

  /** What the next transaction to begin reads at k. */
  function NextRead(s: State, k: Bytes): Option<Bytes> {
    Read(Next(s, Begin), s.txns.nextTxid, k)
  }

  lemma {:induction false} FirstBegins(open: OpenState)
    requires open.txns.maxTxns > 0
    ensures var t, s := open.txns.nextTxid, Next(open, Begin);
            IsActive(s.txns, t) && s.chains == open.chains && s.txns.active == [t]
  {
    var t := open.txns.nextTxid;
    OpenedIsOk(open);
    BeginKeeps(open.txns, t);
    assert [] + [t] == [t];
  }

  lemma {:induction false} FirstReads(open: OpenState, k: Bytes)
    requires open.txns.maxTxns > 0 && k in open.chains
    ensures var t, s := open.txns.nextTxid, Next(open, Begin);
            IsActive(s.txns, t) && s.chains == open.chains && View(s, t, k) == Latest(open.chains[k])
  {
    var t, chain := open.txns.nextTxid, open.chains[k];
    FirstBegins(open);
    if chain != [] {
      assert Sees(chain[|chain| - 1], t, [t]);
      SeenAtTheEnd(chain, t, [t]);
    }
  }

  /**
   * After reopening, the first transaction reads nothing where a deletion was replayed and the page had room
   * for one tombstone, however often the key was set since; and otherwise the newest version in the page,
   * discarded or unfinished as its creator may be.
   */
  lemma {:induction false} ReopeningShows(s: State, log: seq<(int, Bytes)>, size: nat, k: Bytes)
    requires Inv(s) && ByOlder(log, s.txns.nextTxid) && 512 <= size
    requires s.txns.maxTxns > 0 && KeyFits(k) && k in s.chains
    ensures NextRead(Reopened(s, log, size), k) ==
            if Buried(s, log, size, k) then None else ValueOf(Latest(s.chains[k]))
  {
    ReopenedIsOpen(s, log, size);
    ReplayedEnds(s.chains, log, size, k);
    FirstReads(Reopened(s, log, size), k);
  }

  /** A tombstone for k is appended. */
  predicate Buried(s: State, log: seq<(int, Bytes)>, size: nat, k: Bytes)
    requires k in s.chains
  {
    Mentions(log, k) && ChainPage.TakesTombstone(s.chains[k], size)
  }

  lemma {:induction false} ReplayedEnds(chains: map<Bytes, seq<Version>>, log: seq<(int, Bytes)>, size: nat, k: Bytes)
    requires k in chains && 512 <= size
    ensures var c := Replayed(chains, log, size);
            k in c && if Mentions(log, k) && ChainPage.TakesTombstone(chains[k], size) then c[k] != [] && c[k][|c[k]| - 1].tombstone
                      else c[k] == chains[k]
  {
    var tombs, n := TombstonesOf(log, k), Appended(chains[k], log, size, k);
    ReplayedExactly(chains, log, size, k);
    TombstonesAre(log, k);
    ChainPage.SpareIsExact(chains[k], [], size);
    assert chains[k] + [] == chains[k];
    if n > 0 {
      assert tombs[n - 1] in tombs;
      assert (chains[k] + tombs[..n])[|chains[k]| + n - 1] == tombs[n - 1];
    } else {
      assert tombs[..n] == [];
    }
  }

  /**
   * With no tombstone appended for k, the next transaction is shown the same version as without the
   * reopening exactly when the newest one is by a transaction off the active list, or there is none.
   */
  lemma {:induction false} ReopeningExactly(s: State, log: seq<(int, Bytes)>, size: nat, k: Bytes)
    requires Inv(s) && CanBegin(s.txns) && ByOlder(log, s.txns.nextTxid) && 512 <= size
    requires k in s.chains && !Buried(s, log, size, k)
    ensures var t, chain := s.txns.nextTxid, s.chains[k];
            View(Next(Reopened(s, log, size), Begin), t, k) == View(Next(s, Begin), t, k) <==>
            chain == [] || chain[|chain| - 1].created !in s.txns.active
  {
    var t, chain := s.txns.nextTxid, s.chains[k];
    ReopenedIsOpen(s, log, size);
    ReplayedEnds(s.chains, log, size, k);
    FirstReads(Reopened(s, log, size), k);
    BeginKeeps(s.txns, t);
    assert ChainOk(chain, s, k);
    LatestIsShown(chain, t, s.txns.active);
  }

  lemma {:induction false} LatestIsShown(chain: seq<Version>, t: int, active: seq<int>)
    requires NoDeleter(chain) && forall i :: 0 <= i < |chain| ==> chain[i].created < t
    ensures LastVisible(chain, t, active + [t]) == Latest(chain) <==> chain == [] || chain[|chain| - 1].created !in active
  {
    if chain != [] {
      var last := chain[|chain| - 1];
      assert last.created in active + [t] <==> last.created in active;
      LastVisibleIsNewest(chain, t, active + [t]);
    }
  }

  // ---------- whole sessions ----------

  lemma {:induction false} ReplaysAreOlder(open: OpenState, upTo: seq<Step>, steps: seq<Step>)
    ensures ByOlder(Replays(open, upTo, steps), Run(open, upTo).txns.nextTxid)
  {
    if upTo != [] {
      var n := |upTo| - 1;
      var s := Run(open, upTo[..n]);
      ReplaysAreOlder(open, upTo[..n], steps);
      EveryRunIsOk(open, upTo[..n]);
      ListAfter(s, upTo[n], 0);
      if LogsDelete(s, upTo[n]) {
        ListedIff(s.txns, upTo[n].txn);
      }
    }
  }

  /** The database after a session that began with an empty log and was closed, on pages of this size. */
  function NextSession(open: State, steps: seq<Step>, size: nat): State {
    Reopened(Run(open, steps), Replays(open, steps, steps), size)
  }

  /** The next session starts from a state that all results about runs allow. */
  lemma {:induction false} NextSessionIsOpen(open: OpenState, steps: seq<Step>, size: nat)
    requires 512 <= size
    ensures Opened(NextSession(open, steps, size))
  {
    EveryRunIsOk(open, steps);
    ReplaysAreOlder(open, steps, steps);
    ReopenedIsOpen(Run(open, steps), Replays(open, steps, steps), size);
  }

  /** The step gets a deletion of k into the log, and the log also has its transaction's commit. */
  predicate Deletes(s: State, step: Step, steps: seq<Step>, k: Bytes) {
    LogsDelete(s, step) && step.key == k && CommitLogged(steps, step.txn)
  }

  predicate DeletesAt(open: State, upTo: seq<Step>, i: int, steps: seq<Step>, k: Bytes) {
    0 <= i < |upTo| && Deletes(Run(open, upTo[..i]), upTo[i], steps, k)
  }

  ghost predicate DeletedIn(open: State, upTo: seq<Step>, steps: seq<Step>, k: Bytes) {
    exists i :: DeletesAt(open, upTo, i, steps, k)
  }

  lemma {:induction false} DeletedSoFar(open: State, upTo: seq<Step>, steps: seq<Step>, k: Bytes)
    requires upTo != []
    ensures var n := |upTo| - 1;
            DeletedIn(open, upTo, steps, k) <==> DeletedIn(open, upTo[..n], steps, k) || Deletes(Run(open, upTo[..n]), upTo[n], steps, k)
  {
    var n := |upTo| - 1;
    if i :| DeletesAt(open, upTo, i, steps, k) {
      assert i < n ==> upTo[..n][..i] == upTo[..i] && DeletesAt(open, upTo[..n], i, steps, k);
    }
    if i :| DeletesAt(open, upTo[..n], i, steps, k) {
      assert upTo[..n][..i] == upTo[..i];
      assert DeletesAt(open, upTo, i, steps, k);
    }
    assert Deletes(Run(open, upTo[..n]), upTo[n], steps, k) ==> DeletesAt(open, upTo, n, steps, k);
  }

  lemma {:induction false} ReplaysAre(open: State, upTo: seq<Step>, steps: seq<Step>, k: Bytes)
    ensures Mentions(Replays(open, upTo, steps), k) <==> DeletedIn(open, upTo, steps, k)
  {
    if upTo != [] {
      var n := |upTo| - 1;
      ReplaysAre(open, upTo[..n], steps, k);
      DeletedSoFar(open, upTo, steps, k);
      MentionsMore(Replays(open, upTo[..n], steps), Replays(open, upTo, steps), k);
    }
  }

  lemma {:induction false} MentionsMore(log: seq<(int, Bytes)>, more: seq<(int, Bytes)>, k: Bytes)
    requires log <= more && |more| <= |log| + 1
    ensures Mentions(more, k) <==> Mentions(log, k) || (|more| > |log| && more[|log|].1 == k)
  {
    if Mentions(log, k) {
      var i :| 0 <= i < |log| && log[i].1 == k;
      assert more[i].1 == k;
    }
  }

  /**
   * The first transaction of the next session reads nothing at a key that was ever deleted by a transaction
   * whose commit is logged, if its page took a tombstone at the end; otherwise the newest version, whoever made it.
   */
  lemma {:induction false} NextSessionReads(open: OpenState, steps: seq<Step>, size: nat, k: Bytes)
    requires open.txns.maxTxns > 0 && 512 <= size && KeyFits(k) && k in Run(open, steps).chains
    ensures var chain := Run(open, steps).chains[k];
            NextRead(NextSession(open, steps, size), k) ==
            if DeletedIn(open, steps, steps, k) && ChainPage.TakesTombstone(chain, size) then None else ValueOf(Latest(chain))
  {
    EveryRunIsOk(open, steps);
    MaxStays(open, steps);
    ReplaysAreOlder(open, steps, steps);
    ReplaysAre(open, steps, steps, k);
    ReopeningShows(Run(open, steps), Replays(open, steps, steps), size, k);
  }

  // ---------- the records of a session ----------

  /** What of a step a replay looks at. */
  function LoggedBy(s: State, step: Step): seq<WriteLog.Record> {
    if LogsDelete(s, step) then [WriteLog.Deletion(step.txn, step.key)]
    else if step.Commit? then [WriteLog.Committed(step.txn)]
    else []
  }

  function Logged(open: State, steps: seq<Step>): seq<WriteLog.Record> {
    if steps == [] then []
    else
      var n := |steps| - 1;
      Logged(open, steps[..n]) + LoggedBy(Run(open, steps[..n]), steps[n])
  }

  lemma {:induction false} LoggedMore(open: State, steps: seq<Step>, step: Step)
    ensures Logged(open, steps + [step]) == Logged(open, steps) + LoggedBy(Run(open, steps), step)
  {
    assert (steps + [step])[..|steps|] == steps;
  }

  lemma {:induction false} CommitIsLogged(open: State, steps: seq<Step>, c: int)
    ensures WriteLog.Committed(c) in Logged(open, steps) <==> CommitLogged(steps, c)
  {
    if steps != [] {
      var n := |steps| - 1;
      CommitIsLogged(open, steps[..n], c);
      assert steps == steps[..n] + [steps[n]];
    }
  }

  /** The records of a session's steps make opening replay just the deletions that its steps logged. */
  lemma {:induction false} LogReplays(open: State, upTo: seq<Step>, steps: seq<Step>)
    ensures WriteLog.ToReplay(Logged(open, upTo), Logged(open, steps)) == Replays(open, upTo, steps)
  {
    if upTo != [] {
      var n := |upTo| - 1;
      var before, all, r := Logged(open, upTo[..n]), Logged(open, steps), LoggedBy(Run(open, upTo[..n]), upTo[n]);
      LogReplays(open, upTo[..n], steps);
      LogReplaysStep(before, all, r, Run(open, upTo[..n]), upTo[n], open, steps);
    }
  }

  lemma {:induction false} LogReplaysStep(before: seq<WriteLog.Record>, all: seq<WriteLog.Record>, r: seq<WriteLog.Record>, s: State, step: Step,
                                          open: State, steps: seq<Step>)
    requires all == Logged(open, steps) && r == LoggedBy(s, step)
    ensures WriteLog.ToReplay(before + r, all) == WriteLog.ToReplay(before, all)
            + if LogsDelete(s, step) && CommitLogged(steps, step.txn) then [(step.txn, step.key)] else []
  {
    if r == [] {
      assert before + r == before;
    } else {
      assert r == [r[0]];
      CommitIsLogged(open, steps, r[0].txn);
      WriteLog.ToReplayMore(before, r[0], all);
    }
  }

  // ---------- reachable examples ----------

  /** The database on which a collection loses a value is the one that a single write leaves behind. */
  lemma {:induction false} HoldingIsReached(k: Bytes, o: Bytes, size: nat)
    requires KeyFits(k)
    ensures NextSession(Start(2), [Begin, Set(1, k, o, true, true), Commit(1)], size) == Holding(2, 1, k, o)
  {
    var a, b, c := Begin, Set(1, k, o, true, true), Commit(1);
    FirstWrite(k, o);
    HolderCommits(k, [Version(1, 0, false, o)]);
    RunTwo(Start(2), a, b);
    RunMore(Start(2), [a, b], c);
    assert [a, b] + [c] == [a, b, c];
    NothingToReplay(Start(2), [a, b, c], [a, b, c]);
  }

  lemma {:induction false} NothingToReplay(open: OpenState, upTo: seq<Step>, steps: seq<Step>)
    requires forall i :: 0 <= i < |upTo| ==> !upTo[i].Delete?
    ensures Replays(open, upTo, steps) == []
  {
    if upTo != [] {
      NothingToReplay(open, upTo[..|upTo| - 1], steps);
    }
  }

  /** Transaction 1 writes k and is rolled back. */
  function Discarded(k: Bytes, v: Bytes): seq<Step> {
    OneWrote(k, v) + [Rollback(1)]
  }

  /** A write that was rolled back is hidden until the database is closed and opened again. */
  lemma {:induction false} DiscardedReturns(k: Bytes, v: Bytes, size: nat)
    requires KeyFits(k) && 512 <= size
    ensures Read(Run(Start(2), Discarded(k, v)), 2, k) == None
    ensures NextRead(NextSession(Start(2), Discarded(k, v), size), k) == Some(v)
  {
    DiscardedIsShown(k, v);
    DiscardedLater(k, v, size);
  }

  lemma {:induction false} DiscardedLater(k: Bytes, v: Bytes, size: nat)
    requires KeyFits(k) && 512 <= size
    ensures NextRead(NextSession(Start(2), Discarded(k, v), size), k) == Some(v)
  {
    OneWroteState(k, v);
    ComesBack(Start(2), OneWrote(k, v), size, 1, k, Version(1, 0, false, v));
  }

  /** Rolling back does nothing against the newest version being shown after reopening. */
  lemma {:induction false} ComesBack(open: OpenState, steps: seq<Step>, size: nat, t: int, k: Bytes, x: Version)
    requires open.txns.maxTxns > 0 && 512 <= size && KeyFits(k) && forall i :: 0 <= i < |steps| ==> !steps[i].Delete?
    requires k in Run(open, steps).chains && Run(open, steps).chains[k] == [x]
    ensures NextRead(NextSession(open, steps + [Rollback(t)], size), k) == ValueOf(Some(x))
  {
    RunMore(open, steps, Rollback(t));
    NextSessionReads(open, steps + [Rollback(t)], size, k);
  }

  /** One transaction sets k, deletes it, sets it again and commits. */
  function SetAgain(k: Bytes, v: Bytes, w: Bytes): seq<Step> {
    [Begin, Set(1, k, v, true, true), Delete(1, k, true), Set(1, k, w, true, true), Commit(1)]
  }

  /** Transaction 1 runs alone and holds k, whose chain is c. */
  function OneHolds(k: Bytes, c: seq<Version>): State {
    State(Txns(2, 2, [1], [Info(1, ACTIVE)]), [Lock(1, k, true)], map[k := c])
  }

  lemma {:induction false} HolderWrites(k: Bytes, c: seq<Version>, v: Bytes)
    requires KeyFits(k)
    ensures Next(OneHolds(k, c), Set(1, k, v, true, true)) == OneHolds(k, c + [Version(1, 0, false, v)])
    ensures Next(OneHolds(k, c), Delete(1, k, true)) == OneHolds(k, c + [Version(1, 0, true, [])])
    ensures LogsDelete(OneHolds(k, c), Delete(1, k, true))
  {
    var s := OneHolds(k, c);
    assert SlotOf([1], 1) == 0;
    assert s.locks[0] == Lock(1, k, true);
    assert LockTable.Holds(s.locks, 1, k);
  }

  lemma {:induction false} FirstWrite(k: Bytes, v: Bytes)
    requires KeyFits(k)
    ensures Next(Next(Start(2), Begin), Set(1, k, v, true, true)) == OneHolds(k, [Version(1, 0, false, v)])
  {
    var s := Next(Start(2), Begin);
    assert s == State(Txns(2, 2, [1], [Info(1, ACTIVE)]), [], map[]);
    assert SlotOf([1], 1) == 0;
    UncontestedSet(s, 1, k, v);
    assert [] + [Version(1, 0, false, v)] == [Version(1, 0, false, v)];
  }

  lemma {:induction false} HolderCommits(k: Bytes, c: seq<Version>)
    ensures Next(OneHolds(k, c), Commit(1)) == State(Txns(2, 2, [], []), [], map[k := c])
  {
    assert SlotOf([1], 1) == 0;
    assert [Lock(1, k, true)][1..] == [] && Released([Lock(1, k, true)], 1) == [];
  }

  lemma {:induction false} SetAgainState(k: Bytes, v: Bytes, w: Bytes)
    requires KeyFits(k)
    ensures Run(Start(2), SetAgain(k, v, w)) ==
            State(Txns(2, 2, [], []), [], map[k := [Version(1, 0, false, v), Version(1, 0, true, []), Version(1, 0, false, w)]])
    ensures DeletedIn(Start(2), SetAgain(k, v, w), SetAgain(k, v, w), k)
  {
    var steps := SetAgain(k, v, w);
    var x, y, z := Version(1, 0, false, v), Version(1, 0, true, []), Version(1, 0, false, w);
    FirstWrite(k, v);
    HolderWrites(k, [x], v);
    HolderWrites(k, [x] + [y], w);
    assert [x] + [y] + [z] == [x, y, z];
    HolderCommits(k, [x, y, z]);
    RunFive(Start(2), steps[0], steps[1], steps[2], steps[3], steps[4]);
    DeleteIsThird(k, v, w);
  }

  lemma {:induction false} DeleteIsThird(k: Bytes, v: Bytes, w: Bytes)
    requires KeyFits(k)
    ensures DeletedIn(Start(2), SetAgain(k, v, w), SetAgain(k, v, w), k)
  {
    var steps := SetAgain(k, v, w);
    assert steps[..2] == [steps[0], steps[1]];
    RunTwo(Start(2), steps[0], steps[1]);
    FirstWrite(k, v);
    HolderWrites(k, [Version(1, 0, false, v)], w);
    assert steps[4] == Commit(1);
    assert DeletesAt(Start(2), steps, 2, steps, k);
  }

  /** What a run needs for its last value to get lost. */
  ghost predicate Loses(open: OpenState, steps: seq<Step>, size: nat, k: Bytes, last: Version) {
    && DeletedIn(open, steps, steps, k) && Opened(Run(open, steps)) && Run(open, steps).txns.maxTxns > 0
    && k in Run(open, steps).chains && Latest(Run(open, steps).chains[k]) == Some(last)
    && ChainPage.TakesTombstone(Run(open, steps).chains[k], size)
  }

  lemma {:induction false} SetAgainLoses(k: Bytes, v: Bytes, w: Bytes, size: nat)
    requires KeyFits(k) && 512 <= size && |v| + |w| <= 256
    ensures Loses(Start(2), SetAgain(k, v, w), size, k, Version(1, 0, false, w))
  {
    SetAgainState(k, v, w);
    ShortChainHasRoom(size, v, w);
  }

  /** Up to 256 bytes of values leave room for a tombstone on every page. */
  lemma {:induction false} ShortChainHasRoom(size: nat, v: Bytes, w: Bytes)
    requires 512 <= size && |v| + |w| <= 256
    ensures ChainPage.TakesTombstone([Version(1, 0, false, v), Version(1, 0, true, []), Version(1, 0, false, w)], size)
  {
    var x, y, z := Version(1, 0, false, v), Version(1, 0, true, []), Version(1, 0, false, w);
    assert [x, y, z][..2] == [x, y] && [x, y][..1] == [x] && [x][..0] == [];
    assert ChainPage.SpaceOf([x], size) == ChainPage.EntrySize(size, |v|);
    assert ChainPage.SpaceOf([x, y], size) == ChainPage.EntrySize(size, |v|) + ChainPage.ENTRY_HEADER;
  }

  /** A value that was set after a deletion is gone once the database is closed and opened again. */
  lemma {:induction false} SetAgainIsLost(k: Bytes, v: Bytes, w: Bytes, size: nat)
    requires KeyFits(k) && 512 <= size && |v| + |w| <= 256
    ensures NextRead(Run(Start(2), SetAgain(k, v, w)), k) == Some(w)
    ensures NextRead(NextSession(Start(2), SetAgain(k, v, w), size), k) == None
  {
    SetAgainLoses(k, v, w, size);
    GoesAway(Start(2), SetAgain(k, v, w), size, k, Version(1, 0, false, w));
  }

  lemma {:induction false} GoesAway(open: OpenState, steps: seq<Step>, size: nat, k: Bytes, last: Version)
    requires open.txns.maxTxns > 0 && 512 <= size && KeyFits(k) && Loses(open, steps, size, k, last)
    ensures NextRead(Run(open, steps), k) == ValueOf(Some(last)) && NextRead(NextSession(open, steps, size), k) == None
  {
    NextSessionReads(open, steps, size, k);
    NothingListed(Run(open, steps), k);
  }

  lemma {:induction false} NothingListed(s: OpenState, k: Bytes)
    requires s.txns.maxTxns > 0 && k in s.chains && KeyFits(k)
    ensures NextRead(s, k) == ValueOf(Latest(s.chains[k]))
  {
    FirstReads(s, k);
  }
}
