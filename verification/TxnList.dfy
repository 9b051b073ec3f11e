/**
 * The list of transactions. Committed ones leave it; rolled-back ones stay, so that
 * their writes remain hidden, but no longer count towards the limit.
 */
module TxnList {
  import opened Sequences

  datatype TxnState = ACTIVE | ROLLED_BACK

  datatype Info = Info(txid: int, state: TxnState)

  /** `infos` runs parallel to `active`. */
  datatype Txns = Txns(nextTxid: int, maxTxns: nat, active: seq<int>, infos: seq<Info>)

  function SlotOf(active: seq<int>, t: int): (r: int)
    ensures -1 <= r < |active|
    ensures r < 0 ==> t !in active
    ensures r >= 0 ==> active[r] == t && t !in active[..r]
  {
    if active == [] then -1
    else if active[0] == t then 0
    else var r := SlotOf(active[1..], t); if r < 0 then -1 else r + 1
  }

  predicate IsActive(l: Txns, t: int) {
    var i := SlotOf(l.active, t);
    0 <= i < |l.infos| && l.infos[i].state != ROLLED_BACK
  }

  /** Transactions that count towards the limit. */
  function LiveCount(infos: seq<Info>): nat {
    if infos == [] then 0 else (if infos[0].state != ROLLED_BACK then 1 else 0) + LiveCount(infos[1..])
  }

  predicate CanBegin(l: Txns) {
    LiveCount(l.infos) < l.maxTxns && |l.active| < l.maxTxns * 64
  }

  function Begun(l: Txns): Txns {
    if !CanBegin(l) then l
    else Txns(l.nextTxid + 1, l.maxTxns, l.active + [l.nextTxid], l.infos + [Info(l.nextTxid, ACTIVE)])
  }

  function Committed(l: Txns, t: int): Txns {
    var i := SlotOf(l.active, t);
    if i < 0 || i >= |l.infos| then l else l.(active := RemoveAt(l.active, i), infos := RemoveAt(l.infos, i))
  }

  function RolledBack(l: Txns, t: int): Txns {
    var i := SlotOf(l.active, t);
    if i < 0 || i >= |l.infos| then l else l.(infos := l.infos[i := l.infos[i].(state := ROLLED_BACK)])
  }

  // ---------- invariant ----------

  ghost predicate Increasing(a: seq<int>) {
    forall i, j :: 0 <= i < j < |a| ==> a[i] < a[j]
  }

  /** Aligned with the states, strictly increasing, ids already handed out, and within both limits. */
  ghost predicate ListOk(l: Txns) {
    && 1 <= l.nextTxid && |l.infos| == |l.active| && Increasing(l.active)
    && (forall i :: 0 <= i < |l.active| ==> l.infos[i].txid == l.active[i] && 1 <= l.active[i] < l.nextTxid)
    && LiveCount(l.infos) <= l.maxTxns && |l.active| <= 64 * l.maxTxns
  }

  lemma {:induction false} SlotInIncreasing(a: seq<int>, i: nat)
    requires Increasing(a) && i < |a|
    ensures SlotOf(a, a[i]) == i
  {
    var r := SlotOf(a, a[i]);
    assert a[i] in a;
  }

  lemma {:induction false} ListedIff(l: Txns, t: int)
    requires ListOk(l)
    ensures IsActive(l, t) <==> exists i :: 0 <= i < |l.active| && l.active[i] == t && l.infos[i].state != ROLLED_BACK
    ensures IsActive(l, t) ==> t in l.active && 1 <= t < l.nextTxid
  {
    if i :| 0 <= i < |l.active| && l.active[i] == t {
      SlotInIncreasing(l.active, i);
    }
  }

  lemma {:induction false} LiveCountConcat(a: seq<Info>, b: seq<Info>)
    ensures LiveCount(a + b) == LiveCount(a) + LiveCount(b)
  {
    if a == [] {
      assert a + b == b;
    } else {
      assert (a + b)[1..] == a[1..] + b;
      LiveCountConcat(a[1..], b);
    }
  }

  lemma {:induction false} LiveCountAt(a: seq<Info>, i: nat, x: Info)
    requires i < |a| && x.state == ROLLED_BACK
    ensures LiveCount(RemoveAt(a, i)) <= LiveCount(a)
    ensures LiveCount(a[i := x]) <= LiveCount(a)
  {
    assert a == a[..i] + ([a[i]] + a[i + 1..]);
    LiveCountConcat(a[..i], [a[i]] + a[i + 1..]);
    LiveCountConcat([a[i]], a[i + 1..]);
    LiveCountConcat(a[..i], a[i + 1..]);
    assert a[i := x] == a[..i] + ([x] + a[i + 1..]);
    LiveCountConcat(a[..i], [x] + a[i + 1..]);
    LiveCountConcat([x], a[i + 1..]);
  }

  lemma {:induction false} BeginKeepsList(l: Txns)
    requires ListOk(l)
    ensures ListOk(Begun(l))
  {
    if CanBegin(l) {
      LiveCountConcat(l.infos, [Info(l.nextTxid, ACTIVE)]);
      assert LiveCount([Info(l.nextTxid, ACTIVE)]) == 1;
    }
  }

  lemma {:induction false} SlotAppend(a: seq<int>, n: int, u: int)
    ensures SlotOf(a + [n], u) == if u in a then SlotOf(a, u) else if u == n then |a| else -1
  {
    if a != [] {
      assert (a + [n])[1..] == a[1..] + [n];
      SlotAppend(a[1..], n, u);
      assert a == [a[0]] + a[1..];
    }
  }

  /** Beginning adds exactly the next id as an unfinished transaction, unless a limit is reached. */
  lemma {:induction false} BeginKeeps(l: Txns, t: int)
    requires ListOk(l)
    ensures ListOk(Begun(l))
    ensures IsActive(Begun(l), t) <==> IsActive(l, t) || (CanBegin(l) && t == l.nextTxid)
    ensures t in Begun(l).active <==> t in l.active || (CanBegin(l) && t == l.nextTxid)
  {
    BeginKeepsList(l);
    if CanBegin(l) {
      SlotAppend(l.active, l.nextTxid, t);
    }
  }

  lemma {:induction false} CommitKeepsList(l: Txns, t: int)
    requires ListOk(l)
    ensures ListOk(Committed(l, t))
  {
    var i := SlotOf(l.active, t);
    if i >= 0 {
      LiveCountAt(l.infos, i, Info(0, ROLLED_BACK));
      RemovedAt(l.active, i);
      RemovedAt(l.infos, i);
    }
  }

  /** Where slot b is once slot i has gone. */
  lemma {:induction false} KeptSlot<T>(s: seq<T>, i: nat, b: nat)
    requires i < |s| && b < |s| && b != i
    ensures RemoveAt(s, i)[if b < i then b else b - 1] == s[b]
  {
  }

  lemma {:induction false} StillIncreasing(a: seq<int>, i: nat)
    requires Increasing(a) && i < |a|
    ensures Increasing(RemoveAt(a, i))
  {
    RemovedAt(a, i);
  }

  lemma {:induction false} WithoutSlot(a: seq<int>, i: nat, u: int)
    requires Increasing(a) && i < |a|
    ensures var b, c := SlotOf(a, u), SlotOf(RemoveAt(a, i), u);
            if u == a[i] then c < 0 else c == if b <= i then b else b - 1
  {
    var w, b := RemoveAt(a, i), SlotOf(a, u);
    SlotInIncreasing(a, i);
    StillIncreasing(a, i);
    RemovedAt(a, i);
    if b >= 0 && b != i {
      SlotInIncreasing(w, if b < i then b else b - 1);
    } else {
      forall j | 0 <= j < |w| ensures SlotOf(a, w[j]) == if j < i then j else j + 1 {
        SlotInIncreasing(a, if j < i then j else j + 1);
      }
    }
  }

  lemma {:induction false} WithoutMember(a: seq<int>, i: nat, u: int)
    requires Increasing(a) && i < |a|
    ensures u in RemoveAt(a, i) <==> u in a && u != a[i]
  {
    WithoutSlot(a, i, u);
  }

  lemma {:induction false} OthersStay(l: Txns, i: nat, u: int)
    requires Increasing(l.active) && |l.infos| == |l.active| && i < |l.active|
    ensures var b, c := SlotOf(l.active, u), SlotOf(RemoveAt(l.active, i), u);
            && (c >= 0 <==> b >= 0 && b != i)
            && (c >= 0 ==> RemoveAt(l.infos, i)[c] == l.infos[b])
  {
    WithoutSlot(l.active, i, u);
    var b := SlotOf(l.active, u);
    if b == i {
      assert u == l.active[i];
    } else if b >= 0 {
      KeptSlot(l.infos, i, b);
      SlotInIncreasing(l.active, i);
    }
  }

  lemma {:induction false} CommitUnfinished(l: Txns, t: int, u: int)
    requires Increasing(l.active) && |l.infos| == |l.active|
    ensures IsActive(Committed(l, t), u) <==> IsActive(l, u) && u != t
  {
    var i := SlotOf(l.active, t);
    if i >= 0 {
      OthersStay(l, i, u);
    }
  }

  /** Committing takes exactly that transaction off the list. */
  lemma {:induction false} CommitKeeps(l: Txns, t: int, u: int)
    requires ListOk(l)
    ensures ListOk(Committed(l, t))
    ensures IsActive(Committed(l, t), u) <==> IsActive(l, u) && u != t
    ensures u in Committed(l, t).active <==> u in l.active && u != t
  {
    CommitKeepsList(l, t);
    CommitUnfinished(l, t, u);
    var i := SlotOf(l.active, t);
    if i >= 0 {
      WithoutMember(l.active, i, u);
    }
  }

  /** Rolling back finishes exactly that transaction and takes none off the list. */
  lemma {:induction false} RollbackKeeps(l: Txns, t: int, u: int)
    requires ListOk(l)
    ensures ListOk(RolledBack(l, t)) && RolledBack(l, t).active == l.active
    ensures IsActive(RolledBack(l, t), u) <==> IsActive(l, u) && u != t
  {
    var r, i := RolledBack(l, t), SlotOf(l.active, t);
    if i >= 0 {
      LiveCountAt(l.infos, i, l.infos[i].(state := ROLLED_BACK));
      var a := SlotOf(l.active, u);
      if a == i {
        assert u == t;
      }
    }
  }

  // ---------- the list in place ----------

  class TxnTable {
    var nextTxid: int
    var maxTxns: nat
    var activeTxns: seq<int>
    var txnStates: seq<Info>

    ghost function View(): Txns
      reads this
    {
      Txns(nextTxid, maxTxns, activeTxns, txnStates)
    }

    constructor (maxTxns: nat)
      ensures View() == Txns(1, maxTxns, [], [])
    {
      nextTxid, this.maxTxns, activeTxns, txnStates := 1, maxTxns, [], [];
    }

    /** Ids go on where the session before stopped. */
    constructor Resume(nextTxid: int, maxTxns: nat)
      ensures View() == Txns(nextTxid, maxTxns, [], [])
    {
      this.nextTxid, this.maxTxns, activeTxns, txnStates := nextTxid, maxTxns, [], [];
    }

    method FindSlot(t: int) returns (r: int)
      ensures r == SlotOf(activeTxns, t)
    {
      for i := 0 to |activeTxns|
        invariant t !in activeTxns[..i]
      {
        if activeTxns[i] == t {
          return i;
        }
      }
      assert activeTxns[..|activeTxns|] == activeTxns;
      return -1;
    }

    /** The new id, or -1 when too many transactions are unfinished or listed. */
    method Begin() returns (txn: int)
      modifies this
      ensures View() == Begun(old(View()))
      ensures txn == if CanBegin(old(View())) then old(nextTxid) else -1
    {
      var live := 0;
      for i := 0 to |txnStates|
        invariant txnStates == old(txnStates) && activeTxns == old(activeTxns) && nextTxid == old(nextTxid) && maxTxns == old(maxTxns)
        invariant live == LiveCount(txnStates[..i])
      {
        assert txnStates[..i + 1] == txnStates[..i] + [txnStates[i]];
        LiveCountConcat(txnStates[..i], [txnStates[i]]);
        if txnStates[i].state != ROLLED_BACK {
          live := live + 1;
        }
      }
      assert txnStates[..|txnStates|] == txnStates;
      if live >= maxTxns {
        return -1;
      }
      if |activeTxns| >= maxTxns * 64 {
        return -1;
      }
      txn := nextTxid;
      nextTxid := nextTxid + 1;
      activeTxns := activeTxns + [txn];
      txnStates := txnStates + [Info(txn, ACTIVE)];
    }

    /** Closes the gap that the transaction leaves in both lists. */
    method RemoveActive(t: int)
      requires |txnStates| == |activeTxns|
      modifies this`activeTxns, this`txnStates
      ensures View() == Committed(old(View()), t)
    {
      var i := FindSlot(t);
      if i < 0 {
        return;
      }
      activeTxns := ShiftOut(activeTxns, i);
      txnStates := ShiftOut(txnStates, i);
    }

    method MarkRolledBack(t: int)
      requires |txnStates| == |activeTxns|
      modifies this`txnStates
      ensures View() == RolledBack(old(View()), t)
    {
      var slot := FindSlot(t);
      if slot >= 0 {
        txnStates := txnStates[slot := txnStates[slot].(state := ROLLED_BACK)];
      }
    }

    method TxnIsActive(t: int) returns (r: bool)
      requires |txnStates| == |activeTxns|
      ensures r == IsActive(View(), t)
    {
      var slot := FindSlot(t);
      r := slot >= 0 && txnStates[slot].state != ROLLED_BACK;
    }
  }
}
