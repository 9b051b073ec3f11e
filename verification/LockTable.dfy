/** Key locks. The most recently granted lock comes first. */
module LockTable {
  import opened ByteStrings

  const MAX_KEY_SIZE := 256

  datatype Lock = Lock(txn: int, key: Bytes, exclusive: bool)

  predicate Holds(locks: seq<Lock>, txn: int, key: Bytes) {
    exists l :: l in locks && l.txn == txn && l.key == key
  }

  predicate Conflicts(locks: seq<Lock>, txn: int, key: Bytes, exclusive: bool) {
    exists l :: l in locks && l.key == key && l.txn != txn && (l.exclusive || exclusive)
  }

  /** Whether a request is granted. A holder is granted any mode without a further check. */
  predicate Grants(locks: seq<Lock>, txn: int, key: Bytes, exclusive: bool) {
    Holds(locks, txn, key) || (!Conflicts(locks, txn, key, exclusive) && |key| <= MAX_KEY_SIZE)
  }

  function Acquired(locks: seq<Lock>, txn: int, key: Bytes, exclusive: bool): seq<Lock> {
    if Holds(locks, txn, key) || !Grants(locks, txn, key, exclusive) then locks
    else [Lock(txn, key, exclusive)] + locks
  }

  function Released(locks: seq<Lock>, txn: int): seq<Lock> {
    if locks == [] then []
    else if locks[0].txn == txn then Released(locks[1..], txn)
    else [locks[0]] + Released(locks[1..], txn)
  }

  /** Release drops every lock of one transaction and no other. */
  lemma {:induction false} ReleaseIsExact(locks: seq<Lock>, txn: int)
    ensures forall l :: l in Released(locks, txn) <==> l in locks && l.txn != txn
  {
    if locks != [] {
      ReleaseIsExact(locks[1..], txn);
      assert locks == [locks[0]] + locks[1..];
    }
  }

  ghost predicate OneHolder(locks: seq<Lock>) {
    (forall l :: l in locks ==> l.exclusive)
    && forall l, m :: l in locks && m in locks && l.key == m.key ==> l.txn == m.txn
  }

  /** With exclusive requests only, a key never has two holders; a refusal means another one holds it. */
  lemma {:induction false} ExclusiveMeansOneHolder(locks: seq<Lock>, txn: int, key: Bytes)
    requires OneHolder(locks)
    ensures OneHolder(Acquired(locks, txn, key, true))
    ensures Grants(locks, txn, key, true) <==>
            Holds(locks, txn, key) || (|key| <= MAX_KEY_SIZE && forall l :: l in locks && l.key == key ==> l.txn == txn)
    ensures Grants(locks, txn, key, true) <==> Holds(Acquired(locks, txn, key, true), txn, key)
  {
    var a := Acquired(locks, txn, key, true);
    if a != locks {
      assert a[0] == Lock(txn, key, true) && a[1..] == locks;
      forall l | l in a ensures l == a[0] || l in locks {
      }
    }
  }

  class LockManager {
    var nodes: seq<Lock>
    var count: int

    constructor ()
      ensures nodes == [] && count == 0
    {
      nodes, count := [], 0;
    }

    method IsHeld(txn: int, key: Bytes) returns (r: bool)
      ensures r == Holds(nodes, txn, key)
    {
      for p := 0 to |nodes|
        invariant forall q :: 0 <= q < p ==> !(nodes[q].txn == txn && nodes[q].key == key)
      {
        if nodes[p].txn == txn && |nodes[p].key| == |key| {
          var same := SameBytes(nodes[p].key, key);
          if same {
            assert nodes[p] in nodes;
            return true;
          }
        }
      }
      return false;
    }

    method SameBytes(a: Bytes, b: Bytes) returns (same: bool)
      requires |a| == |b|
      ensures same == (a == b)
    {
      same := true;
      var j := 0;
      while j < |b| && same
        invariant 0 <= j <= |b|
        invariant same <==> a[..j] == b[..j]
      {
        if a[j] != b[j] {
          same := false;
        }
        assert a[..j + 1] == a[..j] + [a[j]] && b[..j + 1] == b[..j] + [b[j]];
        j := j + 1;
      }
      if same {
        assert a == a[..j] && b == b[..j];
      } else {
        assert a[..j] != b[..j];
      }
    }

    method HasConflict(txn: int, key: Bytes, exclusive: bool) returns (conflict: bool)
      ensures conflict == Conflicts(nodes, txn, key, exclusive)
    {
      conflict := false;
      var p := 0;
      while p < |nodes| && !conflict
        invariant 0 <= p <= |nodes|
        invariant conflict <==> exists q :: 0 <= q < p && nodes[q].key == key && nodes[q].txn != txn && (nodes[q].exclusive || exclusive)
      {
        if |nodes[p].key| == |key| {
          var same := SameBytes(nodes[p].key, key);
          if same && nodes[p].txn != txn && (nodes[p].exclusive || exclusive) {
            conflict := true;
          }
        }
        p := p + 1;
      }
      assert forall q :: 0 <= q < |nodes| ==> nodes[q] in nodes;
    }

    method Acquire(txn: int, key: Bytes, exclusive: bool) returns (ok: bool)
      modifies this
      ensures ok == Grants(old(nodes), txn, key, exclusive)
      ensures nodes == Acquired(old(nodes), txn, key, exclusive)
      ensures count - |nodes| == old(count - |nodes|)
    {
      var held := IsHeld(txn, key);
      if held {
        return true;
      }
      var conflict := HasConflict(txn, key, exclusive);
      if conflict || |key| > MAX_KEY_SIZE {
        return false;
      }
      nodes := [Lock(txn, key, exclusive)] + nodes;
      count := count + 1;
      return true;
    }

    /** Unlinks every node of the transaction. */
    method Release(txn: int)
      modifies this
      ensures nodes == Released(old(nodes), txn)
      ensures count - |nodes| == old(count - |nodes|)
    {
      var p := 0;
      while p < |nodes|
        invariant 0 <= p <= |nodes|
        invariant nodes[..p] + Released(nodes[p..], txn) == Released(old(nodes), txn)
        invariant count - |nodes| == old(count - |nodes|)
        decreases |nodes| - p
      {
        ghost var kept, rest := nodes[..p], nodes[p..];
        if nodes[p].txn == txn {
          nodes := nodes[..p] + nodes[p + 1..];
          count := count - 1;
          assert nodes[..p] == kept && nodes[p..] == rest[1..];
        } else {
          assert nodes[..p + 1] == kept + [rest[0]] && nodes[p + 1..] == rest[1..];
          p := p + 1;
        }
      }
      assert nodes[..p] == nodes && nodes[p..] == [];
    }
  }
}
