/** Sequences as the slots of fixed arrays: closing a gap, and the smaller of two lengths. */
module Sequences {

  function Min(a: nat, b: nat): nat {
    if a <= b then a else b
  }

  function RemoveAt<T>(s: seq<T>, i: nat): (r: seq<T>)
    requires i < |s|
    ensures |r| == |s| - 1
  {
    s[..i] + s[i + 1..]
  }

  lemma {:induction false} RemovedAt<T>(s: seq<T>, i: nat)
    requires i < |s|
    ensures forall j :: 0 <= j < |s| - 1 ==> RemoveAt(s, i)[j] == s[if j < i then j else j + 1]
  {
  }

  /** Closes the gap at i by moving every later slot one place down. */
  method ShiftOut<T>(s: seq<T>, i: nat) returns (r: seq<T>)
    requires i < |s|
    ensures r == RemoveAt(s, i)
  {
    r := s;
    var j := i;
    while j < |s| - 1
      invariant i <= j < |s| == |r|
      invariant forall k :: 0 <= k < j ==> r[k] == s[if k < i then k else k + 1]
      invariant forall k :: j < k < |s| ==> r[k] == s[k]
    {
      r := r[j := r[j + 1]];
      j := j + 1;
    }
    r := r[..j];
    RemovedAt(s, i);
    assert forall k :: 0 <= k < j ==> r[k] == RemoveAt(s, i)[k];
  }
}
