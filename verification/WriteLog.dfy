/** The write-ahead log as a list of records, and what opening a database replays of it. */
module WriteLog {
  import opened ByteStrings

  datatype Record =
    | Update(txn: int, key: Bytes, value: Bytes)
    | Deletion(txn: int, key: Bytes)
    | Committed(txn: int)
    | Aborted(txn: int)

  class Log {
    var records: seq<Record>

    constructor ()
      ensures records == []
    {
      records := [];
    }

    method Append(r: Record)
      modifies this
      ensures records == old(records) + [r]
    {
      records := records + [r];
    }

    method Truncate()
      modifies this
      ensures records == []
    {
      records := [];
    }
  }

  /** The deletions in `part` whose transactions have a commit record in `all`. */
  function ToReplay(part: seq<Record>, all: seq<Record>): seq<(int, Bytes)> {
    if part == [] then []
    else
      var n := |part| - 1;
      ToReplay(part[..n], all) + if part[n].Deletion? && Committed(part[n].txn) in all then [(part[n].txn, part[n].key)] else []
  }

  lemma {:induction false} ToReplayMore(part: seq<Record>, r: Record, all: seq<Record>)
    ensures ToReplay(part + [r], all) == ToReplay(part, all) + if r.Deletion? && Committed(r.txn) in all then [(r.txn, r.key)] else []
  {
    assert (part + [r])[..|part|] == part;
  }

  /** A first pass collects the committed ids, a second one picks the deletions. Updates find their keys in the tree and are passed over. */
  method Deletions(records: seq<Record>) returns (r: seq<(int, Bytes)>)
    ensures r == ToReplay(records, records)
  {
    var committed := [];
    for i := 0 to |records|
      invariant forall c :: c in committed <==> Committed(c) in records[..i]
    {
      if records[i].Committed? {
        committed := committed + [records[i].txn];
      }
    }
    assert records[..|records|] == records;
    r := [];
    for i := 0 to |records|
      invariant r == ToReplay(records[..i], records)
    {
      assert records[..i + 1][..i] == records[..i];
      if records[i].Deletion? && records[i].txn in committed {
        r := r + [(records[i].txn, records[i].key)];
      } else {
        assert r + [] == r;
      }
    }
  }

  /** Deletions and commits: all that a replay after a clean close looks at. */
  function Essential(records: seq<Record>): seq<Record> {
    if records == [] then []
    else
      var n := |records| - 1;
      Essential(records[..n]) + if records[n].Deletion? || records[n].Committed? then [records[n]] else []
  }

  lemma {:induction false} EssentialMore(records: seq<Record>, r: Record)
    ensures Essential(records + [r]) == Essential(records) + if r.Deletion? || r.Committed? then [r] else []
  {
    assert (records + [r])[..|records|] == records;
  }

  lemma {:induction false} EssentialMembers(records: seq<Record>, c: int)
    ensures Committed(c) in Essential(records) <==> Committed(c) in records
  {
    if records != [] {
      var n := |records| - 1;
      EssentialMembers(records[..n], c);
      assert records == records[..n] + [records[n]];
    }
  }

  lemma {:induction false} EssentialDeletions(records: seq<Record>)
    ensures forall r :: r in records && r.Deletion? ==> r in Essential(records)
  {
    if records != [] {
      var n := |records| - 1;
      EssentialDeletions(records[..n]);
      assert records == records[..n] + [records[n]];
    }
  }

  lemma {:induction false} EssentialReplays(part: seq<Record>, all: seq<Record>)
    ensures ToReplay(Essential(part), Essential(all)) == ToReplay(part, all)
  {
    if part != [] {
      var n := |part| - 1;
      var e := Essential(part[..n]);
      EssentialReplays(part[..n], all);
      EssentialMembers(all, part[n].txn);
      assert (e + [part[n]])[..|e|] == e && e + [] == e;
      assert ToReplay(e, Essential(all)) + [] == ToReplay(e, Essential(all));
    }
  }
}
