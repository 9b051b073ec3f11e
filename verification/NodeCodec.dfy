/** Tree nodes as page records: slot 0 holds the links and children, each further slot one entry. */
module NodeCodec {
  import opened ByteStrings
  import opened Layout
  import opened SlottedPage
  import opened RecordCodec
  import opened Tree
  import opened BTree

  const PAGE_ID_BIAS := 100000
  const KIND_INTERNAL := 0
  const KIND_LEAF := 1

  /** Ids are stored with a bias, so that "no page" is not negative. */
  predicate IdOk(id: int) {
    -PAGE_ID_BIAS <= id < 0x8000_0000 - PAGE_ID_BIAS
  }

  const MAX_STRING := 256

  /** What the fixed arrays of a node can hold. */
  predicate Storable(n: Node) {
    && |n.keys| <= MAX_KEYS && IdOk(n.next) && IdOk(n.prev)
    && (if n.leaf then |n.vals| == |n.keys| && n.children == [] else |n.children| == |n.keys| + 1 && n.vals == [])
    && (forall i :: 0 <= i < |n.keys| ==> |n.keys[i]| <= MAX_STRING)
    && (forall i :: 0 <= i < |n.vals| ==> |n.vals[i]| <= MAX_STRING)
    && forall i :: 0 <= i < |n.children| ==> IdOk(n.children[i])
  }

  /** The first `count` entries have no string of 256 bytes, whose length byte would wrap to zero. */
  predicate ShortUpTo(n: Node, count: nat) {
    (forall i :: 0 <= i < |n.keys| && i < count ==> |n.keys[i]| <= 255)
    && forall i :: 0 <= i < |n.vals| && i < count ==> |n.vals[i]| <= 255
  }

  predicate Short(n: Node) {
    ShortUpTo(n, |n.keys|)
  }

  function IdHead(id: int): (r: Bytes)
    requires IdOk(id)
    ensures 1 <= |r| <= 5
  {
    Head(UINT_BASE, id + PAGE_ID_BIAS)
  }

  function IdHeads(ids: seq<int>): (r: Bytes)
    requires forall i :: 0 <= i < |ids| ==> IdOk(ids[i])
    ensures |r| <= 5 * |ids|
  {
    if ids == [] then [] else IdHeads(ids[..|ids| - 1]) + IdHead(ids[|ids| - 1])
  }

  /** Next, previous, then the children. */
  function Ids(n: Node): (r: seq<int>)
    requires Storable(n)
    ensures 2 <= |r| <= 6 && forall i :: 0 <= i < |r| ==> IdOk(r[i])
  {
    [n.next, n.prev] + n.children
  }

  function MetaBytes(n: Node): Bytes
    requires Storable(n)
  {
    [ARRAY_BASE + |Ids(n)|] + IdHeads(Ids(n))
  }

  function EntryBytes(n: Node, i: nat): Bytes
    requires Storable(n) && i < |n.keys|
  {
    KvBytes(n.keys[i], if n.leaf then n.vals[i] else [])
  }

  function NodeRecs(n: Node): (r: seq<Bytes>)
    requires Storable(n)
    ensures |r| == 1 + |n.keys| && r[0] == MetaBytes(n)
    ensures forall i :: 1 <= i < |r| ==> r[i] == EntryBytes(n, i - 1)
  {
    [MetaBytes(n)] + seq(|n.keys|, i requires 0 <= i < |n.keys| => EntryBytes(n, i))
  }

  // ---------- links and children ----------

  method EncodeIds(buf: array<Byte>, ids: seq<int>) returns (end: nat)
    requires buf.Length >= 1 + 5 * |ids| && forall i :: 0 <= i < |ids| ==> IdOk(ids[i])
    modifies buf
    ensures end == 1 + |IdHeads(ids)| && Patched(old(buf[..]), buf[..], 1, IdHeads(ids))
  {
    ghost var s := buf[..];
    end := 1;
    for i := 0 to |ids|
      invariant end == 1 + |IdHeads(ids[..i])| && Patched(s, buf[..], 1, IdHeads(ids[..i]))
    {
      ghost var t := buf[..];
      end := EncodeHead(buf, end, UINT_BASE, ids[i] + PAGE_ID_BIAS);
      PatchJoin(s, t, buf[..], 1, IdHeads(ids[..i]), IdHead(ids[i]));
      HeadsGrow(ids, i);
    }
    assert ids[..|ids|] == ids;
  }

  method EncodeMeta(n: Node, buf: array<Byte>) returns (end: nat)
    requires Storable(n) && buf.Length >= 1024
    modifies buf
    ensures end == |MetaBytes(n)| && buf[..end] == MetaBytes(n)
  {
    ghost var s := buf[..];
    var count := if n.leaf then 0 else |n.keys| + 1;
    buf[0] := ARRAY_BASE + 2 + count;
    ghost var t := buf[..];
    PatchedIs(s, t, 0, [ARRAY_BASE + |Ids(n)|]);
    end := EncodeIds(buf, [n.next, n.prev] + n.children);
    PatchJoin(s, t, buf[..], 0, [ARRAY_BASE + |Ids(n)|], IdHeads(Ids(n)));
    assert buf[..][0..end] == buf[..end];
  }

  /** Reads an unsigned integer; a form that is cut off or not supported moves on by one byte and changes no value. */
  method DecodeUint(s: Bytes, elen: nat, pos: nat, was: int, ghost v: int) returns (end: nat, val: int)
    requires elen <= |s|
    ensures 0 <= v < 0x1_0000_0000 && At(s, pos, Head(UINT_BASE, v)) && pos + |Head(UINT_BASE, v)| <= elen
            ==> val == v && end == pos + |Head(UINT_BASE, v)|
    ensures pos <= end
  {
    if pos >= elen {
      return pos, was;
    }
    if 0 <= v < 0x1_0000_0000 && At(s, pos, Head(UINT_BASE, v)) && pos + |Head(UINT_BASE, v)| <= elen {
      HeadDecodes(s, elen, pos, UINT_BASE, v);
    }
    var d := DecodeHead(s, elen, pos, UINT_BASE);
    if d.Malformed? {
      return pos + 1, was;
    }
    return d.end, d.v;
  }

  lemma {:induction false} HeadsFrom(ids: seq<int>, i: nat) returns (rest: Bytes)
    requires i < |ids| && forall j :: 0 <= j < |ids| ==> IdOk(ids[j])
    ensures IdHeads(ids) == IdHeads(ids[..i]) + (IdHead(ids[i]) + rest)
    decreases |ids|
  {
    var n := |ids| - 1;
    if i == n {
      rest := [];
      assert IdHead(ids[i]) + [] == IdHead(ids[i]);
    } else {
      var c, last := ids[..n], IdHead(ids[n]);
      var r := HeadsFrom(c, i);
      assert c[..i] == ids[..i];
      rest := r + last;
      var a, b := IdHeads(c[..i]), IdHead(c[i]);
      assert (a + (b + r)) + last == a + (b + (r + last));
    }
  }

  lemma {:induction false} HeadsGrow(ids: seq<int>, i: nat)
    requires i < |ids| && forall j :: 0 <= j < |ids| ==> IdOk(ids[j])
    ensures IdHeads(ids[..i + 1]) == IdHeads(ids[..i]) + IdHead(ids[i])
  {
    assert ids[..i + 1][..i] == ids[..i];
  }

  /** Where id i starts among the encoded ids. */
  lemma {:induction false} IdAt(s: Bytes, ids: seq<int>, i: nat)
    requires i < |ids| && forall j :: 0 <= j < |ids| ==> IdOk(ids[j])
    requires At(s, 1, IdHeads(ids))
    ensures At(s, 1 + |IdHeads(ids[..i])|, IdHead(ids[i]))
    ensures |IdHeads(ids[..i])| + |IdHead(ids[i])| == |IdHeads(ids[..i + 1])| <= |IdHeads(ids)|
  {
    var rest := HeadsFrom(ids, i);
    HeadsGrow(ids, i);
    AtSplit(s, 1, IdHeads(ids[..i]), IdHead(ids[i]) + rest);
    AtSplit(s, 1 + |IdHeads(ids[..i])|, IdHead(ids[i]), rest);
  }

  /** The first `count` ids of the record, each less the bias. */
  method DecodeIds(s: Bytes, from: nat, count: nat, ghost ids: seq<int>) returns (out: seq<int>)
    ensures |out| == count
    ensures from == 1 && count == |ids| && (forall j :: 0 <= j < |ids| ==> IdOk(ids[j])) && At(s, 1, IdHeads(ids)) ==> out == ids
  {
    var pos, decoded := from, 0;
    ghost var written := from == 1 && count == |ids| && (forall j :: 0 <= j < |ids| ==> IdOk(ids[j])) && At(s, 1, IdHeads(ids));
    out := [];
    for i := 0 to count
      invariant |out| == i
      invariant written ==> out == ids[..i] && pos == 1 + |IdHeads(ids[..i])|
    {
      if written {
        IdAt(s, ids, i);
      }
      pos, decoded := DecodeUint(s, |s|, pos, decoded, if written then ids[i] + PAGE_ID_BIAS else 0);
      out := out + [decoded - PAGE_ID_BIAS];
    }
    if written {
      assert ids[..count] == ids;
    }
  }

  datatype Meta = Meta(next: int, prev: int, children: seq<int>)

  /** A record that is no short array leaves the links empty. */
  method DecodeMeta(rec: Bytes, leaf: bool, ghost n: Node) returns (m: Meta)
    requires rec != []
    ensures Storable(n) && n.leaf == leaf && rec == MetaBytes(n) ==> m == Meta(n.next, n.prev, n.children)
  {
    ghost var written := Storable(n) && n.leaf == leaf && rec == MetaBytes(n);
    if written {
      assert At(rec, 0, [ARRAY_BASE + |Ids(n)|] + IdHeads(Ids(n)));
      AtSplit(rec, 0, [ARRAY_BASE + |Ids(n)|], IdHeads(Ids(n)));
      AtIndex(rec, 0, [ARRAY_BASE + |Ids(n)|], 0);
    }
    var fb: int := rec[0];
    if fb < 128 || fb >= 160 {
      return Meta(NO_PAGE, NO_PAGE, []);
    }
    var ai := fb % 32;
    var count, from := ai, 1;
    if ai >= 24 {
      if ai != 24 || |rec| <= 1 {
        return Meta(NO_PAGE, NO_PAGE, []);
      }
      count, from := rec[1], 2;
    }
    var children := if leaf || count < 2 then 0 else count - 2;
    var ids := DecodeIds(rec, from, 2 + children, if written then Ids(n) else []);
    m := Meta(ids[0], ids[1], ids[2..]);
    if written {
      assert ids[2..] == n.children;
    }
  }

  // ---------- nodes ----------

  lemma {:induction false} PrefixFits(recs: seq<Bytes>, size: nat, i: nat)
    requires i < |recs| <= MAX_SLOTS && size <= MAX_PAGE_SIZE
    ensures RoomOk(recs, size) ==> Fits(recs[..i], size, recs[i])
    ensures !Fits(recs[..i], size, recs[i]) ==> !RoomOk(recs, size)
  {
    TotalStep(recs, i);
    TotalPrefix(recs, i + 1, |recs|);
    assert recs[..|recs|] == recs;
  }

  ghost predicate StoredAs(s: Bytes, n: Node, level: int)
    requires Storable(n)
  {
    && Holds(s, NodeRecs(n)) && Get32(s, OFF_LEVEL) == level
    && Get32(s, OFF_TYPE) == if n.leaf then KIND_LEAF else KIND_INTERNAL
  }

  method InsertRecord(buf: array<Byte>, rec: Bytes, ghost recs: seq<Bytes>, i: nat) returns (ok: bool)
    requires i < |recs| <= MAX_SLOTS && rec == recs[i] && Holds(buf[..], recs[..i])
    modifies buf
    ensures SameKind(old(buf[..]), buf[..])
    ensures if ok then Holds(buf[..], recs[..i + 1]) else !RoomOk(recs, buf.Length)
  {
    var slot := PageInsert(buf, rec, recs[..i]);
    PrefixFits(recs, buf.Length, i);
    assert recs[..i] + [rec] == recs[..i + 1];
    return slot >= 0;
  }

  /** Succeeds exactly when the records fit, and then the page holds the node. */
  method StoreNode(buf: array<Byte>, n: Node, level: int) returns (ok: bool)
    requires Storable(n) && IsI32(level) && 512 <= buf.Length <= MAX_PAGE_SIZE
    modifies buf
    ensures ok <==> RoomOk(NodeRecs(n), buf.Length)
    ensures ok ==> StoredAs(buf[..], n, level)
  {
    ghost var recs := NodeRecs(n);
    PageInit(buf, if n.leaf then KIND_LEAF else KIND_INTERNAL, level);
    ghost var s := buf[..];
    var scratch := new Byte[1024];
    var end := EncodeMeta(n, scratch);
    ok := InsertRecord(buf, scratch[..end], recs, 0);
    if ok {
      ok := StoreEntries(buf, n);
    }
  }

  method StoreEntries(buf: array<Byte>, n: Node) returns (ok: bool)
    requires Storable(n) && Holds(buf[..], NodeRecs(n)[..1])
    modifies buf
    ensures SameKind(old(buf[..]), buf[..])
    ensures if ok then Holds(buf[..], NodeRecs(n)) else !RoomOk(NodeRecs(n), buf.Length)
  {
    ghost var s, recs := buf[..], NodeRecs(n);
    var scratch := new Byte[1024];
    for i := 0 to |n.keys|
      invariant Holds(buf[..], recs[..i + 1]) && SameKind(s, buf[..])
    {
      var end := EncodeKv(scratch, n.keys[i], if n.leaf then n.vals[i] else []);
      ok := InsertRecord(buf, scratch[..end], recs, i + 1);
      if !ok {
        return;
      }
    }
    assert recs[..|recs|] == recs;
    return true;
  }

  method Padding() returns (b: Bytes)
    ensures |b| == 1024
  {
    b := seq(1024, _ => 0);
  }

  /** One entry record: its strings, or nothing for a record that is no entry. */
  method LoadEntry(rec: Bytes, ghost key: Bytes, ghost value: Bytes) returns (e: Kv)
    ensures rec == KvBytes(key, value) ==> (e == Kv(key, value) <==> |key| <= 255 && |value| <= 255)
    ensures rec == KvBytes(key, value) && e.Kv? ==> e.key == Truncated(key)
  {
    var pad := Padding();
    assert (rec + pad)[0..|rec|] == rec;
    e := DecodeKv(rec + pad, |rec|, key, value);
  }

  /**
   * What was stored is loaded (kind, level, links, children, keys and, in a leaf, values) exactly when
   * no string has 256 bytes.
   */
  method LoadNode(buf: array<Byte>, ghost recs: seq<Bytes>, ghost n: Node, ghost stored: int) returns (r: Node, level: int)
    requires Holds(buf[..], recs)
    ensures Storable(n) && recs == NodeRecs(n) && StoredAs(buf[..], n, stored) ==> (r == n <==> Short(n)) && level == stored
  {
    ghost var written := Storable(n) && recs == NodeRecs(n) && StoredAs(buf[..], n, stored);
    var count := Read32(buf, OFF_COUNT);
    var ptype := Read32(buf, OFF_TYPE);
    level := Read32(buf, OFF_LEVEL);
    var leaf := ptype == KIND_LEAF;
    var meta := Meta(NO_PAGE, NO_PAGE, []);
    if count > 0 {
      var len, rec := PageGet(buf, 0, recs);
      if len > 0 {
        meta := DecodeMeta(rec, leaf, n);
      }
    }
    var keys, vals := LoadEntries(buf, count, leaf, recs, n);
    r := Node(leaf, keys, vals, meta.children, meta.next, meta.prev);
  }

  /** The node's entry records lie in the slots behind the first. */
  ghost predicate Entries(recs: seq<Bytes>, n: Node, leaf: bool) {
    Storable(n) && n.leaf == leaf && recs == NodeRecs(n)
  }

  /** The entry in slot j, if there is one. */
  method LoadSlot(buf: array<Byte>, j: nat, leaf: bool, ghost recs: seq<Bytes>, ghost n: Node) returns (e: Kv)
    requires Holds(buf[..], recs) && 1 <= j < |recs|
    ensures Entries(recs, n, leaf) ==>
              var k, v := n.keys[j - 1], if leaf then n.vals[j - 1] else [];
              (e == Kv(k, v) <==> |k| <= 255 && |v| <= 255) && (e.Kv? ==> e.key == Truncated(k))
  {
    var len, rec := PageGet(buf, j, recs);
    if len <= 0 {
      return NoKv;
    }
    ghost var written := Entries(recs, n, leaf);
    ghost var k, v := if written then n.keys[j - 1] else [], if written && leaf then n.vals[j - 1] else [];
    assert written ==> rec == EntryBytes(n, j - 1) == KvBytes(k, v);
    e := LoadEntry(rec, k, v);
  }

  ghost predicate LoadedUpTo(n: Node, leaf: bool, i: nat, keys: seq<Bytes>, vals: seq<Bytes>)
    requires Storable(n) && n.leaf == leaf && i <= |n.keys|
  {
    keys == n.keys[..i] && vals == if leaf then n.vals[..i] else []
  }

  /** One more slot: a short entry continues what is loaded, and nothing repairs what was spoilt before. */
  lemma {:induction false} LoadedOneMore(n: Node, leaf: bool, i: nat, keys: seq<Bytes>, vals: seq<Bytes>, e: Kv, keys': seq<Bytes>, vals': seq<Bytes>)
    requires Storable(n) && n.leaf == leaf && i < |n.keys| && |keys| <= i && |vals| == if leaf then |keys| else 0
    requires LoadedUpTo(n, leaf, i, keys, vals) <==> ShortUpTo(n, i)
    requires var k, v := n.keys[i], if leaf then n.vals[i] else []; (e == Kv(k, v) <==> |k| <= 255 && |v| <= 255) && (e.Kv? ==> e.key == Truncated(k))
    requires if e.Kv? then keys' == keys + [e.key] && vals' == (if leaf then vals + [e.value] else vals) else keys' == keys && vals' == vals
    ensures LoadedUpTo(n, leaf, i + 1, keys', vals') <==> ShortUpTo(n, i + 1)
  {
    ShortOneMore(n, i);
    if e.Kv? {
      OneMoreOf(n.keys, i, keys, e.key);
      if leaf {
        OneMoreOf(n.vals, i, vals, e.value);
      }
    } else {
      assert |keys'| < |n.keys[..i + 1]|;
    }
  }

  lemma {:induction false} OneMoreOf(all: seq<Bytes>, i: nat, part: seq<Bytes>, x: Bytes)
    requires i < |all|
    ensures part + [x] == all[..i + 1] <==> part == all[..i] && x == all[i]
  {
    if part + [x] == all[..i + 1] {
      assert part == (part + [x])[..i] && x == (part + [x])[i];
    }
  }

  lemma {:induction false} ShortOneMore(n: Node, i: nat)
    requires Storable(n) && i < |n.keys|
    ensures ShortUpTo(n, i + 1) <==> ShortUpTo(n, i) && |n.keys[i]| <= 255 && (n.leaf ==> |n.vals[i]| <= 255)
  {
  }

  method LoadEntries(buf: array<Byte>, count: nat, leaf: bool, ghost recs: seq<Bytes>, ghost n: Node) returns (keys: seq<Bytes>, vals: seq<Bytes>)
    requires Holds(buf[..], recs) && count == |recs|
    ensures Entries(recs, n, leaf) ==> (keys == n.keys && vals == n.vals <==> Short(n))
    ensures |keys| <= MAX_KEYS && |vals| == if leaf then |keys| else 0
  {
    ghost var written := Entries(recs, n, leaf);
    keys, vals := [], [];
    var j := 1;
    while j < count
      invariant 1 <= j && |keys| <= MAX_KEYS && |keys| < j && |vals| == if leaf then |keys| else 0
      invariant written && j <= |recs| ==> (LoadedUpTo(n, leaf, j - 1, keys, vals) <==> ShortUpTo(n, j - 1))
      invariant j <= count || count == 0
    {
      if |keys| < MAX_KEYS {
        var e := LoadSlot(buf, j, leaf, recs, n);
        ghost var keys0, vals0 := keys, vals;
        if e.Kv? {
          keys := keys + [e.key];
          vals := if leaf then vals + [e.value] else vals;
        }
        if written {
          LoadedOneMore(n, leaf, j - 1, keys0, vals0, e, keys, vals);
        }
      }
      j := j + 1;
    }
    if written {
      assert n.keys[..|n.keys|] == n.keys && (leaf ==> n.vals[..|n.vals|] == n.vals);
    }
  }

  /** A node that fits its page comes back as it was, exactly when no string has 256 bytes. */
  method StoreThenLoad(buf: array<Byte>, n: Node, level: int) returns (ok: bool, again: Node, level': int)
    requires Storable(n) && IsI32(level) && 512 <= buf.Length <= MAX_PAGE_SIZE
    modifies buf
    ensures ok <==> RoomOk(NodeRecs(n), buf.Length)
    ensures ok ==> (again == n <==> Short(n)) && level' == level
  {
    ok := StoreNode(buf, n, level);
    again, level' := EMPTY_LEAF, level;
    if ok {
      again, level' := LoadNode(buf, NodeRecs(n), n, level);
    }
  }
}
