/** A page whose slot directory grows forward and whose records grow backward from the end. */
module SlottedPage {
  import opened ByteStrings
  import opened Layout

  const HEADER_SIZE := 32
  const SLOT_SIZE := 4
  const MAX_SLOTS := 128
  const MAX_PAGE_SIZE := 65536
  const OFF_TYPE := 0
  const OFF_LEVEL := 4
  const OFF_COUNT := 8
  const OFF_FREE_START := 12
  const OFF_FREE_END := 16
  const OFF_COMPRESSION := 20
  const OFF_PARENT := 24
  const OFF_CHECKSUM := 28

  function Total(recs: seq<Bytes>): nat {
    if recs == [] then 0 else Total(recs[..|recs| - 1]) + |recs[|recs| - 1]|
  }

  /** What the page can still take: a slot and the bytes must fit in the gap. */
  predicate Fits(recs: seq<Bytes>, size: nat, r: Bytes) {
    |recs| < MAX_SLOTS && |r| + SLOT_SIZE <= size - Total(recs) - (HEADER_SIZE + SLOT_SIZE * |recs|)
  }

  /** A slot entry: offset and length, 16 bits each. */
  function SlotBytes(off: nat, len: nat): (r: Bytes)
    ensures |r| == SLOT_SIZE
  {
    [off % 256, off / 256 % 256, len % 256, len / 256 % 256]
  }

  /** Where record i starts: records fill the page from its end. */
  function Offset(recs: seq<Bytes>, size: nat, i: nat): int
    requires i < |recs|
  {
    size - Total(recs[..i + 1])
  }

  /** Slot i names the bytes, and they are r. */
  ghost predicate SlotHolds(s: Bytes, i: nat, off: int, r: Bytes) {
    var b := HEADER_SIZE + SLOT_SIZE * i;
    b + SLOT_SIZE <= off && off + |r| <= |s| && s[b..b + SLOT_SIZE] == SlotBytes(off, |r|) && s[off..off + |r|] == r
  }

  ghost predicate RoomOk(recs: seq<Bytes>, size: nat) {
    |recs| <= MAX_SLOTS && HEADER_SIZE + SLOT_SIZE * |recs| + Total(recs) <= size <= MAX_PAGE_SIZE
  }

  ghost predicate HeaderOk(s: Bytes, n: nat, total: nat) {
    && HEADER_SIZE <= |s|
    && Get32(s, OFF_COUNT) == n
    && Get32(s, OFF_FREE_START) == HEADER_SIZE + SLOT_SIZE * n
    && Get32(s, OFF_FREE_END) == |s| - total
  }

  ghost predicate RecordAt(s: Bytes, recs: seq<Bytes>, i: int) {
    0 <= i < |recs| && SlotHolds(s, i, Offset(recs, |s|, i), recs[i])
  }

  /** The page holds exactly these records, in this order. */
  ghost predicate Holds(s: Bytes, recs: seq<Bytes>) {
    && RoomOk(recs, |s|) && HeaderOk(s, |recs|, Total(recs))
    && forall i :: 0 <= i < |recs| ==> RecordAt(s, recs, i)
  }

  // ---------- layout ----------

  lemma {:induction false} TotalStep(recs: seq<Bytes>, i: nat)
    requires i < |recs|
    ensures Total(recs[..i + 1]) == Total(recs[..i]) + |recs[i]|
  {
    assert recs[..i + 1][..i] == recs[..i];
  }

  lemma {:induction false} TotalPrefix(recs: seq<Bytes>, i: nat, j: nat)
    requires i <= j <= |recs|
    ensures Total(recs[..i]) <= Total(recs[..j])
    decreases j
  {
    if i < j {
      TotalStep(recs, j - 1);
      TotalPrefix(recs, i, j - 1);
    }
  }

  /** Where record i lies: behind the directory, before the end, within the page. */
  lemma {:induction false} RecordLies(recs: seq<Bytes>, size: nat, i: nat)
    requires RoomOk(recs, size) && i < |recs|
    ensures HEADER_SIZE + SLOT_SIZE * |recs| <= size - Total(recs) <= Offset(recs, size, i)
    ensures Offset(recs, size, i) + |recs[i]| == size - Total(recs[..i]) <= size
  {
    TotalStep(recs, i);
    TotalPrefix(recs, i + 1, |recs|);
    assert recs[..|recs|] == recs;
  }

  /** Records lie behind the directory, each wholly before the previous one: nothing overlaps. */
  lemma {:induction false} NothingOverlaps(s: Bytes, recs: seq<Bytes>, i: nat, j: nat)
    requires Holds(s, recs) && i < j < |recs|
    ensures HEADER_SIZE + SLOT_SIZE * |recs| <= Offset(recs, |s|, j)
    ensures Offset(recs, |s|, j) + |recs[j]| <= Offset(recs, |s|, i)
    ensures Offset(recs, |s|, i) + |recs[i]| <= |s|
  {
    RecordLies(recs, |s|, i);
    RecordLies(recs, |s|, j);
    TotalPrefix(recs, i + 1, j);
  }

  lemma {:induction false} SameSlot(s: Bytes, t: Bytes, i: nat, off: int, r: Bytes, dir: int, low: int)
    requires SlotHolds(s, i, off, r) && HEADER_SIZE + SLOT_SIZE * i + SLOT_SIZE <= dir && low <= off
    requires Same(s, t, HEADER_SIZE, dir) && Same(s, t, low, |s|)
    ensures SlotHolds(t, i, off, r)
  {
    var b := HEADER_SIZE + SLOT_SIZE * i;
    SameWithin(s, t, HEADER_SIZE, dir, b, b + SLOT_SIZE);
    SameWithin(s, t, low, |s|, off, off + |r|);
  }

  lemma {:induction false} RecordStays(s: Bytes, t: Bytes, recs: seq<Bytes>, r: Bytes, i: nat)
    requires RoomOk(recs, |s|) && RecordAt(s, recs, i)
    requires Same(s, t, HEADER_SIZE, HEADER_SIZE + SLOT_SIZE * |recs|) && Same(s, t, |s| - Total(recs), |s|)
    ensures RecordAt(t, recs + [r], i)
  {
    assert (recs + [r])[..i + 1] == recs[..i + 1];
    RecordLies(recs, |s|, i);
    SameSlot(s, t, i, Offset(recs, |s|, i), recs[i], HEADER_SIZE + SLOT_SIZE * |recs|, |s| - Total(recs));
  }

  /** The rest unchanged, the header moved on, and the new record and its slot in place. */
  lemma {:induction false} HoldsOneMore(s: Bytes, t: Bytes, recs: seq<Bytes>, r: Bytes)
    requires Holds(s, recs) && Fits(recs, |s|, r)
    requires Same(s, t, HEADER_SIZE, HEADER_SIZE + SLOT_SIZE * |recs|) && Same(s, t, |s| - Total(recs), |s|)
    requires HeaderOk(t, |recs| + 1, Total(recs) + |r|) && SlotHolds(t, |recs|, |s| - Total(recs) - |r|, r)
    ensures Holds(t, recs + [r])
  {
    var more, n := recs + [r], |recs|;
    assert more[..n] == recs && more[..n + 1] == more;
    forall i | 0 <= i < |more| ensures RecordAt(t, more, i) {
      if i < n {
        RecordStays(s, t, recs, r, i);
      }
    }
  }

  // ---------- operations ----------

  lemma {:induction false} FieldSet(s: Bytes, t: Bytes, at: int, v: int)
    requires Patched(s, t, at, Bytes32(v)) && IsI32(v)
    ensures Get32(t, at) == v
  {
    RoundTrip32(v);
  }

  lemma {:induction false} FieldKept(s: Bytes, t: Bytes, at: int, b: Bytes, field: nat)
    requires Patched(s, t, at, b) && field + 4 <= |s| && (field + 4 <= at || at + |b| <= field)
    ensures Get32(t, field) == Get32(s, field)
  {
    PatchedOutside(s, t, at, b, field, field + 4);
  }

  /** Sets one header field; the others, and everything behind the header, stay. */
  method PutField(buf: array<Byte>, at: nat, v: int)
    requires at + 4 <= HEADER_SIZE <= buf.Length && IsI32(v)
    modifies buf
    ensures Get32(buf[..], at) == v && Same(old(buf[..]), buf[..], HEADER_SIZE, buf.Length)
    ensures forall f: nat :: f + 4 <= HEADER_SIZE && (f + 4 <= at || at + 4 <= f) ==> Get32(buf[..], f) == Get32(old(buf[..]), f)
  {
    ghost var s := buf[..];
    Put32(buf, at, v);
    FieldSet(s, buf[..], at, v);
    forall f: nat | f + 4 <= HEADER_SIZE && (f + 4 <= at || at + 4 <= f) ensures Get32(buf[..], f) == Get32(s, f) {
      FieldKept(s, buf[..], at, Bytes32(v), f);
    }
    PatchedOutside(s, buf[..], at, Bytes32(v), HEADER_SIZE, buf.Length);
  }

  method PageInit(buf: array<Byte>, ptype: int, level: int)
    requires 512 <= buf.Length <= MAX_PAGE_SIZE && IsI32(ptype) && IsI32(level)
    modifies buf
    ensures Holds(buf[..], []) && Get32(buf[..], OFF_TYPE) == ptype && Get32(buf[..], OFF_LEVEL) == level
  {
    for i := 0 to buf.Length {
      buf[i] := 0;
    }
    PutField(buf, OFF_TYPE, ptype);
    PutField(buf, OFF_LEVEL, level);
    PutField(buf, OFF_COUNT, 0);
    PutField(buf, OFF_FREE_START, HEADER_SIZE);
    PutField(buf, OFF_FREE_END, buf.Length);
    PutField(buf, OFF_COMPRESSION, 0);
    PutField(buf, OFF_PARENT, 0);
    PutField(buf, OFF_CHECKSUM, 0);
  }

  method WriteSlot(buf: array<Byte>, idx: nat, offset: nat, length: nat)
    requires HEADER_SIZE + SLOT_SIZE * idx + SLOT_SIZE <= buf.Length
    modifies buf
    ensures Patched(old(buf[..]), buf[..], HEADER_SIZE + SLOT_SIZE * idx, SlotBytes(offset, length))
  {
    Put4(buf, HEADER_SIZE + idx * SLOT_SIZE, offset % 256, offset / 256 % 256, length % 256, length / 256 % 256);
  }

  /** Slot first (s to a), then the header (a to d), then the record (d to t). */
  lemma {:induction false} InsertedBytes(s: Bytes, a: Bytes, d: Bytes, t: Bytes, n: nat, off: int, r: Bytes)
    requires HEADER_SIZE + SLOT_SIZE * n + SLOT_SIZE <= off && off + |r| <= |s|
    requires Patched(s, a, HEADER_SIZE + SLOT_SIZE * n, SlotBytes(off, |r|)) && Same(a, d, HEADER_SIZE, |a|) && Patched(d, t, off, r)
    ensures Same(s, t, HEADER_SIZE, HEADER_SIZE + SLOT_SIZE * n) && Same(s, t, off + |r|, |s|)
    ensures SlotHolds(t, n, off, r)
    ensures forall f: nat :: f + 4 <= HEADER_SIZE ==> Get32(t, f) == Get32(d, f)
    ensures forall f: nat :: f + 4 <= HEADER_SIZE ==> Get32(a, f) == Get32(s, f)
  {
    var m, slot := HEADER_SIZE + SLOT_SIZE * n, SlotBytes(off, |r|);
    PatchedOutside(s, a, m, slot, HEADER_SIZE, m);
    PatchedOutside(s, a, m, slot, off + |r|, |s|);
    SameWithin(a, d, HEADER_SIZE, |a|, HEADER_SIZE, m);
    SameWithin(a, d, HEADER_SIZE, |a|, m, m + SLOT_SIZE);
    SameWithin(a, d, HEADER_SIZE, |a|, off + |r|, |s|);
    PatchedOutside(d, t, off, r, HEADER_SIZE, m);
    PatchedOutside(d, t, off, r, m, m + SLOT_SIZE);
    forall f: nat | f + 4 <= HEADER_SIZE ensures Get32(t, f) == Get32(d, f) && Get32(a, f) == Get32(s, f) {
      FieldKept(d, t, off, r, f);
      FieldKept(s, a, m, slot, f);
    }
  }

  /** Type and level, which no insert touches. */
  ghost predicate SameKind(s: Bytes, t: Bytes) {
    |s| == |t| >= HEADER_SIZE && Get32(t, OFF_TYPE) == Get32(s, OFF_TYPE) && Get32(t, OFF_LEVEL) == Get32(s, OFF_LEVEL)
  }

  /** Writes a record that fits: its slot, the header, its bytes. */
  method PlaceRecord(buf: array<Byte>, data: Bytes, count: nat, freeStart: nat, freeEnd: nat, ghost recs: seq<Bytes>)
    requires Holds(buf[..], recs) && Fits(recs, buf.Length, data)
    requires count == |recs| && freeStart == HEADER_SIZE + SLOT_SIZE * count && freeEnd == buf.Length - Total(recs)
    modifies buf
    ensures Holds(buf[..], recs + [data]) && SameKind(old(buf[..]), buf[..])
  {
    ghost var s := buf[..];
    WriteSlot(buf, count, freeEnd - |data|, |data|);
    ghost var a := buf[..];
    PutField(buf, OFF_COUNT, count + 1);
    PutField(buf, OFF_FREE_START, freeStart + SLOT_SIZE);
    PutField(buf, OFF_FREE_END, freeEnd - |data|);
    ghost var d := buf[..];
    CopyBytesIn(buf, freeEnd - |data|, data);
    InsertedBytes(s, a, d, buf[..], count, freeEnd - |data|, data);
    HoldsOneMore(s, buf[..], recs, data);
  }

  /** The slot of the new record, or -1 exactly when the directory is full or the gap is too small. */
  method PageInsert(buf: array<Byte>, data: Bytes, ghost recs: seq<Bytes>) returns (idx: int)
    requires Holds(buf[..], recs)
    modifies buf
    ensures idx == if Fits(recs, buf.Length, data) then |recs| else -1
    ensures if idx >= 0 then Holds(buf[..], recs + [data]) else buf[..] == old(buf[..])
    ensures SameKind(old(buf[..]), buf[..])
  {
    var count := Read32(buf, OFF_COUNT);
    var freeStart := Read32(buf, OFF_FREE_START);
    var freeEnd := Read32(buf, OFF_FREE_END);
    if count >= MAX_SLOTS {
      return -1;
    }
    if freeStart + SLOT_SIZE > freeEnd {
      return -1;
    }
    if freeEnd - |data| < HEADER_SIZE {
      return -1;
    }
    var needed := |data| + SLOT_SIZE;
    if freeEnd - freeStart < needed {
      return -1;
    }
    if freeEnd - |data| < freeStart + SLOT_SIZE {
      return -1;
    }
    PlaceRecord(buf, data, count, freeStart, freeEnd, recs);
    return count;
  }

  lemma {:induction false} SlotReads(b: Bytes, off: nat, len: nat)
    requires b == SlotBytes(off, len)
    ensures b[0] as int + b[1] as int * 256 == off % 65536 && b[2] as int + b[3] as int * 256 == len % 65536
  {
    Low16(off);
    Low16(len);
  }

  lemma {:induction false} Low16(v: nat)
    ensures v % 256 + v / 256 % 256 * 256 == v % 65536
  {
    var q, m := v / 65536, v % 65536;
    assert v == 65536 * q + m && v / 256 == 256 * q + m / 256 && m / 256 < 256;
  }

  /** The record's length and bytes, or -1 for an index that names no record. */
  method PageGet(buf: array<Byte>, idx: int, ghost recs: seq<Bytes>) returns (len: int, data: Bytes)
    requires Holds(buf[..], recs)
    ensures if 0 <= idx < |recs| then len == |recs[idx]| && data == recs[idx] else len == -1
  {
    var count := Read32(buf, OFF_COUNT);
    if idx < 0 || idx >= count {
      return -1, [];
    }
    assert RecordAt(buf[..], recs, idx);
    RecordLies(recs, buf.Length, idx);
    len, data := GetSlot(buf, idx, Offset(recs, buf.Length, idx), recs[idx]);
  }

  /** Within a page, 16 bits hold every length and the offset of every byte. */
  lemma {:induction false} NoWrap(off: nat, len: nat)
    requires HEADER_SIZE <= off && off + len <= MAX_PAGE_SIZE
    ensures len % 65536 == len && (len > 0 ==> off % 65536 == off)
  {
  }

  method GetSlot(buf: array<Byte>, idx: nat, ghost off: nat, ghost r: Bytes) returns (len: int, data: Bytes)
    requires SlotHolds(buf[..], idx, off, r) && buf.Length <= MAX_PAGE_SIZE
    ensures len == |r| && data == r
  {
    var offset, length := ReadSlot(buf, idx, off, |r|);
    NoWrap(off, |r|);
    if length > buf.Length - HEADER_SIZE {
      return -1, [];
    }
    data := CopyOut(buf, offset, length);
    return length, data;
  }

  method ReadSlot(buf: array<Byte>, idx: nat, ghost off: nat, ghost len: nat) returns (offset: nat, length: nat)
    requires HEADER_SIZE + SLOT_SIZE * idx + SLOT_SIZE <= buf.Length
    requires buf[HEADER_SIZE + SLOT_SIZE * idx..HEADER_SIZE + SLOT_SIZE * idx + SLOT_SIZE] == SlotBytes(off, len)
    ensures offset == off % 65536 && length == len % 65536
  {
    var at := HEADER_SIZE + idx * SLOT_SIZE;
    var b0: int, b1: int, b2: int, b3: int := buf[at], buf[at + 1], buf[at + 2], buf[at + 3];
    assert buf[at..at + SLOT_SIZE] == [buf[at], buf[at + 1], buf[at + 2], buf[at + 3]];
    SlotReads(buf[at..at + SLOT_SIZE], off, len);
    offset, length := b0 + b1 * 256, b2 + b3 * 256;
  }

  method CopyOut(buf: array<Byte>, offset: nat, length: nat) returns (data: Bytes)
    requires length > 0 ==> offset + length <= buf.Length
    ensures |data| == length && (length > 0 ==> data == buf[offset..offset + length])
  {
    data := [];
    for i := 0 to length
      invariant |data| == i && forall j :: 0 <= j < i ==> data[j] == buf[offset + j]
    {
      data := data + [buf[offset + i]];
    }
  }

  /** The requests that a fresh page of this size takes, in order. */
  function Accepted(requests: seq<Bytes>, size: nat): seq<Bytes> {
    if requests == [] then []
    else
      var a, r := Accepted(requests[..|requests| - 1], size), requests[|requests| - 1];
      if Fits(a, size, r) then a + [r] else a
  }

  /** The slot that request i is told: the place of its record, or -1. */
  function Told(requests: seq<Bytes>, size: nat, i: nat): int
    requires i < |requests|
  {
    var a := Accepted(requests[..i], size);
    if Fits(a, size, requests[i]) then |a| else -1
  }

  /** Any sequence of inserts into a fresh page leaves exactly the accepted records, each in the slot it was told. */
  method InsertAll(buf: array<Byte>, requests: seq<Bytes>) returns (slots: seq<int>)
    requires 512 <= buf.Length <= MAX_PAGE_SIZE
    modifies buf
    ensures Holds(buf[..], Accepted(requests, buf.Length)) && |slots| == |requests|
    ensures forall i :: 0 <= i < |requests| ==> slots[i] == Told(requests, buf.Length, i)
  {
    PageInit(buf, 0, 0);
    slots := [];
    for n := 0 to |requests|
      invariant Holds(buf[..], Accepted(requests[..n], buf.Length)) && |slots| == n
      invariant forall i :: 0 <= i < n ==> slots[i] == Told(requests, buf.Length, i)
    {
      ghost var a := Accepted(requests[..n], buf.Length);
      var slot := PageInsert(buf, requests[n], a);
      assert slot == Told(requests, buf.Length, n);
      AcceptedNext(requests, buf.Length, n);
      slots := slots + [slot];
    }
    assert requests[..|requests|] == requests;
  }

  lemma {:induction false} AcceptedNext(requests: seq<Bytes>, size: nat, n: nat)
    requires n < |requests|
    ensures var a := Accepted(requests[..n], size);
            Accepted(requests[..n + 1], size) == if Told(requests, size, n) >= 0 then a + [requests[n]] else a
  {
    assert requests[..n + 1][..n] == requests[..n];
  }
}
