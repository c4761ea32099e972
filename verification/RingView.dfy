/**
 * The ring's index as a value: which tags are live, where their bytes sit, and
 * which of them are cut points (src/buffer.rs). `DiskRing` refines it, and the
 * cut, trim and pump models all read it.
 */
module RingView {
  import opened Wrappers

  /** `primary` is the verdict of `is_primary_video_idr` on the tag's payload
      together with `isIdr`: fixed when the tag is appended, and what decides
      whether the tag also enters the keyframe index. */
  datatype TagMeta = TagMeta(
    seqNo: nat,
    offset: nat,
    len: nat,
    ts: nat,
    kind: nat,
    isIdr: bool,
    primary: bool)

  /** `tags` is `RingInner::index`, `keys` is `RingInner::idr_index`. */
  datatype Ring = Ring(capacity: nat, cursor: nat, nextSeq: nat, tags: seq<TagMeta>, keys: seq<TagMeta>)

  // ---------------------------------------------------------------- geometry

  // The `j`th byte from `offset`, wrapping at the end of the file.
  function At(offset: nat, j: nat, capacity: nat): nat
  {
    if offset + j < capacity then offset + j else Minus(offset + j, capacity)
  }

  // The offset `distance` bytes behind `cursor`.
  function Back(cursor: nat, distance: nat, capacity: nat): nat
  {
    if distance <= cursor then cursor - distance else Minus(cursor + capacity, distance)
  }

  function Contains(start: nat, len: nat, capacity: nat, pos: nat): bool {
    if len == 0 then false
    else if start + len <= capacity then start <= pos < start + len
    else pos >= start || pos < start + len - capacity
  }

  function WriteOverlaps(wOff: nat, wLen: nat, capacity: nat, tOff: nat, tLen: nat): bool {
    Contains(wOff, wLen, capacity, tOff) || Contains(tOff, tLen, capacity, wOff)
  }

  // Two byte ranges of the file have a byte in common.
  ghost predicate SharesByte(capacity: nat, aOff: nat, aLen: nat, bOff: nat, bLen: nat) {
    exists j: nat, k: nat :: j < aLen && k < bLen && At(aOff, j, capacity) == At(bOff, k, capacity)
  }

  /** The start-point test of `write_overlaps` decides whether two ranges, wrapped
      or not, share a byte. */
  lemma WriteOverlapsExact(capacity: nat, wOff: nat, wLen: nat, tOff: nat, tLen: nat)
    requires wOff < capacity && tOff < capacity
    requires 0 < wLen <= capacity && 0 < tLen <= capacity
    ensures WriteOverlaps(wOff, wLen, capacity, tOff, tLen) <==> SharesByte(capacity, wOff, wLen, tOff, tLen)
  {
    if Contains(wOff, wLen, capacity, tOff) {
      var j := if tOff >= wOff then tOff - wOff else tOff + capacity - wOff;
      assert At(wOff, j, capacity) == At(tOff, 0, capacity);
    }
    if Contains(tOff, tLen, capacity, wOff) {
      var k := if wOff >= tOff then wOff - tOff else wOff + capacity - tOff;
      assert At(wOff, 0, capacity) == At(tOff, k, capacity);
    }
  }

  // ------------------------------------------------------------- well-formed

  function Bytes(tags: seq<TagMeta>): nat {
    if tags == [] then 0 else tags[0].len + Bytes(tags[1..])
  }

  // The cut points of an index, in order.
  function Primaries(tags: seq<TagMeta>): seq<TagMeta> {
    if tags == [] then []
    else (if tags[0].primary then [tags[0]] else []) + Primaries(tags[1..])
  }

  ghost predicate Consecutive(r: Ring) {
    forall i | 0 <= i < |r.tags| :: r.tags[i].seqNo + |r.tags| == r.nextSeq + i
  }

  // Tag `i` starts as many bytes behind the cursor as it and its successors hold.
  ghost predicate PlacedAt(r: Ring, i: nat)
    requires i < |r.tags|
  {
    r.tags[i].offset == Back(r.cursor, Bytes(r.tags[i..]), r.capacity)
  }

  // Live tags fill the file backwards from the write cursor, without gaps.
  ghost predicate Placed(r: Ring) {
    forall i | 0 <= i < |r.tags| :: PlacedAt(r, i)
  }

  ghost predicate WellFormed(r: Ring) {
    && r.cursor < r.capacity
    && |r.tags| <= r.nextSeq
    && Consecutive(r)
    && Placed(r)
    && Bytes(r.tags) <= r.capacity
    && r.keys == Primaries(r.tags)
    && (forall t | t in r.tags :: t.primary ==> t.isIdr)
  }

  // Every seq from `first` to `last` is live.
  ghost predicate Spans(r: Ring, first: nat, last: nat) {
    r.tags != [] && r.tags[0].seqNo <= first && last < r.nextSeq
  }

  ghost predicate Sorted(tags: seq<TagMeta>) {
    forall i, j | 0 <= i < j < |tags| :: tags[i].ts <= tags[j].ts
  }

  // --------------------------------------------------------------- mutations

  /** One step of every eviction loop: the front leaves the index, and the
      keyframe index too when its front carries the same seq. */
  function PopFront(r: Ring): (p: Ring)
    requires r.tags != []
    ensures |p.tags| < |r.tags|
  {
    var front := r.tags[0];
    r.(tags := r.tags[1..],
       keys := if front.isIdr && r.keys != [] && r.keys[0].seqNo == front.seqNo then r.keys[1..] else r.keys)
  }

  // Evict from the front while the front overlaps `len` bytes at the cursor.
  function Evict(r: Ring, len: nat): (e: Ring)
    ensures |e.tags| <= |r.tags| && e.nextSeq == r.nextSeq && e.cursor == r.cursor && e.capacity == r.capacity
    decreases |r.tags|
  {
    if r.tags != [] && WriteOverlaps(r.cursor, len, r.capacity, r.tags[0].offset, r.tags[0].len)
    then Evict(PopFront(r), len)
    else r
  }

  function Advance(r: Ring, len: nat): nat
    requires r.capacity > 0
  {
    (r.cursor + len) % r.capacity
  }

  function NewTag(r: Ring, len: nat, ts: nat, kind: nat, isIdr: bool, primary: bool): TagMeta {
    TagMeta(r.nextSeq, r.cursor, len, ts, kind, isIdr, primary)
  }

  function Push(r: Ring, len: nat, ts: nat, kind: nat, isIdr: bool, primary: bool): Ring
    requires r.capacity > 0
  {
    var m := NewTag(r, len, ts, kind, isIdr, primary);
    Ring(r.capacity, Advance(r, len), r.nextSeq + 1, r.tags + [m], if primary then r.keys + [m] else r.keys)
  }

  // Drop front tags older than `cutoff`, never one at or past `minSeq`.
  function TrimTo(r: Ring, cutoff: nat, minSeq: nat): (t: Ring)
    ensures |t.tags| <= |r.tags| && t.nextSeq == r.nextSeq && t.cursor == r.cursor && t.capacity == r.capacity
    decreases |r.tags|
  {
    if r.tags != [] && r.tags[0].seqNo < minSeq && r.tags[0].ts < cutoff
    then TrimTo(PopFront(r), cutoff, minSeq)
    else r
  }

  function Trimmed(r: Ring, maxAgeMs: nat, currentTs: nat, minSeq: nat): Ring {
    TrimTo(r, Minus(currentTs, maxAgeMs), minSeq)
  }

  function Cleared(r: Ring): Ring {
    r.(tags := [], keys := [])
  }

  // ----------------------------------------------------- mutations, theorems

  lemma BytesPush(tags: seq<TagMeta>, m: TagMeta)
    ensures Bytes(tags + [m]) == Bytes(tags) + m.len
  {
    if tags != [] {
      assert (tags + [m])[1..] == tags[1..] + [m];
      BytesPush(tags[1..], m);
    }
  }

  lemma BytesSplit(tags: seq<TagMeta>, i: nat)
    requires i <= |tags|
    ensures Bytes(tags) == Bytes(tags[..i]) + Bytes(tags[i..])
  {
    if i == 0 {
      assert tags[i..] == tags;
    } else {
      BytesSplit(tags[1..], i - 1);
      assert tags[1..][i - 1..] == tags[i..];
      assert tags[1..][..i - 1] == tags[..i][1..];
    }
  }

  lemma PrimariesPush(tags: seq<TagMeta>, m: TagMeta)
    ensures Primaries(tags + [m]) == Primaries(tags) + if m.primary then [m] else []
  {
    if tags != [] {
      assert (tags + [m])[1..] == tags[1..] + [m];
      PrimariesPush(tags[1..], m);
    }
  }

  lemma OneKey(m: TagMeta)
    requires m.primary
    ensures Primaries([m]) == [m] && Bytes([m]) == m.len
  {
    assert [m][1..] == [];
    assert Primaries([m]) == [m] + Primaries([]);
  }

  lemma PrimariesAre(tags: seq<TagMeta>)
    ensures forall m :: m in Primaries(tags) <==> m in tags && m.primary
  {
  }

  // Keyframes come in seq order, so the index of keyframes is searchable.
  lemma PrimariesAscend(tags: seq<TagMeta>)
    requires forall i, j | 0 <= i < j < |tags| :: tags[i].seqNo < tags[j].seqNo
    ensures forall i, j | 0 <= i < j < |Primaries(tags)| :: Primaries(tags)[i].seqNo < Primaries(tags)[j].seqNo
    ensures Sorted(tags) ==> Sorted(Primaries(tags))
  {
    if tags != [] {
      PrimariesAscend(tags[1..]);
      PrimariesAre(tags[1..]);
      assert forall m | m in Primaries(tags[1..]) :: m in tags[1..];
    }
  }

  lemma Ascending(r: Ring)
    requires WellFormed(r)
    ensures forall i, j | 0 <= i < j < |r.tags| :: r.tags[i].seqNo < r.tags[j].seqNo
    ensures forall i, j | 0 <= i < j < |r.keys| :: r.keys[i].seqNo < r.keys[j].seqNo
    ensures Sorted(r.tags) ==> Sorted(r.keys)
    ensures forall m :: m in r.keys <==> m in r.tags && m.primary
  {
    PrimariesAscend(r.tags);
    PrimariesAre(r.tags);
  }

  lemma PopFrontWellFormed(r: Ring)
    requires WellFormed(r) && r.tags != []
    ensures WellFormed(PopFront(r))
    ensures PopFront(r).tags == r.tags[1..]
  {
    var p := PopFront(r);
    Ascending(r);
    PrimariesAre(r.tags[1..]);
    forall i | 0 <= i < |p.tags| ensures PlacedAt(p, i) {
      assert PlacedAt(r, i + 1);
      assert p.tags[i..] == r.tags[i + 1..];
    }
    if !r.tags[0].primary && r.keys != [] {
      assert r.keys[0] in r.tags[1..];
    }
  }

  // A live tag starting `D` bytes behind the cursor is reached by a write of
  // `len` bytes exactly when fewer than `len` bytes are left beyond it.
  lemma ReachedByWrite(r: Ring, i: nat, len: nat)
    requires WellFormed(r) && i < |r.tags| && 0 < len <= r.capacity
    ensures r.tags[i].offset < r.capacity && r.tags[i].len <= r.capacity
    ensures WriteOverlaps(r.cursor, len, r.capacity, r.tags[i].offset, r.tags[i].len)
       <==> Bytes(r.tags[i..]) + len > r.capacity || Bytes(r.tags[i..]) == 0
  {
    assert PlacedAt(r, i);
    BytesSplit(r.tags, i);
  }

  ghost predicate Suffix(s: seq<TagMeta>, of: seq<TagMeta>) {
    |s| <= |of| && s == of[|of| - |s|..]
  }

  // A suffix keeps the order of stamps, and the last tag.
  lemma SuffixOrder(s: seq<TagMeta>, of: seq<TagMeta>)
    requires Suffix(s, of)
    ensures Sorted(of) ==> Sorted(s)
    ensures s != [] ==> of != [] && s[|s| - 1] == of[|of| - 1]
    ensures forall m | m in s :: m in of
  {
    var dropped := |of| - |s|;
    assert forall i | 0 <= i < |s| :: s[i] == of[dropped + i];
  }

  lemma SuffixOfTail(s: seq<TagMeta>, of: seq<TagMeta>)
    requires of != [] && Suffix(s, of[1..])
    ensures Suffix(s, of)
  {
    assert of[1..][|of| - 1 - |s|..] == of[|of| - |s|..];
  }

  lemma SuffixBytes(s: seq<TagMeta>, of: seq<TagMeta>, i: nat)
    requires Suffix(s, of) && |of| - |s| <= i <= |of|
    ensures s[i - (|of| - |s|)..] == of[i..]
    ensures Bytes(of[i..]) <= Bytes(s)
  {
    BytesSplit(s, i - (|of| - |s|));
  }

  lemma {:induction false} EvictWellFormed(r: Ring, len: nat)
    requires WellFormed(r) && len <= r.capacity
    ensures WellFormed(Evict(r, len))
    ensures Suffix(Evict(r, len).tags, r.tags)
    ensures len > 0 ==> Bytes(Evict(r, len).tags) + len <= r.capacity
    decreases |r.tags|
  {
    if r.tags != [] {
      assert r.tags[0..] == r.tags;
      if len > 0 { ReachedByWrite(r, 0, len); }
      if WriteOverlaps(r.cursor, len, r.capacity, r.tags[0].offset, r.tags[0].len) {
        PopFrontWellFormed(r);
        EvictWellFormed(PopFront(r), len);
        SuffixOfTail(Evict(r, len).tags, r.tags);
      }
    }
  }

  // Everything dropped had fewer than `len` bytes left beyond it.
  lemma {:induction false} EvictedReached(r: Ring, len: nat, i: nat)
    requires WellFormed(r) && 0 < len <= r.capacity
    requires i < |r.tags| - |Evict(r, len).tags| && r.tags[i].len > 0
    ensures Bytes(r.tags[i..]) + len > r.capacity
    decreases |r.tags|
  {
    ReachedByWrite(r, 0, len);
    assert r.tags[0..] == r.tags;
    BytesSplit(r.tags, i);
    assert Bytes(r.tags[i..]) > 0;
    if i > 0 {
      PopFrontWellFormed(r);
      assert r.tags[1..][i - 1..] == r.tags[i..];
      EvictedReached(PopFront(r), len, i - 1);
    }
  }

  /** Popping only from the front is enough, and no more than needed: after the
      loop a tag with bytes is gone exactly when the write covers one of them. */
  lemma EvictExact(r: Ring, len: nat, i: nat)
    requires WellFormed(r) && 0 < len <= r.capacity
    requires i < |r.tags| && r.tags[i].len > 0
    ensures r.tags[i] !in Evict(r, len).tags
       <==> SharesByte(r.capacity, r.cursor, len, r.tags[i].offset, r.tags[i].len)
  {
    var e := Evict(r, len).tags;
    var dropped := |r.tags| - |e|;
    EvictWellFormed(r, len);
    ReachedByWrite(r, i, len);
    WriteOverlapsExact(r.capacity, r.cursor, len, r.tags[i].offset, r.tags[i].len);
    assert Bytes(r.tags[i..]) >= r.tags[i].len;
    if i < dropped {
      EvictedReached(r, len, i);
      NotInSuffix(r, e, i);
    } else {
      SuffixBytes(e, r.tags, i);
      assert e[i - dropped] == r.tags[i];
    }
  }

  /** The one case where the loop evicts a tag nothing overwrites: a payload of
      no bytes, on a ring full to the last byte, costs the oldest tag. */
  lemma EmptyWriteEvicts(r: Ring)
    requires WellFormed(r)
    ensures Evict(r, 0).tags == if r.tags != [] && r.tags[0].len > 0 && Bytes(r.tags) == r.capacity
      then r.tags[1..] else r.tags
  {
    if r.tags != [] {
      assert PlacedAt(r, 0) && r.tags[0..] == r.tags;
      if WriteOverlaps(r.cursor, 0, r.capacity, r.tags[0].offset, r.tags[0].len) {
        PopFrontWellFormed(r);
        var p := PopFront(r);
        assert p.tags != [] ==> PlacedAt(p, 0) && p.tags[0..] == p.tags;
      }
    }
  }

  lemma NotInSuffix(r: Ring, s: seq<TagMeta>, i: nat)
    requires WellFormed(r) && Suffix(s, r.tags) && i < |r.tags| - |s|
    ensures r.tags[i] !in s
  {
    Ascending(r);
  }

  lemma Times(a: nat, b: nat, c: nat)
    ensures a <= b ==> a * c <= b * c
  {
  }

  lemma WrapOnce(x: nat, capacity: nat)
    requires 0 < capacity && x < 2 * capacity
    ensures x % capacity == if x < capacity then x else x - capacity
  {
    var q := x / capacity;
    assert x == q * capacity + x % capacity;
    Times(2, q, capacity);
    assert q == 0 || q == 1;
  }

  lemma BackAdvance(cursor: nat, distance: nat, len: nat, capacity: nat)
    requires cursor < capacity && distance + len <= capacity
    ensures Back((cursor + len) % capacity, distance + len, capacity) == Back(cursor, distance, capacity)
  {
    WrapOnce(cursor + len, capacity);
  }

  lemma PushPlaced(r: Ring, len: nat, ts: nat, kind: nat, isIdr: bool, primary: bool)
    requires r.cursor < r.capacity && Placed(r) && Bytes(r.tags) + len <= r.capacity
    ensures Placed(Push(r, len, ts, kind, isIdr, primary))
    ensures Bytes(Push(r, len, ts, kind, isIdr, primary).tags) == Bytes(r.tags) + len
  {
    var m := NewTag(r, len, ts, kind, isIdr, primary);
    var p := Push(r, len, ts, kind, isIdr, primary);
    BytesPush(r.tags, m);
    forall i | 0 <= i < |p.tags| ensures PlacedAt(p, i) {
      assert i < |r.tags| ==> PlacedAt(r, i);
      var behind := r.tags[i..];
      assert p.tags[i..] == behind + [m];
      BytesPush(behind, m);
      BytesSplit(r.tags, i);
      BackAdvance(r.cursor, Bytes(behind), len, r.capacity);
    }
  }

  lemma PushWellFormed(r: Ring, len: nat, ts: nat, kind: nat, isIdr: bool, primary: bool)
    requires WellFormed(r) && Bytes(r.tags) + len <= r.capacity && (primary ==> isIdr)
    ensures WellFormed(Push(r, len, ts, kind, isIdr, primary))
    ensures Sorted(r.tags) && (r.tags != [] ==> r.tags[|r.tags| - 1].ts <= ts)
        ==> Sorted(Push(r, len, ts, kind, isIdr, primary).tags)
  {
    var m := NewTag(r, len, ts, kind, isIdr, primary);
    PushPlaced(r, len, ts, kind, isIdr, primary);
    PrimariesPush(r.tags, m);
  }

  lemma {:induction false} TrimWellFormed(r: Ring, cutoff: nat, minSeq: nat)
    requires WellFormed(r)
    ensures WellFormed(TrimTo(r, cutoff, minSeq))
    ensures Suffix(TrimTo(r, cutoff, minSeq).tags, r.tags)
    decreases |r.tags|
  {
    if r.tags != [] && r.tags[0].seqNo < minSeq && r.tags[0].ts < cutoff {
      PopFrontWellFormed(r);
      TrimWellFormed(PopFront(r), cutoff, minSeq);
      SuffixOfTail(TrimTo(r, cutoff, minSeq).tags, r.tags);
    }
  }

  /** What trim may not do, whatever the stamps: a dropped tag was both older
      than the cutoff and before `minSeq`, the slowest consumer's position. */
  lemma {:induction false} TrimOnlyOldAndRead(r: Ring, cutoff: nat, minSeq: nat, m: TagMeta)
    requires WellFormed(r) && m in r.tags && m !in TrimTo(r, cutoff, minSeq).tags
    ensures m.ts < cutoff && m.seqNo < minSeq
    decreases |r.tags|
  {
    PopFrontWellFormed(r);
    if m != r.tags[0] {
      TrimOnlyOldAndRead(PopFront(r), cutoff, minSeq, m);
    }
  }

  /** With stamps in order trim drops exactly those tags. */
  lemma {:induction false} TrimExact(r: Ring, cutoff: nat, minSeq: nat, m: TagMeta)
    requires forall i, j | 0 <= i < j < |r.tags| :: r.tags[i].seqNo < r.tags[j].seqNo
    requires Sorted(r.tags) && m in r.tags
    ensures m in TrimTo(r, cutoff, minSeq).tags <==> m.ts >= cutoff || m.seqNo >= minSeq
    decreases |r.tags|
  {
    var i :| 0 <= i < |r.tags| && r.tags[i] == m;
    if r.tags[0].seqNo < minSeq && r.tags[0].ts < cutoff {
      if i > 0 {
        assert r.tags[1..][i - 1] == m;
        TrimExact(PopFront(r), cutoff, minSeq, m);
      } else {
        TrimKeepsSuffix(PopFront(r), cutoff, minSeq);
      }
    }
  }

  lemma {:induction false} TrimKeepsSuffix(r: Ring, cutoff: nat, minSeq: nat)
    ensures Suffix(TrimTo(r, cutoff, minSeq).tags, r.tags)
    decreases |r.tags|
  {
    if r.tags != [] && r.tags[0].seqNo < minSeq && r.tags[0].ts < cutoff {
      TrimKeepsSuffix(PopFront(r), cutoff, minSeq);
      SuffixOfTail(TrimTo(r, cutoff, minSeq).tags, r.tags);
    }
  }

  // ------------------------------------------------------------------ lookups

  function FrontSeq(r: Ring): Option<nat> {
    if r.tags == [] then None else Some(r.tags[0].seqNo)
  }

  function LatestSeq(r: Ring): Option<nat> {
    if r.tags == [] then None else Some(r.tags[|r.tags| - 1].seqNo)
  }

  function OldestTs(r: Ring): Option<nat> {
    if r.tags == [] then None else Some(r.tags[0].ts)
  }

  function LatestTs(r: Ring): Option<nat> {
    if r.tags == [] then None else Some(r.tags[|r.tags| - 1].ts)
  }

  function FindBySeq(r: Ring, s: nat): Option<(nat, TagMeta)> {
    if r.tags == [] || s < r.tags[0].seqNo then None
    else
      var i := s - r.tags[0].seqNo;
      if i < |r.tags| then Some((i, r.tags[i])) else None
  }

  ghost predicate Partitioned(keys: seq<TagMeta>, before: TagMeta -> bool) {
    forall i, j | 0 <= i < j < |keys| :: before(keys[j]) ==> before(keys[i])
  }

  /** `partition_point`: how many leading keyframes satisfy `before`, by binary
      search between `lo` and `hi`. */
  function Bisect(keys: seq<TagMeta>, before: TagMeta -> bool, lo: nat, hi: nat): (pos: nat)
    requires lo <= hi <= |keys|
    ensures lo <= pos <= hi
    decreases hi - lo
  {
    if lo == hi then lo
    else
      var mid := (lo + hi) / 2;
      if before(keys[mid]) then Bisect(keys, before, mid + 1, hi) else Bisect(keys, before, lo, mid)
  }

  function PartitionPoint(keys: seq<TagMeta>, before: TagMeta -> bool): (pos: nat)
    ensures pos <= |keys|
  {
    Bisect(keys, before, 0, |keys|)
  }

  // `pos` is where `before` ends.
  ghost predicate SplitsAt(keys: seq<TagMeta>, before: TagMeta -> bool, pos: nat)
    requires pos <= |keys|
  {
    (forall i | 0 <= i < pos :: before(keys[i])) && (forall i | pos <= i < |keys| :: !before(keys[i]))
  }

  lemma {:induction false} BisectExact(keys: seq<TagMeta>, before: TagMeta -> bool, lo: nat, hi: nat)
    requires lo <= hi <= |keys| && Partitioned(keys, before)
    requires (forall i | 0 <= i < lo :: before(keys[i])) && (forall i | hi <= i < |keys| :: !before(keys[i]))
    ensures SplitsAt(keys, before, Bisect(keys, before, lo, hi))
    decreases hi - lo
  {
    if lo < hi {
      var mid := (lo + hi) / 2;
      if before(keys[mid]) { BisectExact(keys, before, mid + 1, hi); } else { BisectExact(keys, before, lo, mid); }
    }
  }

  lemma PartitionExact(keys: seq<TagMeta>, before: TagMeta -> bool)
    requires Partitioned(keys, before)
    ensures SplitsAt(keys, before, PartitionPoint(keys, before))
  {
    BisectExact(keys, before, 0, |keys|);
  }

  function StampedBy(ts: nat): TagMeta -> bool {
    (m: TagMeta) => m.ts <= ts
  }

  function Before(minSeq: nat): TagMeta -> bool {
    (m: TagMeta) => m.seqNo < minSeq
  }

  function NewestIdrAtOrBefore(r: Ring, ts: nat): (k: Option<TagMeta>)
    ensures k.Some? ==> k.value in r.keys
  {
    var pos := PartitionPoint(r.keys, StampedBy(ts));
    if pos > 0 then Some(r.keys[pos - 1]) else None
  }

  function OldestIdrAtOrAfter(r: Ring, minSeq: nat): (k: Option<TagMeta>)
    ensures k.Some? ==> k.value in r.keys
  {
    var pos := PartitionPoint(r.keys, Before(minSeq));
    if pos < |r.keys| then Some(r.keys[pos]) else None
  }

  function NewestIdr(r: Ring): (k: Option<TagMeta>)
    ensures k.Some? ==> k.value in r.keys
  {
    if r.keys == [] then None else Some(r.keys[|r.keys| - 1])
  }

  function NewestIdrAfter(r: Ring, minSeq: nat): (k: Option<TagMeta>)
    ensures k.Some? ==> k.value in r.keys && k.value.seqNo > minSeq
  {
    if r.keys != [] && r.keys[|r.keys| - 1].seqNo > minSeq then Some(r.keys[|r.keys| - 1]) else None
  }

  function Distance(m: TagMeta, ts: nat): nat {
    if m.ts >= ts then m.ts - ts else ts - m.ts
  }

  function Within(m: TagMeta, ts: nat, tol: nat): Option<TagMeta> {
    if Distance(m, ts) <= tol then Some(m) else None
  }

  function FindIdrNear(r: Ring, ts: nat, tol: nat): (k: Option<TagMeta>)
    ensures k.Some? ==> k.value in r.keys
  {
    var pos := PartitionPoint(r.keys, StampedBy(ts));
    if 0 < pos < |r.keys| then
      var b, a := r.keys[pos - 1], r.keys[pos];
      if Distance(b, ts) <= Distance(a, ts)
      then if Distance(b, ts) <= tol then Some(b) else Within(a, ts, tol)
      else if Distance(a, ts) <= tol then Some(a) else Within(b, ts, tol)
    else if pos > 0 then Within(r.keys[pos - 1], ts, tol)
    else if pos < |r.keys| then Within(r.keys[pos], ts, tol)
    else None
  }

  function UsableBytes(capacity: nat): nat {
    capacity - capacity / 16
  }

  function IsSaturated(r: Ring): bool {
    Bytes(r.tags) >= UsableBytes(r.capacity)
  }

  // ------------------------------------------------------- lookups, theorems

  /** Seq arithmetic finds the tag a scan of the index would find, and nothing else. */
  lemma FindBySeqExact(r: Ring, s: nat)
    requires WellFormed(r)
    ensures FindBySeq(r, s).None? <==> forall m | m in r.tags :: m.seqNo != s
    ensures FindBySeq(r, s).Some? ==>
      var (i, m) := FindBySeq(r, s).value; i < |r.tags| && r.tags[i] == m && m.seqNo == s
    ensures FindBySeq(r, s).None? <==> r.tags == [] || s < r.tags[0].seqNo || s >= r.nextSeq
  {
    if FindBySeq(r, s).Some? {
      assert FindBySeq(r, s).value.1 in r.tags;
    }
  }

  lemma NewestStampedBy(keys: seq<TagMeta>, ts: nat)
    requires Sorted(keys)
    requires forall i, j | 0 <= i < j < |keys| :: keys[i].seqNo < keys[j].seqNo
    ensures var pos := PartitionPoint(keys, StampedBy(ts));
      && (forall m | m in keys && m.ts <= ts :: pos > 0 && m.seqNo <= keys[pos - 1].seqNo)
      && (pos > 0 ==> keys[pos - 1].ts <= ts && forall m | m in keys && m.seqNo > keys[pos - 1].seqNo :: m.ts > ts)
  {
    PartitionExact(keys, StampedBy(ts));
  }

  /** With keyframe stamps in order: the newest of the keyframes stamped at or
      before `ts`, and none only when every live keyframe is newer. */
  lemma NewestIdrAtOrBeforeExact(r: Ring, ts: nat)
    requires WellFormed(r) && Sorted(r.keys)
    ensures NewestIdrAtOrBefore(r, ts).None? <==> forall m | m in r.tags && m.primary :: m.ts > ts
    ensures NewestIdrAtOrBefore(r, ts).Some? ==>
      var k := NewestIdrAtOrBefore(r, ts).value;
      && k in r.tags && k.primary && k.ts <= ts
      && (forall m | m in r.tags && m.primary && m.ts <= ts :: m.seqNo <= k.seqNo)
      && (forall m | m in r.tags && m.primary && m.seqNo > k.seqNo :: m.ts > ts)
  {
    Ascending(r);
    NewestStampedBy(r.keys, ts);
  }

  lemma FirstFrom(keys: seq<TagMeta>, minSeq: nat)
    requires forall i, j | 0 <= i < j < |keys| :: keys[i].seqNo < keys[j].seqNo
    ensures var pos := PartitionPoint(keys, Before(minSeq));
      && (forall m | m in keys && m.seqNo >= minSeq :: pos < |keys| && m.seqNo >= keys[pos].seqNo)
      && (pos < |keys| ==> keys[pos].seqNo >= minSeq)
  {
    PartitionExact(keys, Before(minSeq));
  }

  /** Exact whatever the stamps: the first keyframe at or past `minSeq`. */
  lemma OldestIdrAtOrAfterExact(r: Ring, minSeq: nat)
    requires WellFormed(r)
    ensures OldestIdrAtOrAfter(r, minSeq).None? <==> forall m | m in r.tags && m.primary :: m.seqNo < minSeq
    ensures OldestIdrAtOrAfter(r, minSeq).Some? ==>
      var k := OldestIdrAtOrAfter(r, minSeq).value;
      && k in r.tags && k.primary && k.seqNo >= minSeq
      && forall m | m in r.tags && m.primary && m.seqNo >= minSeq :: m.seqNo >= k.seqNo
  {
    Ascending(r);
    FirstFrom(r.keys, minSeq);
  }

  /** Past `minSeq`, the newest live keyframe; the newest of all when there is no such bound. */
  lemma NewestIdrExact(r: Ring, minSeq: nat)
    requires WellFormed(r)
    ensures var after, newest := NewestIdrAfter(r, minSeq), NewestIdr(r);
      && (after.None? <==> forall m | m in r.tags && m.primary :: m.seqNo <= minSeq)
      && (after.Some? ==> after == newest)
      && (newest.None? <==> forall m | m in r.tags :: !m.primary)
      && (newest.Some? ==>
            && newest.value in r.tags && newest.value.primary
            && forall m | m in r.tags && m.primary :: m.seqNo <= newest.value.seqNo)
  {
    Ascending(r);
    if r.keys != [] {
      var last := r.keys[|r.keys| - 1];
      assert last in r.keys;
      forall m | m in r.keys ensures m.seqNo <= last.seqNo {
        var i :| 0 <= i < |r.keys| && r.keys[i] == m;
      }
    }
  }

  lemma Neighbours(keys: seq<TagMeta>, ts: nat)
    requires Sorted(keys)
    ensures var pos := PartitionPoint(keys, StampedBy(ts));
      forall m | m in keys ::
        if m.ts <= ts then pos > 0 && m.ts <= keys[pos - 1].ts <= ts
        else pos < |keys| && ts < keys[pos].ts <= m.ts
    ensures var pos := PartitionPoint(keys, StampedBy(ts));
      && (pos > 0 ==> keys[pos - 1].ts <= ts) && (pos < |keys| ==> keys[pos].ts > ts)
  {
    PartitionExact(keys, StampedBy(ts));
  }

  lemma NoneStampedAfter(keys: seq<TagMeta>, ts: nat)
    requires forall i | 0 <= i < |keys| :: keys[i].ts <= ts
    ensures PartitionPoint(keys, StampedBy(ts)) == |keys|
  {
    var stamped := StampedBy(ts);
    assert forall i | 0 <= i < |keys| :: stamped(keys[i]);
    PartitionExact(keys, stamped);
    var pos := PartitionPoint(keys, stamped);
    var i := if pos < |keys| then pos else 0;
    assert keys != [] ==> stamped(keys[i]);
  }

  lemma NearIsClosest(r: Ring, ts: nat, tol: nat)
    requires Sorted(r.keys)
    ensures FindIdrNear(r, ts, tol).None? <==> forall m | m in r.keys :: Distance(m, ts) > tol
    ensures FindIdrNear(r, ts, tol).Some? ==>
      var k := FindIdrNear(r, ts, tol).value;
      Distance(k, ts) <= tol && forall m | m in r.keys ::
        Distance(k, ts) < Distance(m, ts) || (Distance(k, ts) == Distance(m, ts) && k.ts <= m.ts)
  {
    Neighbours(r.keys, ts);
    var pos := PartitionPoint(r.keys, StampedBy(ts));
    if pos > 0 { assert r.keys[pos - 1] in r.keys; }
    if pos < |r.keys| { assert r.keys[pos] in r.keys; }
  }

  /** With keyframe stamps in order: the closest live keyframe, the earlier
      stamp on a tie, and none only when every keyframe is out of tolerance. */
  lemma FindIdrNearExact(r: Ring, ts: nat, tol: nat)
    requires WellFormed(r) && Sorted(r.keys)
    ensures FindIdrNear(r, ts, tol).None? <==> forall m | m in r.tags && m.primary :: Distance(m, ts) > tol
    ensures FindIdrNear(r, ts, tol).Some? ==>
      var k := FindIdrNear(r, ts, tol).value;
      && k in r.tags && k.primary && Distance(k, ts) <= tol
      && forall m | m in r.tags && m.primary ::
           Distance(k, ts) < Distance(m, ts) || (Distance(k, ts) == Distance(m, ts) && k.ts <= m.ts)
  {
    Ascending(r);
    NearIsClosest(r, ts, tol);
  }
}
