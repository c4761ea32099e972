/**
 * The disk ring itself (src/buffer.rs): a fixed file written in laps, an index
 * of what is live and an index of cut points, updated in place.
 *
 * `appended` is the history the ring must stay true to: the tag given to `Append`
 * under each seq, never forgotten. `Valid` says that every live tag is indexed as
 * that one and that its bytes in the file still are its payload, so a read after any
 * number of laps, trims, clears and failed writes returns exactly what was appended.
 */
module Buffer {
  import opened Wrappers
  import opened RingView
  import opened TagFormat

  datatype IoError = DiskError

  /** A tag as it was appended. */
  datatype Tag = Tag(kind: nat, ts: nat, payload: seq<byte>, isIdr: bool)

  // The file's bytes at `m`'s place are `payload`.
  predicate Holds(file: seq<byte>, m: TagMeta, payload: seq<byte>) {
    && m.offset < |file| && m.len <= |file| && |payload| == m.len
    && forall j | 0 <= j < m.len :: file[At(m.offset, j, |file|)] == payload[j]
  }

  // `after` is `before` except inside `len` bytes from `offset`.
  predicate OnlyWritten(before: seq<byte>, after: seq<byte>, offset: nat, len: nat) {
    && |before| == |after|
    && forall p | 0 <= p < |before| :: Contains(offset, len, |before|, p) || after[p] == before[p]
  }

  // The file and the tag's flags are what the history says.
  ghost predicate Faithful(m: TagMeta, appended: map<nat, Tag>, file: seq<byte>) {
    && m.seqNo in appended
    && var tag := appended[m.seqNo];
       && Holds(file, m, tag.payload)
       && m.kind == tag.kind && m.ts == tag.ts && m.isIdr == tag.isIdr
       && (m.primary <==> tag.isIdr && IsPrimaryVideoIdr(tag.payload))
  }

  ghost predicate AllFaithful(index: seq<TagMeta>, appended: map<nat, Tag>, file: seq<byte>) {
    forall m | m in index :: Faithful(m, appended, file)
  }

  lemma FewerFaithful(s: seq<TagMeta>, of: seq<TagMeta>, appended: map<nat, Tag>, file: seq<byte>)
    requires Suffix(s, of) && AllFaithful(of, appended, file)
    ensures AllFaithful(s, appended, file)
  {
    assert forall m | m in s :: m in of;
  }

  lemma KeptTagsUntouched(r: Ring, len: nat, before: seq<byte>, after: seq<byte>, appended: map<nat, Tag>)
    requires WellFormed(r) && |before| == r.capacity && len <= r.capacity
    requires len > 0 ==> Bytes(r.tags) + len <= r.capacity
    requires OnlyWritten(before, after, r.cursor, len)
    requires AllFaithful(r.tags, appended, before)
    ensures AllFaithful(r.tags, appended, after)
  {
    forall m | m in r.tags ensures Faithful(m, appended, after) {
      assert Faithful(m, appended, before);
      KeptTagUntouched(r, len, m, before, after, appended[m.seqNo].payload);
    }
  }

  lemma NewTagFaithful(r: Ring, tag: Tag, m: TagMeta, appended: map<nat, Tag>, file: seq<byte>)
    requires AllFaithful(r.tags, appended, file) && |file| == r.capacity
    requires WellFormed(r) && m.seqNo == r.nextSeq
    requires m.offset == r.cursor && m.len == |tag.payload| <= r.capacity
    requires m.kind == tag.kind && m.ts == tag.ts && m.isIdr == tag.isIdr
    requires m.primary <==> tag.isIdr && IsPrimaryVideoIdr(tag.payload)
    requires forall k | 0 <= k < |tag.payload| :: file[At(r.cursor, k, r.capacity)] == tag.payload[k]
    ensures AllFaithful(r.tags + [m], appended[m.seqNo := tag], file)
  {
    Ascending(r);
    forall t | t in r.tags ensures Faithful(t, appended[m.seqNo := tag], file) {
      assert Faithful(t, appended, file);
    }
    assert Faithful(m, appended[m.seqNo := tag], file);
  }

  lemma PushFaithful(r: Ring, tag: Tag, primary: bool, appended: map<nat, Tag>, file: seq<byte>)
    requires WellFormed(r) && AllFaithful(r.tags, appended, file) && |file| == r.capacity
    requires Bytes(r.tags) + |tag.payload| <= r.capacity
    requires primary <==> tag.isIdr && IsPrimaryVideoIdr(tag.payload)
    requires forall k | 0 <= k < |tag.payload| :: file[At(r.cursor, k, r.capacity)] == tag.payload[k]
    ensures var p := Push(r, |tag.payload|, tag.ts, tag.kind, tag.isIdr, primary);
      && WellFormed(p) && Bytes(p.tags) == Bytes(r.tags) + |tag.payload|
      && AllFaithful(p.tags, appended[r.nextSeq := tag], file)
  {
    var m := NewTag(r, |tag.payload|, tag.ts, tag.kind, tag.isIdr, primary);
    PushWellFormed(r, |tag.payload|, tag.ts, tag.kind, tag.isIdr, primary);
    BytesPush(r.tags, m);
    NewTagFaithful(r, tag, m, appended, file);
  }

  // A write at the cursor cannot touch a tag the eviction kept.
  lemma KeptTagUntouched(r: Ring, len: nat, m: TagMeta, before: seq<byte>, after: seq<byte>, payload: seq<byte>)
    requires WellFormed(r) && |before| == r.capacity && len <= r.capacity
    requires len > 0 ==> Bytes(r.tags) + len <= r.capacity
    requires OnlyWritten(before, after, r.cursor, len)
    requires m in r.tags && Holds(before, m, payload)
    ensures Holds(after, m, payload)
  {
    var i :| 0 <= i < |r.tags| && r.tags[i] == m;
    assert PlacedAt(r, i);
    BytesSplit(r.tags, i);
    assert Bytes(r.tags[i..]) == m.len + Bytes(r.tags[i + 1..]) by { assert r.tags[i..][1..] == r.tags[i + 1..]; }
    forall j | 0 <= j < m.len ensures after[At(m.offset, j, |after|)] == payload[j] {
      assert !Contains(r.cursor, len, r.capacity, At(m.offset, j, r.capacity));
    }
  }

  class DiskRing {
    const capacity: nat
    const file: array<byte>
    var writeCursor: nat
    var nextSeq: nat
    var index: seq<TagMeta>
    var idrIndex: seq<TagMeta>
    var indexedBytes: nat
    var videoSeqHeaders: map<byte, seq<byte>>
    var audioSeqHeaders: map<byte, seq<byte>>
    var metadata: Option<seq<byte>>
    ghost var appended: map<nat, Tag>

    function View(): Ring
      reads this
    {
      Ring(capacity, writeCursor, nextSeq, index, idrIndex)
    }

    ghost predicate Valid()
      reads this, file
    {
      && file.Length == capacity
      && WellFormed(View())
      && indexedBytes == Bytes(index)
      && AllFaithful(index, appended, file[..])
      && (forall s | s in appended :: s < nextSeq)
    }

    constructor (capacity: nat)
      requires capacity > 0
      ensures Valid() && fresh(file) && this.capacity == capacity
      ensures View() == Ring(capacity, 0, 0, [], []) && appended == map[]
      ensures videoSeqHeaders == map[] && audioSeqHeaders == map[] && metadata == None
    {
      this.capacity := capacity;
      file := new byte[capacity](_ => 0);
      writeCursor, nextSeq, index, idrIndex, indexedBytes := 0, 0, [], [], 0;
      videoSeqHeaders, audioSeqHeaders, metadata, appended := map[], map[], None, map[];
    }

    /** One front tag leaves both indexes. */
    method EvictFront()
      requires index != [] && indexedBytes == Bytes(index)
      modifies this`index, this`idrIndex, this`indexedBytes
      ensures View() == PopFront(old(View())) && indexedBytes == Bytes(index)
    {
      var front := index[0];
      index := index[1..];
      indexedBytes := indexedBytes - front.len;
      if front.isIdr && idrIndex != [] && idrIndex[0].seqNo == front.seqNo {
        idrIndex := idrIndex[1..];
      }
    }

    method PopOverlapped(len: nat)
      requires indexedBytes == Bytes(index)
      modifies this`index, this`idrIndex, this`indexedBytes
      ensures View() == Evict(old(View()), len) && indexedBytes == Bytes(index)
    {
      while index != [] && WriteOverlaps(writeCursor, len, capacity, index[0].offset, index[0].len)
        invariant Evict(View(), len) == Evict(old(View()), len)
        invariant indexedBytes == Bytes(index)
        decreases |index|
      {
        EvictFront();
      }
    }

    // Evict any tag whose bytes the next `len` written would overwrite.
    method EvictOverlapped(len: nat)
      requires Valid() && len <= capacity
      modifies this`index, this`idrIndex, this`indexedBytes
      ensures Valid() && View() == Evict(old(View()), len)
      ensures len > 0 ==> Bytes(index) + len <= capacity
    {
      EvictWellFormed(View(), len);
      PopOverlapped(len);
      FewerFaithful(index, old(index), appended, file[..]);
    }

    // Two seeks and writes when the bytes straddle the end of the file.
    method WriteAt(offset: nat, data: seq<byte>)
      requires Valid() && offset == writeCursor && |data| <= capacity
      requires |data| > 0 ==> Bytes(index) + |data| <= capacity
      modifies file
      ensures Valid()
      ensures forall k | 0 <= k < |data| :: file[At(offset, k, capacity)] == data[k]
    {
      ghost var before := file[..];
      if offset + |data| <= capacity {
        forall k | 0 <= k < |data| { file[offset + k] := data[k]; }
      } else {
        var first := capacity - offset;
        forall k | 0 <= k < first { file[offset + k] := data[k]; }
        forall k | 0 <= k < |data| - first { file[k] := data[first + k]; }
      }
      KeptTagsUntouched(View(), |data|, before, file[..], appended);
    }

    // The payload just written at the cursor becomes the newest tag.
    method IndexTag(kind: nat, ts: nat, payload: seq<byte>, isIdr: bool, primary: bool) returns (s: nat)
      requires primary <==> isIdr && IsPrimaryVideoIdr(payload)
      requires Valid() && Bytes(index) + |payload| <= capacity
      requires forall k | 0 <= k < |payload| :: file[At(writeCursor, k, capacity)] == payload[k]
      modifies this`index, this`idrIndex, this`indexedBytes, this`nextSeq, this`writeCursor, this`appended
      ensures Valid() && s == old(nextSeq)
      ensures View() == Push(old(View()), |payload|, ts, kind, isIdr, primary)
      ensures appended == old(appended)[old(nextSeq) := Tag(kind, ts, payload, isIdr)]
    {
      var meta := TagMeta(nextSeq, writeCursor, |payload|, ts, kind, isIdr, primary);
      ghost var was := View();
      PushFaithful(was, Tag(kind, ts, payload, isIdr), primary, appended, file[..]);
      s := nextSeq;
      nextSeq := nextSeq + 1;
      writeCursor := (writeCursor + |payload|) % capacity;
      appended := appended[s := Tag(kind, ts, payload, isIdr)];
      index := index + [meta];
      indexedBytes := indexedBytes + |payload|;
      if primary {
        idrIndex := idrIndex + [meta];
      }
      assert View() == Push(was, |payload|, ts, kind, isIdr, primary);
    }

    /** `fault` is the disk's doing: `Some(left)` is a write that failed and left
        those bytes in the range it was writing, whatever they are. */
    method Append(kind: nat, ts: nat, payload: seq<byte>, isIdr: bool, isSeqHeader: bool, fault: Option<seq<byte>>)
      returns (r: Result<Option<nat>, IoError>)
      requires Valid()
      requires fault.Some? ==> |fault.value| == |payload|
      modifies this, file
      ensures Valid()
      ensures isSeqHeader || kind == SCRIPT || |payload| > capacity / 2 ==>
        r == Ok(None) && View() == old(View()) && appended == old(appended) && file[..] == old(file[..])
      ensures !isSeqHeader && kind != SCRIPT && |payload| <= capacity / 2 && fault.Some? ==>
        r == Err(DiskError) && View() == Evict(old(View()), |payload|) && appended == old(appended)
      ensures !isSeqHeader && kind != SCRIPT && |payload| <= capacity / 2 && fault.None? ==>
        && r == Ok(Some(old(nextSeq)))
        && View() == Push(Evict(old(View()), |payload|), |payload|, ts, kind, isIdr,
                          isIdr && IsPrimaryVideoIdr(payload))
        && appended == old(appended)[old(nextSeq) := Tag(kind, ts, payload, isIdr)]
      ensures videoSeqHeaders == if isSeqHeader && kind == VIDEO
        then old(videoSeqHeaders)[VideoTrackId(payload) := payload] else old(videoSeqHeaders)
      ensures audioSeqHeaders == if isSeqHeader && kind == AUDIO
        then old(audioSeqHeaders)[AudioTrackId(payload) := payload] else old(audioSeqHeaders)
      ensures metadata == if !isSeqHeader && kind == SCRIPT then Some(payload) else old(metadata)
    {
      if isSeqHeader {
        if kind == VIDEO {
          videoSeqHeaders := videoSeqHeaders[VideoTrackId(payload) := payload];
        } else if kind == AUDIO {
          audioSeqHeaders := audioSeqHeaders[AudioTrackId(payload) := payload];
        }
        return Ok(None);
      }
      if kind == SCRIPT {
        metadata := Some(payload);
        return Ok(None);
      }
      if |payload| > capacity / 2 {
        return Ok(None);
      }
      EvictOverlapped(|payload|);
      WriteAt(writeCursor, if fault.Some? then fault.value else payload);
      if fault.Some? {
        return Err(DiskError);
      }
      var s := IndexTag(kind, ts, payload, isIdr, isIdr && IsPrimaryVideoIdr(payload));
      return Ok(Some(s));
    }

    /** A live seq reads back the payload appended under it; any other seq reads
        as none. */
    method TryReadSeq(s: nat, fault: bool) returns (r: Result<Option<seq<byte>>, IoError>)
      requires Valid()
      ensures (exists m :: m in index && m.seqNo == s) ==>
        r == if fault then Err(DiskError) else Ok(Some(appended[s].payload))
      ensures (forall m | m in index :: m.seqNo != s) ==> r == Ok(None)
    {
      FindBySeqExact(View(), s);
      if index == [] || s < index[0].seqNo {
        return Ok(None);
      }
      var idx := s - index[0].seqNo;
      if idx >= |index| {
        return Ok(None);
      }
      var meta := index[idx];
      assert meta in index && Faithful(meta, appended, file[..]);
      if fault {
        return Err(DiskError);
      }
      var end := meta.offset + meta.len;
      var buf;
      if end <= capacity {
        buf := file[meta.offset..end];
      } else {
        buf := file[meta.offset..] + file[..end - capacity];
      }
      assert buf == appended[s].payload by {
        forall j | 0 <= j < meta.len ensures buf[j] == appended[s].payload[j] {
          assert file[..][At(meta.offset, j, capacity)] == appended[s].payload[j];
        }
      }
      return Ok(Some(buf));
    }

    method PopOlderThan(cutoff: nat, minSeq: nat)
      requires indexedBytes == Bytes(index)
      modifies this`index, this`idrIndex, this`indexedBytes
      ensures View() == TrimTo(old(View()), cutoff, minSeq) && indexedBytes == Bytes(index)
    {
      while index != [] && index[0].seqNo < minSeq && index[0].ts < cutoff
        invariant TrimTo(View(), cutoff, minSeq) == TrimTo(old(View()), cutoff, minSeq)
        invariant indexedBytes == Bytes(index)
        decreases |index|
      {
        EvictFront();
      }
    }

    method TrimOlderThan(maxAgeMs: nat, currentTs: nat, minSeq: nat)
      requires Valid()
      modifies this`index, this`idrIndex, this`indexedBytes
      ensures Valid()
      ensures View() == Trimmed(old(View()), maxAgeMs, currentTs, minSeq)
    {
      var cutoff := Minus(currentTs, maxAgeMs);
      TrimWellFormed(View(), cutoff, minSeq);
      PopOlderThan(cutoff, minSeq);
      FewerFaithful(index, old(index), appended, file[..]);
    }

    // The per-session caches beside the ring.
    method ForgetHeaders()
      modifies this`videoSeqHeaders, this`audioSeqHeaders, this`metadata
      ensures videoSeqHeaders == map[] && audioSeqHeaders == map[] && metadata == None
      ensures old(Valid()) ==> Valid()
    {
      videoSeqHeaders, audioSeqHeaders, metadata := map[], map[], None;
    }

    method Clear()
      requires Valid()
      modifies this`index, this`idrIndex, this`indexedBytes
      ensures Valid() && View() == Cleared(old(View()))
      ensures index == [] && idrIndex == [] && nextSeq == old(nextSeq) && writeCursor == old(writeCursor)
    {
      index, idrIndex, indexedBytes := [], [], 0;
    }
  }
}
