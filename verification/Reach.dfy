/**
 * What one arriving tag does to the ring (src/controller.rs, `on_tag`): append,
 * then trim to the armed delay. The question is whether a delay that the ring
 * reached before the tag is still reached after it.
 */
module Reach {
  import opened Wrappers
  import opened RingView
  import opened Cuts
  import opened TagFormat

  const MIN_BUFFER_MS: nat := 2_000
  const BUFFER_SLACK_MS: nat := 2_000
  const NO_SEQ: nat := 0xFFFF_FFFF_FFFF_FFFF

  /** A tag from ingest, its stamp already expanded. `stored` is whether the disk
      took the bytes; on_tag ignores an append that failed and trims all the same. */
  datatype Arrival = Arrival(kind: nat, ts: nat, len: nat, isIdr: bool, primary: bool, isSeqHeader: bool, stored: bool)

  predicate Bypasses(r: Ring, a: Arrival) {
    a.isSeqHeader || a.kind == SCRIPT || a.len > r.capacity / 2
  }

  function Appended(r: Ring, a: Arrival): Ring
    requires r.capacity > 0
  {
    if Bypasses(r, a) then r
    else if !a.stored then Evict(r, a.len)
    else Push(Evict(r, a.len), a.len, a.ts, a.kind, a.isIdr, a.primary)
  }

  function TargetBuffer(armed: nat): nat {
    if armed == 0 then MIN_BUFFER_MS else armed
  }

  function Cutoff(armed: nat, ts: nat): nat {
    Minus(ts, TargetBuffer(armed) + BUFFER_SLACK_MS)
  }

  // The first seq the trim must keep: the slowest consumer's position, or the
  // keyframe a delay of the whole buffer lands on.
  function KeepFrom(r: Ring, armed: nat, ts: nat, slowest: nat): nat {
    var k := NewestIdrAtOrBefore(r, Minus(ts, TargetBuffer(armed)));
    Min(slowest, if k.Some? then k.value.seqNo else NO_SEQ)
  }

  function TrimFor(r: Ring, armed: nat, ts: nat, slowest: nat): Ring {
    TrimTo(r, Cutoff(armed, ts), KeepFrom(r, armed, ts, slowest))
  }

  function OnTag(r: Ring, armed: nat, slowest: nat, a: Arrival): Ring
    requires r.capacity > 0
  {
    if a.isSeqHeader then r else TrimFor(Appended(r, a), armed, a.ts, slowest)
  }

  // The tag is a possible one, and its stamp does not go back.
  ghost predicate InOrder(r: Ring, a: Arrival) {
    && (a.primary ==> a.isIdr)
    && (LatestTs(r).Some? ==> LatestTs(r).value <= a.ts)
  }

  lemma EvictSorted(r: Ring, len: nat)
    requires WellFormed(r) && len <= r.capacity
    ensures Sorted(r.tags) ==> Sorted(Evict(r, len).tags)
    ensures LatestTs(Evict(r, len)).Some? ==> LatestTs(Evict(r, len)) == LatestTs(r)
  {
    EvictWellFormed(r, len);
    SuffixOrder(Evict(r, len).tags, r.tags);
  }

  lemma AppendedWellFormed(r: Ring, a: Arrival)
    requires WellFormed(r) && (a.primary ==> a.isIdr)
    ensures WellFormed(Appended(r, a))
    ensures Sorted(r.tags) && InOrder(r, a) ==> Sorted(Appended(r, a).tags)
  {
    if !Bypasses(r, a) {
      var e := Evict(r, a.len);
      EvictWellFormed(r, a.len);
      EvictSorted(r, a.len);
      if a.stored { PushWellFormed(e, a.len, a.ts, a.kind, a.isIdr, a.primary); }
    }
  }

  lemma OnTagWellFormed(r: Ring, armed: nat, slowest: nat, a: Arrival)
    requires WellFormed(r) && (a.primary ==> a.isIdr)
    ensures WellFormed(OnTag(r, armed, slowest, a))
    ensures Sorted(r.tags) && InOrder(r, a) ==> Sorted(OnTag(r, armed, slowest, a).tags)
  {
    var p := Appended(r, a);
    AppendedWellFormed(r, a);
    TrimWellFormed(p, Cutoff(armed, a.ts), KeepFrom(p, armed, a.ts, slowest));
  }

  /** Trim never takes a tag at or past the slowest consumer's position, whatever
      the stamps: no read in flight, on any destination, loses its tag to it. */
  lemma TrimSparesConsumers(r: Ring, armed: nat, slowest: nat, a: Arrival, m: TagMeta)
    requires WellFormed(r) && (a.primary ==> a.isIdr)
    requires m in Appended(r, a).tags && m.seqNo >= slowest
    ensures m in OnTag(r, armed, slowest, a).tags
  {
    var p := Appended(r, a);
    AppendedWellFormed(r, a);
    if !a.isSeqHeader && m !in OnTag(r, armed, slowest, a).tags {
      TrimOnlyOldAndRead(p, Cutoff(armed, a.ts), KeepFrom(p, armed, a.ts, slowest), m);
    }
  }

  // Where a delay of the whole buffer would land: nothing from there on may go.
  ghost predicate Behind(tags: seq<TagMeta>, m: TagMeta, edge: nat) {
    exists k :: k in tags && k.primary && k.ts <= edge && m.seqNo < k.seqNo
  }

  /** And it keeps no more than it must. With stamps in order a tag goes exactly when it is
      over two seconds older than the armed delay (or than two seconds, with none), read
      by every consumer, and not needed for the delay: a keyframe after it is old enough,
      or there is none to land on. */
  lemma TrimDropsTheRest(r: Ring, armed: nat, slowest: nat, a: Arrival, m: TagMeta)
    requires WellFormed(r) && Sorted(r.tags) && InOrder(r, a) && r.nextSeq < NO_SEQ
    requires !a.isSeqHeader && m in Appended(r, a).tags
    ensures var p := Appended(r, a).tags;
      var buffer := if armed == 0 then 2_000 else armed;
      m !in OnTag(r, armed, slowest, a).tags <==>
        && m.ts + buffer + 2_000 < a.ts && m.seqNo < slowest
        && (Behind(p, m, Minus(a.ts, buffer)) || forall k | k in p && k.primary :: k.ts > Minus(a.ts, buffer))
  {
    var p := Appended(r, a);
    AppendedWellFormed(r, a);
    AppendedSeqs(r, a);
    Ascending(p);
    var edge := Minus(a.ts, TargetBuffer(armed));
    NewestIdrAtOrBeforeExact(p, edge);
    TrimExact(p, Cutoff(armed, a.ts), KeepFrom(p, armed, a.ts, slowest), m);
  }

  lemma AppendedSeqs(r: Ring, a: Arrival)
    requires WellFormed(r)
    ensures Appended(r, a).nextSeq <= r.nextSeq + 1
  {
  }

  /** So what a pump has left to air stays in the ring, whatever ingest goes on
      sending, as long as its bytes are not written over. */
  lemma TailStaysLive(r: Ring, armed: nat, slowest: nat, a: Arrival, cursor: nat, end: nat)
    requires WellFormed(r) && (a.primary ==> a.isIdr)
    requires cursor <= end && Spans(r, cursor, end) && slowest <= cursor
    requires Bypasses(r, a) || Spans(Evict(r, a.len), cursor, end)
    ensures Spans(OnTag(r, armed, slowest, a), cursor, end)
  {
    var p := Appended(r, a);
    AppendedWellFormed(r, a);
    OnTagWellFormed(r, armed, slowest, a);
    assert Spans(p, cursor, end);
    var m := p.tags[cursor - p.tags[0].seqNo];
    assert m in p.tags && m.seqNo == cursor;
    TrimSparesConsumers(r, armed, slowest, a, m);
    var t := OnTag(r, armed, slowest, a);
    var i :| 0 <= i < |t.tags| && t.tags[i] == m;
    Ascending(t);
  }

  // A trim that spares tag `k` leaves it, and everything after it, where it was.
  lemma SparedBy(p: Ring, cutoff: nat, keepFrom: nat, k: TagMeta)
    requires WellFormed(p) && k in p.tags && (k.ts >= cutoff || k.seqNo >= keepFrom)
    ensures var t := TrimTo(p, cutoff, keepFrom);
      WellFormed(t) && k in t.tags && (Sorted(p.tags) ==> Sorted(t.tags)) && LatestTs(t) == LatestTs(p)
  {
    var t := TrimTo(p, cutoff, keepFrom);
    assert k in t.tags by {
      if k !in t.tags { TrimOnlyOldAndRead(p, cutoff, keepFrom, k); }
    }
    TrimWellFormed(p, cutoff, keepFrom);
    SuffixOrder(t.tags, p.tags);
  }

  // A keyframe old enough in a sorted ring is a landing, or an older cousin of one.
  lemma ReachedBy(r: Ring, target: nat, freshFrom: nat, k: TagMeta)
    requires WellFormed(r) && Sorted(r.tags) && Allowed(r, target, freshFrom, k)
    ensures AtDelay(r, target, freshFrom).Some? && AtDelay(r, target, freshFrom).value.seqNo >= k.seqNo
  {
    Ascending(r);
    AtDelayExact(r, target, freshFrom);
  }

  // Nothing becomes a landing by being trimmed around.
  lemma NoNewLanding(p: Ring, target: nat, freshFrom: nat, cutoff: nat, keepFrom: nat)
    requires WellFormed(p) && Sorted(p.tags)
    ensures var t := TrimTo(p, cutoff, keepFrom);
      AtDelay(t, target, freshFrom).Some? ==>
        && Allowed(p, target, freshFrom, AtDelay(t, target, freshFrom).value)
        && AtDelay(t, target, freshFrom).value in t.tags
  {
    var t := TrimTo(p, cutoff, keepFrom);
    TrimWellFormed(p, cutoff, keepFrom);
    Ascending(t);
    AtDelayExact(t, target, freshFrom);
  }

  lemma EarlierSeqEarlierTs(r: Ring, a: TagMeta, b: TagMeta)
    requires WellFormed(r) && Sorted(r.tags) && a in r.tags && b in r.tags && a.seqNo <= b.seqNo
    ensures a.ts <= b.ts
  {
    Ascending(r);
    var i :| 0 <= i < |r.tags| && r.tags[i] == a;
    var j :| 0 <= j < |r.tags| && r.tags[j] == b;
  }

  lemma SparedIsKept(p: Ring, target: nat, freshFrom: nat, cutoff: nat, keepFrom: nat, k: TagMeta)
    requires WellFormed(p) && Sorted(p.tags) && AtDelay(p, target, freshFrom) == Some(k)
    requires k.ts >= cutoff || k.seqNo >= keepFrom
    ensures var landing := AtDelay(TrimTo(p, cutoff, keepFrom), target, freshFrom);
      landing.Some? && landing.value.seqNo == k.seqNo
  {
    var t := TrimTo(p, cutoff, keepFrom);
    assert Sorted(p.keys) by { Ascending(p); }
    AtDelayExact(p, target, freshFrom);
    SparedBy(p, cutoff, keepFrom, k);
    ReachedBy(t, target, freshFrom, k);
    NoNewLanding(p, target, freshFrom, cutoff, keepFrom);
  }

  lemma TrimmedIsLost(p: Ring, target: nat, freshFrom: nat, cutoff: nat, keepFrom: nat, k: TagMeta)
    requires WellFormed(p) && Sorted(p.tags) && AtDelay(p, target, freshFrom) == Some(k)
    requires k.ts < cutoff && k.seqNo < keepFrom
    ensures AtDelay(TrimTo(p, cutoff, keepFrom), target, freshFrom).None?
  {
    var landing := AtDelay(TrimTo(p, cutoff, keepFrom), target, freshFrom);
    assert Sorted(p.keys) by { Ascending(p); }
    AtDelayExact(p, target, freshFrom);
    NoNewLanding(p, target, freshFrom, cutoff, keepFrom);
    if landing.Some? {
      EarlierSeqEarlierTs(p, landing.value, k);
      assert forall i, j | 0 <= i < j < |p.tags| :: p.tags[i].seqNo < p.tags[j].seqNo by { Ascending(p); }
      TrimExact(p, cutoff, keepFrom, landing.value);
    }
  }

  /** Of the keyframes a delay could land on, the trim at stamp `ts` leaves the
      landing itself or none: it is kept exactly when the trim spares it. */
  lemma TrimKeepsLanding(p: Ring, target: nat, freshFrom: nat, slowest: nat, ts: nat)
    requires WellFormed(p) && Sorted(p.tags) && target > 0
    requires AtDelay(p, target, freshFrom).Some? && LatestTs(p).value <= ts
    ensures var k := AtDelay(p, target, freshFrom).value;
      var t := TrimFor(p, target, ts, slowest);
      && (AtDelay(t, target, freshFrom).Some? <==>
           k.ts >= Cutoff(target, ts) || k.seqNo >= KeepFrom(p, target, ts, slowest))
      && (AtDelay(t, target, freshFrom).Some? ==> AtDelay(t, target, freshFrom).value.seqNo == k.seqNo)
  {
    var k := AtDelay(p, target, freshFrom).value;
    var cutoff, keepFrom := Cutoff(target, ts), KeepFrom(p, target, ts, slowest);
    if k.ts >= cutoff || k.seqNo >= keepFrom {
      SparedIsKept(p, target, freshFrom, cutoff, keepFrom, k);
    } else {
      TrimmedIsLost(p, target, freshFrom, cutoff, keepFrom, k);
    }
  }

  // A keyframe the append leaves in place stays one the delay may land on.
  lemma StillAllowed(r: Ring, target: nat, freshFrom: nat, a: Arrival, k: TagMeta)
    requires WellFormed(r) && Sorted(r.tags) && InOrder(r, a) && !Bypasses(r, a) && a.stored
    requires Allowed(r, target, freshFrom, k) && k in Evict(r, a.len).tags
    ensures Allowed(Appended(r, a), target, freshFrom, k)
    ensures LatestTs(Appended(r, a)) == Some(a.ts)
  {
  }

  // Trimming at the live edge's own stamp spares the landing by design.
  lemma LandingIsKept(p: Ring, target: nat, freshFrom: nat, slowest: nat)
    requires target > 0 && AtDelay(p, target, freshFrom).Some?
    ensures KeepFrom(p, target, LatestTs(p).value, slowest) <= AtDelay(p, target, freshFrom).value.seqNo
  {
  }

  /** The trim never costs a running delay its keyframe. If the ring reached the
      delay before a stored tag whose bytes did not overwrite that keyframe, it
      reaches it after the append and the trim, at that keyframe or a newer one. */
  lemma DelayStaysReachable(r: Ring, target: nat, freshFrom: nat, slowest: nat, a: Arrival)
    requires WellFormed(r) && Sorted(r.tags) && InOrder(r, a)
    requires target > 0 && AtDelay(r, target, freshFrom).Some?
    requires !Bypasses(r, a) && a.stored
    requires AtDelay(r, target, freshFrom).value in Evict(r, a.len).tags
    ensures var after := OnTag(r, target, slowest, a);
      && AtDelay(after, target, freshFrom).Some?
      && AtDelay(after, target, freshFrom).value.seqNo >= AtDelay(r, target, freshFrom).value.seqNo
  {
    var p := Appended(r, a);
    var k := AtDelay(r, target, freshFrom).value;
    Ascending(r);
    AtDelayExact(r, target, freshFrom);
    AppendedWellFormed(r, a);
    StillAllowed(r, target, freshFrom, a, k);
    ReachedBy(p, target, freshFrom, k);
    LandingIsKept(p, target, freshFrom, slowest);
    TrimKeepsLanding(p, target, freshFrom, slowest, a.ts);
  }

  // ------------------------------------------------------------ whole streams

  function OnTags(r: Ring, armed: nat, slowest: seq<nat>, arrivals: seq<Arrival>): Ring
    requires r.capacity > 0 && |slowest| == |arrivals|
    decreases |arrivals|
  {
    if arrivals == [] then r
    else OnTags(OnTag(r, armed, slowest[0], arrivals[0]), armed, slowest[1..], arrivals[1..])
  }

  // The tag leaves alone the keyframe the delay is landing on: a sequence header,
  // which never reaches the ring; a tag stored clear of it; or one that was not
  // stored, evicts nothing up to it, and trims only what came before it.
  ghost predicate ClearStep(r: Ring, target: nat, freshFrom: nat, slowest: nat, a: Arrival) {
    && r.capacity > 0
    && (a.isSeqHeader || (
         && InOrder(r, a)
         && var landing := AtDelay(r, target, freshFrom);
            landing.Some? ==>
              && landing.value in Appended(r, a).tags
              && (Bypasses(r, a) || !a.stored ==>
                    || landing.value.ts >= Cutoff(target, a.ts)
                    || landing.value.seqNo >= KeepFrom(Appended(r, a), target, a.ts, slowest))))
  }

  lemma ClearStepKeepsDelay(r: Ring, target: nat, freshFrom: nat, slowest: nat, a: Arrival)
    requires WellFormed(r) && Sorted(r.tags) && target > 0 && AtDelay(r, target, freshFrom).Some?
    requires ClearStep(r, target, freshFrom, slowest, a)
    ensures var after := OnTag(r, target, slowest, a);
      && WellFormed(after) && Sorted(after.tags) && AtDelay(after, target, freshFrom).Some?
      && AtDelay(after, target, freshFrom).value.seqNo >= AtDelay(r, target, freshFrom).value.seqNo
  {
    if !a.isSeqHeader {
      OnTagWellFormed(r, target, slowest, a);
      if !Bypasses(r, a) && a.stored {
        StoredLandingSurvives(r, target, freshFrom, a);
        DelayStaysReachable(r, target, freshFrom, slowest, a);
      } else {
        UnstoredKeepsDelay(r, target, freshFrom, slowest, a);
      }
    }
  }

  lemma StoredLandingSurvives(r: Ring, target: nat, freshFrom: nat, a: Arrival)
    requires WellFormed(r) && Sorted(r.tags) && !Bypasses(r, a) && a.stored
    requires AtDelay(r, target, freshFrom).Some?
    requires AtDelay(r, target, freshFrom).value in Appended(r, a).tags
    ensures AtDelay(r, target, freshFrom).value in Evict(r, a.len).tags
  {
    Ascending(r);
  }

  lemma UnstoredKeepsDelay(r: Ring, target: nat, freshFrom: nat, slowest: nat, a: Arrival)
    requires WellFormed(r) && Sorted(r.tags) && InOrder(r, a) && target > 0 && AtDelay(r, target, freshFrom).Some?
    requires !a.isSeqHeader && (Bypasses(r, a) || !a.stored)
    requires ClearStep(r, target, freshFrom, slowest, a)
    ensures var after := OnTag(r, target, slowest, a);
      && AtDelay(after, target, freshFrom).Some?
      && AtDelay(after, target, freshFrom).value.seqNo >= AtDelay(r, target, freshFrom).value.seqNo
  {
    var p := Appended(r, a);
    var k := AtDelay(r, target, freshFrom).value;
    Ascending(r);
    AtDelayExact(r, target, freshFrom);
    AppendedWellFormed(r, a);
    UnstoredLatest(r, a);
    var cutoff, keepFrom := Cutoff(target, a.ts), KeepFrom(p, target, a.ts, slowest);
    SparedBy(p, cutoff, keepFrom, k);
    ReachedBy(TrimTo(p, cutoff, keepFrom), target, freshFrom, k);
  }

  ghost predicate Clear(r: Ring, target: nat, freshFrom: nat, slowest: seq<nat>, arrivals: seq<Arrival>)
    requires |slowest| == |arrivals|
    decreases |arrivals|
  {
    arrivals != [] ==>
      && ClearStep(r, target, freshFrom, slowest[0], arrivals[0])
      && Clear(OnTag(r, target, slowest[0], arrivals[0]), target, freshFrom, slowest[1..], arrivals[1..])
  }

  /** Over any stream of tags that leave its keyframe alone, headers and failed
      writes among them, with consumers anywhere: once reached, the delay stays
      reached, and its landing only ever moves to newer keyframes. */
  lemma {:induction false} DelayStaysReachableForGood(
      r: Ring, target: nat, freshFrom: nat, slowest: seq<nat>, arrivals: seq<Arrival>)
    requires WellFormed(r) && Sorted(r.tags) && target > 0 && |slowest| == |arrivals|
    requires AtDelay(r, target, freshFrom).Some? && Clear(r, target, freshFrom, slowest, arrivals)
    ensures var after := OnTags(r, target, slowest, arrivals);
      && AtDelay(after, target, freshFrom).Some?
      && AtDelay(after, target, freshFrom).value.seqNo >= AtDelay(r, target, freshFrom).value.seqNo
    decreases |arrivals|
  {
    if arrivals != [] {
      ClearStepKeepsDelay(r, target, freshFrom, slowest[0], arrivals[0]);
      DelayStaysReachableForGood(
        OnTag(r, target, slowest[0], arrivals[0]), target, freshFrom, slowest[1..], arrivals[1..]);
    }
  }

  // --------------------------------------------------- where the code falls short

  /** A tag that is not stored (the disk failed, or it is over half the ring) still
      trims by its stamp, while the live edge stays where it was. Then the delay is
      kept exactly when its keyframe is spared by that trim. */
  lemma UnstoredTagExact(r: Ring, target: nat, freshFrom: nat, slowest: nat, a: Arrival)
    requires WellFormed(r) && Sorted(r.tags) && InOrder(r, a) && target > 0
    requires !a.isSeqHeader && (Bypasses(r, a) || !a.stored)
    requires AtDelay(Appended(r, a), target, freshFrom).Some?
    ensures AtDelay(OnTag(r, target, slowest, a), target, freshFrom).Some? <==>
      var k := AtDelay(Appended(r, a), target, freshFrom).value;
      k.ts >= Cutoff(target, a.ts) || k.seqNo >= KeepFrom(Appended(r, a), target, a.ts, slowest)
  {
    var p := Appended(r, a);
    AppendedWellFormed(r, a);
    UnstoredLatest(r, a);
    TrimKeepsLanding(p, target, freshFrom, slowest, a.ts);
  }

  lemma UnstoredLatest(r: Ring, a: Arrival)
    requires WellFormed(r) && (Bypasses(r, a) || !a.stored)
    requires LatestTs(Appended(r, a)).Some?
    ensures LatestTs(Appended(r, a)) == LatestTs(r)
  {
    if !Bypasses(r, a) { EvictSorted(r, a.len); }
  }

  // Two keyframes ten seconds apart, in the smallest buffer the program opens.
  const EARLY := TagMeta(0, 0, 10_000, 0, VIDEO, true, true)
  const LATE := TagMeta(1, 10_000, 10_000, 10_000, VIDEO, true, true)
  const GAPPED := Ring(50 * 1024 * 1024, 20_000, 2, [EARLY, LATE], [EARLY, LATE])

  lemma GappedRing()
    ensures WellFormed(GAPPED) && Sorted(GAPPED.tags) && Bytes(GAPPED.tags) == 20_000
  {
    assert GAPPED.tags[1..] == [LATE];
    OneKey(LATE);
    assert PlacedAt(GAPPED, 0) by { assert GAPPED.tags[0..] == GAPPED.tags; }
    assert PlacedAt(GAPPED, 1);
  }

  lemma GappedLandings()
    ensures AtDelay(GAPPED, 5_000, 0) == Some(EARLY)
    ensures KeepFrom(GAPPED, 5_000, 17_000, NO_SEQ) == 1
  {
    GappedRing();
    NewestIdrAtOrBeforeExact(GAPPED, 5_000);
    NewestIdrAtOrBeforeExact(GAPPED, 12_000);
    assert EARLY in GAPPED.tags && LATE in GAPPED.tags;
  }

  const FAILED := Arrival(VIDEO, 17_000, 10_000, false, false, false, false)

  lemma GappedArrival()
    ensures InOrder(GAPPED, FAILED) && Appended(GAPPED, FAILED) == GAPPED
  {
  }

  lemma GappedTrim(t: Ring)
    requires t == TrimTo(GAPPED, 10_000, 1)
    ensures !IsSaturated(t)
  {
    GappedRing();
    TrimWellFormed(GAPPED, 10_000, 1);
    BytesSplit(GAPPED.tags, |GAPPED.tags| - |t.tags|);
  }

  /** Such a loss happens: one failed write, seven seconds on, trims the keyframe
      of a running five-second delay, and the ring no longer reaches it. */
  lemma UnstoredTagCanLoseDelay()
    ensures WellFormed(GAPPED) && Sorted(GAPPED.tags)
    ensures DelayedIdr(GAPPED, 5_000, 0) == Some(EARLY)
    ensures InOrder(GAPPED, FAILED) && Appended(GAPPED, FAILED) == GAPPED
    ensures DelayedIdr(OnTag(GAPPED, 5_000, NO_SEQ, FAILED), 5_000, 0).None?
  {
    GappedRing();
    GappedLandings();
    GappedArrival();
    TrimKeepsLanding(GAPPED, 5_000, 0, NO_SEQ, 17_000);
    assert Cutoff(5_000, 17_000) == 10_000;
    GappedTrim(OnTag(GAPPED, 5_000, NO_SEQ, FAILED));
  }
}
