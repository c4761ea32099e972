/**
 * A delay longer than a full ring reaches (src/controller.rs, `delayed_idr`): it
 * is served from the ring's old end for as long as the ring reads as full. What
 * one tag, stored or not, does to that, said of the ring and the tag before it.
 */
module FullRing {
  import opened Wrappers
  import opened RingView
  import opened Cuts
  import opened TagFormat
  import opened Reach

  // The lengths RTMP can carry, and the smallest buffer the program opens.
  const MESSAGE_LIMIT: nat := 0x100_0000
  const MIN_CAPACITY: nat := 50 * 1024 * 1024

  // ------------------------------------------------ what one tag leaves behind

  // A write of `len` bytes takes nothing of `tags`, by their lengths alone.
  predicate Clears(tags: seq<TagMeta>, len: nat, capacity: nat)
    requires tags != []
  {
    if len == 0 then tags[0].len == 0 || Bytes(tags) < capacity
    else 0 < Bytes(tags) && Bytes(tags) + len <= capacity
  }

  // What it leaves of them: the longest run of newest tags it clears.
  function Unwritten(tags: seq<TagMeta>, len: nat, capacity: nat): seq<TagMeta> {
    if tags == [] || Clears(tags, len, capacity) then tags else Unwritten(tags[1..], len, capacity)
  }

  // What a trim leaves of them.
  function Untrimmed(tags: seq<TagMeta>, cutoff: nat, keepFrom: nat): seq<TagMeta> {
    if tags == [] then []
    else
      (if tags[0].ts >= cutoff || tags[0].seqNo >= keepFrom then [tags[0]] else [])
      + Untrimmed(tags[1..], cutoff, keepFrom)
  }

  // The ring past the append's eviction, which comes before its write.
  function Evicted(r: Ring, a: Arrival): Ring {
    if Bypasses(r, a) then r else Evict(r, a.len)
  }

  /** The tags of `r` that tag `a` leaves: not reached by its write, should it have
      one, and not both older than the trim's cutoff and before the seq it must keep. */
  function Left(r: Ring, target: nat, slowest: nat, a: Arrival): seq<TagMeta> {
    Untrimmed(if Bypasses(r, a) then r.tags else Unwritten(r.tags, a.len, r.capacity),
              Cutoff(target, a.ts), KeepFrom(Evicted(r, a), target, a.ts, slowest))
  }

  function TagOf(r: Ring, a: Arrival): TagMeta {
    NewTag(r, a.len, a.ts, a.kind, a.isIdr, a.primary)
  }

  predicate Stored(r: Ring, a: Arrival) {
    !Bypasses(r, a) && a.stored
  }

  // What the ring is left holding, the tag among it if it was stored.
  function Holding(r: Ring, target: nat, slowest: nat, a: Arrival): seq<TagMeta> {
    Left(r, target, slowest, a) + if Stored(r, a) then [TagOf(r, a)] else []
  }

  // The tag is a possible one, and if it is stored its stamp does not go back.
  ghost predicate Arrives(r: Ring, a: Arrival) {
    !a.isSeqHeader && (a.primary ==> a.isIdr) && (Stored(r, a) ==> InOrder(r, a))
  }

  /** Eviction, which works on offsets that wrap, is decided by lengths alone. */
  lemma {:induction false} EvictIsUnwritten(r: Ring, len: nat)
    requires WellFormed(r) && len <= r.capacity
    ensures Evict(r, len).tags == Unwritten(r.tags, len, r.capacity)
    decreases |r.tags|
  {
    if r.tags != [] {
      FrontReached(r, len);
      if !Clears(r.tags, len, r.capacity) {
        PopFrontWellFormed(r);
        EvictIsUnwritten(PopFront(r), len);
      }
    }
  }

  lemma FrontReached(r: Ring, len: nat)
    requires WellFormed(r) && r.tags != [] && len <= r.capacity
    ensures WriteOverlaps(r.cursor, len, r.capacity, r.tags[0].offset, r.tags[0].len)
       <==> !Clears(r.tags, len, r.capacity)
  {
    assert r.tags[0..] == r.tags;
    if len > 0 { ReachedByWrite(r, 0, len); } else { assert PlacedAt(r, 0); }
  }

  lemma {:induction false} AllUntrimmed(tags: seq<TagMeta>, cutoff: nat, keepFrom: nat)
    requires forall m | m in tags :: m.ts >= cutoff || m.seqNo >= keepFrom
    ensures Untrimmed(tags, cutoff, keepFrom) == tags
  {
    if tags != [] {
      AllUntrimmed(tags[1..], cutoff, keepFrom);
      assert tags == [tags[0]] + tags[1..];
    }
  }

  // With stamps in order, trimming from the front is filtering.
  lemma {:induction false} TrimIsUntrimmed(r: Ring, cutoff: nat, keepFrom: nat)
    requires WellFormed(r) && Sorted(r.tags)
    ensures TrimTo(r, cutoff, keepFrom).tags == Untrimmed(r.tags, cutoff, keepFrom)
    decreases |r.tags|
  {
    if r.tags != [] {
      Ascending(r);
      if r.tags[0].seqNo < keepFrom && r.tags[0].ts < cutoff {
        PopFrontWellFormed(r);
        TrimIsUntrimmed(PopFront(r), cutoff, keepFrom);
      } else {
        AllUntrimmed(r.tags, cutoff, keepFrom);
      }
    }
  }

  lemma {:induction false} UntrimmedPush(tags: seq<TagMeta>, m: TagMeta, cutoff: nat, keepFrom: nat)
    requires m.ts >= cutoff
    ensures Untrimmed(tags + [m], cutoff, keepFrom) == Untrimmed(tags, cutoff, keepFrom) + [m]
  {
    if tags == [] {
      assert Untrimmed([m], cutoff, keepFrom) == [m] + Untrimmed([], cutoff, keepFrom);
    } else {
      UntrimmedPush(tags[1..], m, cutoff, keepFrom);
      assert (tags + [m])[1..] == tags[1..] + [m];
    }
  }

  // A tag newer than `ts` does not change the newest keyframe by then.
  lemma NewestBeforePush(e: Ring, p: Ring, m: TagMeta, ts: nat)
    requires WellFormed(e) && WellFormed(p) && Sorted(p.tags)
    requires p.tags == e.tags + [m] && m.ts > ts
    ensures NewestIdrAtOrBefore(p, ts) == NewestIdrAtOrBefore(e, ts)
  {
    var later := if m.primary then [m] else [];
    assert p.keys == e.keys + later by { PrimariesPush(e.tags, m); }
    assert Sorted(e.keys + later) by { Ascending(p); }
    NewestOfMore(e.keys, later, ts);
  }

  lemma NewestOfMore(keys: seq<TagMeta>, later: seq<TagMeta>, ts: nat)
    requires Sorted(keys + later) && forall m | m in later :: m.ts > ts
    ensures PartitionPoint(keys + later, StampedBy(ts)) == PartitionPoint(keys, StampedBy(ts))
  {
    var stamped, all := StampedBy(ts), keys + later;
    assert Sorted(keys) by { assert forall i | 0 <= i < |keys| :: all[i] == keys[i]; }
    PartitionExact(keys, stamped);
    PartitionExact(all, stamped);
    var few, many := PartitionPoint(keys, stamped), PartitionPoint(all, stamped);
    if few < |keys| { assert all[few] == keys[few] && !stamped(keys[few]); }
    if few < |all| { assert !stamped(all[few]); }
    if 0 < few { assert all[few - 1] == keys[few - 1] && stamped(keys[few - 1]); }
  }

  lemma AppendedIs(r: Ring, a: Arrival)
    requires WellFormed(r) && Sorted(r.tags) && Arrives(r, a) && Stored(r, a)
    ensures var e, p := Evict(r, a.len), Appended(r, a);
      && WellFormed(e) && Sorted(e.tags) && WellFormed(p) && Sorted(p.tags)
      && e.tags == Unwritten(r.tags, a.len, r.capacity) && p.tags == e.tags + [TagOf(r, a)]
  {
    EvictWellFormed(r, a.len);
    EvictIsUnwritten(r, a.len);
    AppendedWellFormed(r, a);
  }

  // The new tag does not move what the trim must keep, or nothing is trimmed.
  lemma KeepFromPush(e: Ring, p: Ring, m: TagMeta, target: nat, slowest: nat)
    requires WellFormed(e) && Sorted(e.tags) && WellFormed(p) && Sorted(p.tags)
    requires p.tags == e.tags + [m] && target > 0
    ensures KeepFrom(p, target, m.ts, slowest) == KeepFrom(e, target, m.ts, slowest) || Cutoff(target, m.ts) == 0
  {
    if m.ts > 0 { NewestBeforePush(e, p, m, Minus(m.ts, target)); }
  }

  lemma EvictedIs(r: Ring, a: Arrival)
    requires WellFormed(r) && Sorted(r.tags)
    ensures var e := Evicted(r, a);
      && WellFormed(e) && Sorted(e.tags) && e.capacity == r.capacity
      && e.tags == if Bypasses(r, a) then r.tags else Unwritten(r.tags, a.len, r.capacity)
  {
    if !Bypasses(r, a) {
      EvictWellFormed(r, a.len);
      EvictSorted(r, a.len);
      EvictIsUnwritten(r, a.len);
    }
  }

  /** What the ring holds after a tag: what it leaves, and the tag if it was stored. */
  lemma LeftAfter(r: Ring, target: nat, slowest: nat, a: Arrival)
    requires WellFormed(r) && Sorted(r.tags) && Arrives(r, a) && target > 0
    ensures OnTag(r, target, slowest, a).tags == Holding(r, target, slowest, a)
  {
    EvictedIs(r, a);
    if Stored(r, a) {
      AppendedIs(r, a);
      LeftAfterPush(Evict(r, a.len), Appended(r, a), TagOf(r, a), target, slowest);
    } else {
      TrimIsUntrimmed(Evicted(r, a), Cutoff(target, a.ts), KeepFrom(Evicted(r, a), target, a.ts, slowest));
    }
  }

  lemma OrderAfter(r: Ring, target: nat, slowest: nat, a: Arrival)
    requires WellFormed(r) && Sorted(r.tags) && Arrives(r, a)
    ensures var t := OnTag(r, target, slowest, a);
      WellFormed(t) && Sorted(t.tags) && t.capacity == r.capacity
  {
    OnTagWellFormed(r, target, slowest, a);
    if !Stored(r, a) {
      var e := Evicted(r, a);
      var cutoff, keepFrom := Cutoff(target, a.ts), KeepFrom(e, target, a.ts, slowest);
      EvictedIs(r, a);
      TrimWellFormed(e, cutoff, keepFrom);
      SuffixOrder(TrimTo(e, cutoff, keepFrom).tags, e.tags);
    }
  }

  lemma LeftAfterPush(e: Ring, p: Ring, m: TagMeta, target: nat, slowest: nat)
    requires WellFormed(e) && Sorted(e.tags) && WellFormed(p) && Sorted(p.tags)
    requires p.tags == e.tags + [m] && target > 0
    ensures TrimFor(p, target, m.ts, slowest).tags
         == Untrimmed(e.tags, Cutoff(target, m.ts), KeepFrom(e, target, m.ts, slowest)) + [m]
  {
    var cutoff := Cutoff(target, m.ts);
    var before, after := KeepFrom(e, target, m.ts, slowest), KeepFrom(p, target, m.ts, slowest);
    TrimIsUntrimmed(p, cutoff, after);
    UntrimmedPush(e.tags, m, cutoff, after);
    KeepFromPush(e, p, m, target, slowest);
    if cutoff == 0 {
      AllUntrimmed(e.tags, 0, before);
      AllUntrimmed(e.tags, 0, after);
    }
  }

  // ----------------------------------------------------------- the exact condition

  // A keyframe a full ring may offer: any, or one past the floor and near the old end.
  ghost predicate Joinable(tags: seq<TagMeta>, freshFrom: nat) {
    tags != [] && exists m ::
      m in tags && m.primary && m.seqNo >= freshFrom && (freshFrom == 0 || m.ts <= tags[0].ts + FULL_RING_MARGIN_MS)
  }

  ghost predicate OldEnough(tags: seq<TagMeta>, target: nat, freshFrom: nat, latest: nat) {
    exists m :: m in tags && m.primary && m.seqNo >= freshFrom && m.ts + target <= latest
  }

  lemma AnyOffers(r: Ring, edge: nat)
    requires WellFormed(r)
    ensures (NewestIdrAtOrBefore(r, edge).Some? || OldestIdrAtOrAfter(r, 0).Some?)
       <==> exists m :: m in r.tags && m.primary
  {
    assert forall m :: m in r.keys <==> m in r.tags && m.primary by { Ascending(r); }
    OldestIdrAtOrAfterExact(r, 0);
  }

  lemma NearOldEndOffers(r: Ring, freshFrom: nat)
    requires WellFormed(r) && Sorted(r.keys) && r.tags != [] && freshFrom > 0
    ensures FromFullRing(r, freshFrom).Some? <==> IsSaturated(r) && Joinable(r.tags, freshFrom)
  {
    FreshNewest(r, r.tags[0].ts + FULL_RING_MARGIN_MS, freshFrom);
  }

  lemma AnywhereOffers(r: Ring)
    requires WellFormed(r) && r.tags != []
    ensures FromFullRing(r, 0).Some? <==> IsSaturated(r) && Joinable(r.tags, 0)
  {
    AnyOffers(r, r.tags[0].ts + FULL_RING_MARGIN_MS);
  }

  lemma FullRingOffers(r: Ring, freshFrom: nat)
    requires WellFormed(r) && Sorted(r.keys) && r.tags != []
    ensures FromFullRing(r, freshFrom).Some? <==> IsSaturated(r) && Joinable(r.tags, freshFrom)
  {
    if freshFrom == 0 { AnywhereOffers(r); } else { NearOldEndOffers(r, freshFrom); }
  }

  lemma DelayedIdrExact(r: Ring, target: nat, freshFrom: nat)
    requires WellFormed(r) && Sorted(r.tags) && LatestTs(r).Some?
    ensures DelayedIdr(r, target, freshFrom).Some? <==>
      || OldEnough(r.tags, target, freshFrom, LatestTs(r).value)
      || (IsSaturated(r) && Joinable(r.tags, freshFrom))
  {
    assert Sorted(r.keys) by { Ascending(r); }
    FullRingOffers(r, freshFrom);
    AtDelayExact(r, target, freshFrom);
  }

  // Where a delay may land on a ring holding `tags`: a keyframe old enough, or one to
  // join at while they fill it.
  ghost predicate Lands(tags: seq<TagMeta>, capacity: nat, target: nat, freshFrom: nat) {
    && tags != []
    && (OldEnough(tags, target, freshFrom, tags[|tags| - 1].ts)
        || (Bytes(tags) >= UsableBytes(capacity) && Joinable(tags, freshFrom)))
  }

  /** Whether a delay still has somewhere to land after a tag, told from the ring and
      the tag before it arrives, whatever the floor, and whether the tag is stored,
      fails to be, or is one the ring does not take: a keyframe old enough for the
      live edge there will be is left; or what is left, with the tag if it is stored,
      still fills the ring, and holds a keyframe to join at. */
  lemma FullRingExact(r: Ring, target: nat, freshFrom: nat, slowest: nat, a: Arrival)
    requires WellFormed(r) && Sorted(r.tags) && Arrives(r, a) && target > 0
    ensures DelayedIdr(OnTag(r, target, slowest, a), target, freshFrom).Some? <==>
      Lands(Holding(r, target, slowest, a), r.capacity, target, freshFrom)
  {
    var t := OnTag(r, target, slowest, a);
    LeftAfter(r, target, slowest, a);
    OrderAfter(r, target, slowest, a);
    if t.tags != [] { DelayedIdrExact(t, target, freshFrom); }
  }

  // ---------------------------------------------------------------- the causes

  // The last tag taken did not fit.
  lemma {:induction false} UnwrittenIsTight(tags: seq<TagMeta>, len: nat, capacity: nat, most: nat)
    requires forall m | m in tags :: m.len <= most
    ensures var rest := Unwritten(tags, len, capacity);
      Bytes(tags) == 0 || rest == tags || Bytes(rest) + len + most >= capacity
  {
    if tags != [] && !Clears(tags, len, capacity) {
      assert tags[0] in tags;
      UnwrittenIsTight(tags[1..], len, capacity, most);
    }
  }

  /** Eviction costs a full ring no more than the largest tag in it: with none over
      a sixteenth of the ring, it goes on reading as full, whatever arrives. */
  lemma EvictionKeepsFull(r: Ring, len: nat)
    requires WellFormed(r) && IsSaturated(r)
    requires forall m | m in r.tags :: m.len <= r.capacity / 16
    ensures Bytes(Unwritten(r.tags, len, r.capacity)) + len >= UsableBytes(r.capacity)
  {
    UnwrittenIsTight(r.tags, len, r.capacity, r.capacity / 16);
  }

  /** So from 256 MB up no message RTMP can carry is large enough to matter. */
  lemma LargeRingStaysFull(r: Ring, len: nat)
    requires WellFormed(r) && IsSaturated(r) && r.capacity >= 256 * 1024 * 1024
    requires forall m | m in r.tags :: m.len < MESSAGE_LIMIT
    ensures Bytes(Unwritten(r.tags, len, r.capacity)) + len >= UsableBytes(r.capacity)
  {
    EvictionKeepsFull(r, len);
  }

  /** With none of the causes: a full ring with no tag over a sixteenth of it, and
      nothing the trim would drop, goes on serving any delay it has a keyframe for,
      through any tag that is stored. */
  lemma FullRingKeepsDelay(r: Ring, target: nat, slowest: nat, a: Arrival)
    requires WellFormed(r) && Sorted(r.tags) && Arrives(r, a) && target > 0
    requires Stored(r, a) && IsSaturated(r)
    requires forall m | m in r.tags :: m.len <= r.capacity / 16
    requires forall m | m in r.tags :: m.ts >= Cutoff(target, a.ts) || m.seqNo >= slowest
    requires a.primary || exists m :: m in Unwritten(r.tags, a.len, r.capacity) && m.primary
    ensures DelayedIdr(OnTag(r, target, slowest, a), target, 0).Some?
  {
    var left, with := Left(r, target, slowest, a), Holding(r, target, slowest, a);
    NothingTrimmed(r, target, slowest, a);
    EvictionKeepsFull(r, a.len);
    BytesPush(left, TagOf(r, a));
    FullRingExact(r, target, 0, slowest, a);
    assert Joinable(with, 0) by {
      assert with[|left|] == TagOf(r, a);
      assert forall m | m in left :: m in with;
    }
  }

  lemma {:induction false} UnwrittenAreTags(tags: seq<TagMeta>, len: nat, capacity: nat)
    ensures forall m | m in Unwritten(tags, len, capacity) :: m in tags
  {
    if tags != [] { UnwrittenAreTags(tags[1..], len, capacity); }
  }

  lemma NothingTrimmed(r: Ring, target: nat, slowest: nat, a: Arrival)
    requires r.capacity > 0 && !Bypasses(r, a)
    requires forall m | m in r.tags :: m.ts >= Cutoff(target, a.ts) || m.seqNo >= slowest
    ensures Left(r, target, slowest, a) == Unwritten(r.tags, a.len, r.capacity)
  {
    UnwrittenAreTags(r.tags, a.len, r.capacity);
    AllUntrimmed(Unwritten(r.tags, a.len, r.capacity), Cutoff(target, a.ts),
                 KeepFrom(Evict(r, a.len), target, a.ts, slowest));
  }

  // -------------------------------------------------------------- each, happening

  // A 50 MB ring full of large frames, serving a delay it never reached.
  const OLD := TagMeta(0, 0, 16_000_000, 0, VIDEO, false, false)
  const KEY := TagMeta(1, 16_000_000, 12_000_000, 6_000, VIDEO, true, true)
  const NEXT := TagMeta(2, 28_000_000, 12_000_000, 6_400, VIDEO, false, false)
  const LAST := TagMeta(3, 40_000_000, 12_000_000, 6_900, VIDEO, false, false)
  const FULL := Ring(MIN_CAPACITY, 52_000_000, 4, [OLD, KEY, NEXT, LAST], [KEY])

  lemma FullBytes()
    ensures Bytes([LAST]) == 12_000_000 && Bytes([NEXT, LAST]) == 24_000_000
    ensures Bytes([KEY, NEXT, LAST]) == 36_000_000 && Bytes(FULL.tags) == 52_000_000
  {
    assert [LAST][1..] == [];
    assert [NEXT, LAST][1..] == [LAST];
    assert [KEY, NEXT, LAST][1..] == [NEXT, LAST];
    assert FULL.tags[1..] == [KEY, NEXT, LAST];
  }

  lemma FullPlaced(i: nat)
    requires i < 4
    ensures PlacedAt(FULL, i)
  {
    FullBytes();
    assert FULL.tags[0..] == FULL.tags;
    assert FULL.tags[1..] == [KEY, NEXT, LAST];
    assert FULL.tags[2..] == [NEXT, LAST];
    assert FULL.tags[3..] == [LAST];
  }

  lemma FullKeys()
    ensures Primaries(FULL.tags) == [KEY]
  {
    assert Primaries([LAST]) == [] + Primaries([]) by { assert [LAST][1..] == []; }
    assert Primaries([NEXT, LAST]) == [] by { assert [NEXT, LAST][1..] == [LAST]; }
    assert Primaries([KEY, NEXT, LAST]) == [KEY] by { assert [KEY, NEXT, LAST][1..] == [NEXT, LAST]; }
    assert FULL.tags[1..] == [KEY, NEXT, LAST];
  }

  lemma FullIsFull()
    ensures WellFormed(FULL) && Sorted(FULL.tags) && IsSaturated(FULL)
    ensures forall m | m in FULL.tags :: m.len < MESSAGE_LIMIT
  {
    FullBytes();
    FullKeys();
    forall i | 0 <= i < |FULL.tags| ensures PlacedAt(FULL, i) {
      FullPlaced(i);
    }
  }

  lemma FullServes()
    ensures DelayedIdr(FULL, 5_000, 0) == Some(KEY)
  {
    FullIsFull();
    assert Joinable(FULL.tags, 0) by { assert FULL.tags[1] == KEY; }
    DelayedIdrExact(FULL, 5_000, 0);
    var k := DelayedIdr(FULL, 5_000, 0);
    assert k.Some?;
    assert k.value in [KEY];
  }

  // What a small tag leaves of it, after eviction.
  lemma FullUnwritten()
    ensures Unwritten(FULL.tags, 1_000_000, MIN_CAPACITY) == [KEY, NEXT, LAST]
    ensures Unwritten(FULL.tags, 1_000, MIN_CAPACITY) == FULL.tags
  {
    FullBytes();
    assert FULL.tags[1..] == [KEY, NEXT, LAST];
  }

  lemma RestHolds(a: Arrival)
    requires Left(FULL, 5_000, NO_SEQ, a) == [KEY, NEXT, LAST] && a.ts < 11_000 && !a.primary
    ensures var after := Holding(FULL, 5_000, NO_SEQ, a);
      && after != [] && after[|after| - 1].ts < 11_000
      && Bytes(after) == 36_000_000 + (if Stored(FULL, a) then a.len else 0)
      && KEY in after && forall m | m in after && m.primary :: m == KEY
  {
    var rest, after := [KEY, NEXT, LAST], Holding(FULL, 5_000, NO_SEQ, a);
    FullBytes();
    BytesPush(rest, TagOf(FULL, a));
    assert after[0] == KEY;
    if !Stored(FULL, a) { assert after == rest; }
  }

  // A tag that leaves all but the oldest frame ends the delay exactly when the ring
  // is then no longer full.
  lemma RestLands(a: Arrival)
    requires Arrives(FULL, a) && Left(FULL, 5_000, NO_SEQ, a) == [KEY, NEXT, LAST]
    requires a.ts < 11_000 && !a.primary
    ensures DelayedIdr(OnTag(FULL, 5_000, NO_SEQ, a), 5_000, 0).Some? <==>
      36_000_000 + (if Stored(FULL, a) then a.len else 0) >= UsableBytes(MIN_CAPACITY)
  {
    FullIsFull();
    RestHolds(a);
    FullRingExact(FULL, 5_000, 0, NO_SEQ, a);
  }

  const SMALL := Arrival(VIDEO, 6_900, 1_000_000, false, false, false, true)
  const LATER := Arrival(VIDEO, 7_500, 1_000, false, false, false, true)

  lemma KeyStays()
    ensures KEY in Appended(FULL, SMALL).tags
  {
    FullIsFull();
    FullUnwritten();
    AppendedIs(FULL, SMALL);
    assert Appended(FULL, SMALL).tags[0] == [KEY, NEXT, LAST][0];
  }

  lemma FullEvicted()
    ensures Left(FULL, 5_000, NO_SEQ, SMALL) == [KEY, NEXT, LAST]
  {
    FullUnwritten();
    AllUntrimmed([KEY, NEXT, LAST], 0, KeepFrom(Evicted(FULL, SMALL), 5_000, 6_900, NO_SEQ));
  }

  /** By eviction: a megabyte overwrites a larger frame, what is left no longer
      counts as full, and the delay has nowhere to land, its keyframe still there. */
  lemma EvictionCanLoseDelay()
    ensures WellFormed(FULL) && Sorted(FULL.tags) && InOrder(FULL, SMALL)
    ensures DelayedIdr(FULL, 5_000, 0) == Some(KEY) && KEY in Appended(FULL, SMALL).tags
    ensures DelayedIdr(OnTag(FULL, 5_000, NO_SEQ, SMALL), 5_000, 0).None?
  {
    FullIsFull();
    FullServes();
    FullEvicted();
    KeyStays();
    RestLands(SMALL);
  }

  lemma NoneStampedBy(keys: seq<TagMeta>, ts: nat)
    requires forall i | 0 <= i < |keys| :: keys[i].ts > ts
    ensures PartitionPoint(keys, StampedBy(ts)) == 0
  {
    var stamped := StampedBy(ts);
    assert forall i | 0 <= i < |keys| :: !stamped(keys[i]);
    PartitionExact(keys, stamped);
    var pos := PartitionPoint(keys, stamped);
    var i := if pos > 0 then pos - 1 else 0;
    assert keys != [] ==> !stamped(keys[i]);
  }

  lemma FullKeepsAll()
    ensures KeepFrom(Evict(FULL, LATER.len), 5_000, 7_500, NO_SEQ) == NO_SEQ
  {
    var e := Evict(FULL, LATER.len);
    FullIsFull();
    assert e.keys == [KEY] by {
      EvictWellFormed(FULL, LATER.len);
      EvictIsUnwritten(FULL, LATER.len);
      FullUnwritten();
      FullKeys();
    }
    NoneStampedBy([KEY], 2_500);
  }

  lemma FullTrimmed()
    ensures Left(FULL, 5_000, NO_SEQ, LATER) == [KEY, NEXT, LAST]
  {
    FullUnwritten();
    FullKeepsAll();
    assert FULL.tags == [OLD] + [KEY, NEXT, LAST];
    assert Untrimmed(FULL.tags, 500, NO_SEQ) == Untrimmed([KEY, NEXT, LAST], 500, NO_SEQ) by {
      assert FULL.tags[1..] == [KEY, NEXT, LAST];
    }
    AllUntrimmed([KEY, NEXT, LAST], 500, NO_SEQ);
  }

  /** By the trim: a tag that evicts nothing trims the frame that made the ring full. */
  lemma TrimCanLoseDelay()
    ensures InOrder(FULL, LATER) && Appended(FULL, LATER).tags == FULL.tags + [TagOf(FULL, LATER)]
    ensures DelayedIdr(FULL, 5_000, 0) == Some(KEY)
    ensures DelayedIdr(OnTag(FULL, 5_000, NO_SEQ, LATER), 5_000, 0).None?
  {
    FullIsFull();
    FullServes();
    FullUnwritten();
    EvictIsUnwritten(FULL, LATER.len);
    FullTrimmed();
    RestLands(LATER);
  }

  // A frame as large as the rest of the ring needs, and the same one not written.
  const WRITTEN := Arrival(VIDEO, 6_900, 13_200_000, false, false, false, true)
  const FAILED := WRITTEN.(stored := false)

  lemma FullRoom(a: Arrival)
    requires a == WRITTEN || a == FAILED
    ensures Left(FULL, 5_000, NO_SEQ, a) == [KEY, NEXT, LAST]
  {
    FullBytes();
    assert Unwritten(FULL.tags, 13_200_000, MIN_CAPACITY) == [KEY, NEXT, LAST] by {
      assert FULL.tags[1..] == [KEY, NEXT, LAST];
    }
    AllUntrimmed([KEY, NEXT, LAST], 0, KeepFrom(Evicted(FULL, a), 5_000, 6_900, NO_SEQ));
  }

  /** By a failed write: it has evicted by then, and nothing takes the room it made.
      The same frame, written, keeps the delay. */
  lemma FailedWriteCanLoseDelay()
    ensures Arrives(FULL, WRITTEN) && Arrives(FULL, FAILED) && DelayedIdr(FULL, 5_000, 0) == Some(KEY)
    ensures DelayedIdr(OnTag(FULL, 5_000, NO_SEQ, WRITTEN), 5_000, 0).Some?
    ensures DelayedIdr(OnTag(FULL, 5_000, NO_SEQ, FAILED), 5_000, 0).None?
  {
    FullServes();
    FullRoom(WRITTEN);
    FullRoom(FAILED);
    RestLands(WRITTEN);
    RestLands(FAILED);
  }
}
