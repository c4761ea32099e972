/**
 * Which keyframe a pump is sent to, and when (src/controller.rs, `delayed_idr`,
 * `compute_delay_cut`, `compute_delayed_cut`): queries over the ring.
 */
module Cuts {
  import opened Wrappers
  import opened RingView

  const RECUT_DEAD_BAND_FLOOR_MS: nat := 1_500
  const IDR_SEARCH_FLOOR_MS: nat := 2_000
  const FULL_RING_MARGIN_MS: nat := 3_000
  const DELAY_JITTER_MS: nat := 500
  const DEFAULT_KEYFRAME_INTERVAL_MS: nat := 2_000

  /** What a cut check reads besides the ring: the delay being delivered, the
      measured keyframe interval (0 before there is one), the first seq the
      replay floor allows, and whether OBS is gone or a hold is open. */
  datatype Control = Control(target: nat, interval: nat, freshFrom: nat, gone: bool)

  function RecutDeadBand(interval: nat): nat {
    Max(RECUT_DEAD_BAND_FLOOR_MS, interval / 2 + 500)
  }

  function SearchTolerance(interval: nat): nat {
    Max(IDR_SEARCH_FLOOR_MS, interval / 2)
  }

  function Gop(interval: nat): nat {
    if interval == 0 then DEFAULT_KEYFRAME_INTERVAL_MS else interval
  }

  // How far above the target a delivered delay may sit.
  function UpperBand(interval: nat): nat {
    Max(RecutDeadBand(interval), Gop(interval) + DELAY_JITTER_MS)
  }

  function FreshOnly(k: Option<TagMeta>, freshFrom: nat): Option<TagMeta> {
    if k.Some? && k.value.seqNo >= freshFrom then k else None
  }

  // The newest keyframe at least `target` behind the live edge.
  function AtDelay(r: Ring, target: nat, freshFrom: nat): Option<TagMeta> {
    var latest := LatestTs(r);
    if latest.None? || latest.value < target then None
    else FreshOnly(NewestIdrAtOrBefore(r, latest.value - target), freshFrom)
  }

  // What a full ring, which reaches back no further, offers instead.
  function FromFullRing(r: Ring, freshFrom: nat): Option<TagMeta> {
    var oldest := OldestTs(r);
    if !IsSaturated(r) || oldest.None? then None
    else
      var margin := NewestIdrAtOrBefore(r, oldest.value + FULL_RING_MARGIN_MS);
      if freshFrom > 0 then FreshOnly(margin, freshFrom)
      else if margin.Some? then margin
      else OldestIdrAtOrAfter(r, 0)
  }

  function DelayedIdr(r: Ring, target: nat, freshFrom: nat): (k: Option<TagMeta>)
    ensures k.Some? ==> k.value in r.keys && k.value.seqNo >= freshFrom
  {
    var atDelay := AtDelay(r, target, freshFrom);
    if atDelay.Some? then atDelay else FromFullRing(r, freshFrom)
  }

  function ComputeDelayedCut(r: Ring, c: Control, current: TagMeta, currentDelay: nat): Option<TagMeta> {
    var tooLittle := currentDelay + DELAY_JITTER_MS < c.target;
    var tooMuch := currentDelay > c.target + UpperBand(c.interval);
    if !tooLittle && !tooMuch then None
    else if tooLittle && c.gone then None
    else
      var k := DelayedIdr(r, c.target, c.freshFrom);
      if k.None? then None
      else
        var latest := currentDelay + current.ts;
        var worthIt :=
          if tooMuch then k.value.seqNo > current.seqNo
          else k.value.seqNo < current.seqNo && Minus(latest, k.value.ts) > currentDelay + DELAY_JITTER_MS;
        if worthIt then k else None
  }

  /** The cut a pump about to send `current` needs, if any. */
  function ComputeDelayCut(r: Ring, c: Control, current: TagMeta): Option<TagMeta> {
    var latest := LatestTs(r);
    if latest.None? then None
    else
      var currentDelay := Minus(latest.value, current.ts);
      if c.target > 0 then ComputeDelayedCut(r, c, current, currentDelay)
      else if currentDelay < RecutDeadBand(c.interval) then None
      else
        var k := FindIdrNear(r, latest.value, SearchTolerance(c.interval));
        if k.Some? && k.value.seqNo > current.seqNo then k else None
  }

  // ------------------------------------------------------------------ landing

  // A keyframe a delay may land on: old enough, and past the replay floor.
  ghost predicate Allowed(r: Ring, target: nat, freshFrom: nat, m: TagMeta) {
    && m in r.tags && m.primary && m.seqNo >= freshFrom
    && LatestTs(r).Some? && m.ts + target <= LatestTs(r).value
  }

  // `k` is the newest of the keyframes by `edge`, or none when that one is behind the floor.
  ghost predicate NewestFresh(tags: seq<TagMeta>, edge: nat, freshFrom: nat, k: Option<TagMeta>) {
    && (k.None? ==> forall m | m in tags && m.primary && m.ts <= edge :: m.seqNo < freshFrom)
    && (k.Some? ==>
          && k.value in tags && k.value.primary && k.value.ts <= edge && k.value.seqNo >= freshFrom
          && forall m | m in tags && m.primary && m.ts <= edge :: m.seqNo <= k.value.seqNo)
  }

  lemma FreshNewest(r: Ring, edge: nat, freshFrom: nat)
    requires WellFormed(r) && Sorted(r.keys)
    ensures NewestFresh(r.tags, edge, freshFrom, FreshOnly(NewestIdrAtOrBefore(r, edge), freshFrom))
  {
    NewestIdrAtOrBeforeExact(r, edge);
  }

  lemma FreshIsAllowed(r: Ring, target: nat, freshFrom: nat, k: Option<TagMeta>)
    requires LatestTs(r).Some? && LatestTs(r).value >= target
    requires NewestFresh(r.tags, LatestTs(r).value - target, freshFrom, k)
    ensures k.None? <==> forall m | m in r.tags :: !Allowed(r, target, freshFrom, m)
    ensures k.Some? ==>
      Allowed(r, target, freshFrom, k.value)
      && forall m | m in r.tags && Allowed(r, target, freshFrom, m) :: m.seqNo <= k.value.seqNo
  {
    var edge := LatestTs(r).value - target;
    assert forall m | m in r.tags ::
      Allowed(r, target, freshFrom, m) <==> m.primary && m.ts <= edge && m.seqNo >= freshFrom;
  }

  lemma TooYoung(r: Ring, target: nat, freshFrom: nat)
    requires LatestTs(r).None? || LatestTs(r).value < target
    ensures AtDelay(r, target, freshFrom).None?
    ensures forall m | m in r.tags :: !Allowed(r, target, freshFrom, m)
  {
  }

  lemma AtDelayExact(r: Ring, target: nat, freshFrom: nat)
    requires WellFormed(r) && Sorted(r.keys)
    ensures AtDelay(r, target, freshFrom).None? <==> forall m | m in r.tags :: !Allowed(r, target, freshFrom, m)
    ensures AtDelay(r, target, freshFrom).Some? ==>
      var k := AtDelay(r, target, freshFrom).value;
      Allowed(r, target, freshFrom, k)
      && forall m | m in r.tags && Allowed(r, target, freshFrom, m) :: m.seqNo <= k.seqNo
  {
    var latest := LatestTs(r);
    if latest.Some? && latest.value >= target {
      FreshNewest(r, latest.value - target, freshFrom);
      FreshIsAllowed(r, target, freshFrom, AtDelay(r, target, freshFrom));
    } else {
      TooYoung(r, target, freshFrom);
    }
  }

  /** Whenever some keyframe is old enough and past the floor, a delay lands on
      the newest such keyframe; off a full ring it lands nowhere else. */
  lemma DelayLandsRight(r: Ring, target: nat, freshFrom: nat)
    requires WellFormed(r) && Sorted(r.keys)
    ensures (exists m :: m in r.tags && Allowed(r, target, freshFrom, m)) ==>
      && DelayedIdr(r, target, freshFrom).Some?
      && var k := DelayedIdr(r, target, freshFrom).value;
         Allowed(r, target, freshFrom, k)
         && forall m | m in r.tags && Allowed(r, target, freshFrom, m) :: m.seqNo <= k.seqNo
    ensures Bytes(r.tags) + r.capacity / 16 < r.capacity ==>
      (forall m | m in r.tags :: !Allowed(r, target, freshFrom, m)) ==> DelayedIdr(r, target, freshFrom).None?
  {
    AtDelayExact(r, target, freshFrom);
  }

  // `k` is the oldest live keyframe at or past seq `from`, or none when there is none.
  ghost predicate OldestFrom(tags: seq<TagMeta>, from: nat, k: Option<TagMeta>) {
    && (k.None? ==> forall m | m in tags && m.primary :: m.seqNo < from)
    && (k.Some? ==>
          && k.value in tags && k.value.primary && k.value.seqNo >= from
          && forall m | m in tags && m.primary && m.seqNo >= from :: k.value.seqNo <= m.seqNo)
  }

  ghost predicate AnyBy(tags: seq<TagMeta>, edge: nat) {
    exists m :: m in tags && m.primary && m.ts <= edge
  }

  /** On a full ring with no keyframe old enough, a delay lands a little way in from the
      ring's old end: on the newest keyframe there, unless that one is behind the floor.
      With no floor and no keyframe there, it lands on the oldest there is. */
  lemma FullRingLandsRight(r: Ring, target: nat, freshFrom: nat)
    requires WellFormed(r) && Sorted(r.keys) && r.tags != [] && Bytes(r.tags) + r.capacity / 16 >= r.capacity
    requires forall m | m in r.tags :: !Allowed(r, target, freshFrom, m)
    ensures var edge, k := r.tags[0].ts + 3_000, DelayedIdr(r, target, freshFrom);
      if freshFrom > 0 || AnyBy(r.tags, edge) then NewestFresh(r.tags, edge, freshFrom, k)
      else OldestFrom(r.tags, 0, k)
  {
    assert DelayedIdr(r, target, freshFrom) == FromFullRing(r, freshFrom) by { AtDelayExact(r, target, freshFrom); }
    FullRingOffers(r, freshFrom);
  }

  lemma FullRingOffers(r: Ring, freshFrom: nat)
    requires WellFormed(r) && Sorted(r.keys) && r.tags != [] && IsSaturated(r)
    ensures var edge, k := r.tags[0].ts + FULL_RING_MARGIN_MS, FromFullRing(r, freshFrom);
      if freshFrom > 0 || AnyBy(r.tags, edge) then NewestFresh(r.tags, edge, freshFrom, k)
      else OldestFrom(r.tags, 0, k)
  {
    FreshNewest(r, r.tags[0].ts + FULL_RING_MARGIN_MS, freshFrom);
    if freshFrom == 0 { OldestIdrAtOrAfterExact(r, 0); }
  }

  lemma LastKey(r: Ring)
    requires WellFormed(r) && Sorted(r.tags)
    ensures r.keys == [] ==> forall m | m in r.tags :: !m.primary
    ensures r.keys != [] ==>
      var last := r.keys[|r.keys| - 1];
      && last in r.tags && last.primary
      && forall m | m in r.tags && m.primary :: m.seqNo <= last.seqNo && m.ts <= last.ts
  {
    Ascending(r);
    if r.keys != [] {
      var last := r.keys[|r.keys| - 1];
      assert last in r.keys;
      forall m | m in r.keys ensures m.seqNo <= last.seqNo && m.ts <= last.ts {
        var i :| 0 <= i < |r.keys| && r.keys[i] == m;
      }
    }
  }

  // No keyframe is stamped past the live edge of a ring with stamps in order.
  lemma LiveBy(r: Ring, k: TagMeta)
    requires WellFormed(r) && Sorted(r.tags) && k in r.keys
    ensures LatestTs(r).Some? && k.ts <= LatestTs(r).value
  {
    Ascending(r);
    var i :| 0 <= i < |r.tags| && r.tags[i] == k;
  }

  // The keyframe nearest the live edge of a ring with stamps in order is its last.
  lemma NearestToLiveIsNewest(r: Ring, tol: nat)
    requires WellFormed(r) && Sorted(r.tags) && LatestTs(r).Some?
    ensures FindIdrNear(r, LatestTs(r).value, tol)
      == if r.keys != [] then Within(r.keys[|r.keys| - 1], LatestTs(r).value, tol) else None
  {
    var latest := LatestTs(r).value;
    LastKey(r);
    forall i | 0 <= i < |r.keys| ensures r.keys[i].ts <= latest {
      LiveBy(r, r.keys[i]);
    }
    NoneStampedAfter(r.keys, latest);
  }

  /** Back to live, a pump outside the dead band is cut exactly when a keyframe
      ahead of it is near enough to the live edge, and lands on the newest one. */
  lemma LiveCutExact(r: Ring, c: Control, current: TagMeta)
    requires WellFormed(r) && Sorted(r.tags) && LatestTs(r).Some? && c.target == 0
    ensures ComputeDelayCut(r, c, current).Some? <==>
      && Minus(LatestTs(r).value, current.ts) >= Max(1_500, c.interval / 2 + 500)
      && exists m :: m in r.tags && m.primary && m.seqNo > current.seqNo
                     && LatestTs(r).value - m.ts <= Max(2_000, c.interval / 2)
    ensures ComputeDelayCut(r, c, current).Some? ==>
      forall m | m in r.tags && m.primary :: m.seqNo <= ComputeDelayCut(r, c, current).value.seqNo
  {
    LastKey(r);
    NearestToLiveIsNewest(r, SearchTolerance(c.interval));
    assert forall m | m in r.tags :: m.ts <= LatestTs(r).value;
  }

  // ---------------------------------------------------------------- direction

  /** Every cut moves the pump: forward, or back for more than the jitter's worth
      of delay, and back only to deliver a delay while OBS is there. */
  lemma CutsGainSomething(r: Ring, c: Control, current: TagMeta)
    requires ComputeDelayCut(r, c, current).Some?
    ensures var k := ComputeDelayCut(r, c, current).value;
      var latest := Max(LatestTs(r).value, current.ts);
      && k in r.keys
      && (k.seqNo > current.seqNo
          || (k.seqNo < current.seqNo && c.target > 0 && !c.gone
              && Minus(latest, k.ts) > latest - current.ts + DELAY_JITTER_MS))
  {
  }

  /** A check right after landing, on the same ring, has nothing to propose:
      whatever the ring holds, full or not, and whatever the delay. */
  lemma CutsSettle(r: Ring, c: Control, current: TagMeta)
    requires ComputeDelayCut(r, c, current).Some?
    ensures ComputeDelayCut(r, c, ComputeDelayCut(r, c, current).value).None?
  {
  }

  // ------------------------------------------------------------------- floor

  /** No replay: a delayed cut lands at or past the first fresh seq, full ring or
      not, and no cut takes a pump already there back over it. */
  lemma CutsRespectFloor(r: Ring, c: Control, current: TagMeta)
    requires ComputeDelayCut(r, c, current).Some?
    ensures c.target > 0 || current.seqNo >= c.freshFrom ==> ComputeDelayCut(r, c, current).value.seqNo >= c.freshFrom
  {
  }

  // -------------------------------------------------------------- settled delay

  // Keyframes, and the live edge after the last one, at most `gop` apart.
  ghost predicate KeyframesWithin(r: Ring, gop: nat) {
    && (forall i | 0 < i < |r.keys| :: r.keys[i].ts <= r.keys[i - 1].ts + gop)
    && (r.keys != [] && LatestTs(r).Some? ==> LatestTs(r).value <= r.keys[|r.keys| - 1].ts + gop)
  }

  /** Landing delivers at least the target and less than one keyframe interval more. */
  lemma LandingDelay(r: Ring, target: nat, freshFrom: nat, gop: nat)
    requires WellFormed(r) && Sorted(r.keys) && KeyframesWithin(r, gop)
    requires AtDelay(r, target, freshFrom).Some?
    ensures var delay := LatestTs(r).value - AtDelay(r, target, freshFrom).value.ts;
      target <= delay <= target + gop
  {
    var latest := LatestTs(r).value;
    var pos := PartitionPoint(r.keys, StampedBy(latest - target));
    PartitionExact(r.keys, StampedBy(latest - target));
    if pos < |r.keys| {
      assert r.keys[pos].ts <= r.keys[pos - 1].ts + gop;
    }
  }

  /** So a landed pump whose delivered delay then drifts by up to the jitter, on
      whatever the ring becomes, is never cut again. */
  lemma LandedNeverRecuts(r: Ring, c: Control, later: Ring, current: TagMeta)
    requires WellFormed(r) && Sorted(r.keys) && KeyframesWithin(r, Gop(c.interval))
    requires c.target > 0 && AtDelay(r, c.target, c.freshFrom).Some?
    requires LatestTs(later).Some?
    requires var landed := LatestTs(r).value - AtDelay(r, c.target, c.freshFrom).value.ts;
      landed - DELAY_JITTER_MS <= Minus(LatestTs(later).value, current.ts) <= landed + DELAY_JITTER_MS
    ensures ComputeDelayCut(later, c, current).None?
  {
    LandingDelay(r, c.target, c.freshFrom, Gop(c.interval));
  }

  /** Where a check sends a pump that has a delay, on any ring: to the keyframe the delay
      lands on, full ring or not, when it delivers too much and that keyframe is ahead;
      or when it delivers too little, OBS is there, and that keyframe is further
      back by more than the jitter. Otherwise, and with nowhere to land, it holds position. */
  lemma CheckGoesWhereDelayLands(r: Ring, c: Control, current: TagMeta)
    requires WellFormed(r) && Sorted(r.tags) && current in r.tags && c.target > 0
    ensures var delay := LatestTs(r).value - current.ts;
      var k := DelayedIdr(r, c.target, c.freshFrom);
      var gop := if c.interval == 0 then 2_000 else c.interval;
      ComputeDelayCut(r, c, current) ==
        if k.Some? && ((delay > c.target + Max(1_500, gop + 500) && k.value.seqNo > current.seqNo)
                       || (delay + 500 < c.target && !c.gone && k.value.ts + 500 < current.ts))
        then k else None
  {
    assert current.ts <= LatestTs(r).value;
    var k := DelayedIdr(r, c.target, c.freshFrom);
    if k.Some? {
      Ascending(r);
      LiveBy(r, k.value);
      EarlierTagEarlierSeq(r, k.value, current);
    }
  }

  /** Exactly when a delay is corrected. With stamps in order and keyframes as far
      apart as measured, on a ring that reaches the delay, a pump is cut if and only
      if what it delivers has left the band (only upwards, once OBS is gone), and
      then lands inside it. */
  lemma DelayIsCorrected(r: Ring, c: Control, current: TagMeta)
    requires WellFormed(r) && Sorted(r.tags) && KeyframesWithin(r, if c.interval == 0 then 2_000 else c.interval)
    requires c.target > 0 && AtDelay(r, c.target, c.freshFrom).Some?
    requires current in r.tags
    ensures var delay := LatestTs(r).value - current.ts;
      var gop := if c.interval == 0 then 2_000 else c.interval;
      && (ComputeDelayCut(r, c, current).Some? <==>
            (delay + 500 < c.target && !c.gone) || delay > c.target + Max(1_500, gop + 500))
      && (ComputeDelayCut(r, c, current).Some? ==>
            c.target <= LatestTs(r).value - ComputeDelayCut(r, c, current).value.ts <= c.target + gop)
  {
    var k := AtDelay(r, c.target, c.freshFrom).value;
    assert k in r.tags && Sorted(r.keys) by { Ascending(r); }
    LandingDelay(r, c.target, c.freshFrom, Gop(c.interval));
    EarlierTagEarlierSeq(r, current, k);
    EarlierTagEarlierSeq(r, k, current);
    assert current.ts <= LatestTs(r).value;
  }

  lemma EarlierTagEarlierSeq(r: Ring, a: TagMeta, b: TagMeta)
    requires WellFormed(r) && Sorted(r.tags) && a in r.tags && b in r.tags
    ensures a.ts < b.ts ==> a.seqNo < b.seqNo
  {
    if a.ts < b.ts {
      var i :| 0 <= i < |r.tags| && r.tags[i] == a;
      var j :| 0 <= j < |r.tags| && r.tags[j] == b;
      assert i < j;
    }
  }
}
