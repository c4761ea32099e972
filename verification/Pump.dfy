/**
 * Where a destination's pump reads next (src/controller.rs, `pump_dest`,
 * `next_or_wait`, `seed_idr`, `rejoin_idr`), one loop iteration at a time: airing
 * out the delay's tail while OBS is gone, and never going back before the replay
 * floor once a freeze is over.
 */
module Pump {
  import opened Wrappers
  import opened RingView
  import opened Cuts
  import opened Reach

  /** What one iteration sees. The ring, the delay and OBS may have changed in any
      way since the last one; `due` is the throttle on cut checks, and `stale` that
      a sequence header or the publisher changed while it waited for its tag. */
  datatype Observation = Observation(ring: Ring, control: Control, due: bool, stale: bool)

  datatype Move = Waits | Reloops | Skips(to: TagMeta) | CutsTo(to: TagMeta) | Sends(tag: TagMeta)

  // `next_or_wait`: the tag at `cursor`, or the first keyframe left when the
  // ring no longer reaches back that far.
  function NextTag(r: Ring, cursor: nat): Option<TagMeta> {
    var front := FrontSeq(r);
    var jump := if front.Some? && cursor < front.value then OldestIdrAtOrAfter(r, front.value) else None;
    if jump.Some? then jump
    else
      var found := FindBySeq(r, cursor);
      if found.Some? then Some(found.value.1) else None
  }

  function Decide(o: Observation, cursor: nat): Move {
    var next := NextTag(o.ring, cursor);
    if o.stale then Reloops
    else if next.None? then Waits
    else if next.value.seqNo > cursor then Skips(next.value)
    else
      var cut := if o.due then ComputeDelayCut(o.ring, o.control, next.value) else None;
      if cut.Some? then CutsTo(cut.value) else Sends(next.value)
  }

  function After(m: Move, cursor: nat): nat {
    match m
    case Waits => cursor
    case Reloops => cursor
    case Skips(to) => to.seqNo
    case CutsTo(to) => to.seqNo
    case Sends(tag) => tag.seqNo + 1
  }

  // The first seq the ring can still hold, or will.
  function Front(r: Ring): nat {
    if r.tags == [] then r.nextSeq else r.tags[0].seqNo
  }

  // The iteration got a tag, and used it.
  predicate Acts(o: Observation, cursor: nat) {
    var m := Decide(o, cursor);
    !m.Waits? && !m.Reloops?
  }

  function Run(observations: seq<Observation>, cursor: nat): nat
    decreases |observations|
  {
    if observations == [] then cursor
    else Run(observations[1..], After(Decide(observations[0], cursor), cursor))
  }

  // The seqs put on the wire, in order.
  function Aired(observations: seq<Observation>, cursor: nat): seq<nat>
    decreases |observations|
  {
    if observations == [] then []
    else
      var m := Decide(observations[0], cursor);
      (if m.Sends? then [m.tag.seqNo] else []) + Aired(observations[1..], After(m, cursor))
  }

  /** Which tag there is to go on with: the cursor's own while the ring holds it; for a
      cursor the ring has left behind, the oldest keyframe left; none exactly when
      the cursor's is not there yet, or nothing is left to start from. */
  lemma NextTagIsThere(r: Ring, cursor: nat)
    requires WellFormed(r)
    ensures cursor >= Front(r) ==>
      (NextTag(r, cursor).Some? <==> cursor < r.nextSeq)
      && (NextTag(r, cursor).Some? ==> NextTag(r, cursor).value in r.tags && NextTag(r, cursor).value.seqNo == cursor)
    ensures cursor < Front(r) ==> OldestFrom(r.tags, 0, NextTag(r, cursor))
  {
    FindBySeqExact(r, cursor);
    Ascending(r);
    if FrontSeq(r).Some? {
      OldestIdrAtOrAfterExact(r, FrontSeq(r).value);
    }
  }

  /** What an iteration does, exactly. A tag its cursor points at is the one cut from
      when a due check finds a cut, and the one sent when it does not. */
  lemma DecideExact(o: Observation, cursor: nat)
    requires WellFormed(o.ring)
    ensures Decide(o, cursor).Reloops? <==> o.stale
    ensures !o.stale && cursor < Front(o.ring) ==>
      (Decide(o, cursor).Waits? && forall m | m in o.ring.tags :: !m.primary)
      || (Decide(o, cursor).Skips? && OldestFrom(o.ring.tags, 0, Some(Decide(o, cursor).to)))
    ensures !o.stale && cursor >= o.ring.nextSeq ==> Decide(o, cursor).Waits?
    ensures forall m | !o.stale && m in o.ring.tags && m.seqNo == cursor ::
      var cut := ComputeDelayCut(o.ring, o.control, m);
      Decide(o, cursor) == if o.due && cut.Some? then CutsTo(cut.value) else Sends(m)
  {
    NextTagIsThere(o.ring, cursor);
    Ascending(o.ring);
  }

  /** A delay that has left its band is put right by the first due check: the pump goes to a
      keyframe inside it. */
  lemma DriftIsCorrected(o: Observation, cursor: nat, current: TagMeta)
    requires WellFormed(o.ring) && Sorted(o.ring.tags) && KeyframesWithin(o.ring, Gop(o.control.interval))
    requires o.control.target > 0 && AtDelay(o.ring, o.control.target, o.control.freshFrom).Some?
    requires current in o.ring.tags && current.seqNo == cursor && o.due && !o.stale
    ensures var c, latest := o.control, LatestTs(o.ring).value;
      if (latest - current.ts + 500 < c.target && !c.gone)
         || latest - current.ts > c.target + Max(1_500, Gop(c.interval) + 500)
      then Decide(o, cursor).CutsTo? && c.target <= latest - Decide(o, cursor).to.ts <= c.target + Gop(c.interval)
      else Decide(o, cursor) == Sends(current)
  {
    DecideExact(o, cursor);
    DelayIsCorrected(o.ring, o.control, current);
  }

  /** A pump that was cut, or skipped ahead, goes on with the very keyframe it was sent to:
      it is the next tag, and after a cut nothing the same check finds stands in its way. */
  lemma LandingAirsFirst(o: Observation, cursor: nat)
    requires WellFormed(o.ring)
    requires Decide(o, cursor).CutsTo? || Decide(o, cursor).Skips?
    ensures var m := Decide(o, cursor);
      && NextTag(o.ring, After(m, cursor)) == Some(m.to)
      && (m.CutsTo? ==> Decide(o, After(m, cursor)) == Sends(m.to))
  {
    DecideExact(o, cursor);
    NextTagIsThere(o.ring, cursor);
    var to := Decide(o, cursor).to;
    if Decide(o, cursor).CutsTo? {
      CutsGainSomething(o.ring, o.control, NextTag(o.ring, cursor).value);
      CutsSettle(o.ring, o.control, NextTag(o.ring, cursor).value);
    }
    assert to in o.ring.tags by { Ascending(o.ring); }
    TagIsNext(o.ring, to);
  }

  lemma TagIsNext(r: Ring, m: TagMeta)
    requires WellFormed(r) && m in r.tags
    ensures NextTag(r, m.seqNo) == Some(m)
  {
    NextTagIsThere(r, m.seqNo);
    Ascending(r);
  }

  // Where an iteration that does not cut leaves the cursor.
  function Onward(o: Observation, cursor: nat): nat {
    if !o.stale && cursor < o.ring.nextSeq then cursor + 1 else cursor
  }

  // Nothing the pump has still to send has left the ring, and no check that is due cuts.
  ghost predicate Steady(o: Observation, cursor: nat) {
    && WellFormed(o.ring) && Front(o.ring) <= cursor
    && forall m | o.due && m in o.ring.tags && m.seqNo == cursor :: ComputeDelayCut(o.ring, o.control, m).None?
  }

  ghost predicate SteadyRun(observations: seq<Observation>, cursor: nat)
    decreases |observations|
  {
    observations == [] || (Steady(observations[0], cursor)
                           && SteadyRun(observations[1..], Onward(observations[0], cursor)))
  }

  // How many iterations found a tag there.
  function Found(observations: seq<Observation>, cursor: nat): nat
    decreases |observations|
  {
    if observations == [] then 0
    else
      (if Onward(observations[0], cursor) > cursor then 1 else 0)
      + Found(observations[1..], Onward(observations[0], cursor))
  }

  function From(first: nat, count: nat): (s: seq<nat>)
    ensures |s| == count && forall i | 0 <= i < count :: s[i] == first + i
  {
    seq(count, i => first + i)
  }

  lemma SteadyStep(o: Observation, cursor: nat)
    requires Steady(o, cursor)
    ensures After(Decide(o, cursor), cursor) == Onward(o, cursor)
    ensures Decide(o, cursor).Sends? <==> Onward(o, cursor) > cursor
    ensures Decide(o, cursor).Sends? ==> Decide(o, cursor).tag.seqNo == cursor
  {
    DecideExact(o, cursor);
    if !o.stale && cursor < o.ring.nextSeq {
      var m := o.ring.tags[cursor - Front(o.ring)];
      assert m in o.ring.tags && m.seqNo == cursor;
    }
  }

  /** Nothing is left out: between cuts a pump the ring keeps up with sends every tag from
      its cursor on, in order, one to each iteration that finds one there. */
  lemma {:induction false} EveryTagAirs(observations: seq<Observation>, cursor: nat)
    requires SteadyRun(observations, cursor)
    ensures Aired(observations, cursor) == From(cursor, Found(observations, cursor))
    ensures Run(observations, cursor) == cursor + Found(observations, cursor)
    decreases |observations|
  {
    if observations != [] {
      SteadyStep(observations[0], cursor);
      EveryTagAirs(observations[1..], Onward(observations[0], cursor));
      FromNext(cursor, Found(observations[1..], Onward(observations[0], cursor)));
    }
  }

  lemma FromNext(first: nat, count: nat)
    ensures From(first, count + 1) == [first] + From(first + 1, count)
  {
  }

  /** While OBS is gone or held, every iteration that uses a tag, whatever it does
      with it, moves the cursor forward: no cut or skip goes back. One that finds
      its tag's header or publisher changed leaves the cursor for the next. */
  lemma GoneMovesForward(o: Observation, cursor: nat)
    requires WellFormed(o.ring) && o.control.gone
    ensures Acts(o, cursor) ==> After(Decide(o, cursor), cursor) > cursor
    ensures !Acts(o, cursor) ==> After(Decide(o, cursor), cursor) == cursor
    ensures !Acts(o, cursor) <==> o.stale || NextTag(o.ring, cursor).None?
    ensures Decide(o, cursor).Sends? ==> Decide(o, cursor).tag.seqNo == cursor
  {
    NextTagIsThere(o.ring, cursor);
    var next := NextTag(o.ring, cursor);
    if next.Some? && ComputeDelayCut(o.ring, o.control, next.value).Some? {
      CutsGainSomething(o.ring, o.control, next.value);
    }
  }

  ghost predicate Gone(observations: seq<Observation>) {
    forall o | o in observations :: WellFormed(o.ring) && o.control.gone
  }

  ghost predicate Climbing(s: seq<nat>) {
    forall i, j | 0 <= i < j < |s| :: s[i] < s[j]
  }

  lemma ClimbingFrom(x: nat, s: seq<nat>)
    requires Climbing(s) && forall y | y in s :: x < y
    ensures Climbing([x] + s)
  {
    forall k | 0 <= k < |s| ensures x < s[k] {
      assert s[k] in s;
    }
  }

  /** So the tail airs once: no tag goes out twice, or out of order, however the
      ring, the delay and the hold change meanwhile. */
  lemma {:induction false} TailAirsOnce(observations: seq<Observation>, cursor: nat)
    requires Gone(observations)
    ensures Climbing(Aired(observations, cursor))
    ensures forall s | s in Aired(observations, cursor) :: cursor <= s < Run(observations, cursor)
    ensures cursor <= Run(observations, cursor)
    decreases |observations|
  {
    if observations != [] {
      assert observations[0] in observations;
      GoneMovesForward(observations[0], cursor);
      var m := Decide(observations[0], cursor);
      var after := After(m, cursor);
      var rest := Aired(observations[1..], after);
      TailAirsOnce(observations[1..], after);
      assert after >= cursor && Run(observations, cursor) == Run(observations[1..], after);
      if m.Sends? {
        ClimbingFrom(cursor, rest);
        assert after == cursor + 1 && Aired(observations, cursor) == [cursor] + rest;
      } else {
        assert Aired(observations, cursor) == [] + rest == rest;
      }
    }
  }

  // How many iterations used a tag.
  function Acted(observations: seq<Observation>, cursor: nat): nat
    decreases |observations|
  {
    if observations == [] then 0
    else
      (if Acts(observations[0], cursor) then 1 else 0)
      + Acted(observations[1..], After(Decide(observations[0], cursor), cursor))
  }

  /** Over any run while OBS is gone, whatever happens to the ring meanwhile: the
      cursor goes forward at least once for every iteration that uses a tag. */
  lemma {:induction false} EveryTagMovesForward(observations: seq<Observation>, cursor: nat)
    requires Gone(observations)
    ensures Run(observations, cursor) >= cursor + Acted(observations, cursor)
    decreases |observations|
  {
    if observations != [] {
      assert observations[0] in observations;
      GoneMovesForward(observations[0], cursor);
      EveryTagMovesForward(observations[1..], After(Decide(observations[0], cursor), cursor));
    }
  }

  // `delay_tail_sent`: a tail with no end marked ends at the live edge.
  predicate TailSent(end: Option<nat>, r: Ring, cursor: nat) {
    var last := if end.Some? then end else LatestSeq(r);
    last.None? || cursor > last.value
  }

  /** So the tail ends: once as many iterations as it has tags left used one, it is
      sent, however OBS froze and whatever it goes on appending. */
  lemma TailEnds(observations: seq<Observation>, cursor: nat, end: nat, r: Ring)
    requires Gone(observations)
    requires cursor + Acted(observations, cursor) > end
    ensures TailSent(Some(end), r, Run(observations, cursor))
  {
    EveryTagMovesForward(observations, cursor);
  }

  // ------------------------------------------- the tail, and ingest going on

  /** Ingest and one pump, in turn: a tag stored and the ring trimmed for the
      slowest destination, or one iteration of the pump. */
  datatype Turn =
    | Ingests(a: Arrival, armed: nat, slowest: nat)
    | Iterates(control: Control, due: bool, stale: bool)

  function Grown(r: Ring, turn: Turn): Ring
    requires r.capacity > 0
    ensures Grown(r, turn).capacity == r.capacity
  {
    if turn.Ingests? then OnTag(r, turn.armed, turn.slowest, turn.a) else r
  }

  // What the pump's iterations see, in turn.
  function Seen(r: Ring, turns: seq<Turn>): seq<Observation>
    requires r.capacity > 0
    decreases |turns|
  {
    if turns == [] then []
    else
      (if turns[0].Iterates? then [Observation(r, turns[0].control, turns[0].due, turns[0].stale)] else [])
      + Seen(Grown(r, turns[0]), turns[1..])
  }

  function Moved(r: Ring, turn: Turn, cursor: nat): nat {
    if turn.Ingests? then cursor
    else After(Decide(Observation(r, turn.control, turn.due, turn.stale), cursor), cursor)
  }

  // OBS is gone; the trim knows this pump's position; and no write reaches the
  // tags of the tail it has not sent.
  ghost predicate SparesTail(r: Ring, turns: seq<Turn>, cursor: nat, end: nat)
    requires r.capacity > 0
    decreases |turns|
  {
    turns == [] || (
      && (match turns[0]
          case Ingests(a, _, slowest) =>
            && (a.primary ==> a.isIdr) && slowest <= cursor
            && (cursor <= end ==> Bypasses(r, a) || Spans(Evict(r, a.len), cursor, end))
          case Iterates(control, _, _) => control.gone)
      && SparesTail(Grown(r, turns[0]), turns[1..], Moved(r, turns[0], cursor), end))
  }

  function FreshIterations(turns: seq<Turn>): nat {
    if turns == [] then 0
    else (if turns[0].Iterates? && !turns[0].stale then 1 else 0) + FreshIterations(turns[1..])
  }

  // One turn: the ring still holds what is left of the tail.
  lemma TurnHoldsTail(r: Ring, turn: Turn, cursor: nat, end: nat)
    requires WellFormed(r) && (cursor <= end ==> Spans(r, cursor, end))
    requires SparesTail(r, [turn], cursor, end)
    ensures WellFormed(Grown(r, turn)) && cursor <= Moved(r, turn, cursor)
    ensures Moved(r, turn, cursor) <= end ==> Spans(Grown(r, turn), Moved(r, turn, cursor), end)
    ensures turn.Iterates? && !turn.stale && cursor <= end ==> Moved(r, turn, cursor) > cursor
  {
    assert [turn][0] == turn;
    match turn
    case Ingests(a, armed, slowest) =>
      OnTagWellFormed(r, armed, slowest, a);
      if cursor <= end { TailStaysLive(r, armed, slowest, a, cursor, end); }
    case Iterates(control, due, stale) =>
      GoneMovesForward(Observation(r, control, due, stale), cursor);
      NextTagIsThere(r, cursor);
  }

  /** While ingest goes on, and no write reaches what is left of it, the tail is
      there at every iteration: one iteration per tag left of it, not counting those
      that found a header or publisher changed, sends it all. */
  lemma {:induction false} TailEndsUnderIngest(r: Ring, turns: seq<Turn>, cursor: nat, end: nat)
    requires WellFormed(r) && (cursor <= end ==> Spans(r, cursor, end))
    requires SparesTail(r, turns, cursor, end)
    ensures Gone(Seen(r, turns))
    ensures Run(Seen(r, turns), cursor) >= cursor
    ensures cursor + FreshIterations(turns) > end ==> Run(Seen(r, turns), cursor) > end
    decreases |turns|
  {
    if turns != [] {
      var next, moved := Grown(r, turns[0]), Moved(r, turns[0], cursor);
      TurnHoldsTail(r, turns[0], cursor, end);
      TailEndsUnderIngest(next, turns[1..], moved, end);
      var later := Seen(next, turns[1..]);
      if turns[0].Iterates? {
        var o := Observation(r, turns[0].control, turns[0].due, turns[0].stale);
        assert Seen(r, turns) == [o] + later;
        assert ([o] + later)[1..] == later;
      } else {
        assert Seen(r, turns) == later;
      }
    }
  }

  // ---------------------------------------------------------------- the floor

  // `wait_for_idr(None)` and `seed_idr`: where a fresh pump starts, if it can.
  function SeedIdr(r: Ring, target: nat, freshFrom: nat): Option<TagMeta> {
    if target == 0 then FreshOnly(NewestIdr(r), freshFrom) else DelayedIdr(r, target, freshFrom)
  }

  // `rejoin_idr`: where a pump comes off the reconnect screen, if it can.
  function RejoinIdr(r: Ring, target: nat, fromSeq: nat): Option<TagMeta> {
    var latest := LatestTs(r);
    var delayed := if latest.None? then None
      else FreshOnly(NewestIdrAtOrBefore(r, Minus(latest.value, target)), fromSeq);
    if delayed.Some? then delayed
    else
      var oldest := OldestIdrAtOrAfter(r, fromSeq);
      if oldest.Some? then oldest else NewestIdrAfter(r, Minus(fromSeq, 1))
  }

  // Where OBS's new video starts, for a pump coming off the screen.
  function RejoinFrom(resumedAfter: Option<nat>, r: Ring): Option<nat> {
    if resumedAfter.Some? then Some(resumedAfter.value + 1) else FrontSeq(r)
  }

  // `delay_rebuilt`, before its time limit: OBS's new video starts at the seq
  // returned, once it spans the delay from its first keyframe.
  function DelayRebuilt(r: Ring, resumedAfter: Option<nat>, target: nat): Option<nat> {
    var first := RejoinFrom(resumedAfter, r);
    if first.None? then None
    else
      var k := OldestIdrAtOrAfter(r, first.value);
      if k.None? || LatestTs(r).None? || Minus(LatestTs(r).value, k.value.ts) < target then None else first
  }

  /** With no delay a fresh pump starts at the newest keyframe, unless it is behind the floor. */
  lemma LiveSeedIsNewest(r: Ring, freshFrom: nat)
    requires WellFormed(r) && Sorted(r.tags)
    ensures NewestFresh(r.tags, if r.tags == [] then 0 else LatestTs(r).value, freshFrom, SeedIdr(r, 0, freshFrom))
    ensures forall m | m in r.tags :: m.ts <= LatestTs(r).value
  {
    LastKey(r);
  }

  /** Off the screen, delay or none: the newest keyframe a delay back, when OBS's new video
      has one; otherwise its first, and none only when it has none. */
  lemma RejoinExact(r: Ring, target: nat, fromSeq: nat)
    requires WellFormed(r) && Sorted(r.keys)
    ensures var k, edge := RejoinIdr(r, target, fromSeq), if r.tags == [] then 0 else Minus(LatestTs(r).value, target);
      if exists m :: m in r.tags && m.primary && m.ts <= edge && m.seqNo >= fromSeq
      then NewestFresh(r.tags, edge, fromSeq, k) && k.Some?
      else OldestFrom(r.tags, fromSeq, k)
  {
    FreshNewest(r, if r.tags == [] then 0 else Minus(LatestTs(r).value, target), fromSeq);
    OldestIdrAtOrAfterExact(r, fromSeq);
    Ascending(r);
  }

  /** The delay has rebuilt exactly when OBS's new video has a keyframe that far back. */
  lemma RebuiltExact(r: Ring, resumedAfter: Option<nat>, target: nat)
    requires WellFormed(r) && Sorted(r.tags)
    ensures DelayRebuilt(r, resumedAfter, target).Some? <==>
      && RejoinFrom(resumedAfter, r).Some?
      && exists m :: m in r.tags && Allowed(r, target, RejoinFrom(resumedAfter, r).value, m)
    ensures DelayRebuilt(r, resumedAfter, target).Some? ==>
      DelayRebuilt(r, resumedAfter, target) == RejoinFrom(resumedAfter, r)
  {
    var first := RejoinFrom(resumedAfter, r);
    if first.Some? {
      OldestIdrAtOrAfterExact(r, first.value);
      var k := OldestIdrAtOrAfter(r, first.value);
      if k.Some? {
        LiveBy(r, k.value);
        assert Minus(LatestTs(r).value, k.value.ts) >= target ==> Allowed(r, target, first.value, k.value);
        forall m | m in r.tags && Allowed(r, target, first.value, m) ensures k.value.ts <= m.ts {
          EarlierTagEarlierSeq(r, m, k.value);
        }
      }
    }
  }

  /** Coming off the screen once the delay has rebuilt lands on OBS's new video,
      at least the delay behind the live edge, at the newest such keyframe. */
  lemma RejoinIsDelayed(r: Ring, resumedAfter: Option<nat>, target: nat)
    requires WellFormed(r) && Sorted(r.tags)
    requires DelayRebuilt(r, resumedAfter, target).Some?
    ensures var from := DelayRebuilt(r, resumedAfter, target).value;
      && RejoinIdr(r, target, from).Some?
      && var k := RejoinIdr(r, target, from).value;
         Allowed(r, target, from, k) && forall m | m in r.tags && Allowed(r, target, from, m) :: m.seqNo <= k.seqNo
  {
    var from := DelayRebuilt(r, resumedAfter, target).value;
    var latest, first := LatestTs(r).value, OldestIdrAtOrAfter(r, from).value;
    OldestIdrAtOrAfterExact(r, from);
    assert Sorted(r.keys) && first.ts <= latest by { LiveBy(r, first); Ascending(r); }
    FreshNewest(r, Minus(latest, target), from);
    assert first.ts <= Minus(latest, target) && first.seqNo >= from;
  }

  // The controller's floor, where OBS last came back, where its delay's tail ends,
  // whether the last hold ended with OBS back, how far the ring's two ends have
  // come, and one pump's cursor.
  datatype FloorState = FloorState(
    floor: Option<nat>,
    resumedAfter: Option<nat>,
    tailEnd: Option<nat>,
    resumed: bool,
    front: nat,
    high: nat,
    cursor: nat)

  /** `Freezes`: OBS stopped sending video and a hold opened for it. `Recovers`: it
      sends video again, the hold still on or not, its tail aired or not.
      `SwitchesOff`: crash protection is switched off in between, which ends the
      hold. `Seeds`, `Rejoins` and `Iterates` are the pump's. */
  datatype FloorEvent =
    | Freezes(r: Ring)
    | Recovers(r: Ring, holdActive: bool, tailAired: bool)
    | SwitchesOff(r: Ring)
    | Seeds(r: Ring, target: nat)
    | Rejoins(r: Ring, target: nat)
    | Iterates(o: Observation)

  function FreshFrom(floor: Option<nat>): nat {
    if floor.Some? then floor.value + 1 else 0
  }

  function RingOf(e: FloorEvent): Ring {
    if e.Iterates? then e.o.ring else e.r
  }

  function MoveTo(s: FloorState, k: Option<TagMeta>): FloorState {
    if k.Some? then s.(cursor := k.value.seqNo) else s
  }

  // The whole of a delay's tail had aired when a tag stamped `ts` came: what viewers were
  // then to see, `target` behind it, is past everything the ring holds.
  function TailAired(r: Ring, target: nat, ts: nat): bool {
    LatestTs(r).Some? && Minus(ts, target) > LatestTs(r).value
  }

  lemma TailAiredExact(r: Ring, target: nat, ts: nat)
    requires Sorted(r.tags)
    ensures TailAired(r, target, ts) <==> r.tags != [] && forall m | m in r.tags :: m.ts + target < ts
  {
    assert r.tags != [] ==> r.tags[|r.tags| - 1] in r.tags;
  }

  // `mark_replay_floor`: all the ring holds now is behind the floor.
  function MarkFloor(floor: Option<nat>, r: Ring): Option<nat> {
    if LatestSeq(r).Some? then LatestSeq(r) else floor
  }

  function Rejoined(s: FloorState, r: Ring, target: nat): Option<TagMeta> {
    var from := RejoinFrom(s.resumedAfter, r);
    if from.None? then None else RejoinIdr(r, target, from.value)
  }

  function FloorStep(s: FloorState, e: FloorEvent): FloorState {
    var t := s.(front := Front(RingOf(e)), high := RingOf(e).nextSeq);
    match e
    case Freezes(r) => t.(tailEnd := LatestSeq(r), resumed := false)
    case Recovers(r, holdActive, tailAired) =>
      t.(resumedAfter := LatestSeq(r),
         tailEnd := None,
         resumed := holdActive,
         floor := if !holdActive || tailAired then MarkFloor(s.floor, r) else s.floor)
    case SwitchesOff(r) => t.(floor := MarkFloor(s.floor, r), resumed := false)
    case Seeds(r, target) => MoveTo(t, SeedIdr(r, target, FreshFrom(s.floor)))
    case Rejoins(r, target) => MoveTo(t, Rejoined(s, r, target))
    case Iterates(o) => t.(cursor := After(Decide(o, s.cursor), s.cursor))
  }

  function FloorRun(s: FloorState, events: seq<FloorEvent>): FloorState
    decreases |events|
  {
    if events == [] then s else FloorRun(FloorStep(s, events[0]), events[1..])
  }

  // The event happens to the ring as its ends moved on since, and reads the floor as
  // it is; a pump comes off the screen only for a hold that ended with OBS back.
  ghost predicate Possible(s: FloorState, e: FloorEvent) {
    && WellFormed(RingOf(e)) && RingOf(e).nextSeq >= s.high && Front(RingOf(e)) >= s.front
    && (e.Rejoins? ==> s.resumed)
    && (e.Iterates? ==> e.o.control.freshFrom == FreshFrom(s.floor))
  }

  ghost predicate PossibleRun(s: FloorState, events: seq<FloorEvent>)
    decreases |events|
  {
    events == [] || (Possible(s, events[0]) && PossibleRun(FloorStep(s, events[0]), events[1..]))
  }

  // What holds since OBS came back over a floor at `f`.
  ghost predicate FloorHolds(s: FloorState, f: nat) {
    && s.floor.Some? && s.floor.value >= f && s.floor.value < s.high
    && (s.resumed ==> if s.resumedAfter.Some? then s.resumedAfter.value >= f else s.front > f)
  }

  // A step's landing: where it put the cursor, if it seeded, rejoined or cut to a delay.
  predicate Lands(s: FloorState, e: FloorEvent) {
    match e
    case Freezes(_) => false
    case Recovers(_, _, _) => false
    case SwitchesOff(_) => false
    case Seeds(r, target) => SeedIdr(r, target, FreshFrom(s.floor)).Some?
    case Rejoins(r, target) => Rejoined(s, r, target).Some?
    case Iterates(o) => o.control.target > 0 && Decide(o, s.cursor).CutsTo?
  }

  lemma RejoinRespects(r: Ring, target: nat, fromSeq: nat)
    requires WellFormed(r) && fromSeq > 0
    ensures RejoinIdr(r, target, fromSeq).Some? ==> RejoinIdr(r, target, fromSeq).value.seqNo >= fromSeq
  {
    OldestIdrAtOrAfterExact(r, fromSeq);
  }

  lemma IterationRespects(o: Observation, cursor: nat, f: nat)
    requires WellFormed(o.ring) && o.control.freshFrom > f
    ensures (o.control.target > 0 && Decide(o, cursor).CutsTo?) || cursor > f ==> After(Decide(o, cursor), cursor) > f
  {
    NextTagIsThere(o.ring, cursor);
    var next := NextTag(o.ring, cursor);
    if next.Some? && ComputeDelayCut(o.ring, o.control, next.value).Some? {
      CutsRespectFloor(o.ring, o.control, next.value);
    }
  }

  // Each step keeps the floor, and the ring's ends in order.
  lemma FloorStays(s: FloorState, e: FloorEvent, f: nat)
    requires FloorHolds(s, f) && Possible(s, e)
    ensures FloorHolds(FloorStep(s, e), f)
  {
    var r := RingOf(e);
    assert r.tags != [] ==> LatestSeq(r).value == r.nextSeq - 1;
  }

  lemma FloorStepHolds(s: FloorState, e: FloorEvent, f: nat)
    requires FloorHolds(s, f) && Possible(s, e)
    ensures FloorHolds(FloorStep(s, e), f)
    ensures Lands(s, e) || s.cursor > f ==> FloorStep(s, e).cursor > f
  {
    FloorStays(s, e, f);
    match e
    case Rejoins(r, target) =>
      var from := RejoinFrom(s.resumedAfter, r);
      if from.Some? { RejoinRespects(r, target, from.value); }
    case Iterates(o) => IterationRespects(o, s.cursor, f);
    case _ =>
  }

  /** No replay, for the rest of the publisher's session: once a freeze that is over,
      or was called off, has set the floor, every seed, rejoin and delayed cut lands strictly after
      it, a pump past it stays past it, and the floor itself only rises. */
  lemma {:induction false} NoReplayPastFloor(s: FloorState, events: seq<FloorEvent>, f: nat)
    requires FloorHolds(s, f) && PossibleRun(s, events)
    ensures FloorHolds(FloorRun(s, events), f)
    ensures s.cursor > f || (exists i :: 0 <= i < |events| && Lands(FloorRun(s, events[..i]), events[i]))
        ==> FloorRun(s, events).cursor > f
    decreases |events|
  {
    if events != [] {
      var next := FloorStep(s, events[0]);
      FloorStepHolds(s, events[0], f);
      NoReplayPastFloor(next, events[1..], f);
      if i :| 0 <= i < |events| && Lands(FloorRun(s, events[..i]), events[i]) {
        if i > 0 {
          assert events[..i][1..] == events[1..][..i - 1];
          assert Lands(FloorRun(next, events[1..][..i - 1]), events[1..][i - 1]);
        }
      }
    }
  }

  /** OBS's new video is what came after it was back: nothing the ring held then, and all
      that came since. And the tail that was airing is over: what is left to send then is
      whatever the ring holds. */
  lemma NewVideoIsWhatCame(s: FloorState, e: FloorEvent, later: Ring, m: TagMeta, cursor: nat)
    requires e.Recovers? && Possible(s, e)
    requires WellFormed(later) && later.nextSeq >= e.r.nextSeq && m in later.tags
    ensures var from := RejoinFrom(FloorStep(s, e).resumedAfter, later);
      from.Some? && (m.seqNo >= from.value <==> e.r.tags == [] || m.seqNo >= e.r.nextSeq)
    ensures TailSent(FloorStep(s, e).tailEnd, later, cursor) <==> forall t | t in later.tags :: t.seqNo < cursor
  {
    Ascending(later);
    assert later.tags[|later.tags| - 1] in later.tags;
  }

  /** A pump that seeds or rejoins goes on with the keyframe it was given. */
  lemma SeedStartsThere(s: FloorState, e: FloorEvent)
    requires Possible(s, e) && (e.Seeds? || e.Rejoins?) && Lands(s, e)
    ensures var k := if e.Seeds? then SeedIdr(e.r, e.target, FreshFrom(s.floor)) else Rejoined(s, e.r, e.target);
      NextTag(e.r, FloorStep(s, e).cursor) == k
  {
    var k := if e.Seeds? then SeedIdr(e.r, e.target, FreshFrom(s.floor)) else Rejoined(s, e.r, e.target);
    Ascending(e.r);
    TagIsNext(e.r, k.value);
  }

  // A freeze is over for viewers: OBS is back too late, or protection is off.
  predicate SetsFloor(e: FloorEvent) {
    e.SwitchesOff? || (e.Recovers? && (!e.holdActive || e.tailAired))
  }

  /** The floor is set there, and nowhere else: everything then in the ring is behind it,
      and nothing that comes later. */
  lemma RecoverySetsFloor(s: FloorState, e: FloorEvent)
    requires Possible(s, e)
    ensures SetsFloor(e) && RingOf(e).tags != [] ==>
      && FloorHolds(FloorStep(s, e), RingOf(e).nextSeq - 1)
      && FreshFrom(FloorStep(s, e).floor) == RingOf(e).nextSeq
      && forall m | m in RingOf(e).tags :: m.seqNo < FreshFrom(FloorStep(s, e).floor)
    ensures !SetsFloor(e) || RingOf(e).tags == [] ==> FloorStep(s, e).floor == s.floor
  {
    Ascending(RingOf(e));
  }

  // The events a pump coming off the screen looks at.
  predicate EndsHold(e: FloorEvent) {
    e.Recovers? && e.holdActive
  }

  predicate Overtakes(e: FloorEvent) {
    e.Freezes? || e.Recovers? || e.SwitchesOff?
  }

  ghost predicate HoldEnded(events: seq<FloorEvent>, i: nat) {
    && i < |events| && EndsHold(events[i])
    && forall j | i < j < |events| :: !Overtakes(events[j])
  }

  /** A pump may come off the screen exactly when the last of OBS's comings and goings was
      that it came back with the hold still on. */
  lemma {:induction false} RejoinsAfterHold(s: FloorState, events: seq<FloorEvent>)
    requires !s.resumed
    ensures FloorRun(s, events).resumed <==> exists i :: 0 <= i < |events| && HoldEnded(events, i)
    decreases |events|
  {
    if events != [] {
      var front, last := events[..|events| - 1], events[|events| - 1];
      FloorRunPush(s, front, last);
      RejoinsAfterHold(s, front);
      assert events == front + [last];
      if EndsHold(last) { assert HoldEnded(events, |events| - 1); }
      if i :| 0 <= i < |front| && HoldEnded(front, i) && !Overtakes(last) { assert HoldEnded(events, i); }
      if i :| 0 <= i < |front| && HoldEnded(events, i) { assert HoldEnded(front, i); }
    }
  }

  lemma {:induction false} FloorRunPush(s: FloorState, events: seq<FloorEvent>, last: FloorEvent)
    ensures FloorRun(s, events + [last]) == FloorStep(FloorRun(s, events), last)
    decreases |events|
  {
    if events != [] {
      assert (events + [last])[1..] == events[1..] + [last];
      FloorRunPush(FloorStep(s, events[0]), events[1..], last);
    } else {
      assert [last][1..] == [];
    }
  }

  /** And once protection is off, no pump comes off a screen until OBS has frozen and
      come back again. */
  lemma {:induction false} NoRejoinAfterOff(s: FloorState, events: seq<FloorEvent>, i: nat)
    requires !s.resumed && PossibleRun(s, events)
    requires i < |events| && forall j | 0 <= j < i :: !events[j].Recovers?
    ensures !events[i].Rejoins?
    decreases |events|
  {
    if i > 0 {
      assert forall j | 0 <= j < i - 1 :: events[1..][j] == events[j + 1];
      NoRejoinAfterOff(FloorStep(s, events[0]), events[1..], i - 1);
    }
  }

  /** The tail's end is marked where OBS froze: from then on, whatever the ring
      holds, a pump has sent the tail exactly when it is past every tag there was. */
  lemma FreezeMarksTail(s: FloorState, r: Ring, later: Ring, cursor: nat)
    requires Possible(s, Freezes(r)) && r.tags != []
    ensures TailSent(FloorStep(s, Freezes(r)).tailEnd, later, cursor) <==> forall m | m in r.tags :: m.seqNo < cursor
  {
    Ascending(r);
    assert r.tags[|r.tags| - 1] in r.tags;
  }
}
