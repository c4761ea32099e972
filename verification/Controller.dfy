/**
 * The controller's shared state, updated in place (src/controller.rs): the delay
 * controls, the ingest entry points, and the bookkeeping of a freeze. Each method
 * refines a step of the models it names.
 */
module Controller {
  import opened Wrappers
  import opened RingView
  import opened Buffer
  import opened TagFormat
  import T = Timestamps
  import D = DelayControl
  import opened Reach
  import opened SafeCut
  import P = Pump

  /** A destination as the controller sees it: whether its pump is live, and the
      seq it will read next (`NO_SEQ` before it has one). */
  datatype Destination = Destination(alive: bool, consumerSeq: nat)

  function Cursors(ds: seq<Destination>): seq<nat> {
    if ds == [] then [] else [ds[0].consumerSeq] + Cursors(ds[1..])
  }

  function LiveCursors(ds: seq<Destination>): seq<nat> {
    if ds == [] then [] else (if ds[0].alive then [ds[0].consumerSeq] else []) + LiveCursors(ds[1..])
  }

  // `min_consumer_seq`: over all destinations, live or not.
  function MinConsumerSeq(ds: seq<Destination>): nat {
    var s := Slowest(Cursors(ds));
    if s.Some? then s.value else NO_SEQ
  }

  /** The slowest of all the destinations, live or not; and the scheduled cut looks at
      every one that is live and at no other. */
  lemma SlowestOfAll(ds: seq<Destination>)
    ensures forall d | d in ds :: MinConsumerSeq(ds) <= d.consumerSeq
    ensures ds == [] ==> MinConsumerSeq(ds) == NO_SEQ
    ensures ds != [] ==> exists d :: d in ds && d.consumerSeq == MinConsumerSeq(ds)
    ensures forall c :: c in LiveCursors(ds) <==> exists d :: d in ds && d.alive && d.consumerSeq == c
  {
    CursorsAre(ds);
    LiveCursorsAre(ds);
  }

  lemma {:induction false} CursorsAre(ds: seq<Destination>)
    ensures forall d | d in ds :: d.consumerSeq in Cursors(ds)
    ensures forall c | c in Cursors(ds) :: exists d :: d in ds && d.consumerSeq == c
    ensures Cursors(ds) == [] <==> ds == []
  {
    if ds != [] {
      CursorsAre(ds[1..]);
      assert ds == [ds[0]] + ds[1..];
      forall c | c in Cursors(ds) ensures exists d :: d in ds && d.consumerSeq == c {
        if c == ds[0].consumerSeq { assert ds[0] in ds; } else { assert c in Cursors(ds[1..]); }
      }
    }
  }

  lemma {:induction false} LiveCursorsAre(ds: seq<Destination>)
    ensures forall d | d in ds && d.alive :: d.consumerSeq in LiveCursors(ds)
    ensures forall c | c in LiveCursors(ds) :: exists d :: d in ds && d.alive && d.consumerSeq == c
  {
    if ds != [] {
      LiveCursorsAre(ds[1..]);
      assert ds == [ds[0]] + ds[1..];
      forall c | c in LiveCursors(ds) ensures exists d :: d in ds && d.alive && d.consumerSeq == c {
        if ds[0].alive && c == ds[0].consumerSeq { assert ds[0] in ds; } else { assert c in LiveCursors(ds[1..]); }
      }
    }
  }

  /** The trim that follows a tag leaves every destination, live or not, all it has
      still to read. */
  lemma TrimSparesEveryPump(r: Ring, armed: nat, ds: seq<Destination>, a: Arrival, d: Destination, m: TagMeta)
    requires WellFormed(r) && (a.primary ==> a.isIdr)
    requires d in ds && m in Appended(r, a).tags && m.seqNo >= d.consumerSeq
    ensures m in Reach.OnTag(r, armed, MinConsumerSeq(ds), a).tags
  {
    SlowestOfAll(ds);
    TrimSparesConsumers(r, armed, MinConsumerSeq(ds), a, m);
  }

  // The trim that spares what a delay and its consumers need, as the ring's own trim.
  lemma TrimForIs(r: Ring, armed: nat, ts: nat, slowest: nat)
    ensures TrimFor(r, armed, ts, slowest)
         == Trimmed(r, TargetBuffer(armed) + BUFFER_SLACK_MS, ts, KeepFrom(r, armed, ts, slowest))
  {
  }

  // Pump `pump`'s uninterrupted check on `mark`, measuring `slowest`, fires exactly if `fires`.
  ghost predicate CheckFires(mark: nat, pump: nat, slowest: Option<nat>, fires: bool) {
    var s := SafeCut.State(mark, map[]);
    var actions := CheckActions(s, pump, slowest);
    Behaviour(s, actions) && Firings(s, actions) == (if fires then 1 else 0)
  }

  /** What the check on `mark` decides, under the delay `target` before it: it fires
      as the pump's three accesses do; and with stamps in order, if it fires, the mark
      has aired everywhere exactly when no destination live with no position would
      start at or before it, and if it measures and does not, it has not. */
  ghost predicate CheckRight(
      r: Ring, target: nat, freshFrom: nat, cursors: seq<nat>, mark: nat, pump: nat, fires: bool) {
    var slowest := SlowestLiveTs(r, cursors);
    && CheckFires(mark, pump, slowest, fires)
    && (Sorted(r.tags) && r.nextSeq <= NO_SEQ ==>
          && (fires ==>
                (AiredEverywhere(r, 0, freshFrom, cursors, mark) <==> SeedsPast(r, 0, freshFrom, cursors, mark)))
          && (!fires && mark != 0 && slowest.Some? ==> !AiredEverywhere(r, target, freshFrom, cursors, mark)))
  }

  lemma CheckIsRight(r: Ring, target: nat, freshFrom: nat, cursors: seq<nat>, mark: nat, pump: nat, fires: bool)
    requires WellFormed(r)
    requires var slowest := SlowestLiveTs(r, cursors);
      fires <==> mark != 0 && slowest.Some? && slowest.value > mark
    ensures CheckRight(r, target, freshFrom, cursors, mark, pump, fires)
  {
    var slowest := SlowestLiveTs(r, cursors);
    CheckFiresIf(mark, pump, slowest);
    if Sorted(r.tags) && r.nextSeq <= NO_SEQ && slowest.Some? {
      FiresWhenAiredEverywhere(r, 0, freshFrom, cursors, mark);
      FiresWhenAiredEverywhere(r, target, freshFrom, cursors, mark);
    }
  }

  lemma CheckFiresIf(mark: nat, pump: nat, slowest: Option<nat>)
    ensures CheckFires(mark, pump, slowest, mark != 0 && slowest.Some? && slowest.value > mark)
  {
    CheckIsAtomic(SafeCut.State(mark, map[]), pump, slowest);
  }

  class Controller {
    const ring: DiskRing
    const clock: T.IngestClock
    var armedDelayMs: nat
    var targetDelayMs: nat
    var autoActivatePending: bool
    var activateOnceReady: bool
    var safeCutInputTs: nat
    var ingestAlive: bool
    var ingestFrozen: bool
    var replayFloor: Option<nat>
    var resumedAfter: Option<nat>
    var tailEnd: Option<nat>
    var resumed: bool // the last hold ended with OBS back
    var destinations: seq<Destination>

    ghost function Delay(): D.Delay
      reads this
    {
      D.Delay(armedDelayMs, targetDelayMs, autoActivatePending, activateOnceReady, safeCutInputTs)
    }

    // What the pump model knows of the controller, over ring `r`; the cursor is a pump's.
    ghost function FloorOn(r: Ring): P.FloorState
      reads this
    {
      P.FloorState(replayFloor, resumedAfter, tailEnd, resumed, P.Front(r), r.nextSeq, 0)
    }

    ghost predicate Valid()
      reads this, ring, ring.file
    {
      ring.Valid() && D.Inv(Delay())
    }

    constructor (ring: DiskRing, initialArmedMs: nat)
      requires ring.Valid()
      ensures Valid() && this.ring == ring && fresh(clock) && clock.State() == T.FRESH
      ensures Delay() == D.Delay(Min(initialArmedMs, D.MAX_DELAY_MS), 0, false, false, 0)
      ensures replayFloor == None && !ingestFrozen && !ingestAlive
    {
      this.ring := ring;
      clock := new T.IngestClock();
      armedDelayMs := Min(initialArmedMs, D.MAX_DELAY_MS);
      targetDelayMs, autoActivatePending, activateOnceReady, safeCutInputTs := 0, false, false, 0;
      ingestAlive, ingestFrozen := false, false;
      replayFloor, resumedAfter, tailEnd, resumed, destinations := None, None, None, false, [];
    }

    // ------------------------------------------------------------- the delay

    method ArmDelay(ms: nat)
      requires Valid()
      modifies this`armedDelayMs, this`targetDelayMs, this`autoActivatePending, this`activateOnceReady
      modifies this`safeCutInputTs
      ensures Valid() && Delay() == D.Step(old(Delay()), D.ArmOp(ms))
    {
      var ms := Min(ms, D.MAX_DELAY_MS);
      var previousTarget := targetDelayMs;
      armedDelayMs := ms;
      if ms == 0 {
        targetDelayMs := 0;
        autoActivatePending := false;
        activateOnceReady := false;
        safeCutInputTs := 0;
      } else if previousTarget > 0 {
        targetDelayMs := ms;
      } else {
        autoActivatePending := true;
        activateOnceReady := false;
      }
    }

    method ActivateDelay() returns (r: Result<nat, D.ActivateError>)
      requires Valid()
      modifies this`targetDelayMs, this`autoActivatePending
      ensures Valid() && r == D.ActivateResult(old(Delay()), ingestAlive, ring.View())
      ensures Delay() == D.Step(old(Delay()), D.ActivateOp(ingestAlive, ring.View()))
    {
      var armed := armedDelayMs;
      if armed == 0 {
        return Err(D.NotArmed);
      }
      if !ingestAlive {
        return Err(D.NoIngest);
      }
      if !D.BufferHolds(ring.View(), armed) {
        return Err(D.BufferShort(Minus(armed, D.BufferFill(ring.View()))));
      }
      targetDelayMs := armed;
      autoActivatePending := false;
      return Ok(armed);
    }

    method StopDelay()
      requires Valid()
      modifies this`targetDelayMs, this`autoActivatePending, this`safeCutInputTs
      ensures Valid() && Delay() == D.Step(old(Delay()), D.StopOp)
      ensures targetDelayMs == 0 && !autoActivatePending && safeCutInputTs == 0 && armedDelayMs == old(armedDelayMs)
    {
      targetDelayMs := 0;
      autoActivatePending := false;
      safeCutInputTs := 0;
    }

    /** The mark at the live edge, and about how long until it has aired: the most
        any live destination has left to send before it. */
    method ScheduleSafeCut() returns (wait: Option<nat>)
      requires Valid()
      modifies this`safeCutInputTs
      ensures Valid() && Delay() == D.Step(old(Delay()), D.ScheduleOp(ring.View()))
      ensures wait.Some? ==> safeCutInputTs != 0
      ensures wait.None? ==> Delay() == old(Delay())
      ensures wait.Some? <==> targetDelayMs > 0 && LatestTs(ring.View()).Some?
      ensures wait.Some? ==> var slowest := SlowestLiveTs(ring.View(), LiveCursors(destinations));
        wait.value == if slowest.None? then targetDelayMs else Min(Minus(safeCutInputTs, slowest.value), U32 - 1)
    {
      var latest := LatestTs(ring.View());
      if targetDelayMs == 0 || latest.None? {
        return None;
      }
      safeCutInputTs := Max(latest.value, 1);
      var slowest := SlowestLiveTs(ring.View(), LiveCursors(destinations));
      wait := Some(if slowest.None? then targetDelayMs else Min(Minus(safeCutInputTs, slowest.value), U32 - 1));
    }

    /** The check each pump makes, taken as one step: the pump's three accesses with
        nobody in between. It cuts when the slowest position is past the mark. */
    method MaybeFireSafeCut(ghost pump: nat) returns (fired: bool)
      requires Valid()
      modifies this`targetDelayMs, this`autoActivatePending, this`safeCutInputTs
      ensures Valid()
      ensures Delay() == D.Step(old(Delay()), D.MaybeFireOp(SlowestLiveTs(ring.View(), LiveCursors(destinations))))
      ensures if fired then targetDelayMs == 0 == safeCutInputTs else Delay() == old(Delay())
      ensures CheckRight(ring.View(), old(targetDelayMs), P.FreshFrom(replayFloor), LiveCursors(destinations),
                         old(safeCutInputTs), pump, fired)
    {
      var mark := safeCutInputTs;
      var slowest := SlowestLiveTs(ring.View(), LiveCursors(destinations));
      fired := mark != 0 && slowest.Some? && slowest.value > mark;
      CheckIsRight(ring.View(), targetDelayMs, P.FreshFrom(replayFloor), LiveCursors(destinations), mark, pump, fired);
      if fired {
        FireSafeCut();
      }
    }

    method FireSafeCut()
      requires Valid()
      modifies this`targetDelayMs, this`autoActivatePending, this`safeCutInputTs
      ensures Valid() && Delay() == D.Stop(old(Delay()))
    {
      safeCutInputTs := 0;
      StopDelay();
    }

    // ---------------------------------------------------------------- ingest

    /** A publisher takes the slot, unless another holds it and is sending video:
        the ring forgets the last session's tags, but keeps counting seqs; the delay
        stays as it is, with nothing left waiting to act on its own; the timeline
        starts over. */
    method BeginPublish(videoFrozen: bool, holdActive: bool) returns (accepted: bool)
      requires Valid()
      modifies this, clock, ring
      ensures Valid() && ring.appended == old(ring.appended) && destinations == old(destinations)
      ensures accepted <==> !old(ingestAlive) || videoFrozen
      ensures !accepted ==>
        ring.View() == old(ring.View()) && Delay() == old(Delay()) && clock.State() == old(clock.State())
      ensures accepted ==> ring.View() == Cleared(old(ring.View())) && clock.State() == T.FRESH
      ensures accepted ==> Delay() == D.Step(old(Delay()), D.NewPublisherOp)
      ensures accepted ==> ingestAlive && !ingestFrozen && replayFloor == None && resumedAfter == None
      ensures accepted ==> tailEnd == None && resumed == (old(resumed) || holdActive)
    {
      if ingestAlive && !videoFrozen {
        return false;
      }
      StartSession(holdActive);
      return true;
    }

    method StartSession(holdActive: bool)
      requires Valid()
      modifies this, clock, ring
      ensures Valid() && ring.appended == old(ring.appended) && destinations == old(destinations)
      ensures ring.View() == Cleared(old(ring.View())) && clock.State() == T.FRESH
      ensures Delay() == D.Step(old(Delay()), D.NewPublisherOp)
      ensures ingestAlive && !ingestFrozen && replayFloor == None && resumedAfter == None
      ensures tailEnd == None && resumed == (old(resumed) || holdActive)
    {
      ForgetSession();
      MarkStarted(holdActive);
    }

    // The session's own marks: nothing left waiting, no freeze and no floor.
    method MarkStarted(holdActive: bool)
      modifies this`autoActivatePending, this`safeCutInputTs, this`ingestFrozen, this`replayFloor
      modifies this`ingestAlive, this`resumedAfter, this`tailEnd, this`resumed
      ensures Delay() == D.NewPublisher(old(Delay()))
      ensures ingestAlive && !ingestFrozen && replayFloor == None && resumedAfter == LatestSeq(ring.View())
      ensures tailEnd == None && resumed == (old(resumed) || holdActive)
    {
      autoActivatePending := false;
      safeCutInputTs := 0;
      ingestFrozen := false;
      replayFloor := None;
      ingestAlive := true;
      resumedAfter := LatestSeq(ring.View());
      tailEnd := None;
      resumed := resumed || holdActive;
    }

    // The last session's timeline, headers and tags go.
    method ForgetSession()
      requires ring.Valid()
      modifies clock, ring
      ensures ring.Valid() && ring.appended == old(ring.appended)
      ensures ring.View() == Cleared(old(ring.View())) && clock.State() == T.FRESH
    {
      clock.Reset();
      ring.ForgetHeaders();
      ring.Clear();
    }

    /** OBS froze: a hold opened for it, and its delay's tail ends here. */
    method Freeze()
      requires Valid()
      modifies this`ingestFrozen, this`tailEnd, this`resumed
      ensures Valid() && ingestFrozen
      ensures FloorOn(ring.View()) == P.FloorStep(old(FloorOn(ring.View())), P.Freezes(ring.View()))
    {
      tailEnd := LatestSeq(ring.View());
      resumed := false;
      ingestFrozen := true;
    }

    /** Crash protection is switched off. Mid-freeze that ends the hold, and puts all
        the ring holds behind the floor. */
    method SwitchProtectionOff()
      requires Valid()
      modifies this`ingestFrozen, this`replayFloor, this`resumed
      ensures Valid() && !ingestFrozen
      ensures FloorOn(ring.View()) ==
        if old(ingestFrozen) then P.FloorStep(old(FloorOn(ring.View())), P.SwitchesOff(ring.View()))
        else old(FloorOn(ring.View()))
    {
      if ingestFrozen {
        ingestFrozen := false;
        if LatestSeq(ring.View()).Some? {
          replayFloor := LatestSeq(ring.View());
        }
        resumed := false;
      }
    }

    /** Video again after a freeze: everything the ring holds is from before it, and
        behind the floor once the hold was over or the tail had aired. */
    method Thaw(ts: nat, holdActive: bool)
      modifies this`ingestFrozen, this`replayFloor, this`resumedAfter, this`tailEnd, this`resumed
      ensures !ingestFrozen
      ensures FloorOn(ring.View()) ==
        P.FloorStep(old(FloorOn(ring.View())),
                    P.Recovers(ring.View(), holdActive, P.TailAired(ring.View(), targetDelayMs, ts)))
    {
      ingestFrozen := false;
      var tailAired := P.TailAired(ring.View(), targetDelayMs, ts);
      resumedAfter := LatestSeq(ring.View());
      tailEnd := None;
      resumed := holdActive;
      if (!holdActive || tailAired) && resumedAfter.Some? {
        replayFloor := resumedAfter;
      }
    }

    // Append, then trim to the armed delay, a keyframe to land on, and the slowest
    // consumer.
    method Keep(kind: nat, ts: nat, payload: seq<byte>, isIdr: bool, isSeq: bool, fault: Option<seq<byte>>,
                ghost a: Arrival)
      requires ring.Valid() && (fault.Some? ==> |fault.value| == |payload|)
      requires a == Arrival(kind, ts, |payload|, isIdr, isIdr && IsPrimaryVideoIdr(payload), isSeq, fault.None?)
      modifies ring, ring.file
      ensures ring.Valid()
      ensures ring.View() == Reach.OnTag(old(ring.View()), armedDelayMs, MinConsumerSeq(destinations), a)
    {
      var _ := ring.Append(kind, ts, payload, isIdr, isSeq, fault);
      if !isSeq {
        TrimForDelay(ts);
      }
    }

    method TrimForDelay(ts: nat)
      requires ring.Valid()
      modifies ring`index, ring`idrIndex, ring`indexedBytes
      ensures ring.Valid()
      ensures ring.View() == TrimFor(old(ring.View()), armedDelayMs, ts, MinConsumerSeq(destinations))
    {
      var target := TargetBuffer(armedDelayMs) + BUFFER_SLACK_MS;
      var keep := NewestIdrAtOrBefore(ring.View(), Minus(ts, TargetBuffer(armedDelayMs)));
      var keepFrom := Min(MinConsumerSeq(destinations), if keep.Some? then keep.value.seqNo else NO_SEQ);
      TrimForIs(ring.View(), armedDelayMs, ts, MinConsumerSeq(destinations));
      ring.TrimOlderThan(target, ts, keepFrom);
    }

    /** One tag from ingest: expanded, appended, and the ring trimmed to the delay.
        Video out of a freeze first closes it, and sets the replay floor when the
        hold was over or the whole tail had aired. */
    method OnTag(kind: nat, wireTs: u32, payload: seq<byte>, isIdr: bool, isSeq: bool,
                 holdActive: bool, fault: Option<seq<byte>>)
      returns (ghost a: Arrival)
      requires Valid()
      requires fault.Some? ==> |fault.value| == |payload|
      modifies this`ingestFrozen, this`replayFloor, this`resumedAfter, this`tailEnd, this`resumed
      modifies clock, ring, ring.file
      ensures Valid()
      ensures (clock.State(), a.ts) == T.Expand(old(clock.State()), wireTs)
      ensures a == Arrival(kind, a.ts, |payload|, isIdr, isIdr && IsPrimaryVideoIdr(payload), isSeq, fault.None?)
      ensures ring.View() == Reach.OnTag(old(ring.View()), armedDelayMs, MinConsumerSeq(destinations), a)
      ensures ingestFrozen == (old(ingestFrozen) && !(kind == VIDEO && !isSeq))
      ensures FloorOn(old(ring.View())) ==
        if kind == VIDEO && !isSeq && old(ingestFrozen)
        then P.FloorStep(
            old(FloorOn(ring.View())),
            P.Recovers(old(ring.View()), holdActive, P.TailAired(old(ring.View()), targetDelayMs, a.ts)))
        else old(FloorOn(ring.View()))
    {
      var ts := clock.ExpandTs(wireTs);
      a := Arrival(kind, ts, |payload|, isIdr, isIdr && IsPrimaryVideoIdr(payload), isSeq, fault.None?);
      if kind == VIDEO && !isSeq && ingestFrozen {
        Thaw(ts, holdActive);
      }
      Keep(kind, ts, payload, isIdr, isSeq, fault, a);
    }
  }
}
