/**
 * The ingest timeline (src/controller.rs, `expand_ts`): 32-bit wire stamps, which
 * wrap every 49.7 days, promoted to one 64-bit timeline per publisher session.
 */
module Timestamps {
  import opened Wrappers

  const HALF: nat := 0x8000_0000

  // How far behind the last tag still reads as audio and video interleaving.
  const MAX_TS_STEP_BACK_MS: nat := 10_000

  /** `last_input_ts_u32`, `input_ts_wrap_high` and `input_ts_seen`. */
  datatype Clock = Clock(seen: bool, last: u32, wrapHigh: u32)

  const FRESH := Clock(false, 0, 0)

  // The moment the timeline is at.
  function Reading(c: Clock): nat {
    c.wrapHigh * U32 + c.last
  }

  // The clock of a session whose latest stamp was truly `t`.
  function ClockAt(t: nat): Clock
    requires t / U32 < U32
  {
    Clock(true, t % U32, t / U32)
  }

  // `wire.wrapping_sub(last)`.
  function WrappingSub(wire: u32, last: u32): u32 {
    if wire >= last then wire - last else wire + U32 - last
  }

  function Adopt(wire: u32, wrapHigh: u32): (Clock, nat) {
    (Clock(true, wire, wrapHigh), wrapHigh * U32 + wire)
  }

  /** One reading of the wire: the clock after it, and the 64-bit stamp. */
  function Expand(c: Clock, wire: u32): (Clock, nat) {
    if !c.seen then (c.(seen := true, last := wire), wire)
    else if WrappingSub(wire, c.last) <= HALF then
      Adopt(wire, if wire < c.last then (c.wrapHigh + 1) % U32 else c.wrapHigh)
    else if wire > c.last then
      if c.wrapHigh == 0 then (c, c.last) else Adopt(wire, c.wrapHigh - 1)
    else if c.last - wire > MAX_TS_STEP_BACK_MS then (c, Reading(c))
    else Adopt(wire, c.wrapHigh)
  }

  /** A true stamp `next` after `t` that the detector reads for what it is:
      forward by up to half the counter, or back by up to ten seconds. A step
      back over a wrap boundary may be longer: only the ones inside a cycle are
      told apart from an encoder's stray stamp. */
  predicate Followable(t: nat, next: nat) {
    if next >= t then next - t <= HALF
    else t - next < HALF && (t - next <= MAX_TS_STEP_BACK_MS || next / U32 < t / U32)
  }

  /** Exactly when one stamp survives the wire. The bound leaves out the last
      of the 2^32 cycles a 64-bit stamp can count. */
  lemma StepExact(t: nat, next: nat)
    requires t / U32 < U32 - 1
    ensures Expand(ClockAt(t), next % U32).1 == next <==> Followable(t, next)
    ensures Followable(t, next) ==> Expand(ClockAt(t), next % U32).0 == ClockAt(next)
  {
    assert t == (t / U32) * U32 + t % U32;
    assert next == (next / U32) * U32 + next % U32;
  }

  /** So the ten seconds are a limit inside one cycle alone: twenty seconds back is
      pinned there, and over a wrap boundary read for what it is. */
  lemma TwentySecondsBack()
    ensures Expand(ClockAt(25_000), 5_000) == (ClockAt(25_000), 25_000)
    ensures Expand(ClockAt(U32 + 5_000), U32 - 15_000) == (ClockAt(U32 - 15_000), U32 - 15_000)
  {
    assert (U32 + 5_000) / U32 == 1 && (U32 + 5_000) % U32 == 5_000;
    assert (U32 - 15_000) / U32 == 0 && (U32 - 15_000) % U32 == U32 - 15_000;
  }

  /** Whatever the wire says, the timeline never jumps more than half the counter,
      keeps the wire's low bits, or pins to where it was and changes nothing. */
  lemma StepBounded(c: Clock, wire: u32)
    requires c.seen && c.wrapHigh < U32 - 1
    ensures var (after, ts) := Expand(c, wire);
      && ts == Reading(after)
      && Reading(c) - HALF <= ts <= Reading(c) + HALF
      && (ts % U32 == wire || after == c)
  {
    var (after, ts) := Expand(c, wire);
    assert after == c || ts == after.wrapHigh * U32 + wire;
  }

  function ExpandAll(c: Clock, wires: seq<u32>): (stamps: seq<nat>)
    ensures |stamps| == |wires|
    decreases |wires|
  {
    if wires == [] then []
    else
      var (after, ts) := Expand(c, wires[0]);
      [ts] + ExpandAll(after, wires[1..])
  }

  function OnWire(stamps: seq<nat>): (wires: seq<u32>)
    ensures |wires| == |stamps|
  {
    if stamps == [] then [] else [stamps[0] % U32] + OnWire(stamps[1..])
  }

  ghost predicate AllFollowable(t: nat, stamps: seq<nat>)
    decreases |stamps|
  {
    stamps == [] || (Followable(t, stamps[0]) && AllFollowable(stamps[0], stamps[1..]))
  }

  // Every stamp lies before the last cycle a 64-bit stamp counts.
  ghost predicate Countable(stamps: seq<nat>) {
    forall i | 0 <= i < |stamps| :: stamps[i] / U32 < U32 - 1
  }

  lemma {:induction false} RunExactFrom(t: nat, stamps: seq<nat>)
    requires t / U32 < U32 - 1 && Countable(stamps)
    ensures ExpandAll(ClockAt(t), OnWire(stamps)) == stamps <==> AllFollowable(t, stamps)
    decreases |stamps|
  {
    if stamps != [] {
      var wires := OnWire(stamps);
      StepExact(t, stamps[0]);
      assert wires[1..] == OnWire(stamps[1..]);
      assert stamps == [stamps[0]] + stamps[1..];
      if Followable(t, stamps[0]) {
        RunExactFrom(stamps[0], stamps[1..]);
        assert ExpandAll(ClockAt(t), wires) == [stamps[0]] + ExpandAll(ClockAt(stamps[0]), wires[1..]);
        assert ExpandAll(ClockAt(t), wires)[1..] == ExpandAll(ClockAt(stamps[0]), wires[1..]);
      } else {
        assert ExpandAll(ClockAt(t), wires)[0] != stamps[0];
      }
    }
  }

  /** A whole session, across any number of wraps: feeding the low 32 bits of the
      true stamps gives every true stamp back exactly when the session starts in
      the counter's first cycle and each stamp is followable from the one before. */
  lemma SessionExact(stamps: seq<nat>)
    requires stamps != [] && Countable(stamps)
    ensures ExpandAll(FRESH, OnWire(stamps)) == stamps
       <==> stamps[0] < U32 && AllFollowable(stamps[0], stamps[1..])
  {
    var wires := OnWire(stamps);
    var rest := stamps[1..];
    assert stamps == [stamps[0]] + rest;
    if stamps[0] < U32 {
      FirstStamp(stamps[0]);
      RunExactFrom(stamps[0], rest);
      assert ExpandAll(FRESH, wires) == [stamps[0]] + ExpandAll(ClockAt(stamps[0]), wires[1..]);
      assert ExpandAll(FRESH, wires)[1..] == ExpandAll(ClockAt(stamps[0]), wires[1..]);
      assert wires[1..] == OnWire(rest);
    } else {
      assert ExpandAll(FRESH, wires)[0] == wires[0];
    }
  }

  // The first tag of a session defines where its timeline starts.
  lemma FirstStamp(t: nat)
    requires t < U32
    ensures Expand(FRESH, t % U32) == (ClockAt(t), t)
  {
  }

  /** The controller's ingest clock, updated in place once per tag. */
  class IngestClock {
    var lastInputTs: u32
    var wrapHigh: u32
    var seen: bool

    ghost function State(): Clock
      reads this
    {
      Clock(seen, lastInputTs, wrapHigh)
    }

    constructor ()
      ensures State() == FRESH
    {
      lastInputTs, wrapHigh, seen := 0, 0, false;
    }

    method ExpandTs(wire: u32) returns (ts: nat)
      modifies this
      ensures (State(), ts) == Expand(old(State()), wire)
    {
      var last := lastInputTs;
      var high := wrapHigh;
      var first := !seen;
      seen := true;
      if first {
        lastInputTs := wire;
        return wire;
      }
      if WrappingSub(wire, last) <= HALF {
        if wire < last {
          high := (high + 1) % U32;
        }
      } else if wire > last {
        if high == 0 {
          return last;
        }
        high := high - 1;
      } else if last - wire > MAX_TS_STEP_BACK_MS {
        return high * U32 + last;
      }
      wrapHigh := high;
      lastInputTs := wire;
      return high * U32 + wire;
    }

    // A publisher session ended: the next one starts its own timeline.
    method Reset()
      modifies this
      ensures State() == FRESH
    {
      lastInputTs, wrapHigh, seen := 0, 0, false;
    }
  }
}
