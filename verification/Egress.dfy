/**
 * The output timeline of one destination (src/controller.rs, `EgressState`,
 * `pace_and_send`, `apply_cut`, `reseed_after_publisher_change`, `pump_dest`).
 *
 * On the wire every stamp is 32 bits. `Timeline` is what those stamps stand for,
 * unwrapped: an ever-growing count, cut into segments at each discontinuity (a
 * cut, a re-anchor, a reconnect screen). `EgressState` holds the wrapped fields
 * and refines it.
 */
module Egress {
  import opened Wrappers
  import opened HoldLoop

  /** A stamp used up: its segment, the stamp unwrapped, the input stamp it stands
      for if it does, and whether anything went out on it. */
  datatype Entry = Entry(segment: nat, at: nat, input: Option<nat>, sent: bool)

  /** `base` is the stamp of the segment's start, whose input stamp is `anchor`;
      `lastSent` the highest input stamp sent in it. `log` is history. */
  datatype Timeline = Timeline(base: nat, anchor: nat, lastSent: nat, segment: nat, log: seq<Entry>)

  const START := Timeline(0, 0, 0, 0, [])

  /** What a pump does to its timeline. `Tag` is a media tag put on the wire;
      `Noted` one that counts as sent but has no wire form; `Headers` the
      sequence headers sent again; `Reanchor` a cut or a re-seed, headers first;
      `Screen` the reconnect screen, frames at these offsets from its start. */
  datatype Event =
    | Tag(ts: nat)
    | Noted(ts: nat)
    | Headers
    | Reanchor(ts: nat)
    | Screen(offsets: seq<nat>)

  function LastOut(t: Timeline): nat {
    t.base + Minus(t.lastSent, t.anchor)
  }

  function Use(t: Timeline, at: nat, input: Option<nat>, sent: bool): Timeline {
    t.(log := t.log + [Entry(t.segment, at, input, sent)])
  }

  function SendAll(t: Timeline, start: nat, offsets: seq<nat>): Timeline
    decreases |offsets|
  {
    if offsets == [] then t else SendAll(Use(t, start + offsets[0], None, true), start, offsets[1..])
  }

  function LastOffset(offsets: seq<nat>): nat {
    if offsets == [] then 0 else offsets[|offsets| - 1]
  }

  // A segment starting one millisecond after the last stamp, at input `ts`.
  function NextSegment(t: Timeline, ts: nat): Timeline {
    Timeline(LastOut(t) + 1, ts, ts, t.segment + 1, t.log)
  }

  // A pump's first keyframe, when no screen came before it: headers first.
  function Seeded(ts: nat): Timeline {
    Use(Timeline(0, ts, ts, 0, []), 0, Some(ts), true)
  }

  // A tag's turn: below the segment's start it is dropped.
  function Pass(t: Timeline, ts: nat, sent: bool): Timeline {
    if ts < t.anchor then t
    else Use(t, t.base + ts - t.anchor, Some(ts), sent).(lastSent := Max(t.lastSent, ts))
  }

  // A screen that ends before its first frame still uses up the stamp it was to start on.
  function Shown(t: Timeline, start: nat, offsets: seq<nat>): Timeline {
    if offsets == [] then Use(t, start, None, false) else SendAll(t, start, offsets)
  }

  function Step(t: Timeline, e: Event): Timeline {
    match e
    case Tag(ts) => Pass(t, ts, true)
    case Noted(ts) => Pass(t, ts, false)
    case Headers => Use(t, LastOut(t), None, true)
    case Reanchor(ts) => Use(NextSegment(t, ts), LastOut(t) + 1, Some(ts), true)
    case Screen(offsets) =>
      var start := LastOut(t) + 1;
      var shown := Shown(t.(segment := t.segment + 1), start, offsets);
      shown.(base := start + LastOffset(offsets), anchor := t.lastSent)
  }

  function Run(t: Timeline, events: seq<Event>): Timeline
    decreases |events|
  {
    if events == [] then t else Run(Step(t, events[0]), events[1..])
  }

  // A screen's first frame is due at its start, and the others in order.
  predicate Sensible(e: Event) {
    e.Screen? ==>
      && (e.offsets != [] ==> e.offsets[0] == 0)
      && forall i | 0 < i < |e.offsets| :: e.offsets[i - 1] <= e.offsets[i]
  }

  ghost predicate Behind(a: Entry, b: Entry) {
    a.segment <= b.segment && (a.segment < b.segment ==> a.at < b.at)
  }

  // Every discontinuity leaves what came before it strictly behind.
  ghost predicate Ordered(log: seq<Entry>) {
    forall i, j {:trigger Behind(log[i], log[j])} | 0 <= i < j < |log| :: Behind(log[i], log[j])
  }

  // Two tags of one segment are as far apart on the output as on the input.
  ghost predicate Apart(a: Entry, b: Entry) {
    a.segment == b.segment && a.input.Some? && b.input.Some? ==> b.at - a.at == b.input.value - a.input.value
  }

  ghost predicate Spaced(log: seq<Entry>) {
    forall i, j {:trigger Apart(log[i], log[j])} | 0 <= i < j < |log| :: Apart(log[i], log[j])
  }

  // `at` is the highest stamp of the log.
  ghost predicate Highest(log: seq<Entry>, at: nat) {
    (exists f :: f in log && f.at == at) && forall f | f in log :: f.at <= at
  }

  // A segment opens exactly one past the highest stamp before it.
  ghost predicate Opens(log: seq<Entry>, i: nat)
    requires 0 < i < |log|
  {
    log[i].at > 0 && Highest(log[..i], log[i].at - 1)
  }

  ghost predicate Opened(log: seq<Entry>) {
    forall i {:trigger Opens(log, i)} | 0 < i < |log| && log[i - 1].segment < log[i].segment :: Opens(log, i)
  }

  ghost predicate Kept(log: seq<Entry>) {
    Ordered(log) && Spaced(log) && Opened(log)
  }

  // Nothing is past the last stamp, nor an older segment past this one's start, and
  // this one's tags sit where their input stamps put them.
  ghost predicate Fits(f: Entry, t: Timeline) {
    && f.segment <= t.segment && f.at <= LastOut(t)
    && (f.segment < t.segment ==> f.at < t.base)
    && (f.segment == t.segment && f.input.Some? ==>
          t.anchor <= f.input.value && f.at == t.base + f.input.value - t.anchor)
  }

  ghost predicate Inv(t: Timeline) {
    && t.anchor <= t.lastSent
    && Kept(t.log)
    && (forall f {:trigger Fits(f, t)} | f in t.log :: Fits(f, t))
    && (if t.log == [] then t.lastSent == t.anchor
        else t.log[|t.log| - 1].segment == t.segment && Highest(t.log, LastOut(t)))
  }

  lemma UseKeepsLog(log: seq<Entry>, e: Entry)
    requires Kept(log)
    requires forall i | 0 <= i < |log| :: Behind(log[i], e) && Apart(log[i], e)
    requires log != [] && log[|log| - 1].segment < e.segment ==> e.at > 0 && Highest(log, e.at - 1)
    ensures Kept(log + [e])
  {
    var l := log + [e];
    forall i, j | 0 <= i < j < |l| ensures Behind(l[i], l[j]) && Apart(l[i], l[j]) {
      assert j < |log| ==> Behind(log[i], log[j]) && Apart(log[i], log[j]);
    }
    forall i | 0 < i < |l| && l[i - 1].segment < l[i].segment ensures Opens(l, i) {
      assert i < |log| ==> Opens(log, i) && l[..i] == log[..i];
      assert i == |log| ==> l[..i] == log;
    }
  }

  // A screen of segment `segment` is being sent, from stamp `start` up to `last` past it.
  ghost predicate Showing(log: seq<Entry>, segment: nat, start: nat, last: nat) {
    && Kept(log) && log != [] && log[|log| - 1].segment == segment
    && forall f | f in log :: ShowingFits(f, segment, start, last)
  }

  ghost predicate ShowingFits(f: Entry, segment: nat, start: nat, last: nat) {
    && f.segment <= segment && f.at <= start + last
    && if f.segment < segment then f.at < start else f.input.None?
  }

  lemma ShowingNext(log: seq<Entry>, segment: nat, start: nat, last: nat, offset: nat)
    requires Showing(log, segment, start, last) && offset <= last
    ensures Showing(log + [Entry(segment, start + offset, None, true)], segment, start, last)
  {
    var e := Entry(segment, start + offset, None, true);
    forall f | f in log ensures Behind(f, e) && Apart(f, e) {
      assert ShowingFits(f, segment, start, last);
    }
    UseKeepsLog(log, e);
  }

  lemma {:induction false} SendAllKeepsLog(t: Timeline, start: nat, offsets: seq<nat>, last: nat)
    requires Showing(t.log, t.segment, start, last)
    requires forall i | 0 <= i < |offsets| :: offsets[i] <= last
    ensures Showing(SendAll(t, start, offsets).log, t.segment, start, last)
    decreases |offsets|
  {
    if offsets != [] {
      ShowingNext(t.log, t.segment, start, last, offsets[0]);
      SendAllKeepsLog(Use(t, start + offsets[0], None, true), start, offsets[1..], last);
    }
  }

  lemma SeededKeepsInv(ts: nat)
    ensures Inv(Seeded(ts))
  {
    var t := Seeded(ts);
    assert t.log[0] in t.log;
  }

  lemma HigherStill(log: seq<Entry>, top: nat, e: Entry)
    requires log != [] ==> Highest(log, top)
    ensures Highest(log + [e], if log == [] then e.at else Max(top, e.at))
  {
    var l := log + [e];
    assert l[|log|] == e;
    if log != [] {
      var f :| f in log && f.at == top;
      assert f in l;
    }
  }

  // An entry of the current segment, or one that opens the next: the log is kept.
  lemma EntryFits(t: Timeline, e: Entry)
    requires Inv(t)
    requires e.segment == t.segment ==>
      t.base <= e.at && (e.input.Some? ==> t.anchor <= e.input.value && e.at == t.base + e.input.value - t.anchor)
    requires e.segment == t.segment || (e.segment == t.segment + 1 && e.at == LastOut(t) + 1)
    ensures Kept(t.log + [e])
    ensures Highest(t.log + [e], if t.log == [] then e.at else Max(LastOut(t), e.at))
  {
    forall f | f in t.log ensures Behind(f, e) && Apart(f, e) {
      assert Fits(f, t);
    }
    UseKeepsLog(t.log, e);
    HigherStill(t.log, LastOut(t), e);
  }

  // What fits still does when the last stamp moves on.
  lemma StillFits(f: Entry, t: Timeline, n: Timeline)
    requires Fits(f, t) && n.segment == t.segment && n.base == t.base && n.anchor == t.anchor
    requires t.lastSent <= n.lastSent
    ensures Fits(f, n)
  {
  }

  lemma PassKeepsInv(t: Timeline, ts: nat, sent: bool)
    requires Inv(t) && ts >= t.anchor
    ensures Inv(Pass(t, ts, sent))
  {
    var n := Pass(t, ts, sent);
    var e := Entry(t.segment, t.base + ts - t.anchor, Some(ts), sent);
    EntryFits(t, e);
    assert n.log == t.log + [e] && Fits(e, n);
    forall f | f in t.log ensures Fits(f, n) {
      StillFits(f, t, n);
    }
    assert LastOut(n) == if t.log == [] then e.at else Max(LastOut(t), e.at);
  }

  lemma HeadersKeepInv(t: Timeline)
    requires Inv(t)
    ensures Inv(Step(t, Headers))
  {
    var n := Step(t, Headers);
    EntryFits(t, Entry(t.segment, LastOut(t), None, true));
    forall f | f in t.log ensures Fits(f, n) {
      assert Fits(f, t);
    }
  }

  lemma ReanchorKeepsInv(t: Timeline, ts: nat)
    requires Inv(t)
    ensures Inv(Step(t, Reanchor(ts)))
  {
    var n := Step(t, Reanchor(ts));
    EntryFits(t, Entry(t.segment + 1, LastOut(t) + 1, Some(ts), true));
    forall f | f in t.log ensures Fits(f, n) {
      assert Fits(f, t);
    }
  }

  lemma {:induction false} OffsetsUpToLast(offsets: seq<nat>, i: nat)
    requires Sensible(Screen(offsets)) && i < |offsets|
    ensures offsets[i] <= LastOffset(offsets)
    decreases |offsets| - i
  {
    if i + 1 < |offsets| {
      OffsetsUpToLast(offsets, i + 1);
      assert offsets[i + 1 - 1] <= offsets[i + 1];
    }
  }

  // A screen's first stamp, which opens its segment.
  lemma FirstShown(t: Timeline, sent: bool, last: nat)
    requires Inv(t)
    ensures var e := Entry(t.segment + 1, LastOut(t) + 1, None, sent);
      Showing(t.log + [e], t.segment + 1, LastOut(t) + 1, last) && Highest(t.log + [e], LastOut(t) + 1)
  {
    EntryFits(t, Entry(t.segment + 1, LastOut(t) + 1, None, sent));
    forall f | f in t.log ensures ShowingFits(f, t.segment + 1, LastOut(t) + 1, last) {
      assert Fits(f, t);
    }
  }

  lemma ScreenLast(t: Timeline, offsets: seq<nat>)
    ensures var n := Step(t, Screen(offsets));
      && n.log != [] && n.log[|n.log| - 1] in n.log
      && n.log[|n.log| - 1].segment == n.segment && n.log[|n.log| - 1].at == n.base
  {
    ScreenLogs(t, offsets);
    var n := Step(t, Screen(offsets));
    if offsets != [] {
      var last := |offsets| - 1;
      assert n.log[|t.log| + last].at == LastOut(t) + 1 + offsets[last];
    }
  }

  lemma ScreenKeepsLog(t: Timeline, offsets: seq<nat>)
    requires Inv(t) && Sensible(Screen(offsets))
    ensures Showing(Step(t, Screen(offsets)).log, t.segment + 1, LastOut(t) + 1, LastOffset(offsets))
  {
    FirstShown(t, offsets != [], LastOffset(offsets));
    if offsets != [] {
      var start := LastOut(t) + 1;
      forall i | 0 <= i < |offsets| - 1 ensures offsets[1..][i] <= LastOffset(offsets) {
        OffsetsUpToLast(offsets, i + 1);
      }
      var first := Use(t.(segment := t.segment + 1), start, None, true);
      SendAllKeepsLog(first, start, offsets[1..], LastOffset(offsets));
    }
  }

  lemma ScreenKeepsInv(t: Timeline, offsets: seq<nat>)
    requires Inv(t) && Sensible(Screen(offsets))
    ensures Inv(Step(t, Screen(offsets)))
  {
    var n := Step(t, Screen(offsets));
    ScreenKeepsLog(t, offsets);
    ScreenLogs(t, offsets);
    ScreenLast(t, offsets);
    forall f | f in n.log ensures Fits(f, n) {
      assert ShowingFits(f, t.segment + 1, LastOut(t) + 1, LastOffset(offsets));
    }
  }

  lemma StepKeepsInv(t: Timeline, e: Event)
    requires Inv(t) && Sensible(e)
    ensures Inv(Step(t, e))
  {
    match e
    case Tag(ts) =>
      if ts >= t.anchor { PassKeepsInv(t, ts, true); }
    case Noted(ts) =>
      if ts >= t.anchor { PassKeepsInv(t, ts, false); }
    case Headers => HeadersKeepInv(t);
    case Reanchor(ts) => ReanchorKeepsInv(t, ts);
    case Screen(offsets) => ScreenKeepsInv(t, offsets);
  }

  // The entries an event adds to the log.
  function Added(t: Timeline, e: Event): seq<Entry>
    requires t.log <= Step(t, e).log
  {
    Step(t, e).log[|t.log|..]
  }

  // One frame, in the segment it found.
  ghost predicate OneEntry(added: seq<Entry>, segment: nat, input: Option<nat>, sent: bool) {
    |added| == 1 && added[0].segment == segment && added[0].input == input && added[0].sent == sent
  }

  // The screen's frames, each at its own time from the first.
  ghost predicate FramesAt(added: seq<Entry>, segment: nat, offsets: seq<nat>) {
    && |added| == |offsets|
    && forall i | 0 <= i < |offsets| ::
         && added[i].segment == segment && added[i].sent && added[i].input.None?
         && added[i].at == added[0].at + offsets[i]
  }

  /** Nothing that was sent changes, and each event uses stamps as its kind says: a tag
      one, in the current segment, unless it is from before it; headers sent again
      one, the last; a cut or re-seed opens a segment on its keyframe's stamp; a
      screen opens one with a stamp for each frame. */
  lemma StepLogs(t: Timeline, e: Event)
    requires Sensible(e)
    ensures t.log <= Step(t, e).log
    ensures match e
      case Tag(ts) => if ts < t.anchor then Added(t, e) == [] else OneEntry(Added(t, e), t.segment, Some(ts), true)
      case Noted(ts) => if ts < t.anchor then Added(t, e) == [] else OneEntry(Added(t, e), t.segment, Some(ts), false)
      case Headers => OneEntry(Added(t, e), t.segment, None, true) && Added(t, e)[0].at == LastOut(t)
      case Reanchor(ts) => OneEntry(Added(t, e), t.segment + 1, Some(ts), true)
      case Screen(offsets) =>
        if offsets == [] then OneEntry(Added(t, e), t.segment + 1, None, false)
        else FramesAt(Added(t, e), t.segment + 1, offsets)
  {
    if e.Screen? && e.offsets != [] {
      ScreenLogs(t, e.offsets);
      assert e.offsets[0] == 0;
      forall i | 0 <= i < |e.offsets|
        ensures Added(t, e)[i] == Entry(t.segment + 1, LastOut(t) + 1 + e.offsets[i], None, true)
      {
        assert Added(t, e)[i] == Step(t, e).log[|t.log| + i];
      }
    }
  }

  lemma StepGoesOn(t: Timeline, e: Event)
    requires Inv(t) && Sensible(e)
    ensures LastOut(Step(t, e)) >= LastOut(t)
    ensures t.log <= Step(t, e).log
  {
    StepLogs(t, e);
  }

  lemma {:induction false} RunKeepsInv(t: Timeline, events: seq<Event>)
    requires Inv(t) && forall e | e in events :: Sensible(e)
    ensures Inv(Run(t, events)) && t.log <= Run(t, events).log
    ensures LastOut(Run(t, events)) >= LastOut(t)
    decreases |events|
  {
    if events != [] {
      StepKeepsInv(t, events[0]);
      StepGoesOn(t, events[0]);
      RunKeepsInv(Step(t, events[0]), events[1..]);
    }
  }

  // A pump that starts at its first keyframe, or on a reconnect screen.
  function Begun(seed: Option<nat>): Timeline {
    if seed.Some? then Seeded(seed.value) else START
  }

  lemma BegunKeepsInv(seed: Option<nat>)
    ensures Inv(Begun(seed))
  {
    if seed.Some? { SeededKeepsInv(seed.value); }
  }

  // Segments apart and one past each other, each spaced as its input was, up to the last stamp.
  ghost predicate InShape(t: Timeline) {
    Ordered(t.log) && Opened(t.log) && Spaced(t.log) && (t.log != [] ==> Highest(t.log, LastOut(t)))
  }

  lemma RunInShape(t: Timeline, events: seq<Event>)
    requires Inv(t) && forall e | e in events :: Sensible(e)
    ensures InShape(Run(t, events))
  {
    RunKeepsInv(t, events);
  }

  /** Over any run of tags in any order, cuts forward or back, re-anchors, header
      resends and reconnect screens: every frame after a discontinuity is stamped
      strictly above every frame sent before it, the first of them by exactly one
      millisecond; two tags of one segment are as far apart as they came in; and
      the last stamp, which headers sent again go out on, is the highest used. */
  lemma OutputNeverRepeats(seed: Option<nat>, events: seq<Event>)
    requires forall e | e in events :: Sensible(e)
    ensures InShape(Run(Begun(seed), events))
  {
    BegunKeepsInv(seed);
    RunInShape(Begun(seed), events);
  }

  // 32-bit arithmetic on wrapped stamps is the unwrapped arithmetic, wrapped.
  lemma WrapAdd(base: nat, delta: nat)
    ensures (base % U32 + delta % U32) % U32 == (base + delta) % U32
  {
  }

  lemma WrapTag(base: nat, delta: nat)
    ensures (base % U32 + delta % U32) % U32 == (base + delta) % U32 == (base % U32 + delta) % U32
  {
    WrapAdd(base, delta);
    WrapAdd(base % U32, delta);
  }

  // All of a cut's bookkeeping, on values.
  lemma ReanchorWraps(t: Timeline, ts: nat)
    requires Inv(t)
    ensures var n := Step(t, Reanchor(ts));
      && Inv(n) && n.anchor == ts && n.lastSent == ts
      && n.base % U32 == (LastOut(t) % U32 + 1) % U32 == (LastOut(t) + 1) % U32
  {
    ReanchorKeepsInv(t, ts);
    WrapAdd(LastOut(t), 1);
  }

  // All of a tag's bookkeeping, on values.
  lemma PassWraps(t: Timeline, ts: nat, sent: bool)
    requires Inv(t) && ts >= t.anchor
    ensures var n := Pass(t, ts, sent);
      && Inv(n) && n.base == t.base && n.anchor == t.anchor && n.lastSent == Max(t.lastSent, ts) && n.log != []
      && n.log[|n.log| - 1].at % U32 == (t.base % U32 + (ts - t.anchor) % U32) % U32
                                    == (t.base % U32 + ts - t.anchor) % U32
  {
    PassKeepsInv(t, ts, sent);
    WrapTag(t.base, ts - t.anchor);
  }

  // What became of a tag the pump had its turn to send: overwritten before the
  // read, not for this destination, sent, or of a kind with no wire form.
  datatype Fate = Lost | Unselected | Selected | OtherKind

  class EgressState {
    var consumerSeq: nat
    var inputTsAnchor: nat
    var outputTsBase: u32
    var lastSentInputTs: nat
    ghost var line: Timeline

    ghost predicate Valid()
      reads this
    {
      && Inv(line)
      && inputTsAnchor == line.anchor
      && lastSentInputTs == line.lastSent
      && outputTsBase == line.base % U32
    }

    constructor ()
      ensures Valid() && line == START && consumerSeq == 0
    {
      consumerSeq, inputTsAnchor, outputTsBase, lastSentInputTs := 0, 0, 0, 0;
      line := START;
    }

    method LastOutputTs() returns (ts: u32)
      requires Valid()
      ensures ts == LastOut(line) % U32
    {
      var delta: u32 := Minus(lastSentInputTs, inputTsAnchor) % U32;
      ts := (outputTsBase + delta) % U32;
      WrapAdd(line.base, Minus(line.lastSent, line.anchor));
    }

    /** A tag's turn. It goes out on the wire as the timeline's own stamp wrapped to
        32 bits, however long ago the segment began. */
    method PaceAndSend(seqNo: nat, ts: nat, fate: Fate) returns (wire: Option<u32>)
      requires Valid()
      modifies this
      ensures Valid() && consumerSeq == seqNo + 1
      ensures line == match fate
        case Selected => Step(old(line), Tag(ts))
        case OtherKind => Step(old(line), Noted(ts))
        case _ => old(line)
      ensures wire.Some? <==> fate.Selected? && ts >= old(inputTsAnchor)
      ensures wire.Some? ==> wire.value == (old(outputTsBase) + ts - old(inputTsAnchor)) % U32
      ensures wire.Some? ==> line.log != [] && wire.value == line.log[|line.log| - 1].at % U32
    {
      if ts < inputTsAnchor {
        consumerSeq := seqNo + 1;
        return None;
      }
      var rawDelta: u32 := (ts - inputTsAnchor) % U32;
      var outTs: u32 := (outputTsBase + rawDelta) % U32;
      if fate.Lost? || fate.Unselected? {
        consumerSeq := seqNo + 1;
        return None;
      }
      PassWraps(line, ts, fate.Selected?);
      wire := if fate.Selected? then Some(outTs) else None;
      consumerSeq := seqNo + 1;
      lastSentInputTs := Max(lastSentInputTs, ts);
      line := Pass(line, ts, fate.Selected?);
    }

    /** Where a pump starts, with no hold on: the timeline is its first keyframe's. */
    method Seed(seqNo: nat, ts: nat) returns (headers: u32)
      requires Valid() && line == START
      modifies this
      ensures Valid() && line == Seeded(ts)
      ensures consumerSeq == seqNo && inputTsAnchor == ts && headers == outputTsBase == 0
    {
      SeededKeepsInv(ts);
      consumerSeq, inputTsAnchor, outputTsBase, lastSentInputTs := seqNo, ts, 0, ts;
      line := Seeded(ts);
      headers := outputTsBase;
    }

    /** A cut, or a re-seed after the publisher changed: the same arithmetic. The
        stamp returned is the one the sequence headers go out with. */
    method ApplyCut(targetSeq: nat, targetTs: nat) returns (headers: u32)
      requires Valid()
      modifies this
      ensures Valid() && consumerSeq == targetSeq && line == Step(old(line), Reanchor(targetTs))
      ensures headers == outputTsBase == (LastOut(old(line)) + 1) % U32 && inputTsAnchor == targetTs
    {
      var lastOut := LastOutputTs();
      ReanchorWraps(line, targetTs);
      headers := (lastOut + 1) % U32;
      outputTsBase := headers;
      inputTsAnchor := targetTs;
      consumerSeq := targetSeq;
      lastSentInputTs := targetTs;
      line := Step(line, Reanchor(targetTs));
    }

    // A new encoder configuration mid-stream, resent on the last stamp.
    method ResendHeaders() returns (wire: u32)
      requires Valid()
      modifies this`line
      ensures Valid() && line == Step(old(line), Headers)
      ensures wire == line.log[|line.log| - 1].at % U32
    {
      wire := LastOutputTs();
      StepKeepsInv(line, Headers);
      line := Step(line, Headers);
    }

    /** The reconnect screen, and the bookkeeping that makes the rejoin after it
        start strictly later than its last frame. `wire` is what its frames went out
        with: each is the timeline's own stamp for it, wrapped. */
    method CoverWithScreen(audio: seq<real>, polls: seq<Option<HoldExit>>)
      returns (exit: Option<HoldExit>, wire: seq<u32>, ghost offsets: seq<nat>)
      requires Valid() && Positive(audio)
      modifies this
      ensures Valid() && consumerSeq == old(consumerSeq)
      ensures Sensible(Screen(offsets)) && line == Step(old(line), Screen(offsets))
      ensures WentOut(old(line).log, line.log, wire)
    {
      var after := LastOutputTs();
      var lastTs, log;
      exit, lastTs, log, wire := Show(audio, after, polls);
      offsets := Offsets(log);
      ScreenShown(line, after, log, wire, lastTs);
      outputTsBase := lastTs;
      inputTsAnchor := lastSentInputTs;
      line := Step(line, Screen(offsets));
    }
  }

  // The screen as the timeline sees it: which stamps, in what order.
  method Show(audio: seq<real>, afterTs: u32, polls: seq<Option<HoldExit>>)
    returns (exit: Option<HoldExit>, lastTs: u32, log: seq<Due>, wire: seq<u32>)
    requires Positive(audio)
    ensures StampedFrom((afterTs + 1) % U32, log, wire) && Sensible(Screen(Offsets(log)))
    ensures lastTs == if wire == [] then (afterTs + 1) % U32 else wire[|wire| - 1]
  {
    exit, lastTs, log, wire := Play(audio, afterTs, polls);
    OffsetsSensible([FRAME_MS] + audio, log);
  }

  // A frame's wrapped stamp is its unwrapped one, wrapped.
  lemma FrameWraps(lastOut: nat, at: real)
    requires at >= 0.0
    ensures WireStamp((lastOut % U32 + 1) % U32, at) == (lastOut + 1 + Stamp(at)) % U32
  {
    WrapAdd(lastOut, 1);
    WrapAdd(lastOut + 1, Stamp(at));
  }

  lemma {:induction false} SendAllSends(t: Timeline, start: nat, offsets: seq<nat>)
    ensures var log := SendAll(t, start, offsets).log;
      && t.log <= log && |log| == |t.log| + |offsets|
      && forall i | 0 <= i < |offsets| :: log[|t.log| + i] == Entry(t.segment, start + offsets[i], None, true)
    ensures SendAll(t, start, offsets).(log := t.log) == t
    decreases |offsets|
  {
    if offsets != [] {
      var e := Use(t, start + offsets[0], None, true);
      SendAllSends(e, start, offsets[1..]);
      var log := SendAll(t, start, offsets).log;
      assert log[|t.log|] == e.log[|t.log|];
      forall i | 0 < i < |offsets| ensures log[|t.log| + i] == Entry(t.segment, start + offsets[i], None, true) {
        assert offsets[1..][i - 1] == offsets[i];
      }
    }
  }

  lemma ScreenLogs(t: Timeline, offsets: seq<nat>)
    ensures var n := Step(t, Screen(offsets));
      && n.base == LastOut(t) + 1 + LastOffset(offsets)
      && n.anchor == n.lastSent == t.lastSent && n.segment == t.segment + 1
      && t.log <= n.log && |n.log| == |t.log| + Max(|offsets|, 1)
      && (offsets == [] ==> n.log[|t.log|] == Entry(t.segment + 1, LastOut(t) + 1, None, false))
      && forall i | 0 <= i < |offsets| ::
           n.log[|t.log| + i] == Entry(t.segment + 1, LastOut(t) + 1 + offsets[i], None, true)
  {
    SendAllSends(t.(segment := t.segment + 1), LastOut(t) + 1, offsets);
  }

  // `wire` is what these entries went out with.
  ghost predicate OnWire(added: seq<Entry>, wire: seq<u32>)
    requires |added| == |wire|
  {
    forall i | 0 <= i < |wire| :: added[i].sent && wire[i] == added[i].at % U32
  }

  // What was sent after `before` is what `wire` stands for.
  ghost predicate WentOut(before: seq<Entry>, after: seq<Entry>, wire: seq<u32>) {
    && before <= after && |after| == |before| + Max(|wire|, 1)
    && if wire == [] then !after[|before|].sent else OnWire(after[|before|..], wire)
  }

  lemma ScreenWraps(t: Timeline, log: seq<Due>, wire: seq<u32>)
    requires StampedFrom((LastOut(t) % U32 + 1) % U32, log, wire)
    ensures WentOut(t.log, Step(t, Screen(Offsets(log))).log, wire)
  {
    var after := Step(t, Screen(Offsets(log))).log;
    ScreenLogs(t, Offsets(log));
    if wire != [] {
      var added := after[|t.log|..];
      forall i | 0 <= i < |wire| ensures added[i].sent && wire[i] == added[i].at % U32 {
        FrameWraps(LastOut(t), log[i].at);
        assert added[i] == after[|t.log| + i];
        assert added[i].at == LastOut(t) + 1 + Stamp(log[i].at);
      }
    }
  }

  // So is the last of them, which the rejoin goes on from.
  lemma ScreenEndsAt(t: Timeline, log: seq<Due>, wire: seq<u32>, lastTs: u32)
    requires StampedFrom((LastOut(t) % U32 + 1) % U32, log, wire)
    requires lastTs == if wire == [] then (LastOut(t) % U32 + 1) % U32 else wire[|wire| - 1]
    ensures lastTs == Step(t, Screen(Offsets(log))).base % U32
  {
    LastFrameWraps(LastOut(t), log, wire, lastTs);
  }

  lemma LastFrameWraps(lastOut: nat, log: seq<Due>, wire: seq<u32>, lastTs: u32)
    requires StampedFrom((lastOut % U32 + 1) % U32, log, wire)
    requires lastTs == if wire == [] then (lastOut % U32 + 1) % U32 else wire[|wire| - 1]
    ensures lastTs == (lastOut + 1 + LastOffset(Offsets(log))) % U32
  {
    if log == [] { WrapAdd(lastOut, 1); } else { FrameWraps(lastOut, log[|log| - 1].at); }
  }

  // All of the screen's bookkeeping, on values.
  lemma ScreenShown(t: Timeline, after: u32, log: seq<Due>, wire: seq<u32>, lastTs: u32)
    requires StampedFrom((after + 1) % U32, log, wire)
    requires Inv(t) && Sensible(Screen(Offsets(log))) && after == LastOut(t) % U32
    requires lastTs == if wire == [] then (after + 1) % U32 else wire[|wire| - 1]
    ensures var shown := Step(t, Screen(Offsets(log)));
      && Inv(shown) && WentOut(t.log, shown.log, wire)
      && lastTs == shown.base % U32 && shown.anchor == shown.lastSent == t.lastSent
  {
    ScreenKeepsInv(t, Offsets(log));
    ScreenLogs(t, Offsets(log));
    ScreenWraps(t, log, wire);
    ScreenEndsAt(t, log, wire, lastTs);
  }

  // When each tick of the screen goes out, counted from its start.
  ghost function Offsets(log: seq<Due>): (offsets: seq<nat>)
    requires forall f | f in log :: f.at >= 0.0
    ensures |offsets| == |log| && forall i | 0 <= i < |log| :: offsets[i] == Stamp(log[i].at)
  {
    seq(|log|, i requires 0 <= i < |log| => Stamp(log[i].at))
  }

  // The video's first frame goes out first, with no time gone.
  lemma FirstAtOnce(periods: seq<real>, log: seq<Due>)
    requires InitialOrder(periods, log) && log != [] && periods != []
    ensures log[0] == DueOf(periods, 0, 0) && Stamp(log[0].at) == 0
  {
    var first := DueOf(periods, 0, 0);
    assert Frame(periods, first) && log[0] in log;
    if first in log {
      var i :| 0 <= i < |log| && log[i] == first;
      assert i > 0 ==> Before(log[0], log[i]);
    }
  }

  // The merge by time is a merge by stamp: rounding keeps the order.
  lemma OffsetsSensible(periods: seq<real>, log: seq<Due>)
    requires InitialOrder(periods, log) && periods != []
    ensures Sensible(Screen(Offsets(log)))
  {
    forall i | 0 < i < |log| ensures Offsets(log)[i - 1] <= Offsets(log)[i] {
      assert Before(log[i - 1], log[i]);
      StampsRise(log[i - 1].at, log[i].at);
    }
    if log != [] { FirstAtOnce(periods, log); }
  }
}
