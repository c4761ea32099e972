/**
 * "Cut after this airs" (src/controller.rs, `slowest_live_consumer_ts`,
 * `maybe_fire_safe_cut`): what a fired mark promises, and the compare-exchange
 * that lets only one pump fire it.
 */
module SafeCut {
  import opened Wrappers
  import opened RingView
  import opened TagFormat
  import opened Reach
  import opened Pump

  // The lowest announced position; u64::MAX marks a pump that has none yet.
  function Slowest(cursors: seq<nat>): (s: Option<nat>)
    ensures s.None? <==> cursors == []
    ensures s.Some? ==> s.value in cursors && forall c | c in cursors :: s.value <= c
  {
    if cursors == [] then None
    else
      var rest := Slowest(cursors[1..]);
      assert cursors == [cursors[0]] + cursors[1..];
      Some(if rest.Some? then Min(cursors[0], rest.value) else cursors[0])
  }

  /** The stamp of the next tag the slowest live destination will send. */
  function SlowestLiveTs(r: Ring, cursors: seq<nat>): Option<nat> {
    var slowest := Slowest(cursors);
    if slowest.None? then None
    else
      var found := FindBySeq(r, slowest.value);
      if found.Some? then Some(found.value.1.ts)
      else if LatestSeq(r).Some? && slowest.value > LatestSeq(r).value then LatestTs(r)
      else None
  }

  // Where a live destination sends from: its position, or while it has announced
  // none, the keyframe it would start at under a delay of `target`.
  function SendsFrom(r: Ring, target: nat, freshFrom: nat, cursor: nat): Option<nat> {
    if cursor != NO_SEQ then Some(cursor)
    else
      var seed := SeedIdr(r, target, freshFrom);
      if seed.Some? then Some(seed.value.seqNo) else None
  }

  ghost predicate HasAired(r: Ring, from: Option<nat>, mark: nat) {
    from.Some? ==> forall m | m in r.tags && m.seqNo >= from.value :: m.ts > mark
  }

  // Nothing stamped at or before `mark` is left for a live destination to send,
  // now or once tags stamped in order follow.
  ghost predicate AiredEverywhere(r: Ring, target: nat, freshFrom: nat, cursors: seq<nat>, mark: nat) {
    && LatestTs(r).Some? && LatestTs(r).value > mark
    && forall c | c in cursors :: HasAired(r, SendsFrom(r, target, freshFrom, c), mark)
  }

  /** What a destination that is live with no position must be checked for: the
      keyframe it would start at is past the mark, or there is none. */
  predicate SeedsPast(r: Ring, target: nat, freshFrom: nat, cursors: seq<nat>, mark: nat) {
    var seed := SeedIdr(r, target, freshFrom);
    NO_SEQ in cursors ==> seed.None? || seed.value.ts > mark
  }

  // With stamps in order, one tag decides for all that follow it.
  lemma AiredFrom(r: Ring, first: TagMeta, mark: nat)
    requires WellFormed(r) && Sorted(r.tags) && first in r.tags
    ensures HasAired(r, Some(first.seqNo), mark) <==> first.ts > mark
  {
    Ascending(r);
    var i :| 0 <= i < |r.tags| && r.tags[i] == first;
    forall m | m in r.tags && m.seqNo >= first.seqNo ensures m.ts >= first.ts {
      var j :| 0 <= j < |r.tags| && r.tags[j] == m;
      assert j >= i;
    }
  }

  lemma SeedIsLive(r: Ring, target: nat, freshFrom: nat)
    requires WellFormed(r)
    ensures SeedIdr(r, target, freshFrom).Some? ==> SeedIdr(r, target, freshFrom).value in r.tags
  {
    Ascending(r);
  }

  // The one comparison the code makes, at the slowest announced position.
  lemma SlowestDecides(r: Ring, cursors: seq<nat>, mark: nat)
    requires WellFormed(r) && Sorted(r.tags)
    requires SlowestLiveTs(r, cursors).Some?
    ensures SlowestLiveTs(r, cursors).value > mark <==>
      LatestTs(r).Some? && LatestTs(r).value > mark && forall c | c in cursors :: HasAired(r, Some(c), mark)
  {
    var slowest := Slowest(cursors).value;
    FindBySeqExact(r, slowest);
    var found := FindBySeq(r, slowest);
    if found.Some? {
      var first := found.value.1;
      AiredFrom(r, first, mark);
      AiredFrom(r, r.tags[|r.tags| - 1], mark);
      assert first in r.tags && r.tags[|r.tags| - 1] in r.tags;
      assert HasAired(r, Some(slowest), mark) ==> first.ts > mark;
    } else {
      assert forall m | m in r.tags :: m.seqNo < slowest;
    }
  }

  /** With stamps in order, the mark has aired everywhere exactly when the slowest
      position is past it and no destination without one would start at or before
      it: what the code compares, and what it does not look at. */
  lemma FiresWhenAiredEverywhere(r: Ring, target: nat, freshFrom: nat, cursors: seq<nat>, mark: nat)
    requires WellFormed(r) && Sorted(r.tags) && r.nextSeq <= NO_SEQ
    requires SlowestLiveTs(r, cursors).Some?
    ensures AiredEverywhere(r, target, freshFrom, cursors, mark) <==>
      SlowestLiveTs(r, cursors).value > mark && SeedsPast(r, target, freshFrom, cursors, mark)
  {
    SlowestDecides(r, cursors, mark);
    Ascending(r);
    assert HasAired(r, Some(NO_SEQ), mark);
    SeedIsLive(r, target, freshFrom);
    var seed := SeedIdr(r, target, freshFrom);
    if seed.Some? { AiredFrom(r, seed.value, mark); }
    forall c | c in cursors
      ensures HasAired(r, SendsFrom(r, target, freshFrom, c), mark) <==>
        HasAired(r, Some(c), mark) && (c == NO_SEQ ==> seed.None? || seed.value.ts > mark)
    {
    }
  }

  /** When there is nothing to compare: no live destination, an empty ring, or the
      slowest position fallen behind the ring's front. */
  lemma NothingMeasured(r: Ring, cursors: seq<nat>)
    requires WellFormed(r)
    ensures SlowestLiveTs(r, cursors).None? <==>
      cursors == [] || r.tags == [] || Slowest(cursors).value < r.tags[0].seqNo
  {
    if cursors != [] { FindBySeqExact(r, Slowest(cursors).value); }
  }

  // A keyframe, then sound: at nine seconds, where the cut was scheduled, and at ten.
  const FIRST := TagMeta(0, 0, 50_000, 0, VIDEO, true, true)
  const MARKED := TagMeta(1, 50_000, 1_000, 9_000, AUDIO, false, false)
  const NEWER := TagMeta(2, 51_000, 1_000, 10_000, AUDIO, false, false)
  const JOINED := Ring(50 * 1024 * 1024, 52_000, 3, [FIRST, MARKED, NEWER], [FIRST])

  lemma JoinedRing()
    ensures WellFormed(JOINED) && Sorted(JOINED.tags)
  {
    assert Bytes([NEWER]) == 1_000 && Primaries([NEWER]) == [] by { assert [NEWER][1..] == []; }
    assert [MARKED, NEWER][1..] == [NEWER];
    assert JOINED.tags[0..] == JOINED.tags && JOINED.tags[1..] == [MARKED, NEWER] && JOINED.tags[2..] == [NEWER];
    assert PlacedAt(JOINED, 0) && PlacedAt(JOINED, 1) && PlacedAt(JOINED, 2);
  }

  /** And that happens: the pump that is about to send the newest tag fires a mark
      set at the one before it, over a destination that has just connected, which
      then starts nine seconds before the mark. */
  lemma UnannouncedIsNotWaitedFor()
    ensures WellFormed(JOINED) && Sorted(JOINED.tags) && MARKED in JOINED.tags && MARKED.ts == 9_000
    ensures SlowestLiveTs(JOINED, [2, NO_SEQ]) == Some(10_000) && SeedIdr(JOINED, 0, 0) == Some(FIRST)
    ensures !AiredEverywhere(JOINED, 0, 0, [2, NO_SEQ], 9_000)
  {
    JoinedRing();
    assert JOINED.tags[1] == MARKED;
    assert [2, NO_SEQ][1] == NO_SEQ && [2, NO_SEQ][1..] == [NO_SEQ];
    assert Slowest([2, NO_SEQ]) == Some(2) && FindBySeq(JOINED, 2) == Some((2, NEWER));
    FiresWhenAiredEverywhere(JOINED, 0, 0, [2, NO_SEQ], 9_000);
  }

  // ------------------------------------------------------------- interleaving

  /** A pump inside `maybe_fire_safe_cut`: outside it, past the load of the mark,
      or past the measurement that found the mark aired. */
  datatype Pc = Outside | Loaded(mark: nat) | Aired(mark: nat, ts: nat)

  datatype State = State(mark: nat, pumps: map<nat, Pc>)

  /** Each action is one atomic access, by pump `p` or by the controls. */
  datatype Action =
    | Load(p: nat)
    | Measure(p: nat, slowest: Option<nat>)
    | CompareExchange(p: nat)
    | Schedule(latest: nat)
    | Clear

  function PcOf(s: State, p: nat): Pc {
    if p in s.pumps then s.pumps[p] else Outside
  }

  predicate Enabled(s: State, a: Action) {
    match a
    case Load(p) => PcOf(s, p).Outside?
    case Measure(p, _) => PcOf(s, p).Loaded?
    case CompareExchange(p) => PcOf(s, p).Aired?
    case _ => true
  }

  // The action is a compare-exchange that succeeds, and so cuts.
  predicate Fires(s: State, a: Action) {
    a.CompareExchange? && PcOf(s, a.p).Aired? && PcOf(s, a.p).mark == s.mark
  }

  function Next(s: State, a: Action): State
    requires Enabled(s, a)
  {
    match a
    case Load(p) => s.(pumps := s.pumps[p := if s.mark == 0 then Outside else Loaded(s.mark)])
    case Measure(p, slowest) =>
      var mark := PcOf(s, p).mark;
      s.(pumps := s.pumps[p := if slowest.Some? && slowest.value > mark then Aired(mark, slowest.value) else Outside])
    case CompareExchange(p) =>
      State(if Fires(s, a) then 0 else s.mark, s.pumps[p := Outside])
    case Schedule(latest) => s.(mark := Max(latest, 1))
    case Clear => s.(mark := 0)
  }

  ghost predicate Behaviour(s: State, actions: seq<Action>)
    decreases |actions|
  {
    actions == [] || (Enabled(s, actions[0]) && Behaviour(Next(s, actions[0]), actions[1..]))
  }

  ghost function End(s: State, actions: seq<Action>): State
    requires Behaviour(s, actions)
    decreases |actions|
  {
    if actions == [] then s else End(Next(s, actions[0]), actions[1..])
  }

  ghost function Firings(s: State, actions: seq<Action>): nat
    requires Behaviour(s, actions)
    decreases |actions|
  {
    if actions == [] then 0
    else (if Fires(s, actions[0]) then 1 else 0) + Firings(Next(s, actions[0]), actions[1..])
  }

  function Schedulings(actions: seq<Action>): nat {
    if actions == [] then 0 else (if actions[0].Schedule? then 1 else 0) + Schedulings(actions[1..])
  }

  function PendingMarks(s: State): nat {
    if s.mark == 0 then 0 else 1
  }

  // A pump inside the check loaded a mark that was set, and measured past it.
  ghost predicate PumpsInv(s: State) {
    forall p | p in s.pumps ::
      match s.pumps[p]
      case Outside => true
      case Loaded(mark) => mark != 0
      case Aired(mark, ts) => mark != 0 && ts > mark
  }

  /** However many pumps interleave their accesses with each other and with the
      controls: every cut that fires used up a scheduled mark of its own, and the
      position it was measured at was past that mark. */
  lemma {:induction false} FiringsNeverOutnumberSchedulings(s: State, actions: seq<Action>)
    requires PumpsInv(s) && Behaviour(s, actions)
    ensures PumpsInv(End(s, actions))
    ensures Firings(s, actions) + PendingMarks(End(s, actions)) <= Schedulings(actions) + PendingMarks(s)
    decreases |actions|
  {
    if actions != [] {
      StepCounts(s, actions[0]);
      FiringsNeverOutnumberSchedulings(Next(s, actions[0]), actions[1..]);
    }
  }

  lemma StepCounts(s: State, a: Action)
    requires PumpsInv(s) && Enabled(s, a)
    ensures PumpsInv(Next(s, a))
    ensures Fires(s, a) ==> s.mark != 0 && PcOf(s, a.p).ts > s.mark
    ensures (if Fires(s, a) then 1 else 0) + PendingMarks(Next(s, a))
      <= (if a.Schedule? then 1 else 0) + PendingMarks(s)
  {
  }

  /** A cut called off stays off: once the mark is cleared no check fires, those already past
      their load or their measurement among them, until a cut is scheduled again. */
  lemma {:induction false} CancelSticks(s: State, actions: seq<Action>)
    requires PumpsInv(s) && actions != [] && actions[0].Clear? && Behaviour(s, actions)
    requires forall a | a in actions :: !a.Schedule?
    ensures Firings(s, actions) == 0 && End(s, actions).mark == 0
  {
    assert actions == [actions[0]] + actions[1..];
    NoneScheduled(actions[1..]);
    FiringsNeverOutnumberSchedulings(Next(s, actions[0]), actions[1..]);
  }

  lemma {:induction false} NoneScheduled(actions: seq<Action>)
    requires forall a | a in actions :: !a.Schedule?
    ensures Schedulings(actions) == 0
  {
    if actions != [] { NoneScheduled(actions[1..]); }
  }

  // The mark that is pending is where the live edge was when a cut was last scheduled.
  lemma {:induction false} MarkIsLastScheduled(s: State, actions: seq<Action>)
    requires Behaviour(s, actions) && actions != [] && actions[0].Schedule?
    requires forall i | 0 < i < |actions| :: !actions[i].Schedule?
    ensures End(s, actions).mark in {0, Max(actions[0].latest, 1)}
  {
    MarkStays(Next(s, actions[0]), actions[1..]);
  }

  lemma {:induction false} MarkStays(s: State, actions: seq<Action>)
    requires Behaviour(s, actions) && forall i | 0 <= i < |actions| :: !actions[i].Schedule?
    ensures End(s, actions).mark == 0 || End(s, actions).mark == s.mark
    decreases |actions|
  {
    if actions != [] {
      assert forall i | 0 <= i < |actions| - 1 :: actions[1..][i] == actions[i + 1];
      MarkStays(Next(s, actions[0]), actions[1..]);
    }
  }

  // ---------------------------------------------------------- the check in one go

  /** Pump `p` runs its check with nobody in between: what it does depends on what
      it loads, and on what it measures. */
  function CheckActions(s: State, p: nat, slowest: Option<nat>): seq<Action> {
    if s.mark == 0 then [Load(p)]
    else if slowest.None? || slowest.value <= s.mark then [Load(p), Measure(p, slowest)]
    else [Load(p), Measure(p, slowest), CompareExchange(p)]
  }

  function Fired(s: State, a: Action): nat {
    if Fires(s, a) then 1 else 0
  }

  lemma RunOne(s: State, a: Action)
    requires Enabled(s, a)
    ensures Behaviour(s, [a]) && End(s, [a]) == Next(s, a) && Firings(s, [a]) == Fired(s, a)
  {
    assert [a][1..] == [];
  }

  lemma RunTwo(s: State, a: Action, b: Action)
    requires Enabled(s, a) && Enabled(Next(s, a), b)
    ensures Behaviour(s, [a, b]) && End(s, [a, b]) == Next(Next(s, a), b)
    ensures Firings(s, [a, b]) == Fired(s, a) + Fired(Next(s, a), b)
  {
    RunOne(Next(s, a), b);
    assert [a, b][1..] == [b];
  }

  lemma RunThree(s: State, a: Action, b: Action, c: Action)
    requires Enabled(s, a) && Enabled(Next(s, a), b) && Enabled(Next(Next(s, a), b), c)
    ensures Behaviour(s, [a, b, c]) && End(s, [a, b, c]) == Next(Next(Next(s, a), b), c)
    ensures Firings(s, [a, b, c]) == Fired(s, a) + Fired(Next(s, a), b) + Fired(Next(Next(s, a), b), c)
  {
    RunTwo(Next(s, a), b, c);
    assert [a, b, c][1..] == [b, c];
  }

  // A pump that measures past a set mark goes all the way.
  lemma CheckThree(s: State, p: nat, ts: nat)
    requires PcOf(s, p).Outside? && s.mark != 0 && ts > s.mark
    ensures var actions := [Load(p), Measure(p, Some(ts)), CompareExchange(p)];
      && Behaviour(s, actions) && Firings(s, actions) == 1
      && End(s, actions) == State(0, s.pumps[p := Outside])
  {
    var loaded := s.(pumps := s.pumps[p := Loaded(s.mark)]);
    var aired := s.(pumps := s.pumps[p := Aired(s.mark, ts)]);
    assert Next(s, Load(p)) == loaded;
    assert Next(loaded, Measure(p, Some(ts))) == aired by {
      assert loaded.pumps[p := Aired(s.mark, ts)] == aired.pumps;
    }
    assert Next(aired, CompareExchange(p)) == State(0, s.pumps[p := Outside]) by {
      assert aired.pumps[p := Outside] == s.pumps[p := Outside];
    }
    RunThree(s, Load(p), Measure(p, Some(ts)), CompareExchange(p));
  }

  lemma CheckTwo(s: State, p: nat, slowest: Option<nat>)
    requires PcOf(s, p).Outside? && s.mark != 0 && (slowest.None? || slowest.value <= s.mark)
    ensures var actions := [Load(p), Measure(p, slowest)];
      && Behaviour(s, actions) && Firings(s, actions) == 0
      && End(s, actions) == State(s.mark, s.pumps[p := Outside])
  {
    var loaded := s.(pumps := s.pumps[p := Loaded(s.mark)]);
    assert Next(s, Load(p)) == loaded;
    assert Next(loaded, Measure(p, slowest)) == State(s.mark, s.pumps[p := Outside]) by {
      assert loaded.pumps[p := Outside] == s.pumps[p := Outside];
    }
    RunTwo(s, Load(p), Measure(p, slowest));
  }

  /** Then it is one atomic step: it fires, once, and clears the mark, exactly when
      it measures past a mark that is set; otherwise nothing changes. */
  lemma CheckIsAtomic(s: State, p: nat, slowest: Option<nat>)
    requires PcOf(s, p).Outside?
    ensures var fires := s.mark != 0 && slowest.Some? && slowest.value > s.mark;
      && Behaviour(s, CheckActions(s, p, slowest))
      && Firings(s, CheckActions(s, p, slowest)) == (if fires then 1 else 0)
      && End(s, CheckActions(s, p, slowest)) == State(if fires then 0 else s.mark, s.pumps[p := Outside])
  {
    if s.mark == 0 {
      RunOne(s, Load(p));
    } else if slowest.None? || slowest.value <= s.mark {
      CheckTwo(s, p, slowest);
    } else {
      CheckThree(s, p, slowest.value);
    }
  }
}
