/**
 * One destination's VOD-session fetch (src/controller.rs, `DestinationState`):
 * an atomic latch, an override behind a mutex and a session epoch, touched by any
 * number of claimers, fetches, disconnects and the multitrack proxy. Each action
 * is one atomic access or one locked section; they interleave freely.
 */
module VodLatch {
  import opened Wrappers

  /** Where a task is in `try_claim_vod_fetch` and the fetch it claims. */
  datatype Pc =
    | Idle
    | Swapped              // latched, override not re-read yet
    | Releasing            // an override exists: about to give the latch back
    | Claimed              // may fetch, epoch not captured yet
    | Fetching(epoch: nat)
    | Finishing(outcome: Outcome) // result dealt with, latch not released yet

  datatype Outcome = Applied | DiscardedStale | Failed

  /** `writtenFor` is history: the epoch of the fetch whose url the override is,
      none when it is no fetch's. */
  datatype State = State(
    latch: bool,
    overrideUrl: Option<string>,
    epoch: nat,
    writtenFor: Option<nat>,
    tasks: map<nat, Pc>)

  datatype Action =
    | Swap(p: nat)
    | CheckOverride(p: nat)
    | GiveBack(p: nat)
    | CaptureEpoch(p: nat)
    | Finish(p: nat, result: Option<string>)
    | Release(p: nat)
    | Disconnect
    | ProxySet(url: string)
    | ProxyClear

  function PcOf(s: State, p: nat): Pc {
    if p in s.tasks then s.tasks[p] else Idle
  }

  predicate Enabled(s: State, a: Action) {
    match a
    case Swap(p) => PcOf(s, p).Idle?
    case CheckOverride(p) => PcOf(s, p).Swapped?
    case GiveBack(p) => PcOf(s, p).Releasing?
    case CaptureEpoch(p) => PcOf(s, p).Claimed?
    case Finish(p, _) => PcOf(s, p).Fetching?
    case Release(p) => PcOf(s, p).Finishing?
    case _ => true
  }

  function Goto(s: State, p: nat, pc: Pc): State {
    s.(tasks := s.tasks[p := pc])
  }

  // What a finished fetch does under the override's lock.
  function FinishOutcome(s: State, captured: nat, result: Option<string>): Outcome {
    if result.None? then Failed else if s.epoch == captured then Applied else DiscardedStale
  }

  function Next(s: State, a: Action): State
    requires Enabled(s, a)
  {
    match a
    case Swap(p) => if s.latch then s else Goto(s.(latch := true), p, Swapped)
    case CheckOverride(p) => Goto(s, p, if s.overrideUrl.Some? then Releasing else Claimed)
    case GiveBack(p) => Goto(s.(latch := false), p, Idle)
    case CaptureEpoch(p) => Goto(s, p, Fetching(s.epoch))
    case Finish(p, result) =>
      var captured := PcOf(s, p).epoch;
      var outcome := FinishOutcome(s, captured, result);
      var written := if outcome.Applied? then s.(overrideUrl := result, writtenFor := Some(captured)) else s;
      Goto(written, p, Finishing(outcome))
    case Release(p) => Goto(s.(latch := false), p, Idle)
    case Disconnect => s.(overrideUrl := None, epoch := s.epoch + 1, writtenFor := None)
    case ProxySet(url) => s.(overrideUrl := Some(url), writtenFor := None)
    case ProxyClear => s.(overrideUrl := None, writtenFor := None)
  }

  ghost predicate Inv(s: State) {
    // The latch has exactly one holder while set, none while clear.
    && (forall p, q | p in s.tasks && q in s.tasks && !s.tasks[p].Idle? && !s.tasks[q].Idle? :: p == q)
    && (s.latch <==> exists p :: p in s.tasks && !s.tasks[p].Idle?)
    // A fetch's override is the current session's.
    && (s.writtenFor.Some? ==> s.overrideUrl.Some? && s.writtenFor.value == s.epoch)
    && (forall p | p in s.tasks && s.tasks[p].Fetching? :: s.tasks[p].epoch <= s.epoch)
  }

  lemma NextKeepsInv(s: State, a: Action)
    requires Inv(s) && Enabled(s, a)
    ensures Inv(Next(s, a))
  {
    var t := Next(s, a);
    if t.latch && !a.Disconnect? && !a.ProxySet? && !a.ProxyClear? {
      if s.latch {
        var p :| p in s.tasks && !s.tasks[p].Idle?;
        assert p in t.tasks && !t.tasks[p].Idle?;
      } else {
        assert t.tasks[a.p].Swapped?;
      }
    }
  }

  ghost predicate Behaviour(s: State, actions: seq<Action>)
    decreases |actions|
  {
    actions == [] || (Enabled(s, actions[0]) && Behaviour(Next(s, actions[0]), actions[1..]))
  }

  ghost function End(s: State, actions: seq<Action>): State
    requires Behaviour(s, actions)
    decreases |actions|
  {
    if actions == [] then s else End(Next(s, actions[0]), actions[1..])
  }

  /** Over every interleaving: at most one fetch is in flight, the latch is set
      for exactly as long as its task is at work, and an override a fetch wrote
      belongs to the session that is current. */
  lemma {:induction false} SingleFlight(s: State, actions: seq<Action>)
    requires Inv(s) && Behaviour(s, actions)
    ensures Inv(End(s, actions))
    decreases |actions|
  {
    if actions != [] {
      NextKeepsInv(s, actions[0]);
      SingleFlight(Next(s, actions[0]), actions[1..]);
    }
  }

  // Own steps left until the latch is back.
  function Rank(pc: Pc): nat {
    match pc
    case Idle => 0
    case Swapped => 4
    case Releasing => 1
    case Claimed => 3
    case Fetching(_) => 2
    case Finishing(_) => 1
  }

  predicate ActsAs(a: Action, p: nat) {
    match a
    case Disconnect => false
    case ProxySet(_) => false
    case ProxyClear => false
    case _ => a.p == p
  }

  function OwnSteps(actions: seq<Action>, p: nat): nat {
    if actions == [] then 0 else (if ActsAs(actions[0], p) then 1 else 0) + OwnSteps(actions[1..], p)
  }

  // A task at work can always take its next step, and giving up the latch is
  // what makes it idle.
  lemma TaskCanGoOn(s: State, p: nat)
    requires !PcOf(s, p).Idle?
    ensures exists a :: ActsAs(a, p) && Enabled(s, a)
    ensures forall a | ActsAs(a, p) && Enabled(s, a) :: Rank(PcOf(Next(s, a), p)) < Rank(PcOf(s, p))
    ensures forall a | ActsAs(a, p) && Enabled(s, a) && PcOf(Next(s, a), p).Idle? :: !Next(s, a).latch
  {
    var a := match PcOf(s, p)
      case Swapped => CheckOverride(p)
      case Releasing => GiveBack(p)
      case Claimed => CaptureEpoch(p)
      case Fetching(_) => Finish(p, None)
      case _ => Release(p);
    assert ActsAs(a, p) && Enabled(s, a);
  }

  // Task `p` is at work, holding the latch, from beginning to end.
  ghost predicate AtWork(s: State, actions: seq<Action>, p: nat)
    requires Behaviour(s, actions)
    decreases |actions|
  {
    !PcOf(s, p).Idle? && (actions == [] || AtWork(Next(s, actions[0]), actions[1..], p))
  }

  /** Released on every outcome: whatever the others do in between, and however the
      fetch ends, a task at work takes at most three steps of its own, and its next
      one is always open to it; the fourth finds the latch given back. */
  lemma {:induction false} LatchComesBack(s: State, actions: seq<Action>, p: nat)
    requires Behaviour(s, actions) && AtWork(s, actions, p)
    ensures OwnSteps(actions, p) + Rank(PcOf(End(s, actions), p)) <= Rank(PcOf(s, p))
    ensures !PcOf(End(s, actions), p).Idle? && OwnSteps(actions, p) < 4
    decreases |actions|
  {
    if actions != [] {
      LatchComesBack(Next(s, actions[0]), actions[1..], p);
    }
  }

  ghost predicate Disconnects(actions: seq<Action>) {
    exists i :: 0 <= i < |actions| && actions[i].Disconnect?
  }

  /** The late completion: a fetch whose session ended while it was in flight
      writes nothing, whatever it brings back. */
  lemma {:induction false} LateFetchIsDiscarded(s: State, actions: seq<Action>, p: nat, result: Option<string>)
    requires Behaviour(s, actions) && PcOf(s, p).Fetching? && PcOf(s, p).epoch <= s.epoch
    requires forall a | a in actions :: !ActsAs(a, p)
    requires Disconnects(actions) || PcOf(s, p).epoch < s.epoch
    ensures Enabled(End(s, actions), Finish(p, result))
    ensures var t := Next(End(s, actions), Finish(p, result));
      && t.overrideUrl == End(s, actions).overrideUrl && t.writtenFor == End(s, actions).writtenFor
      && PcOf(t, p).Finishing? && !PcOf(t, p).outcome.Applied?
    decreases |actions|
  {
    if actions != [] {
      assert forall a | a in actions[1..] :: a in actions;
      assert actions[0] in actions;
      var t := Next(s, actions[0]);
      if !actions[0].Disconnect? && PcOf(s, p).epoch == s.epoch {
        var i :| 0 <= i < |actions| && actions[i].Disconnect?;
        assert i > 0 && actions[1..][i - 1].Disconnect?;
      }
      LateFetchIsDiscarded(t, actions[1..], p, result);
    }
  }

  lemma {:induction false} StillFetching(s: State, actions: seq<Action>, p: nat)
    requires Behaviour(s, actions) && PcOf(s, p).Fetching? && !Disconnects(actions)
    requires forall a | a in actions :: !ActsAs(a, p)
    ensures PcOf(End(s, actions), p) == PcOf(s, p) && End(s, actions).epoch == s.epoch
    decreases |actions|
  {
    if actions != [] {
      assert actions[0] in actions && !actions[0].Disconnect?;
      assert forall a | a in actions[1..] :: a in actions;
      assert forall i | 0 <= i < |actions| - 1 :: actions[1..][i] == actions[i + 1];
      StillFetching(Next(s, actions[0]), actions[1..], p);
    }
  }

  // Task `p`'s fetch begins: from `s`, its capture of the epoch leads to `t`.
  predicate Begins(s: State, t: State, p: nat) {
    Enabled(s, CaptureEpoch(p)) && t == Next(s, CaptureEpoch(p))
  }

  /** A fetched url is written if and only if its session is still on: nobody has disconnected
      since the fetch began. Written, it is the override; otherwise nothing changes. */
  lemma FetchCountsForItsSession(s: State, t: State, actions: seq<Action>, p: nat, url: string)
    requires Behaviour(t, actions)
    ensures Begins(s, t, p) && (forall a | a in actions :: !ActsAs(a, p)) ==>
      var before := End(t, actions);
      && Enabled(before, Finish(p, Some(url)))
      && var after := Next(before, Finish(p, Some(url)));
         && PcOf(after, p) == Finishing(if Disconnects(actions) then DiscardedStale else Applied)
         && after.overrideUrl == if Disconnects(actions) then before.overrideUrl else Some(url)
  {
    if Begins(s, t, p) && (forall a | a in actions :: !ActsAs(a, p)) {
      if Disconnects(actions) {
        LateFetchIsDiscarded(t, actions, p, Some(url));
      } else {
        StillFetching(t, actions, p);
      }
    }
  }

  // ------------------------------------------------------------- the override

  // The action has the last word on the override.
  predicate Touches(s: State, a: Action)
    requires Enabled(s, a)
  {
    match a
    case Disconnect => true
    case ProxySet(_) => true
    case ProxyClear => true
    case Finish(p, _) => PcOf(Next(s, a), p) == Finishing(Applied)
    case _ => false
  }

  function Written(a: Action): Option<string> {
    match a
    case ProxySet(url) => Some(url)
    case Finish(_, result) => result
    case _ => None
  }

  // Action `i` of the run does.
  ghost predicate TouchesAt(s: State, actions: seq<Action>, i: nat)
    requires Behaviour(s, actions) && i < |actions|
    decreases |actions|
  {
    if i == 0 then Touches(s, actions[0]) else TouchesAt(Next(s, actions[0]), actions[1..], i - 1)
  }

  // Nothing from action `from` on does.
  ghost predicate UntouchedFrom(s: State, actions: seq<Action>, from: nat)
    requires Behaviour(s, actions)
  {
    forall i | from <= i < |actions| :: !TouchesAt(s, actions, i)
  }

  lemma UntouchedTail(s: State, actions: seq<Action>, from: nat)
    requires Behaviour(s, actions) && actions != [] && UntouchedFrom(s, actions, from)
    ensures UntouchedFrom(Next(s, actions[0]), actions[1..], Minus(from, 1))
  {
    forall i | Minus(from, 1) <= i < |actions| - 1 ensures !TouchesAt(Next(s, actions[0]), actions[1..], i) {
      assert !TouchesAt(s, actions, i + 1);
    }
  }

  lemma {:induction false} LastTouchWins(s: State, actions: seq<Action>, i: nat)
    requires Behaviour(s, actions) && i <= |actions| && UntouchedFrom(s, actions, i)
    requires i > 0 ==> TouchesAt(s, actions, i - 1)
    ensures End(s, actions).overrideUrl == if i == 0 then s.overrideUrl else Written(actions[i - 1])
    decreases |actions|
  {
    if actions != [] {
      var next := Next(s, actions[0]);
      UntouchedTail(s, actions, i);
      if i == 0 { assert !TouchesAt(s, actions, 0); }
      LastTouchWins(next, actions[1..], if i == 0 then 0 else i - 1);
      assert i > 1 ==> actions[1..][i - 2] == actions[i - 1];
    }
  }

  /** Over every interleaving the override is what the last action to have a say made it:
      none after a disconnect, or the proxy's url, or the url of a fetch that counted. */
  lemma LastWordWins(s: State, actions: seq<Action>, i: nat)
    requires Behaviour(s, actions) && i <= |actions|
    ensures UntouchedFrom(s, actions, i) && (i > 0 ==> TouchesAt(s, actions, i - 1)) ==>
      End(s, actions).overrideUrl == if i == 0 then s.overrideUrl else Written(actions[i - 1])
  {
    if UntouchedFrom(s, actions, i) && (i > 0 ==> TouchesAt(s, actions, i - 1)) {
      LastTouchWins(s, actions, i);
    }
  }

  // The last action to have a say, at or after one that has.
  lemma {:induction false} LastWord(s: State, actions: seq<Action>, i: nat, end: nat) returns (j: nat)
    requires Behaviour(s, actions) && i < end <= |actions|
    requires TouchesAt(s, actions, i) && UntouchedFrom(s, actions, end)
    ensures i <= j < |actions| && TouchesAt(s, actions, j) && UntouchedFrom(s, actions, j + 1)
  {
    if TouchesAt(s, actions, end - 1) {
      j := end - 1;
    } else {
      j := LastWord(s, actions, i, end - 1);
    }
  }

  lemma {:induction false} DisconnectTouches(s: State, actions: seq<Action>, i: nat)
    requires Behaviour(s, actions) && i < |actions| && actions[i].Disconnect?
    ensures TouchesAt(s, actions, i)
    decreases |actions|
  {
    if i > 0 {
      assert actions[1..][i - 1] == actions[i];
      DisconnectTouches(Next(s, actions[0]), actions[1..], i - 1);
    }
  }

  /** So no override outlives a disconnect: one that is there later was written since,
      by the proxy or by a fetch that counted. */
  lemma NoOverrideOutlivesASession(s: State, actions: seq<Action>, i: nat)
    requires Behaviour(s, actions) && i < |actions|
    ensures actions[i].Disconnect? && End(s, actions).overrideUrl.Some? ==>
      exists j :: i < j < |actions| && TouchesAt(s, actions, j) && (actions[j].ProxySet? || actions[j].Finish?)
                  && Written(actions[j]) == End(s, actions).overrideUrl
  {
    if actions[i].Disconnect? && End(s, actions).overrideUrl.Some? {
      DisconnectTouches(s, actions, i);
      var j := LastWord(s, actions, i, |actions|);
      LastTouchWins(s, actions, j + 1);
    }
  }

  // ------------------------------------------------------- the state, in place

  lemma RunOne(s: State, a: Action)
    requires Enabled(s, a)
    ensures Behaviour(s, [a]) && End(s, [a]) == Next(s, a)
  {
    assert [a][1..] == [];
  }

  lemma RunTwo(s: State, a: Action, b: Action)
    requires Enabled(s, a) && Enabled(Next(s, a), b)
    ensures Behaviour(s, [a, b]) && End(s, [a, b]) == Next(Next(s, a), b)
  {
    RunOne(Next(s, a), b);
    assert [a, b][1..] == [b];
  }

  lemma RunThree(s: State, a: Action, b: Action, c: Action)
    requires Enabled(s, a) && Enabled(Next(s, a), b) && Enabled(Next(Next(s, a), b), c)
    ensures Behaviour(s, [a, b, c]) && End(s, [a, b, c]) == Next(Next(Next(s, a), b), c)
  {
    RunTwo(Next(s, a), b, c);
    assert [a, b, c][1..] == [b, c];
  }

  /** What task `p`'s claim runs through, with nobody in between: the swap; then
      the override re-read; then, when there is one, the latch given back. */
  function ClaimActions(s: State, p: nat): seq<Action> {
    if s.latch then [Swap(p)]
    else if s.overrideUrl.Some? then [Swap(p), CheckOverride(p), GiveBack(p)]
    else [Swap(p), CheckOverride(p)]
  }

  lemma ClaimRuns(s: State, p: nat)
    requires PcOf(s, p).Idle?
    ensures Behaviour(s, ClaimActions(s, p))
    ensures var t := End(s, ClaimActions(s, p));
      && t.overrideUrl == s.overrideUrl && t.epoch == s.epoch
      && t.latch == (s.latch || s.overrideUrl.None?)
      && (PcOf(t, p).Claimed? <==> !s.latch && s.overrideUrl.None?)
      && (PcOf(t, p).Idle? <==> s.latch || s.overrideUrl.Some?)
  {
    if s.latch {
      RunOne(s, Swap(p));
    } else if s.overrideUrl.Some? {
      RunThree(s, Swap(p), CheckOverride(p), GiveBack(p));
    } else {
      RunTwo(s, Swap(p), CheckOverride(p));
    }
  }

  /** `state` is where the interleaved model stands: every method runs some of its
      actions, and the fields stay what the model says they are. */
  class DestinationState {
    var vodFetchPending: bool
    var ebOverrideUrl: Option<string>
    var sessionEpoch: nat
    ghost var state: State

    ghost predicate Valid()
      reads this
    {
      && Inv(state)
      && vodFetchPending == state.latch && ebOverrideUrl == state.overrideUrl && sessionEpoch == state.epoch
    }

    constructor ()
      ensures Valid() && state == State(false, None, 0, None, map[])
    {
      vodFetchPending, ebOverrideUrl, sessionEpoch := false, None, 0;
      state := State(false, None, 0, None, map[]);
    }

    /** Claimed exactly when no fetch is in flight and there is no session yet; a
        failed claim leaves the latch as it found it. */
    method TryClaimVodFetch(ghost p: nat) returns (claimed: bool)
      requires Valid() && PcOf(state, p).Idle?
      modifies this
      ensures Valid() && Behaviour(old(state), ClaimActions(old(state), p))
      ensures state == End(old(state), ClaimActions(old(state), p))
      ensures claimed <==> !old(vodFetchPending) && ebOverrideUrl.None?
      ensures if claimed then PcOf(state, p).Claimed? else PcOf(state, p).Idle?
    {
      ClaimRuns(state, p);
      SingleFlight(state, ClaimActions(state, p));
      state := End(state, ClaimActions(state, p));
      var was := vodFetchPending;
      vodFetchPending := true;
      if was {
        return false;
      }
      if ebOverrideUrl.Some? {
        vodFetchPending := false;
        return false;
      }
      return true;
    }

    // The epoch a claimed fetch is for.
    method SessionEpoch(ghost p: nat) returns (epoch: nat)
      requires Valid() && PcOf(state, p).Claimed?
      modifies this`state
      ensures Valid() && state == Next(old(state), CaptureEpoch(p)) && PcOf(state, p) == Fetching(epoch)
      ensures epoch == sessionEpoch
    {
      NextKeepsInv(state, CaptureEpoch(p));
      state := Next(state, CaptureEpoch(p));
      epoch := sessionEpoch;
    }

    /** A fetched url is written only for the session it was fetched for. */
    method ApplyVodSessionIfCurrent(url: string, capturedEpoch: nat, ghost p: nat) returns (applied: bool)
      requires Valid() && PcOf(state, p) == Fetching(capturedEpoch)
      modifies this`ebOverrideUrl, this`state
      ensures Valid() && state == Next(old(state), Finish(p, Some(url)))
      ensures PcOf(state, p) == Finishing(if applied then Applied else DiscardedStale)
      ensures applied ==> state.writtenFor == Some(sessionEpoch)
      ensures ebOverrideUrl == if sessionEpoch == capturedEpoch then Some(url) else old(ebOverrideUrl)
      ensures applied <==> sessionEpoch == capturedEpoch
    {
      NextKeepsInv(state, Finish(p, Some(url)));
      state := Next(state, Finish(p, Some(url)));
      if sessionEpoch != capturedEpoch {
        return false;
      }
      ebOverrideUrl := Some(url);
      return true;
    }

    /** OBS disconnected: whatever fetch is in flight is for a session that is over. */
    method InvalidateSessionOverride()
      requires Valid()
      modifies this`ebOverrideUrl, this`sessionEpoch, this`state
      ensures Valid() && state == Next(old(state), Disconnect)
      ensures ebOverrideUrl.None? && sessionEpoch == old(sessionEpoch) + 1
      ensures forall p | p in state.tasks && state.tasks[p].Fetching? :: state.tasks[p].epoch < sessionEpoch
    {
      NextKeepsInv(state, Disconnect);
      state := Next(state, Disconnect);
      ebOverrideUrl := None;
      sessionEpoch := sessionEpoch + 1;
    }

    /** Every outcome gives the latch back. */
    method CompleteVodFetch(result: Option<string>, capturedEpoch: nat, ghost p: nat) returns (outcome: Outcome)
      requires Valid() && PcOf(state, p) == Fetching(capturedEpoch)
      modifies this`ebOverrideUrl, this`vodFetchPending, this`state
      ensures Valid() && !vodFetchPending && PcOf(state, p).Idle?
      ensures state == Next(Next(old(state), Finish(p, result)), Release(p))
      ensures ebOverrideUrl ==
        if result.Some? && sessionEpoch == capturedEpoch then result else old(ebOverrideUrl)
      ensures PcOf(Next(old(state), Finish(p, result)), p) == Finishing(outcome)
    {
      if result.Some? {
        var applied := ApplyVodSessionIfCurrent(result.value, capturedEpoch, p);
        outcome := if applied then Applied else DiscardedStale;
      } else {
        NextKeepsInv(state, Finish(p, None));
        state := Next(state, Finish(p, None));
        outcome := Failed;
      }
      NextKeepsInv(state, Release(p));
      state := Next(state, Release(p));
      vodFetchPending := false;
    }
  }
}
