/**
 * What each action is bound to (src/config.rs, `Hotkeys::set`, `MidiBindings::set`,
 * `unbind_elsewhere`, `MidiBindings::action_for`). The six fields are a map keyed by
 * the name `slot_mut` gives each; hotkeys and MIDI differ only in how they rewrite.
 */
module Bindings {
  import opened Wrappers
  import Hotkey
  import Midi

  const ACTIONS: seq<string> := ["toggle", "arm", "activate", "cut", "cut_after", "end_hold"]

  datatype Device = Keyboard | MidiController

  function Canonical(device: Device, raw: string): Option<string> {
    if device.Keyboard? then Hotkey.Canonical(raw) else Midi.Canonical(raw)
  }

  type Slots = map<string, string>

  function Unbound(slots: Slots, keep: string, value: string): Slots {
    map a | a in slots :: if a != keep && slots[a] == value then "" else slots[a]
  }

  function Assigned(slots: Slots, action: string, value: string): Slots {
    var freed := if value == "" then slots else Unbound(slots, action, value);
    if action in freed then freed[action := value] else freed
  }

  // `unwrap_or_default`: nothing, for a combo that is empty or malformed.
  function Value(device: Device, raw: string): string {
    var rewritten := Canonical(device, raw);
    if rewritten.Some? then rewritten.value else ""
  }

  function AfterSet(device: Device, slots: Slots, action: string, raw: string): Slots {
    Assigned(slots, action, Value(device, raw))
  }

  class Table {
    const device: Device
    var slots: Slots

    ghost predicate Valid()
      reads this
    {
      slots.Keys == set a | a in ACTIONS
    }

    constructor (device: Device)
      ensures Valid() && this.device == device && slots == Unset()
    {
      this.device := device;
      slots := Unset();
    }

    /** One combo, one action: a combo another action holds moves to this one. */
    method Set(action: string, raw: string)
      requires Valid()
      modifies this
      ensures Valid()
      ensures slots == AfterSet(device, old(slots), action, raw)
    {
      var rewritten := Canonical(device, raw);
      var value := if rewritten.Some? then rewritten.value else "";
      if value != "" {
        UnbindElsewhere(ACTIONS, action, value);
      }
      if action in slots {
        slots := slots[action := value];
      }
    }

    method UnbindElsewhere(actions: seq<string>, keep: string, value: string)
      requires forall a :: a in slots <==> a in actions
      modifies this
      ensures slots == Unbound(old(slots), keep, value)
    {
      ghost var was, goal := slots, Unbound(slots, keep, value);
      for i := 0 to |actions|
        invariant slots.Keys == was.Keys
        invariant forall a | a in slots :: slots[a] == was[a] || slots[a] == goal[a]
        invariant forall j | 0 <= j < i :: slots[actions[j]] == goal[actions[j]]
      {
        if actions[i] != keep && slots[actions[i]] == value {
          slots := slots[actions[i] := ""];
        }
      }
      assert forall a | a in slots :: slots[a] == goal[a];
    }
  }

  function Unset(): Slots {
    map a | a in ACTIONS :: ""
  }

  // ------------------------------------------------------------- over any run

  function Run(device: Device, slots: Slots, sets: seq<(string, string)>): Slots
    decreases |sets|
  {
    if sets == [] then slots
    else Run(device, AfterSet(device, slots, sets[0].0, sets[0].1), sets[1..])
  }

  ghost predicate Distinct(slots: Slots) {
    forall a, b | a in slots && b in slots && a != b && slots[a] != "" :: slots[a] != slots[b]
  }

  ghost predicate Fixed(device: Device, value: string) {
    value != "" ==> Canonical(device, value) == Some(value)
  }

  // Every binding is in the form it is rewritten to, and no two are the same.
  ghost predicate Inv(device: Device, slots: Slots) {
    && slots.Keys == (set a | a in ACTIONS)
    && Distinct(slots)
    && forall a | a in slots :: Fixed(device, slots[a])
  }

  lemma AssignedAt(slots: Slots, action: string, value: string)
    ensures var after := Assigned(slots, action, value);
      && after.Keys == slots.Keys
      && forall a | a in slots :: after[a] ==
           (if a == action then value else if slots[a] == value then "" else slots[a])
  {
  }

  lemma AssignKeepsDistinct(slots: Slots, action: string, value: string)
    requires Distinct(slots)
    ensures Distinct(Assigned(slots, action, value))
  {
    var after := Assigned(slots, action, value);
    AssignedAt(slots, action, value);
    forall a, b | a in after && b in after && a != b && after[a] != "" ensures after[a] != after[b] {
      if a != action && b != action { assert after[a] == slots[a]; }
    }
  }

  lemma RewrittenIsFixed(device: Device, raw: string)
    ensures Fixed(device, Value(device, raw))
  {
    if device.Keyboard? { Hotkey.CanonicalRoundTrip(raw); } else { Midi.CanonicalRoundTrip(raw); }
  }

  lemma SetKeepsInv(device: Device, slots: Slots, action: string, raw: string)
    requires Inv(device, slots)
    ensures Inv(device, AfterSet(device, slots, action, raw))
  {
    RewrittenIsFixed(device, raw);
    AssignedAt(slots, action, Value(device, raw));
    AssignKeepsDistinct(slots, action, Value(device, raw));
  }

  lemma {:induction false} RunKeepsInv(device: Device, slots: Slots, sets: seq<(string, string)>)
    requires Inv(device, slots)
    ensures Inv(device, Run(device, slots, sets))
    decreases |sets|
  {
    if sets != [] {
      SetKeepsInv(device, slots, sets[0].0, sets[0].1);
      RunKeepsInv(device, AfterSet(device, slots, sets[0].0, sets[0].1), sets[1..]);
    }
  }

  // What each change asks for, and of which action.
  function Asked(device: Device, sets: seq<(string, string)>): (asked: seq<(string, string)>)
    ensures |asked| == |sets|
    ensures forall j | 0 <= j < |sets| :: asked[j] == (sets[j].0, Value(device, sets[j].1))
  {
    seq(|sets|, j requires 0 <= j < |sets| => (sets[j].0, Value(device, sets[j].1)))
  }

  function RunAsked(slots: Slots, asked: seq<(string, string)>): Slots
    decreases |asked|
  {
    if asked == [] then slots else RunAsked(Assigned(slots, asked[0].0, asked[0].1), asked[1..])
  }

  lemma {:induction false} RunIsAsked(device: Device, slots: Slots, sets: seq<(string, string)>)
    ensures Run(device, slots, sets) == RunAsked(slots, Asked(device, sets))
    decreases |sets|
  {
    if sets != [] {
      var asked := Asked(device, sets);
      assert asked[1..] == Asked(device, sets[1..]);
      assert AfterSet(device, slots, sets[0].0, sets[0].1) == Assigned(slots, asked[0].0, asked[0].1);
      RunIsAsked(device, AfterSet(device, slots, sets[0].0, sets[0].1), sets[1..]);
    }
  }

  // Some change from `from` on gives an action this binding.
  ghost predicate Given(asked: seq<(string, string)>, from: nat, value: string) {
    exists j :: from <= j < |asked| && asked[j].1 == value
  }

  // No change from `from` on names the action.
  ghost predicate Unnamed(asked: seq<(string, string)>, from: nat, a: string) {
    forall j | from <= j < |asked| :: asked[j].0 != a
  }

  lemma Later(asked: seq<(string, string)>, from: nat, a: string, value: string)
    requires 0 < from <= |asked|
    ensures Unnamed(asked, from, a) ==> Unnamed(asked[1..], from - 1, a)
    ensures Given(asked, from, value) <==> Given(asked[1..], from - 1, value)
  {
    if j :| from <= j < |asked| && asked[j].1 == value {
      assert asked[1..][j - 1] == asked[j];
    }
  }

  lemma {:induction false} HeldUntilGiven(slots: Slots, asked: seq<(string, string)>, a: string)
    requires a in slots && Unnamed(asked, 0, a)
    ensures a in RunAsked(slots, asked)
    ensures RunAsked(slots, asked)[a] == if Given(asked, 0, slots[a]) then "" else slots[a]
    decreases |asked|
  {
    if asked != [] {
      AssignedAt(slots, asked[0].0, asked[0].1);
      Later(asked, 1, a, slots[a]);
      HeldUntilGiven(Assigned(slots, asked[0].0, asked[0].1), asked[1..], a);
      assert Given(asked, 0, slots[a]) <==> asked[0].1 == slots[a] || Given(asked, 1, slots[a]);
    }
  }

  lemma {:induction false} LastAskedWins(slots: Slots, asked: seq<(string, string)>, a: string, i: nat)
    requires a in slots && 0 < i <= |asked| && asked[i - 1].0 == a && Unnamed(asked, i, a)
    ensures a in RunAsked(slots, asked)
    ensures RunAsked(slots, asked)[a] == if Given(asked, i, asked[i - 1].1) then "" else asked[i - 1].1
    decreases |asked|
  {
    var next := Assigned(slots, asked[0].0, asked[0].1);
    AssignedAt(slots, asked[0].0, asked[0].1);
    Later(asked, i, a, asked[i - 1].1);
    if i == 1 {
      HeldUntilGiven(next, asked[1..], a);
    } else {
      LastAskedWins(next, asked[1..], a, i - 1);
    }
  }

  /** After any run of changes an action has the binding its own last change asked for:
      none if that was empty or malformed, or if another action was given the same since. */
  lemma LastSetWins(device: Device, slots: Slots, sets: seq<(string, string)>, a: string, i: nat)
    requires a in slots && 0 < i <= |sets| && sets[i - 1].0 == a
    requires forall j | i <= j < |sets| :: sets[j].0 != a
    ensures a in Run(device, slots, sets)
    ensures var asked := Asked(device, sets);
      Run(device, slots, sets)[a] == if Given(asked, i, asked[i - 1].1) then "" else asked[i - 1].1
  {
    RunIsAsked(device, slots, sets);
    LastAskedWins(slots, Asked(device, sets), a, i);
  }

  /** However the hotkeys were set, no two actions answer to the same keys. */
  lemma OneComboOneAction(sets: seq<(string, string)>, a: string, b: string)
    requires a in ACTIONS && b in ACTIONS && a != b
    ensures var slots := Run(Keyboard, Unset(), sets);
      && Unset().Keys <= slots.Keys
      && (slots[a] != "" && slots[b] != "" ==>
            Hotkey.Parsed(slots[a]).Some? && Hotkey.Parsed(slots[a]) != Hotkey.Parsed(slots[b]))
  {
    var slots := Run(Keyboard, Unset(), sets);
    RunKeepsInv(Keyboard, Unset(), sets);
    if slots[a] != "" && slots[b] != "" {
      Hotkey.CanonicalRoundTrip(slots[a]);
      Hotkey.SameKeysSameText(slots[a], slots[b]);
    }
  }

  // ----------------------------------------------------------- routing a pad

  predicate Matches(bound: string, sig: string) {
    bound != "" && (bound == sig || bound == Midi.ControlOnly(sig))
  }

  function ActionFor(slots: Slots, sig: string, actions: seq<string>): (r: Option<string>)
    requires forall a | a in actions :: a in slots
    ensures r.Some? ==> r.value in actions
  {
    if actions == [] then None
    else if Matches(slots[actions[0]], sig) then Some(actions[0])
    else ActionFor(slots, sig, actions[1..])
  }

  lemma {:induction false} ActionForIsFirst(slots: Slots, sig: string, actions: seq<string>, i: nat)
    requires forall a | a in actions :: a in slots
    requires i < |actions| && forall j | 0 <= j < |actions| && j != i :: actions[j] != actions[i]
    ensures ActionFor(slots, sig, actions) == Some(actions[i]) <==>
      Matches(slots[actions[i]], sig) && forall j | 0 <= j < i :: !Matches(slots[actions[j]], sig)
  {
    assert forall j | 0 < j < |actions| :: actions[j] == actions[1..][j - 1];
    if i > 0 {
      ActionForIsFirst(slots, sig, actions[1..], i - 1);
    }
  }

  lemma ActionsDiffer(i: nat)
    requires i < |ACTIONS|
    ensures forall j | 0 <= j < |ACTIONS| && j != i :: ACTIONS[j] != ACTIONS[i]
  {
  }

  /** An action bound to a pad of one device hears that pad if and only if no
      action before it is bound to the same pad of any device. */
  lemma BoundPadIsHeard(slots: Slots, sig: string, i: nat)
    requires Inv(MidiController, slots) && i < |ACTIONS|
    requires sig != "" && slots[ACTIONS[i]] == sig
    ensures ActionFor(slots, sig, ACTIONS) == Some(ACTIONS[i]) <==>
      forall j | 0 <= j < i :: slots[ACTIONS[j]] == "" || slots[ACTIONS[j]] != Midi.ControlOnly(sig)
  {
    ActionsDiffer(i);
    ActionForIsFirst(slots, sig, ACTIONS, i);
  }

  lemma PadSignatures(pad: Midi.Signature)
    requires Midi.Sensible(pad) && pad.device != ""
    ensures var any, deck := Midi.Control(pad), Midi.Print(pad);
      && any != "" && deck != any
      && Midi.Canonical(any) == Some(any) && Midi.Canonical(deck) == Some(deck)
      && Midi.ControlOnly(deck) == any
  {
    Midi.PrintReadsBack(pad.(device := ""));
    Midi.PrintReadsBack(pad);
    Midi.ControlReads(pad);
    Midi.SplitOnceAt(Midi.Control(pad), pad.device, '@');
  }

  /** Binding one deck's pad when an earlier action has the same pad of any device:
      both bindings stay, and the new one never fires. */
  lemma LearnedPadCanBeDeaf(pad: Midi.Signature, slots: Slots, i: nat, j: nat)
    requires Midi.Sensible(pad) && pad.device != ""
    requires Inv(MidiController, slots) && i < j < |ACTIONS|
    requires slots[ACTIONS[i]] == Midi.Control(pad)
    ensures var after := AfterSet(MidiController, slots, ACTIONS[j], Midi.Print(pad));
      && Inv(MidiController, after)
      && after[ACTIONS[i]] == Midi.Control(pad) && after[ACTIONS[j]] == Midi.Print(pad)
      && ActionFor(after, Midi.Print(pad), ACTIONS) != Some(ACTIONS[j])
  {
    var deck := Midi.Print(pad);
    PadSignatures(pad);
    LearnedSlots(slots, ACTIONS[j], deck);
    ActionsDiffer(i);
    BoundPadIsHeard(AfterSet(MidiController, slots, ACTIONS[j], deck), deck, j);
  }

  // A signature already in its own form goes to its action, and away from others.
  lemma LearnedSlots(slots: Slots, action: string, text: string)
    requires Inv(MidiController, slots) && action in slots
    requires text != "" && Canonical(MidiController, text) == Some(text)
    ensures var after := AfterSet(MidiController, slots, action, text);
      && Inv(MidiController, after) && after[action] == text
      && forall a | a in slots && a != action && slots[a] != text :: after[a] == slots[a]
  {
    SetKeepsInv(MidiController, slots, action, text);
    AssignedAt(slots, action, text);
  }

  /** A name that is no action's still takes the combo from whoever held it. */
  lemma UnknownActionUnbinds(device: Device, slots: Slots, action: string, raw: string)
    requires action !in slots && Canonical(device, raw).Some? && Canonical(device, raw).value != ""
    ensures var value, after := Canonical(device, raw).value, AfterSet(device, slots, action, raw);
      after.Keys == slots.Keys
      && forall a | a in slots :: after[a] != value && (after[a] == slots[a] || slots[a] == value)
  {
    AssignedAt(slots, action, Canonical(device, raw).value);
  }
}
