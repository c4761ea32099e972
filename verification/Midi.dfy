/**
 * MIDI signatures (src/config.rs, `canonicalize_midi`, `sanitize_device_name`):
 * `note:<channel>:<data>` or `cc:<channel>:<data>`, with the device's name or without.
 */
module Midi {
  import opened Wrappers
  import opened Text

  const DEVICE_NAME_MAX: nat := 64

  datatype Kind = Note | Cc

  datatype Signature = Signature(kind: Kind, channel: nat, data: nat, device: string)

  predicate NameChar(c: char) {
    !IsControl(c) && c != '@'
  }

  function Kept(name: string): (s: string)
    ensures forall c | c in s :: NameChar(c)
    ensures (forall c | c in name :: NameChar(c)) ==> s == name
  {
    if name == [] then []
    else (if NameChar(name[0]) then [name[0]] else []) + Kept(name[1..])
  }

  ghost predicate DeviceName(s: string) {
    Trimmed(s) && |s| <= DEVICE_NAME_MAX && forall c | c in s :: NameChar(c)
  }

  /** Any name becomes a legal device name; a legal one is left alone. */
  function SanitizeDeviceName(name: string): (s: string)
    ensures DeviceName(s)
    ensures DeviceName(name) ==> s == name
  {
    var kept := Kept(name);
    Trim(kept[..Min(|kept|, DEVICE_NAME_MAX)])
  }

  lemma {:induction false} KeptSplits(a: string, b: string)
    ensures Kept(a + b) == Kept(a) + Kept(b)
  {
    if a == [] {
      assert a + b == b;
    } else {
      assert (a + b)[1..] == a[1..] + b;
      KeptSplits(a[1..], b);
    }
  }

  lemma NotKept(before: string, illegal: char, after: string)
    requires !NameChar(illegal)
    ensures Kept(before + [illegal] + after) == Kept(before + after)
  {
    var one := [illegal];
    assert one[1..] == [] && Kept(one) == Kept([]);
    KeptSplits(before + one, after);
    KeptSplits(before, one);
    KeptSplits(before, after);
  }

  /** What a name loses to become legal: each illegal character, and no other; then all
      past the limit; then the space around what is left. */
  lemma SanitizeLosesOnly(before: string, illegal: char, after: string)
    requires !NameChar(illegal)
    ensures SanitizeDeviceName(before + [illegal] + after) == SanitizeDeviceName(before + after)
    ensures (forall c | c in before :: NameChar(c)) ==>
      SanitizeDeviceName(before) == Trim(before[..Min(|before|, 64)])
  {
    NotKept(before, illegal, after);
  }

  // What comes before the first separator, and after it.
  function SplitOnce(s: string, sep: char): (string, string) {
    if s == [] then ([], [])
    else if s[0] == sep then ([], s[1..])
    else
      var rest := SplitOnce(s[1..], sep);
      ([s[0]] + rest.0, rest.1)
  }

  lemma {:induction false} SplitOnceAt(a: string, b: string, sep: char)
    requires sep !in a
    ensures SplitOnce(a + [sep] + b, sep) == (a, b)
    ensures SplitOnce(a, sep) == (a, [])
  {
    var s := a + [sep] + b;
    if a == [] {
      assert s[1..] == b;
    } else {
      assert s[1..] == a[1..] + [sep] + b;
      SplitOnceAt(a[1..], b, sep);
      assert [a[0]] + a[1..] == a;
    }
  }

  function KindOf(word: string): Option<Kind> {
    if Lower(word) == "note" then Some(Note) else if Lower(word) == "cc" then Some(Cc) else None
  }

  function KindName(kind: Kind): string {
    if kind.Note? then "note" else "cc"
  }

  function Parsed(sig: string): Option<Signature> {
    var whole := SplitOnce(Trim(sig), '@');
    var parts := Split(whole.0, ':');
    if |parts| != 3 then None
    else
      var kind, channel, data := KindOf(Trim(parts[0])), ParseU32(Trim(parts[1])), ParseU32(Trim(parts[2]));
      if kind.None? || channel.None? || data.None? then None
      else if !(1 <= channel.value <= 16) || data.value > 127 then None
      else Some(Signature(kind.value, channel.value, data.value, SanitizeDeviceName(Trim(whole.1))))
  }

  function Control(s: Signature): string {
    KindName(s.kind) + [':'] + (Decimal(s.channel) + [':'] + Decimal(s.data))
  }

  function Print(s: Signature): string {
    if s.device == [] then Control(s) else Control(s) + ['@'] + s.device
  }

  function Canonical(sig: string): Option<string> {
    var s := Parsed(sig);
    if s.None? then None else Some(Print(s.value))
  }

  ghost predicate Sensible(s: Signature) {
    1 <= s.channel <= 16 && s.data <= 127 && DeviceName(s.device)
  }

  lemma DigitsAreTrimmed(n: nat)
    ensures Trimmed(Decimal(n)) && ':' !in Decimal(n) && '@' !in Decimal(n)
  {
    var s := Decimal(n);
    assert s[0] in s && s[|s| - 1] in s;
  }

  lemma ControlReads(s: Signature)
    ensures Split(Control(s), ':') == [KindName(s.kind), Decimal(s.channel), Decimal(s.data)]
    ensures '@' !in Control(s)
  {
    DigitsAreTrimmed(s.channel);
    DigitsAreTrimmed(s.data);
    SplitFirst(KindName(s.kind), Decimal(s.channel) + [':'] + Decimal(s.data), ':');
    SplitFirst(Decimal(s.channel), Decimal(s.data), ':');
    SplitAlone(Decimal(s.data), ':');
  }

  lemma PrintIsTrimmed(s: Signature)
    requires Sensible(s)
    ensures Trimmed(Print(s))
  {
    DigitsAreTrimmed(s.data);
    assert Print(s)[0] == KindName(s.kind)[0];
    var tail := if s.device == [] then Decimal(s.data) else s.device;
    assert Print(s)[|Print(s)| - 1] == tail[|tail| - 1];
  }

  lemma KindReads(kind: Kind)
    ensures KindOf(Trim(KindName(kind))) == Some(kind)
  {
    if kind.Note? {
      assert Lower("note") == "note";
    } else {
      assert |Lower("cc")| == 2;
      assert Lower("cc") == "cc";
    }
  }

  /** A printed signature reads back as itself. */
  lemma PrintReadsBack(s: Signature)
    requires Sensible(s)
    ensures Parsed(Print(s)) == Some(s)
  {
    ControlReads(s);
    PrintIsTrimmed(s);
    SplitOnceAt(Control(s), s.device, '@');
    KindReads(s.kind);
    DigitsAreTrimmed(s.channel);
    DigitsAreTrimmed(s.data);
    DecimalReadsBack(s.channel);
    DecimalReadsBack(s.data);
  }

  /** A signature is rewritten exactly when it parses; the rewritten one names the
      same control and device, and rewriting it again changes nothing. */
  lemma CanonicalRoundTrip(sig: string)
    ensures Canonical(sig).Some? <==> Parsed(sig).Some?
    ensures Canonical(sig).Some? ==>
      var text := Canonical(sig).value;
      Parsed(text) == Parsed(sig) && Canonical(text) == Some(text)
  {
    if Parsed(sig).Some? {
      PrintReadsBack(Parsed(sig).value);
    }
  }

  // What `action_for` matches an any-device binding against.
  function ControlOnly(sig: string): string {
    SplitOnce(sig, '@').0
  }
}
