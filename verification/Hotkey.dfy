/**
 * Hotkey combos (src/config.rs, `parse_hotkey`, `canonicalize_hotkey`,
 * `key_to_vk`, `vk_to_key`): the parser, the printer, and how they undo each other.
 */
module Hotkey {
  import opened Wrappers
  import opened Text

  // The four modifier bits of `RegisterHotKey`; the mask never has another.
  type Mods = bv4

  const MOD_ALT: Mods := 1
  const MOD_CONTROL: Mods := 2
  const MOD_SHIFT: Mods := 4
  const MOD_WIN: Mods := 8

  datatype Combo = Combo(mods: Mods, vk: nat)

  function Modifier(word: string): Option<Mods> {
    var w := Lower(word);
    if w == "ctrl" || w == "control" then Some(MOD_CONTROL)
    else if w == "alt" then Some(MOD_ALT)
    else if w == "shift" then Some(MOD_SHIFT)
    else if w == "win" || w == "super" || w == "meta" || w == "cmd" then Some(MOD_WIN)
    else None
  }

  const NAMED_KEYS: seq<(string, nat)> := [
    ("Space", 0x20), ("Tab", 0x09), ("Esc", 0x1B), ("Enter", 0x0D), ("Backspace", 0x08),
    ("Left", 0x25), ("Up", 0x26), ("Right", 0x27), ("Down", 0x28), ("PageUp", 0x21),
    ("PageDown", 0x22), ("End", 0x23), ("Home", 0x24), ("Insert", 0x2D), ("Delete", 0x2E),
    ("Numpad0", 0x60), ("Numpad1", 0x61), ("Numpad2", 0x62), ("Numpad3", 0x63), ("Numpad4", 0x64),
    ("Numpad5", 0x65), ("Numpad6", 0x66), ("Numpad7", 0x67), ("Numpad8", 0x68), ("Numpad9", 0x69),
    ("NumMultiply", 0x6A), ("NumAdd", 0x6B), ("NumSubtract", 0x6D), ("NumDecimal", 0x6E), ("NumDivide", 0x6F)
  ]

  function VkNamed(keys: seq<(string, nat)>, key: string): Option<nat> {
    if keys == [] then None
    else if Lower(keys[0].0) == Lower(key) then Some(keys[0].1)
    else VkNamed(keys[1..], key)
  }

  function NameOf(keys: seq<(string, nat)>, vk: nat): Option<string> {
    if keys == [] then None
    else if keys[0].1 == vk then Some(keys[0].0)
    else NameOf(keys[1..], vk)
  }

  // A longer word is a function key by its first letter and the number after it.
  function FunctionKey(key: string): Option<u32>
    requires key != []
  {
    if LowerChar(key[0]) == 'f' then ParseU32(key[1..]) else None
  }

  function KeyToVk(key: string): Option<nat>
    requires key != []
  {
    if |key| == 1 then
      if IsLetter(key[0]) then Some(UpperChar(key[0]) as nat)
      else if IsDigit(key[0]) then Some(key[0] as nat)
      else None
    else
      var f := FunctionKey(key);
      if f.Some? && 1 <= f.value <= 24 then Some(0x70 + f.value - 1) else VkNamed(NAMED_KEYS, key)
  }

  predicate Lettered(vk: nat) {
    0x30 <= vk <= 0x39 || 0x41 <= vk <= 0x5A
  }

  function VkToKey(vk: nat): Option<string> {
    if Lettered(vk) then Some([vk as char])
    else if 0x70 <= vk <= 0x87 then Some("F" + Decimal(vk - 0x70 + 1))
    else NameOf(NAMED_KEYS, vk)
  }

  // ------------------------------------------------------------------ parsing

  // What is left of a token that is not blank.
  type Word = w: string | w != [] witness "a"

  function NonBlank(tokens: seq<string>): seq<Word> {
    if tokens == [] then []
    else
      var t := Trim(tokens[0]);
      (if t == [] then [] else [t]) + NonBlank(tokens[1..])
  }

  function Words(combo: string): seq<Word> {
    NonBlank(Split(combo, '+'))
  }

  // What one word does to the bits held and the key found so far.
  function WordStep(word: Word, mods: Mods, vk: Option<nat>): Option<(Mods, Option<nat>)> {
    var m := Modifier(word);
    if m.Some? then Some((mods | m.value, vk))
    else
      var code := KeyToVk(word);
      if code.None? || vk.Some? then None else Some((mods, code))
  }

  function Scan(words: seq<Word>, mods: Mods, vk: Option<nat>): Option<Combo> {
    if words == [] then
      if vk.None? || mods == 0 then None else Some(Combo(mods, vk.value))
    else
      var step := WordStep(words[0], mods, vk);
      if step.None? then None else Scan(words[1..], step.value.0, step.value.1)
  }

  function Parsed(combo: string): Option<Combo> {
    Scan(Words(combo), 0, None)
  }

  lemma TokenStep(tokens: seq<string>, mods: Mods, vk: Option<nat>)
    requires tokens != []
    ensures var t, rest := Trim(tokens[0]), NonBlank(tokens[1..]);
      Scan(NonBlank(tokens), mods, vk) ==
        if t == [] then Scan(rest, mods, vk)
        else
          var step := WordStep(t, mods, vk);
          if step.None? then None else Scan(rest, step.value.0, step.value.1)
  {
    var t, rest := Trim(tokens[0]), NonBlank(tokens[1..]);
    if t == [] {
      assert NonBlank(tokens) == rest;
    } else {
      assert NonBlank(tokens) == [t] + rest;
      assert ([t] + rest)[1..] == rest;
    }
  }

  /** The parsing loop. */
  method ParseHotkey(combo: string) returns (r: Option<Combo>)
    ensures r == Parsed(combo)
  {
    var tokens := Split(combo, '+');
    var mods: Mods := 0;
    var vk: Option<nat> := None;
    assert tokens[0..] == tokens;
    for i := 0 to |tokens|
      invariant Parsed(combo) == Scan(NonBlank(tokens[i..]), mods, vk)
    {
      var t := Trim(tokens[i]);
      TokenStep(tokens[i..], mods, vk);
      assert tokens[i..][1..] == tokens[i + 1..];
      if t != [] {
        var m := Modifier(t);
        if m.Some? {
          mods := mods | m.value;
        } else {
          var code := KeyToVk(t);
          if code.None? || vk.Some? { return None; }
          vk := code;
        }
      }
    }
    if vk.None? || mods == 0 { return None; }
    return Some(Combo(mods, vk.value));
  }

  // What the words of a combo hold down, and its one main key.
  function Held(words: seq<Word>): Mods {
    if words == [] then 0
    else
      var m := Modifier(words[0]);
      (if m.Some? then m.value else 0) | Held(words[1..])
  }

  ghost predicate OneKey(words: seq<Word>, k: nat, vk: nat) {
    && k < |words| && Modifier(words[k]).None? && KeyToVk(words[k]) == Some(vk)
    && forall i | 0 <= i < |words| && i != k :: Modifier(words[i]).Some?
  }

  lemma {:induction false} ScanAfterKey(words: seq<Word>, mods: Mods, vk: nat, c: Combo)
    ensures Scan(words, mods, Some(vk)) == Some(c) <==>
      && c == Combo(mods | Held(words), vk) && c.mods != 0
      && forall i | 0 <= i < |words| :: Modifier(words[i]).Some?
  {
    if words != [] && Modifier(words[0]).Some? {
      ScanAfterKey(words[1..], mods | Modifier(words[0]).value, vk, c);
      assert forall i | 0 < i < |words| :: words[i] == words[1..][i - 1];
    }
  }

  ghost predicate HasOneKey(words: seq<Word>, vk: nat) {
    exists k :: OneKey(words, k, vk)
  }

  lemma KeyAfterModifier(words: seq<Word>, vk: nat)
    requires words != [] && Modifier(words[0]).Some?
    ensures HasOneKey(words, vk) <==> HasOneKey(words[1..], vk)
  {
    var rest := words[1..];
    if k: nat :| OneKey(rest, k, vk) {
      forall i | 0 <= i < |words| && i != k + 1 ensures Modifier(words[i]).Some? {
        if i > 0 { assert words[i] == rest[i - 1]; }
      }
      assert OneKey(words, k + 1, vk);
    }
    if k: nat :| OneKey(words, k, vk) {
      assert forall i | 0 <= i < |rest| :: rest[i] == words[i + 1];
      assert OneKey(rest, k - 1, vk);
    }
  }

  lemma KeyFirst(words: seq<Word>, vk: nat)
    requires words != [] && Modifier(words[0]).None?
    ensures HasOneKey(words, vk) <==>
      KeyToVk(words[0]) == Some(vk) && forall i | 0 <= i < |words[1..]| :: Modifier(words[1..][i]).Some?
  {
    var rest := words[1..];
    if KeyToVk(words[0]) == Some(vk) && forall i | 0 <= i < |rest| :: Modifier(rest[i]).Some? {
      assert forall i | 0 < i < |words| :: words[i] == rest[i - 1];
      assert OneKey(words, 0, vk);
    }
    if k: nat :| OneKey(words, k, vk) {
      assert forall i | 0 <= i < |rest| :: rest[i] == words[i + 1];
    }
  }

  lemma {:induction false} ScanExact(words: seq<Word>, mods: Mods, c: Combo)
    ensures Scan(words, mods, None) == Some(c) <==>
      c.mods == mods | Held(words) && c.mods != 0 && HasOneKey(words, c.vk)
  {
    if words != [] {
      if Modifier(words[0]).Some? {
        ScanExact(words[1..], mods | Modifier(words[0]).value, c);
        KeyAfterModifier(words, c.vk);
      } else {
        KeyFirst(words, c.vk);
        var code := KeyToVk(words[0]);
        if code.Some? { ScanAfterKey(words[1..], mods, code.value, c); }
      }
    }
  }

  /** What a combo means, in whatever order and case it is written: exactly one
      main key, every other word a modifier, and at least one of those. */
  lemma ParseExact(combo: string, c: Combo)
    ensures Parsed(combo) == Some(c) <==>
      c.mods == Held(Words(combo)) && c.mods != 0 && HasOneKey(Words(combo), c.vk)
  {
    ScanExact(Words(combo), 0, c);
  }

  // ---------------------------------------------------------------- any case

  lemma {:induction false} VkNamedLower(keys: seq<(string, nat)>, key: string)
    ensures VkNamed(keys, Lower(key)) == VkNamed(keys, key)
  {
    LowerTwice(key);
    if keys != [] { VkNamedLower(keys[1..], key); }
  }

  lemma OneCharLower(c: char)
    ensures KeyToVk([LowerChar(c)]) == KeyToVk([c])
  {
    LowerKeeps(c);
  }

  lemma FunctionKeyLower(key: Word)
    ensures Lower(key) != [] && FunctionKey(Lower(key)) == FunctionKey(key)
  {
    assert Lower(key)[1..] == Lower(key[1..]);
    LowerKeeps(key[0]);
    ParseLower(key[1..]);
  }

  lemma KeyLower(key: Word)
    ensures Lower(key) != [] && KeyToVk(Lower(key)) == KeyToVk(key)
  {
    if |key| == 1 {
      OneCharLower(key[0]);
      assert Lower(key) == [LowerChar(key[0])] && key == [key[0]];
    } else {
      FunctionKeyLower(key);
      VkNamedLower(NAMED_KEYS, key);
    }
  }

  lemma ModifierLower(word: Word)
    ensures Modifier(Lower(word)) == Modifier(word)
  {
    LowerTwice(word);
  }

  lemma StepLower(word: Word, mods: Mods, vk: Option<nat>)
    ensures Lower(word) != [] && WordStep(Lower(word), mods, vk) == WordStep(word, mods, vk)
  {
    ModifierLower(word);
    KeyLower(word);
  }

  lemma {:induction false} ScanLower(tokens: seq<string>, mods: Mods, vk: Option<nat>)
    ensures Scan(NonBlank(LowerAll(tokens)), mods, vk) == Scan(NonBlank(tokens), mods, vk)
    decreases |tokens|
  {
    if tokens != [] {
      var lower := LowerAll(tokens);
      assert lower[1..] == LowerAll(tokens[1..]);
      TokenStep(tokens, mods, vk);
      TokenStep(lower, mods, vk);
      TrimLower(tokens[0]);
      var t := Trim(tokens[0]);
      if t == [] {
        assert Lower(t) == [];
        ScanLower(tokens[1..], mods, vk);
      } else {
        StepLower(t, mods, vk);
        var step := WordStep(t, mods, vk);
        if step.Some? { ScanLower(tokens[1..], step.value.0, step.value.1); }
      }
    }
  }

  /** Case does not matter. */
  lemma CaseDoesNotMatter(a: string, b: string)
    requires Lower(a) == Lower(b)
    ensures Parsed(a) == Parsed(b)
  {
    SplitLower(a, '+');
    SplitLower(b, '+');
    ScanLower(Split(a, '+'), 0, None);
    ScanLower(Split(b, '+'), 0, None);
  }

  // ----------------------------------------------------------------- printing

  function Piece(mods: Mods, bit: Mods, word: string): string {
    if mods & bit != 0 then word + ['+'] else []
  }

  function Pieces(mods: Mods, key: string): string {
    Piece(mods, MOD_CONTROL, "Ctrl") + (Piece(mods, MOD_ALT, "Alt")
      + (Piece(mods, MOD_SHIFT, "Shift") + (Piece(mods, MOD_WIN, "Win") + key)))
  }

  function Print(c: Combo): Option<string> {
    var key := VkToKey(c.vk);
    if key.None? then None
    else Some(Pieces(c.mods, key.value))
  }

  function Canonical(combo: string): Option<string> {
    var c := Parsed(combo);
    if c.None? then None else Print(c.value)
  }

  // ------------------------------------------------------- the table of names

  // A name's length, first and last letter, whatever the case.
  function Shape(s: string): (nat, char, char)
    requires s != []
  {
    (|s|, LowerChar(s[0]), LowerChar(s[|s| - 1]))
  }

  lemma SameShape(a: string, b: string)
    requires Lower(a) == Lower(b) && a != []
    ensures |b| == |a| && Shape(a) == Shape(b)
  {
    assert Lower(a)[0] == Lower(b)[0];
    assert Lower(a)[|a| - 1] == Lower(b)[|a| - 1];
  }

  lemma ModifierShape(word: string)
    requires Modifier(word).Some?
    ensures word != [] && Shape(word).1 in ['c', 'a', 's', 'w', 'm']
    ensures Shape(word).1 == 's' ==> Shape(word).2 in ['t', 'r']
  {
    assert Lower(word)[0] == LowerChar(word[0]);
    assert Lower(word)[|word| - 1] == LowerChar(word[|word| - 1]);
  }

  // The one named key a shape can be.
  function VkOfShape(s: (nat, char, char)): int {
    match s.0
    case 2 => 0x26
    case 3 => if s.2 == 'b' then 0x09 else if s.2 == 'c' then 0x1B else 0x23
    case 4 => if s.1 == 'l' then 0x25 else if s.1 == 'd' then 0x28 else 0x24
    case 5 => if s.1 == 's' then 0x20 else if s.1 == 'e' then 0x0D else 0x27
    case 6 => if s.1 == 'p' then 0x21 else if s.1 == 'i' then 0x2D else if s.1 == 'd' then 0x2E else 0x6B
    case 7 => 0x60 + s.2 as int - '0' as int
    case 8 => 0x22
    case 9 => if s.1 == 'b' then 0x08 else 0x6F
    case 10 => 0x6E
    case _ => if s.2 == 'y' then 0x6A else 0x6D
  }

  // A main key's word: what the parser reads back as that key, and nothing else.
  ghost predicate KeyWord(word: string, vk: nat) {
    && word != [] && Trimmed(word) && '+' !in word
    && Modifier(word).None? && KeyToVk(word) == Some(vk)
  }

  ghost predicate Row(name: string, vk: nat) {
    && |name| >= 2 && Trimmed(name) && '+' !in name
    && !Lettered(vk) && !(0x70 <= vk <= 0x87)
    && VkOfShape(Shape(name)) == vk
    && Shape(name).1 !in ['c', 'a', 'w', 'm', 'f'] && (Shape(name).1 == 's' ==> Shape(name).2 == 'e')
  }

  lemma FirstRows(i: nat)
    requires i < 15
    ensures Row(NAMED_KEYS[i].0, NAMED_KEYS[i].1)
  {
  }

  lemma Rows(i: nat)
    requires i < |NAMED_KEYS|
    ensures Row(NAMED_KEYS[i].0, NAMED_KEYS[i].1)
  {
    if i < 15 { FirstRows(i); }
  }

  lemma {:induction false} NameIsListed(keys: seq<(string, nat)>, vk: nat)
    ensures NameOf(keys, vk).Some? <==> exists i :: 0 <= i < |keys| && keys[i].1 == vk
    ensures NameOf(keys, vk).Some? ==> exists i :: 0 <= i < |keys| && keys[i] == (NameOf(keys, vk).value, vk)
  {
    if keys != [] {
      NameIsListed(keys[1..], vk);
      assert forall i | 0 < i < |keys| :: keys[i] == keys[1..][i - 1];
    }
  }

  lemma {:induction false} VkIsListed(keys: seq<(string, nat)>, key: string)
    ensures (exists i :: 0 <= i < |keys| && Lower(keys[i].0) == Lower(key)) ==> VkNamed(keys, key).Some?
    ensures VkNamed(keys, key).Some? ==>
      exists i :: 0 <= i < |keys| && Lower(keys[i].0) == Lower(key) && keys[i].1 == VkNamed(keys, key).value
  {
    if keys != [] {
      VkIsListed(keys[1..], key);
      assert forall i | 0 < i < |keys| :: keys[i] == keys[1..][i - 1];
    }
  }

  // A name is found in the table under its own key, first or not.
  lemma NameReadsBack(vk: nat)
    requires NameOf(NAMED_KEYS, vk).Some?
    ensures var name := NameOf(NAMED_KEYS, vk).value;
      Row(name, vk) && VkNamed(NAMED_KEYS, name) == Some(vk)
  {
    var name := NameOf(NAMED_KEYS, vk).value;
    NameIsListed(NAMED_KEYS, vk);
    var i :| 0 <= i < |NAMED_KEYS| && NAMED_KEYS[i] == (name, vk);
    Rows(i);
    VkIsListed(NAMED_KEYS, name);
    var j :| 0 <= j < |NAMED_KEYS| && Lower(NAMED_KEYS[j].0) == Lower(name)
             && NAMED_KEYS[j].1 == VkNamed(NAMED_KEYS, name).value;
    Rows(j);
    SameShape(name, NAMED_KEYS[j].0);
  }

  lemma FKeyReads(n: nat)
    requires 1 <= n <= 24
    ensures KeyToVk("F" + Decimal(n)) == Some(0x70 + n - 1)
  {
    var key := "F" + Decimal(n);
    assert key[1..] == Decimal(n);
    DecimalReadsBack(n);
  }

  lemma FKey(n: nat)
    requires 1 <= n <= 24
    ensures KeyWord("F" + Decimal(n), 0x70 + n - 1)
  {
    var key := "F" + Decimal(n);
    FKeyReads(n);
    assert IsDigit(key[|key| - 1]) by { assert key[|key| - 1] in Decimal(n); }
    if Modifier(key).Some? { ModifierShape(key); }
  }

  lemma OneLetter(vk: nat)
    requires Lettered(vk)
    ensures VkToKey(vk).Some? && KeyWord(VkToKey(vk).value, vk)
  {
    assert |Lower([vk as char])| == 1;
  }

  lemma NamedKey(vk: nat)
    requires NameOf(NAMED_KEYS, vk).Some?
    ensures KeyWord(NameOf(NAMED_KEYS, vk).value, vk)
  {
    var name := NameOf(NAMED_KEYS, vk).value;
    NameReadsBack(vk);
    if Modifier(name).Some? { ModifierShape(name); }
  }

  // The function keys' codes, and those with a name in the table.
  lemma NumberedKeyReadsBack(vk: nat)
    requires 0x70 <= vk <= 0x87
    ensures VkToKey(vk).Some? && KeyWord(VkToKey(vk).value, vk)
  {
    FKey(vk - 0x70 + 1);
  }

  lemma NamedKeyReadsBack(vk: nat)
    requires !Lettered(vk) && !(0x70 <= vk <= 0x87) && VkToKey(vk).Some?
    ensures KeyWord(VkToKey(vk).value, vk)
  {
    NamedKey(vk);
  }

  /** Every key that can be printed is printed as a word that reads back as it. */
  lemma KeyReadsBack(vk: nat)
    requires VkToKey(vk).Some?
    ensures KeyWord(VkToKey(vk).value, vk)
  {
    if Lettered(vk) {
      OneLetter(vk);
    } else if 0x70 <= vk <= 0x87 {
      NumberedKeyReadsBack(vk);
    } else {
      NamedKeyReadsBack(vk);
    }
  }

  /** Every key that can be read can be printed. */
  lemma KeyIsPrintable(key: Word)
    requires KeyToVk(key).Some?
    ensures VkToKey(KeyToVk(key).value).Some?
  {
    if VkNamed(NAMED_KEYS, key).Some? {
      VkIsListed(NAMED_KEYS, key);
      NameIsListed(NAMED_KEYS, VkNamed(NAMED_KEYS, key).value);
    }
  }

  ghost predicate ModifierWord(word: string, bit: Mods) {
    word != [] && Trimmed(word) && '+' !in word && Modifier(word) == Some(bit)
  }

  function With(held: Mods, mods: Mods, bit: Mods): Mods {
    if mods & bit != 0 then held | bit else held
  }

  // A printed modifier is read as one; an absent one leaves no trace.
  lemma PieceReads(mods: Mods, bit: Mods, word: string, rest: string, held: Mods)
    requires ModifierWord(word, bit)
    ensures Scan(Words(Piece(mods, bit, word) + rest), held, None) == Scan(Words(rest), With(held, mods, bit), None)
  {
    if mods & bit != 0 {
      SplitFirst(word, rest, '+');
      TokenStep([word] + Split(rest, '+'), held, None);
      assert ([word] + Split(rest, '+'))[1..] == Split(rest, '+');
    } else {
      assert Piece(mods, bit, word) + rest == rest;
    }
  }

  lemma KeyReads(key: string, vk: nat, held: Mods)
    requires KeyWord(key, vk) && held != 0
    ensures Scan(Words(key), held, None) == Some(Combo(held, vk))
  {
    SplitAlone(key, '+');
    TokenStep([key], held, None);
  }

  lemma ModifierWords()
    ensures ModifierWord("Ctrl", MOD_CONTROL) && ModifierWord("Alt", MOD_ALT)
    ensures ModifierWord("Shift", MOD_SHIFT) && ModifierWord("Win", MOD_WIN)
  {
    assert Lower("Ctrl") == "ctrl";
    assert Lower("Alt") == "alt";
    assert Lower("Shift") == "shift";
    assert Lower("Win") == "win";
  }

  lemma AllBits(mods: Mods)
    ensures With(With(With(With(0, mods, MOD_CONTROL), mods, MOD_ALT), mods, MOD_SHIFT), mods, MOD_WIN) == mods
  {
  }

  lemma PiecesRead(mods: Mods, key: string)
    ensures Scan(Words(Pieces(mods, key)), 0, None) == Scan(Words(key), mods, None)
  {
    ModifierWords();
    var win := Piece(mods, MOD_WIN, "Win") + key;
    var shift := Piece(mods, MOD_SHIFT, "Shift") + win;
    var alt := Piece(mods, MOD_ALT, "Alt") + shift;
    var h1 := With(0, mods, MOD_CONTROL);
    var h2 := With(h1, mods, MOD_ALT);
    PieceReads(mods, MOD_CONTROL, "Ctrl", alt, 0);
    PieceReads(mods, MOD_ALT, "Alt", shift, h1);
    PieceReads(mods, MOD_SHIFT, "Shift", win, h2);
    PieceReads(mods, MOD_WIN, "Win", key, With(h2, mods, MOD_SHIFT));
    AllBits(mods);
  }

  /** What is printed reads back as the same modifiers and key. */
  lemma PrintReadsBack(c: Combo)
    requires c.mods != 0 && VkToKey(c.vk).Some?
    ensures Print(c).Some? && Parsed(Print(c).value) == Some(c)
  {
    var key := VkToKey(c.vk).value;
    KeyReadsBack(c.vk);
    PiecesRead(c.mods, key);
    KeyReads(key, c.vk, c.mods);
  }

  lemma ParsedIsPrintable(combo: string)
    requires Parsed(combo).Some?
    ensures Parsed(combo).value.mods != 0 && VkToKey(Parsed(combo).value.vk).Some?
  {
    var c := Parsed(combo).value;
    ParseExact(combo, c);
    var k: nat :| OneKey(Words(combo), k, c.vk);
    KeyIsPrintable(Words(combo)[k]);
  }

  /** A combo is rewritten exactly when it parses; the rewritten one parses to the
      same modifiers and key, and rewriting it again changes nothing. */
  lemma CanonicalRoundTrip(combo: string)
    ensures Canonical(combo).Some? <==> Parsed(combo).Some?
    ensures Canonical(combo).Some? ==>
      var text := Canonical(combo).value;
      Parsed(text) == Parsed(combo) && Canonical(text) == Some(text)
  {
    if Parsed(combo).Some? {
      ParsedIsPrintable(combo);
      PrintReadsBack(Parsed(combo).value);
    }
  }

  /** Two combos are the same keys exactly when they are rewritten alike. */
  lemma SameKeysSameText(a: string, b: string)
    requires Canonical(a).Some? && Canonical(b).Some?
    ensures Canonical(a) == Canonical(b) <==> Parsed(a) == Parsed(b)
  {
    CanonicalRoundTrip(a);
    CanonicalRoundTrip(b);
  }
}
