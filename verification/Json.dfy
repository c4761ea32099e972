/**
 * The strict JSON recogniser (src/config.rs, `is_valid_json`, `json_check`) and
 * the string printer (`json_str`). `Parser` advances a position in place and
 * refines the functions above it, which are proved to accept exactly the grammar.
 */
module Json {
  import opened Wrappers
  import opened JsonGrammar

  // ---------------------------------------------- the recogniser, as functions

  predicate At(s: seq<byte>, p: nat, b: byte) {
    p < |s| && s[p] == b
  }

  function SkipWs(s: seq<byte>, p: nat): (q: nat)
    requires p <= |s|
    ensures p <= q <= |s|
    decreases |s| - p
  {
    if p < |s| && IsWs(s[p]) then SkipWs(s, p + 1) else p
  }

  function DigitsEnd(s: seq<byte>, p: nat): (q: nat)
    requires p <= |s|
    ensures p <= q <= |s|
    decreases |s| - p
  {
    if p < |s| && IsDigit(s[p]) then DigitsEnd(s, p + 1) else p
  }

  function IntEnd(s: seq<byte>, p: nat): (q: Option<nat>)
    requires p <= |s|
    ensures q.Some? ==> p < q.value <= |s|
  {
    if At(s, p, ZERO) then Some(p + 1)
    else
      var q := DigitsEnd(s, p);
      if q == p then None else Some(q)
  }

  function FracEnd(s: seq<byte>, p: nat): (q: Option<nat>)
    requires p <= |s|
    ensures q.Some? ==> p <= q.value <= |s|
  {
    if !At(s, p, POINT) then Some(p)
    else
      var q := DigitsEnd(s, p + 1);
      if q == p + 1 then None else Some(q)
  }

  function AfterSign(s: seq<byte>, p: nat): nat {
    if At(s, p, PLUS) || At(s, p, MINUS) then p + 1 else p
  }

  function ExpEnd(s: seq<byte>, p: nat): (q: Option<nat>)
    requires p <= |s|
    ensures q.Some? ==> p <= q.value <= |s|
  {
    if p == |s| || !IsE(s[p]) then Some(p)
    else
      var digits := AfterSign(s, p + 1);
      var q := DigitsEnd(s, digits);
      if q == digits then None else Some(q)
  }

  function Number(s: seq<byte>, p: nat): (q: Option<nat>)
    requires p <= |s|
    ensures q.Some? ==> p < q.value <= |s|
  {
    var whole := IntEnd(s, AfterMinus(s, p));
    if whole.None? then None
    else
      var frac := FracEnd(s, whole.value);
      if frac.None? then None else ExpEnd(s, frac.value)
  }

  // Past the opening quote: where the string ends, after its closing one.
  function Chars(s: seq<byte>, p: nat): (q: Option<nat>)
    requires p <= |s|
    ensures q.Some? ==> p < q.value <= |s|
    decreases |s| - p
  {
    if p == |s| then None
    else if s[p] == QUOTE then Some(p + 1)
    else if s[p] == BACKSLASH then
      if p + 1 == |s| then None
      else if s[p + 1] == LOWER_U then
        if p + 6 <= |s| && IsHex(s[p + 2]) && IsHex(s[p + 3]) && IsHex(s[p + 4]) && IsHex(s[p + 5])
        then Chars(s, p + 6) else None
      else if IsEscape(s[p + 1]) then Chars(s, p + 2) else None
    else if s[p] < 0x20 then None
    else Chars(s, p + 1)
  }

  function String(s: seq<byte>, p: nat): (q: Option<nat>)
    requires p <= |s|
    ensures q.Some? ==> p < q.value <= |s|
  {
    if At(s, p, QUOTE) then Chars(s, p + 1) else None
  }

  predicate StartsWith(s: seq<byte>, p: nat, word: seq<byte>) {
    p + |word| <= |s| && s[p..p + |word|] == word
  }

  function Word(s: seq<byte>, p: nat, word: seq<byte>): (q: Option<nat>)
    requires |word| > 0
    ensures q.Some? ==> p < q.value <= |s|
  {
    if StartsWith(s, p, word) then Some(p + |word|) else None
  }

  function Value(s: seq<byte>, p: nat, levels: int): (q: Option<nat>)
    requires p <= |s|
    ensures q.Some? ==> p < q.value <= |s| && levels >= 0
    decreases |s| - p, 1
  {
    if levels < 0 then None
    else if At(s, p, OPEN_OBJECT) then Container(s, p, levels, true)
    else if At(s, p, OPEN_ARRAY) then Container(s, p, levels, false)
    else if At(s, p, QUOTE) then String(s, p)
    else if At(s, p, TRUE[0]) then Word(s, p, TRUE)
    else if At(s, p, FALSE[0]) then Word(s, p, FALSE)
    else if At(s, p, NULL[0]) then Word(s, p, NULL)
    else Number(s, p)
  }

  function Container(s: seq<byte>, p: nat, levels: nat, keyed: bool): (q: Option<nat>)
    requires p < |s| && s[p] == Open(keyed)
    ensures q.Some? ==> p < q.value <= |s|
    decreases |s| - p, 0
  {
    var first := SkipWs(s, p + 1);
    if At(s, first, Close(keyed)) then Some(first + 1) else Items(s, p + 1, levels, keyed)
  }

  // An object member's key and colon, or nothing: where its value may start.
  function Key(s: seq<byte>, p: nat, keyed: bool): (q: Option<nat>)
    requires p <= |s|
    ensures q.Some? ==> p <= q.value <= |s|
  {
    if !keyed then Some(p)
    else
      var start := SkipWs(s, p);
      var key := String(s, start);
      if key.None? then None
      else
        var colon := SkipWs(s, key.value);
        if At(s, colon, COLON) then Some(colon + 1) else None
  }

  // One item and the whitespace after it.
  function Item(s: seq<byte>, p: nat, levels: nat, keyed: bool): (q: Option<nat>)
    requires p <= |s|
    ensures q.Some? ==> p < q.value <= |s|
    decreases |s| - p, 2
  {
    var key := Key(s, p, keyed);
    if key.None? then None
    else
      var start := SkipWs(s, key.value);
      var value := Value(s, start, levels - 1);
      if value.None? then None
      else
        Some(SkipWs(s, value.value))
  }

  function Items(s: seq<byte>, p: nat, levels: nat, keyed: bool): (q: Option<nat>)
    requires p <= |s|
    ensures q.Some? ==> p < q.value <= |s|
    decreases |s| - p, 3
  {
    var next := Item(s, p, levels, keyed);
    if next.None? then None
    else if At(s, next.value, Close(keyed)) then Some(next.value + 1)
    else if At(s, next.value, COMMA) then Items(s, next.value + 1, levels, keyed)
    else None
  }

  predicate IsValidJson(s: seq<byte>) {
    var value := Value(s, SkipWs(s, 0), MAX_DEPTH);
    value.Some? && SkipWs(s, value.value) == |s|
  }

  // ----------------------------------------------------------------- soundness

  lemma {:induction false} WsSkipped(s: seq<byte>, p: nat)
    requires p <= |s|
    ensures var q := SkipWs(s, p);
      AllWs(s, p, q) && (q < |s| ==> !IsWs(s[q]))
    decreases |s| - p
  {
    if p < |s| && IsWs(s[p]) { WsSkipped(s, p + 1); }
  }

  lemma {:induction false} DigitsRead(s: seq<byte>, p: nat)
    requires p <= |s|
    ensures p < DigitsEnd(s, p) ==> IsDigits(s, p, DigitsEnd(s, p))
    decreases |s| - p
  {
    if p < |s| && IsDigit(s[p]) { DigitsRead(s, p + 1); }
  }

  lemma NumberSound(s: seq<byte>, p: nat)
    requires p <= |s| && Number(s, p).Some?
    ensures IsNumber(s, p, Number(s, p).value)
  {
    var first := AfterMinus(s, p);
    var j := IntEnd(s, first).value;
    DigitsRead(s, first);
    var k := FracEnd(s, j).value;
    if j < k { DigitsRead(s, j + 1); }
    var q := ExpEnd(s, k).value;
    if k < q { DigitsRead(s, AfterSign(s, k + 1)); }
    assert IsNumberAt(s, p, j, k, q);
  }

  lemma {:induction false} CharsSound(s: seq<byte>, p: nat)
    requires p <= |s| && Chars(s, p).Some?
    ensures var q := Chars(s, p).value;
      s[q - 1] == QUOTE && IsChars(s, p, q - 1)
    decreases |s| - p
  {
    if s[p] == BACKSLASH {
      CharsSound(s, if s[p + 1] == LOWER_U then p + 6 else p + 2);
    } else if s[p] != QUOTE {
      CharsSound(s, p + 1);
    }
  }

  lemma StringSound(s: seq<byte>, p: nat)
    requires p <= |s| && String(s, p).Some?
    ensures IsString(s, p, String(s, p).value)
  {
    CharsSound(s, p + 1);
  }

  lemma KeySound(s: seq<byte>, p: nat)
    requires p <= |s| && Key(s, p, true).Some?
    ensures var q := Key(s, p, true).value;
      p < q && s[q - 1] == COLON && IsPaddedString(s, p, q - 1)
  {
    var start := SkipWs(s, p);
    WsSkipped(s, p);
    StringSound(s, start);
    WsSkipped(s, String(s, start).value);
  }

  lemma {:induction false} ValueSound(s: seq<byte>, p: nat, levels: nat)
    requires p <= |s| && Value(s, p, levels).Some?
    ensures IsValue(s, p, Value(s, p, levels).value, levels)
    decreases |s| - p, 1
  {
    if At(s, p, OPEN_OBJECT) {
      ContainerSound(s, p, levels, true);
    } else if At(s, p, OPEN_ARRAY) {
      ContainerSound(s, p, levels, false);
    } else if At(s, p, QUOTE) {
      StringSound(s, p);
    } else if !At(s, p, TRUE[0]) && !At(s, p, FALSE[0]) && !At(s, p, NULL[0]) {
      NumberSound(s, p);
    }
  }

  lemma {:induction false} ContainerSound(s: seq<byte>, p: nat, levels: nat, keyed: bool)
    requires At(s, p, Open(keyed)) && Container(s, p, levels, keyed).Some?
    ensures IsContainer(s, p, Container(s, p, levels, keyed).value, levels, keyed)
    decreases |s| - p, 0
  {
    WsSkipped(s, p + 1);
    if !At(s, SkipWs(s, p + 1), Close(keyed)) {
      ItemsEnd(s, p + 1, Container(s, p, levels, keyed).value, levels, keyed);
      ItemsSound(s, p + 1, Container(s, p, levels, keyed).value, levels, keyed);
    }
  }

  // Whitespace, a value and whitespace are read from `p` to `q`.
  predicate ReadsPadded(s: seq<byte>, p: nat, q: nat, levels: int)
    requires p <= |s|
  {
    var value := Value(s, SkipWs(s, p), levels);
    value.Some? && SkipWs(s, value.value) == q
  }

  lemma ItemReads(s: seq<byte>, p: nat, q: nat, levels: nat, keyed: bool)
    requires p <= |s|
    ensures Item(s, p, levels, keyed) == Some(q) <==>
      Key(s, p, keyed).Some? && ReadsPadded(s, Key(s, p, keyed).value, q, levels - 1)
    ensures Item(s, p, levels, keyed) == Some(q) ==> levels > 0 && p < q <= |s|
  {
  }

  lemma {:induction false} PaddedSound(s: seq<byte>, p: nat, q: nat, levels: nat)
    requires p <= |s| && ReadsPadded(s, p, q, levels)
    ensures p < q <= |s| && IsPadded(s, p, q, levels)
    decreases |s| - p, 2
  {
    var start := SkipWs(s, p);
    WsSkipped(s, p);
    ValueSound(s, start, levels);
    WsSkipped(s, Value(s, start, levels).value);
  }

  lemma {:induction false} MemberSound(s: seq<byte>, p: nat, next: nat, levels: nat)
    requires p <= |s| && Key(s, p, true).Some? && levels > 0
    requires ReadsPadded(s, Key(s, p, true).value, next, levels - 1)
    ensures p < next <= |s| && IsItem(s, p, next, levels, true)
    decreases |s| - p, 3
  {
    var key := Key(s, p, true).value;
    KeySound(s, p);
    PaddedSound(s, key, next, levels - 1);
    assert IsMember(s, p, key - 1, next, levels);
  }

  lemma {:induction false} ItemSound(s: seq<byte>, p: nat, next: nat, levels: nat, keyed: bool)
    requires p <= |s| && Item(s, p, levels, keyed) == Some(next)
    ensures IsItem(s, p, next, levels, keyed)
    decreases |s| - p, 4
  {
    ItemReads(s, p, next, levels, keyed);
    if keyed { MemberSound(s, p, next, levels); } else { PaddedSound(s, p, next, levels - 1); }
  }

  lemma {:induction false} ItemsEnd(s: seq<byte>, p: nat, q: nat, levels: nat, keyed: bool)
    requires p <= |s| && Items(s, p, levels, keyed) == Some(q)
    ensures p < q <= |s| && s[q - 1] == Close(keyed)
    decreases |s| - p
  {
    var next := ItemsCases(s, p, q, levels, keyed);
    if s[next] != Close(keyed) { ItemsEnd(s, next + 1, q, levels, keyed); }
  }

  lemma {:induction false} ItemsSound(s: seq<byte>, p: nat, q: nat, levels: nat, keyed: bool)
    requires p < q <= |s| && Items(s, p, levels, keyed) == Some(q)
    ensures IsItems(s, p, q - 1, levels, keyed)
    decreases |s| - p, 6
  {
    var next := ItemsCases(s, p, q, levels, keyed);
    ItemSound(s, p, next, levels, keyed);
    if s[next] == Close(keyed) {
      LastItem(s, p, q - 1, levels, keyed);
    } else {
      MoreItemsSound(s, p, next, q, levels, keyed);
    }
  }

  lemma {:induction false} MoreItemsSound(s: seq<byte>, p: nat, i: nat, q: nat, levels: nat, keyed: bool)
    requires p <= i < q <= |s| && s[i] == COMMA && IsItem(s, p, i, levels, keyed)
    requires Items(s, i + 1, levels, keyed) == Some(q)
    ensures IsItems(s, p, q - 1, levels, keyed)
    decreases |s| - p, 5
  {
    ItemsEnd(s, i + 1, q, levels, keyed);
    ItemsSound(s, i + 1, q, levels, keyed);
    MoreItems(s, p, i, q - 1, levels, keyed);
  }

  // What was read as items: one, and the closing bracket; or one, a comma, and more.
  lemma ItemsCases(s: seq<byte>, p: nat, q: nat, levels: nat, keyed: bool) returns (next: nat)
    requires p <= |s| && Items(s, p, levels, keyed) == Some(q)
    ensures p <= next < q <= |s| && Item(s, p, levels, keyed) == Some(next)
    ensures s[next] == Close(keyed) ==> q == next + 1
    ensures s[next] != Close(keyed) ==> s[next] == COMMA && Items(s, next + 1, levels, keyed) == Some(q)
  {
    next := Item(s, p, levels, keyed).value;
  }

  lemma LastItem(s: seq<byte>, p: nat, q: nat, levels: nat, keyed: bool)
    requires Range(s, p, q) && IsItem(s, p, q, levels, keyed)
    ensures IsItems(s, p, q, levels, keyed)
  {
  }

  lemma {:induction false} MoreItems(s: seq<byte>, p: nat, i: nat, q: nat, levels: nat, keyed: bool)
    requires Range(s, p, q) && p <= i < q && s[i] == COMMA
    requires IsItem(s, p, i, levels, keyed) && IsItems(s, i + 1, q, levels, keyed)
    ensures IsItems(s, p, q, levels, keyed)
  {
    assert IsItemThenItems(s, p, i, q, levels, keyed);
  }

  // -------------------------------------------------------------- completeness

  // What can come after a value inside a text.
  predicate Stops(s: seq<byte>, q: nat) {
    q == |s| || (q < |s| && (IsWs(s[q]) || s[q] == COMMA || s[q] == CLOSE_ARRAY || s[q] == CLOSE_OBJECT))
  }

  lemma SkipsTo(s: seq<byte>, p: nat, q: nat)
    requires Range(s, p, q) && AllWs(s, p, q) && (q < |s| ==> !IsWs(s[q]))
    ensures SkipWs(s, p) == q
    decreases q - p
  {
    if p < q { SkipsTo(s, p + 1, q); }
  }

  lemma DigitsEndAt(s: seq<byte>, p: nat, q: nat)
    requires Range(s, p, q) && IsDigits(s, p, q) && (q < |s| ==> !IsDigit(s[q]))
    ensures DigitsEnd(s, p) == q
    decreases q - p
  {
    if p + 1 < q { DigitsEndAt(s, p + 1, q); }
  }

  lemma IntFound(s: seq<byte>, p: nat, q: nat)
    requires Range(s, p, q) && IsInt(s, p, q) && (q < |s| ==> !IsDigit(s[q]))
    ensures IntEnd(s, p) == Some(q)
  {
    if s[p] != ZERO { DigitsEndAt(s, p, q); }
  }

  lemma FracFound(s: seq<byte>, p: nat, q: nat)
    requires Range(s, p, q) && (if p == q then !At(s, p, POINT) else IsFrac(s, p, q))
    requires q < |s| ==> !IsDigit(s[q])
    ensures FracEnd(s, p) == Some(q)
  {
    if p < q { DigitsEndAt(s, p + 1, q); }
  }

  lemma ExpFound(s: seq<byte>, p: nat, q: nat)
    requires Range(s, p, q) && (if p == q then p == |s| || !IsE(s[p]) else IsExp(s, p, q))
    requires q < |s| ==> !IsDigit(s[q])
    ensures ExpEnd(s, p) == Some(q)
  {
    if p < q { DigitsEndAt(s, AfterSign(s, p + 1), q); }
  }

  // No byte that ends one part of a number could go on with it.
  lemma NumberParts(s: seq<byte>, p: nat, j: nat, k: nat, q: nat)
    requires Range(s, p, q) && IsNumberAt(s, p, j, k, q) && Stops(s, q)
    ensures AfterMinus(s, p) <= j <= k <= q
    ensures (j < |s| ==> !IsDigit(s[j])) && (k < |s| ==> !IsDigit(s[k])) && (q < |s| ==> !IsDigit(s[q]))
    ensures IsInt(s, AfterMinus(s, p), j)
    ensures if j == k then !At(s, j, POINT) else IsFrac(s, j, k)
    ensures if k == q then k == |s| || !IsE(s[k]) else IsExp(s, k, q)
  {
  }

  lemma NumberFound(s: seq<byte>, p: nat, q: nat)
    requires Range(s, p, q) && IsNumber(s, p, q) && Stops(s, q)
    ensures Number(s, p) == Some(q)
  {
    var j: nat, k: nat :| IsNumberAt(s, p, j, k, q);
    NumberParts(s, p, j, k, q);
    IntFound(s, AfterMinus(s, p), j);
    FracFound(s, j, k);
    ExpFound(s, k, q);
  }

  lemma CharsFound(s: seq<byte>, p: nat, q: nat)
    requires p < q <= |s| && IsChars(s, p, q - 1) && s[q - 1] == QUOTE
    ensures Chars(s, p) == Some(q)
    decreases q - p
  {
    if p < q - 1 {
      if IsPlain(s[p]) { CharsFound(s, p + 1, q); }
      else if IsEscape(s[p + 1]) { CharsFound(s, p + 2, q); }
      else { CharsFound(s, p + 6, q); }
    }
  }

  lemma StringFound(s: seq<byte>, p: nat, q: nat)
    requires Range(s, p, q) && IsString(s, p, q)
    ensures String(s, p) == Some(q)
  {
    CharsFound(s, p + 1, q);
  }

  lemma WordFound(s: seq<byte>, p: nat, q: nat, word: seq<byte>)
    requires Range(s, p, q) && IsWord(s, p, q, word) && |word| > 0
    ensures Word(s, p, word) == Some(q) && At(s, p, word[0])
  {
    assert s[p..q][0] == s[p];
  }

  // A value's first byte tells it from whitespace and from any closing bracket.
  lemma ValueStarts(s: seq<byte>, p: nat, q: nat, levels: nat)
    requires Range(s, p, q) && IsValue(s, p, q, levels)
    ensures p < q && !IsWs(s[p]) && s[p] != CLOSE_ARRAY && s[p] != CLOSE_OBJECT && s[p] != COMMA
  {
    if IsWord(s, p, q, TRUE) { WordFound(s, p, q, TRUE); }
    else if IsWord(s, p, q, FALSE) { WordFound(s, p, q, FALSE); }
    else if IsWord(s, p, q, NULL) { WordFound(s, p, q, NULL); }
    else if IsNumber(s, p, q) { NumberStarts(s, p, q); }
  }

  lemma NumberStarts(s: seq<byte>, p: nat, q: nat)
    requires Range(s, p, q) && IsNumber(s, p, q)
    ensures p < q && (s[p] == MINUS || IsDigit(s[p]))
  {
    var j: nat, k: nat :| IsNumberAt(s, p, j, k, q);
  }

  lemma {:induction false} ValueFound(s: seq<byte>, p: nat, q: nat, levels: nat)
    requires Range(s, p, q)
    requires IsValue(s, p, q, levels) && Stops(s, q)
    ensures Value(s, p, levels) == Some(q)
    decreases q - p, 1
  {
    ValueStarts(s, p, q, levels);
    if IsWord(s, p, q, TRUE) { WordFound(s, p, q, TRUE); }
    else if IsWord(s, p, q, FALSE) { WordFound(s, p, q, FALSE); }
    else if IsWord(s, p, q, NULL) { WordFound(s, p, q, NULL); }
    else if IsNumber(s, p, q) { NumberStarts(s, p, q); NumberFound(s, p, q); }
    else if IsString(s, p, q) { StringFound(s, p, q); }
    else if IsContainer(s, p, q, levels, false) { ContainerFound(s, p, q, levels, false); }
    else { ContainerFound(s, p, q, levels, true); }
  }

  lemma {:induction false} ContainerFound(s: seq<byte>, p: nat, q: nat, levels: nat, keyed: bool)
    requires Range(s, p, q)
    requires IsContainer(s, p, q, levels, keyed)
    ensures Container(s, p, levels, keyed) == Some(q)
    decreases q - p, 0
  {
    if AllWs(s, p + 1, q - 1) {
      SkipsTo(s, p + 1, q - 1);
    } else {
      ItemsFound(s, p + 1, q - 1, levels, keyed);
      ItemsStart(s, p + 1, q - 1, levels, keyed);
    }
  }

  // Items do not begin with the closing bracket.
  lemma ItemsStart(s: seq<byte>, p: nat, q: nat, levels: nat, keyed: bool)
    requires Range(s, p, q) && IsItems(s, p, q, levels, keyed)
    ensures SkipWs(s, p) < q && s[SkipWs(s, p)] != Close(keyed)
  {
    if IsItem(s, p, q, levels, keyed) {
      ItemStarts(s, p, q, levels, keyed);
    } else {
      var i :| p <= i < q && IsItemThenItems(s, p, i, q, levels, keyed);
      ItemStarts(s, p, i, levels, keyed);
    }
  }

  lemma ItemStarts(s: seq<byte>, p: nat, q: nat, levels: nat, keyed: bool)
    requires Range(s, p, q) && IsItem(s, p, q, levels, keyed)
    ensures SkipWs(s, p) < q && s[SkipWs(s, p)] != Close(keyed)
  {
    if keyed {
      var i :| p <= i < q && IsMember(s, p, i, q, levels);
      var a, b :| p <= a <= b <= i && AllWs(s, p, a) && IsString(s, a, b) && AllWs(s, b, i);
      SkipsTo(s, p, a);
    } else {
      var a, b :| p <= a <= b <= q && AllWs(s, p, a) && IsValue(s, a, b, levels - 1) && AllWs(s, b, q);
      ValueStarts(s, a, b, levels - 1);
      SkipsTo(s, p, a);
    }
  }

  lemma KeyFound(s: seq<byte>, p: nat, colon: nat)
    requires p <= colon < |s| && s[colon] == COLON && IsPaddedString(s, p, colon)
    ensures Key(s, p, true) == Some(colon + 1)
  {
    var a, b :| p <= a <= b <= colon && AllWs(s, p, a) && IsString(s, a, b) && AllWs(s, b, colon);
    SkipsTo(s, p, a);
    StringFound(s, a, b);
    SkipsTo(s, b, colon);
  }

  lemma {:induction false} PaddedFound(s: seq<byte>, p: nat, q: nat, levels: nat)
    requires Range(s, p, q) && IsPadded(s, p, q, levels)
    requires Stops(s, q) && (q < |s| ==> !IsWs(s[q]))
    ensures ReadsPadded(s, p, q, levels)
    decreases q - p, 2
  {
    var a, b :| p <= a <= b <= q && AllWs(s, p, a) && IsValue(s, a, b, levels) && AllWs(s, b, q);
    ValueStarts(s, a, b, levels);
    SkipsTo(s, p, a);
    ValueFound(s, a, b, levels);
    SkipsTo(s, b, q);
  }

  lemma {:induction false} MemberFound(s: seq<byte>, p: nat, i: nat, q: nat, levels: nat)
    requires Range(s, p, q) && p <= i < q && levels > 0 && IsMember(s, p, i, q, levels)
    requires q < |s| && Stops(s, q) && !IsWs(s[q])
    ensures Item(s, p, levels, true) == Some(q)
    decreases q - p, 3
  {
    KeyFound(s, p, i);
    PaddedFound(s, i + 1, q, levels - 1);
    ItemReads(s, p, q, levels, true);
  }

  lemma {:induction false} ElementFound(s: seq<byte>, p: nat, q: nat, levels: nat)
    requires Range(s, p, q) && levels > 0 && IsPadded(s, p, q, levels - 1)
    requires q < |s| && Stops(s, q) && !IsWs(s[q])
    ensures Item(s, p, levels, false) == Some(q)
    decreases q - p, 3
  {
    PaddedFound(s, p, q, levels - 1);
    ItemReads(s, p, q, levels, false);
  }

  // An item up to `q`, a comma or a closing bracket, is read to exactly there.
  lemma {:induction false} ItemFound(s: seq<byte>, p: nat, q: nat, levels: nat, keyed: bool)
    requires Range(s, p, q) && IsItem(s, p, q, levels, keyed)
    requires q < |s| && Stops(s, q) && !IsWs(s[q])
    ensures Item(s, p, levels, keyed) == Some(q)
    decreases q - p, 4
  {
    if keyed {
      var i :| p <= i < q && IsMember(s, p, i, q, levels);
      MemberFound(s, p, i, q, levels);
    } else {
      ElementFound(s, p, q, levels);
    }
  }

  lemma {:induction false} ItemThenItemsFound(s: seq<byte>, p: nat, i: nat, q: nat, levels: nat, keyed: bool)
    requires Range(s, p, q) && p <= i < q && IsItemThenItems(s, p, i, q, levels, keyed)
    requires At(s, q, Close(keyed))
    ensures Items(s, p, levels, keyed) == Some(q + 1)
    decreases q - p, 5
  {
    assert Item(s, p, levels, keyed) == Some(i) by { ItemFound(s, p, i, levels, keyed); }
    assert Items(s, i + 1, levels, keyed) == Some(q + 1) by { ItemsFound(s, i + 1, q, levels, keyed); }
  }

  lemma {:induction false} ItemsFound(s: seq<byte>, p: nat, q: nat, levels: nat, keyed: bool)
    requires Range(s, p, q) && IsItems(s, p, q, levels, keyed)
    requires At(s, q, Close(keyed))
    ensures Items(s, p, levels, keyed) == Some(q + 1)
    decreases q - p, 6
  {
    if IsItem(s, p, q, levels, keyed) {
      ItemFound(s, p, q, levels, keyed);
    } else {
      var i :| p <= i < q && IsItemThenItems(s, p, i, q, levels, keyed);
      ItemThenItemsFound(s, p, i, q, levels, keyed);
    }
  }

  /** Sound and complete: the recogniser accepts a byte string exactly when it is a
      JSON text whose values nest at most 64 levels below the top one. */
  lemma AcceptsExactlyJson(s: seq<byte>)
    ensures IsValidJson(s) <==> IsText(s)
  {
    if IsText(s) {
      PaddedFound(s, 0, |s|, MAX_DEPTH);
    }
    if IsValidJson(s) {
      PaddedSound(s, 0, |s|, MAX_DEPTH);
    }
  }

  // ------------------------------------------------------ the parser, in place

  class Parser {
    const bytes: seq<byte>
    var pos: nat

    constructor (bytes: seq<byte>)
      ensures this.bytes == bytes && pos == 0
    {
      this.bytes := bytes;
      pos := 0;
    }

    function Peek(): Option<byte>
      reads this
    {
      if pos < |bytes| then Some(bytes[pos]) else None
    }

    // The outcome of a reading function at the old position, as a position moved.
    twostate predicate Follows(ok: bool, q: Option<nat>)
      reads this
    {
      old(pos) <= pos <= |bytes| && (ok <==> q.Some?) && (ok ==> pos == q.value)
    }

    method Eat(b: byte) returns (hit: bool)
      requires pos <= |bytes|
      modifies this
      ensures hit == At(bytes, old(pos), b) && pos == if hit then old(pos) + 1 else old(pos)
    {
      hit := Peek() == Some(b);
      if hit {
        pos := pos + 1;
      }
    }

    method SkipSpace()
      requires pos <= |bytes|
      modifies this
      ensures pos == SkipWs(bytes, old(pos))
    {
      while pos < |bytes| && IsWs(bytes[pos])
        invariant old(pos) <= pos <= |bytes| && SkipWs(bytes, pos) == SkipWs(bytes, old(pos))
        decreases |bytes| - pos
      {
        pos := pos + 1;
      }
    }

    method ReadValue(depth: nat) returns (ok: bool)
      requires pos <= |bytes|
      modifies this
      ensures Follows(ok, Value(bytes, old(pos), MAX_DEPTH - depth))
      decreases |bytes| - pos, 1
    {
      if depth > MAX_DEPTH {
        return false;
      }
      var next := Peek();
      if next == Some(OPEN_OBJECT) {
        ok := ReadContainer(depth, true);
      } else if next == Some(OPEN_ARRAY) {
        ok := ReadContainer(depth, false);
      } else if next == Some(QUOTE) {
        ok := ReadString();
      } else if next == Some(TRUE[0]) {
        ok := ReadLiteral(TRUE);
      } else if next == Some(FALSE[0]) {
        ok := ReadLiteral(FALSE);
      } else if next == Some(NULL[0]) {
        ok := ReadLiteral(NULL);
      } else {
        ok := ReadNumber();
      }
    }

    method ReadContainer(depth: nat, keyed: bool) returns (ok: bool)
      requires At(bytes, pos, Open(keyed)) && depth <= MAX_DEPTH
      modifies this
      ensures Follows(ok, Container(bytes, old(pos), MAX_DEPTH - depth, keyed))
      decreases |bytes| - pos, 0
    {
      ItemsAfterWs(bytes, pos + 1, MAX_DEPTH - depth, keyed);
      pos := pos + 1;
      SkipSpace();
      var hit := Eat(Close(keyed));
      if hit {
        return true;
      }
      ok := ReadItems(depth, keyed);
    }

    // The container's loop: items and commas up to the closing bracket.
    method ReadItems(depth: nat, keyed: bool) returns (ok: bool)
      requires pos <= |bytes| && depth <= MAX_DEPTH
      modifies this
      ensures Follows(ok, Items(bytes, old(pos), MAX_DEPTH - depth, keyed))
      decreases |bytes| - pos, 5
    {
      ghost var all := Items(bytes, pos, MAX_DEPTH - depth, keyed);
      var more := true;
      while more
        invariant old(pos) <= pos <= |bytes|
        invariant if more then all == Items(bytes, pos, MAX_DEPTH - depth, keyed) else all == Some(pos)
        decreases more, |bytes| - pos
      {
        ok, more := ReadItemAndNext(depth, keyed);
        if !ok {
          return;
        }
      }
      ok := true;
    }

    // One round of it: an item, then the closing bracket, or a comma and more to read.
    method ReadItemAndNext(depth: nat, keyed: bool) returns (ok: bool, more: bool)
      requires pos <= |bytes| && depth <= MAX_DEPTH
      modifies this
      ensures old(pos) <= pos <= |bytes|
      ensures var all := Items(bytes, old(pos), MAX_DEPTH - depth, keyed);
        if !ok then all.None?
        else if more then old(pos) < pos && all == Items(bytes, pos, MAX_DEPTH - depth, keyed)
        else all == Some(pos)
      decreases |bytes| - pos, 4
    {
      more := false;
      ok := ReadItem(depth, keyed);
      if ok {
        var hit := Eat(Close(keyed));
        if !hit {
          ok := Eat(COMMA);
          more := ok;
        }
      }
    }

    method ReadItem(depth: nat, keyed: bool) returns (ok: bool)
      requires pos <= |bytes| && depth <= MAX_DEPTH
      modifies this
      ensures Follows(ok, Item(bytes, old(pos), MAX_DEPTH - depth, keyed))
      decreases |bytes| - pos, 2
    {
      ok := ReadKey(keyed);
      if ok {
        SkipSpace();
        ok := ReadValue(depth + 1);
      }
      if ok {
        SkipSpace();
      }
    }

    method ReadKey(keyed: bool) returns (ok: bool)
      requires pos <= |bytes|
      modifies this
      ensures Follows(ok, Key(bytes, old(pos), keyed))
    {
      if !keyed {
        return true;
      }
      SkipSpace();
      ok := ReadString();
      if ok {
        SkipSpace();
        ok := Eat(COLON);
      }
    }

    method ReadString() returns (ok: bool)
      requires pos <= |bytes|
      modifies this
      ensures Follows(ok, String(bytes, old(pos)))
    {
      var hit := Eat(QUOTE);
      if !hit {
        return false;
      }
      while pos < |bytes|
        invariant old(pos) < pos <= |bytes|
        invariant String(bytes, old(pos)) == Chars(bytes, pos)
        decreases |bytes| - pos
      {
        var b := bytes[pos];
        pos := pos + 1;
        if b == QUOTE {
          return true;
        } else if b == BACKSLASH {
          if pos == |bytes| {
            return false;
          }
          var esc := bytes[pos];
          pos := pos + 1;
          if esc == LOWER_U {
            if pos + 4 > |bytes| || !(IsHex(bytes[pos]) && IsHex(bytes[pos + 1])
                                      && IsHex(bytes[pos + 2]) && IsHex(bytes[pos + 3])) {
              return false;
            }
            pos := pos + 4;
          } else if !IsEscape(esc) {
            return false;
          }
        } else if b < 0x20 {
          return false;
        }
      }
      return false;
    }

    method ReadLiteral(word: seq<byte>) returns (hit: bool)
      requires pos <= |bytes| && |word| > 0
      modifies this
      ensures Follows(hit, Word(bytes, old(pos), word))
    {
      hit := StartsWith(bytes, pos, word);
      if hit {
        pos := pos + |word|;
      }
    }

    method ReadDigits() returns (n: nat)
      requires pos <= |bytes|
      modifies this
      ensures pos == DigitsEnd(bytes, old(pos)) && n == pos - old(pos)
    {
      var start := pos;
      while pos < |bytes| && IsDigit(bytes[pos])
        invariant start <= pos <= |bytes| && DigitsEnd(bytes, pos) == DigitsEnd(bytes, start)
        decreases |bytes| - pos
      {
        pos := pos + 1;
      }
      return pos - start;
    }

    method ReadInt() returns (ok: bool)
      requires pos <= |bytes|
      modifies this
      ensures Follows(ok, IntEnd(bytes, old(pos)))
    {
      var zero := Eat(ZERO);
      if zero {
        return true;
      }
      var n := ReadDigits();
      return n != 0;
    }

    method ReadFrac() returns (ok: bool)
      requires pos <= |bytes|
      modifies this
      ensures Follows(ok, FracEnd(bytes, old(pos)))
    {
      var point := Eat(POINT);
      if !point {
        return true;
      }
      var n := ReadDigits();
      return n != 0;
    }

    method ReadExp() returns (ok: bool)
      requires pos <= |bytes|
      modifies this
      ensures Follows(ok, ExpEnd(bytes, old(pos)))
    {
      var exp := Eat(0x65);
      if !exp {
        exp := Eat(0x45);
      }
      if !exp {
        return true;
      }
      var sign := Eat(PLUS);
      if !sign {
        sign := Eat(MINUS);
      }
      var n := ReadDigits();
      return n != 0;
    }

    method ReadNumber() returns (ok: bool)
      requires pos <= |bytes|
      modifies this
      ensures Follows(ok, Number(bytes, old(pos)))
    {
      var minus := Eat(MINUS);
      ok := ReadInt();
      if ok {
        ok := ReadFrac();
      }
      if ok {
        ok := ReadExp();
      }
    }
  }

  // Whitespace before the first item may be skipped twice.
  lemma ItemsAfterWs(s: seq<byte>, p: nat, levels: nat, keyed: bool)
    requires p <= |s|
    ensures Items(s, SkipWs(s, p), levels, keyed) == Items(s, p, levels, keyed)
  {
    WsSkipped(s, p);
    SkipsTo(s, SkipWs(s, p), SkipWs(s, p));
  }

  /** The check as it runs, on any byte string: it ends, and its answer is whether
      the bytes are a JSON text. */
  method CheckJson(s: seq<byte>) returns (ok: bool)
    ensures ok <==> IsText(s)
  {
    var parser := new Parser(s);
    parser.SkipSpace();
    ok := parser.ReadValue(0);
    parser.SkipSpace();
    ok := ok && parser.pos == |s|;
    AcceptsExactlyJson(s);
  }
}
