/**
 * The JSON texts of RFC 8259, sections 2 to 7, as predicates on stretches of a
 * byte string: `s[p..q]` is a value, a string, a number, and so on. This is the
 * reference the recogniser is judged by; it knows nothing of how one parses.
 */
module JsonGrammar {
  import opened Wrappers

  const MAX_DEPTH: nat := 64

  const QUOTE: byte := 0x22
  const COMMA: byte := 0x2C
  const COLON: byte := 0x3A
  const MINUS: byte := 0x2D
  const PLUS: byte := 0x2B
  const POINT: byte := 0x2E
  const ZERO: byte := 0x30
  const BACKSLASH: byte := 0x5C
  const OPEN_ARRAY: byte := 0x5B
  const CLOSE_ARRAY: byte := 0x5D
  const OPEN_OBJECT: byte := 0x7B
  const CLOSE_OBJECT: byte := 0x7D
  const LOWER_U: byte := 0x75

  const TRUE: seq<byte> := [0x74, 0x72, 0x75, 0x65]
  const FALSE: seq<byte> := [0x66, 0x61, 0x6C, 0x73, 0x65]
  const NULL: seq<byte> := [0x6E, 0x75, 0x6C, 0x6C]

  predicate IsWs(b: byte) {
    b == 0x20 || b == 0x09 || b == 0x0A || b == 0x0D
  }

  predicate IsDigit(b: byte) {
    0x30 <= b <= 0x39
  }

  predicate IsHex(b: byte) {
    IsDigit(b) || 0x41 <= b <= 0x46 || 0x61 <= b <= 0x66
  }

  predicate IsE(b: byte) {
    b == 0x65 || b == 0x45
  }

  // What may follow a backslash, other than `u` and its four digits.
  predicate IsEscape(b: byte) {
    b in [QUOTE, BACKSLASH, 0x2F, 0x62, 0x66, 0x6E, 0x72, 0x74]
  }

  // `unescaped`, byte by byte: anything but a quote, a backslash or a control.
  predicate IsPlain(b: byte) {
    b >= 0x20 && b != QUOTE && b != BACKSLASH
  }

  ghost predicate Range(s: seq<byte>, p: nat, q: nat) {
    p <= q <= |s|
  }

  ghost predicate AllWs(s: seq<byte>, p: nat, q: nat)
    requires Range(s, p, q)
  {
    forall i | p <= i < q :: IsWs(s[i])
  }

  // 1*DIGIT
  ghost predicate IsDigits(s: seq<byte>, p: nat, q: nat)
    requires Range(s, p, q)
  {
    p < q && forall i | p <= i < q :: IsDigit(s[i])
  }

  // zero / ( digit1-9 *DIGIT )
  ghost predicate IsInt(s: seq<byte>, p: nat, q: nat)
    requires Range(s, p, q)
  {
    IsDigits(s, p, q) && (s[p] == ZERO ==> q == p + 1)
  }

  ghost predicate IsFrac(s: seq<byte>, p: nat, q: nat)
    requires Range(s, p, q)
  {
    p < q && s[p] == POINT && IsDigits(s, p + 1, q)
  }

  ghost predicate IsExp(s: seq<byte>, p: nat, q: nat)
    requires Range(s, p, q)
  {
    && p + 1 < q && IsE(s[p])
    && (IsDigits(s, p + 1, q) || ((s[p + 1] == PLUS || s[p + 1] == MINUS) && IsDigits(s, p + 2, q)))
  }

  function AfterMinus(s: seq<byte>, p: nat): nat {
    if p < |s| && s[p] == MINUS then p + 1 else p
  }

  // [ minus ] int [ frac ] [ exp ], split at `j` and `k`
  ghost predicate IsNumberAt(s: seq<byte>, p: nat, j: nat, k: nat, q: nat)
    requires Range(s, p, q)
  {
    && AfterMinus(s, p) <= j <= k <= q
    && IsInt(s, AfterMinus(s, p), j)
    && (j == k || IsFrac(s, j, k))
    && (k == q || IsExp(s, k, q))
  }

  ghost predicate IsNumber(s: seq<byte>, p: nat, q: nat)
    requires Range(s, p, q)
  {
    exists j: nat, k: nat :: IsNumberAt(s, p, j, k, q)
  }

  // *char
  ghost predicate IsChars(s: seq<byte>, p: nat, q: nat)
    requires Range(s, p, q)
    decreases q - p
  {
    || p == q
    || (IsPlain(s[p]) && IsChars(s, p + 1, q))
    || (p + 2 <= q && s[p] == BACKSLASH && IsEscape(s[p + 1]) && IsChars(s, p + 2, q))
    || (p + 6 <= q && s[p] == BACKSLASH && s[p + 1] == LOWER_U
        && IsHex(s[p + 2]) && IsHex(s[p + 3]) && IsHex(s[p + 4]) && IsHex(s[p + 5])
        && IsChars(s, p + 6, q))
  }

  ghost predicate IsString(s: seq<byte>, p: nat, q: nat)
    requires Range(s, p, q)
  {
    p + 2 <= q && s[p] == QUOTE && s[q - 1] == QUOTE && IsChars(s, p + 1, q - 1)
  }

  ghost predicate IsWord(s: seq<byte>, p: nat, q: nat, word: seq<byte>)
    requires Range(s, p, q)
  {
    s[p..q] == word
  }

  // The opening and closing bytes of an object (`keyed`) or an array.
  function Open(keyed: bool): byte {
    if keyed then OPEN_OBJECT else OPEN_ARRAY
  }

  function Close(keyed: bool): byte {
    if keyed then CLOSE_OBJECT else CLOSE_ARRAY
  }

  /** A value with at most `levels` levels of values inside one another below it. */
  ghost predicate IsValue(s: seq<byte>, p: nat, q: nat, levels: nat)
    requires Range(s, p, q)
    decreases q - p, 1
  {
    || IsWord(s, p, q, TRUE) || IsWord(s, p, q, FALSE) || IsWord(s, p, q, NULL)
    || IsNumber(s, p, q)
    || IsString(s, p, q)
    || IsContainer(s, p, q, levels, false)
    || IsContainer(s, p, q, levels, true)
  }

  ghost predicate IsContainer(s: seq<byte>, p: nat, q: nat, levels: nat, keyed: bool)
    requires Range(s, p, q)
    decreases q - p, 0
  {
    && p + 2 <= q && s[p] == Open(keyed) && s[q - 1] == Close(keyed)
    && (AllWs(s, p + 1, q - 1) || IsItems(s, p + 1, q - 1, levels, keyed))
  }

  // item *( value-separator item )
  ghost predicate IsItems(s: seq<byte>, p: nat, q: nat, levels: nat, keyed: bool)
    requires Range(s, p, q)
    decreases q - p, 4
  {
    || IsItem(s, p, q, levels, keyed)
    || exists i | p <= i < q :: IsItemThenItems(s, p, i, q, levels, keyed)
  }

  // An item, the comma at `i`, and more items.
  ghost predicate IsItemThenItems(s: seq<byte>, p: nat, i: nat, q: nat, levels: nat, keyed: bool)
    requires Range(s, p, q) && p <= i < q
    decreases q - p, 3
  {
    s[i] == COMMA && IsItem(s, p, i, levels, keyed) && IsItems(s, i + 1, q, levels, keyed)
  }

  // An array's element, or an object's member, with the whitespace around it.
  ghost predicate IsItem(s: seq<byte>, p: nat, q: nat, levels: nat, keyed: bool)
    requires Range(s, p, q)
    decreases q - p, 3
  {
    && levels > 0
    && if keyed
       then exists i | p <= i < q :: IsMember(s, p, i, q, levels)
       else IsPadded(s, p, q, levels - 1)
  }

  // A key, the colon at `i`, and a value.
  ghost predicate IsMember(s: seq<byte>, p: nat, i: nat, q: nat, levels: nat)
    requires Range(s, p, q) && p <= i < q && levels > 0
    decreases q - p, 2
  {
    s[i] == COLON && IsPaddedString(s, p, i) && IsPadded(s, i + 1, q, levels - 1)
  }

  ghost predicate IsPaddedString(s: seq<byte>, p: nat, q: nat)
    requires Range(s, p, q)
  {
    exists a, b | p <= a <= b <= q :: AllWs(s, p, a) && IsString(s, a, b) && AllWs(s, b, q)
  }

  ghost predicate IsPadded(s: seq<byte>, p: nat, q: nat, levels: nat)
    requires Range(s, p, q)
    decreases q - p, 2
  {
    exists a, b | p <= a <= b <= q :: AllWs(s, p, a) && IsValue(s, a, b, levels) && AllWs(s, b, q)
  }

  /** One value, whitespace around it, and nothing else. */
  ghost predicate IsText(s: seq<byte>) {
    IsPadded(s, 0, |s|, MAX_DEPTH)
  }
}
