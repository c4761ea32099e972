/** The string operations the binding parsers rest on: trimming, splitting,
    ASCII case, and decimal numbers of 32 bits. */
module Text {
  import opened Wrappers

  // Unicode's White_Space property.
  predicate IsSpace(c: char) {
    || '\t' <= c <= '\r' || c == ' ' || c == '\U{85}' || c == '\U{A0}' || c == '\U{1680}'
    || '\U{2000}' <= c <= '\U{200A}' || c == '\U{2028}' || c == '\U{2029}' || c == '\U{202F}'
    || c == '\U{205F}' || c == '\U{3000}'
  }

  predicate IsControl(c: char) {
    c < ' ' || '\U{7F}' <= c <= '\U{9F}'
  }

  predicate IsDigit(c: char) {
    '0' <= c <= '9'
  }

  predicate IsLetter(c: char) {
    'a' <= c <= 'z' || 'A' <= c <= 'Z'
  }

  // ----------------------------------------------------------------- trimming

  predicate Trimmed(s: string) {
    s != [] ==> !IsSpace(s[0]) && !IsSpace(s[|s| - 1])
  }

  function TrimStart(s: string): (t: string)
    ensures |t| <= |s| && forall c | c in t :: c in s
    ensures t != [] ==> !IsSpace(t[0]) && t[|t| - 1] == s[|s| - 1]
  {
    if s != [] && IsSpace(s[0]) then TrimStart(s[1..]) else s
  }

  function TrimEnd(s: string): (t: string)
    ensures t <= s && (t != [] ==> !IsSpace(t[|t| - 1]))
  {
    if s != [] && IsSpace(s[|s| - 1]) then TrimEnd(s[..|s| - 1]) else s
  }

  function Trim(s: string): (t: string)
    ensures Trimmed(t) && |t| <= |s| && forall c | c in t :: c in s
    ensures Trimmed(s) ==> t == s
  {
    TrimEnd(TrimStart(s))
  }

  // `t` is `s` without some of the space around it.
  ghost predicate TrimmedTo(s: string, t: string, i: nat, j: nat) {
    && i <= j <= |s| && t == s[i..j]
    && (forall k | 0 <= k < i :: IsSpace(s[k])) && (forall k | j <= k < |s| :: IsSpace(s[k]))
  }

  lemma {:induction false} StartIsSpace(s: string)
    ensures var t := TrimStart(s); TrimmedTo(s, t, |s| - |t|, |s|)
  {
    if s != [] && IsSpace(s[0]) { StartIsSpace(s[1..]); }
  }

  lemma {:induction false} EndIsSpace(s: string)
    ensures TrimmedTo(s, TrimEnd(s), 0, |TrimEnd(s)|)
  {
    if s != [] && IsSpace(s[|s| - 1]) { EndIsSpace(s[..|s| - 1]); }
  }

  lemma TrimBoth(s: string, t: string, i: nat, u: string, n: nat)
    requires TrimmedTo(s, t, i, |s|) && TrimmedTo(t, u, 0, n)
    ensures TrimmedTo(s, u, i, i + n)
  {
    forall k | i + n <= k < |s| ensures IsSpace(s[k]) {
      assert s[k] == t[k - i];
    }
  }

  /** Trimming takes the space on either side, all of it, and nothing else. */
  lemma TrimTakesSpaceOnly(s: string)
    ensures Trimmed(Trim(s)) && exists i, j :: TrimmedTo(s, Trim(s), i, j)
  {
    var t := TrimStart(s);
    StartIsSpace(s);
    EndIsSpace(t);
    TrimBoth(s, t, |s| - |t|, Trim(s), |Trim(s)|);
  }

  // ---------------------------------------------------------------- splitting

  function Split(s: string, sep: char): (parts: seq<string>)
    ensures parts != [] && forall p | p in parts :: sep !in p
  {
    if s == [] then [[]]
    else
      var rest := Split(s[1..], sep);
      if s[0] == sep then [[]] + rest else [[s[0]] + rest[0]] + rest[1..]
  }

  lemma {:induction false} SplitAlone(s: string, sep: char)
    requires sep !in s
    ensures Split(s, sep) == [s]
  {
    if s != [] {
      SplitAlone(s[1..], sep);
      assert [s[0]] + s[1..] == s;
    }
  }

  lemma {:induction false} SplitFirst(a: string, b: string, sep: char)
    requires sep !in a
    ensures Split(a + [sep] + b, sep) == [a] + Split(b, sep)
  {
    var s := a + [sep] + b;
    if a == [] {
      assert s[1..] == b;
    } else {
      assert s[1..] == a[1..] + [sep] + b;
      SplitFirst(a[1..], b, sep);
      assert [a[0]] + a[1..] == a;
    }
  }

  // --------------------------------------------------------------- ASCII case

  function LowerChar(c: char): char {
    if 'A' <= c <= 'Z' then (c as int + 32) as char else c
  }

  function Lower(s: string): (t: string)
    ensures |t| == |s| && forall i | 0 <= i < |s| :: t[i] == LowerChar(s[i])
  {
    seq(|s|, i requires 0 <= i < |s| => LowerChar(s[i]))
  }

  // Case is all that lowering changes: spaces, digits and separators stay.
  lemma LowerKeeps(c: char)
    ensures LowerChar(LowerChar(c)) == LowerChar(c)
    ensures IsSpace(LowerChar(c)) == IsSpace(c) && IsDigit(LowerChar(c)) == IsDigit(c)
    ensures IsLetter(LowerChar(c)) == IsLetter(c) && (!IsLetter(c) ==> LowerChar(c) == c)
  {
  }

  lemma LowerTwice(s: string)
    ensures Lower(Lower(s)) == Lower(s)
  {
  }

  lemma {:induction false} TrimStartLower(s: string)
    ensures TrimStart(Lower(s)) == Lower(TrimStart(s))
  {
    if s != [] {
      LowerKeeps(s[0]);
      assert Lower(s)[1..] == Lower(s[1..]);
      if IsSpace(s[0]) { TrimStartLower(s[1..]); }
    }
  }

  lemma {:induction false} TrimEndLower(s: string)
    ensures TrimEnd(Lower(s)) == Lower(TrimEnd(s))
  {
    if s != [] {
      var last := |s| - 1;
      LowerKeeps(s[last]);
      assert Lower(s)[..last] == Lower(s[..last]);
      if IsSpace(s[last]) { TrimEndLower(s[..last]); }
    }
  }

  lemma TrimLower(s: string)
    ensures Trim(Lower(s)) == Lower(Trim(s))
  {
    TrimStartLower(s);
    TrimEndLower(TrimStart(s));
  }

  function LowerAll(parts: seq<string>): (lower: seq<string>)
    ensures |lower| == |parts|
  {
    if parts == [] then [] else [Lower(parts[0])] + LowerAll(parts[1..])
  }

  lemma {:induction false} SplitLower(s: string, sep: char)
    requires !IsLetter(sep)
    ensures Split(Lower(s), sep) == LowerAll(Split(s, sep))
  {
    if s != [] {
      LowerKeeps(s[0]);
      assert Lower(s)[1..] == Lower(s[1..]);
      SplitLower(s[1..], sep);
      var rest := Split(s[1..], sep);
      if s[0] == sep {
        assert ([[]] + rest)[1..] == rest;
      } else {
        assert LowerChar(s[0]) != sep;
        assert Lower([s[0]] + rest[0]) == [LowerChar(s[0])] + Lower(rest[0]);
        assert ([[s[0]] + rest[0]] + rest[1..])[1..] == rest[1..];
      }
    } else {
      var one: seq<string> := [[]];
      assert one[1..] == [];
    }
  }

  function UpperChar(c: char): char {
    if 'a' <= c <= 'z' then (c as int - 32) as char else c
  }

  // ------------------------------------------------------------------ decimal

  function Decimal(n: nat): (s: string)
    ensures s != [] && forall c | c in s :: IsDigit(c)
  {
    (if n < 10 then [] else Decimal(n / 10)) + [(n % 10 + '0' as int) as char]
  }

  function Value(digits: string): nat
    requires forall c | c in digits :: IsDigit(c)
  {
    if digits == [] then 0
    else
      var last := digits[|digits| - 1];
      assert IsDigit(last);
      Value(digits[..|digits| - 1]) * 10 + (last as int - '0' as int)
  }

  function ParseU32(s: string): Option<u32> {
    var digits := if s != [] && s[0] == '+' then s[1..] else s;
    if digits == [] || exists c | c in digits :: !IsDigit(c) then None
    else if Value(digits) >= U32 then None
    else Some(Value(digits))
  }

  lemma {:induction false} ValueOfDecimal(n: nat)
    ensures Value(Decimal(n)) == n
  {
    var s := Decimal(n);
    if n >= 10 {
      ValueOfDecimal(n / 10);
      assert s[..|s| - 1] == Decimal(n / 10);
    }
  }

  lemma DigitsParse(digits: string)
    requires digits != [] && (forall c | c in digits :: IsDigit(c)) && Value(digits) < U32
    ensures ParseU32(digits) == Some(Value(digits))
  {
    assert digits[0] in digits;
  }

  lemma ParseLower(s: string)
    ensures ParseU32(Lower(s)) == ParseU32(s)
  {
    if s != [] { LowerKeeps(s[0]); }
    var digits := if s != [] && s[0] == '+' then s[1..] else s;
    var lower := if s != [] && s[0] == '+' then Lower(s)[1..] else Lower(s);
    assert lower == Lower(digits);
    if exists c | c in digits :: !IsDigit(c) {
      var i :| 0 <= i < |digits| && !IsDigit(digits[i]);
      LowerKeeps(digits[i]);
      assert lower[i] in lower;
    } else {
      assert lower == digits by {
        forall i | 0 <= i < |digits| ensures lower[i] == digits[i] {
          assert digits[i] in digits;
          LowerKeeps(digits[i]);
        }
      }
    }
  }

  /** A 32-bit number printed in decimal reads back as itself. */
  lemma DecimalReadsBack(n: u32)
    ensures ParseU32(Decimal(n)) == Some(n)
  {
    ValueOfDecimal(n);
    DigitsParse(Decimal(n));
  }
}
