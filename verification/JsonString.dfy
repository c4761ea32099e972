/**
 * The JSON string printer (src/config.rs, `json_str`), on any string: what it
 * prints is a JSON text, so the recogniser accepts it, and stands for that string.
 */
module JsonString {
  import opened Wrappers
  import opened JsonGrammar
  import opened JsonDecode
  import Json

  // A character's UTF-8 bytes.
  function Utf8(c: char): (b: seq<byte>)
    ensures |b| > 0
    ensures c as int >= 0x20 && c != '"' && c != '\\' ==> forall i | 0 <= i < |b| :: IsPlain(b[i])
  {
    var n := c as int;
    if n < 0x80 then [n]
    else if n < 0x800 then [0xC0 + n / 64, 0x80 + n % 64]
    else if n < 0x1_0000 then [0xE0 + n / 4096, 0x80 + n / 64 % 64, 0x80 + n % 64]
    else [0xF0 + n / 262_144, 0x80 + n / 4096 % 64, 0x80 + n / 64 % 64, 0x80 + n % 64]
  }

  function HexDigit(n: nat): (b: byte)
    requires n < 16
    ensures IsHex(b)
  {
    if n < 10 then 0x30 + n else 0x61 + n - 10
  }

  function Escape(c: char): seq<byte> {
    if c == '"' then [BACKSLASH, QUOTE]
    else if c == '\\' then [BACKSLASH, BACKSLASH]
    else if c == '\n' then [BACKSLASH, 0x6E]
    else if c == '\r' then [BACKSLASH, 0x72]
    else if c == '\t' then [BACKSLASH, 0x74]
    else if c as int < 0x20 then [BACKSLASH, LOWER_U, ZERO, ZERO, HexDigit(c as int / 16), HexDigit(c as int % 16)]
    else Utf8(c)
  }

  function EscapeAll(s: string): seq<byte> {
    if s == [] then [] else Escape(s[0]) + EscapeAll(s[1..])
  }

  // Chars from `i` to the end of `e`, then chars: chars, wherever `e` sits.
  lemma {:induction false} CharsThenChars(before: seq<byte>, e: seq<byte>, after: seq<byte>, i: nat, q: nat)
    requires i <= |e| && IsChars(e, i, |e|)
    requires |before| + |e| <= q <= |before| + |e| + |after|
    requires IsChars(before + e + after, |before| + |e|, q)
    ensures IsChars(before + e + after, |before| + i, q)
    decreases |e| - i
  {
    if i < |e| {
      assert forall k | i <= k < |e| :: (before + e + after)[|before| + k] == e[k];
      if IsPlain(e[i]) {
        CharsThenChars(before, e, after, i + 1, q);
      } else if IsEscape(e[i + 1]) {
        CharsThenChars(before, e, after, i + 2, q);
      } else {
        CharsThenChars(before, e, after, i + 6, q);
      }
    }
  }

  lemma Joined(before: seq<byte>, e: seq<byte>, rest: seq<byte>)
    requires IsChars(e, 0, |e|)
    requires IsChars(before + e + rest + [QUOTE], |before + e|, |before + e + rest|)
    ensures IsChars(before + (e + rest) + [QUOTE], |before|, |before + (e + rest)|)
  {
    assert before + (e + rest) + [QUOTE] == before + e + rest + [QUOTE] == before + e + (rest + [QUOTE]);
    CharsThenChars(before, e, rest + [QUOTE], 0, |before + e + rest|);
  }

  lemma {:induction false} PlainIsChars(b: seq<byte>, i: nat)
    requires i <= |b| && forall k | 0 <= k < |b| :: IsPlain(b[k])
    ensures IsChars(b, i, |b|)
    decreases |b| - i
  {
    if i < |b| { PlainIsChars(b, i + 1); }
  }

  lemma EscapeIsChars(c: char)
    ensures IsChars(Escape(c), 0, |Escape(c)|)
  {
    if c as int >= 0x20 && c != '"' && c != '\\' {
      PlainIsChars(Escape(c), 0);
    }
  }

  lemma {:induction false} EscapedIsChars(before: seq<byte>, s: string)
    ensures IsChars(before + EscapeAll(s) + [QUOTE], |before|, |before + EscapeAll(s)|)
    decreases |s|
  {
    if s != [] {
      EscapeIsChars(s[0]);
      EscapedIsChars(before + Escape(s[0]), s[1..]);
      Joined(before, Escape(s[0]), EscapeAll(s[1..]));
    }
  }

  lemma {:induction false} EscapeAllPush(s: string, c: char)
    ensures EscapeAll(s + [c]) == EscapeAll(s) + Escape(c)
    decreases |s|
  {
    if s == [] {
      assert [c][1..] == [];
      assert EscapeAll([c]) == Escape(c) + EscapeAll([]);
    } else {
      assert (s + [c])[1..] == s[1..] + [c];
      EscapeAllPush(s[1..], c);
    }
  }

  lemma PrintedIsText(s: string)
    ensures IsText([QUOTE] + EscapeAll(s) + [QUOTE])
  {
    var t := [QUOTE] + EscapeAll(s) + [QUOTE];
    EscapedIsChars([QUOTE], s);
    assert IsString(t, 0, |t|);
    assert AllWs(t, 0, 0) && IsValue(t, 0, |t|, MAX_DEPTH) && AllWs(t, |t|, |t|);
  }

  /** Printed strings, whatever they hold, are JSON texts of their own. */
  lemma PrintedIsJson(s: string)
    ensures var t := [QUOTE] + EscapeAll(s) + [QUOTE];
      IsText(t) && Json.IsValidJson(t)
  {
    PrintedIsText(s);
    Json.AcceptsExactlyJson([QUOTE] + EscapeAll(s) + [QUOTE]);
  }

  // -------------------------------------------------------------- round trip

  lemma Utf8ReadsBack(c: char, rest: seq<byte>)
    ensures ReadUtf8(Utf8(c) + rest) == Some(Read(c, |Utf8(c)|))
  {
    var n, b := c as int, Utf8(c) + rest;
    assert forall i | 0 <= i < |Utf8(c)| :: b[i] == Utf8(c)[i];
    Sixes(n);
    Sixes(n / 64);
    Sixes(n / 64 / 64);
    assert n / 4096 == n / 64 / 64 && n / 262_144 == n / 64 / 64 / 64;
  }

  lemma Sixes(n: nat)
    ensures n == n / 64 * 64 + n % 64
  {
  }

  lemma EscapeReadsBack(c: char, rest: seq<byte>)
    ensures ReadChar(Escape(c) + rest) == Some(Read(c, |Escape(c)|))
  {
    var e := Escape(c);
    var b := e + rest;
    assert forall i | 0 <= i < |e| :: b[i] == e[i];
    if c as int >= 0x20 && c != '"' && c != '\\' {
      Utf8ReadsBack(c, rest);
    } else if c as int < 0x20 && c != '\n' && c != '\r' && c != '\t' {
      assert Hex4(b, 2) == Some(c as int);
    }
  }

  lemma DecodeNext(e: seq<byte>, rest: seq<byte>, c: char, s: string)
    requires e != [] && ReadChar(e + rest) == Some(Read(c, |e|)) && Decode(rest) == Some(s)
    ensures Decode(e + rest) == Some([c] + s)
  {
    assert (e + rest)[|e|..] == rest;
  }

  /** Reading a printed string by the rules of JSON gives the string back, whatever
      characters it holds. */
  lemma {:induction false} PrintedReadsBack(s: string)
    ensures Decode(EscapeAll(s)) == Some(s)
    decreases |s|
  {
    if s != [] {
      EscapeReadsBack(s[0], EscapeAll(s[1..]));
      PrintedReadsBack(s[1..]);
      DecodeNext(Escape(s[0]), EscapeAll(s[1..]), s[0], s[1..]);
      assert s == [s[0]] + s[1..];
    }
  }

  lemma PrintedNext(s: string, i: nat)
    requires i < |s|
    ensures [QUOTE] + EscapeAll(s[..i]) + Escape(s[i]) == [QUOTE] + EscapeAll(s[..i + 1])
  {
    EscapeAllPush(s[..i], s[i]);
    assert s[..i + 1] == s[..i] + [s[i]];
  }

  method JsonStr(s: string) returns (out: seq<byte>)
    ensures out == [QUOTE] + EscapeAll(s) + [QUOTE]
    ensures IsText(out) && Decode(out[1..|out| - 1]) == Some(s)
  {
    out := [QUOTE];
    for i := 0 to |s|
      invariant out == [QUOTE] + EscapeAll(s[..i])
    {
      PrintedNext(s, i);
      out := out + Escape(s[i]);
    }
    assert s[..|s|] == s;
    out := out + [QUOTE];
    PrintedIsText(s);
    PrintedReadsBack(s);
    assert out[1..|out| - 1] == EscapeAll(s);
  }
}
