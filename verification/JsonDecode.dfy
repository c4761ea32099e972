/**
 * What the inside of a JSON string stands for: UTF-8 as section 3 of RFC 3629 has
 * it, escapes as section 7 of RFC 8259 has them. This is the reference the string
 * printer is judged by.
 */
module JsonDecode {
  import opened Wrappers
  import opened JsonGrammar

  /** One character read, and how many bytes it took. */
  datatype Read = Read(c: char, used: nat)

  predicate IsScalar(n: nat) {
    n < 0xD800 || 0xE000 <= n < 0x11_0000
  }

  // The character `n`, if there is one and it could not have been written shorter.
  function Scalar(n: nat, least: nat, used: nat): Option<Read> {
    if IsScalar(n) && n >= least then Some(Read(n as char, used)) else None
  }

  // A byte of a multi-byte character after its first.
  predicate IsTail(b: byte) {
    0x80 <= b < 0xC0
  }

  function Bits(b: byte, marker: nat): nat
    requires marker <= b
  {
    b - marker
  }

  function ReadUtf8(b: seq<byte>): Option<Read>
    requires b != []
  {
    if b[0] < 0x80 then Scalar(b[0], 0, 1)
    else if 0xC0 <= b[0] < 0xE0 && |b| >= 2 && IsTail(b[1]) then
      Scalar(Bits(b[0], 0xC0) * 64 + Bits(b[1], 0x80), 0x80, 2)
    else if 0xE0 <= b[0] < 0xF0 && |b| >= 3 && IsTail(b[1]) && IsTail(b[2]) then
      Scalar(Bits(b[0], 0xE0) * 4096 + Bits(b[1], 0x80) * 64 + Bits(b[2], 0x80), 0x800, 3)
    else if 0xF0 <= b[0] < 0xF8 && |b| >= 4 && IsTail(b[1]) && IsTail(b[2]) && IsTail(b[3]) then
      Scalar(Bits(b[0], 0xF0) * 262_144 + Bits(b[1], 0x80) * 4096 + Bits(b[2], 0x80) * 64 + Bits(b[3], 0x80),
             0x1_0000, 4)
    else None
  }

  function HexValue(b: byte): nat
    requires IsHex(b)
  {
    if IsDigit(b) then b - 0x30 else if b < 0x61 then b - 0x41 + 10 else b - 0x61 + 10
  }

  // Four hexadecimal digits at `p`.
  function Hex4(b: seq<byte>, p: nat): Option<nat> {
    if p + 4 <= |b| && IsHex(b[p]) && IsHex(b[p + 1]) && IsHex(b[p + 2]) && IsHex(b[p + 3])
    then Some(((HexValue(b[p]) * 16 + HexValue(b[p + 1])) * 16 + HexValue(b[p + 2])) * 16 + HexValue(b[p + 3]))
    else None
  }

  // `\u` and four digits, or two of those for a character above 0xFFFF.
  function ReadHex(b: seq<byte>): Option<Read> {
    var high := Hex4(b, 2);
    if high.None? then None
    else if !(0xD800 <= high.value < 0xDC00) then Scalar(high.value, 0, 6)
    else
      var low := if |b| >= 8 && b[6] == BACKSLASH && b[7] == LOWER_U then Hex4(b, 8) else None;
      if low.Some? && 0xDC00 <= low.value < 0xE000
      then Scalar(0x1_0000 + (high.value - 0xD800) * 1024 + (low.value - 0xDC00), 0, 12)
      else None
  }

  // The character a two-character escape stands for.
  function Short(b: byte): Option<Read> {
    match b
    case 0x22 => Some(Read('\"', 2))
    case 0x5C => Some(Read('\\', 2))
    case 0x2F => Some(Read('/', 2))
    case 0x62 => Some(Read(8 as char, 2))
    case 0x66 => Some(Read(12 as char, 2))
    case 0x6E => Some(Read('\n', 2))
    case 0x72 => Some(Read('\r', 2))
    case 0x74 => Some(Read('\t', 2))
    case _ => None
  }

  function ReadChar(b: seq<byte>): Option<Read>
    requires b != []
  {
    if b[0] != BACKSLASH then if IsPlain(b[0]) then ReadUtf8(b) else None
    else if |b| < 2 then None
    else if b[1] == LOWER_U then ReadHex(b)
    else Short(b[1])
  }

  /** The string that the content of a JSON string stands for, if it stands for any. */
  function Decode(b: seq<byte>): Option<string>
    decreases |b|
  {
    if b == [] then Some([])
    else
      var first := ReadChar(b);
      if first.None? || first.value.used == 0 || first.value.used > |b| then None
      else
        var rest := Decode(b[first.value.used..]);
        if rest.None? then None else Some([first.value.c] + rest.value)
  }
}
