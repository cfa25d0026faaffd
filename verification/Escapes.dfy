// Decoding the escapes of a quoted string (src/estring.c).
module Escapes {
  import opened Bytes
  import opened Scanner
  import opened Transcode

  // What strtol makes of the digits of a \u escape is left open: a call into the C library.
  type HexReader = bytes -> char32

  // A C string ends in a NUL.
  function At(s: bytes, i: nat): byte {
    if i < |s| then s[i] else '\0'
  }

  function OctalValue(s: bytes): nat {
    if s == [] then 0 else OctalValue(s[..|s| - 1]) * 8 + if IsOctDigit(s[|s| - 1]) then s[|s| - 1] as int - '0' as int else 0
  }

  function HexValue(c: byte): nat
    requires IsHexDigit(c)
  {
    if IsDigit(c) then c as int - '0' as int
    else if c <= 'F' then c as int - 'A' as int + 10
    else c as int - 'a' as int + 10
  }

  // How many octal digits stand at s[i], three at most.
  function OctalDigits(s: bytes, i: nat, limit: nat): (n: nat)
    ensures n <= limit && (n > 0 ==> i + n <= |s|)
    decreases limit
  {
    if limit > 0 && IsOctDigit(At(s, i)) then 1 + OctalDigits(s, i + 1, limit - 1) else 0
  }

  // The result of an append_* function: where it goes on, and the output.
  datatype Step = Step(next: nat, out: bytes)

  // append_octal
  function AppendOctal(s: bytes, i: nat, out: bytes): Step {
    var n := OctalDigits(s, i, 3);
    Step(i + n, out + [(OctalValue(if n == 0 then [] else s[i..i + n]) % 0x100) as char])
  }

  // append_hex
  function AppendHex(s: bytes, i: nat, out: bytes): Step {
    if !IsHexDigit(At(s, i)) || !IsHexDigit(At(s, i + 1)) then Step(i, out)
    else Step(i + 2, out + [(HexValue(At(s, i)) * 16 + HexValue(At(s, i + 1))) as char])
  }

  // strchr: the first `c` at or after s[i], unless a NUL comes first
  function FindByte(s: bytes, i: nat, c: byte): (r: Option<nat>)
    requires c != '\0'
    ensures r.Some? ==> i <= r.value < |s| && s[r.value] == c
    decreases |s| - i
  {
    if At(s, i) == '\0' then None else if s[i] == c then Some(i) else FindByte(s, i + 1, c)
  }

  // append_unicode, which passes the length of the output so far as the room that is left
  function AppendUnicode(readHex: HexReader, s: bytes, i: nat, out: bytes): Step {
    var close := FindByte(s, i, '}');
    if At(s, i) != '{' || close.None? then Step(i, out)
    else Step(close.value + 1, out + WriteUtf8(readHex(s[i + 1..]), |out|, 0))
  }

  // \z skips the white space that follows.
  function SkipBlank(s: bytes, i: nat): (j: nat)
    ensures i <= j && (i <= |s| ==> j <= |s|)
    decreases |s| - i
  {
    if IsSpace(At(s, i)) then SkipBlank(s, i + 1) else i
  }

  // The switch of ELTN_unescape_quoted_string, on the byte after the backslash
  function Escape(readHex: HexReader, s: bytes, i: nat, out: bytes): (r: Step)
    requires i <= |s|
    ensures r.next >= i
  {
    var c := At(s, i);
    if c == '\n' then Step(i + 1, out + ['\n'])
    else if c == '\r' then Step(if At(s, i + 1) == '\n' then i + 2 else i + 1, out + ['\n'])
    else if c == 'a' then Step(i + 1, out + ['\U{07}'])
    else if c == 'b' then Step(i + 1, out + ['\U{08}'])
    else if c == 'f' then Step(i + 1, out + ['\U{0C}'])
    else if c == 'n' then Step(i + 1, out + ['\n'])
    else if c == 'r' then Step(i + 1, out + ['\r'])
    else if c == 't' then Step(i + 1, out + ['\t'])
    else if c == 'v' then Step(i + 1, out + ['\U{0B}'])
    else if c == 'x' then AppendHex(s, i + 1, out)
    else if c == 'u' then AppendUnicode(readHex, s, i + 1, out)
    else if c == 'z' then Step(SkipBlank(s, i + 1), out)
    else if IsOctDigit(c) then AppendOctal(s, i, out)
    else Step(i + 1, out + [c])
  }

  // The loop of ELTN_unescape_quoted_string
  function UnescapeFrom(readHex: HexReader, s: bytes, i: nat, quote: byte, out: bytes): bytes
    decreases |s| - i
  {
    if i >= |s| || s[i] == quote then out
    else if s[i] != '\\' then UnescapeFrom(readHex, s, i + 1, quote, out + [s[i]])
    else var e := Escape(readHex, s, i + 1, out); UnescapeFrom(readHex, s, e.next, quote, e.out)
  }

  function Unescape(readHex: HexReader, s: bytes): bytes {
    if IsQuote(At(s, 0)) then UnescapeFrom(readHex, s, 1, s[0], []) else UnescapeFrom(readHex, s, 0, '\0', [])
  }

  // ----- The code's own loops -----

  method PutOctal(s: bytes, i: nat, out: bytes) returns (r: Step)
    ensures r == AppendOctal(s, i, out)
  {
    var tmp: bytes := [];
    var n := 0;
    while n < 3
      invariant n <= 3 && (n > 0 ==> i + n <= |s|)
      invariant tmp == if n == 0 then [] else s[i..i + n]
      invariant OctalDigits(s, i, 3) == n + OctalDigits(s, i + n, 3 - n)
    {
      if !IsOctDigit(At(s, i + n)) {
        break;
      }
      tmp := tmp + [s[i + n]];
      n := n + 1;
    }
    r := Step(i + n, out + [(OctalValue(tmp) % 0x100) as char]);
  }

  method SkipBlanks(s: bytes, i: nat) returns (j: nat)
    ensures j == SkipBlank(s, i)
  {
    j := i;
    while IsSpace(At(s, j))
      invariant i <= j && SkipBlank(s, j) == SkipBlank(s, i)
      decreases |s| - j
    {
      j := j + 1;
    }
  }

  method UnescapeQuotedString(readHex: HexReader, s: bytes) returns (out: bytes)
    ensures out == Unescape(readHex, s)
  {
    hide AppendHex, AppendUnicode, AppendOctal, SkipBlank;
    out := [];
    var index, quote := 0, '\0';
    if IsQuote(At(s, 0)) {
      quote := s[0];
      index := 1;
    }
    while index < |s| && s[index] != quote
      invariant UnescapeFrom(readHex, s, index, quote, out) == Unescape(readHex, s)
      decreases |s| - index
    {
      if s[index] != '\\' {
        out := out + [s[index]];
        index := index + 1;
      } else {
        var c := At(s, index + 1);
        var e: Step;
        if IsOctDigit(c) {
          e := PutOctal(s, index + 1, out);
        } else if c == 'z' {
          var j := SkipBlanks(s, index + 2);
          e := Step(j, out);
        } else {
          e := Escape(readHex, s, index + 1, out);
        }
        index, out := e.next, e.out;
      }
    }
  }
}
