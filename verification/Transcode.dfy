// UTF-16 and UTF-32 to UTF-8 (src/convert.c). Shifts and masks are written as division and
// remainder: (x >> n) is x / 2^n, and masking with 2^n - 1 is % 2^n.
module Transcode {
  import opened Bytes

  type char16 = x: int | 0 <= x < 0x1_0000
  type char32 = x: int | 0 <= x < 0x1_0000_0000

  // `mark` | (cp >> shift & mask), for a mark that has no bit in the mask
  function Field(mark: nat, cp: char32, divisor: nat, modulus: nat): byte
    requires divisor > 0 && modulus > 0 && mark + modulus <= 0x100
  {
    (mark + cp / divisor % modulus) as char
  }

  // write_utf8: the bytes it puts at outbuf[j..], none if it fails.
  function WriteUtf8(cp: char32, outsz: nat, j: nat): bytes {
    if cp <= 0x7F then [cp as char]
    else if cp <= 0x7FF && j + 2 < outsz then
      [Field(0xC0, cp, 0x40, 0x20), Field(0x80, cp, 1, 0x40)]
    else if cp <= 0xFFFF && j + 3 < outsz then
      [Field(0xE0, cp, 0x1000, 0x10), Field(0x80, cp, 0x40, 0x40), Field(0x80, cp, 1, 0x40)]
    else if cp <= 0x1F_FFFF && j + 4 < outsz then
      [Field(0xF0, cp, 0x4_0000, 8), Field(0x80, cp, 0x1000, 0x40), Field(0x80, cp, 0x40, 0x40), Field(0x80, cp, 1, 0x40)]
    else if cp <= 0x3F_FFFF && j + 5 < outsz then
      [Field(0xF8, cp, 0x100_0000, 4), Field(0x80, cp, 0x4_0000, 0x40), Field(0x80, cp, 0x1000, 0x40),
       Field(0x80, cp, 0x40, 0x40), Field(0x80, cp, 1, 0x40)]
    else if cp <= 0x7F_FFFF && j + 6 < outsz then
      [Field(0xFC, cp, 0x100_0000, 2), Field(0x80, cp, 0x4_0000, 0x40), Field(0x80, cp, 0x1000, 0x40),
       Field(0x80, cp, 0x40, 0x40), Field(0x80, cp, 0x40, 0x40), Field(0x80, cp, 1, 0x40)]
    else []
  }

  predicate IsHighSurrogate(v: char16) {
    0xD800 <= v <= 0xDBFF
  }

  predicate IsLowSurrogate(v: char16) {
    0xDC00 <= v <= 0xDFFF
  }

  function SurrogatePair(high: char16, low: char16): char32
    requires IsHighSurrogate(high) && IsLowSurrogate(low)
  {
    0x1_0000 + (high - 0xD800) * 0x400 + (low - 0xDC00)
  }

  // read_utf16: a code point and the number of units it took, 0 if it fails. The pair may come in
  // either order. A surrogate in the last place makes the code read one unit past the end, which
  // holds `beyond`, whatever that is.
  function ReadUtf16(inbuf: seq<char16>, i: nat, beyond: char16): (r: (char32, nat))
    requires i < |inbuf|
    ensures r.1 <= 2
  {
    var cp := inbuf[i];
    if !IsHighSurrogate(cp) && !IsLowSurrogate(cp) then (cp, 1)
    else
      var cp2 := if i + 1 < |inbuf| then inbuf[i + 1] else beyond;
      if IsHighSurrogate(cp) && IsLowSurrogate(cp2) then (SurrogatePair(cp, cp2), 2)
      else if IsHighSurrogate(cp2) && IsLowSurrogate(cp) then (SurrogatePair(cp2, cp), 2)
      else (0, 0)
  }

  // C_Conv_char16_to_8, from inbuf[i] on, with `out` written so far
  function Convert16(inbuf: seq<char16>, beyond: char16, i: nat, outsz: nat, out: bytes): bytes
    decreases |inbuf| - i
  {
    if i >= |inbuf| || |out| >= outsz then out
    else
      var (cp, inc) := ReadUtf16(inbuf, i, beyond);
      if inc == 0 then out
      else
        var w := WriteUtf8(cp, outsz, |out|);
        if w == [] then out else Convert16(inbuf, beyond, i + inc, outsz, out + w)
  }

  // C_Conv_char32_to_8, from inbuf[i] on
  function Convert32(inbuf: seq<char32>, i: nat, outsz: nat, out: bytes): bytes
    decreases |inbuf| - i
  {
    if i >= |inbuf| || |out| >= outsz then out
    else
      var w := WriteUtf8(inbuf[i], outsz, |out|);
      if w == [] then out else Convert32(inbuf, i + 1, outsz, out + w)
  }

  lemma WriteFits(cp: char32, outsz: nat, j: nat)
    requires j < outsz
    ensures j + |WriteUtf8(cp, outsz, j)| <= outsz
  {
  }

  // The bytes go to outbuf[j..]; a result of 0 says that they do not fit.
  method PutUtf8(cp: char32, outsz: nat, outbuf: array<byte>, j: nat) returns (n: nat)
    requires j < outsz <= outbuf.Length
    modifies outbuf
    ensures n == |WriteUtf8(cp, outsz, j)| && j + n <= outsz
    ensures outbuf[..] == old(outbuf[..j]) + WriteUtf8(cp, outsz, j) + old(outbuf[j + n..])
  {
    var w := WriteUtf8(cp, outsz, j);
    WriteFits(cp, outsz, j);
    n := |w|;
    forall k | 0 <= k < n { outbuf[j + k] := w[k]; }
  }

  method Char16To8(inbuf: seq<char16>, beyond: char16, outsz: nat, outbuf: array<byte>) returns (n: nat)
    requires outsz <= outbuf.Length
    modifies outbuf
    ensures n <= outsz && outbuf[..n] == Convert16(inbuf, beyond, 0, outsz, [])
    ensures outbuf[outsz..] == old(outbuf[outsz..])
  {
    hide WriteUtf8, ReadUtf16;
    var i, j := 0, 0;
    while i < |inbuf| && j < outsz
      invariant j <= outsz && outbuf[outsz..] == old(outbuf[outsz..])
      invariant Convert16(inbuf, beyond, i, outsz, outbuf[..j]) == Convert16(inbuf, beyond, 0, outsz, [])
      decreases |inbuf| - i
    {
      var (cp, inci) := ReadUtf16(inbuf, i, beyond);
      if inci <= 0 {
        break;
      }
      i := i + inci;
      ghost var was := outbuf[..];
      var incj := PutUtf8(cp, outsz, outbuf, j);
      assert outbuf[..j] == was[..j];
      if incj <= 0 {
        break;
      }
      assert outbuf[..j + incj] == was[..j] + WriteUtf8(cp, outsz, j);
      j := j + incj;
    }
    n := j;
  }

  method Char32To8(inbuf: seq<char32>, outsz: nat, outbuf: array<byte>) returns (n: nat)
    requires outsz <= outbuf.Length
    modifies outbuf
    ensures n <= outsz && outbuf[..n] == Convert32(inbuf, 0, outsz, [])
    ensures outbuf[outsz..] == old(outbuf[outsz..])
  {
    hide WriteUtf8;
    var i, j := 0, 0;
    while i < |inbuf| && j < outsz
      invariant j <= outsz && outbuf[outsz..] == old(outbuf[outsz..])
      invariant Convert32(inbuf, i, outsz, outbuf[..j]) == Convert32(inbuf, 0, outsz, [])
      decreases |inbuf| - i
    {
      ghost var was := outbuf[..];
      var incj := PutUtf8(inbuf[i], outsz, outbuf, j);
      assert outbuf[..j] == was[..j];
      if incj <= 0 {
        break;
      }
      assert outbuf[..j + incj] == was[..j] + WriteUtf8(inbuf[i], outsz, j);
      j := j + incj;
      i := i + 1;
    }
    n := j;
  }
}
