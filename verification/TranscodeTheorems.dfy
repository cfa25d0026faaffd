// Transcoding against the definitions of UTF-16 (sections 2.1 and 2.2 of RFC 2781) and UTF-8
// (section 3 of RFC 3629).
module TranscodeTheorems {
  import opened Bytes
  import opened Transcode

  // A Unicode scalar value
  type Scalar = x: int | 0 <= x <= 0xD7FF || 0xE000 <= x <= 0x10_FFFF

  // ----- The encodings, as their standards define them -----

  function Utf16(cp: Scalar): seq<char16> {
    if cp < 0x1_0000 then [cp] else [0xD800 + (cp - 0x1_0000) / 0x400, 0xDC00 + (cp - 0x1_0000) % 0x400]
  }

  function Utf16Text(cps: seq<Scalar>): seq<char16> {
    if cps == [] then [] else Utf16(cps[0]) + Utf16Text(cps[1..])
  }

  function Utf8Length(cp: Scalar): nat {
    if cp < 0x80 then 1 else if cp < 0x800 then 2 else if cp < 0x1_0000 then 3 else 4
  }

  function Continuation(x: nat): byte {
    (0x80 + x % 0x40) as char
  }

  function Utf8(cp: Scalar): (r: bytes)
    ensures |r| == Utf8Length(cp)
  {
    if cp < 0x80 then [cp as char]
    else if cp < 0x800 then [(0xC0 + cp / 0x40) as char, Continuation(cp)]
    else if cp < 0x1_0000 then [(0xE0 + cp / 0x1000) as char, Continuation(cp / 0x40), Continuation(cp)]
    else [(0xF0 + cp / 0x4_0000) as char, Continuation(cp / 0x1000), Continuation(cp / 0x40), Continuation(cp)]
  }

  function Utf8Text(cps: seq<Scalar>): bytes {
    if cps == [] then [] else Utf8(cps[0]) + Utf8Text(cps[1..])
  }

  // A strict decoder: overlong forms, surrogates and values over 10FFFF are rejected.
  function Payload(c: byte): Option<nat> {
    if 0x80 <= c as int < 0xC0 then Some(c as int - 0x80) else None
  }

  function DecodeFirst(s: bytes): Option<(Scalar, nat)>
    requires s != []
  {
    var b := s[0] as int;
    var size := if b < 0x80 then 1 else if 0xC2 <= b < 0xE0 then 2 else if 0xE0 <= b < 0xF0 then 3
                else if 0xF0 <= b < 0xF8 then 4 else 0;
    if size == 1 then Some((b, 1))
    else if size == 0 || |s| < size then None
    else
      var p1 := Payload(s[1]);
      var p2 := if size > 2 then Payload(s[2]) else Some(0);
      var p3 := if size > 3 then Payload(s[3]) else Some(0);
      if p1.None? || p2.None? || p3.None? then None
      else
        var cp := if size == 2 then (b - 0xC0) * 0x40 + p1.value
                  else if size == 3 then (b - 0xE0) * 0x1000 + p1.value * 0x40 + p2.value
                  else (b - 0xF0) * 0x4_0000 + p1.value * 0x1000 + p2.value * 0x40 + p3.value;
        if cp > 0x10_FFFF || 0xD800 <= cp <= 0xDFFF || Utf8Length(cp) != size then None else Some((cp, size))
  }

  function Decode(s: bytes): Option<seq<Scalar>> {
    if s == [] then Some([])
    else
      var first := DecodeFirst(s);
      if first.None? then None
      else
        var (cp, size) := first.value;
        if size == 0 || size > |s| then None
        else
          var rest := Decode(s[size..]);
          if rest.None? then None else Some([cp] + rest.value)
  }

  // ----- One code point -----

  // The six-bit groups of a code point put it together again.
  lemma Groups(cp: nat)
    ensures cp == cp / 0x40 * 0x40 + cp % 0x40
    ensures cp == cp / 0x1000 * 0x1000 + cp / 0x40 % 0x40 * 0x40 + cp % 0x40
    ensures cp == cp / 0x4_0000 * 0x4_0000 + cp / 0x1000 % 0x40 * 0x1000 + cp / 0x40 % 0x40 * 0x40 + cp % 0x40
  {
    var x, y, z := cp / 0x40, cp / 0x1000, cp / 0x4_0000;
    ShiftAgain(cp, 0x40);
    ShiftAgain(cp, 0x1000);
    assert cp == 0x40 * x + cp % 0x40;
    assert x == 0x40 * y + x % 0x40;
    assert y == 0x40 * z + y % 0x40;
  }

  lemma ShiftAgain(cp: nat, n: nat)
    requires n == 0x40 || n == 0x1000
    ensures cp / (n * 0x40) == cp / n / 0x40
  {
    if n == 0x40 {
      assert cp / 0x1000 == cp / 0x40 / 0x40;
    } else {
      assert cp / 0x4_0000 == cp / 0x1000 / 0x40;
    }
  }

  lemma PayloadOfContinuation(x: nat)
    ensures Payload(Continuation(x)) == Some(x % 0x40)
  {
  }

  // The decoder undoes the encoding, whatever follows.
  lemma DecodesUtf8(cp: Scalar, rest: bytes)
    ensures DecodeFirst(Utf8(cp) + rest) == Some((cp, Utf8Length(cp)))
  {
    var s, u := Utf8(cp) + rest, Utf8(cp);
    assert s[0] == u[0];
    assert |u| > 1 ==> s[1] == u[1];
    assert |u| > 2 ==> s[2] == u[2];
    assert |u| > 3 ==> s[3] == u[3];
    Groups(cp);
    PayloadOfContinuation(cp);
    PayloadOfContinuation(cp / 0x40);
    PayloadOfContinuation(cp / 0x1000);
    hide Continuation, Payload;
    if cp >= 0x1_0000 {
      assert u[0] as int == 0xF0 + cp / 0x4_0000;
    } else if cp >= 0x800 {
      assert u[0] as int == 0xE0 + cp / 0x1000;
    } else if cp >= 0x80 {
      assert u[0] as int == 0xC0 + cp / 0x40;
    }
  }

  // Whether write_utf8 has room: one byte is never checked, and longer forms leave one byte spare.
  predicate HasRoom(cp: Scalar, outsz: nat, j: nat) {
    cp < 0x80 || j + Utf8Length(cp) < outsz
  }

  // Exactly the standard's bytes when there is room, and otherwise nothing: no overlong form.
  lemma WritesUtf8(cp: Scalar, outsz: nat, j: nat)
    ensures WriteUtf8(cp, outsz, j) == if HasRoom(cp, outsz, j) then Utf8(cp) else []
  {
  }

  lemma ReadsUtf16(cp: Scalar, before: seq<char16>, after: seq<char16>, beyond: char16)
    ensures ReadUtf16(before + Utf16(cp) + after, |before|, beyond) == (cp, |Utf16(cp)|)
  {
    var s := before + Utf16(cp) + after;
    assert s[|before|] == Utf16(cp)[0];
    if cp >= 0x1_0000 {
      assert s[|before| + 1] == Utf16(cp)[1];
    }
  }

  // A pair in the wrong order is read as the scalar value that it would be in the right one; half a pair is an error.
  lemma WrongPairs(high: char16, low: char16, other: char16, before: seq<char16>, after: seq<char16>, beyond: char16)
    requires 0xD800 <= high <= 0xDBFF && 0xDC00 <= low <= 0xDFFF && !(0xD800 <= other <= 0xDFFF)
    ensures ReadUtf16(before + [low, high] + after, |before|, beyond)
         == (0x1_0000 + (high - 0xD800) * 0x400 + (low - 0xDC00), 2)
    ensures ReadUtf16(before + [low, other] + after, |before|, beyond) == (0, 0)
    ensures ReadUtf16(before + [high, other] + after, |before|, beyond) == (0, 0)
    ensures ReadUtf16(before + [low, low] + after, |before|, beyond) == (0, 0)
    ensures ReadUtf16(before + [high, high] + after, |before|, beyond) == (0, 0)
  {
    PairAt(before, low, high, after);
    PairAt(before, low, other, after);
    PairAt(before, high, other, after);
    PairAt(before, low, low, after);
    PairAt(before, high, high, after);
  }

  lemma PairAt(before: seq<char16>, x: char16, y: char16, after: seq<char16>)
    ensures var s := before + [x, y] + after; |s| > |before| + 1 && s[|before|] == x && s[|before| + 1] == y
  {
  }

  // How many bytes are written for any 32-bit value when there is room: values past Unicode get longer forms, which
  // end at 0x7FFFFF, and surrogates the form of three bytes.
  lemma WrittenLength(cp: char32, outsz: nat, j: nat)
    requires j + 6 < outsz
    ensures |WriteUtf8(cp, outsz, j)| ==
      if cp <= 0x7F then 1 else if cp <= 0x7FF then 2 else if cp <= 0xFFFF then 3 else if cp <= 0x1F_FFFF then 4
      else if cp <= 0x3F_FFFF then 5 else if cp <= 0x7F_FFFF then 6 else 0
  {
  }

  // Past Unicode as well, the forms of four and five bytes are those that UTF-8 would have.
  lemma LongForms(cp: char32, outsz: nat, j: nat)
    requires j + 6 < outsz && 0x1_0000 <= cp <= 0x3F_FFFF
    ensures WriteUtf8(cp, outsz, j) ==
      (if cp <= 0x1F_FFFF then [(0xF0 + cp / 0x4_0000) as char] else [0xF8 as char, Continuation(cp / 0x4_0000)])
      + [Continuation(cp / 0x1000), Continuation(cp / 0x40), Continuation(cp)]
  {
  }

  // ----- Whole texts -----

  // How many code points go into an output that has room for `outsz` bytes, from outbuf[j] on.
  function Written(cps: seq<Scalar>, outsz: nat, j: nat): (k: nat)
    ensures k <= |cps|
  {
    if cps == [] || j >= outsz || !HasRoom(cps[0], outsz, j) then 0
    else 1 + Written(cps[1..], outsz, j + Utf8Length(cps[0]))
  }

  lemma {:induction false} Convert16Writes(
    before: seq<char16>, cps: seq<Scalar>, beyond: char16, outsz: nat, out: bytes)
    ensures Convert16(before + Utf16Text(cps), beyond, |before|, outsz, out) ==
      out + Utf8Text(cps[..Written(cps, outsz, |out|)])
    decreases |cps|
  {
    hide ReadUtf16, WriteUtf8, Utf8, Utf16, HasRoom;
    var inbuf := before + Utf16Text(cps);
    if cps == [] || |out| >= outsz {
      assert out + [] == out;
      Utf16NotEmpty(cps);
    } else {
      var cp, tail := cps[0], Utf16Text(cps[1..]);
      assert inbuf == before + Utf16(cp) + tail;
      ReadsUtf16(cp, before, tail, beyond);
      WritesUtf8(cp, outsz, |out|);
      Utf16NotEmpty(cps);
      if HasRoom(cp, outsz, |out|) {
        Convert16Writes(before + Utf16(cp), cps[1..], beyond, outsz, out + Utf8(cp));
        var k := Written(cps[1..], outsz, |out| + Utf8Length(cp));
        assert cps[..1 + k][1..] == cps[1..][..k];
        assert out + Utf8(cp) + Utf8Text(cps[1..][..k]) == out + (Utf8(cp) + Utf8Text(cps[1..][..k]));
      } else {
        assert out + [] == out;
      }
    }
  }

  lemma Utf16NotEmpty(cps: seq<Scalar>)
    ensures cps != [] ==> |Utf16(cps[0])| > 0
    ensures cps == [] ==> Utf16Text(cps) == []
  {
  }

  lemma {:induction false} Convert32Writes(cps: seq<Scalar>, i: nat, outsz: nat, out: bytes)
    requires i <= |cps|
    ensures Convert32(cps, i, outsz, out) == out + Utf8Text(cps[i..][..Written(cps[i..], outsz, |out|)])
    decreases |cps| - i
  {
    hide WriteUtf8, Utf8, HasRoom;
    var rest := cps[i..];
    if rest == [] || |out| >= outsz {
      assert out + [] == out;
    } else {
      WritesUtf8(cps[i], outsz, |out|);
      if HasRoom(cps[i], outsz, |out|) {
        Convert32Writes(cps, i + 1, outsz, out + Utf8(cps[i]));
        var k := Written(rest[1..], outsz, |out| + Utf8Length(cps[i]));
        assert rest[1..] == cps[i + 1..] && rest[..1 + k][1..] == rest[1..][..k];
        assert out + Utf8(cps[i]) + Utf8Text(rest[1..][..k]) == out + (Utf8(cps[i]) + Utf8Text(rest[1..][..k]));
      } else {
        assert out + [] == out;
      }
    }
  }

  // With more room than the whole needs, nothing is left out; and what is left out did not fit.
  lemma {:induction false} WrittenUntilFull(cps: seq<Scalar>, outsz: nat, j: nat)
    ensures var k := Written(cps, outsz, j);
      var end := j + |Utf8Text(cps[..k])|;
      && (j + |Utf8Text(cps)| < outsz ==> k == |cps|)
      && (k < |cps| ==> end >= outsz || !HasRoom(cps[k], outsz, end))
    decreases |cps|
  {
    if cps != [] && j < outsz && HasRoom(cps[0], outsz, j) {
      WrittenUntilFull(cps[1..], outsz, j + Utf8Length(cps[0]));
      var k := Written(cps, outsz, j);
      assert cps[..k][1..] == cps[1..][..k - 1];
    }
  }

  // Decoding recovers the text.
  lemma {:induction false} DecodeInvertsUtf8(cps: seq<Scalar>)
    ensures Decode(Utf8Text(cps)) == Some(cps)
    decreases |cps|
  {
    hide DecodeFirst, Utf8;
    if cps != [] {
      var rest := Utf8Text(cps[1..]);
      DecodesUtf8(cps[0], rest);
      DecodeInvertsUtf8(cps[1..]);
      assert (Utf8(cps[0]) + rest)[Utf8Length(cps[0])..] == rest;
      assert cps == [cps[0]] + cps[1..];
    }
  }

  // UTF-16 comes out as the UTF-8 of as many whole characters as fit, in order; all of them when
  // the output is longer than the result. The same holds for UTF-32.
  lemma TranscodingIsExact(cps: seq<Scalar>, beyond: char16, outsz: nat)
    ensures var k := Written(cps, outsz, 0);
      && Convert16(Utf16Text(cps), beyond, 0, outsz, []) == Utf8Text(cps[..k])
      && Convert32(cps, 0, outsz, []) == Utf8Text(cps[..k])
      && (|Utf8Text(cps)| < outsz ==> k == |cps|)
      && Decode(Utf8Text(cps[..k])) == Some(cps[..k])
  {
    hide Convert16, Convert32, Decode;
    var k := Written(cps, outsz, 0);
    Convert16Writes([], cps, beyond, outsz, []);
    assert [] + Utf16Text(cps) == Utf16Text(cps) && [] + Utf8Text(cps[..k]) == Utf8Text(cps[..k]);
    Convert32Writes(cps, 0, outsz, []);
    assert cps[0..] == cps;
    WrittenUntilFull(cps, outsz, 0);
    DecodeInvertsUtf8(cps[..k]);
  }
}
