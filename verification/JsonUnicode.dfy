// The \u escapes of JSON strings (section 7 of RFC 8259), as examples/json/cJSON.c reads them.
module JsonUnicode {
  import opened Bytes
  import opened JsonParse
  import opened Transcode
  import opened TranscodeTheorems

  // Four hexadecimal digits, in either case, at i
  predicate IsHex4(c: bytes, i: nat, unit: char16) {
    && i + 4 <= |c|
    && HexDigit(c[i]) == Some(unit / 0x1000) && HexDigit(c[i + 1]) == Some(unit / 0x100 % 0x10)
    && HexDigit(c[i + 2]) == Some(unit / 0x10 % 0x10) && HexDigit(c[i + 3]) == Some(unit % 0x10)
  }

  // The escapes of UTF-16 units at i
  predicate IsLiteral(c: bytes, i: nat, units: seq<char16>) {
    forall k | 0 <= k < |units| ::
      i + 6 * k + 6 <= |c| && c[i + 6 * k] == '\\' && c[i + 6 * k + 1] == 'u' && IsHex4(c, i + 6 * k + 2, units[k])
  }

  lemma ReadsHex4(c: bytes, i: nat, unit: char16)
    requires IsHex4(c, i, unit)
    ensures ParseHex4(c, i) == unit
  {
    hide HexDigit;
    var d0, d1, d2, d3 := unit / 0x1000, unit / 0x100 % 0x10, unit / 0x10 % 0x10, unit % 0x10;
    assert unit / 0x100 == d0 * 16 + d1;
    assert unit / 0x10 == (d0 * 16 + d1) * 16 + d2;
  }

  lemma OneContinuation(code: nat)
    ensures Continuations(code, 1) == [Continuation(code)]
  {
    assert Continuations(code / 0x40, 0) == [];
  }

  lemma TwoContinuations(code: nat)
    ensures Continuations(code, 2) == [Continuation(code / 0x40), Continuation(code)]
  {
    OneContinuation(code / 0x40);
  }

  lemma ThreeContinuations(code: nat)
    ensures Continuations(code, 3) == [Continuation(code / 0x1000), Continuation(code / 0x40), Continuation(code)]
  {
    TwoContinuations(code / 0x40);
    assert code / 0x40 / 0x40 == code / 0x1000;
  }

  lemma EncodesUtf8(cp: Scalar)
    ensures EncodeUtf8(cp) == Utf8(cp)
  {
    hide Continuations;
    assert Pow64(1) == 0x40 && Pow64(2) == 0x1000 && Pow64(3) == 0x4_0000;
    if cp < 0x80 {
    } else if cp < 0x800 {
      OneContinuation(cp);
    } else if cp < 0x1_0000 {
      TwoContinuations(cp);
    } else {
      FourBytes(cp);
    }
  }

  lemma FourBytes(cp: Scalar)
    requires cp >= 0x1_0000
    ensures EncodeUtf8(cp) == Utf8(cp)
  {
    hide Continuations, Pow64;
    assert Pow64(3) == 0x4_0000 by {
      ThreeDigits();
    }
    ThreeContinuations(cp);
  }

  lemma ThreeDigits()
    ensures Pow64(3) == 0x4_0000
  {
    assert Pow64(1) == 0x40 && Pow64(2) == 0x1000;
  }

  // The escape of a scalar value, as one or two UTF-16 units, is read as its UTF-8 encoding.
  lemma LiteralIsUtf8(c: bytes, i: nat, end: nat, cp: Scalar)
    requires end < |c| && IsLiteral(c, i, Utf16(cp)) && i + 6 * |Utf16(cp)| <= end
    ensures Utf16Literal(c, i, end) == (Utf8(cp), 6 * |Utf16(cp)|)
  {
    hide EncodeUtf8, IsHex4, ParseHex4, Utf8;
    var units := Utf16(cp);
    EncodesUtf8(cp);
    assert IsHex4(c, i + 6 * 0 + 2, units[0]);
    ReadsHex4(c, i + 2, units[0]);
    if cp >= 0x1_0000 {
      assert c[i + 6 * 1] == '\\' && c[i + 6 * 1 + 1] == 'u' && IsHex4(c, i + 6 * 1 + 2, units[1]);
      ReadsHex4(c, i + 8, units[1]);
      var x := cp - 0x1_0000;
      assert units[0] % 0x400 == x / 0x400 && units[1] % 0x400 == x % 0x400;
      assert x == x / 0x400 * 0x400 + x % 0x400;
    }
  }

  lemma Nibbles(d0: nat, d1: nat, d2: nat, d3: nat)
    requires d0 < 16 && d1 < 16 && d2 < 16 && d3 < 16
    ensures var h := ((d0 * 16 + d1) * 16 + d2) * 16 + d3;
      h / 0x1000 == d0 && h / 0x100 % 0x10 == d1 && h / 0x10 % 0x10 == d2 && h % 0x10 == d3
  {
    var h := ((d0 * 16 + d1) * 16 + d2) * 16 + d3;
    assert h / 0x10 == (d0 * 16 + d1) * 16 + d2;
    assert h / 0x100 == d0 * 16 + d1;
    assert h / 0x1000 == d0;
  }

  lemma HexDigitIsSmall(b: byte)
    ensures HexDigit(b).Some? ==> HexDigit(b).value < 16
  {
  }

  predicate HasFourDigits(c: bytes, i: nat)
    requires i + 4 <= |c|
  {
    forall k | i <= k < i + 4 :: HexDigit(c[k]).Some?
  }

  lemma FourDigitsOf(c: bytes, i: nat)
    requires i + 4 <= |c| && HasFourDigits(c, i)
    ensures IsHex4(c, i, ParseHex4(c, i))
  {
    hide HexDigit;
    HexDigitIsSmall(c[i]);
    HexDigitIsSmall(c[i + 1]);
    HexDigitIsSmall(c[i + 2]);
    HexDigitIsSmall(c[i + 3]);
    Nibbles(HexDigit(c[i]).value, HexDigit(c[i + 1]).value, HexDigit(c[i + 2]).value, HexDigit(c[i + 3]).value);
  }

  lemma Hex4Back(c: bytes, i: nat)
    requires i + 4 <= |c| && ParseHex4(c, i) > 0
    ensures IsHex4(c, i, ParseHex4(c, i))
  {
    hide HexDigit, IsHex4;
    FourDigitsOf(c, i);
  }

  // Half of a surrogate pair, without its other half, is refused.
  lemma LoneSurrogateIsRefused(c: bytes, i: nat, end: nat, unit: char16)
    requires i + 6 <= end < |c| && IsHex4(c, i + 2, unit) && (IsHighSurrogate(unit) || IsLowSurrogate(unit))
    requires IsHighSurrogate(unit) ==>
      end < i + 12 || forall low: char16 | IsLowSurrogate(low) :: !IsLiteral(c, i + 6, [low])
    ensures Utf16Literal(c, i, end).1 == 0
  {
    hide IsHex4, ParseHex4;
    ReadsHex4(c, i + 2, unit);
    if IsHighSurrogate(unit) && i + 12 <= end && c[i + 6] == '\\' && c[i + 7] == 'u' && ParseHex4(c, i + 8) > 0 {
      Hex4Back(c, i + 8);
      var second := ParseHex4(c, i + 8);
      assert IsHex4(c, i + 6 + 6 * 0 + 2, [second][0]);
      assert IsLiteral(c, i + 6, [second]);
    }
  }

  // Four bytes that are no number count as zero, so that they are read as U+0000.
  lemma BadLiteralIsNul(c: bytes, i: nat, end: nat, k: nat)
    requires i + 6 <= end < |c| && k < 4 && HexDigit(c[i + 2 + k]).None?
    ensures Utf16Literal(c, i, end) == (['\0'], 6)
  {
    assert ParseHex4(c, i + 2) == 0;
  }

  // ----- When an escape is read as the standard has it -----

  // Before `end` there is the escape of this scalar value at i.
  ghost predicate Spells(c: bytes, i: nat, end: nat, cp: Scalar) {
    i + 6 * |Utf16(cp)| <= end && IsLiteral(c, i, Utf16(cp))
  }

  // A scalar value that is spelled is read as its UTF-8 encoding, and the escape is refused if none is.
  ghost predicate IsStandard(c: bytes, i: nat, end: nat, r: (bytes, nat)) {
    && (forall cp: Scalar :: Spells(c, i, end, cp) ==> r == (Utf8(cp), 6 * |Utf16(cp)|))
    && ((forall cp: Scalar :: !Spells(c, i, end, cp)) ==> r.1 == 0)
  }

  lemma SpelledHasDigits(c: bytes, i: nat, end: nat, cp: Scalar)
    requires end < |c| && Spells(c, i, end, cp)
    ensures i + 6 <= end && IsHex4(c, i + 2, Utf16(cp)[0]) && HasFourDigits(c, i + 2)
    ensures |Utf16(cp)| > 1 ==> IsLiteral(c, i + 6, [Utf16(cp)[1]])
  {
    hide HexDigit;
    var units := Utf16(cp);
    assert IsHex4(c, i + 6 * 0 + 2, units[0]);
    if |units| > 1 {
      assert c[i + 6 * 1] == '\\' && c[i + 6 * 1 + 1] == 'u' && IsHex4(c, i + 6 * 1 + 2, units[1]);
    }
  }

  // Which scalar value an escape with good digits spells, if it is not refused
  function ScalarOf(c: bytes, i: nat, end: nat): (cp: Scalar)
    requires i < end < |c| && Utf16Literal(c, i, end).1 > 0
  {
    var first := ParseHex4(c, i + 2);
    if IsHighSurrogate(first) then 0x1_0000 + (first - 0xD800) * 0x400 + (ParseHex4(c, i + 8) - 0xDC00) else first
  }

  lemma ReadIsSpelled(c: bytes, i: nat, end: nat)
    requires i + 6 <= end < |c| && c[i] == '\\' && c[i + 1] == 'u' && HasFourDigits(c, i + 2)
    requires Utf16Literal(c, i, end).1 > 0
    ensures Spells(c, i, end, ScalarOf(c, i, end))
  {
    hide IsHex4, ParseHex4, HasFourDigits, EncodeUtf8;
    FourDigitsOf(c, i + 2);
    var units := Utf16(ScalarOf(c, i, end));
    if IsHighSurrogate(ParseHex4(c, i + 2)) {
      Hex4Back(c, i + 8);
      assert units == [ParseHex4(c, i + 2), ParseHex4(c, i + 8)];
    }
  }

  // The exact condition: the code reads an escape as the standard has it unless one of the first four
  // bytes after the u is no hexadecimal digit.
  lemma LiteralIsStandard(c: bytes, i: nat, end: nat)
    requires i < end < |c| && c[i] == '\\' && c[i + 1] == 'u'
    ensures IsStandard(c, i, end, Utf16Literal(c, i, end)) <==> (i + 6 <= end ==> HasFourDigits(c, i + 2))
  {
    hide IsHex4, ParseHex4, HasFourDigits, EncodeUtf8, Utf8, Utf16, Utf16Literal, IsLiteral;
    forall cp: Scalar | Spells(c, i, end, cp)
      ensures Utf16Literal(c, i, end) == (Utf8(cp), 6 * |Utf16(cp)|) && i + 6 <= end && HasFourDigits(c, i + 2)
    {
      SpelledHasDigits(c, i, end, cp);
      LiteralIsUtf8(c, i, end, cp);
    }
    if i + 6 <= end && HasFourDigits(c, i + 2) {
      if Utf16Literal(c, i, end).1 > 0 {
        ReadIsSpelled(c, i, end);
      }
    } else if i + 6 <= end {
      BadDigit(c, i, end);
    }
  }

  lemma BadDigit(c: bytes, i: nat, end: nat)
    requires i + 6 <= end < |c| && !HasFourDigits(c, i + 2)
    ensures Utf16Literal(c, i, end).1 == 6
  {
    var k :| i + 2 <= k < i + 6 && HexDigit(c[k]).None?;
    BadLiteralIsNul(c, i, end, k - (i + 2));
  }

  // A string that is no JSON is read as the empty string.
  lemma BadEscapeIsRead()
    ensures ParseString(['\"', '\\', 'u', '0', '0', 'z', 'z', '\"'], 0) == Parsed([], 8)
  {
    var c: bytes := ['\"', '\\', 'u', '0', '0', 'z', 'z', '\"'];
    assert ClosingQuote(c, 1) == ClosingQuote(c, 3) == ClosingQuote(c, 5) == ClosingQuote(c, 7) == Some(7);
    BadLiteralIsNul(c, 1, 7, 2);
    assert Unescape(c, 1, 7, []) == Unescape(c, 7, 7, [] + ['\0']);
  }
}
