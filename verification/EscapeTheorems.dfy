// Quoting and unquoting: every byte string survives.
module EscapeTheorems {
  import opened Bytes
  import opened Tokens
  import opened Scanner
  import opened LexerTheorems
  import opened StringTheorems
  import opened Transcode
  import opened TranscodeTheorems
  import opened Escapes
  import Characters

  // ----- Writing a quoted string -----

  // How a byte is written; any byte may be written as an escape.
  datatype Style = Plain | Hex(upper: bool) | Octal

  predicate NeedsEscape(c: byte, quote: byte) {
    c == quote || c == '\\' || c == '\r' || c == '\n'
  }

  function HexDigit(n: nat, upper: bool): byte
    requires n < 16
  {
    if n < 10 then (n + '0' as int) as char else (n - 10 + (if upper then 'A' else 'a') as int) as char
  }

  function OctDigit(n: nat): byte
    requires n < 8
  {
    (n + '0' as int) as char
  }

  function WriteByte(c: byte, style: Style): bytes {
    var n := c as int;
    match style
    case Plain => [c]
    case Hex(upper) => ['\\', 'x', HexDigit(n / 16, upper), HexDigit(n % 16, upper)]
    case Octal => ['\\', OctDigit(n / 64), OctDigit(n / 8 % 8), OctDigit(n % 8)]
  }

  ghost predicate Chosen(s: bytes, styles: seq<Style>, quote: byte) {
    |styles| == |s| && forall i | 0 <= i < |s| :: styles[i].Plain? ==> !NeedsEscape(s[i], quote)
  }

  function WriteBytes(s: bytes, styles: seq<Style>): bytes
    requires |styles| == |s|
  {
    if s == [] then [] else WriteByte(s[0], styles[0]) + WriteBytes(s[1..], styles[1..])
  }

  function Quote(s: bytes, styles: seq<Style>, quote: byte): bytes
    requires |styles| == |s|
  {
    [quote] + WriteBytes(s, styles) + [quote]
  }

  // ----- Reading it back -----

  lemma DigitsRead(c: byte, upper: bool)
    ensures var n := c as int;
      && IsHexDigit(HexDigit(n / 16, upper)) && IsHexDigit(HexDigit(n % 16, upper))
      && HexValue(HexDigit(n / 16, upper)) * 16 + HexValue(HexDigit(n % 16, upper)) == n
  {
  }

  lemma OctalRead(s: bytes, i: nat, c: byte)
    requires i + 3 <= |s|
    requires var n := c as int; s[i..i + 3] == [OctDigit(n / 64), OctDigit(n / 8 % 8), OctDigit(n % 8)]
    ensures OctalDigits(s, i, 3) == 3 && OctalValue(s[i..i + 3]) == c as int
  {
    var n := c as int;
    var d := s[i..i + 3];
    assert s[i] == d[0] && s[i + 1] == d[1] && s[i + 2] == d[2];
    assert OctalDigits(s, i + 2, 1) == 1 && OctalDigits(s, i + 1, 2) == 2;
    assert d[..2][..1] == [d[0]] && d[..2] == [d[0], d[1]] && [d[0]][..0] == [];
    assert OctalValue([d[0]]) == n / 64;
    assert OctalValue(d[..2]) == n / 64 * 8 + n / 8 % 8;
    assert n / 64 * 8 + n / 8 % 8 == n / 8;
  }

  lemma HexUndone(readHex: HexReader, t: bytes, i: nat, c: byte, upper: bool, out: bytes)
    requires var w := WriteByte(c, Hex(upper)); i + 4 <= |t| && t[i..i + 4] == w
    ensures t[i] == '\\' && Escape(readHex, t, i + 1, out) == Step(i + 4, out + [c])
  {
    hide HexDigit, HexValue, IsHexDigit, AppendUnicode, SkipBlank, AppendOctal;
    var w := WriteByte(c, Hex(upper));
    ByteAt(t, i, w, 0);
    ByteAt(t, i, w, 1);
    ByteAt(t, i, w, 2);
    ByteAt(t, i, w, 3);
    DigitsRead(c, upper);
  }

  lemma OctalUndone(readHex: HexReader, t: bytes, i: nat, c: byte, out: bytes)
    requires var w := WriteByte(c, Octal); i + 4 <= |t| && t[i..i + 4] == w
    ensures t[i] == '\\' && Escape(readHex, t, i + 1, out) == Step(i + 4, out + [c])
  {
    hide AppendUnicode, SkipBlank, AppendHex, OctalDigits, OctalValue;
    var w := WriteByte(c, Octal);
    ByteAt(t, i, w, 0);
    ByteAt(t, i, w, 1);
    assert t[i + 1..i + 4] == t[i..i + 4][1..];
    OctalRead(t, i + 1, c);
  }

  lemma UnescapesByte(readHex: HexReader, t: bytes, i: nat, c: byte, style: Style, quote: byte, out: bytes)
    requires IsQuote(quote) && (style.Plain? ==> !NeedsEscape(c, quote))
    requires var w := WriteByte(c, style); i + |w| <= |t| && t[i..i + |w|] == w
    ensures UnescapeFrom(readHex, t, i, quote, out) ==
      UnescapeFrom(readHex, t, i + |WriteByte(c, style)|, quote, out + [c])
  {
    hide Escape, HexDigit, OctDigit;
    match style
    case Plain => { ByteAt(t, i, WriteByte(c, style), 0); }
    case Hex(upper) => { HexUndone(readHex, t, i, c, upper, out); }
    case Octal => { OctalUndone(readHex, t, i, c, out); }
  }

  lemma {:induction false} UnescapesBytes(
    readHex: HexReader, t: bytes, i: nat, s: bytes, styles: seq<Style>, quote: byte, out: bytes)
    requires IsQuote(quote) && Chosen(s, styles, quote)
    requires i <= |t| && t[i..] == WriteBytes(s, styles) + [quote]
    ensures UnescapeFrom(readHex, t, i, quote, out) == out + s
    decreases |s|
  {
    hide WriteByte, Escape;
    if s == [] {
      assert t[i] == t[i..][0] && out + [] == out;
    } else {
      var w, rest := WriteByte(s[0], styles[0]), WriteBytes(s[1..], styles[1..]);
      assert t[i..] == w + (rest + [quote]);
      assert t[i..i + |w|] == t[i..][..|w|] == w && t[i + |w|..] == t[i..][|w|..] == rest + [quote];
      UnescapesByte(readHex, t, i, s[0], styles[0], quote, out);
      UnescapesBytes(readHex, t, i + |w|, s[1..], styles[1..], quote, out + [s[0]]);
      assert out + [s[0]] + s[1..] == out + s;
    }
  }

  // Text that a quoted string can hold as it is: it does not close it, break it or escape what follows.
  predicate IsInert(w: bytes, quote: byte) {
    (forall k | 0 <= k < |w| :: w[k] != quote && w[k] != '\r' && w[k] != '\n') && (w != [] ==> w[|w| - 1] != '\\')
  }

  lemma WrittenByteIsInert(c: byte, style: Style, quote: byte)
    requires IsQuote(quote) && (style.Plain? ==> !NeedsEscape(c, quote))
    ensures IsInert(WriteByte(c, style), quote)
  {
  }

  lemma {:induction false} WrittenBytesAreInert(s: bytes, styles: seq<Style>, quote: byte)
    requires IsQuote(quote) && Chosen(s, styles, quote)
    ensures IsInert(WriteBytes(s, styles), quote)
  {
    hide WriteByte;
    if s != [] {
      WrittenByteIsInert(s[0], styles[0], quote);
      WrittenBytesAreInert(s[1..], styles[1..], quote);
    }
  }

  lemma InertFits(w: bytes, quote: byte)
    requires IsInert(w, quote)
    ensures FitsInQuotes(w, quote) && '\r' !in w
  {
  }

  // Every byte string, written with any choice of escapes, is lexed as one token, wherever it
  // stands, and unescaping that token's text gives the byte string back.
  lemma QuotingRoundTrip(
    isNumber: NumberTest, readHex: HexReader, before: bytes, s: bytes, styles: seq<Style>, quote: byte, after: bytes)
    requires IsQuote(quote) && Chosen(s, styles, quote)
    ensures var text := Quote(s, styles, quote);
      && TokenAt(isNumber, before + text + after, |before|) == Piece(String, text, |before| + |text|)
      && Unescape(readHex, text) == s
  {
    hide TokenAt, UnescapeFrom, WriteBytes, IsInert, FitsInQuotes;
    var w := WriteBytes(s, styles);
    var text := Quote(s, styles, quote);
    WrittenBytesAreInert(s, styles, quote);
    InertFits(w, quote);
    PlainTextIsOneToken(isNumber, before, w, quote, after);
    assert text[0] == quote && text[1..] == w + [quote];
    UnescapesBytes(readHex, text, 1, s, styles, quote, []);
    assert [] + s == s;
  }

  // ----- \u escapes -----

  // A \u escape adds the UTF-8 form of its code point exactly when that is one byte, or shorter
  // than what has been written before it; otherwise it adds nothing.
  lemma UnicodeEscapeNeedsRoom(readHex: HexReader, s: bytes, i: nat, out: bytes, close: nat, cp: Scalar)
    requires At(s, i) == '{' && FindByte(s, i, '}') == Some(close) && readHex(s[i + 1..]) == cp
    ensures var step := AppendUnicode(readHex, s, i, out);
      && step.next == close + 1
      && (step.out == out + Utf8(cp) <==> cp < 0x80 || Utf8Length(cp) < |out|)
      && (step.out == out || step.out == out + Utf8(cp))
  {
    hide Utf8, WriteUtf8;
    WritesUtf8(cp, |out|, 0);
    assert |out + Utf8(cp)| > |out|;
  }

  // So a string that starts with an escaped e-acute loses it.
  lemma UnicodeEscapeLost(readHex: HexReader)
    requires readHex("E9}") == 0xE9
    ensures AppendUnicode(readHex, "{E9}", 0, []) == Step(4, [])
  {
    var s: bytes := "{E9}";
    assert FindByte(s, 3, '}') == Some(3) && FindByte(s, 2, '}') == Some(3) && FindByte(s, 1, '}') == Some(3);
    assert s[1..] == "E9}";
  }

  // ----- Escapes that are not documented -----

  // Two hexadecimal digits at i
  predicate HasHexPair(s: bytes, i: nat) {
    i + 1 < |s| && Characters.IsHexDigit(s[i]) && Characters.IsHexDigit(s[i + 1])
  }

  // An opening brace at i, and a closing one somewhere behind it in the same C string
  predicate HasBraces(s: bytes, i: nat) {
    i < |s| && s[i] == '{' && exists k | i < k < |s| :: s[k] == '}' && forall n | i <= n < k :: s[n] != '\0'
  }

  lemma {:induction false} FindsFirst(s: bytes, i: nat, c: byte, k: nat)
    requires c != '\0' && i <= k < |s| && s[k] == c && forall n | i <= n < k :: s[n] != '\0'
    ensures FindByte(s, i, c).Some?
    decreases k - i
  {
    if i < k {
      FindsFirst(s, i + 1, c, k);
    }
  }

  lemma {:induction false} FoundIsThere(s: bytes, i: nat, c: byte)
    requires c != '\0' && FindByte(s, i, c).Some?
    ensures var k := FindByte(s, i, c).value; i <= k < |s| && s[k] == c && forall n | i <= n < k :: s[n] != '\0'
    decreases |s| - i
  {
    if s[i] != c {
      FoundIsThere(s, i + 1, c);
    }
  }

  lemma BracesAreFound(s: bytes, i: nat)
    ensures HasBraces(s, i) <==> At(s, i) == '{' && FindByte(s, i, '}').Some?
  {
    hide FindByte;
    if HasBraces(s, i) {
      var k: nat :| i < k < |s| && s[k] == '}' && forall n | i <= n < k :: s[n] != '\0';
      FindsFirst(s, i, '}', k);
    }
    if At(s, i) == '{' && FindByte(s, i, '}').Some? {
      FoundIsThere(s, i, '}');
    }
  }

  // \x without two digits behind it and \u without braces stand for nothing.
  lemma UnfinishedEscapeIsDropped(readHex: HexReader, s: bytes, i: nat, quote: byte, out: bytes)
    requires i + 1 < |s| && s[i] == '\\' && quote != '\\'
    requires (s[i + 1] == 'x' && !HasHexPair(s, i + 2)) || (s[i + 1] == 'u' && !HasBraces(s, i + 2))
    ensures UnescapeFrom(readHex, s, i, quote, out) == UnescapeFrom(readHex, s, i + 2, quote, out)
  {
    hide FindByte, HasBraces, WriteUtf8;
    BracesAreFound(s, i + 2);
    if i + 3 < |s| {
      ClassesAreDocumented(s[i + 2]);
      ClassesAreDocumented(s[i + 3]);
    }
  }

  // An escaped line end stands for one newline, however it is written.
  lemma LineEndIsNewline(readHex: HexReader, s: bytes, i: nat, quote: byte, out: bytes)
    requires i + 1 < |s| && s[i] == '\\' && quote != '\\' && s[i + 1] as int in {0x0A, 0x0D}
    ensures var n := if i + 2 < |s| && s[i + 1] as int == 0x0D && s[i + 2] as int == 0x0A then 3 else 2;
      UnescapeFrom(readHex, s, i, quote, out) == UnescapeFrom(readHex, s, i + n, quote, out + [0x0A as char])
  {
    hide AppendUnicode, AppendHex, AppendOctal;
  }

  // A text without backslashes that no quote starts is kept as it is, up to a NUL.
  lemma {:induction false} UnquotedTextIsKept(readHex: HexReader, s: bytes, i: nat, out: bytes)
    requires i <= |s| && forall k | i <= k < |s| :: s[k] !in {'\\', '\0'}
    ensures UnescapeFrom(readHex, s, i, '\0', out) == out + s[i..]
    ensures i == 0 && out == [] && (s == [] || !Characters.IsQuote(s[0])) ==> Unescape(readHex, s) == s
    decreases |s| - i
  {
    if i < |s| {
      UnquotedTextIsKept(readHex, s, i + 1, out + [s[i]]);
      assert out + [s[i]] + s[i + 1..] == out + s[i..];
      ClassesAreDocumented(s[0]);
    } else {
      assert out + s[i..] == out;
    }
    assert [] + s[0..] == s;
  }
}
