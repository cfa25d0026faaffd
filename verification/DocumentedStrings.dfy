// Quoted strings in every documented form (doc/eltn.md, "Quoted String"): which of them the lexer reads as one
// token, and which of them are unescaped to the documented bytes.
module DocumentedStrings {
  import opened Bytes
  import opened Tokens
  import opened Scanner
  import opened LexerTheorems
  import opened StringTheorems
  import opened Transcode
  import opened TranscodeTheorems
  import opened Escapes
  import opened EscapeTheorems

  // ----- The documented forms -----

  datatype Element =
    | Char(c: byte)            // stands for itself
    | Letter(c: byte)          // \a \b \f \n \r \t \v
    | Escaped(c: byte)         // a backslash or a quote behind a backslash
    | Newline                  // an escaped newline
    | Skip(blanks: bytes)      // \z and the white space that it removes
    | Byte(high: byte, low: byte)
    | Digits(digits: bytes)    // one to three octal digits
    | CodePoint(digits: bytes)

  function LetterMeaning(c: byte): Option<byte> {
    match c
    case 'a' => Some('\U{07}')
    case 'b' => Some('\U{08}')
    case 'f' => Some('\U{0C}')
    case 'n' => Some('\n')
    case 'r' => Some('\r')
    case 't' => Some('\t')
    case 'v' => Some('\U{0B}')
    case _ => None
  }

  function HexNumber(digits: bytes): nat
    requires forall d <- digits :: IsHexDigit(d)
  {
    if digits == [] then 0
    else
      assert digits[|digits| - 1] in digits;
      HexNumber(digits[..|digits| - 1]) * 16 + HexValue(digits[|digits| - 1])
  }

  predicate IsScalar(n: int) {
    0 <= n <= 0xD7FF || 0xE000 <= n <= 0x10_FFFF
  }

  predicate WfElement(e: Element, quote: byte) {
    match e
    case Char(c) => !NeedsEscape(c, quote)
    case Letter(c) => LetterMeaning(c).Some?
    case Escaped(c) => c == '\\' || IsQuote(c)
    case Newline => true
    case Skip(blanks) => forall b <- blanks :: IsSpace(b) && b != '\r'
    case Byte(high, low) => IsHexDigit(high) && IsHexDigit(low)
    case Digits(digits) => 1 <= |digits| <= 3 && (forall d <- digits :: IsOctDigit(d)) && OctalValue(digits) < 0x100
    case CodePoint(digits) => digits != [] && (forall d <- digits :: IsHexDigit(d)) && IsScalar(HexNumber(digits))
  }

  function Written(e: Element): bytes {
    match e
    case Char(c) => [c]
    case Letter(c) => ['\\', c]
    case Escaped(c) => ['\\', c]
    case Newline => ['\\', '\n']
    case Skip(blanks) => ['\\', 'z'] + blanks
    case Byte(high, low) => ['\\', 'x', high, low]
    case Digits(digits) => ['\\'] + digits
    case CodePoint(digits) => ['\\', 'u', '{'] + digits + ['}']
  }

  function AsByte(n: nat): byte
    requires n < 0x100
  {
    n as char
  }

  function Meaning(e: Element, quote: byte): bytes
    requires WfElement(e, quote)
  {
    match e
    case Char(c) => [c]
    case Letter(c) => [LetterMeaning(c).value]
    case Escaped(c) => [c]
    case Newline => ['\n']
    case Skip(_) => []
    case Byte(high, low) => [AsByte(HexValue(high) * 16 + HexValue(low))]
    case Digits(digits) => [AsByte(OctalValue(digits))]
    case CodePoint(digits) => Utf8(HexNumber(digits))
  }

  function WrittenAll(es: seq<Element>): bytes {
    if es == [] then [] else Written(es[0]) + WrittenAll(es[1..])
  }

  function MeaningAll(es: seq<Element>, quote: byte): bytes
    requires forall e <- es :: WfElement(e, quote)
  {
    if es == [] then [] else Meaning(es[0], quote) + MeaningAll(es[1..], quote)
  }

  // \z removes all of the white space that follows it, and fewer than three octal digits have none behind them.
  predicate MayFollow(e: Element, next: byte) {
    && (e.Skip? ==> !IsSpace(next))
    && (e.Digits? && |e.digits| < 3 ==> !IsOctDigit(next))
  }

  predicate Documented(es: seq<Element>, quote: byte) {
    && (forall e <- es :: WfElement(e, quote))
    && forall i | 0 <= i < |es| :: MayFollow(es[i], (WrittenAll(es[i + 1..]) + [quote])[0])
  }

  // What is asked of strtol: it reads hexadecimal digits up to the closing brace.
  ghost predicate ReadsHex(readHex: HexReader) {
    forall digits: bytes, rest: bytes |
      digits != [] && (forall d <- digits :: IsHexDigit(d)) && IsScalar(HexNumber(digits)) ::
      readHex(digits + ['}'] + rest) == HexNumber(digits)
  }

  function HexRun(t: bytes): (r: bytes)
    ensures forall d <- r :: IsHexDigit(d)
  {
    if t != [] && IsHexDigit(t[0]) then [t[0]] + HexRun(t[1..]) else []
  }

  lemma {:induction false} HexRunIs(digits: bytes, rest: bytes)
    requires forall d <- digits :: IsHexDigit(d)
    ensures HexRun(digits + ['}'] + rest) == digits
  {
    var t := digits + ['}'] + rest;
    if digits != [] {
      assert t[0] == digits[0] && digits[0] in digits;
      assert t[1..] == digits[1..] + ['}'] + rest;
      HexRunIs(digits[1..], rest);
    }
  }

  function ReadRun(t: bytes): char32 {
    HexNumber(HexRun(t)) % 0x1_0000_0000
  }

  lemma ReadRunIs(digits: bytes, rest: bytes)
    requires (forall d <- digits :: IsHexDigit(d)) && IsScalar(HexNumber(digits))
    ensures ReadRun(digits + ['}'] + rest) == HexNumber(digits)
  {
    hide HexNumber, HexRun, IsHexDigit;
    HexRunIs(digits, rest);
  }

  // strtol itself is such a reader; so is one that knows nothing but hexadecimal digits.
  lemma HexadecimalReader() returns (readHex: HexReader)
    ensures ReadsHex(readHex)
  {
    hide HexNumber, ReadRun, IsHexDigit, IsScalar;
    readHex := t => ReadRun(t);
    forall digits: bytes, rest: bytes | digits != [] && (forall d <- digits :: IsHexDigit(d)) && IsScalar(HexNumber(digits))
      ensures readHex(digits + ['}'] + rest) == HexNumber(digits)
    {
      ReadRunIs(digits, rest);
    }
  }

  // Every \u escape is one byte in UTF-8, or shorter there than all that stands before it.
  predicate HasRoom(e: Element, n: nat, quote: byte)
    requires WfElement(e, quote)
  {
    e.CodePoint? ==> HexNumber(e.digits) < 0x80 || Utf8Length(HexNumber(e.digits)) < n
  }

  predicate AllHaveRoom(es: seq<Element>, n: nat, quote: byte)
    requires forall e <- es :: WfElement(e, quote)
  {
    es != [] ==> HasRoom(es[0], n, quote) && AllHaveRoom(es[1..], n + |Meaning(es[0], quote)|, quote)
  }

  // ----- Unescaping one element -----

  predicate Stands(t: bytes, i: nat, w: bytes) {
    i + |w| < |t| && t[i..i + |w|] == w
  }

  lemma StandsAt(t: bytes, i: nat, w: bytes, k: nat)
    requires Stands(t, i, w) && k < |w|
    ensures t[i + k] == w[k] && Stands(t, i + k, w[k..])
  {
    ByteAt(t, i, w, k);
    assert t[i + k..i + |w|] == t[i..i + |w|][k..];
  }

  lemma StandsBehind(t: bytes, i: nat, w: bytes)
    requires Stands(t, i, w) && w != []
    ensures Stands(t, i + 1, w[1..]) && |t| > i + |w|
  {
    assert t[i + 1..i + |w|] == t[i..i + |w|][1..];
  }

  lemma StandsBefore(t: bytes, i: nat, w: bytes)
    requires Stands(t, i, w)
    ensures i + |w| < |t|
  {
  }

  lemma {:induction false} BlanksSkipped(t: bytes, i: nat, blanks: bytes)
    requires Stands(t, i, blanks) && (forall b <- blanks :: IsSpace(b)) && !IsSpace(At(t, i + |blanks|))
    ensures SkipBlank(t, i) == i + |blanks|
    decreases |blanks|
  {
    hide Stands, IsSpace;
    if blanks != [] {
      StandsAt(t, i, blanks, 0);
      StandsBehind(t, i, blanks);
      assert blanks[0] in blanks;
      BlanksSkipped(t, i + 1, blanks[1..]);
    } else {
      StandsBefore(t, i, blanks);
    }
  }

  lemma {:induction false} DigitsCounted(t: bytes, i: nat, digits: bytes, limit: nat)
    requires Stands(t, i, digits) && (forall d <- digits :: IsOctDigit(d)) && |digits| <= limit
    requires |digits| < limit ==> !IsOctDigit(t[i + |digits|])
    ensures OctalDigits(t, i, limit) == |digits|
    decreases |digits|
  {
    if digits != [] {
      StandsAt(t, i, digits, 0);
      assert digits[0] in digits;
      assert digits == [digits[0]] + digits[1..];
      assert t[i + 1..i + |digits|] == t[i..i + |digits|][1..];
      DigitsCounted(t, i + 1, digits[1..], limit - 1);
    }
  }

  lemma {:induction false} BraceFound(t: bytes, i: nat, digits: bytes)
    requires Stands(t, i, digits + ['}']) && forall d <- digits :: IsHexDigit(d)
    ensures FindByte(t, i, '}') == Some(i + |digits|)
    decreases |digits|
  {
    var w := digits + ['}'];
    StandsAt(t, i, w, 0);
    if digits != [] {
      assert digits[0] in digits;
      assert w[1..] == digits[1..] + ['}'];
      StandsAt(t, i, w, 1);
      BraceFound(t, i + 1, digits[1..]);
    }
  }

  // The step that each element takes
  function Done(e: Element, quote: byte, next: nat, out: bytes): Step
    requires WfElement(e, quote)
  {
    Step(next, if HasRoom(e, |out|, quote) then out + Meaning(e, quote) else out)
  }

  lemma ShortEscapeDone(readHex: HexReader, t: bytes, i: nat, e: Element, quote: byte, out: bytes)
    requires IsQuote(quote) && WfElement(e, quote) && (e.Letter? || e.Escaped? || e.Newline?) && Stands(t, i, Written(e))
    ensures t[i] == '\\' && Escape(readHex, t, i + 1, out) == Done(e, quote, i + |Written(e)|, out)
  {
    hide Escape, Stands;
    StandsAt(t, i, Written(e), 0);
    StandsAt(t, i, Written(e), 1);
    StandsBefore(t, i, Written(e));
    TwoByteEscape(readHex, t, i + 1, out);
  }

  lemma TwoByteEscape(readHex: HexReader, t: bytes, i: nat, out: bytes)
    requires i < |t| && (LetterMeaning(t[i]).Some? || t[i] == '\\' || IsQuote(t[i]) || t[i] == '\n')
    ensures Escape(readHex, t, i, out) ==
      Step(i + 1, out + [if LetterMeaning(t[i]).Some? then LetterMeaning(t[i]).value else t[i]])
  {
    hide AppendUnicode, AppendOctal, AppendHex, SkipBlank;
  }

  lemma SkipDone(readHex: HexReader, t: bytes, i: nat, e: Element, quote: byte, out: bytes)
    requires WfElement(e, quote) && e.Skip? && Stands(t, i, Written(e)) && MayFollow(e, t[i + |Written(e)|])
    ensures t[i] == '\\' && Escape(readHex, t, i + 1, out) == Done(e, quote, i + |Written(e)|, out)
  {
    hide AppendUnicode, AppendOctal, AppendHex, SkipBlank, IsSpace;
    var w := Written(e);
    StandsAt(t, i, w, 0);
    StandsAt(t, i, w, 1);
    assert w[2..] == e.blanks && t[i + 2..i + |w|] == t[i..i + |w|][2..];
    BlanksSkipped(t, i + 2, e.blanks);
    assert out + [] == out;
  }

  lemma ByteDone(readHex: HexReader, t: bytes, i: nat, e: Element, quote: byte, out: bytes)
    requires WfElement(e, quote) && e.Byte? && Stands(t, i, Written(e))
    ensures t[i] == '\\' && Escape(readHex, t, i + 1, out) == Done(e, quote, i + |Written(e)|, out)
  {
    hide AppendUnicode, AppendOctal, SkipBlank, HexValue, IsHexDigit;
    var w := Written(e);
    StandsAt(t, i, w, 0);
    StandsAt(t, i, w, 1);
    StandsAt(t, i, w, 2);
    StandsAt(t, i, w, 3);
  }

  lemma DigitsDone(readHex: HexReader, t: bytes, i: nat, e: Element, quote: byte, out: bytes)
    requires WfElement(e, quote) && e.Digits? && Stands(t, i, Written(e)) && MayFollow(e, t[i + |Written(e)|])
    ensures t[i] == '\\' && Escape(readHex, t, i + 1, out) == Done(e, quote, i + |Written(e)|, out)
  {
    hide Escape, OctalValue, IsOctDigit, Stands;
    StandsAt(t, i, Written(e), 0);
    OctalDigitsRead(readHex, t, i, e.digits, out);
  }

  lemma OctalDigitsRead(readHex: HexReader, t: bytes, i: nat, digits: bytes, out: bytes)
    requires Stands(t, i, ['\\'] + digits) && 1 <= |digits| <= 3 && (forall d <- digits :: IsOctDigit(d))
    requires (|digits| < 3 ==> !IsOctDigit(t[i + 1 + |digits|])) && OctalValue(digits) < 0x100
    ensures Escape(readHex, t, i + 1, out) == Step(i + 1 + |digits|, out + [AsByte(OctalValue(digits))])
  {
    hide Escape, AppendOctal, OctalValue, OctalDigits, IsOctDigit, AsByte, Stands;
    var w := ['\\'] + digits;
    StandsAt(t, i, w, 1);
    assert w[1..] == digits && w[1] == digits[0];
    assert digits[0] in digits;
    DigitsCounted(t, i + 1, digits, 3);
    OctalEscape(readHex, t, i + 1, out);
    OctalStep(t, i + 1, digits, out);
  }

  lemma OctalEscape(readHex: HexReader, t: bytes, i: nat, out: bytes)
    requires i < |t| && IsOctDigit(t[i])
    ensures Escape(readHex, t, i, out) == AppendOctal(t, i, out)
  {
    hide AppendUnicode, AppendHex, SkipBlank, AppendOctal;
  }

  lemma OctalStep(t: bytes, i: nat, digits: bytes, out: bytes)
    requires Stands(t, i, digits) && OctalDigits(t, i, 3) == |digits| && OctalValue(digits) < 0x100 && digits != []
    ensures AppendOctal(t, i, out) == Step(i + |digits|, out + [AsByte(OctalValue(digits))])
  {
    hide OctalValue, OctalDigits;
    assert OctalValue(digits) % 0x100 == OctalValue(digits);
  }

  lemma CodePointDone(readHex: HexReader, t: bytes, i: nat, e: Element, quote: byte, out: bytes)
    requires ReadsHex(readHex) && WfElement(e, quote) && e.CodePoint? && Stands(t, i, Written(e))
    ensures t[i] == '\\' && Escape(readHex, t, i + 1, out) == Done(e, quote, i + |Written(e)|, out)
  {
    hide Escape, AppendUnicode, Utf8, HexNumber, IsHexDigit, Stands;
    var w, d := Written(e), e.digits;
    StandsAt(t, i, w, 0);
    StandsAt(t, i, w, 1);
    StandsAt(t, i, w, 2);
    assert w[3..] == d + ['}'];
    StandsAt(t, i, w, 3);
    StandsBefore(t, i, w);
    UnicodeEscape(readHex, t, i + 1, out);
    BraceAfter(t, i + 2, d);
    var close := i + 3 + |d|;
    var rest := t[close + 1..];
    assert t[i + 3..] == t[i + 3..close + 1] + rest == d + ['}'] + rest;
    assert readHex(d + ['}'] + rest) == HexNumber(d);
    UnicodeEscapeNeedsRoom(readHex, t, i + 2, out, close, HexNumber(d));
  }

  lemma UnicodeEscape(readHex: HexReader, t: bytes, i: nat, out: bytes)
    requires i < |t| && t[i] == 'u'
    ensures Escape(readHex, t, i, out) == AppendUnicode(readHex, t, i + 1, out)
  {
    hide AppendUnicode, AppendOctal, AppendHex, SkipBlank;
  }

  lemma BraceAfter(t: bytes, i: nat, digits: bytes)
    requires i < |t| && t[i] == '{' && Stands(t, i + 1, digits + ['}']) && forall d <- digits :: IsHexDigit(d)
    ensures FindByte(t, i, '}') == Some(i + 1 + |digits|)
  {
    hide IsHexDigit;
    BraceFound(t, i + 1, digits);
  }

  lemma ElementDone(readHex: HexReader, t: bytes, i: nat, e: Element, quote: byte, out: bytes)
    requires IsQuote(quote) && ReadsHex(readHex) && WfElement(e, quote)
    requires Stands(t, i, Written(e)) && MayFollow(e, t[i + |Written(e)|])
    ensures var d := Done(e, quote, i + |Written(e)|, out);
      UnescapeFrom(readHex, t, i, quote, out) == UnescapeFrom(readHex, t, d.next, quote, d.out)
  {
    hide Escape, MayFollow, ReadsHex;
    match e
    case Char(c) => StandsAt(t, i, Written(e), 0);
    case Skip(_) => SkipDone(readHex, t, i, e, quote, out);
    case Byte(_, _) => ByteDone(readHex, t, i, e, quote, out);
    case Digits(_) => DigitsDone(readHex, t, i, e, quote, out);
    case CodePoint(_) => CodePointDone(readHex, t, i, e, quote, out);
    case _ => ShortEscapeDone(readHex, t, i, e, quote, out);
  }

  // ----- Unescaping a string -----

  lemma DocumentedTail(es: seq<Element>, quote: byte)
    requires es != [] && Documented(es, quote)
    ensures WfElement(es[0], quote) && MayFollow(es[0], (WrittenAll(es[1..]) + [quote])[0]) && Documented(es[1..], quote)
  {
    hide WfElement, MayFollow, WrittenAll;
    forall i | 0 <= i < |es[1..]|
      ensures MayFollow(es[1..][i], (WrittenAll(es[1..][i + 1..]) + [quote])[0])
    {
      assert es[1..][i + 1..] == es[i + 2..] && es[1..][i] == es[i + 1];
    }
  }

  // From any place on: all of the documented bytes if every \u escape has room, and fewer bytes if one has none
  lemma {:induction false} ElementsDone(readHex: HexReader, t: bytes, i: nat, es: seq<Element>, quote: byte, out: bytes)
    requires IsQuote(quote) && ReadsHex(readHex) && Documented(es, quote)
    requires i <= |t| && t[i..] == WrittenAll(es) + [quote]
    ensures var r, all := UnescapeFrom(readHex, t, i, quote, out), out + MeaningAll(es, quote);
      if AllHaveRoom(es, |out|, quote) then r == all else |r| < |all|
    decreases |es|
  {
    hide Written, Meaning, WfElement, HasRoom, MayFollow, ReadsHex, UnescapeFrom, Stands;
    if es == [] {
      assert [] + [quote] == [quote];
      StringEnds(readHex, t, i, quote, out);
    } else {
      DocumentedTail(es, quote);
      var w, rest := Written(es[0]), WrittenAll(es[1..]);
      ElementStands(t, i, w, rest, quote);
      ElementDone(readHex, t, i, es[0], quote, out);
      var d := Done(es[0], quote, i + |w|, out);
      ElementsDone(readHex, t, i + |w|, es[1..], quote, d.out);
      Together(out, Meaning(es[0], quote), MeaningAll(es[1..], quote));
      if !HasRoom(es[0], |out|, quote) {
        LostIsShorter(es[0], |out|, quote);
      }
    }
  }

  lemma StringEnds(readHex: HexReader, t: bytes, i: nat, quote: byte, out: bytes)
    requires i <= |t| && t[i..] == [quote]
    ensures UnescapeFrom(readHex, t, i, quote, out) == out == out + []
  {
    assert t[i] == t[i..][0];
  }

  lemma Together(a: bytes, b: bytes, c: bytes)
    ensures a + b + c == a + (b + c)
  {
  }

  lemma ElementStands(t: bytes, i: nat, w: bytes, rest: bytes, quote: byte)
    requires i <= |t| && t[i..] == w + rest + [quote]
    ensures Stands(t, i, w) && t[i + |w|..] == rest + [quote] && t[i + |w|] == (rest + [quote])[0]
  {
    assert t[i..i + |w|] == t[i..][..|w|];
    assert t[i + |w|..] == t[i..][|w|..];
    assert t[i + |w|] == t[i + |w|..][0];
  }

  lemma LostIsShorter(e: Element, n: nat, quote: byte)
    requires WfElement(e, quote) && !HasRoom(e, n, quote)
    ensures |Meaning(e, quote)| > 0
  {
  }

  // ----- Lexing -----

  // A newline past the first byte that \z removes would break the string off.
  predicate Unbroken(e: Element) {
    e.Skip? ==> forall k | 0 < k < |e.blanks| :: e.blanks[k] != '\n'
  }

  predicate IsOneToken(es: seq<Element>) {
    (forall e <- es :: Unbroken(e)) && (es != [] ==> es[|es| - 1] != Escaped('\\'))
  }

  lemma GoesOnBefore(s: bytes, more: bytes, quote: byte)
    requires GoesOn(s + more, quote)
    ensures GoesOn(s, quote)
  {
    forall k | 0 <= k < |s|
      ensures !Closes(s, k, quote) && !Breaks(s, k, quote)
    {
      assert !Closes(s + more, k, quote) && !Breaks(s + more, k, quote);
      assert (s + more)[..k] == s[..k];
    }
  }

  // An element's bytes that could end a string
  lemma EndingBytes(e: Element, quote: byte, o: nat)
    requires IsQuote(quote) && WfElement(e, quote) && o < |Written(e)|
    ensures Written(e)[o] == quote ==> o > 0 && Written(e)[o - 1] == '\\'
    ensures Written(e)[o] == '\n' ==> o > 0 && if e.Skip? then o > 1 else Written(e)[o - 1] == '\\'
    ensures e.Skip? && o > 1 ==> Written(e)[o] == e.blanks[o - 2] && IsSpace(Written(e)[o])
  {
    var w := Written(e);
    match e
    case Skip(blanks) => if o > 1 { assert w[o] in blanks; }
    case Digits(digits) => if o > 0 { assert w[o] in digits; }
    case CodePoint(digits) => if 3 <= o < |w| - 1 { assert w[o] in digits; }
    case _ =>
  }

  lemma ElementGoesOn(s: bytes, e: Element, quote: byte)
    requires IsQuote(quote) && WfElement(e, quote) && GoesOn(s, quote)
    ensures GoesOn(s + Written(e), quote) <==> Unbroken(e)
  {
    hide Written, WfElement, EndsWith;
    var w := Written(e);
    var all := s + w;
    forall k | 0 <= k < |all|
      ensures !Closes(all, k, quote)
      ensures k < |s| ==> !Breaks(all, k, quote)
      ensures k >= |s| ==> (Breaks(all, k, quote) <==> e.Skip? && k > |s| + 2 && all[k] == '\n')
    {
      if k < |s| {
        assert all[..k] == s[..k];
        assert !Closes(s, k, quote) && !Breaks(s, k, quote);
      } else {
        EndingBytes(e, quote, k - |s|);
        if all[k] == '\n' && e.Skip? {
          BlankStands(s, e, quote, k);
        }
      }
    }
    if e.Skip? {
      BlanksAre(e);
      assert forall k | 0 < k < |e.blanks| :: all[|s| + 2 + k] == e.blanks[k];
      assert forall k | |s| + 2 < k < |all| :: all[k] == e.blanks[k - |s| - 2];
    }
  }

  lemma BlanksAre(e: Element)
    requires e.Skip?
    ensures |Written(e)| == 2 + |e.blanks| && forall k | 0 <= k < |e.blanks| :: Written(e)[2 + k] == e.blanks[k]
  {
  }

  // A newline among the blanks is no break just when it comes right after \z.
  lemma BlankStands(s: bytes, e: Element, quote: byte, k: nat)
    requires e.Skip? && WfElement(e, quote) && |s| + 2 <= k < |s + Written(e)| && (s + Written(e))[k] == '\n'
    ensures Breaks(s + Written(e), k, quote) <==> k > |s| + 2
  {
    var all := s + Written(e);
    var head := [quote] + all[..k];
    LastTwo(head);
    assert head[|head| - 1] == all[k - 1] && head[|head| - 2] == all[k - 2];
    assert all[k - 1] == Written(e)[k - 1 - |s|] && all[k - 2] == (s + ['\\'] + Written(e)[1..])[k - 2];
    if k > |s| + 2 {
      var b := e.blanks[k - |s| - 3];
      assert b in e.blanks && all[k - 1] == b;
    }
  }

  lemma LastTwo(s: bytes)
    requires |s| >= 2
    ensures s[|s| - 2..] == [s[|s| - 2], s[|s| - 1]]
  {
  }

  lemma {:induction false} ElementsGoOn(s: bytes, es: seq<Element>, quote: byte)
    requires IsQuote(quote) && (forall e <- es :: WfElement(e, quote)) && GoesOn(s, quote)
    ensures GoesOn(s + WrittenAll(es), quote) <==> forall e <- es :: Unbroken(e)
    decreases |es|
  {
    hide WfElement, Written, Unbroken, GoesOn;
    if es == [] {
      assert s + [] == s;
    } else {
      var w, rest := Written(es[0]), WrittenAll(es[1..]);
      assert s + WrittenAll(es) == s + w + rest;
      ElementGoesOn(s, es[0], quote);
      if GoesOn(s + w, quote) {
        ElementsGoOn(s + w, es[1..], quote);
        assert es == [es[0]] + es[1..];
      } else if GoesOn(s + w + rest, quote) {
        GoesOnBefore(s + w, rest, quote);
      }
    }
  }

  lemma LastByte(e: Element, quote: byte)
    requires WfElement(e, quote)
    ensures var w := Written(e); w != [] && (w[|w| - 1] == '\\' <==> e == Escaped('\\'))
  {
    match e
    case Skip(blanks) => if blanks != [] { assert Written(e)[|Written(e)| - 1] in blanks; }
    case Digits(digits) => assert Written(e)[|Written(e)| - 1] in digits;
    case _ =>
  }

  lemma {:induction false} LastByteOfAll(es: seq<Element>, quote: byte)
    requires es != [] && forall e <- es :: WfElement(e, quote)
    ensures var w := WrittenAll(es); w != [] && (w[|w| - 1] == '\\' <==> es[|es| - 1] == Escaped('\\'))
    decreases |es|
  {
    hide WfElement, Written;
    LastByte(es[0], quote);
    if |es| > 1 {
      LastByteOfAll(es[1..], quote);
    } else {
      assert WrittenAll(es[1..]) == [] && Written(es[0]) + [] == Written(es[0]);
    }
  }

  lemma {:induction false} NoCarriageReturn(es: seq<Element>, quote: byte)
    requires IsQuote(quote) && forall e <- es :: WfElement(e, quote)
    ensures '\r' !in WrittenAll(es)
    decreases |es|
  {
    hide WfElement, Written;
    if es != [] {
      NoneInElement(es[0], quote);
      NoCarriageReturn(es[1..], quote);
    }
  }

  lemma NoneInElement(e: Element, quote: byte)
    requires IsQuote(quote) && WfElement(e, quote)
    ensures '\r' !in Written(e)
  {
  }

  // ----- The documented strings -----

  // For every body in the documented forms: where it stands between quotes, the lexer reads it as one token if and
  // only if it does not end in an escaped backslash and no \z removes a newline but as its first byte; and it is
  // unescaped to the documented bytes if and only if every \u escape has room.
  lemma DocumentedString(
    isNumber: NumberTest, readHex: HexReader, before: bytes, es: seq<Element>, quote: byte, after: bytes)
    requires IsQuote(quote) && Documented(es, quote) && ReadsHex(readHex)
    ensures var text := [quote] + WrittenAll(es) + [quote];
      && (TokenAt(isNumber, before + text + after, |before|) == Piece(String, text, |before| + |text|) <==> IsOneToken(es))
      && (Unescape(readHex, text) == MeaningAll(es, quote) <==> AllHaveRoom(es, 0, quote))
  {
    hide TokenAt, Unescape, WrittenAll, FitsInQuotes, Documented, IsOneToken, ReadsHex;
    WellFormed(es, quote);
    NoCarriageReturn(es, quote);
    PlainTextIsOneToken(isNumber, before, WrittenAll(es), quote, after);
    FitsIfOneToken(es, quote);
    UnescapesAll(readHex, es, quote);
  }

  lemma WellFormed(es: seq<Element>, quote: byte)
    requires Documented(es, quote)
    ensures forall e <- es :: WfElement(e, quote)
  {
  }

  lemma UnescapesAll(readHex: HexReader, es: seq<Element>, quote: byte)
    requires IsQuote(quote) && Documented(es, quote) && ReadsHex(readHex)
    ensures var text := [quote] + WrittenAll(es) + [quote];
      Unescape(readHex, text) == MeaningAll(es, quote) <==> AllHaveRoom(es, 0, quote)
  {
    hide UnescapeFrom, WrittenAll, WfElement, MayFollow, ReadsHex, MeaningAll;
    var text := [quote] + WrittenAll(es) + [quote];
    assert text[0] == quote && text[1..] == WrittenAll(es) + [quote];
    ElementsDone(readHex, text, 1, es, quote, []);
    assert [] + MeaningAll(es, quote) == MeaningAll(es, quote);
  }

  lemma FitsIfOneToken(es: seq<Element>, quote: byte)
    requires IsQuote(quote) && forall e <- es :: WfElement(e, quote)
    ensures FitsInQuotes(WrittenAll(es), quote) <==> IsOneToken(es)
  {
    hide WfElement, Written, GoesOn;
    assert GoesOn([], quote) by {
      EmptyGoesOn(quote);
    }
    assert [] + WrittenAll(es) == WrittenAll(es);
    ElementsGoOn([], es, quote);
    if es != [] {
      LastByteOfAll(es, quote);
    }
  }

  lemma EmptyGoesOn(quote: byte)
    ensures GoesOn([], quote)
  {
  }
}
