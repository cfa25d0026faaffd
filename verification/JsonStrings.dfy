// JSON strings in every form of section 7 of RFC 8259: which of them examples/json/cJSON.c reads, and as what.
module JsonStrings {
  import opened Bytes
  import opened JsonTree
  import opened JsonParse
  import opened JsonOffsets
  import opened JsonUnicode
  import opened TranscodeTheorems

  // ----- The forms -----

  datatype Piece =
    | Plain(b: byte)           // stands for itself
    | Escaped(letter: byte)    // two characters
    | Unit(d0: byte, d1: byte, d2: byte, d3: byte)    // \u and four hexadecimal digits

  function PieceText(p: Piece): bytes {
    match p
    case Plain(b) => [b]
    case Escaped(letter) => ['\\', letter]
    case Unit(d0, d1, d2, d3) => ['\\', 'u', d0, d1, d2, d3]
  }

  predicate WfPiece(p: Piece) {
    match p
    case Plain(b) => b != '\"' && b != '\\'
    case Escaped(letter) => letter != 'u'
    case Unit(d0, d1, d2, d3) => DigitOf(d0).Some? && DigitOf(d1).Some? && DigitOf(d2).Some? && DigitOf(d3).Some?
  }

  // A hexadecimal digit, by its code
  function DigitOf(d: byte): (r: Option<nat>)
    ensures r.Some? ==> r.value < 16
  {
    var code := d as int;
    if 0x30 <= code <= 0x39 then Some(code - 0x30)
    else if 0x41 <= code <= 0x46 then Some(10 + code - 0x41)
    else if 0x61 <= code <= 0x66 then Some(10 + code - 0x61)
    else None
  }

  // The character that a letter behind a backslash stands for
  function Meaning(letter: byte): Option<byte> {
    match letter
    case '\"' => Some('\U{22}')
    case '\\' => Some('\U{5C}')
    case '/' => Some('\U{2F}')
    case 'b' => Some('\U{08}')
    case 'f' => Some('\U{0C}')
    case 'n' => Some('\U{0A}')
    case 'r' => Some('\U{0D}')
    case 't' => Some('\U{09}')
    case _ => None
  }

  function DigitValue(d: byte): (v: nat)
    ensures v < 16
  {
    if DigitOf(d).Some? then DigitOf(d).value else 0
  }

  function UnitValue(p: Piece): (v: nat)
    requires p.Unit?
    ensures v < 0x1_0000
  {
    0x1000 * DigitValue(p.d0) + 0x100 * DigitValue(p.d1) + 0x10 * DigitValue(p.d2) + DigitValue(p.d3)
  }

  predicate IsHigh(p: Piece) {
    p.Unit? && 0xD800 <= UnitValue(p) <= 0xDBFF
  }

  predicate IsLow(p: Piece) {
    p.Unit? && 0xDC00 <= UnitValue(p) <= 0xDFFF
  }

  function PiecesText(ps: seq<Piece>): bytes {
    if ps == [] then [] else PieceText(ps[0]) + PiecesText(ps[1..])
  }

  function Joined(head: Option<bytes>, tail: Option<bytes>): Option<bytes> {
    if head.Some? && tail.Some? then Some(head.value + tail.value) else None
  }

  // The two halves of a surrogate pair
  predicate IsPair(ps: seq<Piece>) {
    |ps| > 1 && IsHigh(ps[0]) && IsLow(ps[1])
  }

  function PairValue(ps: seq<Piece>): Scalar
    requires IsPair(ps)
  {
    0x1_0000 + (UnitValue(ps[0]) - 0xD800) * 0x400 + (UnitValue(ps[1]) - 0xDC00)
  }

  // What the first piece, or the first pair, stands for: nothing if it is an unknown escape or half of a pair
  function FirstValue(ps: seq<Piece>): Option<bytes>
    requires ps != []
  {
    if IsPair(ps) then Some(Utf8(PairValue(ps)))
    else
      match ps[0]
      case Plain(b) => Some([b])
      case Escaped(letter) => if Meaning(letter).Some? then Some([Meaning(letter).value]) else None
      case Unit(_, _, _, _) => if IsHigh(ps[0]) || IsLow(ps[0]) then None else Some(Utf8(UnitValue(ps[0])))
  }

  function Rest(ps: seq<Piece>): (r: seq<Piece>)
    requires ps != []
    ensures |r| < |ps| && forall p <- r :: p in ps
  {
    if IsPair(ps) then ps[2..] else ps[1..]
  }

  // The bytes that a string stands for, in UTF-8
  function Value(ps: seq<Piece>): Option<bytes>
    decreases |ps|
  {
    if ps == [] then Some([]) else Joined(FirstValue(ps), Value(Rest(ps)))
  }

  // From the first form on that stands for nothing
  function FromBad(ps: seq<Piece>): seq<Piece>
    decreases |ps|
  {
    if ps == [] || FirstValue(ps).None? then ps else FromBad(Rest(ps))
  }

  // The bytes before the first NUL
  predicate IsUpToNul(s: bytes, r: bytes) {
    r <= s && NulFree(r) && (|r| < |s| ==> s[|r|] == '\0')
  }

  // ----- Reading -----

  lemma DigitIsHexDigit(d: byte)
    ensures HexDigit(d) == DigitOf(d) && (HexDigit(d).Some? ==> HexDigit(d).value < 16 && d != '\"' && d != '\\')
  {
  }

  lemma EscapeIsUnescaped(letter: byte)
    ensures Unescaped(letter) == Meaning(letter)
  {
  }

  lemma PieceBytes(c: bytes, i: nat, p: Piece)
    requires At(c, i, PieceText(p))
    ensures i + |PieceText(p)| <= |c|
    ensures p.Plain? ==> c[i] == p.b
    ensures !p.Plain? ==> c[i] == '\\' && c[i + 1] == if p.Unit? then 'u' else p.letter
    ensures p.Unit? ==> c[i + 2] == p.d0 && c[i + 3] == p.d1 && c[i + 4] == p.d2 && c[i + 5] == p.d3
  {
    hide At;
    var t := PieceText(p);
    AtByte(c, i, t, 0);
    if !p.Plain? {
      AtByte(c, i, t, 1);
    }
    if p.Unit? {
      AtByte(c, i, t, 2);
      AtByte(c, i, t, 3);
      AtByte(c, i, t, 4);
      AtByte(c, i, t, 5);
    }
  }

  lemma UnitIsRead(c: bytes, i: nat, p: Piece)
    requires p.Unit? && WfPiece(p) && At(c, i, PieceText(p))
    ensures i + 6 <= |c| && ParseHex4(c, i + 2) == UnitValue(p)
    ensures forall k | i + 2 <= k < i + 6 :: c[k] != '\"' && c[k] != '\\'
  {
    hide At, HexDigit, DigitOf;
    PieceBytes(c, i, p);
    DigitIsHexDigit(p.d0);
    DigitIsHexDigit(p.d1);
    DigitIsHexDigit(p.d2);
    DigitIsHexDigit(p.d3);
  }

  lemma PieceClosing(c: bytes, i: nat, p: Piece)
    requires WfPiece(p) && At(c, i, PieceText(p))
    ensures ClosingQuote(c, i) == ClosingQuote(c, i + |PieceText(p)|)
  {
    hide At, DigitOf;
    PieceBytes(c, i, p);
    if p.Unit? {
      UnitIsRead(c, i, p);
      PlainClosing(c, i + 2);
      PlainClosing(c, i + 3);
      PlainClosing(c, i + 4);
      PlainClosing(c, i + 5);
    }
  }

  lemma {:induction false} PiecesClosing(c: bytes, i: nat, ps: seq<Piece>)
    requires (forall p <- ps :: WfPiece(p)) && At(c, i, PiecesText(ps)) && Has(c, i + |PiecesText(ps)|, '\"')
    ensures ClosingQuote(c, i) == Some(i + |PiecesText(ps)|)
    decreases |ps|
  {
    hide At, PieceText, WfPiece;
    if ps != [] {
      AtBoth(c, i, PieceText(ps[0]), PiecesText(ps[1..]));
      PieceClosing(c, i, ps[0]);
      PiecesClosing(c, i + |PieceText(ps[0])|, ps[1..]);
    }
  }

  // What reading the pieces from here on must give: their value behind `out`, or a failure at the first bad one
  predicate GivesValue(r: Parse<bytes>, out: bytes, value: Option<bytes>, end: nat, bad: int) {
    if value.Some? then r == Parsed(out + value.value, end) else r.Failed? && r.offset == bad
  }

  lemma GivesJoined(r: Parse<bytes>, out: bytes, head: bytes, tail: Option<bytes>, end: nat, bad: int)
    requires GivesValue(r, out + head, tail, end, bad)
    ensures GivesValue(r, out, Joined(Some(head), tail), end, bad)
  {
    if tail.Some? {
      assert out + head + tail.value == out + (head + tail.value);
    }
  }

  // Behind the first half of a pair there is the second, or the escape is refused.
  lemma PairIsRead(c: bytes, i: nat, end: nat, ps: seq<Piece>)
    requires (forall p <- ps :: WfPiece(p)) && ps != [] && IsHigh(ps[0])
    requires At(c, i, PiecesText(ps)) && i + |PiecesText(ps)| == end < |c|
    ensures Utf16Literal(c, i, end) == if IsPair(ps) then (Utf8(PairValue(ps)), 12) else ([], 0)
  {
    hide At, DigitOf, EncodeUtf8, Utf8, ParseHex4, PiecesText, UnitValue;
    TextOfPieces(ps);
    AtBoth(c, i, PieceText(ps[0]), PiecesText(ps[1..]));
    assert ps[0] in ps;
    UnitIsRead(c, i, ps[0]);
    if |ps| > 1 {
      assert ps[1] in ps;
      SecondPiece(c, i, ps);
      PieceBytes(c, i + 6, ps[1]);
      if ps[1].Unit? {
        UnitIsRead(c, i + 6, ps[1]);
        if IsPair(ps) {
          EncodesUtf8(PairValue(ps));
          HalvesOf(UnitValue(ps[0]), UnitValue(ps[1]));
        }
      }
    } else {
      NothingBehind(ps);
    }
  }

  lemma HalvesOf(first: nat, second: nat)
    requires 0xD800 <= first <= 0xDBFF && 0xDC00 <= second <= 0xDFFF
    ensures first % 0x400 == first - 0xD800 && second % 0x400 == second - 0xDC00
  {
  }

  lemma NothingBehind(ps: seq<Piece>)
    requires |ps| == 1
    ensures PiecesText(ps[1..]) == []
  {
  }

  lemma SecondPiece(c: bytes, i: nat, ps: seq<Piece>)
    requires |ps| > 1 && ps[0].Unit? && At(c, i, PiecesText(ps))
    ensures At(c, i + 6, PieceText(ps[1])) && At(c, i + 6 + |PieceText(ps[1])|, PiecesText(ps[2..]))
    ensures |PiecesText(ps)| == 6 + |PieceText(ps[1])| + |PiecesText(ps[2..])|
  {
    hide At, PiecesText;
    TextOfPieces(ps);
    TextOfPieces(ps[1..]);
    assert ps[1..][1..] == ps[2..];
    AtBoth(c, i, PieceText(ps[0]), PiecesText(ps[1..]));
    AtBoth(c, i + 6, PieceText(ps[1]), PiecesText(ps[2..]));
  }

  lemma TextOfPieces(ps: seq<Piece>)
    requires ps != []
    ensures PiecesText(ps) == PieceText(ps[0]) + PiecesText(ps[1..])
  {
    hide PieceText;
  }

  lemma SingleIsRead(c: bytes, i: nat, end: nat, p: Piece)
    requires p.Unit? && WfPiece(p) && At(c, i, PieceText(p)) && i + 6 <= end < |c| && !IsHigh(p)
    ensures Utf16Literal(c, i, end) == if IsLow(p) then ([], 0) else (Utf8(UnitValue(p)), 6)
  {
    hide At, DigitOf, EncodeUtf8, Utf8, ParseHex4, UnitValue;
    UnitIsRead(c, i, p);
    if !IsLow(p) {
      EncodesUtf8(UnitValue(p));
    }
  }

  lemma UnescapeStep(c: bytes, i: nat, end: nat, out: bytes)
    requires i < end < |c|
    ensures c[i] != '\\' ==> Unescape(c, i, end, out) == Unescape(c, i + 1, end, out + [c[i]])
    ensures c[i] == '\\' && c[i + 1] == 'u' ==>
      var (utf8, length) := Utf16Literal(c, i, end);
      Unescape(c, i, end, out) == if length == 0 then Failed(i) else Unescape(c, i + length, end, out + utf8)
    ensures c[i] == '\\' && c[i + 1] != 'u' ==>
      Unescape(c, i, end, out) ==
        if Unescaped(c[i + 1]).None? then Failed(i)
        else Unescape(c, i + 2, end, out + [Unescaped(c[i + 1]).value])
  {
    hide Utf16Literal, Unescaped;
  }

  // One step of the second pass
  lemma FirstIsRead(c: bytes, i: nat, ps: seq<Piece>, end: nat, out: bytes)
    requires (forall p <- ps :: WfPiece(p)) && ps != []
    requires At(c, i, PiecesText(ps)) && i + |PiecesText(ps)| == end < |c|
    ensures FirstValue(ps).None? ==> Unescape(c, i, end, out) == Failed(i)
    ensures FirstValue(ps).Some? ==>
      var next := end - |PiecesText(Rest(ps))|;
      && i < next <= end && At(c, next, PiecesText(Rest(ps)))
      && Unescape(c, i, end, out) == Unescape(c, next, end, out + FirstValue(ps).value)
  {
    hide At, DigitOf, Unescape, Utf16Literal, Utf8, PiecesText, UnitValue, Unescaped, Meaning;
    var p := ps[0];
    assert p in ps;
    TextOfPieces(ps);
    AtBoth(c, i, PieceText(p), PiecesText(ps[1..]));
    PieceBytes(c, i, p);
    UnescapeStep(c, i, end, out);
    if p.Escaped? {
      EscapeIsUnescaped(p.letter);
    } else if p.Unit? && IsHigh(p) {
      PairIsRead(c, i, end, ps);
      if |ps| > 1 {
        SecondPiece(c, i, ps);
      }
    } else if p.Unit? {
      SingleIsRead(c, i, end, p);
    }
  }

  lemma {:induction false} PiecesAreRead(c: bytes, i: nat, ps: seq<Piece>, end: nat, out: bytes)
    requires (forall p <- ps :: WfPiece(p)) && At(c, i, PiecesText(ps)) && i + |PiecesText(ps)| == end < |c|
    ensures GivesValue(Unescape(c, i, end, out), out, Value(ps), end, end - |PiecesText(FromBad(ps))|)
    decreases |ps|
  {
    hide At, Unescape, PiecesText, FirstValue, WfPiece, IsPair, Rest;
    if ps == [] {
      NoPieces(c, end, out);
    } else {
      FirstIsRead(c, i, ps, end, out);
      if FirstValue(ps).Some? {
        var v, next := FirstValue(ps).value, end - |PiecesText(Rest(ps))|;
        PiecesAreRead(c, next, Rest(ps), end, out + v);
        GivesJoined(Unescape(c, next, end, out + v), out, v, Value(Rest(ps)), end, end - |PiecesText(FromBad(Rest(ps)))|);
      }
    }
  }

  lemma NoPieces(c: bytes, end: nat, out: bytes)
    requires end < |c|
    ensures PiecesText([]) == [] && Value([]) == Some([])
    ensures Unescape(c, end, end, out) == Parsed(out, end) && out + [] == out
  {
  }

  lemma {:induction false} CStringIsUpToNul(s: bytes)
    ensures IsUpToNul(s, CString(s))
  {
    if s != [] && s[0] != '\0' {
      CStringIsUpToNul(s[1..]);
      assert s == [s[0]] + s[1..];
    }
  }

  // A string in any form: if it has no value, it is refused at the first form that stands for nothing, and otherwise
  // it is read as its value up to the first NUL.
  lemma StringIsRead(c: bytes, o: nat, ps: seq<Piece>)
    requires (forall p <- ps :: WfPiece(p)) && At(c, o, ['\"'] + PiecesText(ps) + ['\"'])
    ensures o < |c| && c[o] == '\"'
    ensures var r := ParseString(c, o);
      if Value(ps).None? then r.Failed? && r.offset == o + 1 + |PiecesText(ps)| - |PiecesText(FromBad(ps))|
      else r.Parsed? && r.offset == o + |PiecesText(ps)| + 2 && IsUpToNul(Value(ps).value, r.value)
  {
    hide At, PiecesText, WfPiece, Unescape, ClosingQuote, Value, CString, IsUpToNul;
    var body := PiecesText(ps);
    assert ['\"'] + body + ['\"'] == ['\"'] + (body + ['\"']);
    AtBoth(c, o, ['\"'], body + ['\"']);
    AtBoth(c, o + 1, body, ['\"']);
    AtByte(c, o, ['\"'], 0);
    AtByte(c, o + 1 + |body|, ['\"'], 0);
    PiecesClosing(c, o + 1, ps);
    PiecesAreRead(c, o + 1, ps, o + 1 + |body|, []);
    if Value(ps).Some? {
      assert [] + Value(ps).value == Value(ps).value;
      CStringIsUpToNul(Value(ps).value);
    }
  }

  lemma {:induction false} NothingCloses(c: bytes, i: nat, ps: seq<Piece>)
    requires (forall p <- ps :: WfPiece(p)) && At(c, i, PiecesText(ps)) && i + |PiecesText(ps)| == |c|
    ensures ClosingQuote(c, i) == None
    decreases |ps|
  {
    hide At, PieceText, WfPiece;
    if ps != [] {
      AtBoth(c, i, PieceText(ps[0]), PiecesText(ps[1..]));
      PieceClosing(c, i, ps[0]);
      NothingCloses(c, i + |PieceText(ps[0])|, ps[1..]);
    }
  }

  // What no quote starts, and a string that the text ends in, are refused behind their first byte.
  lemma NoStringIsRefused(c: bytes, o: nat, ps: seq<Piece>)
    requires o < |c|
    requires c[o] as int == 0x22 ==>
      (forall p <- ps :: WfPiece(p)) && At(c, o + 1, PiecesText(ps)) && o + 1 + |PiecesText(ps)| == |c|
    ensures ParseString(c, o) == Failed(o + 1)
  {
    hide At, PiecesText, WfPiece, Unescape, ClosingQuote;
    if c[o] as int == 0x22 {
      NothingCloses(c, o + 1, ps);
    }
  }

  // ----- What is read -----

  // Four hexadecimal digits follow every \u up to `end`.
  predicate EscapesAreWhole(c: bytes, i: nat, end: nat)
    requires end < |c|
    decreases end - i
  {
    if i >= end then i == end
    else if c[i] != '\\' then EscapesAreWhole(c, i + 1, end)
    else if c[i + 1] != 'u' then EscapesAreWhole(c, i + 2, end)
    else i + 6 <= end && WfPiece(UnitAt(c, i)) && EscapesAreWhole(c, i + 6, end)
  }

  function UnitAt(c: bytes, i: nat): Piece
    requires i + 6 <= |c|
  {
    Unit(c[i + 2], c[i + 3], c[i + 4], c[i + 5])
  }

  lemma FirstOfBody(c: bytes, i: nat, end: nat) returns (p: Piece)
    requires ClosingQuote(c, i) == Some(end) && EscapesAreWhole(c, i, end) && i < end
    ensures WfPiece(p) && At(c, i, PieceText(p)) && i + |PieceText(p)| <= end
    ensures EscapesAreWhole(c, i + |PieceText(p)|, end) && ClosingQuote(c, i + |PieceText(p)|) == Some(end)
  {
    hide DigitOf;
    if c[i] != '\\' {
      p := Plain(c[i]);
    } else if c[i + 1] != 'u' {
      p := Escaped(c[i + 1]);
      assert c[i..i + 2] == PieceText(p);
    } else {
      p := UnitAt(c, i);
      assert c[i..i + 6] == PieceText(p);
      PieceClosing(c, i, p);
    }
  }

  lemma {:induction false} BodyIsPieces(c: bytes, i: nat, end: nat) returns (ps: seq<Piece>)
    requires ClosingQuote(c, i) == Some(end) && EscapesAreWhole(c, i, end)
    ensures (forall p <- ps :: WfPiece(p)) && At(c, i, PiecesText(ps)) && i + |PiecesText(ps)| == end
    decreases end - i
  {
    hide WfPiece, PieceText, ClosingQuote, EscapesAreWhole;
    ps := [];
    ClosingIsAhead(c, i, end);
    if i < end {
      var p := FirstOfBody(c, i, end);
      PieceIsLong(p);
      var rest := BodyIsPieces(c, i + |PieceText(p)|, end);
      ps := [p] + rest;
      assert ps[1..] == rest;
      var n, m := i + |PieceText(p)|, i + |PieceText(p)| + |PiecesText(rest)|;
      assert c[i..m] == c[i..n] + c[n..m];
    }
  }

  lemma ClosingIsAhead(c: bytes, i: nat, end: nat)
    requires ClosingQuote(c, i) == Some(end)
    ensures i <= end < |c|
  {
  }

  lemma PieceIsLong(p: Piece)
    ensures |PieceText(p)| > 0
  {
  }

  // A string that is read, all its \u whole, is in one of the forms, and is read as what it stands for up to a NUL.
  lemma ReadStringIsPieces(c: bytes, o: nat) returns (ps: seq<Piece>)
    requires o < |c| && ParseString(c, o).Parsed?
    requires EscapesAreWhole(c, o + 1, ParseString(c, o).offset - 1)
    ensures (forall p <- ps :: WfPiece(p)) && Value(ps).Some?
    ensures var r := ParseString(c, o);
      && At(c, o, ['\"'] + PiecesText(ps) + ['\"']) && r.offset == o + |PiecesText(ps)| + 2
      && IsUpToNul(Value(ps).value, r.value)
  {
    hide WfPiece, PiecesText, Unescape, Value, EscapesAreWhole, IsUpToNul, CString;
    var end := ParseString(c, o).offset - 1;
    ps := BodyIsPieces(c, o + 1, end);
    assert c[o..end + 1] == ['\"'] + c[o + 1..end] + ['\"'];
    StringIsRead(c, o, ps);
  }
}
