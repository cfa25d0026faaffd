// From text to trees and back: every text that the parser accepts is a document laid out (src/elexer.c, src/eparser.c).
module TextTheorems {
  import opened Bytes
  import opened Tokens
  import opened Scanner
  import opened LexerTheorems
  import opened StringTheorems
  import opened CommentTheorems
  import opened EventMachine
  import opened Grammar
  import opened DocumentTheorems
  import opened LayoutTheorems

  // ----- Every token is spelled -----

  lemma SliceOfPart(t: bytes, i: nat, m: nat, e: nat)
    requires i <= m <= e <= |t|
    ensures t[i..e][..m - i] == t[i..m] && t[i..e][m - i..] == t[m..e] && t[i..e] == t[i..m] + t[m..e]
  {
  }

  lemma SliceStands(t: bytes, i: nat, e: nat)
    requires i <= e <= |t|
    ensures |t[i..e]| == e - i && Stands(t, i, t[i..e]) && forall k | i <= k < e :: t[i..e][k - i] == t[k]
  {
  }

  lemma QuotedIsSpelled(isNumber: NumberTest, t: bytes, i: nat)
    requires i < |t| && IsQuote(t[i]) && TokenAt(isNumber, t, i).kind.String?
    ensures var p := TokenAt(isNumber, t, i); IsQuotedText(p.text, t[i..p.end])
  {
    hide TokenAt, DropCR, Closes, GoesOn, Stands, FitsInQuotes;
    StringToken(isNumber, t, i);
    var p, q := TokenAt(isNumber, t, i), t[i];
    QuotesAreQuotes(q);
    assert DropCR(t[i + 1..p.end]) != [];
    NothingClosed(t, i + 1, 0);
    var text, body := t[i..p.end], t[i + 1..p.end - 1];
    assert text == [q] + body + [q];
    SliceStands(t, i, p.end);
    DropCRSlice(t, i + 1, p.end - 1);
    assert [q] + (DropCR(body) + [q]) == [q] + DropCR(body) + [q];
    QuotedTextIsOneToken(isNumber, t, i, body, q);
    assert text[1..|text| - 1] == body;
  }

  lemma BracketedIsSpelled(isNumber: NumberTest, t: bytes, i: nat)
    requires i < |t| && t[i] == '[' && !IsSpace(t[i]) && TokenAt(isNumber, t, i).kind.LongString?
    ensures var p := TokenAt(isNumber, t, i); IsBracketedText(p.text, t[i..p.end])
  {
    hide TokenAt, DropCR, Opening, Stands, IsBody, FirstCloses, NeverCloses;
    var p := TokenAt(isNumber, t, i);
    var level := LongStringOpens(isNumber, t, i);
    LongStringToken(isNumber, t, i, level);
    OpeningIsPlain(level);
    var b := i + level + 2;
    SliceOfPart(t, i, b, p.end);
    SliceStands(t, i, p.end);
    BracketedTextIsOneToken(isNumber, t, i, level, t[b..p.end]);
    assert InBrackets(level, p.text, t[i..p.end]);
  }

  lemma NameIsSpelled(isNumber: NumberTest, t: bytes, i: nat)
    requires i < |t| && IsNameStart(t[i])
    ensures !IsSpace(t[i])
    ensures var p := TokenAt(isNumber, t, i);
      p.text == t[i..p.end] && IsNameText(p.text) && NameKind(p.text) == p.kind
  {
    hide LongText, CommentText, NumberText, Quoted, NameKind;
  }

  lemma NumberIsSpelled(isNumber: NumberTest, t: bytes, i: nat)
    requires StartsNumber(t, i)
    ensures !IsSpace(t[i])
    ensures var p := TokenAt(isNumber, t, i);
      p.text == t[i..p.end] && IsNumberText(p.text) && p.kind == if isNumber(p.text) then TokenKind.Number else Invalid
  {
    hide TokenAt, IsNumberPart;
    NumberStarts(isNumber, t, i);
    DigitIsPart(t[i]);
    if i + 1 < |t| {
      DigitIsPart(t[i + 1]);
    }
  }

  lemma DigitIsPart(c: byte)
    ensures IsDigit(c) || c == '.' || c == '-' ==> IsNumberPart(c)
  {
  }

  // Any other token is one byte.
  lemma PlainIsSpelled(isNumber: NumberTest, t: bytes, i: nat)
    requires i < |t| && !IsSpace(t[i]) && !IsQuote(t[i]) && !IsNameStart(t[i]) && !StartsNumber(t, i)
    ensures var p := TokenAt(isNumber, t, i);
      || p.kind.Invalid? || p.kind.LongString? || p.kind.Comment? || p.kind.LongComment?
      || (p.text == t[i..p.end] == ['['] && p.kind.SquareOpen?)
      || (p.text == t[i..p.end] && |p.text| == 1 && PunctuationKind(p.text[0]) == Some(p.kind))
    ensures TokenAt(isNumber, t, i).kind.LongString? ==> t[i] == '['
  {
    hide LongText, CommentText, NumberText, Quoted, NameKind;
    assert t[i..i + 1] == [t[i]];
  }

  lemma NameKinds(name: bytes)
    ensures NameKind(name) in {Name, BooleanTrue, BooleanFalse, Nil, Invalid}
  {
  }

  lemma PunctuationKinds(c: byte)
    ensures PunctuationKind(c).Some? ==>
      PunctuationKind(c).value in {SquareClose, CurlyOpen, CurlyClose, TokenKind.Equals, Comma, Semicolon}
  {
  }

  lemma QuotesGiveStrings(isNumber: NumberTest, t: bytes, i: nat)
    requires i < |t| && IsQuote(t[i])
    ensures !IsSpace(t[i]) && TokenAt(isNumber, t, i).kind in {String, Invalid}
  {
    hide TokenAt, Quoted;
    StringStarts(isNumber, t, i);
  }

  // Every token in every text is spelled by the text that it covers.
  lemma TokenIsSpelled(isNumber: NumberTest, t: bytes, i: nat, w: Word)
    requires i < |t| && !IsSpace(t[i]) && !w.kind.Invalid?
    requires w.kind == TokenAt(isNumber, t, i).kind && w.text == TokenAt(isNumber, t, i).text
    ensures IsSpelled(isNumber, w, t[i..TokenAt(isNumber, t, i).end])
  {
    hide TokenAt, IsSpace, IsSpelled, IsScanned;
    TokenIsScanned(isNumber, t, i, w);
    SpellingIs(isNumber, w, t[i..TokenAt(isNumber, t, i).end]);
  }

  lemma TokenIsScanned(isNumber: NumberTest, t: bytes, i: nat, w: Word)
    requires i < |t| && !IsSpace(t[i]) && !w.kind.Invalid?
    requires w.kind == TokenAt(isNumber, t, i).kind && w.text == TokenAt(isNumber, t, i).text
    ensures IsScanned(isNumber, w, t[i..TokenAt(isNumber, t, i).end])
  {
    hide TokenAt, IsSpace, IsQuote, IsNameStart, StartsNumber, IsQuotedText, IsBracketedText, IsNameText, IsNumberText,
      NameKind, PunctuationKind;
    var c := t[i];
    if IsQuote(c) {
      QuotesGiveStrings(isNumber, t, i);
      QuotedIsSpelled(isNumber, t, i);
    } else if IsNameStart(c) {
      NameIsSpelled(isNumber, t, i);
      NameKinds(w.text);
    } else if StartsNumber(t, i) {
      NumberIsSpelled(isNumber, t, i);
    } else {
      PlainIsSpelled(isNumber, t, i);
      if w.kind.LongString? {
        BracketedIsSpelled(isNumber, t, i);
      } else {
        PunctuationKinds(w.text[0]);
      }
    }
  }

  // So spellings are exactly the texts that, on their own, are read as the token.
  lemma SpelledMeansRead(isNumber: NumberTest, w: Word, text: bytes)
    requires !w.kind.Invalid?
    ensures IsSpelled(isNumber, w, text) <==>
      text != [] && !IsSpace(text[0]) && TokenAt(isNumber, text, 0) == Piece(w.kind, w.text, |text|)
  {
    hide TokenAt, IsSpelled, IsSpace;
    assert text[0..|text|] == text;
    if IsSpelled(isNumber, w, text) {
      WordIsRead(isNumber, text, 0, w, text);
    } else if text != [] && !IsSpace(text[0]) && TokenAt(isNumber, text, 0) == Piece(w.kind, w.text, |text|) {
      TokenIsSpelled(isNumber, text, 0, w);
    }
  }

  // ----- Every comment is a gap -----

  lemma CommentStarts(isNumber: NumberTest, t: bytes, i: nat)
    requires i < |t| && !IsSpace(t[i])
    requires var kind := TokenAt(isNumber, t, i).kind; kind.Comment? || kind.LongComment?
    ensures i + 2 <= |t| && t[i] == t[i + 1] == '-' && t[i..i + 2] == ['-', '-']
  {
    hide LongText, CommentText, NumberText, Quoted, NameEnd;
    if IsNameStart(t[i]) {
      NamesAreNoComments(t[i..NameEnd(t, i + 1)]);
    }
  }

  // A comment is a gap that the text may go on after, or a line that ends the text.
  ghost predicate IsSkippable(t: bytes, i: nat, e: nat, g: Gap, end: Ending) {
    && i <= e <= |t| && WfGap(g) && WfEnding(end)
    && (t[i..e] == GapText(g) || (e == |t| && t[i..e] == EndingText(end)))
  }

  lemma LineIsGap(t: bytes, b: nat, p: Piece)
    requires IsShortComment(t, b, p) && b < p.end && t[p.end - 1] == '\n'
    ensures WfGap(LineComment(t[b..p.end - 1]))
  {
    hide DropCR, OpensLong;
    var line := t[b..p.end - 1];
    DropCRSlice(t, b, p.end - 1);
    if OpensLong(DropCR(line)) {
      OpensLonger(DropCR(line), ['\n']);
    }
  }

  lemma LineIsEnding(t: bytes, b: nat, p: Piece)
    requires IsShortComment(t, b, p) && (b == p.end || t[p.end - 1] != '\n')
    ensures p.end == |t| && WfEnding(LastLine(t[b..p.end]))
  {
    hide DropCR, OpensLong;
  }

  lemma LineIsSkippable(t: bytes, i: nat, p: Piece) returns (g: Gap, end: Ending)
    requires i + 2 <= |t| && t[i..i + 2] == ['-', '-'] && IsShortComment(t, i + 2, p)
    ensures IsSkippable(t, i, p.end, g, end)
  {
    hide WfGap, WfEnding, DropCR, OpensLong;
    var b, e := i + 2, p.end;
    g, end := Blank(' '), AtOnce;
    BlankIsGap();
    SliceOfPart(t, i, b, e);
    if e > b && t[e - 1] == '\n' {
      g := LineComment(t[b..e - 1]);
      LineIsGap(t, b, p);
      assert t[b..e] == g.body + ['\n'];
      assert ['-', '-'] + (g.body + ['\n']) == GapText(g);
    } else {
      end := LastLine(t[b..e]);
      LineIsEnding(t, b, p);
    }
  }

  lemma BlankIsGap()
    ensures WfGap(Blank(' ')) && WfEnding(AtOnce)
  {
  }

  lemma BlockIsGap(t: bytes, b: nat, level: nat, open: nat, p: Piece)
    requires IsLongComment(t, b, level, open, p) && p.kind.LongComment?
    ensures IsOpening(level, t[b..open]) && IsBody(level, t[open..p.end])
  {
    hide DropCR, Opening, FirstCloses, NeverCloses;
    SliceStands(t, b, open);
    SliceStands(t, open, p.end);
  }

  lemma BlockIsSkippable(t: bytes, i: nat, level: nat, open: nat, p: Piece) returns (g: Gap, end: Ending)
    requires i + 2 <= |t| && t[i..i + 2] == ['-', '-'] && IsLongComment(t, i + 2, level, open, p) && p.kind.LongComment?
    ensures IsSkippable(t, i, p.end, g, end)
  {
    hide DropCR, Opening, FirstCloses, NeverCloses, IsOpening, IsBody;
    BlockIsGap(t, i + 2, level, open, p);
    SliceOfPart(t, i, i + 2, p.end);
    SliceOfPart(t, i + 2, open, p.end);
    g, end := BlockComment(level, t[i + 2..open], t[open..p.end]), AtOnce;
    assert ['-', '-'] + (g.open + g.body) == GapText(g);
  }

  lemma CommentIsSkippable(isNumber: NumberTest, t: bytes, i: nat) returns (g: Gap, end: Ending)
    requires i < |t| && !IsSpace(t[i])
    requires var kind := TokenAt(isNumber, t, i).kind; kind.Comment? || kind.LongComment?
    ensures IsSkippable(t, i, TokenAt(isNumber, t, i).end, g, end)
  {
    hide TokenAt, IsShortComment, ClosesFirst, IsSkippable, DropCR, Opening;
    CommentStarts(isNumber, t, i);
    var level, open := CommentToken(isNumber, t, i);
    var p := TokenAt(isNumber, t, i);
    if IsShortComment(t, i + 2, p) {
      g, end := LineIsSkippable(t, i, p);
    } else {
      LongIsLong(t, i + 2, level, open, p);
      g, end := BlockIsSkippable(t, i, level, open, p);
    }
  }

  lemma LongIsLong(t: bytes, b: nat, level: nat, open: nat, p: Piece)
    requires IsLongComment(t, b, level, open, p) && !p.kind.Invalid?
    ensures p.kind.LongComment?
  {
    hide DropCR, FirstCloses, NeverCloses;
  }

  // ----- Every text is laid out -----

  // The text from i on is laid out so, and its tokens are these.
  ghost predicate IsLaidOut(isNumber: NumberTest, t: bytes, i: nat, start: seq<Gap>, ws: seq<Written>, end: Ending) {
    && i <= |t| && t[i..] == DocumentText(start, ws, end)
    && WfText(isNumber, start, ws, end)
    && WordsOf(ws) == StripComments(Tokenise(isNumber, t, i))
  }

  predicate AllValid(ws: seq<Word>) {
    forall w <- ws :: !w.kind.Invalid?
  }

  lemma GapInFront(isNumber: NumberTest, t: bytes, i: nat, e: nat, g: Gap,
                   start: seq<Gap>, ws: seq<Written>, end: Ending)
    requires i <= e <= |t| && t[i..e] == GapText(g) && WfGap(g)
    requires StripComments(Tokenise(isNumber, t, i)) == StripComments(Tokenise(isNumber, t, e))
    requires IsLaidOut(isNumber, t, e, start, ws, end)
    ensures IsLaidOut(isNumber, t, i, [g] + start, ws, end)
  {
    hide GapText, WfGap, Layout, WfWritten, WfEnding, Tokenise, StripComments, WordsOf;
    assert t[i..] == t[i..e] + t[e..];
    GapsCons(g, start);
    assert GapText(g) + (GapsText(start) + Layout(ws, end)) == GapsText([g] + start) + Layout(ws, end);
  }

  lemma GapsCons(g: Gap, start: seq<Gap>)
    ensures GapsText([g] + start) == GapText(g) + GapsText(start)
  {
    hide GapText;
    assert ([g] + start)[1..] == start;
  }

  lemma WordInFront(isNumber: NumberTest, t: bytes, i: nat, w: Word, start: seq<Gap>, ws: seq<Written>, end: Ending)
    requires i < |t| && !IsSpace(t[i]) && w == TokenOf(t, i, TokenAt(isNumber, t, i)) && !w.kind.Invalid?
    requires IsLaidOut(isNumber, t, TokenAt(isNumber, t, i).end, start, ws, end)
    ensures IsLaidOut(isNumber, t, i, [], [Written(w, t[i..TokenAt(isNumber, t, i).end], start)] + ws, end)
  {
    hide WfGap, TokenAt, IsSpelled, WfEnding, Tokenise, StripComments, GapsText, Line, Column;
    var p := TokenAt(isNumber, t, i);
    var ws' := [Written(w, t[i..p.end], start)] + ws;
    assert ws'[1..] == ws;
    TokenIsSpelled(isNumber, t, i, w);
    TokenThenRest(isNumber, t, i);
    StripFirst(w, Tokenise(isNumber, t, p.end));
    assert t[i..] == t[i..p.end] + t[p.end..];
    NoGaps();
    NothingAround(Layout(ws', end));
  }

  lemma NoGaps()
    ensures GapsText([]) == []
  {
  }

  lemma NothingLaidOut(isNumber: NumberTest, t: bytes, i: nat, end: Ending)
    requires i <= |t| && WfEnding(end) && t[i..] == EndingText(end)
    ensures IsLaidOut(isNumber, t, i, [], [], end)
  {
    hide Tokenise, StripComments, EndingText, WfEnding;
    EndingIsSkipped(isNumber, t, i, end);
    NothingAround(EndingText(end));
  }

  lemma FirstIsValid(w: Word, ws: seq<Word>)
    requires AllValid([w] + ws)
    ensures !w.kind.Invalid? && AllValid(ws)
  {
    assert ([w] + ws)[0] == w && forall k | 0 <= k < |ws| :: ([w] + ws)[k + 1] == ws[k];
  }

  // Text without invalid tokens is gaps and spelled tokens in turn.
  lemma {:induction false} TextIsLaidOut(isNumber: NumberTest, t: bytes, i: nat)
      returns (start: seq<Gap>, ws: seq<Written>, end: Ending)
    requires i <= |t| && AllValid(StripComments(Tokenise(isNumber, t, i)))
    ensures IsLaidOut(isNumber, t, i, start, ws, end)
    decreases |t| - i
  {
    hide Tokenise, StripComments, TokenAt, WfGap, IsLaidOut, Line, Column, AllValid, IsSpace;
    if i == |t| {
      start, ws, end := [], [], AtOnce;
      NothingLaidOut(isNumber, t, i, end);
    } else if IsSpace(t[i]) {
      start, ws, end := SpaceIsLaidOut(isNumber, t, i);
    } else {
      var p := TokenAt(isNumber, t, i);
      TokenThenRest(isNumber, t, i);
      StripFirst(TokenOf(t, i, p), Tokenise(isNumber, t, p.end));
      if p.kind.Comment? || p.kind.LongComment? {
        start, ws, end := CommentIsLaidOut(isNumber, t, i);
      } else {
        var w := TokenOf(t, i, p);
        FirstIsValid(w, StripComments(Tokenise(isNumber, t, p.end)));
        start, ws, end := TextIsLaidOut(isNumber, t, p.end);
        WordInFront(isNumber, t, i, w, start, ws, end);
        start, ws := [], [Written(w, t[i..p.end], start)] + ws;
      }
    }
  }

  lemma {:induction false} SpaceIsLaidOut(isNumber: NumberTest, t: bytes, i: nat)
      returns (start: seq<Gap>, ws: seq<Written>, end: Ending)
    requires i < |t| && IsSpace(t[i]) && AllValid(StripComments(Tokenise(isNumber, t, i)))
    ensures IsLaidOut(isNumber, t, i, start, ws, end)
    decreases |t| - i, 0
  {
    hide Tokenise, StripComments, TokenAt, IsLaidOut, AllValid, IsSpace;
    SpaceIsSkipped(isNumber, t, i);
    ClassesAreDocumented(t[i]);
    start, ws, end := TextIsLaidOut(isNumber, t, i + 1);
    assert t[i..i + 1] == GapText(Blank(t[i]));
    GapInFront(isNumber, t, i, i + 1, Blank(t[i]), start, ws, end);
    start := [Blank(t[i])] + start;
  }

  lemma {:induction false} CommentIsLaidOut(isNumber: NumberTest, t: bytes, i: nat)
      returns (start: seq<Gap>, ws: seq<Written>, end: Ending)
    requires i < |t| && !IsSpace(t[i]) && AllValid(StripComments(Tokenise(isNumber, t, i)))
    requires var kind := TokenAt(isNumber, t, i).kind; kind.Comment? || kind.LongComment?
    ensures IsLaidOut(isNumber, t, i, start, ws, end)
    decreases |t| - i, 0
  {
    hide Tokenise, StripComments, TokenAt, IsLaidOut, AllValid, IsSpace, WfGap, WfEnding, GapText, EndingText;
    var p := TokenAt(isNumber, t, i);
    CommentStarts(isNumber, t, i);
    CommentIsSkipped(isNumber, t, i);
    var g;
    g, end := CommentIsSkippable(isNumber, t, i);
    if t[i..p.end] == GapText(g) {
      start, ws, end := TextIsLaidOut(isNumber, t, p.end);
      GapInFront(isNumber, t, i, p.end, g, start, ws, end);
      start := [g] + start;
    } else {
      start, ws := [], [];
      NothingLaidOut(isNumber, t, i, end);
    }
  }

  // ----- No document has an invalid token -----

  lemma {:induction false} ValueIsValid(v: Value, k: seq<Word>)
    requires WfValue(v) && AllValid(k)
    ensures AllValid(ValueTokens(v, k))
    decreases v
  {
    if v.Table? {
      ItemsAreValid(v.items, [v.close] + k);
    }
  }

  lemma {:induction false} ItemsAreValid(items: Items, k: seq<Word>)
    requires WfItems(items) && AllValid(k)
    ensures AllValid(ItemsTokens(items, k))
    decreases items
  {
    match items
    case NoItems =>
    case LastItem(e) => ValueIsValid(e.v, k);
    case Item(e, sep, rest) =>
      ItemsAreValid(rest, k);
      ValueIsValid(e.v, [sep] + ItemsTokens(rest, k));
  }

  lemma {:induction false} DefinitionsAreValid(ds: Definitions, k: seq<Word>)
    requires WfDefinitions(ds) && AllValid(k)
    ensures AllValid(DefinitionsTokens(ds, k))
    decreases ds
  {
    if ds.Def? {
      DefinitionsAreValid(ds.rest, k);
      ValueIsValid(ds.v, DefinitionsTokens(ds.rest, k));
    }
  }

  lemma DocumentIsValid(d: Document)
    requires WfDocument(d)
    ensures AllValid(DocumentTokens(d))
  {
    match d
    case TableDocument(table) => ValueIsValid(table, []);
    case DefDocument(defs, trailing) => DefinitionsAreValid(defs, trailing);
  }

  // ----- The main theorem -----

  // The text is the document, laid out so that its tokens stand apart.
  ghost predicate Writes(isNumber: NumberTest, t: bytes, d: Document, start: seq<Gap>, ws: seq<Written>, end: Ending) {
    && t == DocumentText(start, ws, end) && WfText(isNumber, start, ws, end)
    && WordsOf(ws) == DocumentTokens(d) && StandApart(ws, end)
  }

  // The parser accepts a text if and only if it is a document of its language, laid out, and reports that document.
  lemma ParserDecidesTexts(isNumber: NumberTest, t: bytes)
    ensures var s := Initial(Words(isNumber, t), EndOf(t));
      && (Accepts(s) <==> exists d, start, ws, end :: InLanguage(d) && Writes(isNumber, t, d, start, ws, end))
      && (forall d, start, ws, end | InLanguage(d) && Writes(isNumber, t, d, start, ws, end) ::
            Trace(s) == DocumentEvents(d, EndOf(t)))
  {
    hide Trace, Final, Tokenise, StripComments, Line, Column, Writes, DocumentEvents, EndOf;
    var s := Initial(Words(isNumber, t), EndOf(t));
    if Accepts(s) {
      var d, start, ws, end := AcceptedIsWritten(isNumber, t);
    }
    forall d, start, ws, end | InLanguage(d) && Writes(isNumber, t, d, start, ws, end)
      ensures Accepts(s) && Trace(s) == DocumentEvents(d, EndOf(t))
    {
      WrittenIsAccepted(isNumber, t, d, start, ws, end);
    }
  }

  lemma WrittenIsAccepted(isNumber: NumberTest, t: bytes, d: Document, start: seq<Gap>, ws: seq<Written>, end: Ending)
    requires InLanguage(d) && Writes(isNumber, t, d, start, ws, end)
    ensures var s := Initial(Words(isNumber, t), EndOf(t)); Accepts(s) && Trace(s) == DocumentEvents(d, EndOf(t))
  {
    hide Trace, Final, Tokenise, StripComments, Line, Column, StandApart, DocumentText, WfText;
    TextOfDocument(isNumber, d, start, ws, end);
  }

  lemma AcceptedIsWritten(isNumber: NumberTest, t: bytes)
      returns (d: Document, start: seq<Gap>, ws: seq<Written>, end: Ending)
    requires Accepts(Initial(Words(isNumber, t), EndOf(t)))
    ensures InLanguage(d) && Writes(isNumber, t, d, start, ws, end)
  {
    hide Trace, Final, Tokenise, StripComments, Line, Column, StandApart, DocumentText, WfText, AllValid;
    d := Soundness(Words(isNumber, t), EndOf(t));
    DocumentIsValid(d);
    start, ws, end := TextIsLaidOut(isNumber, t, 0);
    assert t[0..] == t;
    TextIsRead(isNumber, start, ws, end);
  }
}
