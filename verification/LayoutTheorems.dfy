// From trees to text and back: every document, written down with white space and comments between its tokens, is
// read as that document (src/elexer.c, src/eparser.c).
module LayoutTheorems {
  import opened Bytes
  import opened Tokens
  import opened Scanner
  import Characters
  import opened LexerTheorems
  import opened StringTheorems
  import opened CommentTheorems
  import opened EventMachine
  import opened Grammar
  import opened DocumentTheorems

  // ----- Spelled tokens -----

  // `w` in quotes. Carriage returns do not count, here and in brackets.
  ghost predicate IsQuotedText(w: bytes, text: bytes) {
    && |text| >= 2 && Characters.IsQuote(text[0]) && text[|text| - 1] == text[0]
    && var body := DropCR(text[1..|text| - 1]); FitsInQuotes(body, text[0]) && w == [text[0]] + body + [text[0]]
  }

  ghost predicate IsBracketedText(w: bytes, text: bytes) {
    exists level: nat :: InBrackets(level, w, text)
  }

  ghost predicate InBrackets(level: nat, w: bytes, text: bytes) {
    && Opening(level) <= text
    && var body := text[level + 2..]; IsBody(level, body) && w == Opening(level) + DropCR(body)
  }

  // Characters of numbers, with a digit or a point after the sign that may start it
  predicate IsNumber(text: bytes) {
    && text != [] && (forall c <- text :: Characters.IsNumberPart(c))
    && var first := if text[0] == '-' then 1 else 0;
       |text| > first && (Characters.IsDigit(text[first]) || text[first] == '.')
  }

  // The text spells the token. Names that true, false or nil start with are spellings of these.
  ghost predicate IsSpelled(isNumber: NumberTest, w: Word, text: bytes) {
    match w.kind
    case SquareOpen => w.text == text == ['[']
    case SquareClose => w.text == text == [']']
    case CurlyOpen => w.text == text == ['{']
    case CurlyClose => w.text == text == ['}']
    case Equals => w.text == text == ['=']
    case Comma => w.text == text == [',']
    case Semicolon => w.text == text == [';']
    case BooleanTrue => w.text == text && Characters.Starts(text, "true")
    case BooleanFalse => w.text == text && Characters.Starts(text, "false")
    case Nil => w.text == text && Characters.Starts(text, "nil")
    case Name =>
      && w.text == text && Characters.IsName(text) && text !in Characters.RESERVED_WORDS
      && !Characters.Starts(text, "true") && !Characters.Starts(text, "false") && !Characters.Starts(text, "nil")
    case Number => w.text == text && IsNumber(text) && isNumber(text)
    case String => IsQuotedText(w.text, text)
    case LongString => IsBracketedText(w.text, text)
    case _ => false
  }

  // A token of the kind, read up to this byte, goes on with it or becomes another token by it.
  predicate GoesOnWith(kind: TokenKind, c: byte) {
    match kind
    case Name | BooleanTrue | BooleanFalse | Nil => Characters.IsNamePart(c)
    case Number => Characters.IsNumberPart(c)
    case SquareOpen => c == '[' || c == '='
    case _ => false
  }

  predicate MayFollow(kind: TokenKind, after: bytes) {
    after == [] || !GoesOnWith(kind, after[0])
  }

  // ----- Spellings as the lexer sees them -----

  predicate IsNameText(text: bytes) {
    text != [] && IsNameStart(text[0]) && forall c <- text :: IsNamePart(c)
  }

  predicate IsNumberText(text: bytes) {
    && text != [] && (forall c <- text :: IsNumberPart(c))
    && (IsDigit(text[0]) || text[0] == '.' || (text[0] == '-' && |text| > 1 && (IsDigit(text[1]) || text[1] == '.')))
  }

  ghost predicate IsScanned(isNumber: NumberTest, w: Word, text: bytes) {
    match w.kind
    case SquareOpen => w.text == text == ['[']
    case SquareClose | CurlyOpen | CurlyClose | Equals | Comma | Semicolon =>
      w.text == text && |text| == 1 && PunctuationKind(text[0]) == Some(w.kind)
    case Name | BooleanTrue | BooleanFalse | Nil => w.text == text && IsNameText(text) && NameKind(text) == w.kind
    case Number => w.text == text && IsNumberText(text) && isNumber(text)
    case String => IsQuotedText(w.text, text)
    case LongString => IsBracketedText(w.text, text)
    case _ => false
  }

  lemma NamesAreNames(text: bytes)
    ensures Characters.IsName(text) <==> IsNameText(text)
  {
    hide IsNameStart, IsNamePart, Characters.IsNamePart, IsDigit, Characters.IsDigit;
    forall c | c in text
      ensures IsNamePart(c) == Characters.IsNamePart(c) && IsNameStart(c) == (IsNamePart(c) && !Characters.IsDigit(c))
    {
      ClassesAreDocumented(c);
    }
    assert text != [] ==> text[0] in text;
  }

  lemma NumbersAreNumbers(text: bytes)
    ensures IsNumber(text) <==> IsNumberText(text)
  {
    hide IsNumberPart, Characters.IsNumberPart;
    forall c | c in text
      ensures IsNumberPart(c) == Characters.IsNumberPart(c) && IsDigit(c) == Characters.IsDigit(c)
    {
      ClassesAreDocumented(c);
    }
  }

  lemma StartIsMatch(text: bytes, literal: string)
    ensures Characters.Starts(text, literal) <==> text != [] && MatchesLiteral(text, literal)
  {
  }

  lemma StartIsName(text: bytes, literal: string)
    requires literal in {"true", "false", "nil"}
    ensures Characters.Starts(text, literal) ==> Characters.IsName(text) && text[0] == literal[0]
  {
    if Characters.Starts(text, literal) {
      forall i | 0 <= i < |text|
        ensures Characters.IsNamePart(text[i])
      {
        assert text[i] == literal[i];
      }
      assert !Characters.IsDigit(text[0]);
    }
  }

  // A name's kind, by what it is the start of
  lemma NameKindIs(text: bytes)
    requires text != []
    ensures NameKind(text) ==
      if Characters.Starts(text, "true") then BooleanTrue
      else if Characters.Starts(text, "false") then BooleanFalse
      else if Characters.Starts(text, "nil") then Nil
      else if text in Characters.RESERVED_WORDS then Invalid
      else Name
  {
    hide MatchesLiteral;
    StartIsMatch(text, "true");
    StartIsMatch(text, "false");
    StartIsMatch(text, "nil");
    KeywordsAreReserved(text);
  }

  // The lexer takes the documented bytes for punctuation, and no others.
  lemma PunctuationIs(c: byte)
    ensures PunctuationKind(c) ==
      if c == ']' then Some(SquareClose) else if c == '{' then Some(CurlyOpen) else if c == '}' then Some(CurlyClose)
      else if c == '=' then Some(TokenKind.Equals) else if c == ',' then Some(Comma)
      else if c == ';' then Some(Semicolon) else None
  {
  }

  lemma SpellingIs(isNumber: NumberTest, w: Word, text: bytes)
    ensures IsSpelled(isNumber, w, text) <==> IsScanned(isNumber, w, text)
  {
    hide NameKind, PunctuationKind, Characters.IsName, Characters.Starts, IsNameText, IsNumber, IsNumberText, IsQuotedText,
      IsBracketedText;
    NamesAreNames(text);
    NumbersAreNumbers(text);
    if |text| == 1 {
      PunctuationIs(text[0]);
    }
    if text != [] {
      NameKindIs(text);
    } else {
      assert !Characters.IsName(text) && !IsNameText(text) by {
        NoName();
      }
    }
    StartIsName(text, "true");
    StartIsName(text, "false");
    StartIsName(text, "nil");
  }

  lemma NoName()
    ensures !Characters.IsName([]) && !IsNameText([]) && forall literal :: !Characters.Starts([], literal)
  {
  }

  lemma GoesOnIs(kind: TokenKind, c: byte)
    ensures GoesOnWith(kind, c) <==>
      match kind
      case Name | BooleanTrue | BooleanFalse | Nil => IsNamePart(c)
      case Number => IsNumberPart(c)
      case SquareOpen => c == '[' || c == '='
      case _ => false
  {
    hide IsNamePart, IsNumberPart, Characters.IsNamePart, Characters.IsNumberPart;
    ClassesAreDocumented(c);
  }

  // ----- Reading one token -----

  predicate EndsAt(t: bytes, e: nat, kind: TokenKind) {
    e < |t| ==> !GoesOnWith(kind, t[e])
  }

  // The token and no more, or else some other token that is no comment
  predicate IsReadAs(p: Piece, kind: TokenKind, w: bytes, e: nat, ends: bool) {
    if ends then p == Piece(kind, w, e)
    else !p.kind.Comment? && !p.kind.LongComment? && (p.kind != kind || p.text != w)
  }

  lemma {:induction false} NameEndIs(t: bytes, i: nat, e: nat)
    requires i <= e <= |t| && (forall k | i <= k < e :: IsNamePart(t[k]))
    ensures NameEnd(t, i) == NameEnd(t, e)
    decreases e - i
  {
    if i < e {
      NameEndIs(t, i + 1, e);
    }
  }

  lemma {:induction false} NumberEndIs(t: bytes, i: nat, e: nat)
    requires i <= e <= |t| && (forall k | i <= k < e :: IsNumberPart(t[k]))
    ensures NumberEnd(t, i) == NumberEnd(t, e)
    decreases e - i
  {
    if i < e {
      NumberEndIs(t, i + 1, e);
    }
  }

  lemma BytesStand(t: bytes, i: nat, text: bytes)
    requires Stands(t, i, text)
    ensures i + |text| <= |t| && t[i..i + |text|] == text
    ensures forall k | i <= k < i + |text| :: t[k] == text[k - i] && t[k] in text
  {
    forall k | i <= k < i + |text|
      ensures t[k] == text[k - i] && t[k] in text
    {
      ByteAt(t, i, text, k - i);
    }
  }

  lemma NameIsRead(isNumber: NumberTest, t: bytes, i: nat, text: bytes)
    requires IsNameText(text) && Stands(t, i, text)
    ensures i < i + |text| <= |t| && !IsSpace(t[i])
    ensures var e := NameEnd(t, i + |text|); TokenAt(isNumber, t, i) == Piece(NameKind(t[i..e]), t[i..e], e)
  {
    hide LongText, CommentText, NumberText, Quoted, NameKind;
    BytesStand(t, i, text);
    NameEndIs(t, i + 1, i + |text|);
  }

  predicate StartsNumber(t: bytes, i: nat) {
    i < |t| && (IsDigit(t[i]) || t[i] == '.' || (t[i] == '-' && i + 1 < |t| && (IsDigit(t[i + 1]) || t[i + 1] == '.')))
  }

  lemma NumberStarts(isNumber: NumberTest, t: bytes, i: nat)
    requires StartsNumber(t, i)
    ensures i < |t| && !IsSpace(t[i]) && (t[i] == '-' ==> i + 2 <= |t|)
    ensures TokenAt(isNumber, t, i) == NumberText(isNumber, t, i, if t[i] == '-' then i + 2 else i + 1)
  {
    hide LongText, CommentText, NumberText, Quoted, NameKind;
  }

  lemma NumberStands(t: bytes, i: nat, text: bytes)
    requires IsNumberText(text) && Stands(t, i, text)
    ensures StartsNumber(t, i) && i < i + |text| <= |t|
    ensures forall k | i <= k < i + |text| :: IsNumberPart(t[k])
    ensures t[i] == '-' ==> |text| > 1
  {
    hide IsNumberPart, Stands;
    BytesStand(t, i, text);
  }

  lemma NumberIsRead(isNumber: NumberTest, t: bytes, i: nat, text: bytes)
    requires IsNumberText(text) && Stands(t, i, text)
    ensures i < i + |text| <= |t| && !IsSpace(t[i])
    ensures var e := NumberEnd(t, i + |text|);
      TokenAt(isNumber, t, i) == Piece(if isNumber(t[i..e]) then TokenKind.Number else Invalid, t[i..e], e)
  {
    hide TokenAt, IsNumberText, IsNumberPart, Stands, NumberEnd, IsSpace, StartsNumber;
    NumberStands(t, i, text);
    NumberStarts(isNumber, t, i);
    NumberEndIs(t, if t[i] == '-' then i + 2 else i + 1, i + |text|);
  }

  lemma PunctuationIsRead(isNumber: NumberTest, t: bytes, i: nat, c: byte)
    requires i < |t| && t[i] == c && PunctuationKind(c).Some?
    ensures !IsSpace(c) && TokenAt(isNumber, t, i) == Piece(PunctuationKind(c).value, [c], i + 1)
  {
    hide LongText, CommentText, NumberText, Quoted, NameKind;
  }

  lemma BracketIsRead(isNumber: NumberTest, t: bytes, i: nat)
    requires i < |t| && t[i] == '['
    ensures !IsSpace('[') && IsReadAs(TokenAt(isNumber, t, i), SquareOpen, ['['], i + 1, EndsAt(t, i + 1, SquareOpen))
  {
    hide LongText, CommentText, NumberText, Quoted, NameKind;
  }

  lemma QuotesAreQuotes(c: byte)
    ensures Characters.IsQuote(c) == IsQuote(c)
  {
  }

  lemma QuotedIsRead(isNumber: NumberTest, t: bytes, i: nat, w: bytes, text: bytes)
    requires IsQuotedText(w, text) && Stands(t, i, text)
    ensures i < |t| && !IsSpace(t[i]) && TokenAt(isNumber, t, i) == Piece(String, w, i + |text|)
  {
    hide TokenAt, FitsInQuotes, Stands, DropCR;
    QuotesAreQuotes(text[0]);
    var body := text[1..|text| - 1];
    assert text == [text[0]] + body + [text[0]];
    QuotedTextIsOneToken(isNumber, t, i, body, text[0]);
  }

  lemma BracketedIsRead(isNumber: NumberTest, t: bytes, i: nat, w: bytes, text: bytes)
    requires IsBracketedText(w, text) && Stands(t, i, text)
    ensures i < |t| && !IsSpace(t[i]) && TokenAt(isNumber, t, i) == Piece(LongString, w, i + |text|)
  {
    hide TokenAt, Stands, DropCR, IsBody;
    var level: nat :| InBrackets(level, w, text);
    var body := text[level + 2..];
    assert text == Opening(level) + body;
    BracketedTextIsOneToken(isNumber, t, i, level, body);
  }

  lemma LongerText(t: bytes, i: nat, text: bytes, e: nat)
    requires Stands(t, i, text) && i + |text| <= e <= |t|
    ensures t[i..e] == text <==> e == i + |text|
  {
    if t[i..e] == text {
      assert |t[i..e]| == e - i;
    }
  }

  lemma NamesAreNoComments(name: bytes)
    ensures var kind := NameKind(name); !kind.Comment? && !kind.LongComment?
  {
  }

  // A spelled token, wherever it stands, is read as that token unless the byte behind it makes it another one.
  lemma WordIsRead(isNumber: NumberTest, t: bytes, i: nat, w: Word, text: bytes)
    requires IsSpelled(isNumber, w, text) && Stands(t, i, text)
    ensures var e := i + |text|;
      && i < e <= |t| && !IsSpace(t[i])
      && IsReadAs(TokenAt(isNumber, t, i), w.kind, w.text, e, EndsAt(t, e, w.kind))
  {
    hide TokenAt, NameKind, IsNameText, IsNumberText, IsQuotedText, IsBracketedText, Stands, IsSpace, IsNamePart,
      IsNumberPart, PunctuationKind, IsSpelled, GoesOnWith;
    SpellingIs(isNumber, w, text);
    BytesStand(t, i, text);
    if i + |text| < |t| {
      GoesOnIs(w.kind, t[i + |text|]);
    }
    match w.kind
    case Name | BooleanTrue | BooleanFalse | Nil =>
      NameIsRead(isNumber, t, i, text);
      var e := NameEnd(t, i + |text|);
      LongerText(t, i, text, e);
      NamesAreNoComments(t[i..e]);
    case Number =>
      NumberIsRead(isNumber, t, i, text);
      LongerText(t, i, text, NumberEnd(t, i + |text|));
    case String => QuotedIsRead(isNumber, t, i, w.text, text);
    case LongString => BracketedIsRead(isNumber, t, i, w.text, text);
    case SquareOpen => BracketIsRead(isNumber, t, i);
    case SquareClose | CurlyOpen | CurlyClose | Equals | Comma | Semicolon =>
      PunctuationIsRead(isNumber, t, i, text[0]);
  }

  lemma DigitsAreParts(s: bytes, hex: bool)
    requires Characters.AreDigits(s, hex)
    ensures forall c <- s :: Characters.IsNumberPart(c)
    ensures !hex && s != [] ==> Characters.IsDigit(s[0])
  {
  }

  lemma ExponentHasParts(e: Option<Characters.ExponentForm>, hex: bool)
    requires e.Some? ==> Characters.WfExponent(e.value, hex)
    ensures forall c <- Characters.ExponentText(e) :: Characters.IsNumberPart(c)
  {
    if e.Some? {
      DigitsAreParts(e.value.digits, hex);
    }
  }

  // Every documented number literal is spelled as a number.
  lemma DocumentedNumber(n: Characters.NumberForm)
    requires Characters.WfNumber(n)
    ensures IsNumber(Characters.NumberText(n))
  {
    hide Characters.ExponentText, Characters.IsNumberPart, Characters.AreDigits, Characters.IsDigit;
    var hex := n.prefix != [];
    DigitsAreParts(n.whole, hex);
    DigitsAreParts(n.fraction, hex);
    ExponentHasParts(n.exponent, hex);
    SignsAreParts();
  }

  lemma SignsAreParts()
    ensures forall c <- ['-', '.', '0', 'x', 'X'] :: Characters.IsNumberPart(c)
    ensures Characters.IsDigit('0')
  {
  }

  // A comment right behind a number is read into the number.
  lemma CommentBehindNumber(isNumber: NumberTest)
    requires !isNumber("1--c")
    ensures TokenAt(isNumber, "1--c", 0) == Piece(Invalid, "1--c", 4)
  {
    var t: bytes := "1--c";
    NumberEndIs(t, 1, 4);
    assert t[0..4] == t;
  }

  // ----- Gaps: white space and comments -----

  datatype Gap =
    | Blank(c: byte)
    | LineComment(body: bytes)                                // to the end of its line
    | BlockComment(level: nat, open: bytes, body: bytes)      // in a long bracket

  predicate IsLine(body: bytes) {
    '\n' !in body
  }

  ghost predicate WfGap(g: Gap) {
    match g
    case Blank(c) => Characters.IsSpace(c)
    case LineComment(body) => IsLine(body) && !OpensLong(DropCR(body))
    case BlockComment(level, open, body) => IsOpening(level, open) && IsBody(level, body)
  }

  function GapText(g: Gap): bytes {
    match g
    case Blank(c) => [c]
    case LineComment(body) => ['-', '-'] + body + ['\n']
    case BlockComment(level, open, body) => ['-', '-'] + open + body
  }

  function GapsText(gs: seq<Gap>): bytes {
    if gs == [] then [] else GapText(gs[0]) + GapsText(gs[1..])
  }

  // What may end a text: nothing, or a comment in a line without a newline
  datatype Ending = AtOnce | LastLine(body: bytes)

  ghost predicate WfEnding(end: Ending) {
    end.LastLine? ==> IsLine(end.body) && !OpensLong(DropCR(end.body))
  }

  function EndingText(end: Ending): bytes {
    if end.AtOnce? then [] else ['-', '-'] + end.body
  }

  lemma TokenThenRest(isNumber: NumberTest, t: bytes, i: nat)
    requires i < |t| && !IsSpace(t[i])
    ensures var p := TokenAt(isNumber, t, i); Tokenise(isNumber, t, i) == [TokenOf(t, i, p)] + Tokenise(isNumber, t, p.end)
  {
    hide TokenAt;
  }

  lemma SpaceIsSkipped(isNumber: NumberTest, t: bytes, i: nat)
    requires i < |t| && IsSpace(t[i])
    ensures Tokenise(isNumber, t, i) == Tokenise(isNumber, t, i + 1)
  {
    hide TokenAt;
    assert SkipSpace(t, i) == SkipSpace(t, i + 1);
  }

  // The text from i on starts with w, and the rest follows it.
  predicate StartsWith(t: bytes, i: nat, w: bytes, rest: bytes) {
    i <= |t| && t[i..] == w + rest
  }

  lemma StartStands(t: bytes, i: nat, w: bytes, rest: bytes)
    requires StartsWith(t, i, w, rest)
    ensures i + |w| + |rest| == |t| && Stands(t, i, w) && t[i + |w|..] == rest
  {
    assert t[i..i + |w|] == t[i..][..|w|];
    assert t[i + |w|..] == t[i..][|w|..];
  }

  lemma StartThen(t: bytes, i: nat, w: bytes, v: bytes, rest: bytes)
    requires StartsWith(t, i, w + v, rest)
    ensures StartsWith(t, i, w, v + rest)
  {
    assert w + v + rest == w + (v + rest);
  }

  // A comment line is skipped up to its newline or the end of the text.
  lemma LineIsSkipped(isNumber: NumberTest, t: bytes, i: nat, body: bytes)
    requires Stands(t, i, ['-', '-'] + body) && EndsLine(t, i + 2 + |body|) && IsLine(body) && !OpensLong(DropCR(body))
    ensures i < |t| && !IsSpace(t[i])
    ensures var e := i + 2 + |body|;
      && e <= |t|
      && StripComments(Tokenise(isNumber, t, i)) == StripComments(Tokenise(isNumber, t, if e < |t| then e + 1 else e))
  {
    hide TokenAt, OpensLong, DropCR, Tokenise, StripComments, Stands, Line, Column;
    LineCommentIsOneToken(isNumber, t, i, body);
    CommentIsSkipped(isNumber, t, i);
  }

  lemma CommentIsSkipped(isNumber: NumberTest, t: bytes, i: nat)
    requires i < |t| && t[i] == '-'
    requires var kind := TokenAt(isNumber, t, i).kind; kind.Comment? || kind.LongComment?
    ensures !IsSpace('-')
    ensures StripComments(Tokenise(isNumber, t, i)) == StripComments(Tokenise(isNumber, t, TokenAt(isNumber, t, i).end))
  {
    hide TokenAt, Tokenise, StripComments, Line, Column;
    var p := TokenAt(isNumber, t, i);
    TokenThenRest(isNumber, t, i);
    StripFirst(TokenOf(t, i, p), Tokenise(isNumber, t, p.end));
  }

  // White space and comments leave the words that follow.
  lemma GapIsSkipped(isNumber: NumberTest, t: bytes, i: nat, g: Gap)
    requires WfGap(g) && Stands(t, i, GapText(g))
    ensures var e := i + |GapText(g)|;
      e <= |t| && StripComments(Tokenise(isNumber, t, i)) == StripComments(Tokenise(isNumber, t, e))
  {
    hide TokenAt, Tokenise, StripComments, OpensLong, DropCR, IsOpening, IsBody, Stands;
    BytesStand(t, i, GapText(g));
    match g
    case Blank(c) =>
      ClassesAreDocumented(c);
      SpaceIsSkipped(isNumber, t, i);
    case LineComment(body) =>
      PartsStand(t, i, ['-', '-'] + body, ['\n']);
      LineIsSkipped(isNumber, t, i, body);
    case BlockComment(level, open, body) =>
      BracketedCommentIsOneToken(isNumber, t, i, level, open, body);
      CommentIsSkipped(isNumber, t, i);
  }

  lemma {:induction false} GapsAreSkipped(isNumber: NumberTest, t: bytes, i: nat, gs: seq<Gap>, rest: bytes)
    requires (forall g <- gs :: WfGap(g)) && StartsWith(t, i, GapsText(gs), rest)
    ensures var e := i + |GapsText(gs)|;
      && e <= |t| && t[e..] == rest
      && StripComments(Tokenise(isNumber, t, i)) == StripComments(Tokenise(isNumber, t, e))
    decreases |gs|
  {
    hide Tokenise, StripComments, WfGap, GapText, Stands;
    if gs != [] {
      var w, ws := GapText(gs[0]), GapsText(gs[1..]);
      StartThen(t, i, w, ws, rest);
      StartStands(t, i, w, ws + rest);
      GapIsSkipped(isNumber, t, i, gs[0]);
      GapsAreSkipped(isNumber, t, i + |w|, gs[1..], rest);
    }
  }

  lemma EndingIsSkipped(isNumber: NumberTest, t: bytes, i: nat, end: Ending)
    requires WfEnding(end) && i <= |t| && t[i..] == EndingText(end)
    ensures StripComments(Tokenise(isNumber, t, i)) == []
  {
    hide TokenAt, OpensLong, DropCR, Stands;
    if end.LastLine? {
      assert t[i..] == ['-', '-'] + end.body + [];
      StartStands(t, i, ['-', '-'] + end.body, []);
      LineIsSkipped(isNumber, t, i, end.body);
    }
  }

  // ----- Documents as text -----

  // A token, the text that spells it, and what stands behind it
  datatype Written = Written(word: Word, text: bytes, gap: seq<Gap>)

  ghost predicate WfWritten(isNumber: NumberTest, w: Written) {
    IsSpelled(isNumber, w.word, w.text) && forall g <- w.gap :: WfGap(g)
  }

  // The tokens in turn with their gaps, and the end of the text
  function Layout(ws: seq<Written>, end: Ending): bytes {
    if ws == [] then EndingText(end) else ws[0].text + (GapsText(ws[0].gap) + Layout(ws[1..], end))
  }

  function WordsOf(ws: seq<Written>): (r: seq<Word>)
    ensures |r| == |ws|
  {
    if ws == [] then [] else [ws[0].word] + WordsOf(ws[1..])
  }

  // No token goes on into what stands behind it.
  predicate StandApart(ws: seq<Written>, end: Ending) {
    ws != [] ==>
      MayFollow(ws[0].word.kind, GapsText(ws[0].gap) + Layout(ws[1..], end)) && StandApart(ws[1..], end)
  }

  // The same tokens, wherever they stand
  predicate Alike(a: seq<Word>, b: seq<Word>) {
    |a| == |b| && forall i | 0 <= i < |a| :: a[i].kind == b[i].kind && a[i].text == b[i].text
  }

  lemma NoneAlike()
    ensures Alike([], [])
  {
  }

  lemma AlikeCons(a: seq<Word>, b: seq<Word>)
    requires a != [] && b != []
    ensures Alike(a, b) <==> a[0].kind == b[0].kind && a[0].text == b[0].text && Alike(a[1..], b[1..])
  {
    if a[0].kind == b[0].kind && a[0].text == b[0].text && Alike(a[1..], b[1..]) {
      forall i | 0 <= i < |a|
        ensures a[i].kind == b[i].kind && a[i].text == b[i].text
      {
        if i > 0 {
          assert a[i] == a[1..][i - 1] && b[i] == b[1..][i - 1];
        }
      }
    }
  }

  // What follows a token decides whether it is read: the token and the rest, or another one.
  lemma WordThenRest(isNumber: NumberTest, t: bytes, i: nat, w: Word, text: bytes, rest: bytes)
    requires IsSpelled(isNumber, w, text) && StartsWith(t, i, text, rest)
    ensures var e, ts := i + |text|, StripComments(Tokenise(isNumber, t, i));
      && e <= |t| && t[e..] == rest && ts != []
      && (ts[0].kind == w.kind && ts[0].text == w.text <==> MayFollow(w.kind, rest))
      && (MayFollow(w.kind, rest) ==> ts[1..] == StripComments(Tokenise(isNumber, t, e)))
  {
    hide Tokenise, StripComments, TokenAt, IsSpelled, Stands, Line, Column, GoesOnWith;
    var e := i + |text|;
    StartStands(t, i, text, rest);
    WordIsRead(isNumber, t, i, w, text);
    assert rest != [] ==> rest[0] == t[e];
    TokenThenRest(isNumber, t, i);
    var p := TokenAt(isNumber, t, i);
    StripFirst(TokenOf(t, i, p), Tokenise(isNumber, t, p.end));
  }

  lemma FirstWritten(isNumber: NumberTest, ws: seq<Written>, end: Ending)
    requires ws != [] && forall w <- ws :: WfWritten(isNumber, w)
    ensures IsSpelled(isNumber, ws[0].word, ws[0].text) && (forall g <- ws[0].gap :: WfGap(g))
    ensures forall w <- ws[1..] :: WfWritten(isNumber, w)
    ensures Layout(ws, end) == ws[0].text + (GapsText(ws[0].gap) + Layout(ws[1..], end))
    ensures WordsOf(ws)[0] == ws[0].word && WordsOf(ws)[1..] == WordsOf(ws[1..])
  {
    hide IsSpelled, WfGap;
    assert ws[0] in ws;
  }

  // The tokens of a text laid out are the ones it was laid out from, if and only if each stands apart.
  lemma {:induction false} LayoutIsRead(isNumber: NumberTest, t: bytes, i: nat, ws: seq<Written>, end: Ending)
    requires (forall w <- ws :: WfWritten(isNumber, w)) && WfEnding(end)
    requires i <= |t| && t[i..] == Layout(ws, end)
    ensures Alike(StripComments(Tokenise(isNumber, t, i)), WordsOf(ws)) <==> StandApart(ws, end)
    decreases |ws|
  {
    hide Tokenise, StripComments, WfWritten, IsSpelled, WfGap, WfEnding, GapsText, Alike, Layout, MayFollow, WordsOf;
    if ws == [] {
      LayoutEnds(end);
      EndingIsSkipped(isNumber, t, i, end);
      NoneAlike();
    } else {
      FirstWritten(isNumber, ws, end);
      var w, gap, rest := ws[0], GapsText(ws[0].gap), Layout(ws[1..], end);
      WordThenRest(isNumber, t, i, w.word, w.text, gap + rest);
      var ts, e := StripComments(Tokenise(isNumber, t, i)), i + |w.text|;
      AlikeCons(ts, WordsOf(ws));
      if MayFollow(w.word.kind, gap + rest) {
        GapsAreSkipped(isNumber, t, e, w.gap, rest);
        LayoutIsRead(isNumber, t, e + |gap|, ws[1..], end);
      }
    }
  }

  lemma LayoutEnds(end: Ending)
    ensures Layout([], end) == EndingText(end) && WordsOf([]) == []
  {
  }

  // ----- Positions do not matter to the parser -----

  predicate SameToken(t: Token, t': Token) {
    t.kind == t'.kind && t.text == t'.text
  }

  predicate SameState(s: State, s': State) {
    && s.event == s'.event && s.text == s'.text && s.depth == s'.depth && s.noDefs == s'.noDefs
    && s.error.code == s'.error.code
    && Alike(s.input, s'.input) && SameToken(s.eof, s'.eof)
  }

  predicate SameAttempt(a: Attempt, a': Attempt) {
    a.ok == a'.ok && SameState(a.s, a'.s) && SameToken(a.last, a'.last)
  }

  lemma SameStep(s: State, s': State)
    requires SameState(s, s')
    ensures SameToken(Peek(s), Peek(s')) && SameState(Advance(s), Advance(s'))
  {
  }

  lemma SameEntry(s: State, s': State, t: Token, t': Token)
    requires SameState(s, s') && SameToken(t, t')
    ensures SameAttempt(ExpectNewEntry(s, t), ExpectNewEntry(s', t'))
  {
    hide Alike, Peek, Advance;
    SameStep(s, s');
    SameStep(Advance(s), Advance(s'));
  }

  lemma {:induction false} SameDefinition(s: State, s': State, t: Token, t': Token)
    requires SameState(s, s') && SameToken(t, t')
    ensures SameAttempt(ExpectNewDefinition(s, t), ExpectNewDefinition(s', t'))
    decreases |s.input|, if t.kind.Semicolon? then 1 else 0
  {
    hide Alike;
    if t.kind.Semicolon? {
      SameStep(s, s');
      SameDefinition(Advance(s), Advance(s'), Peek(s), Peek(s'));
    }
  }

  lemma SameEntryOrEnd(s: State, s': State, t: Token, t': Token)
    requires SameState(s, s') && SameToken(t, t')
    ensures SameState(EntryOrEnd(s, t), EntryOrEnd(s', t'))
  {
    hide ExpectNewEntry, Alike;
    SameEntry(s, s', t, t');
  }

  lemma SameDefinitionOrEnd(s: State, s': State, t: Token, t': Token)
    requires SameState(s, s') && SameToken(t, t')
    ensures SameState(DefinitionOrEnd(s, t), DefinitionOrEnd(s', t'))
  {
    hide ExpectNewDefinition, Alike;
    SameDefinition(s, s', t, t');
  }

  lemma SameAfterKey(s: State, s': State, t: Token, t': Token)
    requires SameState(s, s') && SameToken(t, t')
    ensures SameState(AfterKey(s, t), AfterKey(s', t'))
  {
    hide Alike, Peek, Advance;
    SameStep(s, s');
  }

  lemma SameAfterValue(s: State, s': State, t: Token, t': Token)
    requires SameState(s, s') && SameToken(t, t')
    ensures SameState(AfterValue(s, t), AfterValue(s', t'))
  {
    hide Alike, Peek, Advance, EntryOrEnd, DefinitionOrEnd;
    SameStep(s, s');
    SameDefinitionOrEnd(s, s', t, t');
    SameEntryOrEnd(Advance(s), Advance(s'), Peek(s), Peek(s'));
  }

  lemma SameNext(s: State, s': State)
    requires SameState(s, s')
    ensures SameState(Next(s), Next(s'))
  {
    hide Alike, Peek, Advance, EntryOrEnd, DefinitionOrEnd, AfterKey, AfterValue;
    SameStep(s, s');
    var t, t', n, n' := Peek(s), Peek(s'), Advance(s), Advance(s');
    SameDefinitionOrEnd(n, n', t, t');
    SameEntryOrEnd(n, n', t, t');
    SameAfterKey(n, n', t, t');
    SameAfterValue(n, n', t, t');
  }

  // Tokens that differ in nothing but their positions give the same events, and the same end.
  lemma {:induction false} SameRun(s: State, s': State)
    requires SameState(s, s')
    ensures Trace(s) == Trace(s') && SameState(Final(s), Final(s'))
    decreases |s.input|, if Running(s) then 1 else 0
  {
    hide Next, Alike;
    if Running(s) {
      SameNext(s, s');
      SameRun(Next(s), Next(s'));
    }
  }

  // ----- The main theorem -----

  // A text: gaps, then the tokens with the gaps behind them
  function DocumentText(start: seq<Gap>, ws: seq<Written>, end: Ending): bytes {
    GapsText(start) + Layout(ws, end)
  }

  ghost predicate WfText(isNumber: NumberTest, start: seq<Gap>, ws: seq<Written>, end: Ending) {
    (forall g <- start :: WfGap(g)) && (forall w <- ws :: WfWritten(isNumber, w)) && WfEnding(end)
  }

  lemma TextIsRead(isNumber: NumberTest, start: seq<Gap>, ws: seq<Written>, end: Ending)
    requires WfText(isNumber, start, ws, end)
    ensures Alike(Words(isNumber, DocumentText(start, ws, end)), WordsOf(ws)) <==> StandApart(ws, end)
  {
    hide Tokenise, StripComments, WfGap, WfWritten, WfEnding, GapsText, Layout, Alike, StandApart, WordsOf;
    var t := DocumentText(start, ws, end);
    assert t[0..] == t;
    GapsAreSkipped(isNumber, t, 0, start, Layout(ws, end));
    LayoutIsRead(isNumber, t, |GapsText(start)|, ws, end);
  }

  // Every document, written with any spelling of its tokens and any white space and comments between them, is read as
  // its own tokens if and only if each of them stands apart. Then the parser accepts the text unless a semicolon
  // trails the document, and reports the document's traversal.
  lemma TextOfDocument(isNumber: NumberTest, d: Document, start: seq<Gap>, ws: seq<Written>, end: Ending)
    requires WfDocument(d) && WordsOf(ws) == DocumentTokens(d) && WfText(isNumber, start, ws, end)
    ensures var t := DocumentText(start, ws, end);
      var s := Initial(Words(isNumber, t), EndOf(t));
      && (Alike(Words(isNumber, t), DocumentTokens(d)) <==> StandApart(ws, end))
      && (StandApart(ws, end) ==> (Accepts(s) <==> InLanguage(d)))
      && (StandApart(ws, end) && InLanguage(d) ==> Trace(s) == DocumentEvents(d, EndOf(t)))
  {
    hide DocumentText, WfText, Alike, Tokenise, StripComments, Trace, Final, Line, Column, StandApart;
    var t, ts := DocumentText(start, ws, end), DocumentTokens(d);
    TextIsRead(isNumber, start, ws, end);
    Completeness(d, EndOf(t));
    if StandApart(ws, end) {
      SameRun(Initial(Words(isNumber, t), EndOf(t)), Initial(ts, EndOf(t)));
    }
  }
}
