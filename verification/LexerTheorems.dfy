// What the scanner's tokens are, in terms of the text they come from.
module LexerTheorems {
  import opened Bytes
  import opened Tokens
  import opened Scanner
  import Characters

  // ----- Characters -----

  // The lexer's classes of characters are the documented ones.
  lemma ClassesAreDocumented(c: byte)
    ensures IsSpace(c) == Characters.IsSpace(c) && IsQuote(c) == Characters.IsQuote(c)
    ensures IsDigit(c) == Characters.IsDigit(c) && IsHexDigit(c) == Characters.IsHexDigit(c)
    ensures IsOctDigit(c) == Characters.IsOctDigit(c) && IsLetter(c) == Characters.IsLetter(c)
    ensures IsNamePart(c) == Characters.IsNamePart(c) && IsNameStart(c) == (IsNamePart(c) && !IsDigit(c))
    ensures IsNumberPart(c) == Characters.IsNumberPart(c)
  {
  }

  // ----- Texts inside a text -----

  // The text at i is w.
  predicate Stands(t: bytes, i: nat, w: bytes) {
    i + |w| <= |t| && t[i..i + |w|] == w
  }

  lemma ByteAt(t: bytes, i: nat, w: bytes, k: nat)
    requires Stands(t, i, w) && k < |w|
    ensures i + |w| <= |t| && t[i + k] == w[k]
  {
    assert t[i + k] == t[i..i + |w|][k];
  }

  lemma StandsHere(t: bytes, i: nat, w: bytes)
    requires Stands(t, i, w)
    ensures i + |w| <= |t| && t[i..i + |w|] == w
  {
  }

  lemma PartsStand(t: bytes, i: nat, a: bytes, b: bytes)
    requires Stands(t, i, a + b)
    ensures i + |a| + |b| <= |t| && Stands(t, i, a) && Stands(t, i + |a|, b)
  {
    assert t[i..i + |a|] == t[i..i + |a + b|][..|a|] == a;
    assert t[i + |a|..i + |a + b|] == t[i..i + |a + b|][|a|..] == b;
  }

  // ----- Token text is the text itself, without carriage returns -----

  lemma DropCRSnoc(s: bytes, c: byte)
    ensures DropCR(s + [c]) == Appended(DropCR(s), c)
  {
    assert (s + [c])[..|s|] == s;
  }

  lemma DropCRSlice(t: bytes, j: nat, i: nat)
    requires j <= i < |t|
    ensures DropCR(t[j..i + 1]) == Appended(DropCR(t[j..i]), t[i])
  {
    assert t[j..i + 1] == t[j..i] + [t[i]];
    DropCRSnoc(t[j..i], t[i]);
  }

  lemma {:induction false} DropCRPlain(s: bytes)
    requires forall k | 0 <= k < |s| :: s[k] != '\r'
    ensures DropCR(s) == s
  {
    if s != [] {
      DropCRPlain(s[..|s| - 1]);
      assert s == s[..|s| - 1] + [s[|s| - 1]];
    }
  }

  lemma NothingDropped()
    ensures DropCR([]) == []
  {
  }

  lemma {:induction false} DropCRConcat(a: bytes, b: bytes)
    ensures DropCR(a + b) == DropCR(a) + DropCR(b)
    decreases |b|
  {
    hide DropCR;
    if b == [] {
      NothingAround(a);
      NothingDropped();
      NothingAround(DropCR(a));
    } else {
      var c := b[|b| - 1];
      DropCRConcat(a, b[..|b| - 1]);
      assert b == b[..|b| - 1] + [c] && a + b == (a + b[..|b| - 1]) + [c];
      DropCRSnoc(a + b[..|b| - 1], c);
      DropCRSnoc(b[..|b| - 1], c);
    }
  }

  lemma {:induction false} DropCRKeeps(s: bytes, c: byte)
    requires c in s && c != '\r'
    ensures c in DropCR(s)
  {
    assert s == s[..|s| - 1] + [s[|s| - 1]];
    if c != s[|s| - 1] {
      DropCRKeeps(s[..|s| - 1], c);
    }
  }

  // `p` is the text of t[j..p.end].
  ghost predicate Renders(t: bytes, j: nat, p: Piece) {
    j <= p.end <= |t| && p.text == DropCR(t[j..p.end])
  }

  // `p` is a quoted string that a newline has broken off; the newline is used up all the same.
  ghost predicate BrokenOff(t: bytes, j: nat, p: Piece) {
    j < p.end <= |t| && p.kind.Invalid? && t[p.end - 1] == '\n' && p.text == DropCR(t[j..p.end - 1])
  }

  lemma {:induction false} QuotedText(t: bytes, j: nat, i: nat, quote: byte, prev: byte)
    requires j <= i <= |t|
    ensures var p := Quoted(t, i, quote, prev, DropCR(t[j..i])); Renders(t, j, p) || BrokenOff(t, j, p)
    decreases |t| - i
  {
    hide DropCR;
    if i < |t| {
      DropCRSlice(t, j, i);
      QuotedText(t, j, i + 1, quote, if t[i] == '\r' then prev else t[i]);
    }
  }

  lemma {:induction false} LongBodyText(t: bytes, j: nat, i: nat, depth: nat)
    requires j <= i <= |t|
    ensures Renders(t, j, LongBody(t, i, DropCR(t[j..i]), depth))
    ensures Renders(t, j, LongCommentBody(t, i, DropCR(t[j..i]), depth))
    decreases |t| - i
  {
    hide DropCR, EndsWith, Closing;
    if i < |t| {
      DropCRSlice(t, j, i);
      LongBodyText(t, j, i + 1, depth);
    }
  }

  lemma {:induction false} LongOpeningText(t: bytes, j: nat, i: nat, depth: int)
    requires j <= i <= |t| && depth >= -1
    ensures Renders(t, j, LongOpening(t, i, DropCR(t[j..i]), depth))
    decreases |t| - i
  {
    hide DropCR, EndsWith, Closing, InLongBracket, LongBody, Appended;
    if i < |t| {
      DropCRSlice(t, j, i);
      var b := InLongBracket(DropCR(t[j..i + 1]), ['['], depth);
      if b.open {
        LongBodyText(t, j, i + 1, b.level);
      } else {
        LongOpeningText(t, j, i + 1, b.level);
      }
    }
  }

  lemma {:induction false} CommentTextText(t: bytes, j: nat, i: nat, depth: int)
    requires j <= i <= |t| && depth >= -1
    ensures Renders(t, j, CommentText(t, i, DropCR(t[j..i]), depth))
    decreases |t| - i
  {
    hide DropCR, EndsWith, Closing, InLongBracket, LongCommentBody, Appended;
    if i < |t| {
      DropCRSlice(t, j, i);
      var b := InLongBracket(DropCR(t[j..i + 1]), ['-', '-', '['], depth);
      if b.open {
        LongBodyText(t, j, i + 1, b.level);
      } else {
        CommentTextText(t, j, i + 1, b.level);
      }
    }
  }

  predicate IsPlain(kind: TokenKind) {
    !(kind.Invalid? || kind.String? || kind.LongString? || kind.Comment? || kind.LongComment?)
  }

  // Tokens that start with a quote, or with two bytes that may open a comment or a long bracket
  lemma BracketOrQuoteText(t: bytes, i: nat)
    requires i < |t| && t[i] != '\r'
    ensures var p := Quoted(t, i + 1, t[i], t[i], [t[i]]); Renders(t, i, p) || BrokenOff(t, i, p)
    ensures i + 1 < |t| && t[i + 1] != '\r' ==> var two := [t[i], t[i + 1]];
      && Renders(t, i, LongBody(t, i + 2, two, 0)) && Renders(t, i, LongOpening(t, i + 2, two, 0))
      && Renders(t, i, CommentText(t, i + 2, two, 0))
  {
    hide LongOpening, LongBody, CommentText, Quoted, DropCR, Renders, BrokenOff;
    assert t[i..i + 1] == [t[i]];
    DropCRPlain([t[i]]);
    QuotedText(t, i, i + 1, t[i], t[i]);
    if i + 1 < |t| && t[i + 1] != '\r' {
      assert t[i..i + 2] == [t[i], t[i + 1]];
      DropCRPlain([t[i], t[i + 1]]);
      LongBodyText(t, i, i + 2, 0);
      LongOpeningText(t, i, i + 2, 0);
      CommentTextText(t, i, i + 2, 0);
    }
  }

  lemma PlainRenders(t: bytes, i: nat, kind: TokenKind, e: nat)
    requires i <= e <= |t| && forall k | i <= k < e :: t[k] != '\r'
    ensures Renders(t, i, Piece(kind, t[i..e], e))
  {
    DropCRPlain(t[i..e]);
  }

  // A token's text is the text it covers: exactly, for tokens of a plain kind.
  lemma TokenText(isNumber: NumberTest, t: bytes, i: nat)
    requires i < |t| && !IsSpace(t[i])
    ensures var p := TokenAt(isNumber, t, i);
      && (Renders(t, i, p) || ((t[i] == '\'' || t[i] == '\"') && BrokenOff(t, i, p)))
      && (IsPlain(p.kind) ==> p.text == t[i..p.end])
  {
    hide LongOpening, LongBody, CommentText, Quoted, NameKind, DropCR, Renders, BrokenOff;
    var p := TokenAt(isNumber, t, i);
    BracketOrQuoteText(t, i);
    assert t[i..i + 1] == [t[i]];
    if forall k | i <= k < p.end :: t[k] != '\r' {
      PlainRenders(t, i, p.kind, p.end);
    }
  }

  // ----- Positions -----

  // The line of a byte is one more than the newlines before it, and its column is one more than the bytes
  // between the last of them, or the start of the text, and the byte.
  lemma {:induction false} PositionMeans(t: bytes, i: nat)
    requires i <= |t|
    ensures Line(t, i) == 1 + multiset(t[..i])['\n']
    ensures var c := Column(t, i);
      && 1 <= c <= i + 1 && '\n' !in t[i + 1 - c..i]
      && (c == i + 1 || t[i - c] == '\n')
  {
    if i > 0 {
      PositionMeans(t, i - 1);
      assert t[..i] == t[..i - 1] + [t[i - 1]];
      var c := Column(t, i);
      if t[i - 1] != '\n' {
        assert t[i + 1 - c..i] == t[i + 1 - c..i - 1] + [t[i - 1]];
      }
    }
  }

  // ----- Names -----

  // What the documentation makes of a name: a literal or another keyword only if it is the whole word
  function DocumentedKind(name: bytes): TokenKind {
    if name == "true" then BooleanTrue
    else if name == "false" then BooleanFalse
    else if name == "nil" then Nil
    else if name in Characters.RESERVED_WORDS then Invalid
    else Name
  }

  lemma KeywordsAreReserved(name: bytes)
    ensures name in KEYWORDS <==> name in Characters.RESERVED_WORDS || name in {"true", "false", "nil"}
  {
  }

  // A name is misread if and only if a literal goes on from it.
  lemma NameIsMisread(name: bytes)
    ensures NameKind(name) != DocumentedKind(name) <==> name < "true" || name < "false" || name < "nil"
  {
    hide MatchesLiteral;
    KeywordsAreReserved(name);
    PrefixMatches(name, "true");
    PrefixMatches(name, "false");
    PrefixMatches(name, "nil");
  }

  lemma PrefixMatches(name: bytes, literal: string)
    requires literal != []
    ensures MatchesLiteral(name, literal) <==> name == literal || name < literal
    ensures MatchesLiteral(name, literal) && name != [] ==> name[0] == literal[0]
  {
    if MatchesLiteral(name, literal) && |name| == |literal| {
      assert literal[..|name|] == literal;
    }
  }

  lemma OneLetterIsTrue()
    ensures NameKind(['t']) == BooleanTrue && DocumentedKind(['t']) == Name
  {
    NameIsMisread(['t']);
    assert ['t'][0] == "true"[0];
  }

  // ----- The tokens tile the text -----

  datatype Span = Span(start: nat, piece: Piece)

  function Spans(isNumber: NumberTest, t: bytes, i: nat): seq<Span>
    requires i <= |t|
    decreases |t| - i
  {
    var (start, p) := Scan(isNumber, t, i);
    if p.kind.Eof? then [] else [Span(start, p)] + Spans(isNumber, t, p.end)
  }

  // Read from t[i] on, the text is white space and spans in turn, and each token has the text and
  // the position of its span.
  ghost predicate Tiles(t: bytes, i: nat, spans: seq<Span>, tokens: seq<Lexeme>)
    requires i <= |t|
    decreases |spans|
  {
    if spans == [] then tokens == [] && forall k | i <= k < |t| :: IsSpace(t[k])
    else
      var Span(start, p) := spans[0];
      && tokens != []
      && i <= start < p.end <= |t|
      && (forall k | i <= k < start :: IsSpace(t[k])) && !IsSpace(t[start])
      && (Renders(t, start, p) || BrokenOff(t, start, p))
      && tokens[0] == Token(p.kind, p.text, Line(t, start), Column(t, start))
      && Tiles(t, p.end, spans[1..], tokens[1..])
  }

  lemma {:induction false} TokensTileText(isNumber: NumberTest, t: bytes, i: nat)
    requires i <= |t|
    ensures Tiles(t, i, Spans(isNumber, t, i), Tokenise(isNumber, t, i))
    decreases |t| - i
  {
    hide TokenAt, Line, Column, DropCR;
    var start := SkipSpace(t, i);
    if start < |t| {
      TokenText(isNumber, t, start);
      var p := TokenAt(isNumber, t, start);
      TokensTileText(isNumber, t, p.end);
      assert Spans(isNumber, t, i)[1..] == Spans(isNumber, t, p.end);
      assert Tokenise(isNumber, t, i)[1..] == Tokenise(isNumber, t, p.end);
    }
  }

  // ----- Long brackets -----

  lemma BracketsAreDocumented(s: bytes, level: nat)
    ensures s == Opening(level) <==> Characters.IsLongBracket(s, '[', level)
    ensures s == Closing(level) <==> Characters.IsLongBracket(s, ']', level)
  {
  }

  lemma EndsWithMeans(buf: bytes, tail: bytes)
    ensures EndsWith(buf, tail) <==> exists head :: buf == head + tail
  {
    if EndsWith(buf, tail) {
      assert buf == buf[..|buf| - |tail|] + tail;
    }
  }

  // `s` ends in the closing bracket of a level, and no shorter prefix of it does.
  ghost predicate FirstCloses(level: nat, s: bytes) {
    EndsWith(s, Closing(level)) && NeverCloses(level, s[..|s| - 1])
  }

  ghost predicate NeverCloses(level: nat, s: bytes) {
    forall n | 0 <= n <= |s| :: !EndsWith(s[..n], Closing(level))
  }

  // The opening bracket cannot be part of a closing one.
  lemma ClosingAfterOpening(prefix: bytes, level: nat, n: nat, s: bytes)
    ensures var buf := prefix + Opening(n) + s; EndsWith(buf, Closing(level)) <==> EndsWith(s, Closing(level))
  {
    var close := Closing(level);
    var head := prefix + Opening(n);
    var buf := head + s;
    if |s| >= |close| {
      assert buf[|buf| - |close|..] == s[|s| - |close|..];
    } else if |buf| >= |close| {
      var at := |head| - 1 - (|buf| - |close|);
      assert buf[|buf| - |close|..][at] == '[' && close[at] != '[';
    }
  }

  // Past the opening bracket, the token goes on to the first closing bracket of its level, or else
  // to the end of the text.
  ghost predicate ClosesFirst(t: bytes, b: nat, level: nat, head: bytes, kind: TokenKind, p: Piece) {
    && b <= p.end <= |t|
    && var body := DropCR(t[b..p.end]);
      && p.text == head + body
      && if p.kind == kind then FirstCloses(level, body) && p.end > b && t[p.end - 1] == ']'
         else p.kind.Invalid? && p.end == |t| && NeverCloses(level, body)
  }

  lemma NeverClosesSnoc(level: nat, s: bytes, c: byte)
    requires NeverCloses(level, s)
    ensures if EndsWith(s + [c], Closing(level)) then FirstCloses(level, s + [c]) && c == ']' else NeverCloses(level, s + [c])
  {
    assert EndsWith(s + [c], Closing(level)) ==> Closing(level)[level + 1] == c;
    assert (s + [c])[..|s|] == s;
    forall n | 0 <= n <= |s|
      ensures (s + [c])[..n] == s[..n]
    {
    }
    assert (s + [c])[..|s| + 1] == s + [c];
  }

  // One more byte of a body that has not been closed
  lemma BodyStep(t: bytes, b: nat, i: nat, level: nat, prefix: bytes)
    requires b <= i < |t| && NeverCloses(level, DropCR(t[b..i]))
    ensures var head, s, s' := prefix + Opening(level), DropCR(t[b..i]), DropCR(t[b..i + 1]);
      && Appended(head + s, t[i]) == head + s'
      && (EndsWith(head + s', Closing(level)) <==> EndsWith(s', Closing(level)))
      && if EndsWith(s', Closing(level)) then FirstCloses(level, s') && t[i] == ']' else NeverCloses(level, s')
  {
    hide EndsWith, Closing, DropCR, NeverCloses, FirstCloses, Opening;
    var s, c := DropCR(t[b..i]), t[i];
    DropCRSlice(t, b, i);
    AppendedTo(prefix + Opening(level), s, c);
    ClosingAfterOpening(prefix, level, level, Appended(s, c));
    if c == '\r' {
      StillOpen(level, s);
    } else {
      NeverClosesSnoc(level, s, c);
    }
  }

  lemma AppendedTo(head: bytes, s: bytes, c: byte)
    ensures Appended(head + s, c) == head + Appended(s, c)
  {
  }

  lemma {:induction false} LongBodyCloses(t: bytes, b: nat, i: nat, level: nat, prefix: bytes)
    requires b <= i <= |t| && NeverCloses(level, DropCR(t[b..i]))
    ensures var head := prefix + Opening(level);
      var buf := head + DropCR(t[b..i]);
      && ClosesFirst(t, b, level, head, LongString, LongBody(t, i, buf, level))
      && ClosesFirst(t, b, level, head, LongComment, LongCommentBody(t, i, buf, level))
    decreases |t| - i
  {
    hide EndsWith, Closing, DropCR, NeverCloses, FirstCloses, Appended, Opening;
    if i < |t| {
      BodyStep(t, b, i, level, prefix);
      if !EndsWith(DropCR(t[b..i + 1]), Closing(level)) {
        LongBodyCloses(t, b, i + 1, level, prefix);
      }
    }
  }

  lemma StillOpen(level: nat, s: bytes)
    requires NeverCloses(level, s)
    ensures !EndsWith(s, Closing(level))
  {
    assert s[..|s|] == s;
  }

  // A prefix that ends in '[', as in_long_bracket is given it.
  predicate IsBracketPrefix(prefix: bytes) {
    prefix != [] && prefix[|prefix| - 1] == '['
  }

  lemma OpeningIsFound(prefix: bytes, level: nat)
    requires IsBracketPrefix(prefix)
    ensures InLongBracket(prefix + Scanner.Equals(level) + ['['], prefix, 0) == Bracket(true, level)
  {
    var buf := prefix + Scanner.Equals(level) + ['['];
    assert buf[..|prefix|] == prefix && buf[|buf| - 1..] == ['['];
    if level == 0 {
      assert buf[|buf| - 2..] == ['[', '['];
    } else {
      assert buf[|buf| - 2..][0] == '=';
      EqualsAreCounted(prefix, level, 0);
    }
  }

  lemma {:induction false} EqualsAreCounted(prefix: bytes, level: nat, k: nat)
    requires k <= level
    ensures CountEquals(prefix + Scanner.Equals(level) + ['['], |prefix| + k, k) == Bracket(true, level)
    decreases level - k
  {
    if k < level {
      EqualsAreCounted(prefix, level, k + 1);
    }
  }

  lemma NoBracketYet(k: nat, c: byte)
    requires k >= 1 && c != '['
    ensures InLongBracket(Appended(['['] + Scanner.Equals(k), c), ['['], 0) == Bracket(false, 0)
  {
    var buf := Appended(['['] + Scanner.Equals(k), c);
    assert buf[|buf| - 1..][0] != '[';
  }

  // One byte inside an opening bracket: another '=', the bracket's end, or no bracket after all.
  lemma OpeningStep(t: bytes, i: nat, k: nat)
    requires k >= 1 && i <= |t|
    ensures var p := LongOpening(t, i, ['['] + Scanner.Equals(k), 0);
      if i == |t| then p.kind.Invalid?
      else if t[i] == '=' then p == LongOpening(t, i + 1, ['['] + Scanner.Equals(k + 1), 0)
      else if t[i] == '[' then p == LongBody(t, i + 1, Opening(k), k)
      else p.kind.Invalid?
  {
    hide EndsWith, Closing, InLongBracket, LongBody;
    var buf := ['['] + Scanner.Equals(k);
    if i == |t| {
    } else if t[i] == '[' {
      assert buf + ['['] == Opening(k);
      OpeningIsFound(['['], k);
      OpeningDoesNotClose([], k);
      assert [] + Opening(k) == Opening(k);
    } else {
      NoBracketYet(k, t[i]);
      assert buf + ['='] == ['['] + Scanner.Equals(k + 1);
    }
  }

  lemma {:induction false} LongOpeningOpens(t: bytes, j: nat, level: nat, k: nat)
    requires 1 <= k <= level && j + level + 2 <= |t| && t[j..j + level + 2] == Opening(level)
    ensures LongOpening(t, j + 1 + k, ['['] + Scanner.Equals(k), 0) == LongBody(t, j + level + 2, Opening(level), level)
    decreases level - k
  {
    hide LongOpening, LongBody;
    OpeningStep(t, j + 1 + k, k);
    assert t[j + 1 + k] == t[j..j + level + 2][1 + k] == Opening(level)[1 + k];
    if k < level {
      LongOpeningOpens(t, j, level, k + 1);
    }
  }

  lemma OpeningDoesNotClose(prefix: bytes, level: nat)
    ensures !EndsWith(prefix + Opening(level), Closing(level))
  {
    ClosingAfterOpening(prefix, level, level, []);
    assert prefix + Opening(level) + [] == prefix + Opening(level);
  }

  lemma OpensLongString(isNumber: NumberTest, t: bytes, j: nat, level: nat)
    requires j + level + 2 <= |t| && t[j..j + level + 2] == Opening(level)
    ensures !IsSpace('[') && t[j] == '[' && TokenAt(isNumber, t, j) == LongBody(t, j + level + 2, Opening(level), level)
  {
    hide LongOpening, LongBody, CommentText, NumberText, Quoted, NameKind, NameEnd;
    var b := j + level + 2;
    assert t[j] == t[j..b][0] == '[' && t[j + 1] == t[j..b][1] == Opening(level)[1];
    if level == 0 {
      assert ['[', '['] == Opening(0);
    } else {
      assert ['[', '='] == ['['] + Scanner.Equals(1);
      LongOpeningOpens(t, j, level, 1);
    }
  }

  // A long string token runs from its opening bracket to the first closing bracket of its level.
  lemma LongStringToken(isNumber: NumberTest, t: bytes, j: nat, level: nat)
    requires j + level + 2 <= |t| && t[j..j + level + 2] == Opening(level)
    ensures t[j] == '[' && ClosesFirst(t, j + level + 2, level, Opening(level), LongString, TokenAt(isNumber, t, j))
  {
    hide EndsWith, Closing, Opening, LongBody, DropCR, ClosesFirst, NeverCloses, TokenAt;
    var b := j + level + 2;
    OpensLongString(isNumber, t, j, level);
    NothingClosed(t, b, level);
    LongBodyCloses(t, b, b, level, []);
    NothingAround(Opening(level));
    assert [] + Opening(level) + DropCR(t[b..b]) == Opening(level);
  }

  lemma NothingAround(s: bytes)
    ensures [] + s == s && s + [] == s
  {
  }

  lemma NothingClosed(t: bytes, b: nat, level: nat)
    requires b <= |t|
    ensures DropCR(t[b..b]) == [] && NeverCloses(level, DropCR(t[b..b]))
  {
    assert t[b..b] == [];
  }
}
