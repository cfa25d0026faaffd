// Which tokens are quoted strings (src/elexer.c).
module StringTheorems {
  import opened Bytes
  import opened Tokens
  import opened Scanner
  import opened LexerTheorems

  // The byte before s[k] in a string whose text past the opening quote is s
  function Previous(s: bytes, k: nat, quote: byte): byte
    requires k <= |s|
  {
    if k == 0 then quote else s[k - 1]
  }

  // The quote that closes the string
  predicate Closes(s: bytes, k: nat, quote: byte)
    requires k < |s|
  {
    s[k] == quote && Previous(s, k, quote) != '\\'
  }

  // A newline that breaks the string off: neither a backslash nor \z stands before it.
  predicate Breaks(s: bytes, k: nat, quote: byte)
    requires k < |s|
  {
    s[k] == '\n' && Previous(s, k, quote) != '\\' && !EndsWith([quote] + s[..k], ['\\', 'z'])
  }

  // Nothing in s ends the string.
  ghost predicate GoesOn(s: bytes, quote: byte) {
    forall k | 0 <= k < |s| :: !Closes(s, k, quote) && !Breaks(s, k, quote)
  }

  lemma GoesOnLonger(s: bytes, c: byte, quote: byte)
    requires GoesOn(s, quote)
    ensures var s' := s + [c];
      GoesOn(s', quote) <==> !Closes(s', |s|, quote) && !Breaks(s', |s|, quote)
  {
    var s' := s + [c];
    forall k | 0 <= k < |s|
      ensures !Closes(s', k, quote) && !Breaks(s', k, quote)
    {
      assert !Closes(s, k, quote) && !Breaks(s, k, quote);
      assert s'[..k] == s[..k];
    }
  }

  // How a string token ends: at its closing quote, at a newline that breaks it off, or at the end of the text.
  // Carriage returns do not count.
  ghost predicate EndsAsString(t: bytes, j: nat, quote: byte, p: Piece) {
    && j + 1 <= p.end <= |t|
    && var s := DropCR(t[j + 1..p.end]);
      if p.kind.String? then
        && p.text == [quote] + s && s != [] && t[p.end - 1] == quote
        && Closes(s, |s| - 1, quote) && GoesOn(s[..|s| - 1], quote)
      else
        && p.kind.Invalid?
        && if p.text == [quote] + s then p.end == |t| && GoesOn(s, quote)
           else
             && s != [] && p.text == [quote] + s[..|s| - 1] && t[p.end - 1] == '\n'
             && Breaks(s, |s| - 1, quote) && GoesOn(s[..|s| - 1], quote)
  }

  lemma LastDecides(s: bytes, c: byte, quote: byte)
    ensures var s', prev := s + [c], Previous(s, |s|, quote);
      && (Closes(s', |s|, quote) <==> c == quote && prev != '\\')
      && (Breaks(s', |s|, quote) <==> c == '\n' && prev != '\\' && !EndsWith([quote] + s, ['\\', 'z']))
      && Previous(s', |s'|, quote) == c
  {
    hide EndsWith;
    assert (s + [c])[..|s|] == s;
  }

  lemma {:induction false} StringFrom(t: bytes, j: nat, i: nat, quote: byte)
    requires IsQuote(quote) && j + 1 <= i <= |t| && GoesOn(DropCR(t[j + 1..i]), quote)
    ensures var s := DropCR(t[j + 1..i]);
      EndsAsString(t, j, quote, Quoted(t, i, quote, Previous(s, |s|, quote), [quote] + s))
    decreases |t| - i
  {
    hide DropCR, EndsWith, GoesOn, Closes, Breaks, Previous;
    if i < |t| {
      var s := DropCR(t[j + 1..i]);
      DropCRSlice(t, j + 1, i);
      if t[i] == '\r' {
        StringFrom(t, j, i + 1, quote);
      } else {
        var s' := s + [t[i]];
        assert s'[..|s|] == s && [quote] + s' == [quote] + s + [t[i]];
        GoesOnLonger(s, t[i], quote);
        LastDecides(s, t[i], quote);
        if !Closes(s', |s|, quote) && !Breaks(s', |s|, quote) {
          StringFrom(t, j, i + 1, quote);
        }
      }
    }
  }

  // A STRING token ends at the first matching quote that no backslash stands before.
  lemma StringToken(isNumber: NumberTest, t: bytes, j: nat)
    requires j < |t| && IsQuote(t[j])
    ensures EndsAsString(t, j, t[j], TokenAt(isNumber, t, j))
  {
    hide DropCR, Quoted, EndsAsString;
    NothingClosed(t, j + 1, 0);
    assert [t[j]] + [] == [t[j]];
    StringFrom(t, j, j + 1, t[j]);
  }

  // ----- Texts that are one token -----

  // What may stand between quotes: nothing in it ends the string, and it leaves the closing quote alone.
  ghost predicate FitsInQuotes(w: bytes, quote: byte) {
    GoesOn(w, quote) && (w != [] ==> w[|w| - 1] != '\\')
  }

  lemma FirstFits(s: bytes, w: bytes, quote: byte)
    requires w != [] && FitsInQuotes(s + w, quote)
    ensures w[0] == quote ==> Previous(s, |s|, quote) == '\\'
    ensures w[0] == '\n' ==> Previous(s, |s|, quote) == '\\' || EndsWith([quote] + s, ['\\', 'z'])
    ensures FitsInQuotes(s + [w[0]] + w[1..], quote)
  {
    hide EndsWith;
    assert s + [w[0]] + w[1..] == s + w && (s + w)[..|s|] == s;
    assert !Closes(s + w, |s|, quote) && !Breaks(s + w, |s|, quote);
  }

  lemma LastFits(s: bytes, quote: byte)
    requires FitsInQuotes(s + [], quote) && IsQuote(quote)
    ensures Previous(s, |s|, quote) != '\\'
  {
    assert s + [] == s;
  }

  lemma {:induction false} BodyIsScanned(t: bytes, i: nat, s: bytes, w: bytes, quote: byte)
    requires IsQuote(quote) && FitsInQuotes(s + DropCR(w), quote)
    requires i + |w| < |t| && Stands(t, i, w) && t[i + |w|] == quote
    ensures Quoted(t, i, quote, Previous(s, |s|, quote), [quote] + s) ==
      Piece(String, [quote] + s + DropCR(w) + [quote], i + |w| + 1)
    decreases |w|
  {
    hide EndsWith, FitsInQuotes, DropCR;
    if w == [] {
      NothingDropped();
      LastFits(s, quote);
      assert s + DropCR(w) == s && [quote] + s + DropCR(w) == [quote] + s;
    } else {
      ByteAt(t, i, w, 0);
      FirstDropped(w);
      var rest := DropCR(w[1..]);
      assert t[i + 1..i + |w|] == w[1..];
      if w[0] == '\r' {
        BodyIsScanned(t, i + 1, s, w[1..], quote);
      } else {
        var s' := s + [w[0]];
        FirstFits(s, [w[0]] + rest, quote);
        assert ([w[0]] + rest)[1..] == rest;
        assert [quote] + s + [w[0]] == [quote] + s' && [quote] + s' + rest == [quote] + s + ([w[0]] + rest);
        BodyIsScanned(t, i + 1, s', w[1..], quote);
      }
    }
  }

  lemma FirstDropped(w: bytes)
    requires w != []
    ensures DropCR(w) == if w[0] == '\r' then DropCR(w[1..]) else [w[0]] + DropCR(w[1..])
  {
    hide DropCR;
    assert w == [w[0]] + w[1..];
    DropCRConcat([w[0]], w[1..]);
    NothingDropped();
    DropCRSnoc([], w[0]);
    NothingAround(DropCR(w[1..]));
    assert [] + [w[0]] == [w[0]];
  }

  // Where a body in quotes stands, what stands between the quotes
  lemma Inside(t: bytes, j: nat, w: bytes, quote: byte)
    requires Stands(t, j, [quote] + w + [quote])
    ensures j + |w| + 2 <= |t| && t[j] == t[j + 1 + |w|] == quote && Stands(t, j + 1, w)
  {
    hide Stands;
    var text := [quote] + w + [quote];
    ByteAt(t, j, text, 0);
    ByteAt(t, j, text, 1 + |w|);
    PartsStand(t, j, [quote] + w, [quote]);
    PartsStand(t, j, [quote], w);
  }

  lemma QuoteAppended(s: bytes, quote: byte)
    requires IsQuote(quote)
    ensures Appended(s, quote) == s + [quote]
  {
  }

  lemma Covered(t: bytes, i: nat, e: nat, w: bytes, quote: byte)
    requires IsQuote(quote) && i <= e < |t| && t[i..e] == w && t[e] == quote
    ensures DropCR(t[i..e + 1]) == DropCR(w) + [quote]
  {
    hide DropCR, Appended;
    DropCRSlice(t, i, e);
    QuoteAppended(DropCR(w), quote);
  }

  lemma StringStarts(isNumber: NumberTest, t: bytes, j: nat)
    requires j < |t| && IsQuote(t[j])
    ensures !IsSpace(t[j]) && TokenAt(isNumber, t, j) == Quoted(t, j + 1, t[j], t[j], [t[j]])
  {
    hide LongText, CommentText, NumberText, NameKind, NameEnd, Quoted;
  }

  lemma FittingBodyIsRead(t: bytes, j: nat, w: bytes, quote: byte)
    requires IsQuote(quote) && Stands(t, j, [quote] + w + [quote]) && FitsInQuotes(DropCR(w), quote)
    ensures j < |t| && Quoted(t, j + 1, quote, quote, [quote]) == Piece(String, [quote] + DropCR(w) + [quote], j + |w| + 2)
  {
    hide Quoted, FitsInQuotes, DropCR, Stands;
    Inside(t, j, w, quote);
    NothingAround(DropCR(w));
    NothingAround([quote]);
    BodyIsScanned(t, j + 1, [], w, quote);
  }

  lemma ReadBodyFits(isNumber: NumberTest, t: bytes, j: nat, w: bytes, quote: byte)
    requires IsQuote(quote) && Stands(t, j, [quote] + w + [quote]) && t[j] == quote
    requires TokenAt(isNumber, t, j).kind.String? && TokenAt(isNumber, t, j).end == j + |w| + 2
    ensures FitsInQuotes(DropCR(w), quote)
  {
    hide TokenAt, FitsInQuotes, EndsAsString, DropCR, Stands;
    Inside(t, j, w, quote);
    StringToken(isNumber, t, j);
    StandsHere(t, j + 1, w);
    Covered(t, j + 1, j + 1 + |w|, w, quote);
    ClosedBodyFits(t, j, DropCR(w), quote, TokenAt(isNumber, t, j));
  }

  // Between quotes a body is one token, wherever it stands, if and only if it fits there. Carriage returns do not
  // count.
  lemma QuotedTextIsOneToken(isNumber: NumberTest, t: bytes, j: nat, w: bytes, quote: byte)
    requires IsQuote(quote) && Stands(t, j, [quote] + w + [quote])
    ensures j < |t| && t[j] == quote
    ensures var p := Piece(String, [quote] + DropCR(w) + [quote], j + |w| + 2);
      TokenAt(isNumber, t, j) == p <==> FitsInQuotes(DropCR(w), quote)
  {
    hide TokenAt, Quoted, FitsInQuotes, EndsAsString, DropCR, Stands;
    Inside(t, j, w, quote);
    StringStarts(isNumber, t, j);
    if FitsInQuotes(DropCR(w), quote) {
      FittingBodyIsRead(t, j, w, quote);
    } else if TokenAt(isNumber, t, j) == Piece(String, [quote] + DropCR(w) + [quote], j + |w| + 2) {
      ReadBodyFits(isNumber, t, j, w, quote);
    }
  }

  // The same for a body without carriage returns, in any surroundings
  lemma PlainTextIsOneToken(isNumber: NumberTest, before: bytes, w: bytes, quote: byte, after: bytes)
    requires IsQuote(quote) && '\r' !in w
    ensures var text := [quote] + w + [quote];
      TokenAt(isNumber, before + text + after, |before|) == Piece(String, text, |before| + |text|) <==> FitsInQuotes(w, quote)
  {
    hide TokenAt, FitsInQuotes, DropCR;
    DropCRPlain(w);
    QuotedTextIsOneToken(isNumber, before + ([quote] + w + [quote]) + after, |before|, w, quote);
  }

  lemma ClosedBodyFits(t: bytes, j: nat, w: bytes, quote: byte, p: Piece)
    requires EndsAsString(t, j, quote, p) && p.kind.String? && DropCR(t[j + 1..p.end]) == w + [quote]
    ensures FitsInQuotes(w, quote)
  {
    hide DropCR, EndsWith;
    assert (w + [quote])[..|w|] == w;
  }

  // The documented escape of a backslash does not fit at the end of a string.
  lemma BackslashDoesNotFit(quote: byte)
    ensures !FitsInQuotes(['\\', '\\'], quote)
  {
  }

  // Nor does a newline that \z and a blank stand before, although \z is to skip all white space.
  lemma BlankBeforeNewlineDoesNotFit(quote: byte)
    requires IsQuote(quote)
    ensures !FitsInQuotes(['\\', 'z', ' ', '\n', 'x'], quote) && FitsInQuotes(['\\', 'z', '\n', ' ', 'x'], quote)
  {
    hide Breaks, Closes;
    BreaksBehindBlank(quote);
    GoesOnBehindZ(quote);
  }

  lemma BreaksBehindBlank(quote: byte)
    ensures var w: bytes := ['\\', 'z', ' ', '\n', 'x']; Breaks(w, 3, quote)
  {
    var w: bytes := ['\\', 'z', ' ', '\n', 'x'];
    var head := [quote] + w[..3];
    assert head[2..] == ['z', ' '] && head[3] == ' ';
    assert ['\\', 'z'][1] == 'z';
  }

  lemma GoesOnBehindZ(quote: byte)
    requires IsQuote(quote)
    ensures GoesOn(['\\', 'z', '\n', ' ', 'x'], quote)
  {
    hide EndsWith;
    var w: bytes := ['\\', 'z', '\n', ' ', 'x'];
    assert EndsWith([quote] + w[..2], ['\\', 'z']) by {
      EndsInZ([quote] + w[..2], quote);
    }
  }

  lemma EndsInZ(s: bytes, quote: byte)
    requires s == [quote] + ['\\', 'z']
    ensures EndsWith(s, ['\\', 'z'])
  {
    assert s[1..] == ['\\', 'z'];
  }
}
