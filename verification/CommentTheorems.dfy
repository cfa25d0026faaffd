// Which tokens are long strings, long comments and short comments.
module CommentTheorems {
  import opened Bytes
  import opened Tokens
  import opened Scanner
  import opened LexerTheorems

  // ----- Long strings always come from an opening bracket -----

  lemma {:induction false} OpeningOfLongString(t: bytes, j: nat, k: nat) returns (level: nat)
    requires k >= 1 && j + 1 + k <= |t| && t[j..j + 1 + k] == ['['] + Scanner.Equals(k)
    requires LongOpening(t, j + 1 + k, ['['] + Scanner.Equals(k), 0).kind.LongString?
    ensures j + level + 2 <= |t| && t[j..j + level + 2] == Opening(level)
    decreases |t| - k
  {
    hide LongOpening, LongBody;
    var i := j + 1 + k;
    OpeningStep(t, i, k);
    assert t[j..i + 1] == t[j..i] + [t[i]];
    if t[i] == '=' {
      assert t[j..i + 1] == ['['] + Scanner.Equals(k + 1);
      level := OpeningOfLongString(t, j, k + 1);
    } else {
      assert t[j..i + 1] == Opening(k);
      level := k;
    }
  }

  lemma LongStringOpens(isNumber: NumberTest, t: bytes, j: nat) returns (level: nat)
    requires j < |t| && !IsSpace(t[j]) && TokenAt(isNumber, t, j).kind.LongString?
    ensures j + level + 2 <= |t| && t[j..j + level + 2] == Opening(level)
  {
    hide LongOpening, LongBody, CommentText, Quoted;
    assert t[j] == '[' && j + 1 < |t| && (t[j + 1] == '[' || t[j + 1] == '=');
    if t[j + 1] == '[' {
      level := 0;
    } else {
      assert [t[j], t[j + 1]] == ['['] + Scanner.Equals(1) == t[j..j + 2];
      level := OpeningOfLongString(t, j, 1);
    }
  }

  lemma FirstClosesIsFirst(level: nat, s: bytes, t: bytes)
    requires FirstCloses(level, s) && FirstCloses(level, t) && s <= t
    ensures s == t
  {
    if |s| < |t| {
      PrefixWithoutLast(s, t);
    }
  }

  lemma PrefixWithoutLast(s: bytes, t: bytes)
    requires s <= t && |s| < |t|
    ensures t[..|t| - 1][..|s|] == s
  {
  }

  // A body that a closing bracket of the level ends for the first time. Carriage returns do not count.
  ghost predicate IsBody(level: nat, body: bytes) {
    body != [] && body[|body| - 1] == ']' && FirstCloses(level, DropCR(body))
  }

  lemma LastIsKept(s: bytes)
    requires s != [] && s[|s| - 1] != '\r'
    ensures DropCR(s) != []
  {
    DropCRKeeps(s, s[|s| - 1]);
  }

  // Past its opening bracket, a token ends with the first body there that closes it.
  lemma EndsBehindBody(t: bytes, b: nat, level: nat, head: bytes, kind: TokenKind, body: bytes, p: Piece)
    requires IsBody(level, body) && Stands(t, b, body)
    requires ClosesFirst(t, b, level, head, kind, p)
    ensures p.end == b + |body|
  {
    hide EndsWith, Closing, DropCR, FirstCloses, NeverCloses;
    if p.end > b + |body| {
      var more := t[b + |body|..p.end];
      assert t[b..p.end] == body + more && more[|more| - 1] == t[p.end - 1];
      DropCRConcat(body, more);
      ClosedTextCloses(level, DropCR(body), DropCR(more));
      FirstClosesIsFirst(level, DropCR(body), DropCR(body) + DropCR(more));
      LastIsKept(more);
    } else if p.end < b + |body| {
      var rest := body[p.end - b..];
      assert body == t[b..p.end] + rest;
      DropCRConcat(t[b..p.end], rest);
      FirstClosesIsFirst(level, DropCR(t[b..p.end]), DropCR(body));
      LastIsKept(rest);
    }
  }

  lemma EndsWithBody(t: bytes, b: nat, level: nat, head: bytes, kind: TokenKind, body: bytes, p: Piece)
    requires Stands(t, b, body) && ClosesFirst(t, b, level, head, kind, p)
    ensures p == Piece(kind, head + DropCR(body), b + |body|) <==> IsBody(level, body)
  {
    hide ClosesFirst, FirstCloses, NeverCloses, DropCR, IsBody;
    if IsBody(level, body) {
      EndsBehindBody(t, b, level, head, kind, body, p);
    }
    if p.end == b + |body| {
      ClosedAtEnd(t, b, level, head, kind, body, p);
    }
  }

  lemma ClosedAtEnd(t: bytes, b: nat, level: nat, head: bytes, kind: TokenKind, body: bytes, p: Piece)
    requires Stands(t, b, body) && ClosesFirst(t, b, level, head, kind, p) && p.end == b + |body|
    ensures p.text == head + DropCR(body) && (p.kind == kind <==> IsBody(level, body))
  {
    hide FirstCloses, NeverCloses, DropCR;
    assert t[b..p.end] == body;
    ClosedIsNotOpen(level, DropCR(body));
  }

  lemma ClosedIsNotOpen(level: nat, s: bytes)
    ensures !(FirstCloses(level, s) && NeverCloses(level, s))
  {
    if FirstCloses(level, s) {
      ClosedTextCloses(level, s, []);
      NothingAround(s);
    }
  }

  // Behind an opening bracket, wherever it stands, a text is the rest of that one token if and only if it is a body.
  lemma BracketedTextIsOneToken(isNumber: NumberTest, t: bytes, j: nat, level: nat, body: bytes)
    requires Stands(t, j, Opening(level) + body)
    ensures j < |t| && t[j] == '['
    ensures var p := Piece(LongString, Opening(level) + DropCR(body), j + level + 2 + |body|);
      TokenAt(isNumber, t, j) == p <==> IsBody(level, body)
  {
    hide TokenAt, IsBody, ClosesFirst, DropCR, Stands, Opening;
    OpeningStands(t, j, level, body);
    LongStringToken(isNumber, t, j, level);
    EndsWithBody(t, j + level + 2, level, Opening(level), LongString, body, TokenAt(isNumber, t, j));
  }

  lemma OpeningStands(t: bytes, j: nat, level: nat, body: bytes)
    requires Stands(t, j, Opening(level) + body)
    ensures j + level + 2 <= |t| && t[j..j + level + 2] == Opening(level) && Stands(t, j + level + 2, body)
  {
    PartsStand(t, j, Opening(level), body);
  }

  lemma ClosedTextCloses(level: nat, s: bytes, more: bytes)
    requires FirstCloses(level, s)
    ensures !NeverCloses(level, s + more)
  {
    assert (s + more)[..|s|] == s;
  }

  // ----- Comments -----

  ghost predicate OpensLong(s: bytes) {
    exists level: nat :: Opening(level) <= s
  }

  // No extension of `s` can begin with an opening bracket.
  ghost predicate Spoilt(s: bytes) {
    exists k | 1 <= k < |s| ::
      s[k] != '=' && s[k] != '[' && s[0] == '[' && forall m | 1 <= m < k :: s[m] == '='
  }

  // What in_long_bracket's `depth` records about a comment's text so far.
  ghost predicate Undecided(s: bytes, depth: int) {
    if depth == 0 then s != [] && s[0] == '[' ==> '[' !in s[1..] else depth == -1 && Spoilt(s)
  }

  lemma OpeningAt(level: nat, s: bytes)
    requires Opening(level) <= s
    ensures |s| >= level + 2 && s[0] == s[level + 1] == '[' && forall m | 1 <= m <= level :: s[m] == '='
  {
    assert forall m | 0 <= m < level + 2 :: s[m] == Opening(level)[m];
  }

  lemma SpoiltNeverOpens(s: bytes, more: bytes)
    requires Spoilt(s)
    ensures !OpensLong(s) && Spoilt(s + more)
  {
    var k :| 1 <= k < |s| && s[k] != '=' && s[k] != '[' && s[0] == '[' && forall m | 1 <= m < k :: s[m] == '=';
    forall level: nat | Opening(level) <= s
      ensures false
    {
      OpeningAt(level, s);
    }
    assert (s + more)[k] == s[k];
  }

  lemma {:induction false} CountEqualsFinds(buf: bytes, i: nat, depth: nat) returns (r: nat)
    requires i <= |buf|
    ensures i <= r <= |buf| && (forall m | i <= m < r :: buf[m] == '=') && (r < |buf| ==> buf[r] != '=')
    ensures CountEquals(buf, i, depth) ==
      if r < |buf| && buf[r] == '[' then Bracket(true, depth + r - i) else Bracket(false, -1)
    decreases |buf| - i
  {
    if i < |buf| && buf[i] == '=' {
      r := CountEqualsFinds(buf, i + 1, depth + 1);
    } else {
      r := i;
    }
  }

  const COMMENT_PREFIX: bytes := ['-', '-', '[']

  function CommentBuffer(s: bytes): bytes {
    ['-', '-'] + s
  }

  lemma BracketOutside(s: bytes)
    requires s == [] || s[0] != '[' || |s| == 1 || s[|s| - 1] != '['
    requires |s| >= 2 && s[0] == '[' ==> '[' !in s[1..|s| - 1]
    ensures InLongBracket(CommentBuffer(s), COMMENT_PREFIX, 0) == Bracket(false, 0)
    ensures Undecided(s, 0) && !OpensLong(s)
  {
    var buf := CommentBuffer(s);
    if s != [] && s[0] == '[' && |s| > 1 {
      assert buf[|buf| - 1..][0] == s[|s| - 1];
      assert s[1..] == s[1..|s| - 1] + [s[|s| - 1]];
    } else if s != [] && s[0] != '[' {
      assert COMMENT_PREFIX[2] != buf[2];
    }
    forall level: nat | Opening(level) <= s
      ensures false
    {
      OpeningAt(level, s);
    }
  }

  lemma BracketInside(s: bytes)
    requires |s| >= 2 && s[0] == '[' && s[|s| - 1] == '[' && '[' !in s[1..|s| - 1]
    ensures var b := InLongBracket(CommentBuffer(s), COMMENT_PREFIX, 0);
      if b.open then s == Opening(b.level) else b.level == -1 && Spoilt(s)
  {
    hide InLongBracket, CountEquals, EndsWith;
    var buf := CommentBuffer(s);
    assert forall m | 2 <= m < |buf| :: buf[m] == s[m - 2];
    if |s| == 2 {
      OpeningIsFound(COMMENT_PREFIX, 0);
      assert s == Opening(0) && buf == COMMENT_PREFIX + Scanner.Equals(0) + ['['];
    } else {
      LongerBracket(s);
      var r := CountEqualsFinds(buf, 3, 0);
      assert buf[|buf| - 1] == '[';
      if buf[r] == '[' {
        assert forall m | 1 <= m < r - 2 :: s[m] == buf[m + 2] == '=';
        assert s == Opening(r - 3);
      } else {
        assert s[r - 2] != '=' && s[r - 2] != '[';
        assert forall m | 1 <= m < r - 2 :: s[m] == buf[m + 2] == '=';
      }
    }
  }

  lemma LongerBracket(s: bytes)
    requires |s| > 2 && s[0] == '[' && s[|s| - 1] == '[' && '[' !in s[1..|s| - 1]
    ensures var buf := CommentBuffer(s); InLongBracket(buf, COMMENT_PREFIX, 0) == CountEquals(buf, 3, 0)
  {
    hide CountEquals;
    var buf := CommentBuffer(s);
    assert buf[..3] == COMMENT_PREFIX && buf[|buf| - 1..] == ['['];
    assert s[|s| - 2] in s[1..|s| - 1];
    assert buf[|buf| - 2..][0] != '[';
  }

  // One byte more, and either the bracket is complete or it still is undecided.
  lemma BracketDecides(s: bytes, c: byte, depth: int)
    requires depth >= -1 && Undecided(s, depth) && !OpensLong(s)
    ensures var s' := Appended(s, c);
      var b := InLongBracket(CommentBuffer(s'), COMMENT_PREFIX, depth);
      if b.open then s' == Opening(b.level) else Undecided(s', b.level) && !OpensLong(s')
  {
    var s' := Appended(s, c);
    if depth == -1 {
      SpoiltNeverOpens(s, [c]);
      SpoiltNeverOpens(s', []);
    } else {
      if s' != [] && s'[0] == '[' {
        assert |s'| >= 2 ==> s'[1..|s'| - 1] <= s[1..];
      }
      if |s'| >= 2 && s'[0] == '[' && s'[|s'| - 1] == '[' {
        BracketInside(s');
        if Spoilt(s') {
          SpoiltNeverOpens(s', []);
        }
      } else {
        BracketOutside(s');
      }
    }
  }

  // A short comment: no opening bracket, and the text goes on to the first newline.
  ghost predicate IsShortComment(t: bytes, b: nat, p: Piece) {
    && b <= p.end <= |t| && p.kind.Comment?
    && p.text == CommentBuffer(DropCR(t[b..p.end]))
    && !OpensLong(DropCR(t[b..p.end]))
    && (forall k | b <= k < p.end - 1 :: t[k] != '\n')
    && (p.end == |t| || (p.end > b && t[p.end - 1] == '\n'))
  }

  // A long comment: an opening bracket right after the dashes, and the text goes on to the first
  // closing bracket of its level.
  ghost predicate IsLongComment(t: bytes, b: nat, level: nat, open: nat, p: Piece) {
    && b < open <= |t| && t[open - 1] == '[' && DropCR(t[b..open]) == Opening(level)
    && ClosesFirst(t, open, level, CommentBuffer(Opening(level)), LongComment, p)
  }

  lemma OpenedHere(s: bytes, c: byte, level: nat)
    requires !OpensLong(s) && Appended(s, c) == Opening(level)
    ensures c == '['
  {
    assert Opening(level) <= Appended(s, c);
    assert Appended(s, c)[level + 1] == '[';
  }

  // A comment whose opening bracket t[i] completes
  lemma OpenedComment(t: bytes, b: nat, i: nat, level: nat)
    requires b <= i < |t| && !OpensLong(DropCR(t[b..i])) && Appended(DropCR(t[b..i]), t[i]) == Opening(level)
    ensures !EndsWith(CommentBuffer(Opening(level)), Closing(level))
    ensures IsLongComment(t, b, level, i + 1, LongCommentBody(t, i + 1, CommentBuffer(Opening(level)), level))
  {
    hide DropCR, EndsWith, Closing, OpensLong, LongCommentBody, ClosesFirst, Opening, Appended;
    DropCRSlice(t, b, i);
    OpenedHere(DropCR(t[b..i]), t[i], level);
    NothingClosed(t, i + 1, level);
    LongBodyCloses(t, i + 1, i + 1, level, ['-', '-']);
    OpeningDoesNotClose(['-', '-'], level);
    NothingAround(CommentBuffer(Opening(level)));
  }

  lemma {:induction false} CommentFrom(t: bytes, b: nat, i: nat, depth: int) returns (level: nat, open: nat)
    requires b <= i <= |t| && depth >= -1
    requires var s := DropCR(t[b..i]); Undecided(s, depth) && !OpensLong(s)
    requires forall k | b <= k < i :: t[k] != '\n'
    ensures var p := CommentText(t, i, CommentBuffer(DropCR(t[b..i])), depth);
      IsShortComment(t, b, p) || IsLongComment(t, b, level, open, p)
    decreases |t| - i
  {
    hide DropCR, InLongBracket, EndsWith, Closing, OpensLong, Undecided, LongCommentBody, IsLongComment;
    level, open := 0, 0;
    if i < |t| {
      var s, c := DropCR(t[b..i]), t[i];
      DropCRSlice(t, b, i);
      BracketDecides(s, c, depth);
      var s' := Appended(s, c);
      assert Appended(CommentBuffer(s), c) == CommentBuffer(s');
      var br := InLongBracket(CommentBuffer(s'), COMMENT_PREFIX, depth);
      if br.open {
        level, open := br.level, i + 1;
        OpenedComment(t, b, i, level);
      } else if c != '\n' {
        level, open := CommentFrom(t, b, i + 1, br.level);
      }
    }
  }

  // Every comment is short or long, as its text, read without carriage returns, decides.
  lemma CommentToken(isNumber: NumberTest, t: bytes, j: nat) returns (level: nat, open: nat)
    requires j + 2 <= |t| && t[j] == t[j + 1] == '-'
    ensures var p := TokenAt(isNumber, t, j);
      IsShortComment(t, j + 2, p) || IsLongComment(t, j + 2, level, open, p)
  {
    hide CommentText;
    NothingClosed(t, j + 2, 0);
    assert CommentBuffer([]) == ['-', '-'];
    BracketOutside([]);
    level, open := CommentFrom(t, j + 2, j + 2, 0);
  }

  // One opening bracket cannot be the start of another.
  lemma OpeningIsUnique(level: nat, level': nat, s: bytes)
    requires Opening(level) <= s && Opening(level') <= s
    ensures level == level'
  {
    OpeningAt(level, s);
    OpeningAt(level', s);
  }

  // An opening bracket, with carriage returns in it if need be
  ghost predicate IsOpening(level: nat, open: bytes) {
    open != [] && open[|open| - 1] == '[' && DropCR(open) == Opening(level)
  }

  lemma OpeningIsPlain(level: nat)
    ensures '\n' !in Opening(level) && |Opening(level)| == level + 2
  {
  }

  lemma OpeningHasNoNewline(level: nat, open: bytes)
    requires DropCR(open) == Opening(level)
    ensures '\n' !in open
  {
    hide DropCR, Opening;
    OpeningIsPlain(level);
    if '\n' in open {
      DropCRKeeps(open, '\n');
    }
  }

  // No short comment starts with an opening bracket.
  lemma NotShort(t: bytes, b: nat, level: nat, open: bytes, p: Piece)
    requires IsOpening(level, open) && Stands(t, b, open)
    ensures !IsShortComment(t, b, p)
  {
    hide Opening, DropCR;
    OpeningHasNoNewline(level, open);
    var here := b + |open|;
    if b < p.end < here {
      assert t[p.end - 1] == t[b..here][p.end - 1 - b] && t[p.end - 1] in open;
    } else if here <= p.end <= |t| {
      assert t[b..p.end] == open + t[here..p.end];
      DropCRConcat(open, t[here..p.end]);
      assert Opening(level) <= DropCR(t[b..p.end]);
    }
  }

  // The bracket that opens a comment is the one that stands there.
  lemma OpensHere(t: bytes, b: nat, level: nat, open: bytes, level': nat, open': nat)
    requires IsOpening(level, open) && Stands(t, b, open)
    requires b < open' <= |t| && t[open' - 1] == '[' && DropCR(t[b..open']) == Opening(level')
    ensures level' == level && open' == b + |open|
  {
    hide DropCR, Opening;
    var here := b + |open|;
    OpeningIsPlain(level);
    OpeningIsPlain(level');
    if open' < here {
      var rest := t[open'..here];
      assert open == t[b..open'] + rest && rest[|rest| - 1] == open[|open| - 1];
      DropCRConcat(t[b..open'], rest);
      OpeningIsUnique(level, level', DropCR(open));
      LastIsKept(rest);
    } else {
      var more := t[here..open'];
      assert t[b..open'] == open + more;
      DropCRConcat(open, more);
      OpeningIsUnique(level, level', DropCR(t[b..open']));
      if more != [] {
        LastIsKept(more);
      }
    }
  }

  lemma CommentStands(t: bytes, j: nat, open: bytes, body: bytes)
    requires Stands(t, j, ['-', '-'] + open + body)
    ensures j + 2 + |open| + |body| <= |t| && t[j] == t[j + 1] == '-'
    ensures Stands(t, j + 2, open) && Stands(t, j + 2 + |open|, body)
  {
    PartsStand(t, j, ['-', '-'] + open, body);
    PartsStand(t, j, ['-', '-'], open);
    ByteAt(t, j, ['-', '-'], 0);
    ByteAt(t, j, ['-', '-'], 1);
  }

  lemma OpenedByThis(t: bytes, b: nat, level: nat, open: bytes, level': nat, open': nat, p: Piece)
    requires IsOpening(level, open) && Stands(t, b, open) && IsLongComment(t, b, level', open', p)
    ensures ClosesFirst(t, b + |open|, level, CommentBuffer(Opening(level)), LongComment, p)
  {
    hide DropCR, Opening, Stands, ClosesFirst, CommentBuffer, IsOpening;
    OpensHere(t, b, level, open, level', open');
  }

  // The same behind two hyphens and an opening bracket
  lemma BracketedCommentIsOneToken(isNumber: NumberTest, t: bytes, j: nat, level: nat, open: bytes, body: bytes)
    requires IsOpening(level, open) && Stands(t, j, ['-', '-'] + open + body)
    ensures j < |t| && t[j] == '-'
    ensures var p := Piece(LongComment, ['-', '-'] + Opening(level) + DropCR(body), j + 2 + |open| + |body|);
      TokenAt(isNumber, t, j) == p <==> IsBody(level, body)
  {
    hide TokenAt, IsBody, IsOpening, ClosesFirst, Opening, IsShortComment, IsLongComment, DropCR, Stands;
    CommentStands(t, j, open, body);
    var level', open' := CommentToken(isNumber, t, j);
    var p := TokenAt(isNumber, t, j);
    NotShort(t, j + 2, level, open, p);
    OpenedByThis(t, j + 2, level, open, level', open', p);
    EndsWithBody(t, j + 2 + |open|, level, CommentBuffer(Opening(level)), LongComment, body, p);
  }

  // ----- Comment lines -----

  predicate EndsLine(t: bytes, e: nat) {
    e == |t| || (e < |t| && t[e] == '\n')
  }

  lemma OpensLonger(s: bytes, more: bytes)
    requires OpensLong(s)
    ensures OpensLong(s + more)
  {
    var level: nat :| Opening(level) <= s;
    assert Opening(level) <= s + more;
  }

  lemma LineSplits(t: bytes, b: nat, body: bytes, open: nat)
    requires Stands(t, b, body) && b <= open <= b + |body|
    ensures t[b..open] + body[open - b..] == body
  {
    assert t[b..open] == body[..open - b];
  }

  // A bracket that opens behind the hyphens opens in their line.
  lemma OpensInLine(t: bytes, b: nat, body: bytes, level: nat, open: nat)
    requires Stands(t, b, body) && EndsLine(t, b + |body|)
    requires b <= open <= |t| && DropCR(t[b..open]) == Opening(level)
    ensures OpensLong(DropCR(body))
  {
    hide DropCR, Opening, Stands;
    OpeningHasNoNewline(level, t[b..open]);
    StandsHere(t, b, body);
    if open <= b + |body| {
      LineSplits(t, b, body, open);
      DropCRConcat(t[b..open], body[open - b..]);
      assert Opening(level) <= DropCR(body);
    }
  }

  function LinePiece(t: bytes, body: bytes, e: nat): (p: Piece)
    ensures p.kind.Comment?
  {
    if e == |t| then Piece(Comment, ['-', '-'] + DropCR(body), e)
    else Piece(Comment, ['-', '-'] + DropCR(body) + ['\n'], e + 1)
  }

  // A short comment is the whole line.
  lemma ShortEndsLine(t: bytes, b: nat, body: bytes, p: Piece)
    requires Stands(t, b, body) && '\n' !in body && EndsLine(t, b + |body|) && IsShortComment(t, b, p)
    ensures p.end == if b + |body| == |t| then |t| else b + |body| + 1
  {
    hide DropCR, OpensLong, Stands;
    if b < p.end <= b + |body| {
      ByteAt(t, b, body, p.end - 1 - b);
    }
    StandsHere(t, b, body);
  }

  lemma NewlineAppended(line: bytes)
    ensures CommentBuffer(Appended(line, '\n')) == ['-', '-'] + line + ['\n']
    ensures OpensLong(line) ==> OpensLong(Appended(line, '\n'))
  {
    hide OpensLong;
    if OpensLong(line) {
      OpensLonger(line, ['\n']);
    }
  }

  lemma ShortIsText(t: bytes, b: nat, p: Piece)
    requires IsShortComment(t, b, p)
    ensures b <= p.end <= |t| && p.kind.Comment?
    ensures var s := DropCR(t[b..p.end]); p.text == CommentBuffer(s) && !OpensLong(s)
  {
    hide DropCR, OpensLong;
  }

  lemma ShortIsWholeLine(t: bytes, b: nat, body: bytes, p: Piece)
    requires Stands(t, b, body) && IsShortComment(t, b, p) && p.end == b + |body|
    ensures p.text == CommentBuffer(DropCR(body)) && !OpensLong(DropCR(body))
  {
    hide DropCR, OpensLong, Stands, IsShortComment, CommentBuffer;
    ShortIsText(t, b, p);
    StandsHere(t, b, body);
  }

  lemma ShortHasNewline(t: bytes, b: nat, body: bytes, p: Piece)
    requires Stands(t, b, body) && IsShortComment(t, b, p) && p.end == b + |body| + 1 <= |t| && t[b + |body|] == '\n'
    ensures p.text == ['-', '-'] + DropCR(body) + ['\n'] && !OpensLong(DropCR(body))
  {
    hide DropCR, OpensLong, Stands, IsShortComment, Appended, CommentBuffer;
    ShortIsText(t, b, p);
    StandsHere(t, b, body);
    DropCRSlice(t, b, b + |body|);
    NewlineAppended(DropCR(body));
  }

  lemma ShortIsLine(t: bytes, b: nat, body: bytes, p: Piece)
    requires Stands(t, b, body) && '\n' !in body && EndsLine(t, b + |body|) && IsShortComment(t, b, p)
    ensures p == LinePiece(t, body, b + |body|) && !OpensLong(DropCR(body))
  {
    hide DropCR, OpensLong, Stands, IsShortComment;
    ShortEndsLine(t, b, body, p);
    ShortIsText(t, b, p);
    StandsHere(t, b, body);
    if b + |body| == |t| {
      ShortIsWholeLine(t, b, body, p);
    } else {
      ShortHasNewline(t, b, body, p);
    }
  }

  lemma LongIsNoLine(t: bytes, b: nat, level: nat, open: nat, body: bytes, p: Piece)
    requires Stands(t, b, body) && EndsLine(t, b + |body|) && IsLongComment(t, b, level, open, p)
    ensures !p.kind.Comment? && OpensLong(DropCR(body))
  {
    hide OpensLong, Opening, DropCR, Stands, EndsLine, FirstCloses, NeverCloses;
    OpensInLine(t, b, body, level, open);
  }

  // Behind two hyphens the rest of a line, with its newline if the text goes on, is one comment if and only if no long
  // bracket opens it. Carriage returns do not count.
  lemma LineCommentIsOneToken(isNumber: NumberTest, t: bytes, j: nat, body: bytes)
    requires Stands(t, j, ['-', '-'] + body) && '\n' !in body && EndsLine(t, j + 2 + |body|)
    ensures j < |t| && t[j] == '-'
    ensures TokenAt(isNumber, t, j) == LinePiece(t, body, j + 2 + |body|) <==> !OpensLong(DropCR(body))
  {
    hide TokenAt, OpensLong, DropCR, Stands, EndsLine, IsShortComment, IsLongComment, LinePiece;
    NothingAround(['-', '-'] + body);
    CommentStands(t, j, body, []);
    var level, open := CommentToken(isNumber, t, j);
    var p := TokenAt(isNumber, t, j);
    if IsShortComment(t, j + 2, p) {
      ShortIsLine(t, j + 2, body, p);
    } else {
      LongIsNoLine(t, j + 2, level, open, body, p);
    }
  }
}
