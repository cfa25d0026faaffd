// The lexer (src/elexer.c): one byte of pushback, and counters for the position of the last byte.
module Lexer {
  import opened Bytes
  import opened Tokens
  import opened RingBuffer
  import opened Scanner

  class Lexer {
    const isNumber: NumberTest
    const source: Buffer

    var current: byte
    var count: nat
    var line: int
    var column: int
    var tokenBuffer: bytes
    var pushback: bool
    var eos: bool

    // Everything the source delivers from first to last, and how much of it has been fetched.
    ghost var text: bytes
    ghost var pos: nat

    ghost predicate Valid()
      reads `current, `count, `line, `column, `pushback, `eos, `text, `pos, source, source.Repr
      ensures Valid() ==> pos <= |text| && (eos ==> pos == |text|) && (count > 0 <==> pos > 0 || eos)
      ensures Valid() ==> this !in source.Repr
    {
      && InStep()
      && (!eos ==> source.Remaining() == text[pos..])
    }

    // Valid, except for what the source has yet to deliver.
    ghost predicate InStep()
      reads `current, `count, `line, `column, `pushback, `eos, `text, `pos, source, source.Repr
    {
      && source.Valid() && this !in source.Repr
      && Counted()
    }

    // The fields go with the byte fetched last.
    ghost predicate Counted()
      reads `current, `count, `line, `column, `pushback, `eos, `text, `pos
    {
      && pos <= |text|
      && (if eos then pos == |text| && count == pos + 1 else count == pos)
      && (pos > 0 ==> current == text[pos - 1])
      && (count > 0 ==> line == Line(text, count - 1) && column == Column(text, count - 1))
      && (pushback ==> count > 0)
    }

    // The index where the next token's bytes begin.
    ghost function At(): nat
      reads this
    {
      if eos then |text| else if pushback && pos > 0 then pos - 1 else pos
    }

    // The index of the byte fetched last.
    ghost function Here(): nat
      reads this
    {
      if eos || pos == 0 then |text| else pos - 1
    }

    constructor (isNumber: NumberTest, source: Buffer)
      requires source.Valid()
      ensures Valid() && this.isNumber == isNumber && this.source == source
      ensures text == source.Remaining() && At() == 0 && count == 0 && tokenBuffer == []
    {
      this.isNumber, this.source := isNumber, source;
      current, count, line, column := '\0', 0, 0, 0;
      tokenBuffer, pushback, eos := [], false, false;
      text, pos := source.Remaining(), 0;
    }

    // The application has given the source more text.
    ghost method Resume()
      requires InStep()
      modifies this`text
      ensures Valid()
      ensures text == if eos then old(text) else old(text)[..pos] + source.Remaining()
    {
      if !eos {
        text := text[..pos] + source.Remaining();
        if count > 0 {
          LinePrefix(old(text), text, count - 1);
        }
      }
    }

    // The counters of get_next_char
    method CountByte(last: byte)
      requires Counted() && !eos && last == current
      modifies `count, `line, `column
      ensures count == old(count) + 1 && line == Line(text, pos) && column == Column(text, pos)
    {
      hide Line, Column;
      PositionAt(text, pos);
      count := count + 1;
      if count == 1 {
        line, column := 1, 1;
      } else if last == '\n' {
        line, column := line + 1, 1;
      } else {
        column := column + 1;
      }
    }

    // get_next_char
    method GetNextChar() returns (c: Option<byte>)
      requires Valid()
      modifies this, source.Repr
      ensures Valid() && fresh(source.Repr - old(source.Repr)) && !pushback
      ensures text == old(text) && tokenBuffer == old(tokenBuffer)
      ensures old(pushback) ==> pos == old(pos) && eos == old(eos) && (eos || (pos > 0 && c == Some(text[pos - 1])))
      ensures !old(pushback) ==>
        if old(eos) || old(pos) == |text| then c.None? && eos && pos == |text|
        else c == Some(text[old(pos)]) && pos == old(pos) + 1 && !eos
    {
      hide Buffer.Valid, Buffer.Remaining, Line, Column;
      var last := current;
      if pushback {
        pushback := false;
        return Some(last);
      }
      if eos {
        return None;
      }
      ghost var rest := source.Remaining();
      var result := source.NextChar(true);
      CountByte(last);
      if result.None? {
        eos := true;
        return None;
      }
      current := result.value;
      pos := pos + 1;
      assert rest[1..] == text[pos..];
      c := Some(current);
    }

    // consume_until_matching_quote
    method ConsumeUntilMatchingQuote(quote: byte) returns (kind: TokenKind)
      requires Valid() && !pushback && !eos
      modifies this, source.Repr
      ensures Valid() && fresh(source.Repr - old(source.Repr)) && text == old(text)
      ensures Piece(kind, tokenBuffer, At()) == old(Quoted(text, pos, quote, quote, tokenBuffer))
    {
      hide Valid, InStep, Buffer.Valid, Buffer.Remaining, Line, Column, EndsWith;
      ghost var p := Quoted(text, pos, quote, quote, tokenBuffer);
      var prev := quote;
      var curr := GetNextChar();
      var quoteFound := false;
      while !eos
        invariant Valid() && fresh(source.Repr - old(source.Repr)) && text == old(text) && !pushback
        invariant !eos ==> pos > 0 && curr == Some(text[pos - 1])
        invariant Quoted(text, Here(), quote, prev, tokenBuffer) == p
        invariant !quoteFound
        decreases |text| - pos, !eos
      {
        if curr == Some('\r') {
          curr := GetNextChar();
          continue;
        }
        if curr == Some('\n') {
          if prev != '\\' && !EndsWith(tokenBuffer, ['\\', 'z']) {
            break;
          }
        }
        tokenBuffer := tokenBuffer + [curr.value];
        if curr == Some(quote) && prev != '\\' {
          quoteFound := true;
          break;
        }
        prev := curr.value;
        curr := GetNextChar();
      }
      kind := if quoteFound then String else Invalid;
    }

    // in_long_bracket, whose `depth` goes in and out by reference
    method InLongBracket(prefix: bytes, depth: int) returns (open: bool, depth': int)
      requires depth >= -1
      ensures Bracket(open, depth') == Scanner.InLongBracket(tokenBuffer, prefix, depth)
    {
      open, depth' := false, depth;
      if depth >= 0 && |tokenBuffer| > |prefix| && prefix <= tokenBuffer && EndsWith(tokenBuffer, ['[']) {
        if EndsWith(tokenBuffer, ['[', '[']) {
          return true, depth;
        }
        var i := |prefix|;
        while i < |tokenBuffer|
          invariant i <= |tokenBuffer| && depth' >= 0
          invariant CountEquals(tokenBuffer, i, depth') == CountEquals(tokenBuffer, |prefix|, depth)
        {
          if tokenBuffer[i] == '=' {
            depth' := depth' + 1;
          } else if tokenBuffer[i] == '[' {
            return true, depth';
          } else {
            return false, -1;
          }
          i := i + 1;
        }
        return false, -1;
      }
    }

    // token_buffer_ends_with_long_bracket
    method EndsWithLongBracket(depth: nat) returns (r: bool)
      ensures r == EndsWith(tokenBuffer, Closing(depth))
    {
      if EndsWith(tokenBuffer, [']']) {
        var bracket: bytes := [']'];
        var i := 0;
        while i < depth
          invariant i <= depth && bracket == [']'] + Scanner.Equals(i)
        {
          bracket := bracket + ['='];
          i := i + 1;
        }
        bracket := bracket + [']'];
        return EndsWith(tokenBuffer, bracket);
      }
      assert Closing(depth)[|Closing(depth)| - 1..] == [']'];
      r := false;
    }

    // The two bracket tests that both loops below make after each byte.
    method TestBrackets(prefix: bytes, open: bool, depth: int) returns (open': bool, depth': int, closed: bool)
      requires depth >= -1 && (open ==> depth >= 0)
      ensures if open then open' && depth' == depth
              else Bracket(open', depth') == Scanner.InLongBracket(tokenBuffer, prefix, depth)
      ensures closed <==> open' && EndsWith(tokenBuffer, Closing(depth'))
    {
      open', depth', closed := open, depth, false;
      if !open {
        open', depth' := InLongBracket(prefix, depth);
      }
      if open' {
        closed := EndsWithLongBracket(depth');
      }
    }

    // Carriage returns are left out.
    method AppendText(c: byte)
      requires Valid()
      modifies `tokenBuffer
      ensures Valid() && tokenBuffer == Appended(old(tokenBuffer), c)
    {
      if c != '\r' {
        tokenBuffer := tokenBuffer + [c];
      }
    }

    // consume_until_end_of_comment
    method ConsumeUntilEndOfComment() returns (kind: TokenKind)
      requires Valid() && !pushback && !eos
      modifies this, source.Repr
      ensures Valid() && fresh(source.Repr - old(source.Repr)) && text == old(text)
      ensures Piece(kind, tokenBuffer, At()) == old(CommentText(text, pos, tokenBuffer, 0))
    {
      hide Valid, InStep, Buffer.Valid, Buffer.Remaining, EndsWith, Closing, Scanner.InLongBracket, CommentGoesOn, Appended;
      ghost var p := CommentText(text, pos, tokenBuffer, 0);
      CommentStarts(text, pos, tokenBuffer);
      var curr := GetNextChar();
      var isLongStart, isLongEnd, depth := false, false, 0;
      while !eos
        invariant Valid() && fresh(source.Repr - old(source.Repr)) && text == old(text) && !pushback
        invariant !eos ==> pos > 0 && curr == Some(text[pos - 1])
        invariant depth >= -1 && (isLongStart ==> depth >= 0) && !isLongEnd
        invariant p == CommentGoesOn(text, Here(), tokenBuffer, isLongStart, depth)
        decreases |text| - pos, !eos
      {
        CommentStep(text, pos - 1, tokenBuffer, isLongStart, depth);
        AppendText(curr.value);
        isLongStart, depth, isLongEnd := TestBrackets(['-', '-', '['], isLongStart, depth);
        if !isLongStart && curr == Some('\n') {
          break;
        }
        if isLongEnd {
          break;
        }
        curr := GetNextChar();
      }
      if eos {
        CommentEnd(text, tokenBuffer, isLongStart, depth);
      }
      kind := if isLongStart then if isLongEnd then LongComment else Invalid else Comment;
    }

    lemma NotClosed(buf: bytes)
      requires |buf| == 2 && buf[0] == '['
      ensures !EndsWith(buf, [']', ']'])
    {
      assert buf[0..][0] == '[';
    }

    // parse_long_string
    method ParseLongString() returns (kind: TokenKind)
      requires Valid() && !pushback && !eos
      requires tokenBuffer == ['[', '['] || tokenBuffer == ['[', '=']
      modifies this, source.Repr
      ensures Valid() && fresh(source.Repr - old(source.Repr)) && text == old(text)
      ensures Piece(kind, tokenBuffer, At()) == old(LongText(text, pos, tokenBuffer, tokenBuffer[1] == '[', 0))
    {
      hide Valid, InStep, Buffer.Valid, Buffer.Remaining, EndsWith, Closing, Scanner.InLongBracket, LongText, Appended;
      var pastOpen := ['[', '['] <= tokenBuffer;
      ghost var p := LongText(text, pos, tokenBuffer, pastOpen, 0);
      var pastClose := EndsWith(tokenBuffer, [']', ']']);
      NotClosed(tokenBuffer);
      var curr := GetNextChar();
      var depth := 0;
      while !eos && !pastClose
        invariant Valid() && fresh(source.Repr - old(source.Repr)) && text == old(text) && !pushback
        invariant !eos ==> pos > 0 && curr == Some(text[pos - 1])
        invariant depth >= -1 && (pastOpen ==> depth >= 0) && !pastClose
        invariant p == LongText(text, Here(), tokenBuffer, pastOpen, depth)
        decreases |text| - pos, !eos
      {
        LongTextStep(text, pos - 1, tokenBuffer, pastOpen, depth);
        AppendText(curr.value);
        pastOpen, depth, pastClose := TestBrackets(['['], pastOpen, depth);
        if !pastOpen && (curr != Some('=') || depth < 0) {
          return Invalid;
        }
        if pastClose {
          break;
        }
        curr := GetNextChar();
      }
      if eos {
        LongTextEnd(text, tokenBuffer, pastOpen, depth);
      }
      kind := if pastClose then LongString else Invalid;
    }

    // The byte fetched last joins the token, which began at text[start].
    method AppendNext(c: byte, ghost start: nat)
      requires Valid() && !eos && start < pos && c == text[pos - 1] && tokenBuffer == text[start..pos - 1]
      modifies `tokenBuffer
      ensures Valid() && tokenBuffer == text[start..pos]
    {
      hide Valid, InStep;
      tokenBuffer := tokenBuffer + [c];
    }

    // parse_number; the token began at text[start].
    method ParseNumber(ghost start: nat) returns (kind: TokenKind)
      requires Valid() && !pushback && !eos && start < pos && tokenBuffer == text[start..pos]
      modifies this, source.Repr
      ensures Valid() && fresh(source.Repr - old(source.Repr)) && text == old(text)
      ensures Piece(kind, tokenBuffer, At()) == old(NumberText(isNumber, text, start, pos))
    {
      hide Valid, InStep, Buffer.Valid, Buffer.Remaining, IsNumberPart;
      ghost var end := NumberEnd(text, pos);
      var tmp := GetNextChar();
      while tmp.Some? && IsNumberPart(tmp.value)
        invariant Valid() && fresh(source.Repr - old(source.Repr)) && text == old(text) && !pushback
        invariant start <= Here() && tokenBuffer == text[start..Here()] && NumberEnd(text, Here()) == end
        invariant if eos then tmp.None? else pos > 0 && tmp == Some(text[pos - 1])
        decreases |text| - pos, !eos
      {
        AppendNext(tmp.value, start);
        tmp := GetNextChar();
      }
      PushBack();
      kind := if isNumber(tokenBuffer) then TokenKind.Number else Invalid;
    }

    // The byte fetched last begins the next token.
    method PushBack()
      requires Valid() && count > 0
      modifies this`pushback
      ensures Valid() && pushback
    {
      pushback := true;
    }

    // The identifier case of ELTN_Lexer_next_token; the token began at text[start].
    method ParseName(ghost start: nat) returns (kind: TokenKind)
      requires Valid() && !pushback && !eos && start < pos && tokenBuffer == text[start..pos]
      modifies this, source.Repr
      ensures Valid() && fresh(source.Repr - old(source.Repr)) && text == old(text)
      ensures var end := old(NameEnd(text, pos));
        Piece(kind, tokenBuffer, At()) == Piece(NameKind(text[start..end]), text[start..end], end)
    {
      hide Valid, InStep, Buffer.Valid, Buffer.Remaining, IsNamePart, NameKind;
      ghost var end := NameEnd(text, pos);
      var curr := GetNextChar();
      while !eos && IsNamePart(curr.value)
        invariant Valid() && fresh(source.Repr - old(source.Repr)) && text == old(text) && !pushback
        invariant start <= Here() && tokenBuffer == text[start..Here()] && NameEnd(text, Here()) == end
        invariant !eos ==> pos > 0 && curr == Some(text[pos - 1])
        decreases |text| - pos, !eos
      {
        AppendNext(curr.value, start);
        curr := GetNextChar();
      }
      PushBack();
      kind := NameKind(tokenBuffer);
    }

    // The switch of ELTN_Lexer_next_token, on the token's first byte.
    method ParseToken(c: byte) returns (kind: TokenKind)
      requires Valid() && !pushback && !eos && pos > 0 && c == text[pos - 1] && !IsSpace(c) && tokenBuffer == [c]
      modifies this, source.Repr
      ensures Valid() && fresh(source.Repr - old(source.Repr)) && text == old(text)
      ensures Piece(kind, tokenBuffer, At()) == old(TokenAt(isNumber, text, pos - 1))
    {
      hide Valid, InStep, Buffer.Valid, Buffer.Remaining, LongText, CommentText, Quoted, NumberText, NameKind, NameEnd;
      ghost var start := pos - 1;
      if c == '[' {
        var curr := GetNextChar();
        if curr == Some('[') || curr == Some('=') {
          tokenBuffer := tokenBuffer + [curr.value];
          assert tokenBuffer == [c, curr.value];
          kind := ParseLongString();
          return;
        }
        PushBack();
        kind := SquareOpen;
      } else if PunctuationKind(c).Some? {
        kind := PunctuationKind(c).value;
      } else if IsDigit(c) || c == '.' {
        kind := ParseNumber(start);
      } else if c == '-' {
        var curr := GetNextChar();
        if curr == Some('-') {
          tokenBuffer := tokenBuffer + [curr.value];
          assert tokenBuffer == ['-', '-'];
          kind := ConsumeUntilEndOfComment();
        } else if curr.Some? && (IsDigit(curr.value) || curr == Some('.')) {
          tokenBuffer := tokenBuffer + [curr.value];
          kind := ParseNumber(start);
        } else {
          PushBack();
          kind := Invalid;
        }
      } else if c == '\'' || c == '\"' {
        kind := ConsumeUntilMatchingQuote(c);
      } else if IsNameStart(c) {
        kind := ParseName(start);
      } else {
        kind := Invalid;
      }
    }

    lemma PositionIsHere()
      requires Valid() && count > 0
      ensures line == Line(text, Here()) && column == Column(text, Here())
    {
      hide Line, Column, Buffer.Valid, Buffer.Remaining;
    }

    // ELTN_Lexer_next_token
    method NextToken() returns (kind: TokenKind, tokenLine: int, tokenColumn: int)
      requires Valid()
      modifies this, source.Repr
      ensures Valid() && fresh(source.Repr - old(source.Repr)) && text == old(text)
      ensures var (start, p) := old(Scan(isNumber, text, At()));
        && Piece(kind, tokenBuffer, At()) == p
        && tokenLine == Line(text, start) && tokenColumn == Column(text, start)
    {
      hide Valid, InStep, Buffer.Valid, Buffer.Remaining, TokenAt, IsSpace, Line, Column, SkipSpace;
      ghost var start := SkipSpace(text, At());
      var curr := GetNextChar();
      tokenBuffer := [];
      if curr.None? || eos {
        PositionIsHere();
        return Eof, line, column;
      }
      while curr.Some? && IsSpace(curr.value)
        invariant Valid() && fresh(source.Repr - old(source.Repr)) && text == old(text) && !pushback
        invariant SkipSpace(text, Here()) == start && tokenBuffer == []
        invariant if eos then curr.None? else pos > 0 && curr == Some(text[pos - 1])
        decreases |text| - pos, !eos
      {
        curr := GetNextChar();
      }
      PositionIsHere();
      tokenLine, tokenColumn := line, column;
      if curr.None? {
        return Eof, tokenLine, tokenColumn;
      }
      tokenBuffer := tokenBuffer + [curr.value];
      kind := ParseToken(curr.value);
    }
  }

  // ----- The two bracket loops, one byte at a time -----

  lemma LongTextStep(t: bytes, i: nat, buf: bytes, open: bool, depth: int)
    requires i < |t| && depth >= (if open then 0 else -1)
    ensures var buf' := Appended(buf, t[i]);
      var Bracket(open', depth') := if open then Bracket(true, depth) else Scanner.InLongBracket(buf', ['['], depth);
      LongText(t, i, buf, open, depth) ==
        if !open' then
          if t[i] != '=' || depth' < 0 then Piece(Invalid, buf', i + 1) else LongText(t, i + 1, buf', false, depth')
        else if EndsWith(buf', Closing(depth')) then Piece(LongString, buf', i + 1)
        else LongText(t, i + 1, buf', true, depth')
  {
    hide Scanner.InLongBracket, EndsWith, Closing, Appended;
  }

  lemma LongTextEnd(t: bytes, buf: bytes, open: bool, depth: int)
    requires depth >= if open then 0 else -1
    ensures LongText(t, |t|, buf, open, depth) == Piece(Invalid, buf, |t|)
  {
  }

  // consume_until_end_of_comment, where `long` says whether a long opening bracket is complete
  function CommentGoesOn(t: bytes, i: nat, buf: bytes, long: bool, depth: int): Piece
    requires i <= |t| && depth >= if long then 0 else -1
  {
    if long then LongCommentBody(t, i, buf, depth) else CommentText(t, i, buf, depth)
  }

  lemma CommentStarts(t: bytes, i: nat, buf: bytes)
    requires i <= |t|
    ensures CommentGoesOn(t, i, buf, false, 0) == CommentText(t, i, buf, 0)
  {
  }

  lemma CommentStep(t: bytes, i: nat, buf: bytes, long: bool, depth: int)
    requires i < |t| && depth >= (if long then 0 else -1)
    ensures var buf' := Appended(buf, t[i]);
      var Bracket(long', depth') := if long then Bracket(true, depth) else Scanner.InLongBracket(buf', ['-', '-', '['], depth);
      CommentGoesOn(t, i, buf, long, depth) ==
        if !long' then
          if t[i] == '\n' then Piece(Comment, buf', i + 1) else CommentGoesOn(t, i + 1, buf', false, depth')
        else if EndsWith(buf', Closing(depth')) then Piece(LongComment, buf', i + 1)
        else CommentGoesOn(t, i + 1, buf', true, depth')
  {
    hide Scanner.InLongBracket, EndsWith, Closing, Appended;
  }

  lemma CommentEnd(t: bytes, buf: bytes, long: bool, depth: int)
    requires depth >= if long then 0 else -1
    ensures CommentGoesOn(t, |t|, buf, long, depth) == Piece(if long then Invalid else Comment, buf, |t|)
  {
  }
}
