// The vocabulary between the lexer, the parser and the parser's caller
// (src/elexer.h and src/eltn.h).
module Tokens {
  import opened Bytes

  datatype TokenKind =
    | BadToken          // ELTN_TOKEN_ERROR, which the lexer never produces
    | Invalid
    | CurlyOpen | CurlyClose | SquareOpen | SquareClose
    | Semicolon | Comma | Equals
    | Name | String | LongString | Number | Integer
    | BooleanTrue | BooleanFalse | Nil
    | Comment | LongComment
    | Eof

  // A token with its text and the position the lexer reports for it.
  datatype Token = Token(kind: TokenKind, text: bytes, line: int, column: int)

  predicate IsComment(t: Token) {
    t.kind.Comment? || t.kind.LongComment?
  }

  // What the lexer can return before, and at, the end of its input.
  type Lexeme = t: Token | !t.kind.Eof? witness Token(Comma, [','], 1, 1)
  type EofToken = t: Token | t.kind.Eof? witness Token(Eof, [], 1, 1)

  // What next_token can return before the end of file: it drops every comment.
  type Word = t: Lexeme | !IsComment(t) witness Token(Comma, [','], 1, 1)

  function StripComments(ts: seq<Lexeme>): (r: seq<Word>)
    ensures |r| <= |ts|
  {
    if ts == [] then []
    else if IsComment(ts[0]) then StripComments(ts[1..])
    else [ts[0]] + StripComments(ts[1..])
  }

  lemma StripFirst(t: Lexeme, ts: seq<Lexeme>)
    ensures StripComments([t] + ts) == if IsComment(t) then StripComments(ts) else [t] + StripComments(ts)
    ensures StripComments([]) == []
  {
    assert ([t] + ts)[1..] == ts;
  }

  // ELTN_COMMENT is left out: nothing raises it.
  datatype EventKind =
    | Fault             // ELTN_ERROR
    | StreamStart
    | DefName
    | KeyString | KeyNumber | KeyInteger
    | ValueString | ValueNumber | ValueInteger | ValueTrue | ValueFalse | ValueNil
    | TableStart | TableEnd
    | StreamEnd

  datatype Event = Event(kind: EventKind, text: bytes)

  datatype ErrorCode = Ok | Unknown | UnexpectedEnd | UnexpectedToken | InvalidToken
}
