// What the lexer (src/elexer.c) makes of a text: each scanner below is one of its loops, as a
// function of the whole text and an index into it.
module Scanner {
  import opened Bytes
  import opened Tokens

  // ----- Character classes (src/estring.c) -----

  predicate IsSpace(c: byte) {
    c == '\U{C}' || c == '\n' || c == '\r' || c == '\t' || c == '\U{B}' || c == ' '
  }

  predicate IsLetter(c: byte) {
    'A' <= c <= 'Z' || 'a' <= c <= 'z'
  }

  predicate IsDigit(c: byte) {
    '0' <= c <= '9'
  }

  predicate IsHexDigit(c: byte) {
    IsDigit(c) || 'A' <= c <= 'F' || 'a' <= c <= 'f'
  }

  predicate IsOctDigit(c: byte) {
    '0' <= c <= '7'
  }

  predicate IsQuote(c: byte) {
    c == '\'' || c == '\"'
  }

  predicate IsNameStart(c: byte) {
    c == '_' || IsLetter(c)
  }

  predicate IsNamePart(c: byte) {
    IsNameStart(c) || IsDigit(c)
  }

  predicate IsNumberPart(c: byte) {
    || c == '.' || c == '+' || c == '-' || c == 'e' || c == 'E' || c == 'p' || c == 'P' || c == 'x' || c == 'X'
    || IsHexDigit(c)
  }

  // ----- Token text -----

  predicate EndsWith(buf: bytes, tail: bytes) {
    |tail| <= |buf| && buf[|buf| - |tail|..] == tail
  }

  function Equals(n: nat): (r: bytes)
    ensures |r| == n && forall i | 0 <= i < n :: r[i] == '='
  {
    seq(n, _ => '=')
  }

  function Opening(level: nat): bytes {
    ['['] + Equals(level) + ['[']
  }

  function Closing(level: nat): bytes {
    [']'] + Equals(level) + [']']
  }

  // A token's text leaves out carriage returns, except where the token is plain.
  function DropCR(s: bytes): (r: bytes)
    ensures |r| <= |s|
  {
    if s == [] then []
    else if s[|s| - 1] == '\r' then DropCR(s[..|s| - 1])
    else DropCR(s[..|s| - 1]) + [s[|s| - 1]]
  }

  const KEYWORDS: set<string> := {
    "and", "break", "do", "else", "elseif", "end",
    "false", "for", "function", "goto", "if", "in",
    "local", "nil", "not", "or", "repeat", "return",
    "then", "true", "until", "while"
  }

  // token_buffer_equals compares no more than the token's own length, so any prefix will do.
  predicate MatchesLiteral(name: bytes, literal: string) {
    |name| <= |literal| && name == literal[..|name|]
  }

  function NameKind(name: bytes): TokenKind {
    if MatchesLiteral(name, "true") then BooleanTrue
    else if MatchesLiteral(name, "false") then BooleanFalse
    else if MatchesLiteral(name, "nil") then Nil
    else if name in KEYWORDS then Invalid
    else Name
  }

  // ----- Scanning -----

  function SkipSpace(t: bytes, i: nat): (j: nat)
    requires i <= |t|
    ensures i <= j <= |t|
    ensures forall k | i <= k < j :: IsSpace(t[k])
    ensures j < |t| ==> !IsSpace(t[j])
    decreases |t| - i
  {
    if i < |t| && IsSpace(t[i]) then SkipSpace(t, i + 1) else i
  }

  function NameEnd(t: bytes, i: nat): (j: nat)
    requires i <= |t|
    ensures i <= j <= |t|
    ensures forall k | i <= k < j :: IsNamePart(t[k])
    ensures j < |t| ==> !IsNamePart(t[j])
    decreases |t| - i
  {
    if i < |t| && IsNamePart(t[i]) then NameEnd(t, i + 1) else i
  }

  function NumberEnd(t: bytes, i: nat): (j: nat)
    requires i <= |t|
    ensures i <= j <= |t|
    ensures forall k | i <= k < j :: IsNumberPart(t[k])
    ensures j < |t| ==> !IsNumberPart(t[j])
    decreases |t| - i
  {
    if i < |t| && IsNumberPart(t[i]) then NumberEnd(t, i + 1) else i
  }

  // A token's kind and text, and the index after its last byte.
  datatype Piece = Piece(kind: TokenKind, text: bytes, end: nat)

  // consume_until_matching_quote; `prev` is the byte before t[i] that was not a carriage return.
  function Quoted(t: bytes, i: nat, quote: byte, prev: byte, buf: bytes): (p: Piece)
    requires i <= |t|
    ensures i <= p.end <= |t|
    ensures p.kind.String? || p.kind.Invalid?
    decreases |t| - i
  {
    if i == |t| then Piece(Invalid, buf, i)
    else if t[i] == '\r' then Quoted(t, i + 1, quote, prev, buf)
    else if t[i] == '\n' && prev != '\\' && !EndsWith(buf, ['\\', 'z']) then Piece(Invalid, buf, i + 1)
    else if t[i] == quote && prev != '\\' then Piece(String, buf + [t[i]], i + 1)
    else Quoted(t, i + 1, quote, t[i], buf + [t[i]])
  }

  // Whether the text opens a long bracket, and the level so far; -1 when it never will.
  datatype Bracket = Bracket(open: bool, level: int)

  // The loop of in_long_bracket: counts '=' from buf[i] on, up to a '['.
  function CountEquals(buf: bytes, i: nat, depth: nat): (r: Bracket)
    requires i <= |buf|
    ensures if r.open then r.level >= 0 else r.level == -1
    decreases |buf| - i
  {
    if i < |buf| && buf[i] == '=' then CountEquals(buf, i + 1, depth + 1)
    else if i < |buf| && buf[i] == '[' then Bracket(true, depth)
    else Bracket(false, -1)
  }

  // in_long_bracket: whether `buf` is `prefix`, some '=' and a '['.
  function InLongBracket(buf: bytes, prefix: bytes, depth: int): (r: Bracket)
    requires depth >= -1
    ensures r.level >= -1 && (r.open ==> r.level >= 0)
  {
    if depth >= 0 && |buf| > |prefix| && prefix <= buf && EndsWith(buf, ['[']) then
      if EndsWith(buf, ['[', '[']) then Bracket(true, depth) else CountEquals(buf, |prefix|, depth)
    else Bracket(false, depth)
  }

  function Appended(buf: bytes, c: byte): bytes {
    if c == '\r' then buf else buf + [c]
  }

  // parse_long_string, once past the opening bracket
  function LongBody(t: bytes, i: nat, buf: bytes, depth: nat): (p: Piece)
    requires i <= |t|
    ensures i <= p.end <= |t|
    ensures p.kind.LongString? || p.kind.Invalid?
    decreases |t| - i
  {
    if i == |t| then Piece(Invalid, buf, i)
    else
      var buf' := Appended(buf, t[i]);
      if EndsWith(buf', Closing(depth)) then Piece(LongString, buf', i + 1) else LongBody(t, i + 1, buf', depth)
  }

  // parse_long_string, inside the opening bracket
  function LongOpening(t: bytes, i: nat, buf: bytes, depth: int): (p: Piece)
    requires i <= |t| && depth >= -1
    ensures i <= p.end <= |t|
    ensures p.kind.LongString? || p.kind.Invalid?
    decreases |t| - i
  {
    if i == |t| then Piece(Invalid, buf, i)
    else
      var buf' := Appended(buf, t[i]);
      var Bracket(open, depth') := InLongBracket(buf', ['['], depth);
      if !open then
        if t[i] != '=' || depth' < 0 then Piece(Invalid, buf', i + 1) else LongOpening(t, i + 1, buf', depth')
      else if EndsWith(buf', Closing(depth')) then Piece(LongString, buf', i + 1)
      else LongBody(t, i + 1, buf', depth')
  }

  // parse_long_string, where `open` says whether the opening bracket is complete
  function LongText(t: bytes, i: nat, buf: bytes, open: bool, depth: int): (p: Piece)
    requires i <= |t| && depth >= if open then 0 else -1
    ensures i <= p.end <= |t|
    ensures p.kind.LongString? || p.kind.Invalid?
  {
    if open then LongBody(t, i, buf, depth) else LongOpening(t, i, buf, depth)
  }

  // consume_until_end_of_comment, once past a long opening bracket
  function LongCommentBody(t: bytes, i: nat, buf: bytes, depth: nat): (p: Piece)
    requires i <= |t|
    ensures i <= p.end <= |t|
    ensures p.kind.LongComment? || p.kind.Invalid?
    decreases |t| - i
  {
    if i == |t| then Piece(Invalid, buf, i)
    else
      var buf' := Appended(buf, t[i]);
      if EndsWith(buf', Closing(depth)) then Piece(LongComment, buf', i + 1) else LongCommentBody(t, i + 1, buf', depth)
  }

  // consume_until_end_of_comment, before that
  function CommentText(t: bytes, i: nat, buf: bytes, depth: int): (p: Piece)
    requires i <= |t| && depth >= -1
    ensures i <= p.end <= |t|
    ensures p.kind.Comment? || p.kind.LongComment? || p.kind.Invalid?
    decreases |t| - i
  {
    if i == |t| then Piece(Comment, buf, i)
    else
      var buf' := Appended(buf, t[i]);
      var Bracket(long, depth') := InLongBracket(buf', ['-', '-', '['], depth);
      if !long then
        if t[i] == '\n' then Piece(Comment, buf', i + 1) else CommentText(t, i + 1, buf', depth')
      else if EndsWith(buf', Closing(depth')) then Piece(LongComment, buf', i + 1)
      else LongCommentBody(t, i + 1, buf', depth')
  }

  // ----- Tokens -----

  // What strtod makes of a number's text is left open: `isNumber` says whether it reads all of it
  // as a finite number.
  type NumberTest = bytes -> bool

  function PunctuationKind(c: byte): Option<TokenKind> {
    match c
    case ']' => Some(SquareClose)
    case '{' => Some(CurlyOpen)
    case '}' => Some(CurlyClose)
    case '=' => Some(TokenKind.Equals)
    case ',' => Some(Comma)
    case ';' => Some(Semicolon)
    case _ => None
  }

  function NumberText(isNumber: NumberTest, t: bytes, start: nat, i: nat): (p: Piece)
    requires start <= i <= |t|
    ensures i <= p.end <= |t|
    ensures p.kind.Number? || p.kind.Invalid?
  {
    var end := NumberEnd(t, i);
    Piece(if isNumber(t[start..end]) then TokenKind.Number else Invalid, t[start..end], end)
  }

  // The token that starts at t[i], which is not white space.
  function TokenAt(isNumber: NumberTest, t: bytes, i: nat): (p: Piece)
    requires i < |t| && !IsSpace(t[i])
    ensures i < p.end <= |t| && !p.kind.Eof?
  {
    var c := t[i];
    var next := if i + 1 < |t| then Some(t[i + 1]) else None;
    if c == '[' then
      if next == Some('[') || next == Some('=') then LongText(t, i + 2, [c, next.value], next == Some('['), 0)
      else Piece(SquareOpen, [c], i + 1)
    else if PunctuationKind(c).Some? then Piece(PunctuationKind(c).value, [c], i + 1)
    else if IsDigit(c) || c == '.' then NumberText(isNumber, t, i, i + 1)
    else if c == '-' then
      if next == Some('-') then CommentText(t, i + 2, ['-', '-'], 0)
      else if next.Some? && (IsDigit(next.value) || next.value == '.') then NumberText(isNumber, t, i, i + 2)
      else Piece(Invalid, [c], i + 1)
    else if c == '\'' || c == '\"' then Quoted(t, i + 1, c, c, [c])
    else if IsNameStart(c) then
      var end := NameEnd(t, i + 1);
      Piece(NameKind(t[i..end]), t[i..end], end)
    else Piece(Invalid, [c], i + 1)
  }

  function Line(t: bytes, i: nat): int
    requires i <= |t|
  {
    if i == 0 then 1 else Line(t, i - 1) + if t[i - 1] == '\n' then 1 else 0
  }

  function Column(t: bytes, i: nat): int
    requires i <= |t|
  {
    if i == 0 || t[i - 1] == '\n' then 1 else Column(t, i - 1) + 1
  }

  // ELTN_Lexer_next_token on the text from t[i] on: where the token starts, and the token itself.
  function Scan(isNumber: NumberTest, t: bytes, i: nat): (r: (nat, Piece))
    requires i <= |t|
    ensures i <= r.0 <= r.1.end <= |t|
    ensures if r.1.kind.Eof? then r.0 == r.1.end == |t| else r.0 < r.1.end
  {
    var start := SkipSpace(t, i);
    (start, if start == |t| then Piece(Eof, [], start) else TokenAt(isNumber, t, start))
  }

  function TokenOf(t: bytes, start: nat, p: Piece): Token
    requires start <= |t|
  {
    Token(p.kind, p.text, Line(t, start), Column(t, start))
  }

  // All tokens from t[i] on, and the one at the end of the file.
  function Tokenise(isNumber: NumberTest, t: bytes, i: nat): (r: seq<Lexeme>)
    requires i <= |t|
    ensures |r| <= |t| - i
    decreases |t| - i
  {
    var (start, p) := Scan(isNumber, t, i);
    if p.kind.Eof? then [] else [TokenOf(t, start, p)] + Tokenise(isNumber, t, p.end)
  }

  function Words(isNumber: NumberTest, t: bytes): seq<Word> {
    StripComments(Tokenise(isNumber, t, 0))
  }

  function EndOf(t: bytes): EofToken {
    Token(Eof, [], Line(t, |t|), Column(t, |t|))
  }

  lemma PositionAt(t: bytes, i: nat)
    requires i <= |t|
    ensures i == 0 ==> Line(t, i) == Column(t, i) == 1
    ensures i > 0 ==> Line(t, i) == Line(t, i - 1) + if t[i - 1] == '\n' then 1 else 0
    ensures i > 0 ==> Column(t, i) == if t[i - 1] == '\n' then 1 else Column(t, i - 1) + 1
  {
  }

  lemma LinePrefix(t: bytes, u: bytes, i: nat)
    requires i <= |t| && i <= |u| && t[..i] == u[..i]
    ensures Line(t, i) == Line(u, i) && Column(t, i) == Column(u, i)
  {
    if i > 0 {
      assert t[i - 1] == t[..i][i - 1] == u[..i][i - 1] == u[i - 1];
      assert t[..i - 1] == t[..i][..i - 1] == u[..i - 1];
      LinePrefix(t, u, i - 1);
    }
  }

  lemma TokeniseStep(isNumber: NumberTest, t: bytes, i: nat)
    requires i <= |t|
    ensures var (start, p) := Scan(isNumber, t, i);
      if p.kind.Eof? then Tokenise(isNumber, t, i) == Tokenise(isNumber, t, p.end) == [] && TokenOf(t, start, p) == EndOf(t)
      else Tokenise(isNumber, t, i) == [TokenOf(t, start, p)] + Tokenise(isNumber, t, p.end) && i < p.end
  {
  }
}
