// ELTN_Parser_next and its expect_* helpers (src/eparser.c) as functions on the parser's fields.
// The machine remembers its last event, a depth counter and one flag; it keeps no stack.
module EventMachine {
  import opened Bytes
  import opened Tokens

  // `input` is what next_token will still return before the end of file, `eof` the token it returns
  // from then on.
  datatype State = State(
    event: EventKind, text: bytes,
    depth: nat, noDefs: bool,
    error: ErrorInfo,
    input: seq<Word>, eof: EofToken)

  datatype ErrorInfo = ErrorInfo(code: ErrorCode, line: int, column: int)

  function Initial(input: seq<Word>, eof: EofToken): State {
    State(StreamStart, [], 0, false, ErrorInfo(Ok, 0, 0), input, eof)
  }

  // ELTN_Parser_has_next
  predicate Running(s: State) {
    !s.event.StreamEnd? && !s.event.Fault?
  }

  function Peek(s: State): Token {
    if s.input == [] then s.eof else s.input[0]
  }

  function Advance(s: State): State {
    s.(input := if s.input == [] then [] else s.input[1..])
  }

  function Emit(s: State, kind: EventKind, t: Token): State {
    s.(event := kind, text := t.text)
  }

  function ErrorCodeFor(kind: TokenKind): ErrorCode {
    match kind
    case Invalid => InvalidToken
    case Eof => UnexpectedEnd
    case BadToken => Unknown
    case _ => UnexpectedToken
  }

  // signal_error: the code comes from the token the caller holds, text and position from the last
  // token read, which can be a later one.
  function Signal(s: State, held: TokenKind, last: Token): State {
    s.(event := Fault, text := last.text, error := ErrorInfo(ErrorCodeFor(held), last.line, last.column))
  }

  predicate IsScalar(kind: TokenKind) {
    kind.String? || kind.LongString? || kind.Number? || kind.Integer? || kind.BooleanTrue? || kind.BooleanFalse? || kind.Nil?
  }

  function ScalarEvent(kind: TokenKind): EventKind
    requires IsScalar(kind)
  {
    match kind
    case String => ValueString
    case LongString => ValueString
    case Number => ValueNumber
    case Integer => ValueInteger
    case BooleanTrue => ValueTrue
    case BooleanFalse => ValueFalse
    case Nil => ValueNil
  }

  predicate IsKeyToken(kind: TokenKind) {
    kind.String? || kind.LongString? || kind.Number? || kind.Integer?
  }

  function KeyEvent(kind: TokenKind): EventKind
    requires IsKeyToken(kind)
  {
    match kind
    case String => KeyString
    case LongString => KeyString
    case Number => KeyNumber
    case Integer => KeyInteger
  }

  predicate IsKeyEvent(e: EventKind) {
    e.DefName? || e.KeyString? || e.KeyNumber? || e.KeyInteger?
  }

  predicate IsValueEvent(e: EventKind) {
    || e.TableEnd?
    || e.ValueString? || e.ValueNumber? || e.ValueInteger? || e.ValueTrue? || e.ValueFalse? || e.ValueNil?
  }

  predicate IsSeparator(kind: TokenKind) {
    kind.Comma? || kind.Semicolon?
  }

  // What every step does to the token stream.
  predicate Consumes(s: State, n: State) {
    && |n.input| <= |s.input|
    && n.eof == s.eof && n.noDefs == s.noDefs
  }

  // The outcome of an expect_* call: whether it succeeded, and the state and last token it left.
  datatype Attempt = Attempt(ok: bool, s: State, last: Token)

  function ExpectValue(s: State, t: Token): (a: Attempt)
    ensures Consumes(s, a.s)
  {
    if IsScalar(t.kind) then Attempt(true, Emit(s, ScalarEvent(t.kind), t), t)
    else if t.kind.CurlyOpen? then Attempt(true, Emit(s, TableStart, t).(depth := s.depth + 1), t)
    else Attempt(false, s, t)
  }

  function ExpectNewEntry(s: State, t: Token): (a: Attempt)
    ensures Consumes(s, a.s)
    ensures t.kind.Eof? ==> !a.ok
  {
    if t.kind.Name? then Attempt(true, Emit(s, KeyString, t), t)
    else if t.kind.SquareOpen? then
      var key := Peek(s);
      var s1 := Advance(s);
      if !IsKeyToken(key.kind) then Attempt(false, s1, key)
      else
        var close := Peek(s1);
        var s2 := Emit(Advance(s1), KeyEvent(key.kind), key);
        Attempt(true, if close.kind.SquareClose? then s2 else Signal(s2, close.kind, close), close)
    else ExpectValue(s, t)
  }

  function ExpectTableEnd(s: State, t: Token): (a: Attempt)
    ensures Consumes(s, a.s)
  {
    if t.kind.CurlyClose? && s.depth > 0 then Attempt(true, Emit(s, TableEnd, t).(depth := s.depth - 1), t)
    else Attempt(false, s, t)
  }

  // The code skips semicolons on its own copy of the token, so on failure its caller still holds
  // the first semicolon.
  function ExpectNewDefinition(s: State, t: Token): (a: Attempt)
    ensures Consumes(s, a.s)
    ensures t.kind.Eof? ==> !a.ok
    decreases |s.input|, if t.kind.Semicolon? then 1 else 0
  {
    if t.kind.Semicolon? then
      ExpectNewDefinition(Advance(s), Peek(s))
    else if t.kind.Name? then Attempt(true, Emit(s, DefName, t), t)
    else Attempt(false, s, t)
  }

  function ExpectStreamEnd(s: State, t: Token, last: Token): (r: State)
    ensures Consumes(s, r) && !Running(r)
  {
    if t.kind.Eof? then Emit(s, StreamEnd, last) else Signal(s, t.kind, last)
  }

  function DefinitionOrEnd(s: State, t: Token): (r: State)
    ensures Consumes(s, r)
    ensures t.kind.Eof? ==> !Running(r)
  {
    var def := ExpectNewDefinition(s, t);
    if def.ok then def.s else ExpectStreamEnd(def.s, t, def.last)
  }

  // The common tail of the TABLE_START and separator cases.
  function EntryOrEnd(s: State, t: Token): (r: State)
    ensures Consumes(s, r)
    ensures t.kind.Eof? ==> !Running(r)
  {
    var entry := ExpectNewEntry(s, t);
    if entry.ok then entry.s
    else
      var end := ExpectTableEnd(entry.s, t);
      if end.ok then end.s else Signal(entry.s, t.kind, entry.last)
  }

  // An equals sign and a value must follow a key.
  function AfterKey(s: State, t: Token): (r: State)
    ensures Consumes(s, r)
    ensures t.kind.Eof? ==> !Running(r)
  {
    if !t.kind.Equals? then Signal(s, t.kind, t)
    else
      var v := Peek(s);
      var value := ExpectValue(Advance(s), v);
      if value.ok then value.s else Signal(value.s, v.kind, v)
  }

  // A separator or the end of the table must follow a value, or at the top level a definition or
  // the end of the document.
  function AfterValue(s: State, t: Token): (r: State)
    ensures Consumes(s, r)
    ensures t.kind.Eof? ==> !Running(r)
  {
    if s.depth == 0 then
      if s.noDefs then ExpectStreamEnd(s, t, t) else DefinitionOrEnd(s, t)
    else if IsSeparator(t.kind) then EntryOrEnd(Advance(s), Peek(s))
    else
      var end := ExpectTableEnd(s, t);
      if end.ok then end.s else Signal(s, t.kind, t)
  }

  // ELTN_Parser_next. The last case leaves an end state as it is, although it still reads a token.
  function Next(s: State): (n: State)
    ensures |n.input| <= |s.input| && n.eof == s.eof
    ensures s.event.StreamStart? || n.noDefs == s.noDefs
    ensures Running(n) ==> |n.input| < |s.input|
  {
    var t := Peek(s);
    var s1 := Advance(s);
    match s.event
    case StreamStart =>
      if t.kind.CurlyOpen? then Emit(s1, TableStart, t).(depth := s.depth + 1, noDefs := true)
      else DefinitionOrEnd(s1, t)
    case DefName | KeyString | KeyNumber | KeyInteger => AfterKey(s1, t)
    case TableEnd | ValueString | ValueNumber | ValueInteger | ValueTrue | ValueFalse | ValueNil => AfterValue(s1, t)
    case TableStart => EntryOrEnd(s1, t)
    case StreamEnd | Fault => s1
  }

  // The events a caller sees from `while has_next: next`, and where that loop ends.
  function Trace(s: State): seq<Event>
    decreases |s.input|, if Running(s) then 1 else 0
  {
    if !Running(s) then []
    else var n := Next(s); [Event(n.event, n.text)] + Trace(n)
  }

  function Final(s: State): (f: State)
    ensures !Running(f)
    decreases |s.input|, if Running(s) then 1 else 0
  {
    if !Running(s) then s else Final(Next(s))
  }

  predicate Accepts(s: State)
  {
    Final(s).event.StreamEnd?
  }
}
