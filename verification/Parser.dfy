// The pull parser (src/eparser.c) over the lexer and the ring buffer.
module Parser {
  import opened Bytes
  import opened Tokens
  import opened RingBuffer
  import opened Scanner
  import opened Lexer
  import EventMachine

  class Parser {
    const buffer: Buffer
    const lexer: Lexer

    var event: EventKind
    var lastEvent: EventKind
    var text: bytes
    var depth: nat
    var noDefs: bool
    var errcode: ErrorCode
    var errline: int
    var errcolumn: int

    // What next_token will still return, and the token it returned last.
    ghost var input: seq<Word>
    ghost var eof: EofToken
    ghost var last: Token

    ghost predicate Valid()
      reads `input, `eof, `last, lexer, buffer, buffer.Repr
      ensures Valid() ==> this !in buffer.Repr && lexer !in buffer.Repr && last.text == lexer.tokenBuffer
    {
      && lexer.source == buffer && lexer.Valid() && this !in buffer.Repr && lexer !in buffer.Repr
      && input == StripComments(Tokenise(lexer.isNumber, lexer.text, lexer.At()))
      && eof == EndOf(lexer.text)
      && last.text == lexer.tokenBuffer
    }

    ghost function State(): EventMachine.State
      reads this
    {
      EventMachine.State(event, text, depth, noDefs, EventMachine.ErrorInfo(errcode, errline, errcolumn), input, eof)
    }

    constructor (isNumber: NumberTest)
      ensures Valid() && Untouched() && lexer.isNumber == isNumber
      ensures fresh(lexer) && fresh(buffer.Repr)
    {
      var source := new Buffer();
      lexer := new Lexer(isNumber, source);
      buffer := source;
      event, lastEvent, text, depth, noDefs := StreamStart, StreamStart, [], 0, false;
      errcode, errline, errcolumn := Ok, 0, 0;
      input, eof, last := [], EndOf([]), Token(Eof, [], 0, 0);
      new;
      assert lexer.text == [];
    }

    // next_token
    method NextToken() returns (token: TokenKind, line: int, column: int)
      requires Valid()
      modifies `input, `last, lexer, buffer.Repr
      ensures Valid() && fresh(buffer.Repr - old(buffer.Repr))
      ensures last == EventMachine.Peek(old(State())) && State() == EventMachine.Advance(old(State()))
      ensures token == last.kind && line == last.line && column == last.column
    {
      hide Buffer.Valid, Buffer.Remaining, Lexer.Valid, Lexer.InStep, Scan, Line, Column, Tokenise, EndOf, StripComments;
      TokeniseStep(lexer.isNumber, lexer.text, lexer.At());
      StripFirst(Token(Comma, [], 0, 0), []);
      token, line, column := lexer.NextToken();
      ghost var rest := Tokenise(lexer.isNumber, lexer.text, lexer.At());
      while token.Comment? || token.LongComment?
        invariant lexer.Valid() && this !in buffer.Repr && lexer !in buffer.Repr
        invariant fresh(buffer.Repr - old(buffer.Repr)) && lexer.text == old(lexer.text)
        invariant input == old(input)
        invariant rest == Tokenise(lexer.isNumber, lexer.text, lexer.At())
        invariant token.Eof? ==>
          Token(token, lexer.tokenBuffer, line, column) == eof && input == [] && rest == []
        invariant !token.Eof? ==> StripComments([Token(token, lexer.tokenBuffer, line, column)] + rest) == input
        decreases |rest|, !token.Eof?
      {
        StripFirst(Token(token, lexer.tokenBuffer, line, column), rest);
        TokeniseStep(lexer.isNumber, lexer.text, lexer.At());
        token, line, column := lexer.NextToken();
        rest := Tokenise(lexer.isNumber, lexer.text, lexer.At());
      }
      last := Token(token, lexer.tokenBuffer, line, column);
      if !token.Eof? {
        StripFirst(last, rest);
      }
      input := StripComments(rest);
    }

    // set_event, which captures the text of the last token
    method SetEvent(event: EventKind)
      requires Valid()
      modifies this`event, this`text
      ensures Valid() && State() == EventMachine.Emit(old(State()), event, last)
    {
      hide Valid;
      this.event := event;
      text := lexer.tokenBuffer;
    }

    static lemma CodeOf(token: TokenKind)
      ensures EventMachine.ErrorCodeFor(token) ==
        if token == Invalid then InvalidToken else if token == Eof then UnexpectedEnd
        else if token == BadToken then Unknown else UnexpectedToken
    {
    }

    // signal_error
    method SignalError(token: TokenKind, line: int, column: int)
      requires Valid() && line == last.line && column == last.column
      modifies this`event, this`text, this`errcode, this`errline, this`errcolumn
      ensures Valid() && State() == EventMachine.Signal(old(State()), token, last)
    {
      hide Valid, EventMachine.ErrorCodeFor;
      event := Fault;
      text := lexer.tokenBuffer;
      errline := line;
      errcolumn := column;
      CodeOf(token);
      if token == Invalid {
        errcode := InvalidToken;
      } else if token == Eof {
        errcode := UnexpectedEnd;
      } else if token == BadToken {
        errcode := Unknown;
      } else {
        errcode := UnexpectedToken;
      }
    }

    // expect_value
    method ExpectValue(token: TokenKind) returns (ok: bool)
      requires Valid() && token == last.kind
      modifies this`event, this`text, this`depth
      ensures Valid() && EventMachine.Attempt(ok, State(), last) == EventMachine.ExpectValue(old(State()), last)
    {
      hide Valid;
      match token
      case String | LongString => SetEvent(ValueString); ok := true;
      case Number => SetEvent(ValueNumber); ok := true;
      case Integer => SetEvent(ValueInteger); ok := true;
      case BooleanTrue => SetEvent(ValueTrue); ok := true;
      case BooleanFalse => SetEvent(ValueFalse); ok := true;
      case Nil => SetEvent(ValueNil); ok := true;
      case CurlyOpen =>
        SetEvent(TableStart);
        depth := depth + 1;
        ok := true;
      case _ => ok := false;
    }

    // The key inside the brackets of an entry
    method ExpectKey(token: TokenKind) returns (ok: bool)
      requires Valid() && token == last.kind
      modifies this`event, this`text
      ensures Valid() && ok == EventMachine.IsKeyToken(token)
      ensures State() == if ok then EventMachine.Emit(old(State()), EventMachine.KeyEvent(token), last) else old(State())
    {
      hide Valid;
      ok := true;
      match token
      case String | LongString => SetEvent(KeyString);
      case Number => SetEvent(KeyNumber);
      case Integer => SetEvent(KeyInteger);
      case _ => ok := false;
    }

    // expect_new_entry
    method ExpectNewEntry(token: TokenKind, line: int, column: int) returns (ok: bool, line': int, column': int)
      requires Valid() && token == last.kind && line == last.line && column == last.column
      modifies this, lexer, buffer.Repr
      ensures Valid() && fresh(buffer.Repr - old(buffer.Repr)) && lastEvent == old(lastEvent)
      ensures EventMachine.Attempt(ok, State(), last) == EventMachine.ExpectNewEntry(old(State()), old(last))
      ensures line' == last.line && column' == last.column
    {
      hide Valid, Lexer.Valid, Lexer.InStep, Buffer.Valid;
      line', column' := line, column;
      if token == Name {
        SetEvent(KeyString);
        return true, line', column';
      }
      if token == SquareOpen {
        var next;
        next, line', column' := NextToken();
        ok := ExpectKey(next);
        if !ok {
          return;
        }
        next, line', column' := NextToken();
        if next != SquareClose {
          SignalError(next, line', column');
        }
        return true, line', column';
      }
      ok := ExpectValue(token);
    }

    // expect_table_start
    method ExpectTableStart(token: TokenKind) returns (ok: bool)
      requires Valid() && token == last.kind
      modifies this`event, this`text, this`depth
      ensures Valid() && ok == token.CurlyOpen?
      ensures State() == if ok then EventMachine.Emit(old(State()), TableStart, last).(depth := old(depth) + 1) else old(State())
    {
      hide Valid;
      if token == CurlyOpen {
        SetEvent(TableStart);
        depth := depth + 1;
        return true;
      }
      ok := false;
    }

    // expect_table_end
    method ExpectTableEnd(token: TokenKind, ghost held: Token) returns (ok: bool)
      requires Valid() && token == held.kind && (token.CurlyClose? ==> held == last)
      modifies this`event, this`text, this`depth
      ensures Valid() && EventMachine.Attempt(ok, State(), held) == EventMachine.ExpectTableEnd(old(State()), held)
    {
      hide Valid;
      if token == CurlyClose && depth > 0 {
        SetEvent(TableEnd);
        depth := depth - 1;
        return true;
      }
      ok := false;
    }

    // expect_new_definition
    method ExpectNewDefinition(token: TokenKind, line: int, column: int) returns (ok: bool, line': int, column': int)
      requires Valid() && token == last.kind && line == last.line && column == last.column
      modifies this, lexer, buffer.Repr
      ensures Valid() && fresh(buffer.Repr - old(buffer.Repr)) && lastEvent == old(lastEvent)
      ensures EventMachine.Attempt(ok, State(), last) == EventMachine.ExpectNewDefinition(old(State()), old(last))
      ensures line' == last.line && column' == last.column
    {
      hide Valid, Lexer.Valid, Lexer.InStep, Buffer.Valid;
      var next := token;
      line', column' := line, column;
      while next == Semicolon
        invariant Valid() && fresh(buffer.Repr - old(buffer.Repr)) && lastEvent == old(lastEvent)
        invariant next == last.kind && line' == last.line && column' == last.column
        invariant EventMachine.ExpectNewDefinition(State(), last) == EventMachine.ExpectNewDefinition(old(State()), old(last))
        decreases |input|, next == Semicolon
      {
        next, line', column' := NextToken();
      }
      if next == Name {
        SetEvent(DefName);
        return true, line', column';
      }
      ok := false;
    }

    // expect_stream_end
    method ExpectStreamEnd(token: TokenKind) returns (ok: bool)
      requires Valid()
      modifies this`event, this`text
      ensures Valid() && ok == token.Eof?
      ensures State() == if ok then EventMachine.Emit(old(State()), StreamEnd, last) else old(State())
    {
      hide Valid;
      if token == Eof {
        SetEvent(StreamEnd);
        return true;
      }
      ok := false;
    }

    // The entries of a table, as the TABLE_START case and the separator case of ELTN_Parser_next
    // both go on.
    method EntryOrEnd(token: TokenKind, line: int, column: int)
      requires Valid() && token == last.kind && line == last.line && column == last.column
      modifies this, lexer, buffer.Repr
      ensures Valid() && fresh(buffer.Repr - old(buffer.Repr)) && lastEvent == old(lastEvent)
      ensures State() == EventMachine.EntryOrEnd(old(State()), old(last))
    {
      hide Valid, Lexer.Valid, Lexer.InStep, Buffer.Valid, EventMachine.ExpectNewEntry;
      ghost var held := last;
      var ok, line', column' := ExpectNewEntry(token, line, column);
      if ok {
        return;
      }
      FailedEntry(old(State()), held);
      ok := ExpectTableEnd(token, held);
      if ok {
        return;
      }
      SignalError(token, line', column');
    }

    static lemma FailedEntry(s: EventMachine.State, t: Token)
      ensures var a := EventMachine.ExpectNewEntry(s, t); !a.ok && t.kind.CurlyClose? ==> a.last == t
    {
    }

    // The top level, as the STREAM_START case and the value case of ELTN_Parser_next both go on.
    method DefinitionOrEnd(token: TokenKind, line: int, column: int)
      requires Valid() && token == last.kind && line == last.line && column == last.column
      modifies this, lexer, buffer.Repr
      ensures Valid() && fresh(buffer.Repr - old(buffer.Repr)) && lastEvent == old(lastEvent)
      ensures State() == EventMachine.DefinitionOrEnd(old(State()), old(last))
    {
      hide Valid, Lexer.Valid, Lexer.InStep, Buffer.Valid;
      var ok, line', column' := ExpectNewDefinition(token, line, column);
      if ok {
        return;
      }
      ok := ExpectStreamEnd(token);
      if ok {
        return;
      }
      SignalError(token, line', column');
    }

    // The separator case of ELTN_Parser_next: a value has ended.
    method AfterValue(token: TokenKind, line: int, column: int)
      requires Valid() && token == last.kind && line == last.line && column == last.column
      modifies this, lexer, buffer.Repr
      ensures Valid() && fresh(buffer.Repr - old(buffer.Repr)) && lastEvent == old(lastEvent)
      ensures State() == EventMachine.AfterValue(old(State()), old(last))
    {
      hide Valid, Lexer.Valid, Lexer.InStep, Buffer.Valid, EventMachine.EntryOrEnd, EventMachine.DefinitionOrEnd;
      if depth == 0 {
        if !noDefs {
          DefinitionOrEnd(token, line, column);
          return;
        }
        var ok := ExpectStreamEnd(token);
        if ok {
          return;
        }
        SignalError(token, line, column);
      } else if token == Comma || token == Semicolon {
        var next, line', column' := NextToken();
        EntryOrEnd(next, line', column');
      } else {
        var ok := ExpectTableEnd(token, last);
        if ok {
          return;
        }
        SignalError(token, line, column);
      }
    }

    // The key case of ELTN_Parser_next: an equals sign and a value must follow.
    method AfterKey(token: TokenKind, line: int, column: int)
      requires Valid() && token == last.kind && line == last.line && column == last.column
      modifies this, lexer, buffer.Repr
      ensures Valid() && fresh(buffer.Repr - old(buffer.Repr)) && lastEvent == old(lastEvent)
      ensures State() == EventMachine.AfterKey(old(State()), old(last))
    {
      hide Valid, Lexer.Valid, Lexer.InStep, Buffer.Valid;
      if token != Equals {
        SignalError(token, line, column);
        return;
      }
      var next, line', column' := NextToken();
      var ok := ExpectValue(next);
      if !ok {
        SignalError(next, line', column');
      }
    }

    static lemma NextIs(s: EventMachine.State)
      ensures var n, s1, t := EventMachine.Next(s), EventMachine.Advance(s), EventMachine.Peek(s);
        match s.event
        case StreamStart =>
          n == if t.kind.CurlyOpen? then EventMachine.Emit(s1, TableStart, t).(depth := s.depth + 1, noDefs := true)
               else EventMachine.DefinitionOrEnd(s1, t)
        case DefName | KeyString | KeyNumber | KeyInteger => n == EventMachine.AfterKey(s1, t)
        case TableEnd | ValueString | ValueNumber | ValueInteger | ValueTrue | ValueFalse | ValueNil =>
          n == EventMachine.AfterValue(s1, t)
        case TableStart => n == EventMachine.EntryOrEnd(s1, t)
        case StreamEnd | Fault => n == s1
      ensures EventMachine.Advance(s) == s.(input := EventMachine.Advance(s).input)
    {
      hide EventMachine.EntryOrEnd, EventMachine.DefinitionOrEnd, EventMachine.AfterValue, EventMachine.AfterKey;
    }

    // ELTN_Parser_next
    method Next()
      requires Valid()
      modifies this, lexer, buffer.Repr
      ensures Valid() && fresh(buffer.Repr - old(buffer.Repr))
      ensures State() == EventMachine.Next(old(State()))
    {
      hide Valid, Lexer.Valid, Lexer.InStep, Buffer.Valid, EventMachine.EntryOrEnd, EventMachine.DefinitionOrEnd,
        EventMachine.AfterValue, EventMachine.AfterKey, EventMachine.Next, EventMachine.Peek, EventMachine.Advance;
      NextIs(State());
      lastEvent := event;
      var token, line, column := NextToken();
      match lastEvent
      case StreamStart =>
        var ok := ExpectTableStart(token);
        if ok {
          noDefs := true;
          return;
        }
        DefinitionOrEnd(token, line, column);
      case DefName | KeyString | KeyNumber | KeyInteger => AfterKey(token, line, column);
      case TableEnd | ValueString | ValueNumber | ValueInteger | ValueTrue | ValueFalse | ValueNil =>
        AfterValue(token, line, column);
      case TableStart => EntryOrEnd(token, line, column);
      case StreamEnd | Fault =>
    }

    // ELTN_Parser_has_next
    method HasNext() returns (more: bool)
      ensures more <==> EventMachine.Running(State())
    {
      more := event != StreamEnd && event != Fault;
    }

    // Nothing has been fed to the parser or read by it yet.
    ghost predicate Untouched()
      reads this, lexer, buffer, buffer.Repr
      requires Valid()
    {
      && lexer.count == 0 && !buffer.eof && buffer.Valid() && buffer.Contents() == []
      && State() == EventMachine.Initial(input, eof)
    }

    // The buffer has been given more text.
    ghost method Resume()
      requires lexer.source == buffer && lexer.InStep() && this !in buffer.Repr && lexer !in buffer.Repr
      requires last.text == lexer.tokenBuffer
      modifies `input, `eof, lexer`text
      ensures Valid()
      ensures lexer.text == if lexer.eos then old(lexer.text) else old(lexer.text)[..lexer.pos] + buffer.Remaining()
      ensures input == StripComments(Tokenise(lexer.isNumber, lexer.text, lexer.At())) && eof == EndOf(lexer.text)
    {
      hide Tokenise, StripComments, EndOf, Buffer.Remaining, Buffer.Contents, Lexer.Counted;
      lexer.Resume();
      input, eof := StripComments(Tokenise(lexer.isNumber, lexer.text, lexer.At())), EndOf(lexer.text);
    }

    lemma NothingRead(s: bytes)
      requires Valid() && Untouched()
      ensures lexer.pos == 0 && !lexer.eos && !buffer.eof && lexer.At() == 0
      ensures lexer.text[..lexer.pos] + buffer.Contents() + s == s
      ensures State() == EventMachine.Initial(input, eof)
    {
    }

    // ELTN_Parser_read_string
    method ReadString(s: bytes) returns (n: int)
      requires Valid()
      modifies `input, `eof, lexer`text, buffer.Repr
      ensures Valid() && fresh(buffer.Repr - old(buffer.Repr)) && buffer.eof
      ensures n == if old(buffer.eof) then -1 else |s|
      ensures lexer.text ==
        if lexer.eos then old(lexer.text)
        else old(lexer.text[..lexer.pos] + buffer.Contents()) + if old(buffer.eof) then [] else s
      ensures State() == old(State()).(input := input, eof := eof)
      ensures old(Untouched()) ==> State() == EventMachine.Initial(Words(lexer.isNumber, s), EndOf(s))
    {
      hide Tokenise, StripComments, Ring, Buffer.Contents, Buffer.Remaining, EndOf, Untouched, Lexer.Counted;
      if Untouched() {
        NothingRead(s);
      }
      n := buffer.Write(s);
      buffer.Close();
      Resume();
    }

    // ELTN_Parser_read
    method Read(source: Reader) returns (n: int)
      requires Valid()
      modifies `input, `eof, lexer`text, buffer.Repr, source
      ensures Valid() && fresh(buffer.Repr - old(buffer.Repr) - {source})
      ensures lexer.text ==
        if lexer.eos then old(lexer.text)
        else old(lexer.text[..lexer.pos] + buffer.Contents()) + if old(buffer.eof) then [] else Taken(old(source.chunks))
      ensures State() == old(State()).(input := input, eof := eof)
      ensures old(Untouched()) ==>
        var s := Taken(old(source.chunks));
        State() == EventMachine.Initial(Words(lexer.isNumber, s), EndOf(s))
    {
      hide Tokenise, StripComments, EndOf, Taken, Buffer.Contents, Buffer.Remaining, Untouched, Lexer.Counted;
      if Untouched() {
        NothingRead(Taken(source.chunks));
      }
      n := buffer.Read(source);
      Resume();
    }
  }

  // The caller's loop `while has_next: next` (examples/eventlog.c).
  method AllEvents(parser: Parser) returns (events: seq<Event>)
    requires parser.Valid()
    modifies parser, parser.lexer, parser.buffer.Repr
    ensures parser.Valid()
    ensures events == EventMachine.Trace(old(parser.State())) && parser.State() == EventMachine.Final(old(parser.State()))
    ensures |events| <= |old(parser.input)| + 1
  {
    hide Parser.Valid, EventMachine.Next, Lexer.Valid, Buffer.Valid;
    events := [];
    var more := parser.HasNext();
    while more
      invariant parser.Valid() && fresh(parser.buffer.Repr - old(parser.buffer.Repr))
      invariant more <==> EventMachine.Running(parser.State())
      invariant events + EventMachine.Trace(parser.State()) == EventMachine.Trace(old(parser.State()))
      invariant EventMachine.Final(parser.State()) == EventMachine.Final(old(parser.State()))
      invariant |events| + |parser.input| <= |old(parser.input)| + if more then 0 else 1
      decreases |parser.input|, more
    {
      parser.Next();
      events := events + [Event(parser.event, parser.text)];
      more := parser.HasNext();
    }
  }

  // A whole document in one string.
  method ParseString(isNumber: NumberTest, s: bytes) returns (events: seq<Event>, complete: bool)
    ensures var start := EventMachine.Initial(Words(isNumber, s), EndOf(s));
      events == EventMachine.Trace(start) && (complete <==> EventMachine.Accepts(start))
    ensures |events| <= |s| + 1
  {
    hide Words, EndOf, EventMachine.Trace, EventMachine.Final, Parser.Untouched, Lexer.Valid, Buffer.Valid;
    var parser := new Parser(isNumber);
    var _ := parser.ReadString(s);
    events := AllEvents(parser);
    complete := parser.event == StreamEnd;
  }

  // A whole document from a reader, in any chunks: only what they deliver together shows.
  method ParseChunks(isNumber: NumberTest, chunks: seq<Chunk>) returns (events: seq<Event>, complete: bool)
    ensures var s := Taken(chunks);
      var start := EventMachine.Initial(Words(isNumber, s), EndOf(s));
      events == EventMachine.Trace(start) && (complete <==> EventMachine.Accepts(start))
  {
    hide Words, EndOf, Taken, EventMachine.Trace, EventMachine.Final, Parser.Untouched, Lexer.Valid, Buffer.Valid;
    var parser := new Parser(isNumber);
    var reader := new Reader(chunks);
    var _ := parser.Read(reader);
    events := AllEvents(parser);
    complete := parser.event == StreamEnd;
  }
}
