// Where the parser reports an error (src/eparser.c): at the first token that no document goes on with.
module ErrorTheorems {
  import opened Tokens
  import opened EventMachine
  import opened Grammar
  import opened DocumentTheorems
  import opened RunTheorems

  // s, with other tokens still to come
  function With(s: State, input: seq<Word>): State {
    s.(input := input)
  }

  // The nth token still to come; behind the last one comes the end of file.
  function TokenAt(s: State, n: nat): Token
    requires n <= |s.input|
  {
    if n < |s.input| then s.input[n] else s.eof
  }

  function CodeFor(kind: TokenKind): ErrorCode {
    if kind == Invalid then InvalidToken else if kind == Eof then UnexpectedEnd
    else if kind == BadToken then Unknown else UnexpectedToken
  }

  // Behind an opening bracket, and behind a semicolon outside tables, the code is that of the bracket or semicolon.
  predicate IsHeld(kind: TokenKind, depth: nat) {
    kind == SquareOpen || (kind == Semicolon && depth == 0)
  }

  function CodeAt(s: State, n: nat, depth: nat): ErrorCode
    requires n <= |s.input|
  {
    if n > 0 && IsHeld(s.input[n - 1].kind, depth) then UnexpectedToken else CodeFor(TokenAt(s, n).kind)
  }

  // r is the error of a run from s that stops at token n.
  predicate FaultsAt(s: State, r: State, n: nat) {
    && r.event == Fault && n <= |s.input|
    && r.text == TokenAt(s, n).text
    && r.error == ErrorInfo(CodeAt(s, n, r.depth), TokenAt(s, n).line, TokenAt(s, n).column)
  }

  // Some tokens to go on with
  const NAME: Word := Token(Name, ['a'], 1, 1)
  const EQUALS: Word := Token(Equals, ['='], 1, 1)
  const NIL: Word := Token(Nil, ['n', 'i', 'l'], 1, 1)
  const KEY: Word := Token(String, ['\"', '\"'], 1, 1)
  const BRACKET: Word := Token(SquareClose, [']'], 1, 1)
  const BRACE: Word := Token(CurlyClose, ['}'], 1, 1)
  const COMMA: Word := Token(Comma, [','], 1, 1)

  // ----- One step -----

  // Where the entries of a table go on
  function EntryStep(s: State): State {
    EntryOrEnd(Advance(s), Peek(s))
  }

  function DefinitionStep(s: State): State {
    DefinitionOrEnd(Advance(s), Peek(s))
  }

  function KeyStep(s: State): State {
    AfterKey(Advance(s), Peek(s))
  }

  function ValueStep(s: State): State {
    AfterValue(Advance(s), Peek(s))
  }

  // ----- A step that goes on looks no further than the tokens it takes. -----

  predicate Took(s: State, r: State, c: nat) {
    && 0 < c <= |s.input| && r.input == s.input[c..]
    && s.input[c - 1].kind !in {SquareOpen, Semicolon}
  }

  lemma EntryGoesOn(s: State, x: seq<Word>) returns (c: nat)
    requires Running(EntryStep(s))
    ensures Took(s, EntryStep(s), c) && EntryStep(With(s, s.input[..c] + x)) == With(EntryStep(s), x)
  {
    c := if s.input[0].kind.SquareOpen? then 3 else 1;
  }

  lemma KeyGoesOn(s: State, x: seq<Word>) returns (c: nat)
    requires Running(KeyStep(s))
    ensures Took(s, KeyStep(s), c) && KeyStep(With(s, s.input[..c] + x)) == With(KeyStep(s), x)
  {
    c := 2;
  }

  lemma DefinitionGoesOn(s: State, x: seq<Word>) returns (c: nat)
    requires Running(DefinitionStep(s))
    ensures Took(s, DefinitionStep(s), c) && DefinitionStep(With(s, s.input[..c] + x)) == With(DefinitionStep(s), x)
  {
    hide LeadingSemicolons, ExpectNewDefinition, AllSemicolons;
    var semis := LeadingSemicolons(s.input);
    DefinitionIsFound(s);
    c := semis + 1;
    var s' := With(s, s.input[..c] + x);
    assert s'.input == s.input[..semis] + ([s.input[semis]] + x);
    SemicolonsAreSkipped(s.input[..semis], [s.input[semis]] + x);
    DefinitionIsFound(s');
    assert s'.input[semis + 1..] == x;
  }

  lemma ValueGoesOn(s: State, x: seq<Word>) returns (c: nat)
    requires Running(ValueStep(s))
    ensures Took(s, ValueStep(s), c) && ValueStep(With(s, s.input[..c] + x)) == With(ValueStep(s), x)
  {
    hide ValueStep, DefinitionStep;
    ValueStepIs(s);
    if s.depth == 0 {
      EndsAtTop(s);
      c := DefinitionGoesOn(s, x);
      ValueStepIs(With(s, s.input[..c] + x));
    } else if IsSeparator(Peek(s).kind) {
      c := SeparatorGoesOn(s, x);
    } else {
      c := 1;
      ClosesTable(s, x);
    }
  }

  lemma EndsAtTop(s: State)
    requires s.depth == 0 && Running(ValueStep(s))
    ensures !s.noDefs
  {
    hide DefinitionOrEnd;
  }

  lemma SeparatorGoesOn(s: State, x: seq<Word>) returns (c: nat)
    requires s.depth > 0 && IsSeparator(Peek(s).kind) && Running(ValueStep(s))
    ensures Took(s, ValueStep(s), c) && ValueStep(With(s, s.input[..c] + x)) == With(ValueStep(s), x)
  {
    hide ValueStep, EntryStep;
    ValueStepIs(s);
    var n := EntryGoesOn(Advance(s), x);
    c := n + 1;
    var s' := With(s, s.input[..c] + x);
    assert Advance(s') == With(Advance(s), Advance(s).input[..n] + x);
    ValueStepIs(s');
  }

  lemma ValueStepIs(s: State)
    ensures s.depth == 0 && s.noDefs ==> ValueStep(s) == ExpectStreamEnd(Advance(s), Peek(s), Peek(s))
    ensures s.depth == 0 && !s.noDefs ==> ValueStep(s) == DefinitionStep(s)
    ensures s.depth > 0 && IsSeparator(Peek(s).kind) ==> ValueStep(s) == EntryStep(Advance(s))
  {
    hide EntryOrEnd, DefinitionOrEnd;
  }

  lemma ClosesTable(s: State, x: seq<Word>)
    requires s.depth > 0 && !IsSeparator(Peek(s).kind) && Running(ValueStep(s))
    ensures Took(s, ValueStep(s), 1) && ValueStep(With(s, s.input[..1] + x)) == With(ValueStep(s), x)
  {
    hide EntryOrEnd, DefinitionOrEnd;
  }

  lemma NextGoesOn(s: State, x: seq<Word>) returns (c: nat)
    requires Running(s) && Running(Next(s))
    ensures Took(s, Next(s), c) && Next(With(s, s.input[..c] + x)) == With(Next(s), x)
  {
    hide EntryOrEnd, DefinitionOrEnd, AfterKey, AfterValue;
    match s.event
    case StreamStart => {
      if Peek(s).kind.CurlyOpen? {
        c := 1;
      } else {
        c := DefinitionGoesOn(s, x);
      }
    }
    case DefName | KeyString | KeyNumber | KeyInteger => {
      c := KeyGoesOn(s, x);
    }
    case TableStart => {
      c := EntryGoesOn(s, x);
    }
    case _ => {
      c := ValueGoesOn(s, x);
    }
  }

  // ----- The token at which a step fails -----

  function EntryIndex(s: State): nat {
    if !Peek(s).kind.SquareOpen? then 0
    else if !IsKeyToken(Peek(Advance(s)).kind) then 1
    else 2
  }

  function KeyIndex(s: State): nat {
    if !Peek(s).kind.Equals? then 0 else 1
  }

  function ValueIndex(s: State): nat {
    if s.depth == 0 then if s.noDefs then 0 else LeadingSemicolons(s.input)
    else if IsSeparator(Peek(s).kind) then 1 + EntryIndex(Advance(s))
    else 0
  }

  lemma EntryFails(s: State)
    requires EntryStep(s).event.Fault?
    ensures FaultsAt(s, EntryStep(s), EntryIndex(s)) && EntryStep(s).depth == s.depth
  {
    hide EntryStep, FaultsAt, EntryIndex;
    if Peek(s).kind.SquareOpen? {
      BracketFails(s);
    } else {
      FirstOfEntryFails(s);
    }
  }

  lemma FirstOfEntryFails(s: State)
    requires EntryStep(s).event.Fault? && !Peek(s).kind.SquareOpen?
    ensures FaultsAt(s, EntryStep(s), EntryIndex(s)) && EntryStep(s).depth == s.depth
  {
  }

  lemma BracketFails(s: State)
    requires EntryStep(s).event.Fault? && Peek(s).kind.SquareOpen?
    ensures FaultsAt(s, EntryStep(s), EntryIndex(s)) && EntryStep(s).depth == s.depth
  {
    hide ExpectValue, ErrorCodeFor, CodeFor;
    var key, close := Peek(Advance(s)), Peek(Advance(Advance(s)));
    CodesAgree(key.kind);
    CodesAgree(close.kind);
    CodesAgree(SquareOpen);
    assert key == TokenAt(s, 1);
    if IsKeyToken(key.kind) {
      assert |s.input| > 1 && close == TokenAt(s, 2);
      assert !IsHeld(s.input[1].kind, s.depth);
    }
  }

  lemma CodesAgree(kind: TokenKind)
    ensures ErrorCodeFor(kind) == CodeFor(kind) && CodeFor(SquareOpen) == UnexpectedToken
  {
  }

  lemma {:induction false} SemicolonsEndAt(s: State)
    ensures var a, semis := ExpectNewDefinition(Advance(s), Peek(s)), LeadingSemicolons(s.input);
      a.last == TokenAt(s, semis) && (a.ok <==> a.last.kind == Name) && a.s.depth == s.depth
      && (a.ok ==> a.s.event.DefName?)
    decreases |s.input|
  {
    if s.input != [] && s.input[0].kind.Semicolon? {
      SemicolonsEndAt(Advance(s));
    }
  }

  lemma DefinitionFails(s: State)
    requires DefinitionStep(s).event.Fault? && s.depth == 0
    ensures FaultsAt(s, DefinitionStep(s), LeadingSemicolons(s.input))
  {
    hide ExpectNewDefinition, AllSemicolons;
    SemicolonsEndAt(s);
    FirstSemicolon(s);
    LastSemicolon(s);
  }

  lemma FirstSemicolon(s: State)
    ensures LeadingSemicolons(s.input) == 0 <==> !Peek(s).kind.Semicolon?
  {
  }

  lemma LastSemicolon(s: State)
    ensures var semis := LeadingSemicolons(s.input); semis > 0 ==> s.input[semis - 1].kind == Semicolon
  {
    var semis := LeadingSemicolons(s.input);
    if semis > 0 {
      assert s.input[..semis][semis - 1] in s.input[..semis];
    }
  }

  lemma ValueFails(s: State)
    requires ValueStep(s).event.Fault?
    ensures FaultsAt(s, ValueStep(s), ValueIndex(s))
  {
    hide EntryOrEnd, DefinitionOrEnd;
    ValueStepIs(s);
    if s.depth == 0 && !s.noDefs {
      DefinitionFails(s);
    } else if s.depth > 0 && IsSeparator(Peek(s).kind) {
      EntryFails(Advance(s));
    }
  }

  lemma KeyFails(s: State)
    requires KeyStep(s).event.Fault?
    ensures FaultsAt(s, KeyStep(s), KeyIndex(s))
  {
  }

  // ----- It fails there whatever comes next. -----

  lemma EntryStaysFailed(s: State, x: seq<Word>)
    requires EntryStep(s).event.Fault? && EntryIndex(s) < |s.input|
    ensures EntryStep(With(s, s.input[..EntryIndex(s) + 1] + x)).event.Fault?
  {
    hide EntryStep;
    var n := EntryIndex(s);
    var s' := With(s, s.input[..n + 1] + x);
    assert s'.input[0] == s.input[0];
    if n >= 1 {
      assert s'.input[1] == s.input[1];
    }
    if n >= 2 {
      assert s'.input[2] == s.input[2];
    }
    FailsAlike(s, s');
  }

  // Steps on the same tokens up to the failing one fail alike.
  lemma FailsAlike(s: State, s': State)
    requires EntryStep(s).event.Fault? && s' == With(s, s'.input) && Peek(s') == Peek(s)
    requires EntryIndex(s) >= 1 ==> Peek(Advance(s')) == Peek(Advance(s))
    requires EntryIndex(s) >= 2 ==> Peek(Advance(Advance(s'))) == Peek(Advance(Advance(s)))
    ensures EntryStep(s').event.Fault?
  {
  }

  lemma DefinitionStaysFailed(s: State, x: seq<Word>)
    requires DefinitionStep(s).event.Fault? && LeadingSemicolons(s.input) < |s.input|
    ensures DefinitionStep(With(s, s.input[..LeadingSemicolons(s.input) + 1] + x)).event.Fault?
  {
    hide ExpectNewDefinition, AllSemicolons, LeadingSemicolons;
    var semis := LeadingSemicolons(s.input);
    var s' := With(s, s.input[..semis + 1] + x);
    assert s'.input == s.input[..semis] + ([s.input[semis]] + x);
    SemicolonsAreSkipped(s.input[..semis], [s.input[semis]] + x);
    SemicolonsEndAt(s);
    SemicolonsEndAt(s');
  }

  lemma ValueStaysFailed(s: State, x: seq<Word>)
    requires ValueStep(s).event.Fault? && ValueIndex(s) < |s.input|
    ensures ValueStep(With(s, s.input[..ValueIndex(s) + 1] + x)).event.Fault?
  {
    hide ValueStep, DefinitionStep, EntryIndex, LeadingSemicolons;
    ValueStepIs(s);
    if s.depth == 0 && !s.noDefs {
      DefinitionStaysFailed(s, x);
      ValueStepIs(With(s, s.input[..ValueIndex(s) + 1] + x));
    } else if s.depth > 0 && IsSeparator(Peek(s).kind) {
      EntryBehindStaysFailed(s, x);
    } else {
      FirstStaysFailed(s, x);
    }
  }

  lemma EntryBehindStaysFailed(s: State, x: seq<Word>)
    requires ValueStep(s).event.Fault? && s.depth > 0 && IsSeparator(Peek(s).kind)
    requires 1 + EntryIndex(Advance(s)) < |s.input|
    ensures ValueStep(With(s, s.input[..1 + EntryIndex(Advance(s)) + 1] + x)).event.Fault?
  {
    hide ValueStep, EntryStep, EntryIndex;
    var n := EntryIndex(Advance(s));
    var s' := With(s, s.input[..1 + n + 1] + x);
    ValueStepIs(s);
    EntryStaysFailed(Advance(s), x);
    assert Advance(s') == With(Advance(s), Advance(s).input[..n + 1] + x);
    ValueStepIs(s');
  }

  lemma FirstStaysFailed(s: State, x: seq<Word>)
    requires ValueStep(s).event.Fault? && s.input != []
    requires if s.depth == 0 then s.noDefs else !IsSeparator(Peek(s).kind)
    ensures ValueStep(With(s, s.input[..1] + x)).event.Fault?
  {
    hide EntryOrEnd, DefinitionOrEnd;
    assert (s.input[..1] + x)[0] == s.input[0];
  }

  lemma KeyStaysFailed(s: State, x: seq<Word>)
    requires KeyStep(s).event.Fault? && KeyIndex(s) < |s.input|
    ensures KeyStep(With(s, s.input[..KeyIndex(s) + 1] + x)).event.Fault?
  {
  }

  // ----- It would have gone on with another token there. -----

  function EntryRepair(s: State): seq<Word> {
    match EntryIndex(s)
    case 0 => [NIL]
    case 1 => [KEY, BRACKET]
    case _ => [BRACKET]
  }

  function KeyRepair(s: State): seq<Word> {
    if KeyIndex(s) == 0 then [EQUALS, NIL] else [NIL]
  }

  predicate GoesOn(r: State) {
    Running(r) && r.input == [] && !r.event.StreamStart? && (r.event.TableStart? ==> r.depth > 0)
  }

  lemma EntryIsRepaired(s: State)
    requires EntryIndex(s) <= |s.input|
    ensures GoesOn(EntryStep(With(s, s.input[..EntryIndex(s)] + EntryRepair(s))))
  {
  }

  lemma KeyIsRepaired(s: State)
    requires KeyIndex(s) <= |s.input|
    ensures GoesOn(KeyStep(With(s, s.input[..KeyIndex(s)] + KeyRepair(s))))
  {
  }

  lemma DefinitionIsRepaired(s: State)
    ensures GoesOn(DefinitionStep(With(s, s.input[..LeadingSemicolons(s.input)] + [NAME])))
  {
    hide ExpectNewDefinition, AllSemicolons, LeadingSemicolons;
    var semis := LeadingSemicolons(s.input);
    var s' := With(s, s.input[..semis] + [NAME]);
    SemicolonsAreSkipped(s.input[..semis], [NAME]);
    DefinitionIsFound(s');
  }

  function ValueRepair(s: State): seq<Word> {
    if s.depth == 0 then if s.noDefs then [] else [NAME]
    else if IsSeparator(Peek(s).kind) then EntryRepair(Advance(s))
    else [COMMA, NIL]
  }

  lemma ValueIsRepaired(s: State)
    requires ValueIndex(s) <= |s.input|
    ensures var r := ValueStep(With(s, s.input[..ValueIndex(s)] + ValueRepair(s))); GoesOn(r) || r.event.StreamEnd?
  {
    hide ValueStep, DefinitionStep, EntryStep, EntryIndex, EntryRepair, LeadingSemicolons, GoesOn;
    var s' := With(s, s.input[..ValueIndex(s)] + ValueRepair(s));
    ValueStepIs(s');
    if s.depth == 0 && !s.noDefs {
      DefinitionIsRepaired(s);
    } else if s.depth == 0 {
      NothingEnds(s');
    } else if IsSeparator(Peek(s).kind) {
      EntryIsRepaired(Advance(s));
      assert Advance(s') == With(Advance(s), Advance(s).input[..EntryIndex(Advance(s))] + EntryRepair(Advance(s)));
    } else {
      NilIsAnEntry(s');
    }
  }

  lemma NothingEnds(s: State)
    requires s.depth == 0 && s.noDefs && s.input == []
    ensures ValueStep(s).event.StreamEnd?
  {
  }

  lemma NilIsAnEntry(s: State)
    requires s.input == [COMMA, NIL] && s.depth > 0
    ensures GoesOn(ValueStep(s))
  {
  }

  // ----- A step of the parser -----

  function NextIndex(s: State): nat {
    match s.event
    case StreamStart => LeadingSemicolons(s.input)
    case DefName | KeyString | KeyNumber | KeyInteger => KeyIndex(s)
    case TableStart => EntryIndex(s)
    case _ => ValueIndex(s)
  }

  function NextRepair(s: State): seq<Word> {
    match s.event
    case StreamStart => [NAME]
    case DefName | KeyString | KeyNumber | KeyInteger => KeyRepair(s)
    case TableStart => EntryRepair(s)
    case _ => ValueRepair(s)
  }

  // Outside tables at the start, inside one behind its brace
  predicate IsSane(s: State) {
    (s.event.StreamStart? ==> s.depth == 0) && (s.event.TableStart? ==> s.depth > 0)
  }

  lemma NextIs(s: State)
    requires Running(s)
    ensures match s.event
      case StreamStart => Peek(s).kind.CurlyOpen? || Next(s) == DefinitionStep(s)
      case DefName | KeyString | KeyNumber | KeyInteger => Next(s) == KeyStep(s)
      case TableStart => Next(s) == EntryStep(s)
      case _ => Next(s) == ValueStep(s)
    ensures s.event.StreamStart? && Peek(s).kind.CurlyOpen? ==> Running(Next(s))
  {
    hide EntryOrEnd, DefinitionOrEnd, AfterKey, AfterValue;
  }

  lemma NextFails(s: State)
    requires Running(s) && IsSane(s) && Next(s).event.Fault?
    ensures FaultsAt(s, Next(s), NextIndex(s))
  {
    hide EntryStep, DefinitionStep, KeyStep, ValueStep, FaultsAt, Next, EntryIndex, KeyIndex, ValueIndex, LeadingSemicolons;
    NextIs(s);
    match s.event
    case StreamStart => DefinitionFails(s);
    case DefName | KeyString | KeyNumber | KeyInteger => KeyFails(s);
    case TableStart => EntryFails(s);
    case _ => ValueFails(s);
  }

  lemma NextStaysFailed(s: State, x: seq<Word>)
    requires Running(s) && Next(s).event.Fault? && NextIndex(s) < |s.input|
    ensures Next(With(s, s.input[..NextIndex(s) + 1] + x)).event.Fault?
  {
    hide EntryStep, DefinitionStep, KeyStep, ValueStep, Next, EntryIndex, KeyIndex, ValueIndex, LeadingSemicolons;
    var s' := With(s, s.input[..NextIndex(s) + 1] + x);
    assert Peek(s') == Peek(s);
    NextIs(s);
    NextIs(s');
    match s.event
    case StreamStart => DefinitionStaysFailed(s, x);
    case DefName | KeyString | KeyNumber | KeyInteger => KeyStaysFailed(s, x);
    case TableStart => EntryStaysFailed(s, x);
    case _ => ValueStaysFailed(s, x);
  }

  lemma NextIsRepaired(s: State)
    requires Running(s) && Next(s).event.Fault? && NextIndex(s) <= |s.input|
    ensures var r := Next(With(s, s.input[..NextIndex(s)] + NextRepair(s))); GoesOn(r) || r.event.StreamEnd?
  {
    hide EntryStep, DefinitionStep, KeyStep, ValueStep, Next, EntryIndex, KeyIndex, ValueIndex, LeadingSemicolons;
    hide EntryRepair, KeyRepair, ValueRepair, GoesOn;
    var s' := With(s, s.input[..NextIndex(s)] + NextRepair(s));
    NextIs(s);
    NextIs(s');
    match s.event
    case StreamStart => {
      DefinitionIsRepaired(s);
      StartsNoTable(s);
    }
    case DefName | KeyString | KeyNumber | KeyInteger => KeyIsRepaired(s);
    case TableStart => EntryIsRepaired(s);
    case _ => ValueIsRepaired(s);
  }

  lemma StartsNoTable(s: State)
    requires !Peek(s).kind.CurlyOpen?
    ensures !Peek(With(s, s.input[..LeadingSemicolons(s.input)] + [NAME])).kind.CurlyOpen?
  {
  }

  // ----- Whole runs -----

  // How many braces close the tables that are open
  function Braces(depth: nat): seq<Word> {
    if depth == 0 then [] else [BRACE] + Braces(depth - 1)
  }

  lemma {:induction false} BracesClose(s: State)
    requires IsValueEvent(s.event) || (s.event.TableStart? && s.depth > 0)
    requires s.input == Braces(s.depth)
    ensures Accepts(s)
    decreases s.depth
  {
    BraceCloses(s);
    if s.depth > 0 {
      BracesClose(Next(s));
    }
  }

  lemma BraceCloses(s: State)
    requires IsValueEvent(s.event) || (s.event.TableStart? && s.depth > 0)
    requires s.input == Braces(s.depth)
    ensures Running(s)
    ensures s.depth > 0 ==>
      Next(s).event.TableEnd? && Next(s).depth == s.depth - 1 && Next(s).input == Braces(s.depth - 1)
    ensures s.depth == 0 ==> Next(s).event.StreamEnd?
  {
    hide Next, EntryStep, ValueStep;
    NextIs(s);
    if s.depth == 0 {
      EndsDocument(s);
    } else {
      FirstBrace(s.depth);
      BraceEndsTable(s);
    }
  }

  lemma FirstBrace(depth: nat)
    requires depth > 0
    ensures Braces(depth) != [] && Braces(depth)[0] == BRACE && Braces(depth)[1..] == Braces(depth - 1)
  {
  }

  lemma BraceEndsTable(s: State)
    requires s.depth > 0 && s.input != [] && s.input[0] == BRACE
    ensures EntryStep(s) == ValueStep(s)
    ensures ValueStep(s).event.TableEnd? && ValueStep(s).depth == s.depth - 1 && ValueStep(s).input == s.input[1..]
  {
  }

  lemma EndsDocument(s: State)
    requires s.depth == 0 && s.input == []
    ensures ValueStep(s).event.StreamEnd?
  {
  }

  function Completion(s: State): seq<Word> {
    if IsKeyEvent(s.event) then [EQUALS, NIL] + Braces(s.depth) else Braces(s.depth)
  }

  lemma Completes(s: State)
    requires GoesOn(s)
    ensures Accepts(With(s, Completion(s)))
  {
    hide Braces;
    var s' := With(s, Completion(s));
    if IsKeyEvent(s.event) {
      NilIsAValue(s');
      BracesClose(Next(s'));
    } else {
      BracesClose(s');
    }
  }

  lemma NilIsAValue(s: State)
    requires IsKeyEvent(s.event) && s.input == [EQUALS, NIL] + Braces(s.depth)
    ensures Running(s) && Next(s).event.ValueNil? && Next(s).depth == s.depth && Next(s).input == Braces(s.depth)
  {
    hide Braces;
  }

  // The number of the token at which the run from s ends in an error
  function ErrorIndex(s: State): nat
    requires Running(s)
    decreases |s.input|
  {
    var r := Next(s);
    if Running(r) then |s.input| - |r.input| + ErrorIndex(r) else NextIndex(s)
  }

  lemma NextIsSane(s: State)
    requires Running(s) && IsSane(s)
    ensures IsSane(Next(s)) && !Next(s).event.StreamStart?
  {
    hide Next;
    NextDepth(s);
  }

  lemma FinalIs(s: State)
    requires Running(s)
    ensures Final(s) == Final(Next(s)) && (!Running(Next(s)) ==> Final(s) == Next(s))
  {
    hide Next;
  }

  // The error is reported with the text, place and kind of that token.
  lemma {:induction false} FaultIsThere(s: State)
    requires Running(s) && IsSane(s) && Final(s).event.Fault?
    ensures FaultsAt(s, Final(s), ErrorIndex(s))
    decreases |s.input|
  {
    hide Next, Final, NextIndex;
    FinalIs(s);
    var r := Next(s);
    if Running(r) {
      NextIsSane(s);
      FaultIsThere(r);
      var c := NextGoesOn(s, []);
      FaultIsLater(s, r, Final(s), c, ErrorIndex(r));
    } else {
      NextFails(s);
    }
  }

  lemma FaultIsLater(s: State, r: State, f: State, c: nat, n: nat)
    requires Took(s, r, c) && FaultsAt(r, f, n) && r.eof == s.eof
    ensures FaultsAt(s, f, c + n)
  {
  }

  // Whatever comes behind that token, the run ends in an error.
  lemma {:induction false} StaysFailed(s: State, x: seq<Word>)
    requires Running(s) && Final(s).event.Fault? && ErrorIndex(s) < |s.input|
    ensures !Accepts(With(s, s.input[..ErrorIndex(s) + 1] + x))
    decreases |s.input|
  {
    hide Next, Final, NextIndex;
    FinalIs(s);
    var r, s' := Next(s), With(s, s.input[..ErrorIndex(s) + 1] + x);
    FinalIs(s');
    if Running(r) {
      var rest := r.input[..ErrorIndex(r) + 1] + x;
      StaysFailed(r, x);
      var c := NextGoesOn(s, rest);
      assert s'.input == s.input[..c] + rest;
    } else {
      NextStaysFailed(s, x);
      FaultIsFinal(Next(s'));
    }
  }

  lemma FaultIsFinal(s: State)
    requires s.event.Fault?
    ensures Final(s) == s && !Running(s)
  {
  }

  lemma StepIsRepaired(s: State) returns (k: seq<Word>)
    requires Running(s) && Next(s).event.Fault? && NextIndex(s) <= |s.input|
    ensures Accepts(With(s, s.input[..NextIndex(s)] + k))
  {
    hide Next, Final, NextIndex, NextRepair, Completion;
    var u := s.input[..NextIndex(s)] + NextRepair(s);
    var s1 := With(s, u);
    NextIsRepaired(s);
    k := NextRepair(s);
    FinalIs(s1);
    if Next(s1).event.StreamEnd? {
      EndIsFinal(Next(s1));
    } else {
      var more := Completion(Next(s1));
      Completes(Next(s1));
      var c := NextGoesOn(s1, more);
      assert u[..c] == u;
      assert u + more == s.input[..NextIndex(s)] + (k + more);
      k := k + more;
      FinalIs(With(s, u + more));
    }
  }

  lemma EndIsFinal(s: State)
    requires s.event.StreamEnd?
    ensures Final(s) == s && !Running(s)
  {
  }

  // Up to that token there is nothing wrong: the tokens before it go on to the end of a document.
  lemma {:induction false} IsRepaired(s: State) returns (k: seq<Word>)
    requires Running(s) && IsSane(s) && Final(s).event.Fault? && ErrorIndex(s) <= |s.input|
    ensures Accepts(With(s, s.input[..ErrorIndex(s)] + k))
    decreases |s.input|
  {
    hide Next, Final, NextIndex, NextRepair, Completion;
    FinalIs(s);
    var r := Next(s);
    if Running(r) {
      NextIsSane(s);
      var c := NextGoesOn(s, []);
      k := IsRepaired(r);
      var rest := r.input[..ErrorIndex(r)] + k;
      c := NextGoesOn(s, rest);
      var s' := With(s, s.input[..ErrorIndex(s)] + k);
      assert s'.input == s.input[..c] + rest;
      FinalIs(s');
    } else {
      k := StepIsRepaired(s);
    }
  }

  // ----- The first token that is wrong -----

  // Some document of the parser's language starts with these tokens.
  ghost predicate StartsDocument(ts: seq<Word>) {
    exists d :: InLanguage(d) && ts <= DocumentTokens(d)
  }

  ghost predicate IsDocument(ts: seq<Word>) {
    exists d :: InLanguage(d) && DocumentTokens(d) == ts
  }

  // The error is at the first token that no document goes on with, and it has the text and the place of that token.
  // Its code is what kind of token that is, except behind a bracket or, outside tables, a semicolon.
  lemma ErrorIsFirst(ts: seq<Word>, eof: EofToken) returns (n: nat)
    requires !Accepts(Initial(ts, eof))
    ensures n <= |ts| && FaultsAt(Initial(ts, eof), Final(Initial(ts, eof)), n)
    ensures StartsDocument(ts[..n])
    ensures if n < |ts| then !StartsDocument(ts[..n + 1]) else !IsDocument(ts)
  {
    hide Final, ErrorIndex, Next, DocumentTokens;
    var s := Initial(ts, eof);
    FinalIs(s);
    n := ErrorIndex(s);
    FaultIsThere(s);
    var k := IsRepaired(s);
    ParserDecidesLanguage(ts[..n] + k, eof);
    var d :| InLanguage(d) && DocumentTokens(d) == ts[..n] + k;
    assert ts[..n] <= DocumentTokens(d);
    ParserDecidesLanguage(ts, eof);
    if n < |ts| {
      NothingGoesOn(ts, eof);
    }
  }

  lemma NothingGoesOn(ts: seq<Word>, eof: EofToken)
    requires Final(Initial(ts, eof)).event.Fault? && ErrorIndex(Initial(ts, eof)) < |ts|
    ensures !StartsDocument(ts[..ErrorIndex(Initial(ts, eof)) + 1])
  {
    hide Final, ErrorIndex, DocumentTokens, InLanguage;
    var s := Initial(ts, eof);
    var u := ts[..ErrorIndex(s) + 1];
    forall d | InLanguage(d) && u <= DocumentTokens(d)
      ensures false
    {
      var x := DocumentTokens(d)[|u|..];
      StaysFailed(s, x);
      assert u + x == DocumentTokens(d);
      ParserDecidesLanguage(u + x, eof);
    }
  }
}
