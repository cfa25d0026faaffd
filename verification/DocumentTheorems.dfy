// Whole documents: which token sequences the parser accepts, and what it reports for them.
module DocumentTheorems {
  import opened Tokens
  import opened EventMachine
  import opened Grammar
  import opened ParserTheorems

  // ----- The top level of a document -----

  function LeadingSemicolons(input: seq<Word>): (n: nat)
    ensures n <= |input| && AllSemicolons(input[..n]) && (n < |input| ==> !input[n].kind.Semicolon?)
  {
    if input != [] && input[0].kind.Semicolon? then
      assert input[1..][..LeadingSemicolons(input[1..])] == input[1..1 + LeadingSemicolons(input[1..])];
      1 + LeadingSemicolons(input[1..])
    else 0
  }

  lemma {:induction false} SemicolonsAreSkipped(semis: seq<Word>, k: seq<Word>)
    requires AllSemicolons(semis) && (k == [] || !k[0].kind.Semicolon?)
    ensures LeadingSemicolons(semis + k) == |semis|
  {
    if semis == [] {
      assert semis + k == k;
    } else {
      SemicolonsAreSkipped(semis[1..], k);
      assert (semis + k)[1..] == semis[1..] + k;
    }
  }

  // What one step does where a definition or the end of the document may come.
  ghost predicate TopStep(s: State, n: State) {
    var semis := LeadingSemicolons(s.input);
    if semis < |s.input| && s.input[semis].kind.Name? then
      n.event.DefName? && n.text == s.input[semis].text && n.depth == s.depth && n.input == s.input[semis + 1..]
    else if s.input == [] then n.event.StreamEnd? && n.text == s.eof.text && n.depth == s.depth && n.input == []
    else n.event.Fault?
  }

  lemma {:induction false} DefinitionIsFound(s: State)
    ensures var a := ExpectNewDefinition(Advance(s), Peek(s));
      var semis := LeadingSemicolons(s.input);
      if semis < |s.input| && s.input[semis].kind.Name? then
        a.ok && a.s == Emit(s, DefName, s.input[semis]).(input := s.input[semis + 1..])
      else !a.ok && a.s.depth == s.depth && (s.input == [] ==> a.s == s && a.last == s.eof)
    decreases |s.input|
  {
    if s.input != [] && s.input[0].kind.Semicolon? {
      DefinitionIsFound(Advance(s));
    }
  }

  ghost predicate AtTop(s: State) {
    s.depth == 0 && !s.noDefs &&
    (IsValueEvent(s.event) || (s.event.StreamStart? && (s.input == [] || !s.input[0].kind.CurlyOpen?)))
  }

  lemma StepFromTop(s: State) returns (n: State)
    requires AtTop(s)
    ensures Steps(s, n) && TopStep(s, n)
  {
    DefinitionIsFound(s);
    n := Next(s);
    assert n == DefinitionOrEnd(Advance(s), Peek(s));
  }

  lemma {:induction false} SoundDefinitions(s: State) returns (defs: Definitions)
    requires AtTop(s) && Accepts(s)
    ensures WfDefinitions(defs) && s.input == DefinitionsTokens(defs, [])
    ensures Trace(s) == DefinitionsEvents(defs, [Event(StreamEnd, s.eof.text)])
    decreases |s.input|
  {
    hide Trace, Final, ValueTokens, ValueEvents, WfValue;
    var n := StepFromTop(s);
    if s.input == [] {
      defs := NoDefs;
      EndTrace(n);
    } else {
      var semis := LeadingSemicolons(s.input);
      var eq, v, after := SoundKeyed(n);
      var rest := SoundDefinitions(after);
      defs := Def(s.input[..semis], s.input[semis], eq, v, rest);
      PartsOf(s.input, semis, eq, ValueTokens(v, after.input));
    }
  }

  lemma PartsOf(input: seq<Word>, semis: nat, eq: Word, k: seq<Word>)
    requires semis < |input| && input[semis + 1..] == [eq] + k
    ensures input == input[..semis] + ([input[semis], eq] + k)
  {
    assert input == input[..semis] + ([input[semis]] + input[semis + 1..]);
    assert [input[semis]] + ([eq] + k) == [input[semis], eq] + k;
  }

  lemma {:induction false} CompleteDefinitions(s: State, defs: Definitions)
    requires AtTop(s) && WfDefinitions(defs) && s.input == DefinitionsTokens(defs, [])
    ensures Accepts(s) && Trace(s) == DefinitionsEvents(defs, [Event(StreamEnd, s.eof.text)])
    decreases defs
  {
    hide Trace, Final, ValueTokens, ValueEvents, WfValue;
    var n := StepFromTop(s);
    if defs.NoDefs? {
      EndTrace(n);
    } else {
      var k := DefinitionsTokens(defs.rest, []);
      DefinitionStands(s.input, defs.semis, defs.name, [defs.eq] + ValueTokens(defs.v, k));
      var after := CompleteKeyed(n, defs.eq, defs.v, k);
      CompleteDefinitions(after, defs.rest);
    }
  }

  lemma DefinitionStands(input: seq<Word>, semis: seq<Word>, name: Word, k: seq<Word>)
    requires k != [] && AllSemicolons(semis) && name.kind.Name? && input == semis + ([name, k[0]] + k[1..])
    ensures LeadingSemicolons(input) == |semis| < |input|
    ensures input[|semis|] == name && input[|semis| + 1..] == k
  {
    hide LeadingSemicolons, AllSemicolons;
    SemicolonsAreSkipped(semis, [name, k[0]] + k[1..]);
  }

  lemma EndTrace(s: State)
    requires s.event.StreamEnd?
    ensures Trace(s) == [] && Accepts(s)
  {
  }

  // A document that opens with a brace: one table, then nothing.
  ghost predicate AtTableDocument(s: State) {
    s.event.StreamStart? && s.depth == 0 && s.input != [] && s.input[0].kind.CurlyOpen?
  }

  lemma StepIntoTable(s: State) returns (n: State)
    requires AtTableDocument(s)
    ensures Final(s) == Final(n) && Trace(s) == [Event(n.event, n.text)] + Trace(n)
    ensures InValue(n, s.input[0], 0) && n.input == s.input[1..] && n.noDefs && n.eof == s.eof
  {
    n := Next(s);
  }

  lemma StepAfterTable(s: State) returns (n: State)
    requires s.event.TableEnd? && s.depth == 0 && s.noDefs
    ensures Steps(s, n)
    ensures if s.input == [] then n.event.StreamEnd? && n.text == s.eof.text else n.event.Fault?
  {
    n := Next(s);
  }

  lemma SoundTableDocument(s: State) returns (table: Value)
    requires AtTableDocument(s) && Accepts(s)
    ensures WfDocument(TableDocument(table)) && s.input == ValueTokens(table, [])
    ensures Trace(s) == ValueEvents(table, [Event(StreamEnd, s.eof.text)])
  {
    hide Trace, Final;
    var n := StepIntoTable(s);
    var end;
    table, end := SoundValue(n, s.input[0], 0);
    assert s.input == [s.input[0]] + n.input;
    var last := StepAfterTable(end);
    EndTrace(last);
    assert Trace(end) == [Event(StreamEnd, s.eof.text)];
  }

  lemma CompleteTableDocument(s: State, table: Value)
    requires WfDocument(TableDocument(table))
    requires s.event.StreamStart? && s.depth == 0 && s.input == ValueTokens(table, [])
    ensures Accepts(s) && Trace(s) == ValueEvents(table, [Event(StreamEnd, s.eof.text)])
  {
    hide Trace, Final;
    var n := StepIntoTable(s);
    assert s.input == [s.input[0]] + n.input;
    var end := CompleteValue(n, s.input[0], 0, table, []);
    var last := StepAfterTable(end);
    EndTrace(last);
    assert Trace(end) == [Event(StreamEnd, s.eof.text)];
  }

  // ----- The main theorems -----

  // The parser's own language: the documented one, except that a semicolon may only stand before a
  // definition, any number of times.
  ghost predicate InLanguage(d: Document) {
    WfDocument(d) && (d.DefDocument? ==> d.trailing == [])
  }

  // Every accepted token sequence spells out a document, and the events are its traversal.
  lemma Soundness(input: seq<Word>, eof: EofToken) returns (d: Document)
    requires Accepts(Initial(input, eof))
    ensures InLanguage(d) && DocumentTokens(d) == input
    ensures Trace(Initial(input, eof)) == DocumentEvents(d, eof)
  {
    hide Trace, Final;
    var s := Initial(input, eof);
    if input != [] && input[0].kind.CurlyOpen? {
      var table := SoundTableDocument(s);
      d := TableDocument(table);
    } else {
      var defs := SoundDefinitions(s);
      d := DefDocument(defs, []);
    }
  }

  // Every document is accepted unless a semicolon trails it, and then reported as its traversal.
  lemma Completeness(d: Document, eof: EofToken)
    requires WfDocument(d)
    ensures Accepts(Initial(DocumentTokens(d), eof)) <==> InLanguage(d)
    ensures InLanguage(d) ==> Trace(Initial(DocumentTokens(d), eof)) == DocumentEvents(d, eof)
  {
    hide Trace, Final;
    var s := Initial(DocumentTokens(d), eof);
    if d.TableDocument? {
      CompleteTableDocument(s, d.table);
    } else if d.trailing == [] {
      DefinitionsStart(d.defs);
      CompleteDefinitions(s, d.defs);
    } else if Accepts(s) {
      var d' := Soundness(s.input, eof);
      LastToken(d);
      LastToken(d');
      assert false;
    }
  }

  // The tokens spell this document, and the events are its traversal.
  ghost predicate ReportedAs(input: seq<Word>, eof: EofToken, d: Document) {
    InLanguage(d) && DocumentTokens(d) == input && Trace(Initial(input, eof)) == DocumentEvents(d, eof)
  }

  // The parser decides its language, and reports what it accepts.
  lemma ParserDecidesLanguage(input: seq<Word>, eof: EofToken)
    ensures Accepts(Initial(input, eof)) <==> exists d :: InLanguage(d) && DocumentTokens(d) == input
    ensures Accepts(Initial(input, eof)) <==> exists d :: ReportedAs(input, eof, d)
  {
    hide Trace, Final;
    if Accepts(Initial(input, eof)) {
      var d := Soundness(input, eof);
      assert ReportedAs(input, eof, d);
    }
    forall d | InLanguage(d) && DocumentTokens(d) == input
      ensures Accepts(Initial(input, eof))
    {
      Completeness(d, eof);
    }
  }

  // Against the documented grammar the parser is wrong on exactly the documents that end in a
  // semicolon, for instance `a = 1;`.
  lemma DocumentedAccepted(d: Document, eof: EofToken)
    requires Documented(d)
    ensures var ts := DocumentTokens(d);
      Accepts(Initial(ts, eof)) <==> (ts == [] || !ts[|ts| - 1].kind.Semicolon?)
  {
    hide Trace, Final;
    Completeness(d, eof);
    LastToken(d);
  }

  // `a = 1;` is documented and refused.
  lemma TrailingSemicolonIsRefused(eof: EofToken)
    ensures var name, eq: Word := Token(Name, ['a'], 1, 1), Token(Equals, ['='], 1, 3);
      var one, semi: Word := Token(Number, ['1'], 1, 5), Token(Semicolon, [';'], 1, 6);
      var d := DefDocument(Def([], name, eq, Scalar(NumberAtom, one), NoDefs), [semi]);
      && Documented(d) && DocumentTokens(d) == [name, eq, one, semi]
      && !Accepts(Initial([name, eq, one, semi], eof))
  {
    hide Accepts;
    var name, eq: Word := Token(Name, ['a'], 1, 1), Token(Equals, ['='], 1, 3);
    var one, semi: Word := Token(Number, ['1'], 1, 5), Token(Semicolon, [';'], 1, 6);
    var defs := Def([], name, eq, Scalar(NumberAtom, one), NoDefs);
    assert OneSemicolonAtMost(defs, 0) && WfDefinitions(defs);
    assert DefinitionsTokens(defs, [semi]) == [name, eq, one, semi];
    DocumentedAccepted(DefDocument(defs, [semi]), eof);
  }

  lemma DefinitionsStart(ds: Definitions)
    requires WfDefinitions(ds)
    ensures var ts := DefinitionsTokens(ds, []); ts == [] || !ts[0].kind.CurlyOpen?
  {
    if ds.Def? && ds.semis != [] {
      assert DefinitionsTokens(ds, [])[0] == ds.semis[0];
    }
  }

  // ----- The last token of a document -----

  function Last(ts: seq<Word>): Word
    requires ts != []
  {
    ts[|ts| - 1]
  }

  lemma {:induction false} LastOfValue(v: Value, k: seq<Word>)
    requires WfValue(v)
    ensures var ts := ValueTokens(v, k); ts != [] && if k == [] then !Last(ts).kind.Semicolon? else Last(ts) == Last(k)
    decreases v
  {
    if v.Table? {
      LastOfItems(v.items, [v.close] + k);
    }
  }

  lemma {:induction false} LastOfItems(items: Items, k: seq<Word>)
    requires WfItems(items) && k != []
    ensures ItemsTokens(items, k) != [] && Last(ItemsTokens(items, k)) == Last(k)
    decreases items
  {
    match items
    case NoItems =>
    case LastItem(e) => LastOfValue(e.v, k);
    case Item(e, sep, rest) =>
      LastOfItems(rest, k);
      LastOfValue(e.v, [sep] + ItemsTokens(rest, k));
  }

  lemma {:induction false} LastOfDefinitions(ds: Definitions, k: seq<Word>)
    requires WfDefinitions(ds)
    ensures var ts := DefinitionsTokens(ds, k);
      if k == [] then ts == [] || !Last(ts).kind.Semicolon? else ts != [] && Last(ts) == Last(k)
    decreases ds
  {
    if ds.Def? {
      LastOfDefinitions(ds.rest, k);
      LastOfValue(ds.v, DefinitionsTokens(ds.rest, k));
    }
  }

  lemma LastToken(d: Document)
    requires WfDocument(d)
    ensures var ts := DocumentTokens(d);
      (ts == [] || !Last(ts).kind.Semicolon?) <==> InLanguage(d)
  {
    match d
    case TableDocument(table) => LastOfValue(table, []);
    case DefDocument(defs, trailing) =>
      LastOfDefinitions(defs, trailing);
      assert trailing != [] ==> Last(trailing) in trailing;
  }
}
