// Properties of a whole run: nesting depth, progress, and that a document has only one parse tree.
module RunTheorems {
  import opened Tokens
  import opened EventMachine
  import opened Grammar
  import opened DocumentTheorems

  // The caller's loop after at most `calls` calls of ELTN_Parser_next, and the events it has seen.
  function After(s: State, calls: nat): State
    decreases calls
  {
    if calls == 0 || !Running(s) then s else After(Next(s), calls - 1)
  }

  function Seen(s: State, calls: nat): seq<Event>
    decreases calls
  {
    if calls == 0 || !Running(s) then []
    else var n := Next(s); [Event(n.event, n.text)] + Seen(n, calls - 1)
  }

  function Opens(kind: EventKind): int {
    if kind.TableStart? then 1 else if kind.TableEnd? then -1 else 0
  }

  function Opened(events: seq<Event>): int {
    if events == [] then 0 else Opens(events[0].kind) + Opened(events[1..])
  }

  // Outside tables at the start and at the end.
  ghost predicate Settled(s: State) {
    s.event.StreamStart? || s.event.StreamEnd? ==> s.depth == 0
  }

  ghost predicate DepthFollows(s: State, n: State) {
    n.depth == s.depth + Opens(n.event) && !n.event.StreamStart?
  }

  lemma EntryDepth(s: State, t: Token)
    ensures DepthFollows(s, EntryOrEnd(s, t)) && !EntryOrEnd(s, t).event.StreamEnd?
  {
  }

  lemma {:induction false} DefinitionDepth(s: State, t: Token)
    ensures DepthFollows(s, DefinitionOrEnd(s, t))
    decreases |s.input|, if t.kind.Semicolon? then 1 else 0
  {
    if t.kind.Semicolon? {
      DefinitionDepth(Advance(s), Peek(s));
    }
  }

  lemma KeyDepth(s: State, t: Token)
    ensures DepthFollows(s, AfterKey(s, t)) && !AfterKey(s, t).event.StreamEnd?
  {
  }

  lemma ValueDepth(s: State, t: Token)
    ensures DepthFollows(s, AfterValue(s, t)) && (AfterValue(s, t).event.StreamEnd? ==> s.depth == 0)
  {
    hide EntryOrEnd, DefinitionOrEnd;
    DefinitionDepth(s, t);
    EntryDepth(Advance(s), Peek(s));
  }

  lemma NextDepth(s: State)
    requires Running(s) && Settled(s)
    ensures DepthFollows(s, Next(s)) && Settled(Next(s))
  {
    hide EntryOrEnd, DefinitionOrEnd, AfterKey, AfterValue;
    var t, s1 := Peek(s), Advance(s);
    EntryDepth(s1, t);
    DefinitionDepth(s1, t);
    KeyDepth(s1, t);
    ValueDepth(s1, t);
  }

  // The depth is always the number of tables opened and not yet closed, and the document can only
  // end with none open.
  lemma {:induction false} DepthCountsOpenTables(s: State, calls: nat)
    requires Settled(s)
    ensures After(s, calls).depth == s.depth + Opened(Seen(s, calls))
    ensures After(s, calls).event.StreamEnd? ==> s.depth + Opened(Seen(s, calls)) == 0
    ensures Settled(After(s, calls))
    decreases calls
  {
    hide Next;
    if calls != 0 && Running(s) {
      NextDepth(s);
      var n := Next(s);
      DepthCountsOpenTables(n, calls - 1);
      assert Seen(s, calls)[1..] == Seen(n, calls - 1);
    }
  }

  // Calls of ELTN_Parser_next, whether or not the parser has a next event
  function Calls(s: State, calls: nat): State
    decreases calls
  {
    if calls == 0 then s else Calls(Next(s), calls - 1)
  }

  lemma {:induction false} EndIsKept(s: State, calls: nat)
    requires !Running(s)
    ensures Calls(s, calls) == s.(input := Calls(s, calls).input)
    decreases calls
  {
    hide Next;
    if calls > 0 {
      NextKeepsEnd(s);
      EndIsKept(Next(s), calls - 1);
    }
  }

  lemma NextKeepsEnd(s: State)
    requires !Running(s)
    ensures Next(s) == Advance(s)
  {
  }

  // One call more than there are tokens always reaches an end state, and no further call changes anything in it
  // but the tokens still unread.
  lemma {:induction false} RunStops(s: State, calls: nat)
    requires calls > |s.input|
    ensures After(s, calls) == Final(s) && Seen(s, calls) == Trace(s)
    ensures Calls(s, calls) == Final(s).(input := Calls(s, calls).input) && !Running(Calls(s, calls))
    decreases calls
  {
    hide Next;
    if Running(s) {
      var n := Next(s);
      if Running(n) {
        RunStops(n, calls - 1);
      } else {
        EndIsKept(n, calls - 1);
        StopsAt(n, calls - 1);
      }
    } else {
      EndIsKept(s, calls);
    }
  }

  lemma StopsAt(s: State, calls: nat)
    requires !Running(s)
    ensures After(s, calls) == s == Final(s) && Seen(s, calls) == [] == Trace(s)
  {
  }

  // ----- A token sequence has at most one parse tree -----

  lemma {:induction false} UniqueValue(v: Value, k: seq<Word>, v': Value, k': seq<Word>)
    requires WfValue(v) && WfValue(v') && ValueTokens(v, k) == ValueTokens(v', k')
    ensures v == v' && k == k'
    decreases v
  {
    FirstOfValue(v, k);
    FirstOfValue(v', k');
    if v.Table? {
      assert ValueTokens(v, k)[1..] == ItemsTokens(v.items, [v.close] + k);
      assert ValueTokens(v', k')[1..] == ItemsTokens(v'.items, [v'.close] + k');
      UniqueItems(v.items, v.close, k, v'.items, v'.close, k');
    } else {
      assert k == ValueTokens(v, k)[1..] && k' == ValueTokens(v', k')[1..];
    }
  }

  lemma {:induction false} UniqueItems(xs: Items, c: Word, k: seq<Word>, xs': Items, c': Word, k': seq<Word>)
    requires WfItems(xs) && WfItems(xs') && c.kind.CurlyClose? && c'.kind.CurlyClose?
    requires ItemsTokens(xs, [c] + k) == ItemsTokens(xs', [c'] + k')
    ensures xs == xs' && c == c' && k == k'
    decreases xs
  {
    FirstOfItems(xs, c, k);
    FirstOfItems(xs', c', k');
    if xs.NoItems? {
      assert k == ([c] + k)[1..] && k' == ([c'] + k')[1..];
    } else {
      var t, t' := AfterEntry(xs, c, k), AfterEntry(xs', c', k');
      UniqueEntry(xs.e, t, xs'.e, t');
      if xs.LastItem? {
        assert t[0] == c && k == t[1..] && k' == t'[1..];
      } else {
        assert t[0] == xs.sep && t[1..] == ItemsTokens(xs.rest, [c] + k);
        assert xs'.Item? && t'[1..] == ItemsTokens(xs'.rest, [c'] + k');
        UniqueItems(xs.rest, c, k, xs'.rest, c', k');
      }
    }
  }

  function AfterEntry(xs: Items, c: Word, k: seq<Word>): seq<Word>
    requires !xs.NoItems?
  {
    if xs.LastItem? then [c] + k else [xs.sep] + ItemsTokens(xs.rest, [c] + k)
  }

  lemma {:induction false} UniqueEntry(e: Entry, k: seq<Word>, e': Entry, k': seq<Word>)
    requires WfEntry(e) && WfEntry(e') && EntryTokens(e, k) == EntryTokens(e', k')
    ensures e == e' && k == k'
    decreases e
  {
    FirstOfEntry(e, k);
    FirstOfEntry(e', k');
    var n := if e.Implicit? then 0 else if e.Named? then 2 else 4;
    assert EntryTokens(e, k)[n..] == ValueTokens(e.v, k) && EntryTokens(e', k')[n..] == ValueTokens(e'.v, k');
    UniqueValue(e.v, k, e'.v, k');
    assert forall i | 0 <= i < n :: EntryTokens(e, k)[i] == EntryTokens(e', k')[i];
  }

  lemma FirstOfValue(v: Value, k: seq<Word>)
    requires WfValue(v)
    ensures ValueTokens(v, k) != [] && ValueTokens(v, k)[0] == if v.Table? then v.open else v.tok
  {
  }

  lemma FirstOfEntry(e: Entry, k: seq<Word>)
    requires WfEntry(e)
    ensures EntryTokens(e, k) != []
    ensures var t := EntryTokens(e, k)[0].kind;
      (t.Name? <==> e.Named?) && (t.SquareOpen? <==> e.Bracketed?) && !t.CurlyClose?
  {
    FirstOfValue(e.v, k);
  }

  lemma FirstOfItems(xs: Items, c: Word, k: seq<Word>)
    requires WfItems(xs) && c.kind.CurlyClose?
    ensures var t := ItemsTokens(xs, [c] + k); t != [] && (t[0].kind.CurlyClose? <==> xs.NoItems?)
    ensures xs.NoItems? ==> ItemsTokens(xs, [c] + k)[0] == c
  {
    if !xs.NoItems? {
      FirstOfEntry(xs.e, AfterEntry(xs, c, k));
    }
  }

  lemma {:induction false} UniqueDefinitions(ds: Definitions, ds': Definitions)
    requires WfDefinitions(ds) && WfDefinitions(ds') && DefinitionsTokens(ds, []) == DefinitionsTokens(ds', [])
    ensures ds == ds'
    decreases ds
  {
    if ds.Def? && ds'.Def? {
      var body := [ds.name, ds.eq] + ValueTokens(ds.v, DefinitionsTokens(ds.rest, []));
      var body' := [ds'.name, ds'.eq] + ValueTokens(ds'.v, DefinitionsTokens(ds'.rest, []));
      SemicolonsAreSkipped(ds.semis, body);
      SemicolonsAreSkipped(ds'.semis, body');
      assert ds.semis == (ds.semis + body)[..|ds.semis|] && ds'.semis == (ds'.semis + body')[..|ds.semis|];
      assert body == (ds.semis + body)[|ds.semis|..] && body' == (ds'.semis + body')[|ds.semis|..];
      assert body[0] == body'[0] && body[1] == body'[1];
      assert body[2..] == ValueTokens(ds.v, DefinitionsTokens(ds.rest, []));
      assert body'[2..] == ValueTokens(ds'.v, DefinitionsTokens(ds'.rest, []));
      UniqueValue(ds.v, DefinitionsTokens(ds.rest, []), ds'.v, DefinitionsTokens(ds'.rest, []));
      UniqueDefinitions(ds.rest, ds'.rest);
    }
  }

  // The grammar is unambiguous: the machine without a stack loses none of the nesting.
  lemma Unambiguous(d: Document, d': Document)
    requires InLanguage(d) && InLanguage(d') && DocumentTokens(d) == DocumentTokens(d')
    ensures d == d'
  {
    match (d, d')
    case (TableDocument(t), TableDocument(t')) => UniqueValue(t, [], t', []);
    case (DefDocument(ds, _), DefDocument(ds', _)) => UniqueDefinitions(ds, ds');
    case (TableDocument(t), DefDocument(ds, _)) => FirstOfValue(t, []); DefinitionsStart(ds);
    case (DefDocument(ds, _), TableDocument(t)) => FirstOfValue(t, []); DefinitionsStart(ds);
  }
}
