// The machine with a counter and the grammar with nested tables accept the same documents and
// report the same events.
module ParserTheorems {
  import opened Tokens
  import opened EventMachine
  import opened Grammar

  // `s` runs on to `n`, and nothing but the depth and what is still to be read has changed.
  ghost predicate LeadsTo(s: State, n: State) {
    Final(s) == Final(n) && n.eof == s.eof && n.noDefs == s.noDefs
  }

  // One call of ELTN_Parser_next takes `s` to `n`.
  ghost predicate Steps(s: State, n: State) {
    && LeadsTo(s, n)
    && Trace(s) == [Event(n.event, n.text)] + Trace(n)
    && (n.event.Fault? ==> !Accepts(s))
  }

  // The machine is about to read `input` as the entries of an open table: either just inside the
  // brace, or with a separator in front.
  ghost predicate AtItems(s: State, input: seq<Word>) {
    && s.depth > 0
    && (|| (s.event.TableStart? && s.input == input)
        || (IsValueEvent(s.event) && s.input != [] && IsSeparator(s.input[0].kind) && s.input[1..] == input))
  }

  function DepthInside(t: Word): nat {
    if t.kind.CurlyOpen? then 1 else 0
  }

  // The machine has just taken `t` as the first token of a value that it read at depth `depth`.
  ghost predicate InValue(s: State, t: Word, depth: nat) {
    && s.text == t.text
    && s.depth == depth + DepthInside(t)
    && if t.kind.CurlyOpen? then s.event.TableStart? else IsScalar(t.kind) && s.event == ScalarEvent(t.kind)
  }

  // ----- Tokens and atoms -----

  function AtomOf(kind: TokenKind): Atom {
    match kind
    case Nil => NilAtom
    case BooleanTrue => TrueAtom
    case BooleanFalse => FalseAtom
    case Number => NumberAtom
    case Integer => IntegerAtom
    case _ => StringAtom
  }

  // The machine takes a token for the atom that is written with it, as a value, as a key and as a separator.
  lemma TokenIsAtom(kind: TokenKind, a: Atom)
    ensures IsWrittenAs(a, kind) <==> IsScalar(kind) && a == AtomOf(kind)
    ensures IsScalar(kind) ==> ScalarEvent(kind) == ValueEventKind(AtomOf(kind))
    ensures IsKeyToken(kind) <==> IsScalar(kind) && IsKeyAtom(AtomOf(kind))
    ensures IsKeyToken(kind) ==> KeyEvent(kind) == KeyEventKind(AtomOf(kind))
    ensures IsSeparator(kind) <==> kind == Comma || kind == Semicolon
  {
  }

  // ----- Single steps -----

  predicate StartsValue(input: seq<Word>) {
    input != [] && (IsScalar(input[0].kind) || input[0].kind.CurlyOpen?)
  }

  // Where the entries of a table at depth `depth` may begin with `input`, what one step does.
  ghost predicate EntryStep(depth: nat, input: seq<Word>, n: State) {
    if input == [] then n.event.Fault?
    else if input[0].kind.CurlyClose? then
      n.event.TableEnd? && n.text == input[0].text && n.depth == depth - 1 && n.input == input[1..]
    else if input[0].kind.Name? then
      n.event.KeyString? && n.text == input[0].text && n.depth == depth && n.input == input[1..]
    else if input[0].kind.SquareOpen? then
      if |input| >= 3 && IsKeyToken(input[1].kind) && input[2].kind.SquareClose? then
        n.event == KeyEvent(input[1].kind) && n.text == input[1].text && n.depth == depth && n.input == input[3..]
      else n.event.Fault?
    else if StartsValue(input) then InValue(n, input[0], depth) && n.input == input[1..]
    else n.event.Fault?
  }

  ghost predicate KeyStep(depth: nat, input: seq<Word>, n: State) {
    if input != [] && input[0].kind.Equals? && StartsValue(input[1..]) then
      InValue(n, input[1], depth) && n.input == input[2..]
    else n.event.Fault?
  }

  ghost predicate NestedStep(depth: nat, input: seq<Word>, n: State) {
    if input == [] then n.event.Fault?
    else if input[0].kind.CurlyClose? then
      n.event.TableEnd? && n.text == input[0].text && n.depth == depth - 1 && n.input == input[1..]
    else if IsSeparator(input[0].kind) then true
    else n.event.Fault?
  }

  lemma EntryOrEndSteps(s: State)
    requires s.depth > 0
    ensures EntryStep(s.depth, s.input, EntryOrEnd(Advance(s), Peek(s)))
  {
  }

  lemma StepFromItems(s: State, input: seq<Word>) returns (n: State)
    requires AtItems(s, input)
    ensures Steps(s, n) && EntryStep(s.depth, input, n)
  {
    n := Next(s);
    var s0 := s.(input := input);
    assert n == EntryOrEnd(Advance(s0), Peek(s0));
    EntryOrEndSteps(s0);
  }

  lemma StepFromKey(s: State) returns (n: State)
    requires IsKeyEvent(s.event)
    ensures Steps(s, n) && KeyStep(s.depth, s.input, n)
  {
    n := Next(s);
  }

  lemma StepFromNestedValue(s: State) returns (n: State)
    requires IsValueEvent(s.event) && s.depth > 0
    ensures Steps(s, n) && NestedStep(s.depth, s.input, n)
  {
    n := Next(s);
  }

  // ----- Soundness: an accepting run spells out a tree -----

  lemma {:induction false} SoundValue(s: State, t: Word, depth: nat) returns (v: Value, end: State)
    requires InValue(s, t, depth) && Accepts(s)
    ensures WfValue(v) && [t] + s.input == ValueTokens(v, end.input)
    ensures v.Table? == t.kind.CurlyOpen? && (v.Table? ==> end.event.TableEnd?)
    ensures [Event(s.event, t.text)] + Trace(s) == ValueEvents(v, Trace(end))
    ensures LeadsTo(s, end) && IsValueEvent(end.event) && end.depth == depth
    ensures |end.input| <= |s.input|
    decreases |s.input|, 2
  {
    hide Trace, Final;
    if t.kind.CurlyOpen? {
      var items, close;
      items, close, end := SoundItems(s, s.input);
      v := Table(t, items, close);
    } else {
      TokenIsAtom(t.kind, AtomOf(t.kind));
      v, end := Scalar(AtomOf(t.kind), t), s;
    }
  }

  lemma {:induction false} SoundItems(s: State, input: seq<Word>) returns (items: Items, close: Word, end: State)
    requires AtItems(s, input) && Accepts(s)
    ensures WfItems(items) && close.kind.CurlyClose? && input == ItemsTokens(items, [close] + end.input)
    ensures Trace(s) == ItemsEvents(items, [Event(TableEnd, close.text)] + Trace(end))
    ensures LeadsTo(s, end) && end.event.TableEnd? && end.depth == s.depth - 1
    ensures |end.input| < |input|
    decreases |input|, 1
  {
    hide Trace, Final;
    var n := StepFromItems(s, input);
    if input[0].kind.CurlyClose? {
      items, close, end := NoItems, input[0], n;
      assert input == [close] + end.input;
    } else {
      var e, after := SoundEntry(s, input);
      var m := StepFromNestedValue(after);
      if after.input[0].kind.CurlyClose? {
        items, close, end := LastItem(e), after.input[0], m;
        assert after.input == [close] + end.input;
      } else {
        var rest;
        rest, close, end := SoundItems(after, after.input[1..]);
        items := Item(e, after.input[0], rest);
        assert after.input == [after.input[0]] + after.input[1..];
      }
    }
  }

  lemma {:induction false} SoundEntry(s: State, input: seq<Word>) returns (e: Entry, after: State)
    requires AtItems(s, input) && Accepts(s)
    requires input != [] && !input[0].kind.CurlyClose?
    ensures WfEntry(e) && input == EntryTokens(e, after.input)
    ensures Trace(s) == EntryEvents(e, Trace(after))
    ensures LeadsTo(s, after) && IsValueEvent(after.event) && after.depth == s.depth
    ensures |after.input| < |input|
    decreases |input|, 0
  {
    hide Trace, Final;
    var n := StepFromItems(s, input);
    var eq, v;
    if input[0].kind.Name? {
      eq, v, after := SoundKeyed(n);
      e := Named(input[0], eq, v);
    } else if input[0].kind.SquareOpen? {
      eq, v, after := SoundKeyed(n);
      TokenIsAtom(input[1].kind, AtomOf(input[1].kind));
      e := Bracketed(input[0], AtomOf(input[1].kind), input[1], input[2], eq, v);
    } else {
      v, after := SoundValue(n, input[0], s.depth);
      e := Implicit(v);
    }
  }

  lemma {:induction false} SoundKeyed(s: State) returns (eq: Word, v: Value, after: State)
    requires IsKeyEvent(s.event) && Accepts(s)
    ensures eq.kind.Equals? && WfValue(v) && s.input == [eq] + ValueTokens(v, after.input)
    ensures Trace(s) == ValueEvents(v, Trace(after))
    ensures LeadsTo(s, after) && IsValueEvent(after.event) && after.depth == s.depth
    ensures |after.input| < |s.input|
    decreases |s.input|, 3
  {
    hide Trace, Final;
    var n := StepFromKey(s);
    v, after := SoundValue(n, s.input[1], s.depth);
    eq := s.input[0];
  }

  // ----- Completeness: the tokens of a tree are read back as its traversal -----

  lemma {:induction false} CompleteValue(s: State, t: Word, depth: nat, v: Value, k: seq<Word>) returns (end: State)
    requires InValue(s, t, depth) && WfValue(v) && [t] + s.input == ValueTokens(v, k)
    ensures [Event(s.event, t.text)] + Trace(s) == ValueEvents(v, Trace(end))
    ensures LeadsTo(s, end) && IsValueEvent(end.event) && end.depth == depth && end.input == k
    ensures v.Table? ==> end.event.TableEnd?
    decreases v, 0
  {
    hide Trace, Final;
    assert t == ([t] + s.input)[0] && s.input == ([t] + s.input)[1..];
    match v
    case Scalar(atom, tok) =>
      TokenIsAtom(tok.kind, atom);
      end := s;
    case Table(open, items, close) => end := CompleteItems(s, s.input, items, close, k);
  }

  lemma {:induction false} CompleteItems(s: State, input: seq<Word>, items: Items, close: Word, k: seq<Word>)
    returns (end: State)
    requires AtItems(s, input) && WfItems(items) && close.kind.CurlyClose? && input == ItemsTokens(items, [close] + k)
    ensures Trace(s) == ItemsEvents(items, [Event(TableEnd, close.text)] + Trace(end))
    ensures LeadsTo(s, end) && end.event.TableEnd? && end.depth == s.depth - 1 && end.input == k
    decreases items, 1
  {
    hide Trace, Final;
    match items
    case NoItems => end := StepFromItems(s, input);
    case LastItem(e) =>
      var after := CompleteEntry(s, input, e, [close] + k);
      end := StepFromNestedValue(after);
    case Item(e, sep, rest) =>
      var after := CompleteEntry(s, input, e, [sep] + ItemsTokens(rest, [close] + k));
      end := CompleteItems(after, after.input[1..], rest, close, k);
  }

  lemma {:induction false} CompleteEntry(s: State, input: seq<Word>, e: Entry, k: seq<Word>) returns (after: State)
    requires AtItems(s, input) && WfEntry(e) && input == EntryTokens(e, k)
    ensures Trace(s) == EntryEvents(e, Trace(after))
    ensures LeadsTo(s, after) && IsValueEvent(after.event) && after.depth == s.depth && after.input == k
    decreases e, 2
  {
    hide Trace, Final;
    ValueTokensStart(e.v, k);
    if e.Bracketed? {
      TokenIsAtom(e.key.kind, e.atom);
    }
    var n := StepFromItems(s, input);
    match e
    case Implicit(v) => after := CompleteValue(n, input[0], s.depth, v, k);
    case Named(name, eq, v) => after := CompleteKeyed(n, eq, v, k);
    case Bracketed(_, _, _, _, eq, v) => after := CompleteKeyed(n, eq, v, k);
  }

  lemma {:induction false} CompleteKeyed(s: State, eq: Word, v: Value, k: seq<Word>) returns (after: State)
    requires IsKeyEvent(s.event) && eq.kind.Equals? && WfValue(v) && s.input == [eq] + ValueTokens(v, k)
    ensures Trace(s) == ValueEvents(v, Trace(after))
    ensures LeadsTo(s, after) && IsValueEvent(after.event) && after.depth == s.depth && after.input == k
    decreases v, 1
  {
    hide Trace, Final;
    ValueTokensStart(v, k);
    assert s.input[1..] == ValueTokens(v, k);
    var n := StepFromKey(s);
    after := CompleteValue(n, s.input[1], s.depth, v, k);
  }

  lemma ValueTokensStart(v: Value, k: seq<Word>)
    requires WfValue(v)
    ensures StartsValue(ValueTokens(v, k))
  {
    if v.Scalar? {
      TokenIsAtom(v.tok.kind, v.atom);
    }
  }
}
