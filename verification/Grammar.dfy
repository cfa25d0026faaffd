// The ELTN grammar (doc/eltn.md, "Parser Rules") as parse trees that hold their own tokens.
// XTokens(x, k) is the tokens of x followed by k, and XEvents(x, k) its events followed by k:
// writing "followed by k" into the definitions keeps the proofs free of reassociation.
module Grammar {
  import opened Tokens

  // What a value may be but for a table
  datatype Atom = NilAtom | TrueAtom | FalseAtom | NumberAtom | IntegerAtom | StringAtom

  datatype Value = Scalar(atom: Atom, tok: Word) | Table(open: Word, items: Items, close: Word)

  // entrylist, with the separator that may end it
  datatype Items = NoItems | LastItem(e: Entry) | Item(e: Entry, sep: Word, rest: Items)

  datatype Entry =
    | Implicit(v: Value)
    | Named(name: Word, eq: Word, v: Value)
    | Bracketed(open: Word, atom: Atom, key: Word, close: Word, eq: Word, v: Value)

  // Semicolons are kept where the parser sees them: before a definition, or after the last one.
  datatype Definitions = NoDefs | Def(semis: seq<Word>, name: Word, eq: Word, v: Value, rest: Definitions)

  datatype Document = TableDocument(table: Value) | DefDocument(defs: Definitions, trailing: seq<Word>)

  // ----- Atoms -----

  // The tokens that an atom is written with
  predicate IsWrittenAs(a: Atom, kind: TokenKind) {
    match a
    case NilAtom => kind == Nil
    case TrueAtom => kind == BooleanTrue
    case FalseAtom => kind == BooleanFalse
    case NumberAtom => kind == Number
    case IntegerAtom => kind == Integer
    case StringAtom => kind == String || kind == LongString
  }

  // The event of an atom that is a value
  function ValueEventKind(a: Atom): EventKind {
    match a
    case NilAtom => ValueNil
    case TrueAtom => ValueTrue
    case FalseAtom => ValueFalse
    case NumberAtom => ValueNumber
    case IntegerAtom => ValueInteger
    case StringAtom => ValueString
  }

  // Only strings and numbers are keys.
  predicate IsKeyAtom(a: Atom) {
    a == StringAtom || a == NumberAtom || a == IntegerAtom
  }

  function KeyEventKind(a: Atom): EventKind
    requires IsKeyAtom(a)
  {
    match a
    case StringAtom => KeyString
    case NumberAtom => KeyNumber
    case IntegerAtom => KeyInteger
  }

  // ----- Which trees are documents -----

  predicate AllSemicolons(ts: seq<Word>) {
    forall t <- ts :: t.kind.Semicolon?
  }

  predicate WfValue(v: Value) {
    match v
    case Scalar(atom, tok) => IsWrittenAs(atom, tok.kind)
    case Table(open, items, close) => open.kind.CurlyOpen? && WfItems(items) && close.kind.CurlyClose?
  }

  predicate WfItems(items: Items) {
    match items
    case NoItems => true
    case LastItem(e) => WfEntry(e)
    case Item(e, sep, rest) => WfEntry(e) && (sep.kind == Comma || sep.kind == Semicolon) && WfItems(rest)
  }

  predicate WfEntry(e: Entry) {
    match e
    case Implicit(v) => WfValue(v)
    case Named(name, eq, v) => name.kind.Name? && eq.kind.Equals? && WfValue(v)
    case Bracketed(open, atom, key, close, eq, v) =>
      && open.kind.SquareOpen? && IsKeyAtom(atom) && IsWrittenAs(atom, key.kind) && close.kind.SquareClose?
      && eq.kind.Equals? && WfValue(v)
  }

  predicate WfDefinitions(ds: Definitions) {
    ds.Def? ==>
      AllSemicolons(ds.semis) && ds.name.kind.Name? && ds.eq.kind.Equals? && WfValue(ds.v) && WfDefinitions(ds.rest)
  }

  // A document with any number of semicolons around its definitions.
  predicate WfDocument(d: Document) {
    match d
    case TableDocument(table) => table.Table? && WfValue(table)
    case DefDocument(defs, trailing) => WfDefinitions(defs) && AllSemicolons(trailing)
  }

  // The documented grammar: one optional semicolon after each definition, none elsewhere.
  predicate Documented(d: Document) {
    && WfDocument(d)
    && (d.DefDocument? ==> OneSemicolonAtMost(d.defs, 0) && |d.trailing| <= if d.defs.NoDefs? then 0 else 1)
  }

  predicate OneSemicolonAtMost(ds: Definitions, limit: nat) {
    ds.Def? ==> |ds.semis| <= limit && OneSemicolonAtMost(ds.rest, 1)
  }

  // ----- The tokens of a tree -----

  function ValueTokens(v: Value, k: seq<Word>): seq<Word> {
    match v
    case Scalar(_, tok) => [tok] + k
    case Table(open, items, close) => [open] + ItemsTokens(items, [close] + k)
  }

  function ItemsTokens(items: Items, k: seq<Word>): seq<Word> {
    match items
    case NoItems => k
    case LastItem(e) => EntryTokens(e, k)
    case Item(e, sep, rest) => EntryTokens(e, [sep] + ItemsTokens(rest, k))
  }

  function EntryTokens(e: Entry, k: seq<Word>): seq<Word> {
    match e
    case Implicit(v) => ValueTokens(v, k)
    case Named(name, eq, v) => [name, eq] + ValueTokens(v, k)
    case Bracketed(open, _, key, close, eq, v) => [open, key, close, eq] + ValueTokens(v, k)
  }

  function DefinitionsTokens(ds: Definitions, k: seq<Word>): seq<Word> {
    match ds
    case NoDefs => k
    case Def(semis, name, eq, v, rest) => semis + ([name, eq] + ValueTokens(v, DefinitionsTokens(rest, k)))
  }

  function DocumentTokens(d: Document): seq<Word> {
    match d
    case TableDocument(table) => ValueTokens(table, [])
    case DefDocument(defs, trailing) => DefinitionsTokens(defs, trailing)
  }

  // ----- The events of a tree: its depth-first traversal -----

  function ValueEvents(v: Value, k: seq<Event>): seq<Event>
    requires WfValue(v)
  {
    match v
    case Scalar(atom, tok) => [Event(ValueEventKind(atom), tok.text)] + k
    case Table(open, items, close) =>
      [Event(TableStart, open.text)] + ItemsEvents(items, [Event(TableEnd, close.text)] + k)
  }

  function ItemsEvents(items: Items, k: seq<Event>): seq<Event>
    requires WfItems(items)
  {
    match items
    case NoItems => k
    case LastItem(e) => EntryEvents(e, k)
    case Item(e, sep, rest) => EntryEvents(e, ItemsEvents(rest, k))
  }

  function EntryEvents(e: Entry, k: seq<Event>): seq<Event>
    requires WfEntry(e)
  {
    match e
    case Implicit(v) => ValueEvents(v, k)
    case Named(name, _, v) => [Event(KeyString, name.text)] + ValueEvents(v, k)
    case Bracketed(_, atom, key, _, _, v) => [Event(KeyEventKind(atom), key.text)] + ValueEvents(v, k)
  }

  function DefinitionsEvents(ds: Definitions, k: seq<Event>): seq<Event>
    requires WfDefinitions(ds)
  {
    match ds
    case NoDefs => k
    case Def(_, name, _, v, rest) => [Event(DefName, name.text)] + ValueEvents(v, DefinitionsEvents(rest, k))
  }

  function DocumentEvents(d: Document, eof: EofToken): seq<Event>
    requires WfDocument(d)
  {
    match d
    case TableDocument(table) => ValueEvents(table, [Event(StreamEnd, eof.text)])
    case DefDocument(defs, _) => DefinitionsEvents(defs, [Event(StreamEnd, eof.text)])
  }
}
