// Every good spelling of a value is read as that value (examples/json/cJSON.c), unless it is nested too deep.
module JsonComplete {
  import opened Bytes
  import opened JsonTree
  import opened JsonParse
  import opened JsonOffsets
  import opened JsonStrings
  import opened JsonGrammar

  // A string in any form that has a value is read as its value up to the first NUL.
  lemma PiecesAreQuoted(ps: seq<Piece>) returns (value: bytes)
    requires (forall p <- ps :: WfPiece(p)) && Value(ps).Some?
    ensures IsQuoted(['\"'] + PiecesText(ps) + ['\"'], value) && IsUpToNul(Value(ps).value, value)
  {
    hide PiecesText, WfPiece, Value, ParseString, IsUpToNul;
    var text := ['\"'] + PiecesText(ps) + ['\"'];
    assert text[0..0 + |text|] == text;
    StringIsRead(text, 0, ps);
    value := ParseString(text, 0).value;
  }

  // ----- A string in its surroundings -----

  lemma SameByteAt(c: bytes, o: nat, text: bytes, i: nat)
    requires At(c, o, text) && i < |text|
    ensures o + i < |c| && c[o + i] == text[i]
  {
    AtByte(c, o, text, i);
  }

  lemma {:induction false} ClosingMoves(c: bytes, o: nat, text: bytes, i: nat)
    requires At(c, o, text) && i <= |text|
    ensures ClosingQuote(text, i).Some? ==> ClosingQuote(c, o + i) == Some(o + ClosingQuote(text, i).value)
    ensures ClosingQuote(c, o + i).Some? && ClosingQuote(c, o + i).value < o + |text| ==> ClosingQuote(text, i).Some?
    decreases |text| - i
  {
    hide At;
    if i < |text| {
      SameByteAt(c, o, text, i);
      if text[i] != '\"' && text[i] != '\\' {
        ClosingMoves(c, o, text, i + 1);
      } else if text[i] == '\\' && i + 1 < |text| {
        SameByteAt(c, o, text, i + 1);
        ClosingMoves(c, o, text, i + 2);
      } else if text[i] == '\\' {
        ClosingIsLater(c, o + i + 2);
      }
    } else {
      ClosingIsLater(c, o + i);
    }
  }

  lemma ClosingIsLater(c: bytes, i: nat)
    ensures ClosingQuote(c, i).Some? ==> ClosingQuote(c, i).value >= i
  {
  }

  lemma LiteralMoves(c: bytes, o: nat, text: bytes, i: nat, end: nat)
    requires At(c, o, text) && i < end < |text|
    ensures Utf16Literal(c, o + i, o + end) == Utf16Literal(text, i, end)
  {
    hide At, EncodeUtf8, HexDigit;
    forall k | i <= k < end
      ensures o + k < |c| && c[o + k] == text[k]
    {
      SameByteAt(c, o, text, k);
    }
    SameByteAt(c, o, text, end);
    if end - i >= 6 {
      HexMoves(c, o, text, i + 2);
      if end - (i + 6) >= 6 {
        HexMoves(c, o, text, i + 8);
        assert c[o + (i + 6)] == text[i + 6] && c[o + (i + 7)] == text[i + 7];
      }
    }
  }

  lemma HexMoves(c: bytes, o: nat, text: bytes, i: nat)
    requires At(c, o, text) && i + 4 <= |text|
    ensures o + i + 4 <= |c| && ParseHex4(c, o + i) == ParseHex4(text, i)
  {
    hide At, HexDigit;
    SameByteAt(c, o, text, i);
    SameByteAt(c, o, text, i + 1);
    SameByteAt(c, o, text, i + 2);
    SameByteAt(c, o, text, i + 3);
  }

  // The same outcome, at another offset
  predicate SameOutcome(r: Parse<bytes>, r': Parse<bytes>) {
    r.Parsed? == r'.Parsed? && (r.Parsed? ==> r.value == r'.value)
  }

  lemma {:induction false} UnescapeMoves(c: bytes, o: nat, text: bytes, i: nat, end: nat, out: bytes)
    requires At(c, o, text) && end < |text| && o + end < |c|
    ensures SameOutcome(Unescape(c, o + i, o + end, out), Unescape(text, i, end, out))
    decreases |text| + 12 - i
  {
    hide At, Unescape, Utf16Literal, Unescaped;
    if i >= end {
      UnescapeEnds(c, o + i, o + end, out);
      UnescapeEnds(text, i, end, out);
    } else {
      UnescapeStep(c, o + i, o + end, out);
      UnescapeStep(text, i, end, out);
      SameByteAt(c, o, text, i);
      SameByteAt(c, o, text, i + 1);
      if text[i] != '\\' {
        UnescapeMoves(c, o, text, i + 1, end, out + [text[i]]);
      } else if text[i + 1] == 'u' {
        LiteralMoves(c, o, text, i, end);
        var (utf8, length) := Utf16Literal(text, i, end);
        if length > 0 {
          UnescapeMoves(c, o, text, i + length, end, out + utf8);
        }
      } else if Unescaped(text[i + 1]).Some? {
        UnescapeMoves(c, o, text, i + 2, end, out + [Unescaped(text[i + 1]).value]);
      }
    }
  }

  lemma UnescapeEnds(c: bytes, i: nat, end: nat, out: bytes)
    requires i >= end && end < |c|
    ensures Unescape(c, i, end, out) == Parsed(out, i)
  {
  }

  // A string is read alike on its own and inside a text.
  lemma QuotedMoves(c: bytes, o: nat, text: bytes, value: bytes)
    requires text != [] && At(c, o, text) && o < |c|
    ensures IsQuoted(text, value) <==> c[o] == '\"' && ParseString(c, o) == Parsed(value, o + |text|)
  {
    hide At, ClosingQuote, Unescape, CString;
    SameByteAt(c, o, text, 0);
    ClosingMoves(c, o, text, 1);
    var end := ClosingQuote(text, 1);
    if end.Some? {
      SameByteAt(c, o, text, end.value);
      UnescapeMoves(c, o, text, 1, end.value, []);
    }
  }

  // ----- Good spellings are read -----

  lemma Blank(c: bytes, o: nat, blanks: bytes, p: nat)
    requires AreBlanks(blanks) && At(c, o, blanks) && p == o + |blanks| < |c| && c[p] as int > 32
    ensures BlankUpTo(c, o, p) && Skip(c, o) == p
  {
    forall k | o <= k < p
      ensures c[k] as int <= 32
    {
      AtByte(c, o, blanks, k - o);
      assert blanks[k - o] in blanks;
    }
    SkipsBlanks(c, o, p);
  }

  lemma NumeralBytes(text: bytes)
    ensures (forall b <- text :: IsNumeralByte(b)) <==> forall b <- text :: IsNumberByte(b)
  {
    forall b | b in text
      ensures IsNumeralByte(b) <==> IsNumberByte(b)
    {
    }
  }

  lemma NumeralIsRead(strtod: Strtod, c: bytes, o: nat, text: bytes, value: int)
    requires IsNumeral(strtod, text, value) && At(c, o, text) && NumberEnds(c, o + |text|)
    ensures o < |c| && c[o] == text[0] && ParseNumber(strtod, c, o) == Parsed(Number(value), o + |text|)
  {
    hide NumberSpan, IsNumberByte, IsNumeralByte, At;
    NumeralBytes(text);
    SpanIs(c, o, text, 63);
    SameByteAt(c, o, text, 0);
  }

  // Every spelling starts with a byte that is neither blank nor a closing bracket.
  lemma Starts(strtod: Strtod, s: Spelling)
    requires WfSpelling(strtod, s)
    ensures var t := TextOf(s); t != [] && 32 < t[0] as int < 0x80 && t[0] != ']' && t[0] != '}'
  {
    hide WfSpelledItems, WfSpelledMembers, ItemsTextOf, MembersTextOf, ParseString;
  }

  // What reading a value must give: the value, or a failure when it is nested deeper than 1000
  predicate IsRead<T(==)>(r: Parse<T>, x: T, p: nat, nesting: nat) {
    if nesting <= 1000 then r == Parsed(x, p) else r.Failed?
  }

  // The first byte decides what is parsed.
  lemma ParsesAsStarted(strtod: Strtod, c: bytes, o: nat, depth: nat)
    requires o < |c|
    ensures At(c, o, ['n', 'u', 'l', 'l']) ==> ParseValue(strtod, c, o, depth) == Parsed(Null, o + 4)
    ensures At(c, o, ['f', 'a', 'l', 's', 'e']) ==> ParseValue(strtod, c, o, depth) == Parsed(False, o + 5)
    ensures At(c, o, ['t', 'r', 'u', 'e']) ==> ParseValue(strtod, c, o, depth) == Parsed(True, o + 4)
    ensures c[o] == '-' || '0' <= c[o] <= '9' ==> ParseValue(strtod, c, o, depth) == ParseNumber(strtod, c, o)
    ensures c[o] == '\"' ==>
      ParseValue(strtod, c, o, depth) ==
        match ParseString(c, o)
        case Parsed(text, p) => Parsed(String(text), p)
        case Failed(p) => Failed(p)
    ensures c[o] == '[' ==> Has(c, o, '[') && ParseValue(strtod, c, o, depth) == ParseArray(strtod, c, o, depth)
    ensures c[o] == '{' ==> Has(c, o, '{') && ParseValue(strtod, c, o, depth) == ParseObject(strtod, c, o, depth)
  {
    hide ParseNumber, ParseString, ParseArray, ParseObject, At;
    NotAt(c, o, ['n', 'u', 'l', 'l']);
    NotAt(c, o, ['f', 'a', 'l', 's', 'e']);
    NotAt(c, o, ['t', 'r', 'u', 'e']);
  }

  lemma {:induction false} SpellingIsRead(strtod: Strtod, c: bytes, o: nat, depth: nat, s: Spelling)
    requires WfSpelling(strtod, s) && At(c, o, TextOf(s)) && depth <= 1000
    requires s.Numeral? ==> NumberEnds(c, o + |TextOf(s)|)
    ensures IsRead(ParseValue(strtod, c, o, depth), ValueOf(s), o + |TextOf(s)|, depth + Nesting(ValueOf(s)))
    decreases s, 1
  {
    hide ParseValue, ParseArray, ParseObject, ItemsTextOf, MembersTextOf, At, Has, IsNumeral, Nesting, IsRead;
    hide IsQuoted, WfSpelledItems, WfSpelledMembers, ItemsOf, MembersOf, AreBlanks;
    match s
    case EmptyArray(blanks) => {
      EmptyArrayIsRead(strtod, c, o, depth, blanks);
    }
    case FullArray(items) => {
      ArrayIsRead(strtod, c, o, depth, items);
    }
    case EmptyObject(blanks) => {
      EmptyObjectIsRead(strtod, c, o, depth, blanks);
    }
    case FullObject(members) => {
      ObjectIsRead(strtod, c, o, depth, members);
    }
    case _ => {
      ScalarIsRead(strtod, c, o, depth, s);
    }
  }

  lemma ScalarIsRead(strtod: Strtod, c: bytes, o: nat, depth: nat, s: Spelling)
    requires (s.Literal? || s.Numeral? || s.Quoted?) && WfSpelling(strtod, s) && At(c, o, TextOf(s)) && depth <= 1000
    requires s.Numeral? ==> NumberEnds(c, o + |TextOf(s)|)
    ensures IsRead(ParseValue(strtod, c, o, depth), ValueOf(s), o + |TextOf(s)|, depth + Nesting(ValueOf(s)))
  {
    hide ParseValue, ParseNumber, ParseString, At, IsNumeral, IsQuoted;
    match s
    case Literal(j) => {
      LiteralIsRead(strtod, c, o, depth, j);
    }
    case Numeral(text, value) => {
      NumeralStarts(strtod, text, value);
      NumeralIsRead(strtod, c, o, text, value);
      ParsesAsStarted(strtod, c, o, depth);
    }
    case Quoted(text, value) => {
      QuotedStarts(c, o, text, value);
      QuotedMoves(c, o, text, value);
      ParsesAsStarted(strtod, c, o, depth);
    }
  }

  lemma QuotedStarts(c: bytes, o: nat, text: bytes, value: bytes)
    requires IsQuoted(text, value) && At(c, o, text)
    ensures text != [] && o < |c|
  {
    hide At, ParseString;
    SameByteAt(c, o, text, 0);
  }

  lemma LiteralIsRead(strtod: Strtod, c: bytes, o: nat, depth: nat, j: Json)
    requires (j.Null? || j.False? || j.True?) && At(c, o, LiteralText(j))
    ensures ParseValue(strtod, c, o, depth) == Parsed(j, o + |LiteralText(j)|)
  {
    hide At, ParseValue;
    AtByte(c, o, LiteralText(j), 0);
    ParsesAsStarted(strtod, c, o, depth);
  }

  lemma NumeralStarts(strtod: Strtod, text: bytes, value: int)
    requires IsNumeral(strtod, text, value)
    ensures text != [] && (text[0] == '-' || '0' <= text[0] <= '9')
  {
  }

  lemma Bracketed(c: bytes, o: nat, open: byte, body: bytes, close: byte)
    requires At(c, o, [open] + body + [close])
    ensures Has(c, o, open) && At(c, o + 1, body) && Has(c, o + 1 + |body|, close)
  {
    hide At;
    assert [open] + body + [close] == [open] + (body + [close]);
    AtBoth(c, o, [open], body + [close]);
    AtBoth(c, o + 1, body, [close]);
    AtByte(c, o, [open], 0);
    AtByte(c, o + 1 + |body|, [close], 0);
  }

  lemma ParsesAsBracketed(strtod: Strtod, c: bytes, o: nat, depth: nat)
    ensures Has(c, o, '[') ==> ParseValue(strtod, c, o, depth) == ParseArray(strtod, c, o, depth)
    ensures Has(c, o, '{') ==> ParseValue(strtod, c, o, depth) == ParseObject(strtod, c, o, depth)
  {
    hide ParseValue, ParseArray, ParseObject;
    if o < |c| {
      ParsesAsStarted(strtod, c, o, depth);
    }
  }

  lemma EmptyArrayIsRead(strtod: Strtod, c: bytes, o: nat, depth: nat, blanks: bytes)
    requires AreBlanks(blanks) && At(c, o, ['['] + blanks + [']']) && depth <= 1000
    ensures IsRead(ParseValue(strtod, c, o, depth), Array(NoItems), o + |blanks| + 2, depth + Nesting(Array(NoItems)))
  {
    hide At, ParseItems, Skip, ParseValue;
    Bracketed(c, o, '[', blanks, ']');
    ParsesAsStarted(strtod, c, o, depth);
    Blank(c, o + 1, blanks, o + 1 + |blanks|);
  }

  lemma EmptyObjectIsRead(strtod: Strtod, c: bytes, o: nat, depth: nat, blanks: bytes)
    requires AreBlanks(blanks) && At(c, o, ['{'] + blanks + ['}']) && depth <= 1000
    ensures IsRead(ParseValue(strtod, c, o, depth), Object(NoMembers), o + |blanks| + 2, depth + Nesting(Object(NoMembers)))
  {
    hide At, ParseMembers, Skip, ParseValue;
    Bracketed(c, o, '{', blanks, '}');
    ParsesAsStarted(strtod, c, o, depth);
    Blank(c, o + 1, blanks, o + 1 + |blanks|);
  }

  // parse_array, once its items are read: p is where the first one starts, q the closing bracket.
  lemma ArrayStep(strtod: Strtod, c: bytes, o: nat, depth: nat, items: Items, p: nat, q: nat)
    requires Has(c, o, '[') && depth <= 1000 && o < p < |c| && Skip(c, o + 1) == p && Has(c, q, ']') && c[p] != ']'
    requires depth < 1000 ==> IsRead(ParseItems(strtod, c, p - 1, depth + 1), items, q, depth + 1 + ItemsNesting(items))
    ensures IsRead(ParseArray(strtod, c, o, depth), Array(items), q + 1, depth + Nesting(Array(items)))
  {
    hide ParseItems, Skip;
  }

  lemma AtThree(c: bytes, o: nat, x: bytes, y: bytes, z: bytes)
    requires At(c, o, x + (y + z))
    ensures At(c, o, x) && At(c, o + |x|, y) && At(c, o + |x| + |y|, z) && o + |x| + |y| + |z| <= |c|
  {
    hide At;
    AtBoth(c, o, x, y + z);
    AtBoth(c, o + |x|, y, z);
  }

  function MoreItems(items: SpelledItems): bytes {
    if items.ItemThen? then [','] + ItemsTextOf(items.rest) else []
  }

  // Where the parts of the first item are
  lemma ItemsParts(strtod: Strtod, c: bytes, start: nat, items: SpelledItems, close: byte)
    returns (v: nat, p: nat, q: nat)
    requires WfSpelledItems(strtod, items) && At(c, start, ItemsTextOf(items))
    requires items.LastItem? ==> Has(c, start + |ItemsTextOf(items)|, close)
    ensures v == start + |items.before| && At(c, start, items.before) && At(c, v, TextOf(items.item))
    ensures p == v + |TextOf(items.item)| && q == p + |items.after| && v < p <= q < |c| && At(c, p, items.after)
    ensures c[v] as int > 32 && c[v] != ']' && c[q] == if items.LastItem? then close else ','
    ensures items.LastItem? ==> q == start + |ItemsTextOf(items)|
    ensures items.ItemThen? ==>
      At(c, q + 1, ItemsTextOf(items.rest)) && q + 1 + |ItemsTextOf(items.rest)| == start + |ItemsTextOf(items)|
  {
    hide At, TextOf, WfSpelling, AreBlanks, ItemsTextOf, MoreItems;
    ItemsTextIs(items);
    Starts(strtod, items.item);
    var t := TextOf(items.item);
    v := start + |items.before|;
    p := v + |t|;
    q := p + |items.after|;
    AtThree(c, start, items.before, t, items.after + MoreItems(items));
    AtBoth(c, p, items.after, MoreItems(items));
    AtByte(c, v, t, 0);
    AfterFirst(c, q, items);
  }

  lemma ItemsTextIs(items: SpelledItems)
    ensures ItemsTextOf(items) == items.before + (TextOf(items.item) + (items.after + MoreItems(items)))
    ensures |ItemsTextOf(items)| == |items.before| + |TextOf(items.item)| + |items.after| + |MoreItems(items)|
    ensures |MoreItems(items)| == if items.ItemThen? then 1 + |ItemsTextOf(items.rest)| else 0
  {
    hide TextOf;
  }

  lemma AfterFirst(c: bytes, q: nat, items: SpelledItems)
    requires At(c, q, MoreItems(items))
    ensures items.ItemThen? ==> Has(c, q, ',') && At(c, q + 1, ItemsTextOf(items.rest))
  {
    hide At, ItemsTextOf;
    if items.ItemThen? {
      AtBoth(c, q, [','], ItemsTextOf(items.rest));
      AtByte(c, q, [','], 0);
    }
  }

  // One round of the loop in parse_array
  lemma ItemsStep(strtod: Strtod, c: bytes, x: nat, depth: nat, head: Json, tail: Items, p: nat, q: nat, e: nat)
    requires x < p <= q < |c| && Skip(c, p) == q && depth <= 1000
    requires IsRead(ParseValue(strtod, c, Skip(c, x + 1), depth), head, p, depth + Nesting(head))
    requires if tail.NoItems? then c[q] != ',' && q == e
             else c[q] == ',' && IsRead(ParseItems(strtod, c, q, depth), tail, e, depth + ItemsNesting(tail))
    ensures IsRead(ParseItems(strtod, c, x, depth), Items.Item(head, tail), e,
                   depth + Max(Nesting(head), ItemsNesting(tail)))
  {
    hide ParseValue, Skip, Nesting;
  }

  // A number ends before blanks and before what may follow them.
  lemma EndsNumber(c: bytes, p: nat, blanks: bytes, q: nat)
    requires AreBlanks(blanks) && At(c, p, blanks) && q == p + |blanks| < |c| && c[q] in {',', ']', '}'}
    ensures NumberEnds(c, p) && Skip(c, p) == q
  {
    Blank(c, p, blanks, q);
  }

  // `x` is just before the items, or just before the first one, past its blanks.
  lemma {:induction false} ItemsAreRead(
    strtod: Strtod, c: bytes, x: nat, depth: nat, items: SpelledItems, start: nat, close: byte)
    requires WfSpelledItems(strtod, items) && At(c, start, ItemsTextOf(items)) && depth <= 1000 && x + 1 <= |c|
    requires Has(c, start + |ItemsTextOf(items)|, close) && close in {']', '}'}
    requires Skip(c, x + 1) == start + |items.before| && x < start + |items.before|
    ensures IsRead(ParseItems(strtod, c, x, depth), ItemsOf(items), start + |ItemsTextOf(items)|,
                   depth + ItemsNesting(ItemsOf(items)))
    decreases items, 0
  {
    hide ParseValue, Skip, TextOf, Nesting, At, ParseItems, IsRead, WfSpelling, AreBlanks, ItemsTextOf, ValueOf;
    var v, p, q := ItemsParts(strtod, c, start, items, close);
    EndsNumber(c, p, items.after, q);
    SpellingIsRead(strtod, c, v, depth, items.item);
    var tail := NoItems;
    if items.ItemThen? {
      FirstAt(strtod, c, q + 1, items.rest);
      ItemsAreRead(strtod, c, q, depth, items.rest, q + 1, close);
      tail := ItemsOf(items.rest);
    }
    ItemsStep(strtod, c, x, depth, ValueOf(items.item), tail, p, q, start + |ItemsTextOf(items)|);
  }

  lemma FirstAt(strtod: Strtod, c: bytes, start: nat, items: SpelledItems)
    requires WfSpelledItems(strtod, items) && At(c, start, ItemsTextOf(items))
    ensures var v := start + |items.before|; v < |c| && Skip(c, start) == v && c[v] as int > 32 && c[v] != ']'
  {
    hide At, TextOf, WfSpelling, Skip, AreBlanks, ItemsTextOf, MoreItems;
    Starts(strtod, items.item);
    ItemsTextIs(items);
    AtThree(c, start, items.before, TextOf(items.item), items.after + MoreItems(items));
    AtByte(c, start + |items.before|, TextOf(items.item), 0);
    Blank(c, start, items.before, start + |items.before|);
  }

  lemma {:induction false} ArrayIsRead(strtod: Strtod, c: bytes, o: nat, depth: nat, items: SpelledItems)
    requires WfSpelledItems(strtod, items) && At(c, o, ['['] + ItemsTextOf(items) + [']']) && depth <= 1000
    ensures IsRead(ParseValue(strtod, c, o, depth), Array(ItemsOf(items)), o + |ItemsTextOf(items)| + 2,
                   depth + Nesting(Array(ItemsOf(items))))
    decreases items, 1
  {
    hide WfSpelledItems, At, Skip, ParseItems, IsRead, ItemsTextOf, ItemsOf, ParseArray, ParseValue, Nesting,
      ItemsNesting, AreBlanks, WfSpelling, TextOf;
    Bracketed(c, o, '[', ItemsTextOf(items), ']');
    ParsesAsBracketed(strtod, c, o, depth);
    FirstAt(strtod, c, o + 1, items);
    var p := o + 1 + |items.before|;
    if depth < 1000 {
      FirstIsThere(c, p);
      ItemsAreRead(strtod, c, p - 1, depth + 1, items, o + 1, ']');
    }
    ArrayStep(strtod, c, o, depth, ItemsOf(items), p, o + 1 + |ItemsTextOf(items)|);
  }

  lemma FirstIsThere(c: bytes, p: nat)
    requires p < |c| && c[p] as int > 32
    ensures Skip(c, p) == p
  {
    NotBlank(c, p);
  }

  // parse_object, once its members are read
  lemma ObjectStep(strtod: Strtod, c: bytes, o: nat, depth: nat, ms: Members, p: nat, q: nat)
    requires Has(c, o, '{') && depth <= 1000 && o < p < |c| && Skip(c, o + 1) == p && Has(c, q, '}') && c[p] != '}'
    requires depth < 1000 ==>
      IsRead(ParseMembers(strtod, c, p - 1, depth + 1), ms, q, depth + 1 + MembersNesting(ms))
    ensures IsRead(ParseObject(strtod, c, o, depth), Object(ms), q + 1, depth + Nesting(Object(ms)))
  {
    hide ParseMembers, Skip;
  }

  function AfterName(m: SpelledMember): bytes {
    [':'] + (m.beforeValue + (TextOf(m.value) + m.after))
  }

  lemma MemberTextIs(m: SpelledMember)
    ensures MemberTextOf(m) == m.before + (m.quoted + (m.afterName + AfterName(m)))
    ensures AfterName(m) == [':'] + (m.beforeValue + (TextOf(m.value) + m.after))
    ensures |MemberTextOf(m)| ==
      |m.before| + |m.quoted| + |m.afterName| + 1 + |m.beforeValue| + |TextOf(m.value)| + |m.after|
  {
    hide TextOf;
  }

  // Where the parts of a member are
  lemma MemberParts(strtod: Strtod, c: bytes, start: nat, m: SpelledMember)
    returns (quote: nat, colon: nat, v: nat, p: nat, q: nat)
    requires WfSpelledMember(strtod, m) && At(c, start, MemberTextOf(m))
    ensures quote == start + |m.before| < |c| && At(c, start, m.before) && At(c, quote, m.quoted) && c[quote] == '\"'
    ensures colon == quote + |m.quoted| + |m.afterName| && At(c, quote + |m.quoted|, m.afterName) && Has(c, colon, ':')
    ensures v == colon + 1 + |m.beforeValue| < |c| && At(c, colon + 1, m.beforeValue) && At(c, v, TextOf(m.value))
    ensures c[v] as int > 32 && p == v + |TextOf(m.value)| && q == p + |m.after| && At(c, p, m.after) && v < p
    ensures q == start + |MemberTextOf(m)| <= |c|
  {
    hide At, TextOf, WfSpelling, AreBlanks, ParseString, MemberTextOf;
    MemberTextIs(m);
    Starts(strtod, m.value);
    var t := TextOf(m.value);
    quote := start + |m.before|;
    colon := quote + |m.quoted| + |m.afterName|;
    v := colon + 1 + |m.beforeValue|;
    p := v + |t|;
    q := p + |m.after|;
    AtThree(c, start, m.before, m.quoted, m.afterName + AfterName(m));
    AtThree(c, quote + |m.quoted|, m.afterName, [':'], m.beforeValue + (t + m.after));
    AtThree(c, colon + 1, m.beforeValue, t, m.after);
    AtByte(c, quote, m.quoted, 0);
    AtByte(c, colon, [':'], 0);
    AtByte(c, v, t, 0);
  }

  lemma NameIsRead(c: bytes, x: nat, quote: nat, quoted: bytes, name: bytes, after: bytes)
    requires x + 1 <= quote < |c| && Skip(c, x + 1) == quote && IsQuoted(quoted, name) && At(c, quote, quoted)
    requires At(c, quote + |quoted|, after) && AreBlanks(after) && Has(c, quote + |quoted| + |after|, ':')
    ensures ParseName(c, x) == Parsed(name, quote + |quoted| + |after| + 1)
  {
    hide Skip, At, ParseString, AreBlanks;
    QuotedMoves(c, quote, quoted, name);
    Blank(c, quote + |quoted|, after, quote + |quoted| + |after|);
  }

  // One round of the loop in parse_object
  lemma MembersStep(strtod: Strtod, c: bytes, x: nat, depth: nat, name: bytes, value: Json, next: Members,
                    n: nat, p: nat, q: nat, e: nat)
    requires x < n <= |c| && p <= q < |c| && x < q && ParseName(c, x) == Parsed(name, n) && Skip(c, p) == q
    requires IsRead(ParseValue(strtod, c, Skip(c, n), depth), value, p, depth + Nesting(value)) && depth <= 1000
    requires if next.NoMembers? then c[q] != ',' && q == e
             else c[q] == ',' && IsRead(ParseMembers(strtod, c, q, depth), next, e, depth + MembersNesting(next))
    ensures IsRead(ParseMembers(strtod, c, x, depth), Member(name, value, next), e,
                   depth + MembersNesting(Member(name, value, next)))
  {
    hide ParseValue, ParseName, Skip, Nesting;
  }

  lemma QuoteAt(strtod: Strtod, c: bytes, start: nat, ms: SpelledMembers)
    requires WfSpelledMembers(strtod, ms) && At(c, start, MembersTextOf(ms))
    ensures At(c, start, MemberTextOf(ms.m))
    ensures var quote := start + |ms.m.before|; quote < |c| && Skip(c, start) == quote && c[quote] == '\"'
    ensures ms.MemberThen? ==>
      var q := start + |MemberTextOf(ms.m)|;
      && Has(c, q, ',') && At(c, q + 1, MembersTextOf(ms.rest))
      && q + 1 + |MembersTextOf(ms.rest)| == start + |MembersTextOf(ms)|
  {
    hide At, MemberTextOf, Skip, WfSpelledMember, MembersTextOf;
    MembersTextIs(ms);
    AtBoth(c, start, MemberTextOf(ms.m), MoreMembers(ms));
    if ms.MemberThen? {
      var q := start + |MemberTextOf(ms.m)|;
      AtBoth(c, q, [','], MembersTextOf(ms.rest));
      AtByte(c, q, [','], 0);
    }
    NameAt(strtod, c, start, ms.m);
  }

  lemma NameAt(strtod: Strtod, c: bytes, start: nat, m: SpelledMember)
    requires WfSpelledMember(strtod, m) && At(c, start, MemberTextOf(m))
    ensures var quote := start + |m.before|; quote < |c| && Skip(c, start) == quote && c[quote] == '\"'
  {
    hide At, MemberTextOf, Skip, WfSpelling, AreBlanks, IsQuoted;
    var quote, colon, v, p, q := MemberParts(strtod, c, start, m);
    Blank(c, start, m.before, quote);
  }

  function MoreMembers(ms: SpelledMembers): bytes {
    if ms.MemberThen? then [','] + MembersTextOf(ms.rest) else []
  }

  lemma MembersTextIs(ms: SpelledMembers)
    ensures MembersTextOf(ms) == MemberTextOf(ms.m) + MoreMembers(ms)
    ensures |MembersTextOf(ms)| == |MemberTextOf(ms.m)| + |MoreMembers(ms)|
    ensures |MoreMembers(ms)| == if ms.MemberThen? then 1 + |MembersTextOf(ms.rest)| else 0
  {
    hide MemberTextOf;
  }

  lemma {:induction false} MembersAreRead(
    strtod: Strtod, c: bytes, x: nat, depth: nat, ms: SpelledMembers, start: nat, close: byte)
    requires WfSpelledMembers(strtod, ms) && At(c, start, MembersTextOf(ms)) && depth <= 1000
    requires Has(c, start + |MembersTextOf(ms)|, close) && close in {']', '}'} && x + 1 <= start + |ms.m.before| <= |c|
    requires Skip(c, x + 1) == start + |ms.m.before|
    ensures IsRead(ParseMembers(strtod, c, x, depth), MembersOf(ms), start + |MembersTextOf(ms)|,
                   depth + MembersNesting(MembersOf(ms)))
    decreases ms, 0
  {
    hide ParseValue, Skip, TextOf, Nesting, At, ParseMembers, ParseName, IsRead, WfSpelling, AreBlanks, MembersTextOf,
      MemberTextOf, ValueOf, IsQuoted, WfSpelledMember, MembersNesting, MembersOf, MoreMembers;
    QuoteAt(strtod, c, start, ms);
    MembersTextIs(ms);
    MembersOfIs(ms);
    var n, v, p, q := MemberIsThere(strtod, c, x, start, ms.m);
    ValueIsThere(strtod, c, depth, ms.m, v, p, q);
    var next := NoMembers;
    if ms.MemberThen? {
      QuoteAt(strtod, c, q + 1, ms.rest);
      MembersAreRead(strtod, c, q, depth, ms.rest, q + 1, close);
      MembersOfIs(ms.rest);
      next := MembersOf(ms.rest);
    }
    MembersStep(strtod, c, x, depth, ms.m.name, ValueOf(ms.m.value), next, n, p, q, start + |MembersTextOf(ms)|);
  }

  lemma MembersOfIs(ms: SpelledMembers)
    ensures MembersOf(ms) == Member(ms.m.name, ValueOf(ms.m.value), if ms.LastMember? then NoMembers else MembersOf(ms.rest))
  {
    hide ValueOf;
  }

  lemma ValueIsThere(strtod: Strtod, c: bytes, depth: nat, m: SpelledMember, v: nat, p: nat, q: nat)
    requires WfSpelledMember(strtod, m) && At(c, v, TextOf(m.value)) && p == v + |TextOf(m.value)| && depth <= 1000
    requires At(c, p, m.after) && q == p + |m.after| < |c| && c[q] in {',', ']', '}'}
    ensures Skip(c, p) == q
    ensures IsRead(ParseValue(strtod, c, v, depth), ValueOf(m.value), p, depth + Nesting(ValueOf(m.value)))
    decreases m, 0
  {
    hide ParseValue, Skip, TextOf, Nesting, At, IsRead, WfSpelling, AreBlanks, ValueOf, IsQuoted;
    EndsNumber(c, p, m.after, q);
    SpellingIsRead(strtod, c, v, depth, m.value);
  }

  // A member's name is read, and its value is next.
  lemma MemberIsThere(strtod: Strtod, c: bytes, x: nat, start: nat, m: SpelledMember)
    returns (n: nat, v: nat, p: nat, q: nat)
    requires WfSpelledMember(strtod, m) && At(c, start, MemberTextOf(m))
    requires x + 1 <= start + |m.before| <= |c| && Skip(c, x + 1) == start + |m.before|
    ensures x < n <= |c| && ParseName(c, x) == Parsed(m.name, n) && Skip(c, n) == v && At(c, v, TextOf(m.value))
    ensures p == v + |TextOf(m.value)| && q == p + |m.after| == start + |MemberTextOf(m)| <= |c| && At(c, p, m.after)
    ensures x < v < p
  {
    hide Skip, TextOf, At, ParseName, WfSpelling, AreBlanks, MemberTextOf, IsQuoted;
    var quote, colon;
    quote, colon, v, p, q := MemberParts(strtod, c, start, m);
    n := colon + 1;
    NameIsRead(c, x, quote, m.quoted, m.name, m.afterName);
    Blank(c, n, m.beforeValue, v);
  }

  lemma {:induction false} ObjectIsRead(strtod: Strtod, c: bytes, o: nat, depth: nat, ms: SpelledMembers)
    requires WfSpelledMembers(strtod, ms) && At(c, o, ['{'] + MembersTextOf(ms) + ['}']) && depth <= 1000
    ensures IsRead(ParseValue(strtod, c, o, depth), Object(MembersOf(ms)), o + |MembersTextOf(ms)| + 2,
                   depth + Nesting(Object(MembersOf(ms))))
    decreases ms, 1
  {
    hide WfSpelledMembers, At, Skip, ParseMembers, IsRead, MembersTextOf, MembersOf, ParseObject, MemberTextOf, ParseValue,
      Nesting, MembersNesting, AreBlanks, WfSpelledMember;
    Bracketed(c, o, '{', MembersTextOf(ms), '}');
    ParsesAsBracketed(strtod, c, o, depth);
    QuoteAt(strtod, c, o + 1, ms);
    var p := o + 1 + |ms.m.before|;
    if depth < 1000 {
      FirstIsThere(c, p);
      MembersAreRead(strtod, c, p - 1, depth + 1, ms, o + 1, '}');
    }
    ObjectStep(strtod, c, o, depth, MembersOf(ms), p, o + 1 + |MembersTextOf(ms)|);
  }

  // ----- Brackets that do not match -----

  // A list closed by the other bracket is refused there, whatever its items, unless it is too deep to be opened.
  lemma ItemsInBraces(strtod: Strtod, c: bytes, o: nat, depth: nat, items: SpelledItems)
    requires WfSpelledItems(strtod, items) && At(c, o, ['['] + ItemsTextOf(items) + ['}']) && depth <= 1000
    ensures ParseValue(strtod, c, o, depth).Failed?
    ensures depth + Nesting(Array(ItemsOf(items))) <= 1000 ==>
      ParseValue(strtod, c, o, depth) == Failed(o + 1 + |ItemsTextOf(items)|)
    ensures depth == 1000 ==> ParseValue(strtod, c, o, depth) == Failed(o)
  {
    hide WfSpelledItems, At, Skip, ParseItems, ItemsTextOf, ItemsOf, ParseValue, AreBlanks, WfSpelling, TextOf;
    Bracketed(c, o, '[', ItemsTextOf(items), '}');
    ParsesAsBracketed(strtod, c, o, depth);
    FirstAt(strtod, c, o + 1, items);
    var p := o + 1 + |items.before|;
    if depth < 1000 {
      FirstIsThere(c, p);
      ItemsAreRead(strtod, c, p - 1, depth + 1, items, o + 1, '}');
    }
  }

  lemma MembersInBrackets(strtod: Strtod, c: bytes, o: nat, depth: nat, ms: SpelledMembers)
    requires WfSpelledMembers(strtod, ms) && At(c, o, ['{'] + MembersTextOf(ms) + [']']) && depth <= 1000
    ensures ParseValue(strtod, c, o, depth).Failed?
    ensures depth + Nesting(Object(MembersOf(ms))) <= 1000 ==>
      ParseValue(strtod, c, o, depth) == Failed(o + 1 + |MembersTextOf(ms)|)
    ensures depth == 1000 ==> ParseValue(strtod, c, o, depth) == Failed(o)
  {
    hide WfSpelledMembers, At, Skip, ParseMembers, MembersTextOf, MembersOf, ParseValue, MemberTextOf, WfSpelledMember;
    Bracketed(c, o, '{', MembersTextOf(ms), ']');
    ParsesAsBracketed(strtod, c, o, depth);
    QuoteAt(strtod, c, o + 1, ms);
    var p := o + 1 + |ms.m.before|;
    if depth < 1000 {
      FirstIsThere(c, p);
      MembersAreRead(strtod, c, p - 1, depth + 1, ms, o + 1, ']');
    }
  }
}
