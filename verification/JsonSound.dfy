// Which texts examples/json/cJSON.c reads: whatever it reads is a good spelling of the value it gives back, and a
// whole text is read if and only if it is such a spelling, nested no deeper than 1000.
module JsonSound {
  import opened Bytes
  import opened JsonTree
  import opened JsonParse
  import opened JsonOffsets
  import opened JsonGrammar
  import opened JsonComplete

  // ----- Values -----

  // c goes on at o with a good spelling of j, up to p.
  predicate IsSpelling(strtod: Strtod, c: bytes, o: nat, s: Spelling, j: Json, p: nat) {
    WfSpelling(strtod, s) && At(c, o, TextOf(s)) && p == o + |TextOf(s)| && ValueOf(s) == j
  }

  lemma AtJoined(c: bytes, o: nat, a: bytes, b: bytes)
    requires At(c, o, a) && At(c, o + |a|, b)
    ensures At(c, o, a + b)
  {
    var n := o + |a|;
    assert c[o..n + |b|] == c[o..n] + c[n..n + |b|];
  }

  lemma AtSlice(c: bytes, o: nat, p: nat)
    requires o <= p <= |c|
    ensures At(c, o, c[o..p])
  {
  }

  lemma AtOne(c: bytes, o: nat)
    requires o < |c|
    ensures At(c, o, [c[o]])
  {
  }

  lemma AtNothing(c: bytes, o: nat)
    requires o <= |c|
    ensures At(c, o, [])
  {
  }

  // Blanks are skipped up to a byte that is none.
  lemma Skipped(c: bytes, o: nat)
    requires o <= |c| && Skip(c, o) < |c| && c[Skip(c, o)] as int > 32
    ensures AreBlanks(c[o..Skip(c, o)]) && At(c, o, c[o..Skip(c, o)]) && Skip(c, Skip(c, o)) == Skip(c, o)
    ensures c[Skip(c, o)] in {',', ']', '}', ':'} ==> NumberEnds(c, o)
  {
    hide Skip, At;
    SkipsOnly(c, o);
    AtSlice(c, o, Skip(c, o));
    NotBlank(c, Skip(c, o));
  }

  lemma SkipsOnly(c: bytes, o: nat)
    requires o <= |c| && Skip(c, o) < |c| && c[Skip(c, o)] as int > 32
    ensures forall k | o <= k < Skip(c, o) :: c[k] as int <= 32
    ensures AreBlanks(c[o..Skip(c, o)])
  {
    SkipBlanksOnly(c, o);
  }

  lemma {:induction false} SkipBlanksOnly(c: bytes, o: nat)
    requires o <= |c|
    ensures forall k | o <= k < SkipBlanks(c, o) :: c[k] as int <= 32
    ensures var r := SkipBlanks(c, o); r < |c| ==> c[r] as int > 32
    decreases |c| - o
  {
    if o < |c| && c[o] as int <= 32 {
      SkipBlanksOnly(c, o + 1);
    }
  }

  // What a value that is read starts with
  lemma ParsedStarts(strtod: Strtod, c: bytes, o: nat, depth: nat)
    requires o <= |c| && ParseValue(strtod, c, o, depth).Parsed?
    ensures o < |c| && c[o] as int > 32 && c[o] !in {']', '}'}
    ensures At(c, o, ['n', 'u', 'l', 'l']) || At(c, o, ['f', 'a', 'l', 's', 'e']) || At(c, o, ['t', 'r', 'u', 'e'])
      || c[o] == '\"' || c[o] == '-' || '0' <= c[o] <= '9' || c[o] == '[' || c[o] == '{'
  {
    hide ParseNumber, ParseString, ParseArray, ParseObject, At;
    AtFirst(c, o, ['n', 'u', 'l', 'l']);
    AtFirst(c, o, ['f', 'a', 'l', 's', 'e']);
    AtFirst(c, o, ['t', 'r', 'u', 'e']);
  }

  // Where no value starts, reading fails at once.
  lemma NothingStarts(strtod: Strtod, c: bytes, o: nat, depth: nat)
    requires o <= |c| && !At(c, o, LiteralText(Null)) && !At(c, o, LiteralText(False)) && !At(c, o, LiteralText(True))
    requires o < |c| ==> c[o] as int !in {0x22, 0x2D, 0x5B, 0x7B} && !(0x30 <= c[o] as int <= 0x39)
    ensures ParseValue(strtod, c, o, depth) == Failed(o)
  {
    hide ParseNumber, ParseString, ParseArray, ParseObject, At;
  }

  // A bracket that the text ends in is refused where it stands.
  lemma LoneBracketIsRefused(strtod: Strtod, c: bytes, o: nat, depth: nat)
    requires o + 1 == |c| && c[o] as int in {0x5B, 0x7B}
    ensures ParseValue(strtod, c, o, depth) == Failed(o)
  {
    hide ParseItems, ParseMembers, ParseValue;
    ParsesAsStarted(strtod, c, o, depth);
  }

  lemma AtFirst(c: bytes, o: nat, t: bytes)
    requires t != []
    ensures At(c, o, t) ==> o < |c| && c[o] == t[0]
  {
  }

  lemma {:induction false} ValueIsSpelled(strtod: Strtod, c: bytes, o: nat, depth: nat) returns (s: Spelling)
    requires o <= |c| && depth <= 1000
    requires var r := ParseValue(strtod, c, o, depth); r.Parsed? && (r.value.Number? ==> NumberEnds(c, r.offset))
    ensures var r := ParseValue(strtod, c, o, depth); IsSpelling(strtod, c, o, s, r.value, r.offset)
    decreases |c| - o, 2
  {
    hide ParseValue, ParseNumber, ParseString, ParseArray, ParseObject, At, IsSpelling, NumberEnds;
    ParsedStarts(strtod, c, o, depth);
    ParsesAsStarted(strtod, c, o, depth);
    if At(c, o, ['n', 'u', 'l', 'l']) {
      s := LiteralIsSpelled(strtod, c, o, Null);
    } else if At(c, o, ['f', 'a', 'l', 's', 'e']) {
      s := LiteralIsSpelled(strtod, c, o, False);
    } else if At(c, o, ['t', 'r', 'u', 'e']) {
      s := LiteralIsSpelled(strtod, c, o, True);
    } else if c[o] == '\"' {
      s := StringIsSpelled(strtod, c, o);
    } else if c[o] == '[' {
      s := ArrayIsSpelled(strtod, c, o, depth);
    } else if c[o] == '{' {
      s := ObjectIsSpelled(strtod, c, o, depth);
    } else {
      s := NumberIsSpelled(strtod, c, o);
    }
  }

  lemma LiteralIsSpelled(strtod: Strtod, c: bytes, o: nat, j: Json) returns (s: Spelling)
    requires (j.Null? || j.False? || j.True?) && At(c, o, LiteralText(j))
    ensures IsSpelling(strtod, c, o, s, j, o + |LiteralText(j)|)
  {
    hide At, LiteralText;
    s := Literal(j);
  }

  lemma QuotedIsThere(c: bytes, o: nat)
    requires o < |c| && c[o] == '\"' && ParseString(c, o).Parsed?
    ensures var r := ParseString(c, o); At(c, o, c[o..r.offset]) && IsQuoted(c[o..r.offset], r.value)
  {
    hide At, ParseString;
    var r := ParseString(c, o);
    AtSlice(c, o, r.offset);
    QuotedMoves(c, o, c[o..r.offset], r.value);
  }

  lemma StringIsSpelled(strtod: Strtod, c: bytes, o: nat) returns (s: Spelling)
    requires o < |c| && c[o] == '\"' && ParseString(c, o).Parsed?
    ensures var r := ParseString(c, o); IsSpelling(strtod, c, o, s, String(r.value), r.offset)
  {
    hide At, ParseString, IsQuoted;
    var r := ParseString(c, o);
    QuotedIsThere(c, o);
    s := Quoted(c[o..r.offset], r.value);
  }

  lemma {:induction false} SpanEnds(c: bytes, o: nat, limit: nat)
    requires o <= |c|
    ensures var t := NumberSpan(c, o, limit); At(c, o, t) && |t| <= limit && forall b <- t :: IsNumberByte(b)
    ensures var t := NumberSpan(c, o, limit); |t| == limit || NumberEnds(c, o + |t|)
    decreases limit
  {
    hide IsNumberByte, At;
    if limit > 0 && o < |c| && IsNumberByte(c[o]) {
      SpanEnds(c, o + 1, limit - 1);
      AtOne(c, o);
      AtJoined(c, o, [c[o]], NumberSpan(c, o + 1, limit - 1));
    } else {
      AtNothing(c, o);
    }
  }

  lemma NumberByteAt(c: bytes, o: nat, t: bytes, k: nat)
    requires At(c, o, t) && k < |t| && forall b <- t :: IsNumberByte(b)
    ensures o + k < |c| && IsNumberByte(c[o + k])
  {
    AtByte(c, o, t, k);
    assert t[k] in t;
  }

  lemma NumberIsSpelled(strtod: Strtod, c: bytes, o: nat) returns (s: Spelling)
    requires o < |c| && (c[o] == '-' || '0' <= c[o] <= '9')
    requires var r := ParseNumber(strtod, c, o); r.Parsed? && (r.value.Number? ==> NumberEnds(c, r.offset))
    ensures var r := ParseNumber(strtod, c, o); IsSpelling(strtod, c, o, s, r.value, r.offset)
  {
    hide NumberSpan, IsNumberByte, At;
    var t := NumberSpan(c, o, 63);
    SpanEnds(c, o, 63);
    NumeralBytes(t);
    var (value, length) := strtod(t).value;
    if length < |t| {
      NumberByteAt(c, o, t, length);
    }
    AtByte(c, o, t, 0);
    s := Numeral(t, value);
  }

  // ----- Arrays -----

  lemma SkipTwice(c: bytes, o: nat)
    requires o <= |c|
    ensures Skip(c, Skip(c, o)) == Skip(c, o)
  {
    SkipBlanksOnly(c, o);
  }

  lemma BracketedIsThere(c: bytes, o: nat, body: bytes, q: nat)
    requires o < |c| && At(c, o + 1, body) && q == o + 1 + |body| < |c|
    ensures At(c, o, [c[o]] + body + [c[q]])
  {
    hide At;
    AtOne(c, o);
    AtOne(c, q);
    AtJoined(c, o, [c[o]], body);
    AtJoined(c, o, [c[o]] + body, [c[q]]);
  }

  lemma {:induction false} ArrayIsSpelled(strtod: Strtod, c: bytes, o: nat, depth: nat) returns (s: Spelling)
    requires Has(c, o, '[') && depth <= 1000 && ParseArray(strtod, c, o, depth).Parsed?
    ensures var r := ParseArray(strtod, c, o, depth); IsSpelling(strtod, c, o, s, r.value, r.offset)
    decreases |c| - o, 1
  {
    hide At, Skip, ParseItems, AreBlanks, ItemsTextOf, ItemsOf, WfSpelledItems, MembersTextOf, MembersOf,
      WfSpelledMembers, IsNumeral, IsQuoted, LiteralText;
    var p := Skip(c, o + 1);
    SkipTwice(c, o + 1);
    if Has(c, p, ']') {
      Skipped(c, o + 1);
      s := EmptyArray(c[o + 1..p]);
      BracketedIsThere(c, o, c[o + 1..p], p);
    } else {
      var items := ItemsAreSpelled(strtod, c, p - 1, depth + 1, o + 1);
      BracketedIsThere(c, o, ItemsTextOf(items), ParseItems(strtod, c, p - 1, depth + 1).offset);
      s := FullArray(items);
    }
  }

  // One round of the loop in parse_array that does not fail
  lemma ItemsRound(strtod: Strtod, c: bytes, x: nat, depth: nat) returns (v: nat, p: nat, q: nat)
    requires x < |c| && ParseItems(strtod, c, x, depth).Parsed?
    ensures x < v == Skip(c, x + 1) <= |c| && ParseValue(strtod, c, v, depth).Parsed?
    ensures p == ParseValue(strtod, c, v, depth).offset && q == Skip(c, p) && v < p <= q <= |c|
    ensures var r, head := ParseItems(strtod, c, x, depth), ParseValue(strtod, c, v, depth).value;
      if Has(c, q, ',') then
        var more := ParseItems(strtod, c, q, depth);
        more.Parsed? && r == Parsed(Items.Item(head, more.value), more.offset)
      else r == Parsed(Items.Item(head, NoItems), q)
  {
    hide ParseValue, Skip;
    v := Skip(c, x + 1);
    p := ParseValue(strtod, c, v, depth).offset;
    q := Skip(c, p);
  }

  lemma {:induction false} ItemsAreSpelled(strtod: Strtod, c: bytes, x: nat, depth: nat, start: nat)
    returns (items: SpelledItems)
    requires start <= x + 1 <= |c| && Skip(c, start) == Skip(c, x + 1) && depth <= 1000
    requires var r := ParseItems(strtod, c, x, depth); r.Parsed? && Has(c, r.offset, ']')
    ensures var r := ParseItems(strtod, c, x, depth);
      && WfSpelledItems(strtod, items) && At(c, start, ItemsTextOf(items))
      && r.offset == start + |ItemsTextOf(items)| && r.value == ItemsOf(items)
    decreases |c| - x, 0
  {
    hide At, Skip, ParseItems, ParseValue, AreBlanks, ItemsTextOf, NumberEnds, TextOf, WfSpelling, ValueOf, MoreItems;
    var v, p, q := ItemsRound(strtod, c, x, depth);
    ParsedStarts(strtod, c, v, depth);
    Skipped(c, start);
    Skipped(c, p);
    var item := ValueIsSpelled(strtod, c, v, depth);
    items := LastItem(c[start..v], item, c[p..q]);
    if Has(c, q, ',') {
      var rest := ItemsAreSpelled(strtod, c, q, depth, q + 1);
      items := ItemThen(c[start..v], item, c[p..q], rest);
    }
    ItemsTextIs(items);
    MoreIsThere(c, q, items);
    JoinThree(c, start, items.before, TextOf(item), items.after, MoreItems(items));
  }

  lemma MoreIsThere(c: bytes, q: nat, items: SpelledItems)
    requires q < |c| && (items.ItemThen? ==> c[q] == ',' && At(c, q + 1, ItemsTextOf(items.rest)))
    ensures At(c, q, MoreItems(items))
  {
    hide At, ItemsTextOf;
    if items.ItemThen? {
      AtOne(c, q);
      AtJoined(c, q, [','], ItemsTextOf(items.rest));
    } else {
      AtNothing(c, q);
    }
  }

  lemma JoinThree(c: bytes, o: nat, x: bytes, y: bytes, z: bytes, w: bytes)
    requires At(c, o, x) && At(c, o + |x|, y) && At(c, o + |x| + |y|, z) && At(c, o + |x| + |y| + |z|, w)
    ensures At(c, o, x + (y + (z + w)))
  {
    hide At;
    AtJoined(c, o + |x| + |y|, z, w);
    AtJoined(c, o + |x|, y, z + w);
    AtJoined(c, o, x, y + (z + w));
  }

  // ----- Objects -----

  lemma {:induction false} ObjectIsSpelled(strtod: Strtod, c: bytes, o: nat, depth: nat) returns (s: Spelling)
    requires Has(c, o, '{') && depth <= 1000 && ParseObject(strtod, c, o, depth).Parsed?
    ensures var r := ParseObject(strtod, c, o, depth); IsSpelling(strtod, c, o, s, r.value, r.offset)
    decreases |c| - o, 1
  {
    hide At, Skip, ParseMembers, AreBlanks, MembersTextOf, MembersOf, WfSpelledMembers, ItemsTextOf, ItemsOf,
      WfSpelledItems, IsNumeral, IsQuoted, LiteralText;
    var p := Skip(c, o + 1);
    SkipTwice(c, o + 1);
    if Has(c, p, '}') {
      Skipped(c, o + 1);
      s := EmptyObject(c[o + 1..p]);
      BracketedIsThere(c, o, c[o + 1..p], p);
    } else {
      var members := MembersAreSpelled(strtod, c, p - 1, depth + 1, o + 1);
      BracketedIsThere(c, o, MembersTextOf(members), ParseMembers(strtod, c, p - 1, depth + 1).offset);
      s := FullObject(members);
    }
  }

  lemma NameIsSpelled(c: bytes, x: nat, start: nat) returns (quote: nat, p: nat, colon: nat)
    requires start <= x + 1 <= |c| && Skip(c, start) == Skip(c, x + 1) && x < |c| && ParseName(c, x).Parsed?
    ensures start <= quote == Skip(c, start) < p <= colon < |c| && ParseName(c, x).offset == colon + 1 && x < quote
    ensures AreBlanks(c[start..quote]) && At(c, start, c[start..quote])
    ensures IsQuoted(c[quote..p], ParseName(c, x).value) && At(c, quote, c[quote..p])
    ensures AreBlanks(c[p..colon]) && At(c, p, c[p..colon]) && c[colon] == ':'
  {
    hide At, Skip, ParseString, IsQuoted, AreBlanks;
    quote := Skip(c, start);
    StringStarts(c, quote);
    p := ParseString(c, quote).offset;
    colon := Skip(c, p);
    Skipped(c, start);
    Skipped(c, p);
    QuotedIsThere(c, quote);
  }

  lemma StringStarts(c: bytes, o: nat)
    requires o < |c|
    ensures ParseString(c, o).Parsed? ==> c[o] == '\"'
  {
    hide ClosingQuote, Unescape;
  }

  // One round of the loop in parse_object that does not fail
  lemma MembersRound(strtod: Strtod, c: bytes, x: nat, depth: nat) returns (n: nat, v: nat, p: nat, q: nat)
    requires x < |c| && ParseMembers(strtod, c, x, depth).Parsed?
    ensures ParseName(c, x).Parsed? && x < n == ParseName(c, x).offset <= v == Skip(c, n) <= |c|
    ensures ParseValue(strtod, c, v, depth).Parsed?
    ensures p == ParseValue(strtod, c, v, depth).offset && q == Skip(c, p) && v < p <= q <= |c|
    ensures var r, name := ParseMembers(strtod, c, x, depth), ParseName(c, x).value;
      var value := ParseValue(strtod, c, v, depth).value;
      if Has(c, q, ',') then
        var more := ParseMembers(strtod, c, q, depth);
        more.Parsed? && r == Parsed(Member(name, value, more.value), more.offset)
      else r == Parsed(Member(name, value, NoMembers), q)
  {
    hide ParseValue, Skip, ParseName;
    n := ParseName(c, x).offset;
    v := Skip(c, n);
    p := ParseValue(strtod, c, v, depth).offset;
    q := Skip(c, p);
  }

  lemma {:induction false} MemberIsSpelled(
    strtod: Strtod, c: bytes, x: nat, depth: nat, start: nat, n: nat, v: nat, p: nat, q: nat)
    returns (m: SpelledMember)
    requires start <= x + 1 <= |c| && Skip(c, start) == Skip(c, x + 1) && ParseName(c, x).Parsed? && depth <= 1000
    requires x < n == ParseName(c, x).offset <= v == Skip(c, n) <= |c| && ParseValue(strtod, c, v, depth).Parsed?
    requires p == ParseValue(strtod, c, v, depth).offset && q == Skip(c, p) < |c| && c[q] in {',', '}'}
    ensures WfSpelledMember(strtod, m) && At(c, start, MemberTextOf(m)) && q == start + |MemberTextOf(m)|
    ensures m.name == ParseName(c, x).value && ValueOf(m.value) == ParseValue(strtod, c, v, depth).value
    decreases |c| - x, 0, 0
  {
    hide At, Skip, ParseValue, ParseName, AreBlanks, MemberTextOf, NumberEnds, TextOf, WfSpelling, ValueOf, IsQuoted,
      AfterName;
    var quote, afterQuote, colon := NameIsSpelled(c, x, start);
    ParsedStarts(strtod, c, v, depth);
    Skipped(c, n);
    Skipped(c, p);
    var value := ValueIsSpelled(strtod, c, v, depth);
    m := SpelledMember(c[start..quote], c[quote..afterQuote], ParseName(c, x).value, c[afterQuote..colon],
      c[n..v], value, c[p..q]);
    MemberTextIs(m);
    JoinMember(c, start, m, colon);
  }

  lemma JoinMember(c: bytes, start: nat, m: SpelledMember, colon: nat)
    requires At(c, start, m.before) && At(c, start + |m.before|, m.quoted)
    requires At(c, start + |m.before| + |m.quoted|, m.afterName)
    requires colon == start + |m.before| + |m.quoted| + |m.afterName| && Has(c, colon, ':')
    requires At(c, colon + 1, m.beforeValue) && At(c, colon + 1 + |m.beforeValue|, TextOf(m.value))
    requires At(c, colon + 1 + |m.beforeValue| + |TextOf(m.value)|, m.after)
    ensures At(c, start, MemberTextOf(m))
  {
    hide At, MemberTextOf, TextOf, AfterName;
    MemberTextIs(m);
    AtOne(c, colon);
    JoinThree(c, colon, [':'], m.beforeValue, TextOf(m.value), m.after);
    JoinThree(c, start, m.before, m.quoted, m.afterName, AfterName(m));
  }

  lemma {:induction false} MembersAreSpelled(strtod: Strtod, c: bytes, x: nat, depth: nat, start: nat)
    returns (ms: SpelledMembers)
    requires start <= x + 1 <= |c| && Skip(c, start) == Skip(c, x + 1) && depth <= 1000
    requires var r := ParseMembers(strtod, c, x, depth); r.Parsed? && Has(c, r.offset, '}')
    ensures var r := ParseMembers(strtod, c, x, depth);
      && WfSpelledMembers(strtod, ms) && At(c, start, MembersTextOf(ms))
      && r.offset == start + |MembersTextOf(ms)| && r.value == MembersOf(ms)
    decreases |c| - x, 0, 1
  {
    hide At, Skip, ParseMembers, ParseValue, ParseName, MembersTextOf, MemberTextOf, WfSpelledMember, ValueOf, MoreMembers;
    var n, v, p, q := MembersRound(strtod, c, x, depth);
    var m := MemberIsSpelled(strtod, c, x, depth, start, n, v, p, q);
    ms := LastMember(m);
    if Has(c, q, ',') {
      var rest := MembersAreSpelled(strtod, c, q, depth, q + 1);
      ms := MemberThen(m, rest);
    }
    MembersTextIs(ms);
    MoreMembersAreThere(c, q, ms);
    AtJoined(c, start, MemberTextOf(m), MoreMembers(ms));
  }

  lemma MoreMembersAreThere(c: bytes, q: nat, ms: SpelledMembers)
    requires q < |c| && (ms.MemberThen? ==> c[q] == ',' && At(c, q + 1, MembersTextOf(ms.rest)))
    ensures At(c, q, MoreMembers(ms))
  {
    hide At, MembersTextOf;
    if ms.MemberThen? {
      AtOne(c, q);
      AtJoined(c, q, [','], MembersTextOf(ms.rest));
    } else {
      AtNothing(c, q);
    }
  }
}
