// Whole JSON texts: which of them examples/json/cJSON.c reads, and as what.
module JsonTexts {
  import opened Bytes
  import opened JsonTree
  import opened JsonParse
  import opened JsonOffsets
  import opened JsonGrammar
  import opened JsonComplete
  import opened JsonSound

  // A value, with or without a byte order mark before it, and what follows it
  datatype Document = Document(marked: bool, before: bytes, value: Spelling, after: bytes)

  function MarkText(marked: bool): bytes {
    if marked then [0xEF as char, 0xBB as char, 0xBF as char] else []
  }

  function DocumentText(d: Document): bytes {
    MarkText(d.marked) + (d.before + (TextOf(d.value) + d.after))
  }

  // Where the value ends
  function ValueEnd(d: Document): nat {
    |MarkText(d.marked)| + |d.before| + |TextOf(d.value)|
  }

  // A good spelling behind blanks
  predicate IsGood(strtod: Strtod, d: Document) {
    AreBlanks(d.before) && WfSpelling(strtod, d.value)
  }

  // One that is nested no deeper than 1000
  predicate IsShallow(strtod: Strtod, d: Document) {
    IsGood(strtod, d) && Nesting(ValueOf(d.value)) <= 1000
  }

  // Blanks, the last of them a NUL
  predicate IsTerminator(s: bytes) {
    s != [] && AreBlanks(s) && s[|s| - 1] as int == 0
  }

  // Such a value ends where it is written to end.
  predicate EndsValue(s: Spelling, after: bytes) {
    s.Numeral? && after != [] ==> !IsNumeralByte(after[0])
  }

  // A text that is read up to its terminating NUL
  predicate IsWhole(strtod: Strtod, d: Document, c: bytes) {
    IsShallow(strtod, d) && c == DocumentText(d) && IsTerminator(d.after)
  }

  // A text that starts with a value. A byte order mark before the last byte of a text is not skipped.
  predicate IsPrefixed(strtod: Strtod, d: Document, c: bytes) {
    && IsShallow(strtod, d) && c == DocumentText(d) && EndsValue(d.value, d.after)
    && (d.marked ==> |d.before + (TextOf(d.value) + d.after)| > 1)
  }

  // The bytes that the library hands to strtod for a number that starts `text`: as many number bytes as there are, 63 at
  // most
  predicate IsRun(text: bytes, after: bytes, run: bytes) {
    && run <= after && |text + run| <= 63 && (forall b <- text + run :: IsNumeralByte(b))
    && (|text + run| == 63 || run == after || !IsNumeralByte(after[|run|]))
  }

  // A text that starts with a number, of whose bytes strtod may leave some
  ghost predicate IsNumberPrefixed(strtod: Strtod, d: Document, c: bytes) {
    && AreBlanks(d.before) && c == DocumentText(d) && d.value.Numeral?
    && (d.marked ==> |d.before + (TextOf(d.value) + d.after)| > 1)
    && (exists run :: IsRun(d.value.text, d.after, run) && strtod(d.value.text + run) == Some((d.value.number, |d.value.text|)))
    && d.value.text != [] && (d.value.text[0] as int == 0x2D || 0x30 <= d.value.text[0] as int <= 0x39)
  }

  // ----- Good texts are read -----

  // Where the value is
  lemma DocumentParts(d: Document, c: bytes) returns (o: nat, v: nat, p: nat)
    requires AreBlanks(d.before) && c == DocumentText(d) && (d.marked ==> |c| > 4)
    requires var t := TextOf(d.value); t != [] && 32 < t[0] as int < 0x80
    ensures o == SkipBom(c) && o <= v < p <= |c| && v == Skip(c, o) && p == ValueEnd(d) == v + |TextOf(d.value)|
    ensures At(c, v, TextOf(d.value)) && At(c, p, d.after) && |c| == p + |d.after|
  {
    hide At, TextOf, WfSpelling, AreBlanks, Skip, SkipBom, MarkText, DocumentText, BlankUpTo;
    DocumentTextIs(d);
    var t := TextOf(d.value);
    o := |MarkText(d.marked)|;
    v := o + |d.before|;
    p := v + |t|;
    AtAll(c);
    AtBoth(c, 0, MarkText(d.marked), d.before + (t + d.after));
    AtThree(c, o, d.before, t, d.after);
    AtByte(c, v, t, 0);
    Blank(c, o, d.before, v);
    Marked(c, d.marked, o, v);
  }

  lemma DocumentTextIs(d: Document)
    ensures DocumentText(d) == MarkText(d.marked) + (d.before + (TextOf(d.value) + d.after))
    ensures |DocumentText(d)| == ValueEnd(d) + |d.after|
  {
    hide MarkText, TextOf;
  }

  lemma AtAll(c: bytes)
    ensures At(c, 0, c)
  {
  }

  lemma Marked(c: bytes, marked: bool, o: nat, v: nat)
    requires At(c, 0, MarkText(marked)) && o == |MarkText(marked)| && (marked ==> |c| > 4)
    requires BlankUpTo(c, o, v) && c[v] as int < 0x80
    ensures SkipBom(c) == o
  {
    hide At;
    AtFirst(c, 0, ['\U{EF}', '\U{BB}', '\U{BF}']);
  }

  // A good spelling is read, unless it is nested deeper than 1000.
  lemma GoodIsRead(strtod: Strtod, d: Document, c: bytes) returns (p: nat)
    requires IsGood(strtod, d) && c == DocumentText(d) && (d.marked ==> |c| > 4) && EndsValue(d.value, d.after)
    ensures p == ValueEnd(d) <= |c| == p + |d.after| && At(c, p, d.after)
    ensures IsRead(ParseText(strtod, c, false), ValueOf(d.value), p, Nesting(ValueOf(d.value)))
    ensures ParseText(strtod, c, true) ==
      if ParseText(strtod, c, false).Failed? then ParseText(strtod, c, false)
      else if Has(c, Skip(c, p), '\0') then Parsed(ValueOf(d.value), Skip(c, p)) else Failed(Skip(c, p))
  {
    hide At, TextOf, WfSpelling, AreBlanks, Skip, SkipBom, DocumentText, ParseValue, Nesting, ValueOf;
    var o, v;
    Starts(strtod, d.value);
    o, v, p := DocumentParts(d, c);
    if d.value.Numeral? && d.after != [] {
      AtByte(c, p, d.after, 0);
    }
    SpellingIsRead(strtod, c, v, 0, d.value);
  }

  lemma PrefixedIsRead(strtod: Strtod, d: Document, c: bytes)
    requires IsPrefixed(strtod, d, c)
    ensures ParseText(strtod, c, false) == Parsed(ValueOf(d.value), ValueEnd(d))
  {
    hide TextOf, WfSpelling, AreBlanks, ParseText, Nesting, ValueOf;
    var p := GoodIsRead(strtod, d, c);
  }

  lemma WholeIsRead(strtod: Strtod, d: Document, c: bytes)
    requires IsWhole(strtod, d, c)
    ensures ParseText(strtod, c, true) == Parsed(ValueOf(d.value), |c| - 1)
  {
    hide TextOf, WfSpelling, ParseText, Nesting, ValueOf, Skip, At;
    Starts(strtod, d.value);
    assert d.after[0] in d.after;
    var p := GoodIsRead(strtod, d, c);
    AtByte(c, p, d.after, |d.after| - 1);
    forall k | p <= k < |c|
      ensures c[k] as int <= 32
    {
      AtByte(c, p, d.after, k - p);
      assert d.after[k - p] in d.after;
    }
    StepsBack(c, p);
  }

  // However it is spelled, and whatever follows it, a value nested deeper than 1000 is refused.
  lemma DeepIsRefused(strtod: Strtod, d: Document, terminated: bool)
    requires IsGood(strtod, d) && EndsValue(d.value, d.after) && Nesting(ValueOf(d.value)) > 1000
    ensures ParseText(strtod, DocumentText(d), terminated).Failed?
  {
    hide WfSpelling, ParseText, Nesting, ValueOf, Skip, At, AreBlanks;
    if d.marked {
      DeepIsLong(strtod, d.value);
    }
    var p := GoodIsRead(strtod, d, DocumentText(d));
  }

  lemma DeepIsLong(strtod: Strtod, s: Spelling)
    requires WfSpelling(strtod, s) && Nesting(ValueOf(s)) > 0
    ensures |TextOf(s)| >= 2
  {
    hide ItemsTextOf, MembersTextOf, IsQuoted, IsNumeral, WfSpelledItems, WfSpelledMembers;
  }

  lemma StepsBack(c: bytes, p: nat)
    requires p < |c| && forall k | p <= k < |c| :: c[k] as int <= 32
    ensures Skip(c, p) == |c| - 1
  {
    SkipBlanksOnly(c, p);
  }

  lemma NumeralIsNumber(strtod: Strtod, s: Spelling)
    requires WfSpelling(strtod, s)
    ensures ValueOf(s).Number? <==> s.Numeral?
  {
    hide IsNumeral, IsQuoted, WfSpelledItems, WfSpelledMembers, AreBlanks;
  }

  // ----- Texts that are read are good -----

  lemma ReadIsShallow(strtod: Strtod, c: bytes) returns (d: Document, p: nat)
    requires var r := ParseText(strtod, c, false); r.Parsed? && (r.value.Number? ==> NumberEnds(c, r.offset))
    ensures IsShallow(strtod, d) && c == DocumentText(d) && (d.marked ==> |c| > 4) && EndsValue(d.value, d.after)
    ensures p == ValueEnd(d) <= |c| && d.after == c[p..] && ParseText(strtod, c, false) == Parsed(ValueOf(d.value), p)
  {
    hide TextOf, WfSpelling, AreBlanks, ParseValue, Nesting, ValueOf, Skip, SkipBom, At, DocumentText, NumberEnds, EndsValue;
    var o := SkipBom(c);
    var v := Skip(c, o);
    ParsedStarts(strtod, c, v, 0);
    Skipped(c, o);
    var s := ValueIsSpelled(strtod, c, v, 0);
    NumeralIsNumber(strtod, s);
    p := v + |TextOf(s)|;
    SpellingIsRead(strtod, c, v, 0, s);
    d := Document(o == 3, c[o..v], s, c[p..]);
    AtIs(c, v, TextOf(s));
    CutIsText(c, o, v, p, d);
    EndsAlike(c, p, s);
  }

  lemma CutIsText(c: bytes, o: nat, v: nat, p: nat, d: Document)
    requires o == SkipBom(c) <= v <= p <= |c|
    requires d.marked == (o == 3) && d.before == c[o..v] && TextOf(d.value) == c[v..p] && d.after == c[p..]
    ensures c == DocumentText(d) && p == ValueEnd(d) && (d.marked ==> |c| > 4)
  {
    hide TextOf, SkipBom;
    MarkIs(c);
    assert c == c[..o] + (c[o..v] + (c[v..p] + c[p..]));
  }

  lemma EndsAlike(c: bytes, p: nat, s: Spelling)
    requires p <= |c| && (s.Numeral? ==> NumberEnds(c, p))
    ensures EndsValue(s, c[p..])
  {
  }

  lemma AtIs(c: bytes, o: nat, t: bytes)
    requires At(c, o, t)
    ensures o + |t| <= |c| && c[o..o + |t|] == t
  {
  }

  lemma MarkIs(c: bytes)
    ensures SkipBom(c) in {0, 3} && c[..SkipBom(c)] == MarkText(SkipBom(c) == 3)
    ensures SkipBom(c) == 3 ==> |c| > 4
  {
  }

  lemma ReadIsWhole(strtod: Strtod, c: bytes) returns (d: Document)
    requires ParseText(strtod, c, true).Parsed?
    ensures IsWhole(strtod, d, c)
  {
    hide TextOf, WfSpelling, ParseValue, Nesting, ValueOf, SkipBom, DocumentText, Skip;
    var p := ParseText(strtod, c, false).offset;
    NulEnds(c, p);
    var end;
    d, end := ReadIsShallow(strtod, c);
    assert c[p..][|c| - p - 1] == c[|c| - 1];
  }

  // A NUL is a blank itself, so only the last byte can be the terminating one.
  lemma NulEnds(c: bytes, p: nat)
    requires p <= |c| && Has(c, Skip(c, p), '\0')
    ensures p < |c| && c[|c| - 1] == '\0' && AreBlanks(c[p..]) && NumberEnds(c, p)
  {
    SkipBlanksOnly(c, p);
  }

  // ----- Which texts are read -----

  ghost predicate IsWholeText(strtod: Strtod, c: bytes) {
    exists d :: IsWhole(strtod, d, c)
  }

  ghost predicate IsPrefixedText(strtod: Strtod, c: bytes) {
    exists d :: IsPrefixed(strtod, d, c) || IsNumberPrefixed(strtod, d, c)
  }

  // A text with a terminating NUL is read if and only if it is a value nested no deeper than 1000 among blanks, behind
  // a byte order mark or none; and then it is read as that value.
  lemma ReadsWholeTexts(strtod: Strtod, c: bytes)
    ensures ParseText(strtod, c, true).Parsed? <==> IsWholeText(strtod, c)
    ensures forall d | IsWhole(strtod, d, c) :: ParseText(strtod, c, true) == Parsed(ValueOf(d.value), |c| - 1)
  {
    hide IsShallow, ParseText, ValueOf, TextOf;
    forall d | IsWhole(strtod, d, c)
      ensures ParseText(strtod, c, true) == Parsed(ValueOf(d.value), |c| - 1)
    {
      WholeIsRead(strtod, d, c);
    }
    if ParseText(strtod, c, true).Parsed? {
      var d := ReadIsWhole(strtod, c);
    }
  }

  // Without that, a text is read if and only if it starts with such a value; of a number, strtod decides how much it is.
  lemma ReadsPrefixes(strtod: Strtod, c: bytes)
    ensures ParseText(strtod, c, false).Parsed? <==> IsPrefixedText(strtod, c)
    ensures forall d | IsPrefixed(strtod, d, c) || IsNumberPrefixed(strtod, d, c) ::
      ParseText(strtod, c, false) == Parsed(ValueOf(d.value), ValueEnd(d))
  {
    hide IsPrefixed, IsNumberPrefixed, ParseText, ValueOf, NumberEnds;
    forall d | IsPrefixed(strtod, d, c) || IsNumberPrefixed(strtod, d, c)
      ensures ParseText(strtod, c, false) == Parsed(ValueOf(d.value), ValueEnd(d))
    {
      if IsPrefixed(strtod, d, c) {
        PrefixedIsRead(strtod, d, c);
      } else {
        NumberIsTaken(strtod, d, c);
      }
    }
    var r := ParseText(strtod, c, false);
    if r.Parsed? {
      if r.value.Number? {
        var d := TakenIsNumber(strtod, c);
      } else {
        var d, p := ReadIsShallow(strtod, c);
        ShallowIsPrefixed(strtod, d, c);
      }
    }
  }

  lemma NumberIsTaken(strtod: Strtod, d: Document, c: bytes)
    requires IsNumberPrefixed(strtod, d, c)
    ensures ParseText(strtod, c, false) == Parsed(ValueOf(d.value), ValueEnd(d))
  {
    hide At, AreBlanks, Skip, SkipBom, DocumentText, ParseValue, NumberSpan, IsRun;
    var text := d.value.text;
    var run :| IsRun(text, d.after, run) && strtod(text + run) == Some((d.value.number, |text|));
    MarkedIsLong(d);
    var o, v, p := DocumentParts(d, c);
    ParsesAsStarted(strtod, c, v, 0);
    AtByte(c, v, text, 0);
    RunIsSpan(c, v, text, d.after, run);
  }

  lemma TakenIsNumber(strtod: Strtod, c: bytes) returns (d: Document)
    requires var r := ParseText(strtod, c, false); r.Parsed? && r.value.Number?
    ensures IsNumberPrefixed(strtod, d, c)
  {
    hide At, AreBlanks, Skip, SkipBom, DocumentText, ParseValue, NumberSpan, IsRun, IsNumberPrefixed, IsNumberByte;
    var o := SkipBom(c);
    var v := Skip(c, o);
    NumberStarts(strtod, c, v);
    Skipped(c, o);
    var t := NumberSpan(c, v, 63);
    var (number, length) := strtod(t).value;
    SpanEnds(c, v, 63);
    AtByte(c, v, t, 0);
    SpanIsRun(c, v, t, length);
    d := Document(o == 3, c[o..v], Numeral(t[..length], number), c[v + length..]);
    CutIsText(c, o, v, v + length, d);
    IsTaken(strtod, d, c, t, length);
  }

  lemma IsTaken(strtod: Strtod, d: Document, c: bytes, t: bytes, length: nat)
    requires 0 < length <= |t| && d.value.Numeral? && d.value.text == t[..length]
    requires strtod(t) == Some((d.value.number, length)) && IsRun(t[..length], d.after, t[length..])
    requires AreBlanks(d.before) && c == DocumentText(d) && (d.marked ==> |c| > 4)
    requires t[0] == '-' || '0' <= t[0] <= '9'
    ensures IsNumberPrefixed(strtod, d, c)
  {
    hide AreBlanks, IsRun, DocumentText;
    LongIsMarked(d, c);
    assert t == t[..length] + t[length..];
  }

  lemma LongIsMarked(d: Document, c: bytes)
    requires c == DocumentText(d) && (d.marked ==> |c| > 4)
    ensures d.marked ==> |d.before + (TextOf(d.value) + d.after)| > 1
  {
    hide TextOf;
  }

  // Only a number is read as one.
  lemma NumberStarts(strtod: Strtod, c: bytes, o: nat)
    requires o <= |c| && ParseValue(strtod, c, o, 0).Parsed? && ParseValue(strtod, c, o, 0).value.Number?
    ensures o < |c| && (c[o] == '-' || '0' <= c[o] <= '9')
    ensures ParseValue(strtod, c, o, 0) == ParseNumber(strtod, c, o)
  {
    hide ParseNumber, ParseString, ParseItems, ParseMembers, At, Skip;
  }

  lemma SpanIsRun(c: bytes, v: nat, t: bytes, length: nat)
    requires At(c, v, t) && length <= |t| <= 63 && (forall b <- t :: IsNumberByte(b))
    requires |t| == 63 || NumberEnds(c, v + |t|)
    ensures v + length <= |c| && IsRun(t[..length], c[v + length..], t[length..]) && c[v..v + length] == t[..length]
  {
    hide IsNumberByte, IsNumeralByte;
    assert c[v..v + length] == c[v..v + |t|][..length];
    NumeralBytes(t);
    assert t[..length] + t[length..] == t;
    assert c[v + length..][..|t| - length] == c[v..v + |t|][length..];
    if v + |t| < |c| {
      assert c[v + length..][|t| - length] == c[v + |t|];
      NumeralBytes([c[v + |t|]]);
      assert c[v + |t|] in [c[v + |t|]];
    }
  }

  lemma MarkedIsLong(d: Document)
    requires d.marked ==> |d.before + (TextOf(d.value) + d.after)| > 1
    ensures d.marked ==> |DocumentText(d)| > 4
  {
    hide TextOf;
  }

  lemma RunIsSpan(c: bytes, v: nat, text: bytes, after: bytes, run: bytes)
    requires At(c, v, text) && At(c, v + |text|, after) && v + |text| + |after| == |c| && IsRun(text, after, run)
    ensures NumberSpan(c, v, 63) == text + run
  {
    hide At, IsNumeralByte, IsNumberByte, NumberSpan;
    NumeralBytes(text + run);
    assert after == run + after[|run|..];
    AtBoth(c, v + |text|, run, after[|run|..]);
    AtJoined(c, v, text, run);
    if |run| < |after| {
      AtByte(c, v + |text|, after, |run|);
      NumeralBytes([after[|run|]]);
      assert after[|run|] in [after[|run|]];
    }
    SpanIs(c, v, text + run, 63);
  }

  lemma ShallowIsPrefixed(strtod: Strtod, d: Document, c: bytes)
    requires IsShallow(strtod, d) && c == DocumentText(d) && (d.marked ==> |c| > 4) && EndsValue(d.value, d.after)
    ensures IsPrefixed(strtod, d, c)
  {
    hide TextOf, WfSpelling, AreBlanks, Nesting, ValueOf;
  }

  // A text whose brackets do not match is refused, whatever is between them and behind them, and that is at the second
  // one if nothing is nested too deep.
  lemma ListInBracesIsRefused(strtod: Strtod, items: SpelledItems, after: bytes, terminated: bool)
    requires WfSpelledItems(strtod, items)
    ensures var r := ParseText(strtod, (['['] + ItemsTextOf(items) + ['}']) + after, terminated);
      r.Failed? && (Nesting(Array(ItemsOf(items))) <= 1000 ==> r.offset == 1 + |ItemsTextOf(items)|)
  {
    hide WfSpelledItems, ItemsTextOf, ParseText, Nesting, ItemsOf;
    var t := ['['] + ItemsTextOf(items) + ['}'];
    TextStarts(strtod, t, after, terminated);
    ItemsInBraces(strtod, t + after, 0, 0, items);
  }

  lemma ObjectInBracketsIsRefused(strtod: Strtod, ms: SpelledMembers, after: bytes, terminated: bool)
    requires WfSpelledMembers(strtod, ms)
    ensures var r := ParseText(strtod, (['{'] + MembersTextOf(ms) + [']']) + after, terminated);
      r.Failed? && (Nesting(Object(MembersOf(ms))) <= 1000 ==> r.offset == 1 + |MembersTextOf(ms)|)
  {
    hide WfSpelledMembers, MembersTextOf, ParseText, Nesting, MembersOf;
    var t := ['{'] + MembersTextOf(ms) + [']'];
    TextStarts(strtod, t, after, terminated);
    MembersInBrackets(strtod, t + after, 0, 0, ms);
  }

  lemma TextStarts(strtod: Strtod, t: bytes, after: bytes, terminated: bool)
    requires t != [] && 32 < t[0] as int < 0x80
    ensures var c := t + after;
      && At(c, 0, t)
      && (ParseValue(strtod, c, 0, 0).Failed? ==> ParseText(strtod, c, terminated) == ParseValue(strtod, c, 0, 0))
  {
    hide ParseValue;
    var c := t + after;
    NotBlank(c, 0);
    AtFirst(c, 0, ['\U{EF}', '\U{BB}', '\U{BF}']);
    assert c[0..|t|] == t;
  }
}
