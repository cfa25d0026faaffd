// What examples/json/cJSON.c prints: its layout, and that parsing it gives the tree back.
module JsonRoundTrip {
  import opened Bytes
  import opened JsonTree
  import opened JsonText
  import opened JsonParse
  import opened JsonGrammar
  import opened JsonComplete
  import opened JsonTexts
  import opened JsonScalars

  // ----- The printed spelling -----

  // A new line and its indentation, in formatted output
  function Line(format: bool, d: nat): bytes {
    if format then ['\n'] + Tabs(d) else []
  }

  function Printed(j: Json, d: nat, format: bool): Spelling
    decreases j, 1
  {
    match j
    case Number(value) => Numeral(Decimal(value), value)
    case String(text) => Quoted(Quote(text), text)
    case Array(items) =>
      if items.NoItems? then EmptyArray([]) else FullArray(PrintedItems(items, d + 1, format, []))
    case Object(members) =>
      if members.NoMembers? then EmptyObject(Line(format, d)) else FullObject(PrintedMembers(members, d + 1, format))
    case _ => Literal(j)
  }

  function PrintedItems(items: Items, d: nat, format: bool, before: bytes): SpelledItems
    requires items.Item?
    decreases items, 0
  {
    var item := Printed(items.head, d, format);
    if items.tail.NoItems? then LastItem(before, item, [])
    else ItemThen(before, item, [], PrintedItems(items.tail, d, format, If(format, [' '])))
  }

  function PrintedMember(name: bytes, value: Json, d: nat, format: bool, last: bool): SpelledMember
    decreases value, 2
  {
    SpelledMember(Line(format, d), Quote(name), name, [], If(format, ['\t']), Printed(value, d, format),
                  if last && d > 0 then Line(format, d - 1) else [])
  }

  function PrintedMembers(ms: Members, d: nat, format: bool): SpelledMembers
    requires ms.Member?
    decreases ms, 0
  {
    var m := PrintedMember(ms.name, ms.value, d, format, ms.next.NoMembers?);
    if ms.next.NoMembers? then LastMember(m) else MemberThen(m, PrintedMembers(ms.next, d, format))
  }

  lemma {:induction false} PrintedText(j: Json, d: nat, format: bool)
    ensures TextOf(Printed(j, d, format)) == Text(j, d, format) && ValueOf(Printed(j, d, format)) == j
    decreases j, 1
  {
    hide ItemsText, MembersText, ItemsTextOf, MembersTextOf, PrintedItems, PrintedMembers, Quote, Decimal, ItemsOf,
      MembersOf;
    match j
    case Array(items) => {
      if items.NoItems? {
        NoItemsText(d + 1, format);
      } else {
        PrintedItemsText(items, d + 1, format, []);
      }
    }
    case Object(members) => {
      if members.NoMembers? {
        NoMembersText(d, format);
      } else {
        PrintedMembersText(members, d + 1, format);
        AroundMembers(members, d, format);
      }
    }
    case _ => {}
  }

  lemma NoItemsText(d: nat, format: bool)
    ensures ItemsText(NoItems, d, format) == []
  {
  }

  lemma NoMembersText(d: nat, format: bool)
    ensures Text(Object(NoMembers), d, format) == ['{'] + Line(format, d) + ['}']
  {
  }

  lemma AroundMembers(ms: Members, d: nat, format: bool)
    ensures var body := If(format, ['\n']) + MembersText(ms, d + 1, format) + If(format, Tabs(d));
      Text(Object(ms), d, format) == ['{'] + body + ['}']
  {
    hide MembersText, Tabs;
  }

  lemma {:induction false} PrintedItemsText(items: Items, d: nat, format: bool, before: bytes)
    requires items.Item?
    ensures ItemsTextOf(PrintedItems(items, d, format, before)) == before + ItemsText(items, d, format)
    ensures ItemsOf(PrintedItems(items, d, format, before)) == items
    decreases items, 0
  {
    hide Printed, TextOf, Text, ValueOf;
    PrintedText(items.head, d, format);
    if items.tail.Item? {
      PrintedItemsText(items.tail, d, format, If(format, [' ']));
    }
  }

  lemma {:induction false} PrintedMembersText(ms: Members, d: nat, format: bool)
    requires ms.Member? && d > 0
    ensures MembersTextOf(PrintedMembers(ms, d, format)) ==
      If(format, ['\n']) + MembersText(ms, d, format) + If(format, Tabs(d - 1))
    ensures MembersOf(PrintedMembers(ms, d, format)) == ms
    decreases ms, 0
  {
    hide Printed, TextOf, Text, ValueOf, MemberTextOf, KeyText, If, Tabs, MembersText, MembersTextOf, PrintedMembers,
      PrintedMember, MembersOf;
    var nl, tabs := If(format, ['\n']), If(format, Tabs(d - 1));
    var key, t := KeyText(ms.name, d, format), Text(ms.value, d, format);
    PrintedText(ms.value, d, format);
    PrintedMemberText(ms.name, ms.value, d, format, ms.next.NoMembers?);
    FirstPrinted(ms, d, format);
    FirstText(ms, d, format);
    if ms.next.Member? {
      PrintedMembersText(ms.next, d, format);
      JoinedMembers(nl, key, t, [','], MembersText(ms.next, d, format), tabs);
    } else {
      JoinedMembers(nl, key, t, [], [], tabs);
    }
  }

  lemma FirstPrinted(ms: Members, d: nat, format: bool)
    requires ms.Member? && d > 0
    ensures var m, last := PrintedMember(ms.name, ms.value, d, format, ms.next.NoMembers?), ms.next.NoMembers?;
      && MembersTextOf(PrintedMembers(ms, d, format)) ==
           MemberTextOf(m) + (if last then [] else [','] + MembersTextOf(PrintedMembers(ms.next, d, format)))
      && MembersOf(PrintedMembers(ms, d, format)) ==
           Member(ms.name, ValueOf(m.value), if last then NoMembers else MembersOf(PrintedMembers(ms.next, d, format)))
  {
    hide MemberTextOf, ValueOf;
  }

  lemma FirstText(ms: Members, d: nat, format: bool)
    requires ms.Member?
    ensures MembersText(ms, d, format) ==
      KeyText(ms.name, d, format) + Text(ms.value, d, format)
      + (if ms.next.Member? then [','] else []) + If(format, ['\n']) + MembersText(ms.next, d, format)
    ensures ms.next.NoMembers? ==> MembersText(ms.next, d, format) == []
  {
    hide KeyText, Text;
  }

  lemma JoinedMembers(nl: bytes, key: bytes, t: bytes, comma: bytes, rest: bytes, tabs: bytes)
    ensures nl + (key + t) + (comma + (nl + rest + tabs)) == nl + (key + t + comma + nl + rest) + tabs
    ensures comma == [] && rest == [] ==> nl + (key + t) + (nl + tabs) + [] == nl + (key + t + comma + nl + rest) + tabs
  {
  }

  lemma PrintedMemberText(name: bytes, value: Json, d: nat, format: bool, last: bool)
    requires d > 0 && TextOf(Printed(value, d, format)) == Text(value, d, format)
    ensures MemberTextOf(PrintedMember(name, value, d, format, last)) ==
      If(format, ['\n']) + (KeyText(name, d, format) + Text(value, d, format))
      + if last then If(format, ['\n']) + If(format, Tabs(d - 1)) else []
    ensures ValueOf(PrintedMember(name, value, d, format, last).value) == ValueOf(Printed(value, d, format))
  {
    hide Text, TextOf, Printed, Quote, Tabs, ValueOf;
  }

  // ----- Layout -----

  // No blanks anywhere
  predicate IsCompact(s: Spelling) {
    match s
    case EmptyArray(blanks) => blanks == []
    case FullArray(items) => AreCompactItems(items)
    case EmptyObject(blanks) => blanks == []
    case FullObject(members) => AreCompactMembers(members)
    case _ => true
  }

  predicate AreCompactItems(items: SpelledItems) {
    && items.before == [] && IsCompact(items.item) && items.after == []
    && (items.ItemThen? ==> AreCompactItems(items.rest))
  }

  predicate AreCompactMembers(ms: SpelledMembers) {
    && ms.m.before == [] && ms.m.afterName == [] && ms.m.beforeValue == [] && IsCompact(ms.m.value) && ms.m.after == []
    && (ms.MemberThen? ==> AreCompactMembers(ms.rest))
  }

  // A new line and d tabs
  predicate IsLine(s: bytes, d: nat) {
    |s| == d + 1 && s[0] as int == 0x0A && forall k | 0 < k <= d :: s[k] as int == 0x09
  }

  // Items on one line with a blank after each comma; members on lines of their own, with as many tabs as there are
  // open brackets, and a tab after each colon
  predicate IsIndented(s: Spelling, d: nat) {
    match s
    case EmptyArray(blanks) => blanks == []
    case FullArray(items) => items.before == [] && AreIndentedItems(items, d + 1)
    case EmptyObject(blanks) => IsLine(blanks, d)
    case FullObject(members) => AreIndentedMembers(members, d + 1)
    case _ => true
  }

  predicate AreIndentedItems(items: SpelledItems, d: nat) {
    && IsIndented(items.item, d) && items.after == []
    && (items.ItemThen? ==> items.rest.before == [0x20 as char] && AreIndentedItems(items.rest, d))
  }

  predicate AreIndentedMembers(ms: SpelledMembers, d: nat)
    requires d > 0
  {
    && IsLine(ms.m.before, d) && ms.m.afterName == [] && ms.m.beforeValue == [0x09 as char]
    && IsIndented(ms.m.value, d)
    && (if ms.LastMember? then IsLine(ms.m.after, d - 1) else ms.m.after == [] && AreIndentedMembers(ms.rest, d))
  }

  // Unformatted output has no blanks; formatted output is indented by depth.
  lemma {:induction false} PrintedLayout(j: Json, d: nat)
    ensures IsCompact(Printed(j, d, false)) && IsIndented(Printed(j, d, true), d)
    decreases j, 1
  {
    hide Quote, Decimal, IsLine, PrintedItems, PrintedMembers, AreIndentedItems, AreIndentedMembers;
    match j
    case Array(items) => {
      if items.Item? {
        PrintedItemsLayout(items, d + 1, []);
      }
    }
    case Object(members) => {
      LineIs(d);
      if members.Member? {
        PrintedMembersLayout(members, d + 1);
      }
    }
    case _ => {}
  }

  lemma LineIs(d: nat)
    ensures IsLine(Line(true, d), d) && Line(false, d) == []
  {
  }

  lemma {:induction false} PrintedItemsLayout(items: Items, d: nat, before: bytes)
    requires items.Item?
    ensures var printed := PrintedItems(items, d, true, before); printed.before == before && AreIndentedItems(printed, d)
    ensures AreCompactItems(PrintedItems(items, d, false, []))
    decreases items, 0
  {
    hide Printed;
    PrintedLayout(items.head, d);
    if items.tail.Item? {
      PrintedItemsLayout(items.tail, d, [' ']);
    }
  }

  lemma {:induction false} PrintedMembersLayout(ms: Members, d: nat)
    requires ms.Member? && d > 0
    ensures AreIndentedMembers(PrintedMembers(ms, d, true), d) && AreCompactMembers(PrintedMembers(ms, d, false))
    decreases ms, 0
  {
    hide Printed, Quote, IsLine, Line;
    PrintedLayout(ms.value, d);
    LineIs(d);
    LineIs(d - 1);
    if ms.next.Member? {
      PrintedMembersLayout(ms.next, d);
    }
  }

  // ----- Round trip -----

  lemma {:induction false} PrintedIsGood(strtod: Strtod, j: Json, d: nat, format: bool)
    requires Wf(j) && ReadsIntegers(strtod)
    ensures WfSpelling(strtod, Printed(j, d, format))
    decreases j, 1
  {
    hide Quote, Decimal, IsNumeral, IsQuoted, ReadsIntegers, PrintedItems, PrintedMembers, WfSpelledItems, WfSpelledMembers;
    match j
    case Number(n) => {
      DecimalIsNumeral(strtod, n);
    }
    case String(s) => {
      QuoteIsQuoted(s);
    }
    case Array(items) => {
      if items.Item? {
        PrintedItemsAreGood(strtod, items, d + 1, format, []);
      }
    }
    case Object(members) => {
      if members.Member? {
        PrintedMembersAreGood(strtod, members, d + 1, format);
      }
    }
    case _ => {}
  }

  lemma {:induction false} PrintedItemsAreGood(strtod: Strtod, items: Items, d: nat, format: bool, before: bytes)
    requires items.Item? && WfItems(items) && ReadsIntegers(strtod) && AreBlanks(before)
    ensures WfSpelledItems(strtod, PrintedItems(items, d, format, before))
    decreases items, 0
  {
    hide Printed, WfSpelling, ReadsIntegers, Wf;
    PrintedIsGood(strtod, items.head, d, format);
    if items.tail.Item? {
      PrintedItemsAreGood(strtod, items.tail, d, format, If(format, [' ']));
    }
  }

  lemma {:induction false} PrintedMembersAreGood(strtod: Strtod, ms: Members, d: nat, format: bool)
    requires ms.Member? && WfMembers(ms) && ReadsIntegers(strtod) && d > 0
    ensures WfSpelledMembers(strtod, PrintedMembers(ms, d, format))
    decreases ms, 0
  {
    hide Printed, WfSpelling, ReadsIntegers, Wf, Quote, IsQuoted;
    PrintedIsGood(strtod, ms.value, d, format);
    QuoteIsQuoted(ms.name);
    if ms.next.Member? {
      PrintedMembersAreGood(strtod, ms.next, d, format);
    }
  }

  // A printed text is read back, with its terminating NUL or without.
  lemma PrintedIsRead(strtod: Strtod, j: Json, format: bool, after: bytes)
    requires Wf(j) && ReadsIntegers(strtod) && after in {[], ['\0']}
    ensures var t := Text(j, 0, format); IsRead(ParseText(strtod, t + after, false), j, |t|, Nesting(j))
    ensures after != [] ==>
      var t := Text(j, 0, format); IsRead(ParseText(strtod, t + after, true), j, |t|, Nesting(j))
  {
    hide Text, Nesting, ParseText, ReadsIntegers, Printed, WfSpelling, Wf, TextOf, ValueOf;
    PrintedText(j, 0, format);
    PrintedIsGood(strtod, j, 0, format);
    var t, d := Text(j, 0, format), Document(false, [], Printed(j, 0, format), after);
    assert DocumentText(d) == t + after;
    var p := GoodIsRead(strtod, d, t + after);
  }

  // The nesting limit is the only thing that keeps a printed tree from being read back.
  lemma RoundTrip(strtod: Strtod, j: Json, format: bool)
    requires Wf(j) && ReadsIntegers(strtod)
    ensures var t := Text(j, 0, format);
      forall terminated :: IsRead(ParseText(strtod, t + ['\0'], terminated), j, |t|, Nesting(j))
    ensures var t := Text(j, 0, format); IsRead(ParseText(strtod, t, false), j, |t|, Nesting(j))
  {
    hide Text, Nesting, ParseText, ReadsIntegers, Wf, IsRead;
    PrintedIsRead(strtod, j, format, []);
    PrintedIsRead(strtod, j, format, ['\0']);
    assert Text(j, 0, format) + [] == Text(j, 0, format);
  }
}
