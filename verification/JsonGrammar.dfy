// JSON texts as examples/json/cJSON.c takes them: any spelling of the values, and any blanks between them.
module JsonGrammar {
  import opened Bytes
  import opened JsonTree
  import opened JsonParse

  // ----- Spelled values -----

  datatype Spelling =
    | Literal(j: Json)                          // null, false or true
    | Numeral(text: bytes, number: int)
    | Quoted(text: bytes, value: bytes)         // a string, with its quotes
    | EmptyArray(blanks: bytes)
    | FullArray(items: SpelledItems)
    | EmptyObject(blanks: bytes)
    | FullObject(members: SpelledMembers)

  // Items with the blanks around them
  datatype SpelledItems =
    | LastItem(before: bytes, item: Spelling, after: bytes)
    | ItemThen(before: bytes, item: Spelling, after: bytes, rest: SpelledItems)

  datatype SpelledMembers =
    | LastMember(m: SpelledMember)
    | MemberThen(m: SpelledMember, rest: SpelledMembers)

  // A member with its quoted name, and the blanks around name, colon and value
  datatype SpelledMember = SpelledMember(
    before: bytes, quoted: bytes, name: bytes, afterName: bytes,
    beforeValue: bytes, value: Spelling, after: bytes)

  function LiteralText(j: Json): bytes {
    match j
    case Null => ['n', 'u', 'l', 'l']
    case False => ['f', 'a', 'l', 's', 'e']
    case True => ['t', 'r', 'u', 'e']
    case _ => []
  }

  function TextOf(s: Spelling): bytes {
    match s
    case Literal(j) => LiteralText(j)
    case Numeral(text, _) => text
    case Quoted(text, _) => text
    case EmptyArray(blanks) => ['['] + blanks + [']']
    case FullArray(items) => ['['] + ItemsTextOf(items) + [']']
    case EmptyObject(blanks) => ['{'] + blanks + ['}']
    case FullObject(members) => ['{'] + MembersTextOf(members) + ['}']
  }

  function ItemsTextOf(items: SpelledItems): bytes {
    var more := if items.ItemThen? then [','] + ItemsTextOf(items.rest) else [];
    items.before + (TextOf(items.item) + (items.after + more))
  }

  function MembersTextOf(ms: SpelledMembers): bytes {
    var more := if ms.MemberThen? then [','] + MembersTextOf(ms.rest) else [];
    MemberTextOf(ms.m) + more
  }

  function MemberTextOf(m: SpelledMember): bytes {
    m.before + (m.quoted + (m.afterName + ([':'] + (m.beforeValue + (TextOf(m.value) + m.after)))))
  }

  function ValueOf(s: Spelling): Json {
    match s
    case Literal(j) => j
    case Numeral(_, value) => Number(value)
    case Quoted(_, value) => String(value)
    case EmptyArray(_) => Array(NoItems)
    case FullArray(items) => Array(ItemsOf(items))
    case EmptyObject(_) => Object(NoMembers)
    case FullObject(members) => Object(MembersOf(members))
  }

  function ItemsOf(items: SpelledItems): Items {
    match items
    case LastItem(_, item, _) => Item(ValueOf(item), NoItems)
    case ItemThen(_, item, _, rest) => Item(ValueOf(item), ItemsOf(rest))
  }

  function MembersOf(ms: SpelledMembers): Members {
    match ms
    case LastMember(m) => Member(m.name, ValueOf(m.value), NoMembers)
    case MemberThen(m, rest) => Member(m.name, ValueOf(m.value), MembersOf(rest))
  }

  // ----- Which spellings are good -----

  // White space, or any other byte up to the blank
  predicate AreBlanks(s: bytes) {
    forall c <- s :: c as int <= 0x20
  }

  // Digits, signs, the letter of an exponent and a point
  predicate IsNumeralByte(b: byte) {
    0x30 <= b as int <= 0x39 || b as int in {0x2B, 0x2D, 0x2E, 0x45, 0x65}
  }

  // A text that the library reads as a number, all of it
  predicate IsNumeral(strtod: Strtod, text: bytes, value: int) {
    && text != [] && |text| <= 63 && (forall b <- text :: IsNumeralByte(b))
    && (text[0] as int == 0x2D || 0x30 <= text[0] as int <= 0x39)
    && strtod(text) == Some((value, |text|))
  }

  // A text that is read as a string, all of it. Its forms are those of JsonStrings.
  predicate IsQuoted(text: bytes, value: bytes) {
    text != [] && text[0] == '\"' && ParseString(text, 0) == Parsed(value, |text|)
  }

  predicate WfSpelling(strtod: Strtod, s: Spelling) {
    match s
    case Literal(j) => j.Null? || j.False? || j.True?
    case Numeral(text, value) => IsNumeral(strtod, text, value)
    case Quoted(text, value) => IsQuoted(text, value)
    case EmptyArray(blanks) => AreBlanks(blanks)
    case FullArray(items) => WfSpelledItems(strtod, items)
    case EmptyObject(blanks) => AreBlanks(blanks)
    case FullObject(members) => WfSpelledMembers(strtod, members)
  }

  predicate WfSpelledItems(strtod: Strtod, items: SpelledItems) {
    && AreBlanks(items.before) && WfSpelling(strtod, items.item) && AreBlanks(items.after)
    && (items.ItemThen? ==> WfSpelledItems(strtod, items.rest))
  }

  predicate WfSpelledMembers(strtod: Strtod, ms: SpelledMembers) {
    WfSpelledMember(strtod, ms.m) && (ms.MemberThen? ==> WfSpelledMembers(strtod, ms.rest))
  }

  predicate WfSpelledMember(strtod: Strtod, m: SpelledMember) {
    && AreBlanks(m.before) && IsQuoted(m.quoted, m.name) && AreBlanks(m.afterName)
    && AreBlanks(m.beforeValue) && WfSpelling(strtod, m.value) && AreBlanks(m.after)
  }
}
