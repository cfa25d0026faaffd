// The text that examples/json/cJSON.c prints for a tree.
module JsonText {
  import opened Bytes
  import opened JsonTree

  const HEX_DIGITS: bytes := ['0', '1', '2', '3', '4', '5', '6', '7', '8', '9', 'a', 'b', 'c', 'd', 'e', 'f']

  // The letter after the backslash in a two-character escape
  function ShortEscape(c: byte): Option<byte> {
    match c
    case '\\' => Some('\\')
    case '\"' => Some('\"')
    case '\U{8}' => Some('b')
    case '\U{C}' => Some('f')
    case '\n' => Some('n')
    case '\r' => Some('r')
    case '\t' => Some('t')
    case _ => None
  }

  // What print_string_ptr writes for one byte
  function EscapeByte(c: byte): (r: bytes)
    ensures |r| in {1, 2, 6}
  {
    match ShortEscape(c)
    case Some(e) => ['\\', e]
    case None =>
      if c as int > 31 then [c]
      else ['\\', 'u', '0', '0', HEX_DIGITS[c as int / 16], HEX_DIGITS[c as int % 16]]
  }

  function EscapeBytes(s: bytes): bytes {
    if s == [] then [] else EscapeByte(s[0]) + EscapeBytes(s[1..])
  }

  function Quote(s: bytes): bytes {
    ['\"'] + EscapeBytes(s) + ['\"']
  }

  // "%d"
  function Digits(n: nat): (r: bytes)
    ensures |r| > 0
  {
    var last := [(n % 10 + '0' as int) as char as byte];
    if n < 10 then last else Digits(n / 10) + last
  }

  function Decimal(n: int): (r: bytes)
    ensures |r| > 0
  {
    if n < 0 then ['-'] + Digits(-n) else Digits(n)
  }

  function Tabs(n: nat): (r: bytes)
    ensures |r| == n && forall c <- r :: c == '\t'
  {
    seq(n, _ => '\t')
  }

  // Text that is there only in formatted output
  function If(b: bool, s: bytes): bytes {
    if b then s else []
  }

  // What print_array puts between two items
  function Comma(more: bool, format: bool): bytes {
    If(more, [','] + If(format, [' ']))
  }

  // print_value at a nesting depth
  function Text(j: Json, depth: nat, format: bool): bytes {
    match j
    case Null => ['n', 'u', 'l', 'l']
    case False => ['f', 'a', 'l', 's', 'e']
    case True => ['t', 'r', 'u', 'e']
    case Number(value) => Decimal(value)
    case String(text) => Quote(text)
    case Array(items) => ['['] + ItemsText(items, depth + 1, format) + [']']
    case Object(members) =>
      ['{'] + If(format, ['\n']) + MembersText(members, depth + 1, format) + If(format, Tabs(depth)) + ['}']
  }

  function ItemsText(items: Items, depth: nat, format: bool): bytes {
    match items
    case NoItems => []
    case Item(head, tail) =>
      Text(head, depth, format) + Comma(tail.Item?, format) + ItemsText(tail, depth, format)
  }

  // A key up to and with its colon
  function KeyText(name: bytes, depth: nat, format: bool): bytes {
    If(format, Tabs(depth)) + Quote(name) + [':'] + If(format, ['\t'])
  }

  function MembersText(ms: Members, depth: nat, format: bool): bytes {
    match ms
    case NoMembers => []
    case Member(name, value, next) =>
      KeyText(name, depth, format) + Text(value, depth, format)
      + If(next.Member?, [',']) + If(format, ['\n']) + MembersText(next, depth, format)
  }
}
