// What examples/json/cJSON.c reads from a text. Failures keep the offset that the error position comes from.
module JsonParse {
  import opened Bytes
  import opened JsonTree

  const NESTING_LIMIT := 1000

  datatype Parse<+T> = Parsed(value: T, offset: nat) | Failed(offset: nat)

  // strtod is a call into the C library: the number and how many bytes it took, or None if it took none.
  type Strtod = f: bytes -> Option<(int, nat)> | forall t :: f(t).Some? ==> 0 < f(t).value.1 <= |t|
    witness (t => None)

  // ----- Whitespace -----

  function SkipBlanks(c: bytes, o: nat): (r: nat)
    requires o <= |c|
    ensures o <= r <= |c|
    decreases |c| - o
  {
    if o < |c| && c[o] as int <= 32 then SkipBlanks(c, o + 1) else o
  }

  // buffer_skip_whitespace: at the end of the text it steps back by one.
  function Skip(c: bytes, o: nat): (r: nat)
    requires o <= |c|
    ensures o <= r <= |c| && (o < |c| ==> r < |c|)
  {
    if o == |c| then o
    else
      var r := SkipBlanks(c, o);
      if r == |c| then r - 1 else r
  }

  // The text goes on with t at offset o.
  predicate At(c: bytes, o: nat, t: bytes) {
    o + |t| <= |c| && c[o..o + |t|] == t
  }

  // There is a byte at o, and it is b.
  predicate Has(c: bytes, o: nat, b: byte) {
    o < |c| && c[o] == b
  }

  // ----- Numbers -----

  predicate IsNumberByte(b: byte) {
    '0' <= b <= '9' || b in ['+', '-', 'e', 'E', '.']
  }

  const NUMBER_BYTES := 63

  // The bytes that parse_number copies for strtod
  function NumberSpan(c: bytes, o: nat, limit: nat): (r: bytes)
    ensures o + |r| <= |c| || r == []
    decreases limit
  {
    if limit > 0 && o < |c| && IsNumberByte(c[o]) then [c[o]] + NumberSpan(c, o + 1, limit - 1) else []
  }

  function ParseNumber(strtod: Strtod, c: bytes, o: nat): (r: Parse<Json>)
    requires o <= |c|
    ensures r.Parsed? ==> o < r.offset <= |c|
  {
    match strtod(NumberSpan(c, o, NUMBER_BYTES))
    case None => Failed(o)
    case Some((value, length)) => Parsed(Number(value), o + length)
  }

  // ----- Strings -----

  // The first pass of parse_string: the quote that ends the string
  function ClosingQuote(c: bytes, i: nat): (r: Option<nat>)
    ensures r.Some? ==> i <= r.value < |c| && c[r.value] == '\"'
    decreases |c| - i
  {
    if i >= |c| then None
    else if c[i] == '\"' then Some(i)
    else if c[i] != '\\' then ClosingQuote(c, i + 1)
    else if i + 1 >= |c| then None
    else ClosingQuote(c, i + 2)
  }

  function HexDigit(b: byte): Option<nat> {
    if '0' <= b <= '9' then Some(b as int - '0' as int)
    else if 'A' <= b <= 'F' then Some(10 + b as int - 'A' as int)
    else if 'a' <= b <= 'f' then Some(10 + b as int - 'a' as int)
    else None
  }

  // parse_hex4: 0 also stands for four bytes that are no hexadecimal number.
  function ParseHex4(c: bytes, i: nat): (h: nat)
    requires i + 4 <= |c|
    ensures h < 0x1_0000
  {
    var d0, d1, d2, d3 := HexDigit(c[i]), HexDigit(c[i + 1]), HexDigit(c[i + 2]), HexDigit(c[i + 3]);
    if d0.None? || d1.None? || d2.None? || d3.None? then 0
    else ((d0.value * 16 + d1.value) * 16 + d2.value) * 16 + d3.value
  }

  // The continuation bytes of utf16_literal_to_utf8, six bits each, last first
  function Continuations(code: nat, count: nat): (r: bytes)
    ensures |r| == count
  {
    if count == 0 then [] else Continuations(code / 0x40, count - 1) + [(0x80 + code % 0x40) as char as byte]
  }

  function Pow64(n: nat): (r: nat)
    ensures r > 0
  {
    if n == 0 then 1 else 0x40 * Pow64(n - 1)
  }

  function FirstByte(mark: nat, code: nat): byte {
    ((mark + code) % 0x100) as char
  }

  function EncodeUtf8(code: nat): (r: bytes)
    ensures 1 <= |r| <= 4
  {
    if code < 0x80 then [code as char]
    else if code < 0x800 then [FirstByte(0xC0, code / Pow64(1))] + Continuations(code, 1)
    else if code < 0x1_0000 then [FirstByte(0xE0, code / Pow64(2))] + Continuations(code, 2)
    else [FirstByte(0xF0, code / Pow64(3))] + Continuations(code, 3)
  }

  // utf16_literal_to_utf8: the bytes written and the length of the literal, 0 if it fails
  function Utf16Literal(c: bytes, i: nat, end: nat): (r: (bytes, nat))
    requires i < end < |c|
    ensures r.1 in {0, 6, 12} && i + r.1 <= end && (r.1 > 0 ==> 1 <= |r.0| <= 4)
  {
    if end - i < 6 then ([], 0)
    else
      var first := ParseHex4(c, i + 2);
      if 0xDC00 <= first <= 0xDFFF then ([], 0)
      else if 0xD800 <= first <= 0xDBFF then
        if end - (i + 6) < 6 || c[i + 6] != '\\' || c[i + 7] != 'u' then ([], 0)
        else
          var second := ParseHex4(c, i + 8);
          if second < 0xDC00 || second > 0xDFFF then ([], 0)
          else (EncodeUtf8(0x1_0000 + first % 0x400 * 0x400 + second % 0x400), 12)
      else (EncodeUtf8(first), 6)
  }

  // The byte that a two-character escape stands for
  function Unescaped(b: byte): Option<byte> {
    match b
    case 'b' => Some('\U{8}')
    case 'f' => Some('\U{C}')
    case 'n' => Some('\n')
    case 'r' => Some('\r')
    case 't' => Some('\t')
    case '\"' => Some('\"')
    case '\\' => Some('\\')
    case '/' => Some('/')
    case _ => None
  }

  // The second pass of parse_string, with `out` written so far
  function Unescape(c: bytes, i: nat, end: nat, out: bytes): Parse<bytes>
    requires end < |c|
    decreases |c| + 12 - i
  {
    if i >= end then Parsed(out, i)
    else if c[i] != '\\' then Unescape(c, i + 1, end, out + [c[i]])
    else if c[i + 1] == 'u' then
      var (utf8, length) := Utf16Literal(c, i, end);
      if length == 0 then Failed(i) else Unescape(c, i + length, end, out + utf8)
    else
      match Unescaped(c[i + 1])
      case Some(b) => Unescape(c, i + 2, end, out + [b])
      case None => Failed(i)
  }

  // A byte buffer read as a C string
  function CString(s: bytes): (r: bytes)
    ensures NulFree(r)
  {
    if s == [] || s[0] == '\0' then [] else [s[0]] + CString(s[1..])
  }

  function ParseString(c: bytes, o: nat): (r: Parse<bytes>)
    requires o < |c|
    ensures r.Parsed? ==> o < r.offset <= |c|
  {
    if c[o] != '\"' then Failed(o + 1)
    else
      match ClosingQuote(c, o + 1)
      case None => Failed(o + 1)
      case Some(end) =>
        match Unescape(c, o + 1, end, [])
        case Parsed(text, _) => Parsed(CString(text), end + 1)
        case Failed(p) => Failed(p)
  }

  // ----- Values -----

  function ParseValue(strtod: Strtod, c: bytes, o: nat, depth: nat): (r: Parse<Json>)
    requires o <= |c|
    ensures r.Parsed? ==> o < r.offset <= |c|
    decreases |c| - o, 2
  {
    if At(c, o, ['n', 'u', 'l', 'l']) then Parsed(Null, o + 4)
    else if At(c, o, ['f', 'a', 'l', 's', 'e']) then Parsed(False, o + 5)
    else if At(c, o, ['t', 'r', 'u', 'e']) then Parsed(True, o + 4)
    else if Has(c, o, '\"') then
      match ParseString(c, o)
      case Parsed(text, p) => Parsed(String(text), p)
      case Failed(p) => Failed(p)
    else if o < |c| && (c[o] == '-' || '0' <= c[o] <= '9') then ParseNumber(strtod, c, o)
    else if Has(c, o, '[') then ParseArray(strtod, c, o, depth)
    else if Has(c, o, '{') then ParseObject(strtod, c, o, depth)
    else Failed(o)
  }

  function ParseArray(strtod: Strtod, c: bytes, o: nat, depth: nat): (r: Parse<Json>)
    requires Has(c, o, '[')
    ensures r.Parsed? ==> o < r.offset <= |c|
    decreases |c| - o, 1
  {
    if depth >= NESTING_LIMIT then Failed(o)
    else
      var p := Skip(c, o + 1);
      if Has(c, p, ']') then Parsed(Array(NoItems), p + 1)
      else if p == |c| then Failed(p - 1)
      else
        match ParseItems(strtod, c, p - 1, depth + 1)
        case Parsed(items, q) => if Has(c, q, ']') then Parsed(Array(items), q + 1) else Failed(q)
        case Failed(q) => Failed(q)
  }

  // The loop of parse_array, with x just before an item; the offset is where the list of items stops.
  function ParseItems(strtod: Strtod, c: bytes, x: nat, depth: nat): (r: Parse<Items>)
    requires x < |c|
    ensures r.Parsed? ==> x < r.offset <= |c|
    decreases |c| - x, 0
  {
    match ParseValue(strtod, c, Skip(c, x + 1), depth)
    case Failed(p) => Failed(p)
    case Parsed(head, p) =>
      var q := Skip(c, p);
      if Has(c, q, ',') then
        match ParseItems(strtod, c, q, depth)
        case Failed(e) => Failed(e)
        case Parsed(tail, e) => Parsed(Item(head, tail), e)
      else Parsed(Item(head, NoItems), q)
  }

  function ParseObject(strtod: Strtod, c: bytes, o: nat, depth: nat): (r: Parse<Json>)
    requires Has(c, o, '{')
    ensures r.Parsed? ==> o < r.offset <= |c|
    decreases |c| - o, 1
  {
    if depth >= NESTING_LIMIT then Failed(o)
    else
      var p := Skip(c, o + 1);
      if Has(c, p, '}') then Parsed(Object(NoMembers), p + 1)
      else if p == |c| then Failed(p - 1)
      else
        match ParseMembers(strtod, c, p - 1, depth + 1)
        case Parsed(members, q) => if Has(c, q, '}') then Parsed(Object(members), q + 1) else Failed(q)
        case Failed(q) => Failed(q)
  }

  // The name of a member and its colon; the offset is after the colon.
  function ParseName(c: bytes, x: nat): (r: Parse<bytes>)
    requires x < |c|
    ensures r.Parsed? ==> x < r.offset <= |c|
  {
    if x + 1 >= |c| then Failed(x)
    else
      match ParseString(c, Skip(c, x + 1))
      case Failed(p) => Failed(p)
      case Parsed(name, p) =>
        var q := Skip(c, p);
        if Has(c, q, ':') then Parsed(name, q + 1) else Failed(q)
  }

  // The loop of parse_object
  function ParseMembers(strtod: Strtod, c: bytes, x: nat, depth: nat): (r: Parse<Members>)
    requires x < |c|
    ensures r.Parsed? ==> x < r.offset <= |c|
    decreases |c| - x, 0
  {
    match ParseName(c, x)
    case Failed(p) => Failed(p)
    case Parsed(name, n) =>
      match ParseValue(strtod, c, Skip(c, n), depth)
      case Failed(p) => Failed(p)
      case Parsed(value, p) =>
        var q := Skip(c, p);
        if Has(c, q, ',') then
          match ParseMembers(strtod, c, q, depth)
          case Failed(e) => Failed(e)
          case Parsed(next, e) => Parsed(Member(name, value, next), e)
        else Parsed(Member(name, value, NoMembers), q)
  }

  // skip_utf8_bom
  function SkipBom(c: bytes): (o: nat)
    ensures o <= |c|
  {
    if |c| > 4 && At(c, 0, ['\U{EF}', '\U{BB}', '\U{BF}']) then 3 else 0
  }

  // cJSON_ParseWithLengthOpts
  function ParseText(strtod: Strtod, c: bytes, nulTerminated: bool): Parse<Json> {
    if c == [] then Failed(0)
    else
      match ParseValue(strtod, c, Skip(c, SkipBom(c)), 0)
      case Failed(p) => Failed(p)
      case Parsed(j, p) =>
        if !nulTerminated then Parsed(j, p)
        else
          var q := Skip(c, p);
          if Has(c, q, '\0') then Parsed(j, q) else Failed(q)
  }
}
