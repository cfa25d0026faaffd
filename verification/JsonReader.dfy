// The parser of examples/json/cJSON.c, which works its way through a buffer.
module JsonReader {
  import opened Bytes
  import opened JsonTree
  import opened JsonParse
  import opened JsonString

  // What a parsing step returns, and where it leaves the buffer, is what the specification says.
  predicate Agrees<T(==)>(r: Option<T>, offset: nat, p: Parse<T>) {
    match p
    case Parsed(value, o) => r == Some(value) && offset == o
    case Failed(o) => r == None && offset == o
  }

  function Appended(items: Items, j: Json): Items {
    match items
    case NoItems => Item(j, NoItems)
    case Item(head, tail) => Item(head, Appended(tail, j))
  }

  function Joined(front: Items, back: Items): Items {
    match front
    case NoItems => back
    case Item(head, tail) => Item(head, Joined(tail, back))
  }

  lemma JoinedAppended(front: Items, j: Json, back: Items)
    ensures Joined(Appended(front, j), back) == Joined(front, Item(j, back))
  {
  }

  lemma JoinedNothing(front: Items)
    ensures Joined(front, NoItems) == front
  {
  }

  function MemberAppended(ms: Members, name: bytes, j: Json): Members {
    match ms
    case NoMembers => Member(name, j, NoMembers)
    case Member(n, v, next) => Member(n, v, MemberAppended(next, name, j))
  }

  function MembersJoined(front: Members, back: Members): Members {
    match front
    case NoMembers => back
    case Member(n, v, next) => Member(n, v, MembersJoined(next, back))
  }

  lemma MembersJoinedAppended(front: Members, name: bytes, j: Json, back: Members)
    ensures MembersJoined(MemberAppended(front, name, j), back) == MembersJoined(front, Member(name, j, back))
  {
  }

  lemma MembersJoinedNothing(front: Members)
    ensures MembersJoined(front, NoMembers) == front
  {
  }

  // The whole list is what was read before and what the rest of the loop reads.
  predicate ItemsGoOn(whole: Parse<Items>, front: Items, rest: Parse<Items>) {
    match rest
    case Parsed(back, e) => whole == Parsed(Joined(front, back), e)
    case Failed(e) => whole == Failed(e)
  }

  predicate MembersGoOn(whole: Parse<Members>, front: Members, rest: Parse<Members>) {
    match rest
    case Parsed(back, e) => whole == Parsed(MembersJoined(front, back), e)
    case Failed(e) => whole == Failed(e)
  }

  function HexPrefix(c: bytes, i: nat, n: nat): nat
    requires i + n <= |c| && forall k | i <= k < i + n :: HexDigit(c[k]).Some?
  {
    if n == 0 then 0 else 16 * HexPrefix(c, i, n - 1) + HexDigit(c[i + n - 1]).value
  }

  lemma HexPrefixIs(c: bytes, i: nat)
    requires i + 4 <= |c| && forall k | i <= k < i + 4 :: HexDigit(c[k]).Some?
    ensures HexPrefix(c, i, 4) == ParseHex4(c, i)
  {
    hide HexDigit;
    assert HexPrefix(c, i, 1) == HexDigit(c[i]).value;
    assert HexPrefix(c, i, 2) == 16 * HexPrefix(c, i, 1) + HexDigit(c[i + 1]).value;
    assert HexPrefix(c, i, 3) == 16 * HexPrefix(c, i, 2) + HexDigit(c[i + 2]).value;
  }

  lemma Shifted(code: nat, n: nat)
    requires n <= 2
    ensures code / 0x40 / Pow64(n) == code / Pow64(n + 1)
  {
    assert Pow64(1) == 0x40 && Pow64(2) == 0x1000 && Pow64(3) == 0x4_0000;
    if n == 1 {
      assert code / 0x40 / 0x40 == code / 0x1000;
    } else if n == 2 {
      assert code / 0x40 / 0x1000 == code / 0x4_0000;
    }
  }

  class ParseBuffer {
    const content: bytes
    const strtod: Strtod
    var offset: nat
    var depth: nat

    constructor (content: bytes, strtod: Strtod)
      ensures this.content == content && this.strtod == strtod && offset == 0 && depth == 0
    {
      this.content := content;
      this.strtod := strtod;
      offset := 0;
      depth := 0;
    }

    // buffer_skip_whitespace
    method SkipWhitespace()
      requires offset <= |content|
      modifies this`offset
      ensures offset == Skip(content, old(offset))
    {
      if offset >= |content| {
        return;
      }
      while offset < |content| && content[offset] as int <= 32
        invariant old(offset) <= offset <= |content| && SkipBlanks(content, offset) == SkipBlanks(content, old(offset))
      {
        offset := offset + 1;
      }
      if offset == |content| {
        offset := offset - 1;
      }
    }

    // skip_utf8_bom
    method SkipUtf8Bom()
      requires offset == 0
      modifies this`offset
      ensures offset == SkipBom(content)
    {
      if 4 < |content| && content[..3] == ['\U{EF}', '\U{BB}', '\U{BF}'] {
        offset := offset + 3;
      }
    }

    // The loop of parse_number
    method CopyNumber(numberString: array<byte>) returns (i: nat)
      requires numberString.Length == NUMBER_BYTES + 1
      modifies numberString
      ensures i <= NUMBER_BYTES && numberString[..i] == NumberSpan(content, offset, NUMBER_BYTES)
    {
      hide IsNumberByte, NumberSpan;
      i := 0;
      ghost var all, done := NumberSpan(content, offset, NUMBER_BYTES), [];
      while i < NUMBER_BYTES && offset + i < |content| && IsNumberByte(content[offset + i])
        invariant i <= NUMBER_BYTES && numberString[..i] == done
        invariant done + NumberSpan(content, offset + i, NUMBER_BYTES - i) == all
      {
        SpanStep(content, offset + i, NUMBER_BYTES - i, done);
        numberString[i] := content[offset + i];
        done := done + [content[offset + i]];
        i := i + 1;
      }
      SpanEnds(content, offset + i, NUMBER_BYTES - i);
    }

    // parse_number
    method ParseNumber() returns (r: Option<Json>)
      requires offset <= |content|
      modifies this`offset
      ensures Agrees(r, offset, JsonParse.ParseNumber(strtod, content, old(offset)))
    {
      hide NumberSpan;
      var numberString := new byte[NUMBER_BYTES + 1];
      var i := CopyNumber(numberString);
      SpanFits(content, offset, NUMBER_BYTES);
      var number := strtod(numberString[..i]);
      if number.None? {
        return None;
      }
      offset := offset + number.value.1;
      r := Some(Number(number.value.0));
    }

    // parse_hex4
    method ReadHex4(input: nat) returns (h: nat)
      requires input + 4 <= |content|
      ensures h == ParseHex4(content, input)
    {
      hide HexDigit;
      h := 0;
      for i := 0 to 4
        invariant forall k | input <= k < input + i :: HexDigit(content[k]).Some?
        invariant h == HexPrefix(content, input, i) * if i < 4 then 16 else 1
      {
        var digit := HexDigit(content[input + i]);
        if digit.None? {
          return 0;
        }
        h := h + digit.value;
        if i < 3 {
          h := h * 16;
        }
      }
      HexPrefixIs(content, input);
    }

    // The loop of utf16_literal_to_utf8: the continuation bytes, last first
    static method PutContinuations(codepoint: nat, output: array<byte>, position: nat, length: nat) returns (code: nat)
      requires 1 <= length <= 4 && position + length <= output.Length
      modifies output
      ensures output[..position] == old(output[..position]) && code == codepoint / Pow64(length - 1)
      ensures output[position + 1..position + length] == Continuations(codepoint, length - 1)
    {
      hide Continuations, Pow64;
      code := codepoint;
      var i := length - 1;
      ghost var done := [];
      NoContinuations(codepoint);
      while i > 0
        invariant i < length && output[..position] == old(output[..position])
        invariant code / Pow64(i) == codepoint / Pow64(length - 1)
        invariant output[position + i + 1..position + length] == done
        invariant Continuations(code, i) + done == Continuations(codepoint, length - 1)
      {
        ContinuationsStep(code, i, done);
        Shifted(code, i - 1);
        var c := (0x80 + code % 0x40) as char as byte;
        output[position + i] := c;
        done := [c] + done;
        code := code / 0x40;
        i := i - 1;
      }
      NoContinuations(code);
    }

    // The encoding half of utf16_literal_to_utf8
    static method PutUtf8(codepoint: nat, output: array<byte>, position: nat) returns (length: nat)
      requires codepoint < 0x11_0000 && position + |EncodeUtf8(codepoint)| <= output.Length
      modifies output
      ensures length == |EncodeUtf8(codepoint)| && output[..position + length] == old(output[..position]) + EncodeUtf8(codepoint)
    {
      hide Continuations, Pow64, FirstByte;
      var firstByteMark := 0;
      if codepoint < 0x80 {
        length := 1;
      } else if codepoint < 0x800 {
        length, firstByteMark := 2, 0xC0;
      } else if codepoint < 0x1_0000 {
        length, firstByteMark := 3, 0xE0;
      } else {
        length, firstByteMark := 4, 0xF0;
      }
      var code := PutContinuations(codepoint, output, position, length);
      NoContinuations(codepoint);
      ghost var rest := output[position + 1..position + length];
      if length > 1 {
        output[position] := FirstByte(firstByteMark, code);
      } else {
        output[position] := (code % 0x80) as char;
      }
      assert output[..position + length] == output[..position] + ([output[position]] + rest);
    }

    // utf16_literal_to_utf8: 0 if it fails
    method Utf16LiteralToUtf8(input: nat, end: nat, output: array<byte>, position: nat)
      returns (sequenceLength: nat, written: nat)
      requires input < end < |content|
      requires Utf16Literal(content, input, end).1 > 0 ==> position + |Utf16Literal(content, input, end).0| <= output.Length
      requires position <= output.Length
      modifies output
      ensures sequenceLength == Utf16Literal(content, input, end).1
      ensures sequenceLength > 0 ==>
        written == |Utf16Literal(content, input, end).0|
        && output[..position + written] == old(output[..position]) + Utf16Literal(content, input, end).0
    {
      hide EncodeUtf8, ParseHex4;
      written := 0;
      if end - input < 6 {
        return 0, 0;
      }
      var firstCode := ReadHex4(input + 2);
      if 0xDC00 <= firstCode <= 0xDFFF {
        return 0, 0;
      }
      var codepoint := firstCode;
      sequenceLength := 6;
      if 0xD800 <= firstCode <= 0xDBFF {
        var second := input + 6;
        if end - second < 6 {
          return 0, 0;
        }
        if content[second] != '\\' || content[second + 1] != 'u' {
          return 0, 0;
        }
        var secondCode := ReadHex4(second + 2);
        if secondCode < 0xDC00 || secondCode > 0xDFFF {
          return 0, 0;
        }
        sequenceLength := 12;
        codepoint := 0x1_0000 + firstCode % 0x400 * 0x400 + secondCode % 0x400;
      }
      written := PutUtf8(codepoint, output, position);
    }

    // The first pass of parse_string
    method FindClosingQuote(start: nat) returns (ok: bool, end: nat, skipped: nat)
      requires start <= |content|
      ensures ok == ClosingQuote(content, start).Some?
      ensures ok ==> Some(end) == ClosingQuote(content, start) && end == start + skipped + Units(content, start)
    {
      end, skipped := start, 0;
      while end < |content| && content[end] != '\"'
        invariant start <= end && skipped <= end - start && ClosingQuote(content, end) == ClosingQuote(content, start)
        invariant end - start - skipped + Units(content, end) == Units(content, start)
        decreases |content| - end
      {
        if content[end] == '\\' {
          if end + 1 >= |content| {
            return false, end, skipped;
          }
          skipped := skipped + 1;
          end := end + 1;
        }
        end := end + 1;
      }
      ok := end < |content|;
    }

    // The second pass of parse_string: every byte it writes has room.
    method UnescapeInto(start: nat, end: nat, output: array<byte>) returns (ok: bool, input: nat, length: nat)
      requires ClosingQuote(content, start) == Some(end) && output.Length == Units(content, start) + 2
      modifies output
      ensures length < output.Length
      ensures match Unescape(content, start, end, [])
        case Parsed(text, _) => ok && output[..length] == text
        case Failed(p) => !ok && input == p
    {
      hide Units, ClosingQuote, Utf16Literal, Unescaped, HasRoom;
      ghost var room, whole := Units(content, start), Unescape(content, start, end, []);
      input, length := start, 0;
      RoomAtStart(content, start, end);
      assert output[..0] == [];
      while input < end
        invariant length <= room && HasRoom(content, input, length, end, room)
        invariant Unescape(content, input, end, output[..length]) == whole
        decreases end + 12 - input
      {
        if content[input] != '\\' {
          RoomForByte(content, input, length, end, room);
          output[length] := content[input];
          assert output[..length + 1] == output[..length] + [content[input]];
          input, length := input + 1, length + 1;
        } else if content[input + 1] == 'u' {
          if Utf16Literal(content, input, end).1 > 0 {
            RoomForLiteral(content, input, length, end, room);
          }
          var sequenceLength, written := Utf16LiteralToUtf8(input, end, output, length);
          if sequenceLength == 0 {
            return false, input, length;
          }
          input, length := input + sequenceLength, length + written;
        } else {
          var c := Unescaped(content[input + 1]);
          if c.None? {
            return false, input, length;
          }
          RoomForByte(content, input, length, end, room);
          output[length] := c.value;
          assert output[..length + 1] == output[..length] + [c.value];
          input, length := input + 2, length + 1;
        }
      }
      ok := true;
    }

    // parse_string
    method ParseString() returns (r: Option<bytes>)
      requires offset < |content|
      modifies this`offset
      ensures Agrees(r, offset, JsonParse.ParseString(content, old(offset)))
    {
      hide ClosingQuote, Unescape, CString, Units;
      var start := offset + 1;
      if content[offset] != '\"' {
        offset := start;
        return None;
      }
      var found, end, skipped := FindClosingQuote(start);
      if !found {
        offset := start;
        return None;
      }
      var allocationLength := end - offset - skipped;
      var output := new byte[allocationLength + 1];
      var ok, input, length := UnescapeInto(start, end, output);
      if !ok {
        offset := input;
        return None;
      }
      output[length] := '\0';
      CStringStops(output[..], length);
      r := Some(CString(output[..]));
      offset := end + 1;
    }

    // parse_value
    method ParseValue() returns (r: Option<Json>)
      requires offset <= |content|
      modifies this`offset, this`depth
      ensures Agrees(r, offset, JsonParse.ParseValue(strtod, content, old(offset), old(depth)))
      ensures r.Some? ==> depth == old(depth)
      decreases |content| - offset, 2
    {
      hide At, JsonParse.ParseString, JsonParse.ParseNumber, JsonParse.ParseArray, JsonParse.ParseObject;
      if At(content, offset, ['n', 'u', 'l', 'l']) {
        offset := offset + 4;
        return Some(Null);
      }
      if At(content, offset, ['f', 'a', 'l', 's', 'e']) {
        offset := offset + 5;
        return Some(False);
      }
      if At(content, offset, ['t', 'r', 'u', 'e']) {
        offset := offset + 4;
        return Some(True);
      }
      if offset < |content| && content[offset] == '\"' {
        var text := ParseString();
        return if text.Some? then Some(String(text.value)) else None;
      }
      if offset < |content| && (content[offset] == '-' || '0' <= content[offset] <= '9') {
        r := ParseNumber();
        return;
      }
      if offset < |content| && content[offset] == '[' {
        r := ParseArray();
        return;
      }
      if offset < |content| && content[offset] == '{' {
        r := ParseObject();
        return;
      }
      return None;
    }

    // parse_array
    method ParseArray() returns (r: Option<Json>)
      requires Has(content, offset, '[')
      modifies this`offset, this`depth
      ensures Agrees(r, offset, JsonParse.ParseArray(strtod, content, old(offset), old(depth)))
      ensures r.Some? ==> depth == old(depth)
      decreases |content| - offset, 1
    {
      hide JsonParse.ParseItems, Skip;
      if depth >= NESTING_LIMIT {
        return None;
      }
      depth := depth + 1;
      offset := offset + 1;
      SkipWhitespace();
      var items := NoItems;
      if offset < |content| && content[offset] == ']' {
      } else {
        if offset >= |content| {
          offset := offset - 1;
          return None;
        }
        offset := offset - 1;
        var list := ParseItems();
        if list.None? || offset >= |content| || content[offset] != ']' {
          return None;
        }
        items := list.value;
      }
      depth := depth - 1;
      offset := offset + 1;
      r := Some(Array(items));
    }

    // The loop of parse_array
    method ParseItems() returns (r: Option<Items>)
      requires offset < |content|
      modifies this`offset, this`depth
      ensures Agrees(r, offset, JsonParse.ParseItems(strtod, content, old(offset), old(depth)))
      ensures r.Some? ==> depth == old(depth)
      decreases |content| - offset, 0
    {
      hide JsonParse.ParseItems, JsonParse.ParseValue, Skip, ItemsGoOn;
      var items := NoItems;
      ghost var whole := JsonParse.ParseItems(strtod, content, offset, depth);
      FirstRound(whole);
      while true
        invariant old(offset) <= offset < |content| && depth == old(depth)
        invariant ItemsGoOn(whole, items, JsonParse.ParseItems(strtod, content, offset, depth))
        decreases |content| - offset
      {
        ghost var x := offset;
        offset := offset + 1;
        SkipWhitespace();
        ghost var d := depth;
        var item := ParseValue();
        ghost var p := offset;
        if item.None? {
          ItemFailed(strtod, content, x, d, whole, items);
          return None;
        }
        SkipWhitespace();
        ItemRound(strtod, content, x, depth, whole, items, item.value, p);
        items := Appended(items, item.value);
        if offset >= |content| || content[offset] != ',' {
          break;
        }
      }
      r := Some(items);
    }

    // parse_object
    method ParseObject() returns (r: Option<Json>)
      requires Has(content, offset, '{')
      modifies this`offset, this`depth
      ensures Agrees(r, offset, JsonParse.ParseObject(strtod, content, old(offset), old(depth)))
      ensures r.Some? ==> depth == old(depth)
      decreases |content| - offset, 1
    {
      hide JsonParse.ParseMembers, Skip;
      if depth >= NESTING_LIMIT {
        return None;
      }
      depth := depth + 1;
      offset := offset + 1;
      SkipWhitespace();
      var members := NoMembers;
      if offset < |content| && content[offset] == '}' {
      } else {
        if offset >= |content| {
          offset := offset - 1;
          return None;
        }
        offset := offset - 1;
        var list := ParseMembers();
        if list.None? || offset >= |content| || content[offset] != '}' {
          return None;
        }
        members := list.value;
      }
      depth := depth - 1;
      offset := offset + 1;
      r := Some(Object(members));
    }

    // The name of a member and its colon
    method ParseName() returns (r: Option<bytes>)
      requires offset < |content|
      modifies this`offset
      ensures Agrees(r, offset, JsonParse.ParseName(content, old(offset)))
    {
      hide JsonParse.ParseString, Skip;
      if offset + 1 >= |content| {
        return None;
      }
      offset := offset + 1;
      SkipWhitespace();
      r := ParseString();
      if r.None? {
        return;
      }
      SkipWhitespace();
      if offset >= |content| || content[offset] != ':' {
        return None;
      }
      offset := offset + 1;
    }

    // The loop of parse_object
    method ParseMembers() returns (r: Option<Members>)
      requires offset < |content|
      modifies this`offset, this`depth
      ensures Agrees(r, offset, JsonParse.ParseMembers(strtod, content, old(offset), old(depth)))
      ensures r.Some? ==> depth == old(depth)
      decreases |content| - offset, 0
    {
      hide JsonParse.ParseMembers, JsonParse.ParseValue, JsonParse.ParseName, Skip, MembersGoOn;
      var members := NoMembers;
      ghost var whole := JsonParse.ParseMembers(strtod, content, offset, depth);
      FirstMemberRound(whole);
      while true
        invariant old(offset) <= offset < |content| && depth == old(depth)
        invariant MembersGoOn(whole, members, JsonParse.ParseMembers(strtod, content, offset, depth))
        decreases |content| - offset
      {
        ghost var x := offset;
        var name := ParseName();
        if name.None? {
          NameFailed(strtod, content, x, depth, whole, members);
          return None;
        }
        ghost var n := offset;
        SkipWhitespace();
        ghost var d := depth;
        var value := ParseValue();
        ghost var p := offset;
        if value.None? {
          MemberFailed(strtod, content, x, d, whole, members);
          return None;
        }
        SkipWhitespace();
        MemberRound(strtod, content, x, depth, whole, members, name.value, n, value.value, p);
        members := MemberAppended(members, name.value, value.value);
        if offset >= |content| || content[offset] != ',' {
          break;
        }
      }
      r := Some(members);
    }

    // cJSON_ParseWithLengthOpts, on a fresh buffer
    method ParseText(requireNullTerminated: bool) returns (r: Option<Json>)
      requires offset == 0 && depth == 0
      modifies this`offset, this`depth
      ensures Agrees(r, offset, JsonParse.ParseText(strtod, content, requireNullTerminated))
    {
      hide JsonParse.ParseValue, Skip, SkipBom;
      if |content| == 0 {
        return None;
      }
      SkipUtf8Bom();
      SkipWhitespace();
      r := ParseValue();
      if r.None? {
        return;
      }
      if requireNullTerminated {
        SkipWhitespace();
        if offset >= |content| || content[offset] != '\0' {
          return None;
        }
      }
    }
  }

  lemma FirstRound(whole: Parse<Items>)
    ensures ItemsGoOn(whole, NoItems, whole)
  {
  }

  lemma ItemFailed(strtod: Strtod, c: bytes, x: nat, depth: nat, whole: Parse<Items>, front: Items)
    requires x < |c| && ItemsGoOn(whole, front, JsonParse.ParseItems(strtod, c, x, depth))
    requires JsonParse.ParseValue(strtod, c, Skip(c, x + 1), depth).Failed?
    ensures whole == Failed(JsonParse.ParseValue(strtod, c, Skip(c, x + 1), depth).offset)
  {
    hide JsonParse.ParseValue, Skip;
  }

  lemma ItemRound(
    strtod: Strtod, c: bytes, x: nat, depth: nat, whole: Parse<Items>, front: Items, item: Json, p: nat)
    requires x < |c| && p <= |c| && ItemsGoOn(whole, front, JsonParse.ParseItems(strtod, c, x, depth))
    requires JsonParse.ParseValue(strtod, c, Skip(c, x + 1), depth) == Parsed(item, p)
    ensures var q := Skip(c, p);
      if Has(c, q, ',') then ItemsGoOn(whole, Appended(front, item), JsonParse.ParseItems(strtod, c, q, depth))
      else whole == Parsed(Appended(front, item), q)
  {
    hide JsonParse.ParseValue, Skip, Joined, Appended;
    var q := Skip(c, p);
    var rest := if Has(c, q, ',') then JsonParse.ParseItems(strtod, c, q, depth) else Failed(0);
    if rest.Parsed? {
      JoinedAppended(front, item, rest.value);
    }
    JoinedAppended(front, item, NoItems);
    JoinedNothing(Appended(front, item));
  }

  lemma FirstMemberRound(whole: Parse<Members>)
    ensures MembersGoOn(whole, NoMembers, whole)
  {
  }

  lemma NameFailed(strtod: Strtod, c: bytes, x: nat, depth: nat, whole: Parse<Members>, front: Members)
    requires x < |c| && MembersGoOn(whole, front, JsonParse.ParseMembers(strtod, c, x, depth))
    requires JsonParse.ParseName(c, x).Failed?
    ensures whole == Failed(JsonParse.ParseName(c, x).offset)
  {
    hide JsonParse.ParseName;
  }

  lemma MemberFailed(strtod: Strtod, c: bytes, x: nat, depth: nat, whole: Parse<Members>, front: Members)
    requires x < |c| && MembersGoOn(whole, front, JsonParse.ParseMembers(strtod, c, x, depth))
    requires JsonParse.ParseName(c, x).Parsed?
    requires JsonParse.ParseValue(strtod, c, Skip(c, JsonParse.ParseName(c, x).offset), depth).Failed?
    ensures whole == Failed(JsonParse.ParseValue(strtod, c, Skip(c, JsonParse.ParseName(c, x).offset), depth).offset)
  {
    hide JsonParse.ParseName, JsonParse.ParseValue, Skip;
  }

  lemma MemberRound(strtod: Strtod, c: bytes, x: nat, depth: nat, whole: Parse<Members>, front: Members,
                    name: bytes, n: nat, value: Json, p: nat)
    requires x < |c| && n <= |c| && p <= |c| && MembersGoOn(whole, front, JsonParse.ParseMembers(strtod, c, x, depth))
    requires JsonParse.ParseName(c, x) == Parsed(name, n)
    requires JsonParse.ParseValue(strtod, c, Skip(c, n), depth) == Parsed(value, p)
    ensures var q := Skip(c, p);
      if Has(c, q, ',') then MembersGoOn(whole, MemberAppended(front, name, value), JsonParse.ParseMembers(strtod, c, q, depth))
      else whole == Parsed(MemberAppended(front, name, value), q)
  {
    hide JsonParse.ParseName, JsonParse.ParseValue, Skip, MembersJoined, MemberAppended;
    var q := Skip(c, p);
    var rest := if Has(c, q, ',') then JsonParse.ParseMembers(strtod, c, q, depth) else Failed(0);
    if rest.Parsed? {
      MembersJoinedAppended(front, name, value, rest.value);
    }
    MembersJoinedAppended(front, name, value, NoMembers);
    MembersJoinedNothing(MemberAppended(front, name, value));
  }

  lemma NoContinuations(code: nat)
    ensures Continuations(code, 0) == [] && Pow64(0) == 1 && code / Pow64(0) == code
  {
  }

  lemma ContinuationsStep(code: nat, i: nat, done: bytes)
    requires i > 0
    ensures Continuations(code, i) + done == Continuations(code / 0x40, i - 1) + ([(0x80 + code % 0x40) as char as byte] + done)
  {
  }

  lemma SpanStep(c: bytes, o: nat, limit: nat, done: bytes)
    requires limit > 0 && o < |c| && IsNumberByte(c[o])
    ensures done + NumberSpan(c, o, limit) == (done + [c[o]]) + NumberSpan(c, o + 1, limit - 1)
  {
  }

  lemma SpanEnds(c: bytes, o: nat, limit: nat)
    requires limit == 0 || o >= |c| || !IsNumberByte(c[o])
    ensures NumberSpan(c, o, limit) == []
  {
  }

  lemma SpanFits(c: bytes, o: nat, limit: nat)
    requires o <= |c|
    ensures o + |NumberSpan(c, o, limit)| <= |c|
  {
  }

  lemma RoomAtStart(c: bytes, start: nat, end: nat)
    requires ClosingQuote(c, start) == Some(end)
    ensures HasRoom(c, start, 0, end, Units(c, start))
  {
    assert Aligned(c, start, end);
  }

  lemma {:induction false} CStringStops(s: bytes, length: nat)
    requires length < |s| && s[length] == '\0'
    ensures CString(s) == CString(s[..length])
  {
    if length > 0 && s[0] != '\0' {
      CStringStops(s[1..], length - 1);
      assert s[1..][..length - 1] == s[..length][1..];
    }
  }
}
