// The printer of examples/json/cJSON.c, which writes into a buffer that grows.
module JsonPrinter {
  import opened Bytes
  import opened JsonTree
  import opened JsonText

  // ----- The text of strings -----

  lemma EscapesNothing(s: bytes)
    ensures |EscapeBytes(s)| >= |s|
    ensures |EscapeBytes(s)| == |s| ==> EscapeBytes(s) == s
  {
    hide ShortEscape;
    if s != [] {
      EscapesNothing(s[1..]);
      assert s == [s[0]] + s[1..];
    }
  }

  lemma EscapeByteNulFree(c: byte)
    requires c != '\0'
    ensures NulFree(EscapeByte(c))
  {
    if |EscapeByte(c)| == 6 {
      HexNulFree(c as int / 16);
      HexNulFree(c as int % 16);
    }
  }

  lemma HexNulFree(n: nat)
    requires n < 16
    ensures HEX_DIGITS[n] != '\0'
  {
  }

  lemma {:induction false} EscapesNulFree(s: bytes)
    requires NulFree(s)
    ensures NulFree(EscapeBytes(s))
  {
    hide EscapeByte;
    if s != [] {
      EscapeByteNulFree(s[0]);
      EscapesNulFree(s[1..]);
    }
  }

  lemma {:induction false} DigitsNulFree(n: nat)
    ensures NulFree(Digits(n))
  {
    if n >= 10 {
      DigitsNulFree(n / 10);
    }
  }

  class PrintBuffer {
    var buffer: array<byte>
    var offset: nat
    var depth: nat
    const noalloc: bool
    const format: bool

    constructor (size: nat, noalloc: bool, format: bool)
      requires size <= INT_MAX
      ensures Valid() && fresh(buffer) && buffer.Length == size && offset == 0 && depth == 0
      ensures this.noalloc == noalloc && this.format == format
    {
      this.buffer := new byte[size];
      this.offset := 0;
      this.depth := 0;
      this.noalloc := noalloc;
      this.format := format;
    }

    constructor Over(buffer: array<byte>, format: bool)
      requires buffer.Length <= INT_MAX
      ensures Valid() && this.buffer == buffer && offset == 0 && depth == 0 && noalloc && this.format == format
    {
      this.buffer := buffer;
      this.offset := 0;
      this.depth := 0;
      this.noalloc := true;
      this.format := format;
    }

    ghost predicate Valid()
      reads this`buffer, this`offset
    {
      buffer.Length <= INT_MAX && if buffer.Length == 0 then offset == 0 else offset < buffer.Length
    }

    // The size that the buffer can have
    ghost function Limit(): int
      reads this`buffer
    {
      if noalloc then buffer.Length else INT_MAX
    }

    // The buffer holds a NUL-terminated text, which update_offset will find to end at the right place.
    ghost predicate Holds(text: bytes)
      reads this`buffer, this`offset, buffer
    {
      && offset <= |text| < buffer.Length && buffer[..|text|] == text && buffer[|text|] == '\0'
      && NulFree(text[offset..])
    }

    // ensure
    method Ensure(needed: nat) returns (ok: bool)
      requires Valid()
      modifies this`buffer
      ensures ok == (offset + needed + 1 <= old(Limit())) && (ok ==> offset + needed + 1 <= buffer.Length)
      ensures Valid() && (buffer == old(buffer) || (!noalloc && fresh(buffer))) && Limit() == old(Limit())
      ensures buffer[..offset] == old(buffer[..offset])
    {
      if buffer.Length > 0 && offset >= buffer.Length {
        return false;
      }
      if needed > INT_MAX {
        return false;
      }
      var total := needed + offset + 1;
      if total <= buffer.Length {
        return true;
      }
      if noalloc {
        return false;
      }
      var newSize;
      if total > INT_MAX / 2 {
        if total <= INT_MAX {
          newSize := INT_MAX;
        } else {
          return false;
        }
      } else {
        newSize := total * 2;
      }
      var newBuffer := new byte[newSize];
      forall i | 0 <= i < buffer.Length {
        newBuffer[i] := buffer[i];
      }
      buffer := newBuffer;
      ok := true;
    }

    // strlen from `offset` on, added to it
    method UpdateOffset(ghost text: bytes)
      requires Holds(text)
      modifies this`offset
      ensures Valid'(text)
    {
      var length := 0;
      while buffer[offset + length] != '\0'
        invariant offset + length <= |text|
        decreases |text| - length
      {
        assert buffer[..|text|][offset + length] == text[offset..][length];
        length := length + 1;
      }
      offset := offset + length;
    }

    // What has been written is exactly the text.
    ghost predicate Valid'(text: bytes)
      reads this`buffer, this`offset, buffer
    {
      offset == |text| && offset < buffer.Length && buffer[..offset] == text
    }

    // strcpy of a text without NUL, at `offset`
    method Copy(text: bytes)
      requires offset + |text| < buffer.Length && NulFree(text)
      modifies buffer
      ensures Holds(old(buffer[..offset]) + text)
    {
      forall i | 0 <= i < |text| {
        buffer[offset + i] := text[i];
      }
      buffer[offset + |text|] := '\0';
      ghost var all := old(buffer[..offset]) + text;
      assert all[offset..] == text;
    }

    // print_number
    method PrintNumber(value: int) returns (ok: bool)
      requires Valid()
      modifies this`buffer, this`offset, buffer
      ensures ok == (old(offset) + |Decimal(value)| + 2 <= old(Limit()))
      ensures Valid() && (buffer == old(buffer) || (!noalloc && fresh(buffer))) && Limit() == old(Limit())
      ensures ok ==> Holds(old(buffer[..offset]) + Decimal(value))
    {
      hide Decimal;
      var numberBuffer := Decimal(value);
      ok := Ensure(|numberBuffer| + 1);
      if ok {
        DecimalNulFree(value);
        Copy(numberBuffer);
        ghost var text := buffer[..offset] + numberBuffer;
        offset := offset + |numberBuffer|;
        assert text[offset..] == [];
      }
    }

    // The first pass of print_string_ptr
    static method CountEscapes(input: bytes) returns (escapes: nat)
      ensures |input| + escapes == |EscapeBytes(input)|
    {
      hide ShortEscape;
      escapes := 0;
      var i := 0;
      while i < |input|
        invariant i <= |input| && i + escapes + |EscapeBytes(input[i..])| == |EscapeBytes(input)|
      {
        assert input[i..][1..] == input[i + 1..];
        if ShortEscape(input[i]).Some? {
          escapes := escapes + 1;
        } else if input[i] as int < 32 {
          escapes := escapes + 5;
        }
        i := i + 1;
      }
    }

    // The second pass of print_string_ptr
    method WriteEscaped(input: bytes, position: nat)
      requires position + |EscapeBytes(input)| <= buffer.Length
      modifies buffer
      ensures buffer[..position + |EscapeBytes(input)|] == old(buffer[..position]) + EscapeBytes(input)
    {
      hide EscapeByte;
      ghost var all, done := EscapeBytes(input), [];
      var i, output := 0, position;
      assert input[0..] == input;
      while i < |input|
        invariant i <= |input| && done + EscapeBytes(input[i..]) == all
        invariant output == position + |done| <= buffer.Length && buffer[..output] == old(buffer[..position]) + done
      {
        var c := input[i];
        EscapeStep(input, i, done);
        output := WriteEscape(c, output);
        done := done + EscapeByte(c);
        i := i + 1;
      }
    }

    method WriteEscape(c: byte, position: nat) returns (end: nat)
      requires position + |EscapeByte(c)| <= buffer.Length
      modifies buffer
      ensures end == position + |EscapeByte(c)| && buffer[..end] == old(buffer[..position]) + EscapeByte(c)
    {
      if c as int > 31 && c != '\"' && c != '\\' {
        buffer[position] := c;
        end := position + 1;
      } else {
        buffer[position] := '\\';
        var e := ShortEscape(c);
        match e {
          case Some(letter) => {
            buffer[position + 1] := letter;
            end := position + 2;
          }
          case None => {
            buffer[position + 1], buffer[position + 2], buffer[position + 3] := 'u', '0', '0';
            buffer[position + 4], buffer[position + 5] := HEX_DIGITS[c as int / 16], HEX_DIGITS[c as int % 16];
            end := position + 6;
          }
        }
      }
    }

    // The text between the quotes: a plain copy if nothing needs escaping
    method WriteBody(input: bytes, position: nat, escapeCharacters: nat)
      requires position + |EscapeBytes(input)| <= buffer.Length && |EscapeBytes(input)| == |input| + escapeCharacters
      modifies buffer
      ensures buffer[..position + |EscapeBytes(input)|] == old(buffer[..position]) + EscapeBytes(input)
    {
      hide EscapeBytes;
      if escapeCharacters == 0 {
        EscapesNothing(input);
        forall i | 0 <= i < |input| {
          buffer[position + i] := input[i];
        }
      } else {
        WriteEscaped(input, position);
      }
    }

    method WriteQuoted(input: bytes, escapeCharacters: nat)
      requires offset + |Quote(input)| < buffer.Length && |EscapeBytes(input)| == |input| + escapeCharacters && NulFree(input)
      modifies buffer
      ensures Holds(old(buffer[..offset]) + Quote(input))
    {
      hide EscapeBytes, NulFree;
      ghost var before, body := buffer[..offset], EscapeBytes(input);
      buffer[offset] := '\"';
      assert buffer[..offset + 1] == before + ['\"'];
      WriteBody(input, offset + 1, escapeCharacters);
      var end := offset + 1 + |input| + escapeCharacters;
      ghost var open := buffer[..end];
      assert open == before + ['\"'] + body;
      buffer[end] := '\"';
      buffer[end + 1] := '\0';
      assert buffer[..end + 1] == open + ['\"'];
      QuoteNulFree(input);
      QuoteIs(before, input);
    }

    // print_string_ptr
    method PrintStringPtr(input: bytes) returns (ok: bool)
      requires Valid() && NulFree(input)
      modifies this`buffer, buffer
      ensures ok == (offset + |Quote(input)| + 2 <= old(Limit()))
      ensures Valid() && (buffer == old(buffer) || (!noalloc && fresh(buffer))) && Limit() == old(Limit())
      ensures ok ==> Holds(old(buffer[..offset]) + Quote(input))
    {
      hide EscapeBytes, NulFree, Holds;
      var escapeCharacters := CountEscapes(input);
      var outputLength := |input| + escapeCharacters;
      ok := Ensure(outputLength + 3);
      if ok {
        WriteQuoted(input, escapeCharacters);
      }
    }

    // Some bytes at `offset`, which moves past them
    method Put(text: bytes)
      requires offset + |text| < buffer.Length
      modifies this`offset, buffer
      ensures Valid'(old(buffer[..offset]) + text)
    {
      forall i | 0 <= i < |text| {
        buffer[offset + i] := text[i];
      }
      offset := offset + |text|;
    }

    // The indentation loop of print_object
    method PutTabs(n: nat)
      requires offset + n < buffer.Length
      modifies this`offset, buffer
      ensures Valid'(old(buffer[..offset]) + Tabs(n))
    {
      for i := 0 to n
        invariant offset == old(offset) && buffer[..offset + i] == old(buffer[..offset]) + Tabs(i)
      {
        buffer[offset + i] := '\t';
        assert Tabs(i + 1) == Tabs(i) + ['\t'];
      }
      offset := offset + n;
    }

    // print_value
    method PrintValue(j: Json) returns (ok: bool)
      requires Valid() && Wf(j)
      modifies this`buffer, this`offset, this`depth, buffer
      ensures ok == (old(offset) + |Text(j, old(depth), format)| + 2 <= old(Limit()))
      ensures Valid() && (buffer == old(buffer) || (!noalloc && fresh(buffer))) && Limit() == old(Limit())
      ensures ok ==> Holds(old(buffer[..offset]) + Text(j, old(depth), format)) && depth == old(depth)
      decreases j, 1
    {
      hide Holds, Valid', Decimal, Quote, ItemsText, MembersText, NulFree, WfItems, WfMembers;
      match j {
        case Null => {
          ok := PrintEnd(['n', 'u', 'l', 'l']);
        }
        case False => {
          ok := PrintEnd(['f', 'a', 'l', 's', 'e']);
        }
        case True => {
          ok := PrintEnd(['t', 'r', 'u', 'e']);
        }
        case Number(value) => {
          ok := PrintNumber(value);
        }
        case String(text) => {
          ok := PrintStringPtr(text);
        }
        case Array(items) => {
          ok := PrintArray(items);
        }
        case Object(members) => {
          ok := PrintObject(members);
        }
      }
    }

    // A literal, or what closes an array or object: there is room for it and its NUL, or it is not written.
    method PrintEnd(text: bytes) returns (ok: bool)
      requires Valid() && forall i | 0 <= i < |text| :: text[i] != '\0'
      modifies this`buffer, buffer
      ensures ok == (offset + |text| + 2 <= old(Limit()))
      ensures Valid() && (buffer == old(buffer) || (!noalloc && fresh(buffer))) && Limit() == old(Limit())
      ensures ok ==> Holds(old(buffer[..offset]) + text)
    {
      hide Holds;
      ok := Ensure(|text| + 1);
      if ok {
        Copy(text);
      }
    }

    // print_array
    method PrintArray(items: Items) returns (ok: bool)
      requires Valid() && WfItems(items)
      modifies this`buffer, this`offset, this`depth, buffer
      ensures ok == (old(offset) + |ItemsText(items, old(depth) + 1, format)| + 4 <= old(Limit()))
      ensures Valid() && (buffer == old(buffer) || (!noalloc && fresh(buffer))) && Limit() == old(Limit())
      ensures ok ==>
        Holds(old(buffer[..offset]) + (['['] + ItemsText(items, old(depth) + 1, format) + [']'])) && depth == old(depth)
      decreases items, 2
    {
      hide Holds, Valid', ItemsText, NulFree, WfItems;
      ghost var before, body := buffer[..offset], ItemsText(items, depth + 1, format);
      ok := Ensure(1);
      if !ok {
        return;
      }
      Put(['[']);
      WrittenIs(before + ['[']);
      depth := depth + 1;
      ok := PrintItems(items);
      if !ok {
        return;
      }
      WrittenIs(before + ['['] + body);
      ok := PrintEnd([']']);
      if !ok {
        return;
      }
      depth := depth - 1;
      assert before + ['['] + body + [']'] == before + (['['] + body + [']']);
    }

    // The loop of print_array
    method PrintItems(items: Items) returns (ok: bool)
      requires Valid() && offset < buffer.Length && WfItems(items)
      modifies this`buffer, this`offset, this`depth, buffer
      ensures ok ==> Valid'(old(buffer[..offset]) + ItemsText(items, old(depth), format)) && depth == old(depth)
      ensures ok ==> old(offset) + |ItemsText(items, old(depth), format)| + 1 <= Limit()
      ensures !ok ==> old(offset) + |ItemsText(items, old(depth), format)| + 2 > Limit()
      ensures Valid() && (buffer == old(buffer) || (!noalloc && fresh(buffer))) && Limit() == old(Limit())
      decreases items, 1
    {
      hide Holds, Valid', ItemsText, NulFree, Text;
      ghost var whole := buffer[..offset] + ItemsText(items, depth, format);
      var current := items;
      while current.Item?
        invariant Valid() && offset < buffer.Length && (buffer == old(buffer) || (!noalloc && fresh(buffer))) && Limit() == old(Limit())
        invariant depth == old(depth) && WfItems(current)
        invariant buffer[..offset] + ItemsText(current, depth, format) == whole
        invariant current == items || current < items
        decreases current
      {
        ghost var before, t := buffer[..offset], Text(current.head, depth, format);
        NextItem(current, depth, format, before);
        ok := PrintValue(current.head);
        if !ok {
          return;
        }
        UpdateOffset(before + t);
        WrittenIs(before + t);
        if current.tail.Item? {
          var length := if format then 2 else 1;
          ok := Ensure(length + 1);
          if !ok {
            return;
          }
          Put(Comma(true, format));
          WrittenIs(before + t + Comma(true, format));
        }
        current := current.tail;
      }
      NothingLeft(depth, format, buffer[..offset]);
      IsWritten(whole);
      ok := true;
    }

    // What opens an object
    method PrintStart(text: bytes) returns (ok: bool)
      requires Valid()
      modifies this`buffer, this`offset, buffer
      ensures ok ==> Valid'(old(buffer[..offset]) + text)
      ensures !ok ==> old(offset) + |text| + 2 > Limit()
      ensures Valid() && (buffer == old(buffer) || (!noalloc && fresh(buffer))) && Limit() == old(Limit())
    {
      hide Holds, Valid';
      ok := Ensure(|text| + 1);
      if ok {
        Put(text);
      }
    }

    // print_object
    method PrintObject(members: Members) returns (ok: bool)
      requires Valid() && WfMembers(members)
      modifies this`buffer, this`offset, this`depth, buffer
      ensures ok == (old(offset) + |Text(Object(members), old(depth), format)| + 2 <= old(Limit()))
      ensures Valid() && (buffer == old(buffer) || (!noalloc && fresh(buffer))) && Limit() == old(Limit())
      ensures ok ==> Holds(old(buffer[..offset]) + Text(Object(members), old(depth), format)) && depth == old(depth)
      decreases members, 2
    {
      hide Holds, Valid', MembersText, NulFree, WfMembers, Text, If, Tabs;
      ghost var before, d, body := buffer[..offset], depth, MembersText(members, depth + 1, format);
      var open := ['{'] + If(format, ['\n']);
      ObjectTextIs(members, d, format, before);
      ok := PrintStart(open);
      if !ok {
        return;
      }
      WrittenIs(before + open);
      depth := depth + 1;
      ok := PrintMembers(members);
      if !ok {
        return;
      }
      WrittenIs(before + open + body);
      ok := PrintEnd(If(format, Tabs(depth - 1)) + ['}']);
      if !ok {
        return;
      }
      depth := depth - 1;
    }

    // The key of a member, its colon, and what stands before and between them
    method PrintKey(name: bytes) returns (ok: bool)
      requires Valid() && offset < buffer.Length && NulFree(name)
      modifies this`buffer, this`offset, buffer
      ensures ok ==> Valid'(old(buffer[..offset]) + KeyText(name, depth, format))
      ensures !ok ==> old(offset) + |KeyText(name, depth, format)| + 2 > Limit()
      ensures Valid() && (buffer == old(buffer) || (!noalloc && fresh(buffer))) && Limit() == old(Limit())
    {
      hide Holds, Valid', NulFree, If, KeyText, Quote, Tabs;
      ghost var before := buffer[..offset];
      KeyTextIs(name, depth, format, before);
      if format {
        ok := Ensure(depth);
        if !ok {
          return;
        }
        PutTabs(depth);
        WrittenIs(before + Tabs(depth));
      }
      ghost var indent := If(format, Tabs(depth));
      assert buffer[..offset] == before + indent;
      ok := PrintStringPtr(name);
      if !ok {
        return;
      }
      UpdateOffset(before + indent + Quote(name));
      WrittenIs(before + indent + Quote(name));
      ok := Ensure(if format then 2 else 1);
      if !ok {
        return;
      }
      Put([':'] + If(format, ['\t']));
    }

    // One member, up to the comma and the end of its line
    method PrintMember(name: bytes, value: Json, more: bool) returns (ok: bool)
      requires Valid() && offset < buffer.Length && NulFree(name) && Wf(value)
      modifies this`buffer, this`offset, this`depth, buffer
      ensures ok ==> depth == old(depth) && Valid'(old(buffer[..offset]) + MemberText(name, value, more, old(depth), format))
      ensures !ok ==> old(offset) + |MemberText(name, value, more, old(depth), format)| + 2 > Limit()
      ensures Valid() && (buffer == old(buffer) || (!noalloc && fresh(buffer))) && Limit() == old(Limit())
      decreases value, 2
    {
      hide Holds, Valid', NulFree, Text, KeyText, If;
      ghost var before, key, t := buffer[..offset], KeyText(name, depth, format), Text(value, depth, format);
      ok := PrintKey(name);
      if !ok {
        return;
      }
      WrittenIs(before + key);
      ok := PrintValue(value);
      if !ok {
        return;
      }
      UpdateOffset(before + key + t);
      WrittenIs(before + key + t);
      var end := If(more, [',']) + If(format, ['\n']);
      ok := Ensure(|end| + 1);
      if !ok {
        return;
      }
      Put(end);
      assert before + key + t + end == before + (key + t + end);
    }

    // The loop of print_object
    method PrintMembers(members: Members) returns (ok: bool)
      requires Valid() && offset < buffer.Length && WfMembers(members)
      modifies this`buffer, this`offset, this`depth, buffer
      ensures ok ==> Valid'(old(buffer[..offset]) + MembersText(members, old(depth), format)) && depth == old(depth)
      ensures ok ==> old(offset) + |MembersText(members, old(depth), format)| + 1 <= Limit()
      ensures !ok ==> old(offset) + |MembersText(members, old(depth), format)| + 2 > Limit()
      ensures Valid() && (buffer == old(buffer) || (!noalloc && fresh(buffer))) && Limit() == old(Limit())
      decreases members, 1
    {
      hide Holds, Valid', MembersText, MemberText, NulFree;
      ghost var whole := buffer[..offset] + MembersText(members, depth, format);
      var current := members;
      while current.Member?
        invariant Valid() && offset < buffer.Length && (buffer == old(buffer) || (!noalloc && fresh(buffer))) && Limit() == old(Limit())
        invariant depth == old(depth) && WfMembers(current)
        invariant buffer[..offset] + MembersText(current, depth, format) == whole
        invariant current == members || current < members
        decreases current
      {
        ghost var before := buffer[..offset];
        ghost var member := MemberText(current.name, current.value, current.next.Member?, depth, format);
        NextMember(current, depth, format, before);
        ok := PrintMember(current.name, current.value, current.next.Member?);
        if !ok {
          return;
        }
        WrittenIs(before + member);
        current := current.next;
      }
      NoMembersLeft(depth, format, buffer[..offset]);
      IsWritten(whole);
      ok := true;
    }

    lemma IsWritten(text: bytes)
      requires offset < buffer.Length && buffer[..offset] == text
      ensures Valid'(text)
    {
    }

    lemma WrittenIs(text: bytes)
      requires Valid'(text)
      ensures offset == |text| && offset < buffer.Length && buffer[..offset] == text
    {
    }
  }

  const DEFAULT_BUFFER_SIZE := 256

  // print, for cJSON_Print and cJSON_PrintUnformatted
  method Print(j: Json, format: bool) returns (r: Option<bytes>)
    requires Wf(j)
    ensures r == if |Text(j, 0, format)| + 2 <= 0x7FFF_FFFF then Some(Text(j, 0, format)) else None
  {
    hide Text, Wf;
    var p := new PrintBuffer(DEFAULT_BUFFER_SIZE, false, format);
    ghost var text := Text(j, 0, format);
    assert p.buffer[..0] + text == text;
    var ok := p.PrintValue(j);
    if !ok {
      return None;
    }
    p.UpdateOffset(text);
    r := Some(p.buffer[..p.offset]);
  }

  // cJSON_PrintPreallocated: it takes one byte more than the text and its NUL.
  method PrintPreallocated(j: Json, buffer: array<byte>, format: bool) returns (ok: bool)
    requires Wf(j) && buffer.Length <= INT_MAX
    modifies buffer
    ensures ok == (|Text(j, 0, format)| + 2 <= buffer.Length)
    ensures ok ==> var n := |Text(j, 0, format)|; buffer[..n] == Text(j, 0, format) && buffer[n] == '\0'
  {
    hide Text, Wf;
    var p := new PrintBuffer.Over(buffer, format);
    ghost var text := Text(j, 0, format);
    assert p.buffer[..0] + text == text;
    ok := p.PrintValue(j);
  }

  lemma NextItem(items: Items, depth: nat, format: bool, before: bytes)
    requires items.Item?
    ensures var t, rest := Text(items.head, depth, format), ItemsText(items.tail, depth, format);
      before + ItemsText(items, depth, format) == before + t + Comma(items.tail.Item?, format) + rest
      && (items.tail.NoItems? ==> before + ItemsText(items, depth, format) == before + t && rest == [])
  {
    hide Text;
  }

  lemma NothingLeft(depth: nat, format: bool, before: bytes)
    ensures before + ItemsText(NoItems, depth, format) == before
  {
  }

  lemma NoMembersLeft(depth: nat, format: bool, before: bytes)
    ensures before + MembersText(NoMembers, depth, format) == before
  {
  }

  // A member with the comma and the end of its line
  function MemberText(name: bytes, value: Json, more: bool, depth: nat, format: bool): bytes {
    KeyText(name, depth, format) + Text(value, depth, format) + (If(more, [',']) + If(format, ['\n']))
  }

  lemma NextMember(ms: Members, depth: nat, format: bool, before: bytes)
    requires ms.Member?
    ensures var member := MemberText(ms.name, ms.value, ms.next.Member?, depth, format);
      before + MembersText(ms, depth, format) == before + member + MembersText(ms.next, depth, format)
  {
    hide Text, KeyText, If;
    var key, t, rest := KeyText(ms.name, depth, format), Text(ms.value, depth, format), MembersText(ms.next, depth, format);
    Regrouped(before, key, t, If(ms.next.Member?, [',']), If(format, ['\n']), rest);
  }

  lemma Regrouped(before: bytes, key: bytes, t: bytes, comma: bytes, line: bytes, rest: bytes)
    ensures before + (key + t + comma + line + rest) == before + (key + t + (comma + line)) + rest
  {
  }

  lemma KeyTextIs(name: bytes, depth: nat, format: bool, before: bytes)
    ensures before + KeyText(name, depth, format)
         == before + If(format, Tabs(depth)) + Quote(name) + ([':'] + If(format, ['\t']))
    ensures |If(format, Tabs(depth))| == if format then depth else 0
    ensures |[':'] + If(format, ['\t'])| == if format then 2 else 1
    ensures before + If(format, Tabs(depth)) == if format then before + Tabs(depth) else before
  {
    hide Quote;
  }

  lemma ObjectTextIs(ms: Members, depth: nat, format: bool, before: bytes)
    ensures before + Text(Object(ms), depth, format)
         == before + (['{'] + If(format, ['\n'])) + MembersText(ms, depth + 1, format) + (If(format, Tabs(depth)) + ['}'])
    ensures forall i | 0 <= i < |If(format, Tabs(depth)) + ['}']| :: (If(format, Tabs(depth)) + ['}'])[i] != '\0'
  {
    hide MembersText;
  }

  lemma QuoteIs(before: bytes, input: bytes)
    ensures before + ['\"'] + EscapeBytes(input) + ['\"'] == before + Quote(input)
    ensures (before + Quote(input))[|before|..] == Quote(input) && |Quote(input)| == |EscapeBytes(input)| + 2
  {
    hide EscapeBytes;
  }

  lemma DecimalNulFree(n: int)
    ensures NulFree(Decimal(n))
  {
    DigitsNulFree(if n < 0 then -n else n);
  }

  lemma QuoteNulFree(s: bytes)
    requires NulFree(s)
    ensures NulFree(Quote(s))
  {
    hide EscapeBytes;
    EscapesNulFree(s);
  }

  lemma EscapeStep(input: bytes, i: nat, done: bytes)
    requires i < |input|
    ensures done + EscapeBytes(input[i..]) == (done + EscapeByte(input[i])) + EscapeBytes(input[i + 1..])
  {
    hide EscapeByte;
    assert input[i..][1..] == input[i + 1..];
  }
}
