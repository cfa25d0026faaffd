// parse_string (examples/json/cJSON.c) on its output buffer: what it writes, and that it has room for it.
module JsonString {
  import opened Bytes
  import opened JsonParse

  // The steps of the first pass from i on: an escape counts once. The buffer is sized by them.
  function Units(c: bytes, i: nat): nat
    decreases |c| - i
  {
    if i >= |c| || c[i] == '\"' then 0
    else if c[i] == '\\' then 1 + Units(c, i + 2)
    else 1 + Units(c, i + 1)
  }

  // From b the first pass comes to the same closing quote.
  predicate Aligned(c: bytes, b: nat, end: nat) {
    ClosingQuote(c, b) == Some(end)
  }

  lemma AlignedStep(c: bytes, b: nat, end: nat) returns (next: nat)
    requires Aligned(c, b, end) && b < end
    ensures Aligned(c, next, end) && b < next <= end && Units(c, b) == 1 + Units(c, next)
    ensures next == b + if c[b] == '\\' then 2 else 1
  {
    next := b + if c[b] == '\\' then 2 else 1;
  }

  // The first step boundary at or after p: it is at most one byte on, and a step covers at most two bytes.
  lemma {:induction false} Advance(c: bytes, b: nat, p: nat, end: nat) returns (next: nat)
    requires Aligned(c, b, end) && b <= p <= end
    ensures Aligned(c, next, end) && p <= next <= p + 1 && Units(c, b) >= Units(c, next)
    ensures next - b <= 2 * (Units(c, b) - Units(c, next))
    decreases p - b
  {
    hide Units, Aligned;
    next := b;
    if b < p {
      next := AlignedStep(c, b, end);
      if next < p {
        next := Advance(c, next, p, end);
      }
    }
  }

  lemma {:induction false} PlainRun(c: bytes, b: nat, n: nat, end: nat)
    requires Aligned(c, b, end) && b + n <= end && forall k | b <= k < b + n :: c[k] != '\\'
    ensures Aligned(c, b + n, end) && Units(c, b) == n + Units(c, b + n)
    decreases n
  {
    hide Units, Aligned;
    if n > 0 {
      var next := AlignedStep(c, b, end);
      PlainRun(c, next, n - 1, end);
    }
  }

  // The second pass, at p with `written` bytes out, has room for what is left: b is the next boundary.
  ghost predicate HasRoom(c: bytes, p: nat, written: nat, end: nat, room: nat) {
    if p > end then written <= room
    else exists b :: p <= b <= p + 1 && Aligned(c, b, end) && written + Units(c, b) + (b - p) <= room
  }

  lemma RoomForByte(c: bytes, p: nat, written: nat, end: nat, room: nat)
    requires p < end < |c| && HasRoom(c, p, written, end, room) && c[end] == '\"'
    ensures written < room
    ensures c[p] != '\\' ==> HasRoom(c, p + 1, written + 1, end, room)
    ensures c[p] == '\\' ==> HasRoom(c, p + 2, written + 1, end, room)
  {
    hide Units, Aligned;
    var b :| p <= b <= p + 1 && Aligned(c, b, end) && written + Units(c, b) + (b - p) <= room;
    AlignedBound(c, b, end);
    if b == p {
      var next := AlignedStep(c, b, end);
    } else if b < end {
      var next := AlignedStep(c, b, end);
    }
  }

  lemma AlignedBound(c: bytes, b: nat, end: nat)
    requires Aligned(c, b, end)
    ensures b <= end
  {
  }

  lemma HexDigitsArePlain(c: bytes, i: nat)
    requires i + 4 <= |c| && ParseHex4(c, i) > 0
    ensures forall k | i <= k < i + 4 :: c[k] != '\\'
  {
    assert HexDigit('\\') == None;
  }

  lemma RoomForLiteral(c: bytes, p: nat, written: nat, end: nat, room: nat)
    requires p < end < |c| && HasRoom(c, p, written, end, room) && c[p] == '\\' && c[p + 1] == 'u'
    requires Utf16Literal(c, p, end).1 > 0
    ensures var (utf8, length) := Utf16Literal(c, p, end);
      written + |utf8| <= room && HasRoom(c, p + length, written + |utf8|, end, room)
  {
    hide Units, Aligned, EncodeUtf8;
    var (utf8, length) := Utf16Literal(c, p, end);
    var b :| p <= b <= p + 1 && Aligned(c, b, end) && written + Units(c, b) + (b - p) <= room;
    AlignedBound(c, b, end);
    if ParseHex4(c, p + 2) == 0 {
      assert |utf8| == 1 by { assert EncodeUtf8(0) == Utf16Literal(c, p, end).0; OneByte(); }
      var next := Advance(c, b, p + 6, end);
    } else {
      HexDigitsArePlain(c, p + 2);
      var u := b;
      if b == p {
        u := AlignedStep(c, b, end);
      } else {
        PlainRun(c, b, 1, end);
        u := b + 1;
      }
      PlainRun(c, u, 4, end);
      assert Aligned(c, p + 6, end) && Units(c, b) == 5 + Units(c, p + 6);
      if length == 12 {
        HexDigitsArePlain(c, p + 8);
        var v := AlignedStep(c, p + 6, end);
        PlainRun(c, v, 4, end);
      } else {
        ThreeBytes(ParseHex4(c, p + 2));
      }
    }
  }

  lemma OneByte()
    ensures |EncodeUtf8(0)| == 1
  {
  }

  lemma ThreeBytes(code: nat)
    requires code < 0x1_0000
    ensures |EncodeUtf8(code)| <= 3
  {
  }
}
