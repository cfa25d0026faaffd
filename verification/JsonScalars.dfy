// The strings and numbers that examples/json/cJSON.c prints, and that they are read back.
module JsonScalars {
  import opened Bytes
  import opened JsonTree
  import opened JsonText
  import opened JsonParse
  import opened JsonStrings
  import opened JsonGrammar
  import opened JsonComplete

  // ----- Strings -----

  // How a byte is printed: as it is; else by a letter, unless it is the slash; else by its code in small digits
  predicate IsPrintedAs(p: Piece, b: byte) {
    match p
    case Plain(c) => c == b && b as int >= 0x20 && b as int !in {0x22, 0x5C}
    case Escaped(letter) => letter != '/' && Meaning(letter) == Some(b)
    case Unit(d0, d1, d2, d3) =>
      && b as int < 0x20 && (forall letter: byte :: Meaning(letter) != Some(b))
      && UnitValue(p) == b as int && IsSmallDigit(d0) && IsSmallDigit(d1) && IsSmallDigit(d2) && IsSmallDigit(d3)
  }

  predicate IsSmallDigit(d: byte) {
    0x30 <= d as int <= 0x39 || 0x61 <= d as int <= 0x66
  }

  lemma ByteIsPrinted(b: byte) returns (p: Piece)
    ensures PieceText(p) == EscapeByte(b) && IsPrintedAs(p, b)
  {
    hide Meaning;
    var short := ShortEscape(b);
    if short.Some? {
      p := Escaped(short.value);
      LetterMeans(b);
    } else if b as int > 31 {
      p := Plain(b);
    } else {
      p := Unit('0', '0', HEX_DIGITS[b as int / 16], HEX_DIGITS[b as int % 16]);
      HexDigitMeans(b as int / 16);
      HexDigitMeans(b as int % 16);
      HexDigitMeans(0);
      NoLetterMeans(b);
    }
  }

  lemma LetterMeans(b: byte)
    ensures var short := ShortEscape(b); short.Some? ==> short.value !in {'u', '/'} && Meaning(short.value) == Some(b)
  {
  }

  lemma NoLetterMeans(b: byte)
    requires ShortEscape(b).None? && b as int < 32
    ensures forall letter: byte :: Meaning(letter) != Some(b)
  {
  }

  lemma HexDigitMeans(n: nat)
    requires n < 16
    ensures DigitOf(HEX_DIGITS[n]) == Some(n) && IsSmallDigit(HEX_DIGITS[n])
  {
  }

  // The printed form of a string, byte by byte
  lemma {:induction false} StringIsPrinted(s: bytes) returns (ps: seq<Piece>)
    ensures |ps| == |s| && PiecesText(ps) == EscapeBytes(s) && forall k | 0 <= k < |s| :: IsPrintedAs(ps[k], s[k])
  {
    hide PieceText, EscapeByte, IsPrintedAs;
    ps := [];
    if s != [] {
      var p := ByteIsPrinted(s[0]);
      var rest := StringIsPrinted(s[1..]);
      ps := [p] + rest;
      assert ps[1..] == rest;
    }
  }

  lemma PrintedMeans(p: Piece, b: byte)
    requires IsPrintedAs(p, b)
    ensures WfPiece(p) && !IsHigh(p) && FirstValueOf(p) == Some([b])
  {
    hide Meaning;
    UHasNoMeaning();
  }

  lemma UHasNoMeaning()
    ensures Meaning('u') == None
  {
  }

  // What a piece stands for on its own
  function FirstValueOf(p: Piece): Option<bytes> {
    FirstValue([p])
  }

  lemma {:induction false} PrintedStringMeans(s: bytes, ps: seq<Piece>)
    requires |ps| == |s| && forall k | 0 <= k < |s| :: IsPrintedAs(ps[k], s[k])
    ensures (forall p <- ps :: WfPiece(p)) && Value(ps) == Some(s)
    decreases |s|
  {
    hide IsPrintedAs, WfPiece, FirstValue, IsHigh;
    if s != [] {
      PrintedMeans(ps[0], s[0]);
      PrintedStringMeans(s[1..], ps[1..]);
      FirstOfMany(ps);
      assert ps == [ps[0]] + ps[1..];
      assert s == [s[0]] + s[1..];
    }
  }

  lemma FirstOfMany(ps: seq<Piece>)
    requires ps != [] && !IsHigh(ps[0])
    ensures FirstValue(ps) == FirstValueOf(ps[0]) && Rest(ps) == ps[1..]
  {
  }

  lemma AllIsUpToNul(s: bytes, r: bytes)
    requires NulFree(s) && IsUpToNul(s, r)
    ensures r == s
  {
  }

  // Every NUL-free string is read back from its quoted form.
  lemma QuoteIsQuoted(s: bytes)
    requires NulFree(s)
    ensures IsQuoted(Quote(s), s)
  {
    hide PiecesText, EscapeBytes, Value, IsQuoted, IsPrintedAs, WfPiece, IsUpToNul, NulFree;
    var ps := StringIsPrinted(s);
    PrintedStringMeans(s, ps);
    var value := PiecesAreQuoted(ps);
    AllIsUpToNul(s, value);
  }

  // ----- Numbers -----

  predicate IsDigits(t: bytes) {
    t != [] && forall i | 0 <= i < |t| :: '0' <= t[i] <= '9'
  }

  predicate IsInteger(t: bytes) {
    t != [] && IsDigits(if t[0] == '-' then t[1..] else t)
  }

  // Without a zero in front, and zero without a sign
  predicate IsShortest(t: bytes) {
    && t != [] && (t[0] == '0' ==> |t| == 1)
    && (t[0] == '-' ==> |t| > 1 && t[1] != '0')
  }

  function DigitsValue(t: bytes): int {
    if t == [] then 0 else 10 * DigitsValue(t[..|t| - 1]) + (t[|t| - 1] as int - '0' as int)
  }

  function IntegerValue(t: bytes): int
    requires t != []
  {
    if t[0] == '-' then -DigitsValue(t[1..]) else DigitsValue(t)
  }

  // The one thing asked of strtod: it takes all of an integer text whose value is a C int.
  ghost predicate ReadsIntegers(strtod: Strtod) {
    forall t: bytes | IsInteger(t) && INT_MIN <= IntegerValue(t) <= INT_MAX :: strtod(t) == Some((IntegerValue(t), |t|))
  }

  // strtod itself is such a reader; so is one that knows nothing but integers.
  lemma IntegerReader() returns (strtod: Strtod)
    ensures ReadsIntegers(strtod)
  {
    strtod := t => if IsInteger(t) then Some((IntegerValue(t), |t|)) else None;
  }

  lemma {:induction false} DigitsAreDecimal(n: nat, limit: nat)
    requires limit > 0 && n < Pow10(limit)
    ensures IsDigits(Digits(n)) && DigitsValue(Digits(n)) == n && |Digits(n)| <= limit
    ensures Digits(n)[0] == '0' ==> n == 0 && |Digits(n)| == 1
  {
    var t := Digits(n);
    if n >= 10 {
      DigitsAreDecimal(n / 10, limit - 1);
      assert t[..|t| - 1] == Digits(n / 10);
    } else {
      assert t[..0] == [];
    }
  }

  function Pow10(n: nat): nat {
    if n == 0 then 1 else 10 * Pow10(n - 1)
  }

  lemma DecimalIsInteger(n: int)
    requires INT_MIN <= n <= INT_MAX
    ensures IsInteger(Decimal(n)) && IntegerValue(Decimal(n)) == n && |Decimal(n)| <= 11
    ensures forall b <- Decimal(n) :: IsNumberByte(b)
    ensures IsShortest(Decimal(n)) && (n < 0 <==> Decimal(n)[0] == '-')
  {
    hide Digits, DigitsValue;
    assert Pow10(10) == 10_000_000_000;
    if n < 0 {
      DigitsAreDecimal(-n, 10);
      assert Decimal(n)[1..] == Digits(-n);
    } else {
      DigitsAreDecimal(n, 10);
      assert Decimal(n)[0] in Decimal(n);
    }
  }

  lemma {:induction false} DigitsStart(n: nat)
    ensures '0' <= Digits(n)[0] <= '9'
  {
    if n >= 10 {
      DigitsStart(n / 10);
    }
  }

  lemma DecimalIsNumeral(strtod: Strtod, n: int)
    requires INT_MIN <= n <= INT_MAX && ReadsIntegers(strtod)
    ensures IsNumeral(strtod, Decimal(n), n)
  {
    hide Decimal, IsNumberByte, IsNumeralByte, IntegerValue;
    DecimalIsInteger(n);
    NumeralBytes(Decimal(n));
    assert Decimal(n)[0] in Decimal(n);
  }
}
