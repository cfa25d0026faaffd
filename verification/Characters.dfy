// The characters and reserved words of ELTN, as its documentation lists them (doc/eltn.md, Appendix A, by their codes).
module Characters {
  import opened Bytes

  predicate IsSpace(c: byte) {
    c as int in {0x09, 0x0A, 0x0B, 0x0C, 0x0D, 0x20}
  }

  predicate IsLetter(c: byte) {
    0x41 <= c as int <= 0x5A || 0x61 <= c as int <= 0x7A
  }

  predicate IsDigit(c: byte) {
    0x30 <= c as int <= 0x39
  }

  predicate IsHexDigit(c: byte) {
    0x30 <= c as int <= 0x39 || 0x41 <= c as int <= 0x46 || 0x61 <= c as int <= 0x66
  }

  predicate IsOctDigit(c: byte) {
    0x30 <= c as int <= 0x37
  }

  predicate IsQuote(c: byte) {
    c as int in {0x22, 0x27}
  }

  // A letter, a digit or an underscore
  predicate IsNamePart(c: byte) {
    IsLetter(c) || IsDigit(c) || c as int == 0x5F
  }

  predicate IsName(text: bytes) {
    text != [] && !IsDigit(text[0]) && forall c <- text :: IsNamePart(c)
  }

  // Hexadecimal digits, signs, points, and the letters of exponents and of 0x
  predicate IsNumberPart(c: byte) {
    IsHexDigit(c) || c as int in {0x2B, 0x2D, 0x2E, 0x45, 0x50, 0x58, 0x65, 0x70, 0x78}
  }

  const RESERVED_WORDS: seq<bytes> := [
    "and", "break", "do", "else", "elseif", "end", "for", "function", "goto", "if", "in",
    "local", "not", "or", "repeat", "return", "then", "until", "while"
  ]

  // A short text that `literal` starts with
  predicate Starts(text: bytes, literal: string) {
    text != [] && text <= literal
  }

  // ----- Long brackets -----

  // Two of the bracket with `level` equals signs between them
  predicate IsLongBracket(s: bytes, bracket: byte, level: nat) {
    |s| == level + 2 && s[0] == s[level + 1] == bracket && forall k | 1 <= k <= level :: s[k] == '='
  }

  // ----- Numbers -----

  // The parts of a number literal: its digits are hexadecimal behind 0x.
  datatype NumberForm = NumberForm(
    negative: bool, prefix: bytes,
    whole: bytes, point: bool, fraction: bytes,
    exponent: Option<ExponentForm>)

  datatype ExponentForm = ExponentForm(letter: byte, sign: bytes, digits: bytes)

  predicate AreDigits(s: bytes, hex: bool) {
    forall c <- s :: if hex then IsHexDigit(c) else IsDigit(c)
  }

  predicate WfNumber(n: NumberForm) {
    var hex := n.prefix != [];
    && n.prefix in {[], ['0', 'x'], ['0', 'X']}
    && AreDigits(n.whole, hex) && AreDigits(n.fraction, hex)
    && (n.fraction != [] ==> n.point) && (n.whole != [] || n.fraction != [])
    && (n.exponent.Some? ==> WfExponent(n.exponent.value, hex))
  }

  predicate WfExponent(e: ExponentForm, hex: bool) {
    && (if hex then e.letter == 'p' || e.letter == 'P' else e.letter == 'e' || e.letter == 'E')
    && e.sign in {[], ['+'], ['-']} && e.digits != [] && AreDigits(e.digits, hex)
  }

  function ExponentText(e: Option<ExponentForm>): bytes {
    if e.None? then [] else [e.value.letter] + e.value.sign + e.value.digits
  }

  function NumberText(n: NumberForm): bytes {
    (if n.negative then ['-'] else []) + n.prefix + n.whole + (if n.point then ['.'] else []) + n.fraction
    + ExponentText(n.exponent)
  }
}
