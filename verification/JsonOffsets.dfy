// Reading examples/json/cJSON.c's texts at an offset.
module JsonOffsets {
  import opened Bytes
  import opened JsonParse

  // ----- Texts at an offset -----

  lemma AtBoth(c: bytes, o: nat, a: bytes, b: bytes)
    requires At(c, o, a + b)
    ensures At(c, o, a) && At(c, o + |a|, b) && o + |a| + |b| <= |c|
  {
    var t := c[o..o + |a + b|];
    assert t[..|a|] == a && t[|a|..] == b;
    assert t[..|a|] == c[o..o + |a|] && t[|a|..] == c[o + |a|..o + |a| + |b|];
  }

  lemma AtByte(c: bytes, o: nat, t: bytes, k: nat)
    requires At(c, o, t) && k < |t|
    ensures o + k < |c| && c[o + k] == t[k]
  {
    assert c[o + k] == c[o..o + |t|][k];
  }

  lemma NotAt(c: bytes, o: nat, t: bytes)
    requires t != [] && o < |c|
    ensures c[o] != t[0] ==> !At(c, o, t)
  {
    if At(c, o, t) {
      AtByte(c, o, t, 0);
    }
  }

  // Only blanks from o on, up to the byte at p
  predicate BlankUpTo(c: bytes, o: nat, p: nat) {
    && o <= p < |c| && c[p] as int > 32
    && forall k | o <= k < p :: c[k] as int <= 32
  }

  lemma {:induction false} SkipsBlanks(c: bytes, o: nat, p: nat)
    requires BlankUpTo(c, o, p)
    ensures Skip(c, o) == SkipBlanks(c, o) == p
    decreases p - o
  {
    if o < p {
      SkipsBlanks(c, o + 1, p);
    }
  }

  lemma NotBlank(c: bytes, o: nat)
    requires o < |c| && c[o] as int > 32
    ensures BlankUpTo(c, o, o) && Skip(c, o) == o
  {
  }

  // What follows a number must not go on with it.
  predicate NumberEnds(c: bytes, o: nat) {
    o < |c| ==> !IsNumberByte(c[o])
  }

  lemma PlainClosing(c: bytes, i: nat)
    requires i < |c| && c[i] != '\"' && c[i] != '\\'
    ensures ClosingQuote(c, i) == ClosingQuote(c, i + 1)
  {
  }

  lemma {:induction false} SpanIs(c: bytes, o: nat, t: bytes, limit: nat)
    requires At(c, o, t) && (|t| == limit || NumberEnds(c, o + |t|)) && |t| <= limit && forall b <- t :: IsNumberByte(b)
    ensures NumberSpan(c, o, limit) == t
    decreases |t|
  {
    hide IsNumberByte;
    if t == [] {
    } else {
      AtByte(c, o, t, 0);
      assert t == [t[0]] + t[1..];
      AtBoth(c, o, [t[0]], t[1..]);
      SpanIs(c, o + 1, t[1..], limit - 1);
    }
  }
}
