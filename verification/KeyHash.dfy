// The polynomial hash of the key set (src/ekeyset.c).
module KeyHash {
  import opened Bytes

  const P := 31
  const M := 1_000_000_009

  // C's `char` is signed, and C's remainder has the sign of the dividend.
  function Signed(c: byte): int {
    if c as int < 0x80 then c as int else c as int - 0x100
  }

  function Remainder(x: int): int {
    if x >= 0 then x % M else -((-x) % M)
  }

  // The loop of hash_string from s[i] on
  function HashFrom(s: bytes, i: nat, hash: int, power: int): int
    decreases |s| - i
  {
    if i >= |s| then hash
    else HashFrom(s, i + 1, Remainder(hash + (Signed(s[i]) - 'a' as int + 1) * power), Remainder(power * P))
  }

  // 0x7FFFFFFF & hash keeps the low 31 bits of the two's complement.
  function HashString(s: bytes): (h: nat)
    ensures h < 0x8000_0000
  {
    HashFrom(s, 0, 0, 1) % 0x8000_0000
  }

  // ----- What the hash is -----

  // A byte as eight bits of two's complement
  function SignedByte(c: byte): int {
    (c as int + 128) % 256 - 128
  }

  // The sum of (c_i - 96) * 31^i
  function Polynomial(s: bytes): int {
    if s == [] then 0 else SignedByte(s[0]) - 96 + 31 * Polynomial(s[1..])
  }

  lemma RemainderOf(x: int) returns (q: int)
    ensures Remainder(x) == x + M * q && -M < Remainder(x) < M && (x >= 0 ==> Remainder(x) >= 0)
  {
    q := if x >= 0 then -(x / M) else (-x) / M;
  }

  lemma {:induction false} HashIsPolynomial(s: bytes, i: nat, hash: int, power: int) returns (q: int)
    requires i <= |s| && -M < hash < M && 0 <= power < M
    ensures HashFrom(s, i, hash, power) == hash + power * Polynomial(s[i..]) + M * q
    ensures -M < HashFrom(s, i, hash, power) < M
    decreases |s| - i
  {
    hide Remainder;
    if i == |s| {
      q := 0;
    } else {
      var v, tail := Signed(s[i]) - 96, Polynomial(s[i + 1..]);
      var q1 := RemainderOf(hash + v * power);
      var q2 := RemainderOf(power * P);
      var r := HashIsPolynomial(s, i + 1, Remainder(hash + v * power), Remainder(power * P));
      assert s[i..][1..] == s[i + 1..];
      q := q1 + q2 * tail + r;
      Rearranged(hash, v, power, tail, q1, q2, r);
    }
  }

  lemma Rearranged(hash: int, v: int, power: int, tail: int, q1: int, q2: int, r: int)
    ensures (hash + v * power + M * q1) + (power * P + M * q2) * tail + M * r ==
      hash + power * (v + P * tail) + M * (q1 + q2 * tail + r)
  {
    assert (power * P + M * q2) * tail == power * (P * tail) + M * (q2 * tail);
    assert power * (v + P * tail) == power * v + power * (P * tail);
  }

  // Up to a multiple of the modulus the hash is the polynomial, cut down to 31 bits at the end.
  lemma HashStringIsPolynomial(s: bytes) returns (q: int)
    ensures var h := Polynomial(s) + 1_000_000_009 * q;
      -1_000_000_009 < h < 1_000_000_009 && HashString(s) == h % 0x8000_0000
  {
    q := HashIsPolynomial(s, 0, 0, 1);
    assert s[0..] == s;
  }

  lemma HashStep(s: bytes, i: nat, hash: int, power: int)
    requires i < |s|
    ensures var v := SignedByte(s[i]) - 96;
      HashFrom(s, i, hash, power) == HashFrom(s, i + 1, Remainder(hash + v * power), Remainder(power * P))
  {
    hide Remainder;
  }

  lemma HashEnds(s: bytes, hash: int, power: int)
    ensures HashFrom(s, |s|, hash, power) == hash
  {
  }

  lemma SmallIsKept(x: int)
    requires -1_000_000 <= x <= 1_000_000
    ensures Remainder(x) == x
  {
  }

  // The hash of one byte or two is the polynomial itself, its low 31 bits kept, also where it is negative.
  lemma ShortHash(s: bytes)
    requires 1 <= |s| <= 2
    ensures HashString(s) == Polynomial(s) % 0x8000_0000
  {
    hide Remainder, HashFrom;
    var v := SignedByte(s[0]) - 96;
    HashStep(s, 0, 0, 1);
    SmallIsKept(0 + v * 1);
    SmallIsKept(1 * P);
    if |s| == 1 {
      assert s[1..] == [];
      HashEnds(s, v, 31);
    } else {
      assert s[1..][1..] == [];
      var w := SignedByte(s[1]) - 96;
      assert Polynomial(s[1..]) == w;
      HashStep(s, 1, v, 31);
      SmallIsKept(v + w * 31);
      SmallIsKept(31 * P);
      HashEnds(s, v + w * 31, 961);
    }
  }

  // ----- The code, on 64-bit integers: that it verifies shows that none of them overflows -----

  newtype int64 = x: int | -0x8000_0000_0000_0000 <= x < 0x8000_0000_0000_0000

  method Hash(s: bytes) returns (h: nat)
    ensures h == HashString(s)
  {
    if |s| == 0 {
      return 0;
    }
    var hash: int64, power: int64 := 0, 1;
    var i := 0;
    while i < |s|
      invariant i <= |s| && -M < hash as int < M && 0 <= power as int < M
      invariant HashFrom(s, i, hash as int, power as int) == HashFrom(s, 0, 0, 1)
    {
      var v := (Signed(s[i]) - 'a' as int + 1) as int64;
      ghost var _ := RemainderOf(hash as int + v as int * power as int);
      ghost var _ := RemainderOf(power as int * P);
      ProductIsSmall(v as int, power as int);
      hash := Truncated(hash + v * power);
      power := Truncated(power * P as int64);
      i := i + 1;
    }
    h := hash as int % 0x8000_0000;
  }

  // The % of C
  function Truncated(x: int64): (r: int64)
    requires x > -0x8000_0000_0000_0000
    ensures r as int == Remainder(x as int)
  {
    if x >= 0 then x % 1_000_000_009 else -((-x) % 1_000_000_009)
  }

  lemma ProductIsSmall(v: int, power: int)
    requires -224 <= v <= 31 && 0 <= power < M
    ensures -224 * M <= v * power <= 31 * M
  {
    Monotone(v, 31, power);
    Monotone(-224, v, power);
  }

  lemma Monotone(a: int, b: int, power: int)
    requires a <= b && power >= 0
    ensures a * power <= b * power
  {
    assert (b - a) * power >= 0;
  }
}
