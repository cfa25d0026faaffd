// The doubles that src/ekeyset.c compares, as IEEE 754 has them (section 3.4, binary64).
module Doubles {
  import opened Bytes
  import opened Probing

  // The low six of the eight bytes, least significant first
  function Low(d: Double): nat {
    d[0] as int + 0x100 * (d[1] as int + 0x100 * (d[2] as int
    + 0x100 * (d[3] as int + 0x100 * (d[4] as int + 0x100 * d[5] as int))))
  }

  function Bits(d: Double): nat {
    Low(d) + 0x1_0000_0000_0000 * (d[6] as int + 0x100 * d[7] as int)
  }

  predicate IsNegative(d: Double) {
    Bits(d) / 0x8000_0000_0000_0000 == 1
  }

  function Exponent(d: Double): nat {
    Bits(d) / 0x10_0000_0000_0000 % 0x800
  }

  function Fraction(d: Double): nat {
    Bits(d) % 0x10_0000_0000_0000
  }

  // m times 2 to the n
  function Scaled(m: nat, n: nat): nat {
    if n == 0 then m else 2 * Scaled(m, n - 1)
  }

  // The absolute value, times 2 to the 1074; infinity comes after all others.
  function Magnitude(exponent: nat, fraction: nat): nat {
    if exponent == 0 then fraction else Scaled(0x10_0000_0000_0000 + fraction, exponent - 1)
  }

  function NumberOf(d: Double): int {
    var m: int := Magnitude(Exponent(d), Fraction(d));
    if IsNegative(d) then -m else m
  }

  // ----- Bytes and fields -----

  lemma LowMeans(d: Double)
    ensures Low(d) < 0x1_0000_0000_0000
    ensures Low(d) == 0 <==> forall i | 0 <= i < 6 :: d[i] == '\0'
  {
    if Low(d) == 0 {
      assert forall i | 0 <= i < 6 :: d[i] as int == 0;
    }
  }

  lemma FieldsOf(d: Double)
    ensures IsNegative(d) <==> d[7] as int >= 0x80
    ensures Exponent(d) == d[7] as int % 0x80 * 0x10 + d[6] as int / 0x10
    ensures Fraction(d) == d[6] as int % 0x10 * 0x1_0000_0000_0000 + Low(d)
    ensures Exponent(d) < 0x800 && Fraction(d) < 0x10_0000_0000_0000
  {
    hide Low;
    LowMeans(d);
    Split(Low(d), d[6] as int, d[7] as int);
  }

  lemma Split(low: nat, b6: nat, b7: nat)
    requires low < 0x1_0000_0000_0000 && b6 < 0x100 && b7 < 0x100
    ensures var bits := low + 0x1_0000_0000_0000 * (b6 + 0x100 * b7);
      && (bits / 0x8000_0000_0000_0000 == if b7 >= 0x80 then 1 else 0)
      && bits / 0x10_0000_0000_0000 % 0x800 == b7 % 0x80 * 0x10 + b6 / 0x10
      && bits % 0x10_0000_0000_0000 == b6 % 0x10 * 0x1_0000_0000_0000 + low
  {
    var q := b7 * 0x10 + b6 / 0x10;
    assert low + 0x1_0000_0000_0000 * (b6 + 0x100 * b7)
        == 0x10_0000_0000_0000 * q + (b6 % 0x10 * 0x1_0000_0000_0000 + low);
    assert q == 0x800 * (b7 / 0x80) + (b7 % 0x80 * 0x10 + b6 / 0x10);
  }

  // The same fields, the same bytes
  lemma FieldsDecide(a: Double, b: Double)
    requires IsNegative(a) == IsNegative(b) && Exponent(a) == Exponent(b) && Fraction(a) == Fraction(b)
    ensures a == b
  {
    hide IsNegative, Exponent, Fraction, Low;
    FieldsOf(a);
    FieldsOf(b);
    LowMeans(a);
    LowMeans(b);
    HighDecides(a[6], a[7], Low(a), b[6], b[7], Low(b));
    LowDecides(a, b);
    assert forall i | 0 <= i < 8 :: a[i] == b[i];
  }

  lemma HighDecides(a6: byte, a7: byte, low: nat, b6: byte, b7: byte, low': nat)
    requires (a7 as int >= 0x80) == (b7 as int >= 0x80) && low < 0x1_0000_0000_0000 && low' < 0x1_0000_0000_0000
    requires a7 as int % 0x80 * 0x10 + a6 as int / 0x10 == b7 as int % 0x80 * 0x10 + b6 as int / 0x10
    requires a6 as int % 0x10 * 0x1_0000_0000_0000 + low == b6 as int % 0x10 * 0x1_0000_0000_0000 + low'
    ensures a6 == b6 && a7 == b7 && low == low'
  {
    assert a6 as int == b6 as int && a7 as int == b7 as int;
  }

  lemma LowDecides(a: Double, b: Double)
    requires Low(a) == Low(b)
    ensures forall i | 0 <= i < 6 :: a[i] == b[i]
  {
    var a4, b4 := a[4] as int + 0x100 * a[5] as int, b[4] as int + 0x100 * b[5] as int;
    var a3, b3 := a[3] as int + 0x100 * a4, b[3] as int + 0x100 * b4;
    var a2, b2 := a[2] as int + 0x100 * a3, b[2] as int + 0x100 * b3;
    var a1, b1 := a[1] as int + 0x100 * a2, b[1] as int + 0x100 * b2;
    Peel(a[0], a1, b[0], b1);
    Peel(a[1], a2, b[1], b2);
    Peel(a[2], a3, b[2], b3);
    Peel(a[3], a4, b[3], b4);
    Peel(a[4], a[5] as int, b[4], b[5] as int);
    assert a[5] as int == b[5] as int;
  }

  lemma Peel(x: byte, m: nat, y: byte, n: nat)
    requires x as int + 0x100 * m == y as int + 0x100 * n
    ensures x == y && m == n
  {
    assert x as int == y as int;
  }

  // A NaN has the highest exponent and some fraction, a zero has neither.
  lemma ClassesOf(d: Double)
    ensures IsNaN(d) <==> Exponent(d) == 0x7FF && Fraction(d) != 0
    ensures IsZero(d) <==> Exponent(d) == 0 && Fraction(d) == 0
  {
    hide IsNegative, Exponent, Fraction, Low;
    FieldsOf(d);
    LowMeans(d);
    if Exponent(d) == 0 && Fraction(d) == 0 {
      assert d[6] as int == 0 && d[7] as int % 0x80 == 0;
      assert forall i | 0 <= i < 7 :: d[i] == '\0';
      assert d[7] as int == 0 || d[7] as int == 0x80;
      assert d == ZERO || d == NEGATIVE_ZERO;
    }
  }

  // ----- Values -----

  lemma {:induction false} ScaledGrows(m: nat, m': nat, n: nat)
    requires m < m'
    ensures Scaled(m, n) < Scaled(m', n)
  {
    if n > 0 {
      ScaledGrows(m, m', n - 1);
    }
  }

  lemma {:induction false} ScaledDoubles(m: nat, n: nat)
    ensures Scaled(2 * m, n) == Scaled(m, n + 1)
  {
    if n > 0 {
      ScaledDoubles(m, n - 1);
    }
  }

  lemma {:induction false} ScaledUp(m: nat, n: nat, k: nat)
    ensures Scaled(m, n) <= Scaled(m, n + k)
  {
    if k > 0 {
      ScaledUp(m, n, k - 1);
    }
  }

  // A higher exponent makes a greater magnitude.
  lemma HigherIsGreater(e: nat, f: nat, e': nat, f': nat)
    requires e < e' && f < 0x10_0000_0000_0000 && f' < 0x10_0000_0000_0000
    ensures Magnitude(e, f) < Magnitude(e', f')
  {
    hide Scaled;
    var unit := 0x10_0000_0000_0000;
    ScaledUp(unit, if e == 0 then 0 else e, if e == 0 then e' - 1 else e' - 1 - e);
    if f' > 0 {
      ScaledGrows(unit, unit + f', e' - 1);
    }
    if e == 0 {
      ScaledOnce(unit);
    } else {
      ScaledGrows(unit + f, 2 * unit, e - 1);
      ScaledDoubles(unit, e - 1);
    }
  }

  lemma ScaledOnce(m: nat)
    ensures Scaled(m, 0) == m
  {
  }

  lemma MagnitudeDecides(e: nat, f: nat, e': nat, f': nat)
    requires f < 0x10_0000_0000_0000 && f' < 0x10_0000_0000_0000
    ensures Magnitude(e, f) == Magnitude(e', f') <==> e == e' && f == f'
  {
    hide Scaled;
    if e < e' {
      HigherIsGreater(e, f, e', f');
    } else if e' < e {
      HigherIsGreater(e', f', e, f);
    } else if e > 0 && f != f' {
      var unit := 0x10_0000_0000_0000;
      ScaledGrows(unit + if f < f' then f else f', unit + if f < f' then f' else f, e - 1);
    }
  }

  // Two doubles are equal if and only if neither is a NaN and they stand for the same number.
  lemma EqualIsNumeric(a: Double, b: Double)
    ensures DoubleEquals(a, b) <==> !IsNaN(a) && !IsNaN(b) && NumberOf(a) == NumberOf(b)
  {
    hide IsNaN, IsZero, IsNegative, Exponent, Fraction, Magnitude;
    ClassesOf(a);
    ClassesOf(b);
    FieldsOf(a);
    FieldsOf(b);
    MagnitudeDecides(Exponent(a), Fraction(a), Exponent(b), Fraction(b));
    MagnitudeDecides(Exponent(a), Fraction(a), 0, 0);
    MagnitudeDecides(Exponent(b), Fraction(b), 0, 0);
    NoMagnitude();
    if IsNegative(a) == IsNegative(b) && Exponent(a) == Exponent(b) && Fraction(a) == Fraction(b) {
      FieldsDecide(a, b);
    }
  }

  lemma NoMagnitude()
    ensures Magnitude(0, 0) == 0
  {
  }
}
