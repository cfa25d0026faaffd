// The order and the case of names (examples/json/cJSON_Utils.c), by the alphabet and by the first difference.
module JsonNames {
  import opened Bytes
  import opened JsonTree
  import opened JsonPointer
  import opened JsonCompare
  import opened JsonCompareTheorems

  // ----- Case -----

  const CAPITALS: string := "ABCDEFGHIJKLMNOPQRSTUVWXYZ"
  const SMALL: string := "abcdefghijklmnopqrstuvwxyz"

  // The i-th capital letter and the i-th small one
  predicate ArePair(capital: byte, small: byte, i: nat) {
    i < 26 && capital == CAPITALS[i] && small == SMALL[i]
  }

  ghost predicate IsCapital(c: byte) {
    exists i :: 0 <= i < 26 && c == CAPITALS[i]
  }

  // The same letter but for case, or the same byte
  ghost predicate SameButForCase(a: byte, b: byte) {
    a == b || exists i :: ArePair(a, b, i) || ArePair(b, a, i)
  }

  // `l` is what is left of `c` without capitals.
  ghost predicate IsSmallOf(c: byte, l: byte) {
    if IsCapital(c) then exists i :: ArePair(c, l, i) else l == c
  }

  lemma AlphabetAt(i: nat)
    requires i < 26
    ensures CAPITALS[i] as int == 0x41 + i && SMALL[i] as int == 0x61 + i
  {
  }

  lemma ToLowerIsSmall(c: byte)
    ensures IsSmallOf(c, ToLower(c))
  {
    hide ArePair;
    if 'A' <= c <= 'Z' {
      var i := c as int - 'A' as int;
      AlphabetAt(i);
      assert ArePair(c, ToLower(c), i) by {
        PairAt(c, ToLower(c), i);
      }
    } else {
      forall i | 0 <= i < 26
        ensures c != CAPITALS[i]
      {
        AlphabetAt(i);
      }
    }
  }

  lemma PairAt(capital: byte, small: byte, i: nat)
    requires i < 26 && capital as int == 0x41 + i && small as int == 0x61 + i
    ensures ArePair(capital, small, i)
  {
    AlphabetAt(i);
  }

  lemma PairIs(capital: byte, small: byte, i: nat)
    requires ArePair(capital, small, i)
    ensures capital as int == 0x41 + i && small as int == 0x61 + i && ToLower(capital) == small == ToLower(small)
  {
    AlphabetAt(i);
  }

  // tolower folds case, and nothing else.
  lemma SmallIsUnique(c: byte, l: byte)
    ensures IsSmallOf(c, l) <==> l == ToLower(c)
  {
    hide ArePair;
    ToLowerIsSmall(c);
    if IsSmallOf(c, l) && IsCapital(c) {
      var i :| ArePair(c, l, i);
      PairIs(c, l, i);
    }
  }

  lemma FoldsCase(a: byte, b: byte)
    ensures ToLower(a) == ToLower(b) <==> SameButForCase(a, b)
  {
    hide ArePair;
    if a != b && ToLower(a) == ToLower(b) {
      if 'A' <= a <= 'Z' {
        PairAt(a, b, a as int - 'A' as int);
      } else {
        PairAt(b, a, b as int - 'A' as int);
      }
    }
    if a != b && SameButForCase(a, b) {
      var i :| ArePair(a, b, i) || ArePair(b, a, i);
      if ArePair(a, b, i) {
        PairIs(a, b, i);
      } else {
        PairIs(b, a, i);
      }
    }
  }

  // ----- Names that count as the same -----

  ghost predicate SameName(a: bytes, b: bytes, caseSensitive: bool) {
    if caseSensitive then a == b
    else |a| == |b| && forall i | 0 <= i < |a| :: SameButForCase(a[i], b[i])
  }

  lemma SameFolded(a: bytes, b: bytes, caseSensitive: bool)
    ensures Folded(a, caseSensitive) == Folded(b, caseSensitive) <==> SameName(a, b, caseSensitive)
  {
    hide ToLower, SameButForCase;
    if !caseSensitive {
      forall x, y
        ensures ToLower(x) == ToLower(y) <==> SameButForCase(x, y)
      {
        FoldsCase(x, y);
      }
      if Folded(a, false) == Folded(b, false) {
        assert |a| == |Folded(a, false)| == |b|;
        forall i | 0 <= i < |a|
          ensures SameButForCase(a[i], b[i])
        {
          assert Folded(a, false)[i] == Folded(b, false)[i];
        }
      }
    }
  }

  // compare_strings gives 0 for the same names, and for no others.
  lemma ZeroIsSameName(a: bytes, b: bytes, caseSensitive: bool)
    requires NulFree(a) && NulFree(b)
    ensures CompareStrings(a, b, caseSensitive) == 0 <==> SameName(a, b, caseSensitive)
  {
    hide StrCmp, Folded, SameName, NulFree;
    FoldedNulFree(a, caseSensitive);
    FoldedNulFree(b, caseSensitive);
    StrCmpZero(Folded(a, caseSensitive), Folded(b, caseSensitive));
    SameFolded(a, b, caseSensitive);
  }

  // ----- The order of names -----

  // Up to k they are the same; there the first one ends or has the smaller byte.
  predicate DiffersAt(a: bytes, b: bytes, k: nat) {
    k <= |a| && k < |b| && a[..k] == b[..k] && (k == |a| || (a[k] as int) < b[k] as int)
  }

  ghost predicate ComesBefore(a: bytes, b: bytes) {
    exists k :: DiffersAt(a, b, k)
  }

  lemma DiffersLater(a: bytes, b: bytes, k: nat)
    requires a != [] && b != [] && a[0] == b[0]
    ensures DiffersAt(a, b, k + 1) <==> DiffersAt(a[1..], b[1..], k)
  {
    assert a == [a[0]] + a[1..] && b == [b[0]] + b[1..];
    if k < |a| && k < |b| {
      assert a[..k + 1] == [a[0]] + a[1..][..k] && b[..k + 1] == [b[0]] + b[1..][..k];
      assert a[1..][..k] == a[..k + 1][1..] && b[1..][..k] == b[..k + 1][1..];
    }
  }

  lemma FirstsDecide(a: bytes, b: bytes, k: nat)
    requires DiffersAt(a, b, k) && a != [] && b != []
    ensures if a[0] == b[0] then k > 0 else k == 0 && (a[0] as int) < b[0] as int
  {
    if k > 0 {
      assert a[..k][0] == a[0] && b[..k][0] == b[0];
    }
  }

  // strcmp is negative if and only if the first string comes before the second.
  lemma {:induction false} NegativeIsBefore(a: bytes, b: bytes)
    requires NulFree(a) && NulFree(b)
    ensures StrCmp(a, b) < 0 <==> ComesBefore(a, b)
    decreases |a|
  {
    hide DiffersAt;
    if a == [] || b == [] {
      EmptyBefore(a, b);
    } else if a[0] != b[0] {
      FirstByteBefore(a, b);
    } else {
      NegativeIsBefore(a[1..], b[1..]);
      if ComesBefore(a, b) {
        var k: nat :| DiffersAt(a, b, k);
        FirstsDecide(a, b, k);
        DiffersLater(a, b, k - 1);
      }
      if ComesBefore(a[1..], b[1..]) {
        var k: nat :| DiffersAt(a[1..], b[1..], k);
        DiffersLater(a, b, k);
      }
    }
  }

  lemma EmptyBefore(a: bytes, b: bytes)
    requires NulFree(a) && NulFree(b) && (a == [] || b == [])
    ensures StrCmp(a, b) < 0 <==> ComesBefore(a, b)
  {
    if b != [] {
      assert DiffersAt(a, b, 0);
    }
  }

  lemma FirstByteBefore(a: bytes, b: bytes)
    requires a != [] && b != [] && a[0] != b[0]
    ensures StrCmp(a, b) < 0 <==> ComesBefore(a, b)
  {
    if ComesBefore(a, b) {
      var k: nat :| DiffersAt(a, b, k);
      FirstsDecide(a, b, k);
    }
    if StrCmp(a, b) < 0 {
      assert DiffersAt(a, b, 0);
    }
  }

  // `l` is the name without capitals.
  ghost predicate IsSmallName(s: bytes, l: bytes) {
    |l| == |s| && forall i | 0 <= i < |s| :: IsSmallOf(s[i], l[i])
  }

  ghost predicate NameBefore(a: bytes, b: bytes, caseSensitive: bool) {
    if caseSensitive then ComesBefore(a, b)
    else exists x, y :: IsSmallName(a, x) && IsSmallName(b, y) && ComesBefore(x, y)
  }

  lemma SmallNameIs(s: bytes, l: bytes)
    ensures IsSmallName(s, l) <==> l == Folded(s, false)
  {
    hide ToLower, IsSmallOf;
    forall c: byte, d: byte
      ensures IsSmallOf(c, d) <==> d == ToLower(c)
    {
      SmallIsUnique(c, d);
    }
    if IsSmallName(s, l) {
      assert forall i | 0 <= i < |s| :: l[i] == Folded(s, false)[i];
    }
  }

  // compare_strings is negative if and only if the first name comes before the second.
  lemma NegativeIsNameBefore(a: bytes, b: bytes, caseSensitive: bool)
    requires NulFree(a) && NulFree(b)
    ensures CompareStrings(a, b, caseSensitive) < 0 <==> NameBefore(a, b, caseSensitive)
  {
    hide StrCmp, Folded, ComesBefore, NulFree, IsSmallName;
    var x, y := Folded(a, caseSensitive), Folded(b, caseSensitive);
    FoldedNulFree(a, caseSensitive);
    FoldedNulFree(b, caseSensitive);
    NegativeIsBefore(x, y);
    if caseSensitive {
      FoldedSame(a);
      FoldedSame(b);
    } else {
      SmallNameIs(a, x);
      SmallNameIs(b, y);
      forall u, v | IsSmallName(a, u) && IsSmallName(b, v)
        ensures u == x && v == y
      {
        SmallNameIs(a, u);
        SmallNameIs(b, v);
      }
    }
  }

  lemma FoldedSame(a: bytes)
    ensures Folded(a, true) == a
  {
  }

  // ----- Sorting -----

  lemma {:induction false} OrderedAt(s: seq<Entry>, i: nat, j: nat, caseSensitive: bool)
    requires Ordered(s, caseSensitive) && i <= j < |s|
    ensures CompareStrings(s[j].0, s[i].0, caseSensitive) >= 0
    decreases i
  {
    hide CompareStrings;
    CompareOpposite(s[j].0, s[i].0, caseSensitive);
    if i == 0 {
      assert j > 0 ==> s[j] in s[1..];
    } else {
      OrderedAt(s[1..], i - 1, j - 1, caseSensitive);
    }
  }

  // Sorting gives the same members, and no later name comes before an earlier one.
  lemma SortAscends(s: seq<Entry>, caseSensitive: bool)
    requires NamesNulFree(s)
    ensures var r := Sort(s, caseSensitive);
      && multiset(r) == multiset(s)
      && forall i, j | 0 <= i <= j < |r| :: !NameBefore(r[j].0, r[i].0, caseSensitive)
  {
    hide Sort, Ordered, CompareStrings, NulFree, NameBefore;
    var r := Sort(s, caseSensitive);
    SortOrders(s, caseSensitive);
    SortedMembers(s, caseSensitive);
    forall i, j | 0 <= i <= j < |r|
      ensures !NameBefore(r[j].0, r[i].0, caseSensitive)
    {
      assert r[i] in r && r[j] in r;
      OrderedAt(r, i, j, caseSensitive);
      NegativeIsNameBefore(r[j].0, r[i].0, caseSensitive);
    }
  }
}
