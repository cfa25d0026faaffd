// When the order of an object's members matters to comparison (examples/json/cJSON_Utils.c).
module JsonReordering {
  import opened Bytes
  import opened JsonTree
  import opened JsonCompare
  import opened JsonCompareTheorems

  // ----- Comparison, entry by entry -----

  lemma {:induction false} CompareReflexive(a: Json, caseSensitive: bool)
    ensures Compare(a, a, caseSensitive)
    decreases Nesting(a), 1
  {
    if a.Array? {
      ItemsReflexive(a.items, caseSensitive);
    } else if a.Object? {
      SortedNesting(a.members, caseSensitive);
      EntriesReflexive(Sort(Entries(a.members), caseSensitive), caseSensitive, MembersNesting(a.members));
    }
  }

  lemma {:induction false} ItemsReflexive(a: Items, caseSensitive: bool)
    ensures CompareItems(a, a, caseSensitive)
    decreases ItemsNesting(a), 2, a
  {
    hide Compare;
    if a.Item? {
      CompareReflexive(a.head, caseSensitive);
      ItemsReflexive(a.tail, caseSensitive);
    }
  }

  lemma {:induction false} EntriesReflexive(s: seq<Entry>, caseSensitive: bool, nesting: nat)
    requires forall e <- s :: Nesting(e.1) <= nesting
    ensures CompareEntries(s, s, caseSensitive, nesting)
    decreases nesting, 2, |s|
  {
    hide Compare, Nesting;
    if s != [] {
      CompareOpposite(s[0].0, s[0].0, caseSensitive);
      assert s[0] in s;
      CompareReflexive(s[0].1, caseSensitive);
      EntriesReflexive(s[1..], caseSensitive, nesting);
    }
  }

  lemma {:induction false} ComparesPairwise(x: seq<Entry>, y: seq<Entry>, caseSensitive: bool, nesting: nat)
    requires forall e <- x :: Nesting(e.1) <= nesting
    ensures CompareEntries(x, y, caseSensitive, nesting) <==>
      && |x| == |y|
      && (forall p | 0 <= p < |x| :: CompareStrings(x[p].0, y[p].0, caseSensitive) == 0)
      && (forall p | 0 <= p < |x| :: Compare(x[p].1, y[p].1, caseSensitive))
    decreases |x|
  {
    hide Compare, CompareStrings, Nesting;
    if x != [] && y != [] {
      ComparesPairwise(x[1..], y[1..], caseSensitive, nesting);
      assert x == [x[0]] + x[1..] && y == [y[0]] + y[1..];
    }
  }

  // ----- Sorting looks at nothing but names -----

  function Mapped(f: Entry -> Entry, s: seq<Entry>): (r: seq<Entry>)
    ensures |r| == |s| && forall i | 0 <= i < |s| :: r[i] == f(s[i])
  {
    if s == [] then [] else [f(s[0])] + Mapped(f, s[1..])
  }

  predicate KeepsNames(f: Entry -> Entry, s: seq<Entry>, caseSensitive: bool) {
    forall e <- s :: Folded(f(e).0, caseSensitive) == Folded(e.0, caseSensitive)
  }

  lemma {:induction false} MergeMapped(f: Entry -> Entry, a: seq<Entry>, b: seq<Entry>, caseSensitive: bool)
    requires KeepsNames(f, a, caseSensitive) && KeepsNames(f, b, caseSensitive)
    ensures Mapped(f, Merge(a, b, caseSensitive)) == Merge(Mapped(f, a), Mapped(f, b), caseSensitive)
    decreases |a| + |b|
  {
    hide Folded, StrCmp;
    if a != [] && b != [] {
      assert a[0] in a && b[0] in b;
      if CompareStrings(a[0].0, b[0].0, caseSensitive) < 0 {
        MergeMapped(f, a[1..], b, caseSensitive);
      } else {
        MergeMapped(f, a, b[1..], caseSensitive);
      }
    }
  }

  lemma {:induction false} InOrderMapped(f: Entry -> Entry, s: seq<Entry>, caseSensitive: bool)
    requires KeepsNames(f, s, caseSensitive)
    ensures InOrder(Mapped(f, s), caseSensitive) <==> InOrder(s, caseSensitive)
    decreases |s|
  {
    hide Folded, StrCmp;
    if |s| > 1 {
      assert s[0] in s && s[1] in s;
      InOrderMapped(f, s[1..], caseSensitive);
    }
  }

  lemma {:induction false} SortMapped(f: Entry -> Entry, s: seq<Entry>, caseSensitive: bool)
    requires KeepsNames(f, s, caseSensitive)
    ensures Mapped(f, Sort(s, caseSensitive)) == Sort(Mapped(f, s), caseSensitive)
    decreases |s|
  {
    hide Folded, InOrder, Merge, Mapped, Sort;
    InOrderMapped(f, s, caseSensitive);
    SortUnfolds(s, caseSensitive);
    SortUnfolds(Mapped(f, s), caseSensitive);
    if |s| > 1 && !InOrder(s, caseSensitive) {
      var middle := (|s| + 1) / 2;
      var a, b := s[..middle], s[middle..];
      assert Mapped(f, s)[..middle] == Mapped(f, a) && Mapped(f, s)[middle..] == Mapped(f, b);
      SortMapped(f, a, caseSensitive);
      SortMapped(f, b, caseSensitive);
      SortedMembers(a, caseSensitive);
      SortedMembers(b, caseSensitive);
      MergeMapped(f, Sort(a, caseSensitive), Sort(b, caseSensitive), caseSensitive);
    }
  }

  // ----- Exchanging two entries of one name -----

  // Each entry's name, with its place as the value
  function Places(s: seq<Entry>): (r: seq<Entry>)
    ensures |r| == |s| && forall i | 0 <= i < |s| :: r[i] == (s[i].0, Number(i))
  {
    seq(|s|, i requires 0 <= i < |s| => (s[i].0, Number(i)))
  }

  // What stands at a place
  function Standing(s: seq<Entry>): Entry -> Entry {
    (e: Entry) => if e.1.Number? && 0 <= e.1.value < |s| then s[e.1.value] else e
  }

  function Exchanged(s: seq<Entry>, i: nat, j: nat): (r: seq<Entry>)
    requires i < |s| && j < |s|
    ensures |r| == |s| && multiset(r) == multiset(s)
  {
    s[i := s[j]][j := s[i]]
  }

  lemma SortByPlace(s: seq<Entry>, t: seq<Entry>, caseSensitive: bool)
    requires |t| == |s| && forall k | 0 <= k < |s| :: Folded(t[k].0, caseSensitive) == Folded(s[k].0, caseSensitive)
    ensures Sort(t, caseSensitive) == Mapped(Standing(t), Sort(Places(s), caseSensitive))
  {
    hide Folded, Sort, Mapped;
    assert Mapped(Standing(t), Places(s)) == t;
    SortMapped(Standing(t), Places(s), caseSensitive);
  }

  // Where an entry goes, the one that it is exchanged with goes.
  lemma ExchangedStandThere(s: seq<Entry>, i: nat, j: nat, caseSensitive: bool) returns (p: nat)
    requires i < |s| && j < |s| && Folded(s[i].0, caseSensitive) == Folded(s[j].0, caseSensitive)
    ensures var x, y := Sort(s, caseSensitive), Sort(Exchanged(s, i, j), caseSensitive);
      p < |x| == |y| && x[p] == s[i] && y[p] == s[j]
  {
    hide Folded, Sort, Mapped;
    var t, sorted := Exchanged(s, i, j), Sort(Places(s), caseSensitive);
    SortByPlace(s, s, caseSensitive);
    SortByPlace(s, t, caseSensitive);
    SortedMembers(Places(s), caseSensitive);
    assert Places(s)[i] in sorted;
    p :| 0 <= p < |sorted| && sorted[p] == Places(s)[i];
  }

  function MembersOf(s: seq<Entry>): Members {
    if s == [] then NoMembers else Member(s[0].0, s[0].1, MembersOf(s[1..]))
  }

  lemma {:induction false} EntriesOfMembers(s: seq<Entry>)
    ensures Entries(MembersOf(s)) == s
  {
    if s != [] {
      EntriesOfMembers(s[1..]);
    }
  }

  lemma ObjectsPairwise(a: Members, b: Members, caseSensitive: bool)
    ensures var x, y := Sort(Entries(a), caseSensitive), Sort(Entries(b), caseSensitive);
      Compare(Object(a), Object(b), caseSensitive) <==>
        && |x| == |y|
        && (forall p | 0 <= p < |x| :: CompareStrings(x[p].0, y[p].0, caseSensitive) == 0)
        && (forall p | 0 <= p < |x| :: Compare(x[p].1, y[p].1, caseSensitive))
  {
    hide Sort, CompareStrings, Entries, Nesting, CompareEntries, Compare;
    ObjectsCompare(Object(a), Object(b), caseSensitive);
    ComparesPairwise(Sort(Entries(a), caseSensitive), Sort(Entries(b), caseSensitive), caseSensitive, MembersNesting(a));
  }

  // ----- Ordered names -----

  predicate Ascending(names: seq<bytes>) {
    names == [] || ((forall n <- names[1..] :: StrCmp(names[0], n) <= 0) && Ascending(names[1..]))
  }

  predicate AllNulFree(names: seq<bytes>) {
    forall n <- names :: NulFree(n)
  }

  // The names in one order are one sequence.
  lemma {:induction false} AscendingIsUnique(a: seq<bytes>, b: seq<bytes>)
    requires AllNulFree(a) && AllNulFree(b) && Ascending(a) && Ascending(b) && multiset(a) == multiset(b)
    ensures a == b
    decreases |a|
  {
    hide NulFree, StrCmp;
    assert |a| == |multiset(a)| == |multiset(b)| == |b|;
    if a != [] {
      FirstIsLow(a, b[0]);
      FirstIsLow(b, a[0]);
      StrCmpOpposite(a[0], b[0]);
      StrCmpZero(a[0], b[0]);
      assert a == [a[0]] + a[1..] && b == [b[0]] + b[1..];
      assert multiset(a) == multiset{a[0]} + multiset(a[1..]) && multiset(b) == multiset{b[0]} + multiset(b[1..]);
      assert multiset(a[1..]) == multiset(a) - multiset{a[0]};
      AscendingIsUnique(a[1..], b[1..]);
    }
  }

  lemma FirstIsLow(a: seq<bytes>, name: bytes)
    requires a != [] && AllNulFree(a) && Ascending(a) && name in multiset(a)
    ensures StrCmp(a[0], name) <= 0
  {
    hide NulFree, StrCmp;
    assert a == [a[0]] + a[1..];
    StrCmpZero(a[0], a[0]);
  }

  function Names(s: seq<Entry>, caseSensitive: bool): (r: seq<bytes>)
    ensures |r| == |s| && forall i | 0 <= i < |s| :: r[i] == Folded(s[i].0, caseSensitive)
  {
    if s == [] then [] else [Folded(s[0].0, caseSensitive)] + Names(s[1..], caseSensitive)
  }

  lemma {:induction false} OrderedNamesAscend(s: seq<Entry>, caseSensitive: bool)
    requires NamesNulFree(s) && Ordered(s, caseSensitive)
    ensures Ascending(Names(s, caseSensitive)) && AllNulFree(Names(s, caseSensitive))
    decreases |s|
  {
    hide NulFree, Folded;
    if s != [] {
      assert s[0] in s;
      FoldedNulFree(s[0].0, caseSensitive);
      OrderedNamesAscend(s[1..], caseSensitive);
      var names := Names(s[1..], caseSensitive);
      forall n | n in names
        ensures StrCmp(Folded(s[0].0, caseSensitive), n) <= 0
      {
        var k :| 0 <= k < |names| && names[k] == n;
        assert s[1..][k] in s[1..];
        assert CompareStrings(s[0].0, s[1..][k].0, caseSensitive) <= 0;
      }
    }
  }

  function Without<T>(s: seq<T>, k: nat): (r: seq<T>)
    requires k < |s|
    ensures |r| == |s| - 1 && forall i | 0 <= i < |r| :: r[i] == s[if i < k then i else i + 1]
  {
    s[..k] + s[k + 1..]
  }

  lemma OneTaken<T>(s: seq<T>, k: nat)
    requires k < |s|
    ensures multiset(s) == multiset{s[k]} + multiset(Without(s, k))
  {
    assert s == s[..k] + ([s[k]] + s[k + 1..]);
  }

  lemma NamesWithout(s: seq<Entry>, k: nat, caseSensitive: bool)
    requires k < |s|
    ensures Names(Without(s, k), caseSensitive) == Without(Names(s, caseSensitive), k)
  {
    hide Names, Without;
  }

  lemma {:induction false} SameNames(x: seq<Entry>, y: seq<Entry>, caseSensitive: bool)
    requires multiset(x) == multiset(y)
    ensures multiset(Names(x, caseSensitive)) == multiset(Names(y, caseSensitive))
    decreases |x|
  {
    hide Names, Folded, Without;
    assert |x| == |multiset(x)| == |multiset(y)| == |y|;
    if x != [] {
      assert x[0] in multiset(x) && x[0] in multiset(y);
      var k :| 0 <= k < |y| && y[k] == x[0];
      OneTaken(x, 0);
      OneTaken(y, k);
      assert multiset(Without(x, 0)) == multiset(x) - multiset{x[0]} == multiset(Without(y, k));
      SameNames(Without(x, 0), Without(y, k), caseSensitive);
      NamesWithout(x, 0, caseSensitive);
      NamesWithout(y, k, caseSensitive);
      OneTaken(Names(x, caseSensitive), 0);
      OneTaken(Names(y, caseSensitive), k);
    }
  }

  lemma SortedNamesAgree(s: seq<Entry>, t: seq<Entry>, caseSensitive: bool)
    requires NamesNulFree(s) && multiset(t) == multiset(s)
    ensures Names(Sort(s, caseSensitive), caseSensitive) == Names(Sort(t, caseSensitive), caseSensitive)
  {
    hide NulFree, Sort, Names, Ordered;
    var x, y := Sort(s, caseSensitive), Sort(t, caseSensitive);
    forall e | e in t
      ensures NulFree(e.0)
    {
      assert e in multiset(t) && e in multiset(s);
    }
    SortOrders(s, caseSensitive);
    SortOrders(t, caseSensitive);
    SortedMembers(s, caseSensitive);
    SortedMembers(t, caseSensitive);
    OrderedNamesAscend(x, caseSensitive);
    OrderedNamesAscend(y, caseSensitive);
    SameNames(x, y, caseSensitive);
    AscendingIsUnique(Names(x, caseSensitive), Names(y, caseSensitive));
  }

  // ----- The theorem -----

  // Members of one name have values that compare as equal.
  predicate RepeatsAgree(s: seq<Entry>, caseSensitive: bool) {
    forall i, j | 0 <= i < |s| && 0 <= j < |s| && CompareStrings(s[i].0, s[j].0, caseSensitive) == 0 ::
      Compare(s[i].1, s[j].1, caseSensitive)
  }

  lemma ReorderingIsUnseen(a: Members, b: Members, caseSensitive: bool)
    requires NamesNulFree(Entries(a)) && RepeatsAgree(Entries(a), caseSensitive)
    requires multiset(Entries(b)) == multiset(Entries(a))
    ensures Compare(Object(a), Object(b), caseSensitive)
  {
    hide Compare, Sort, NulFree, Entries, Folded, Names, StrCmp;
    var s, t := Entries(a), Entries(b);
    var x, y := Sort(s, caseSensitive), Sort(t, caseSensitive);
    SortedNamesAgree(s, t, caseSensitive);
    SortedMembers(s, caseSensitive);
    assert multiset(y) == multiset(s);
    forall p | 0 <= p < |x|
      ensures CompareStrings(x[p].0, y[p].0, caseSensitive) == 0 && Compare(x[p].1, y[p].1, caseSensitive)
    {
      assert Names(x, caseSensitive)[p] == Names(y, caseSensitive)[p];
      StrCmpOpposite(Folded(x[p].0, caseSensitive), Folded(x[p].0, caseSensitive));
      assert x[p] in x && y[p] in multiset(y) && y[p] in multiset(s);
      var i :| 0 <= i < |s| && s[i] == x[p];
      var j :| 0 <= j < |s| && s[j] == y[p];
    }
    ObjectsPairwise(a, b, caseSensitive);
  }

  lemma ExchangeIsSeen(a: Members, i: nat, j: nat, caseSensitive: bool)
    requires NamesNulFree(Entries(a)) && i < |Entries(a)| && j < |Entries(a)|
    requires var s := Entries(a);
      CompareStrings(s[i].0, s[j].0, caseSensitive) == 0 && !Compare(s[i].1, s[j].1, caseSensitive)
    ensures !Compare(Object(a), Object(MembersOf(Exchanged(Entries(a), i, j))), caseSensitive)
  {
    hide Compare, Sort, NulFree, Entries, Folded, StrCmp;
    var s := Entries(a);
    assert s[i] in s && s[j] in s;
    FoldedNulFree(s[i].0, caseSensitive);
    FoldedNulFree(s[j].0, caseSensitive);
    StrCmpZero(Folded(s[i].0, caseSensitive), Folded(s[j].0, caseSensitive));
    var p := ExchangedStandThere(s, i, j, caseSensitive);
    EntriesOfMembers(Exchanged(s, i, j));
    ObjectsPairwise(a, MembersOf(Exchanged(s, i, j)), caseSensitive);
  }

  // The order of an object's members does not matter to compare_json, in either case mode, if and only if any two
  // members of one name have values that compare as equal.
  lemma OrderMattersToRepeats(a: Members, caseSensitive: bool)
    requires NamesNulFree(Entries(a))
    ensures RepeatsAgree(Entries(a), caseSensitive) <==>
      forall b | multiset(Entries(b)) == multiset(Entries(a)) :: Compare(Object(a), Object(b), caseSensitive)
  {
    hide Compare, NulFree, Entries, CompareStrings;
    var s := Entries(a);
    if RepeatsAgree(s, caseSensitive) {
      forall b | multiset(Entries(b)) == multiset(s)
        ensures Compare(Object(a), Object(b), caseSensitive)
      {
        ReorderingIsUnseen(a, b, caseSensitive);
      }
    } else {
      var i, j :| 0 <= i < |s| && 0 <= j < |s|
        && CompareStrings(s[i].0, s[j].0, caseSensitive) == 0 && !Compare(s[i].1, s[j].1, caseSensitive);
      ExchangeIsSeen(a, i, j, caseSensitive);
      var b := MembersOf(Exchanged(s, i, j));
      EntriesOfMembers(Exchanged(s, i, j));
      assert multiset(Entries(b)) == multiset(s) && !Compare(Object(a), Object(b), caseSensitive);
    }
  }
}
