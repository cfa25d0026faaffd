// Sorting both member lists and walking them side by side decides equality up to the order of members.
module JsonCompareTheorems {
  import opened Bytes
  import opened JsonTree
  import opened JsonPointer
  import opened JsonCompare

  // ----- The order of names -----

  lemma {:induction false} StrCmpOpposite(a: bytes, b: bytes)
    ensures StrCmp(a, b) == -StrCmp(b, a)
    decreases |a|
  {
    if a != [] && b != [] {
      StrCmpOpposite(a[1..], b[1..]);
    }
  }

  lemma {:induction false} StrCmpZero(a: bytes, b: bytes)
    requires NulFree(a) && NulFree(b)
    ensures StrCmp(a, b) == 0 <==> a == b
    decreases |a|
  {
    if a != [] && b != [] {
      StrCmpZero(a[1..], b[1..]);
      assert a == [a[0]] + a[1..] && b == [b[0]] + b[1..];
    }
  }

  lemma {:induction false} StrCmpTransitive(a: bytes, b: bytes, c: bytes)
    requires NulFree(a) && NulFree(b) && NulFree(c) && StrCmp(a, b) <= 0 && StrCmp(b, c) <= 0
    ensures StrCmp(a, c) <= 0 && (StrCmp(a, c) == 0 ==> StrCmp(a, b) == 0 && StrCmp(b, c) == 0)
    decreases |a|
  {
    if a != [] && b != [] && c != [] && a[0] == b[0] == c[0] {
      StrCmpTransitive(a[1..], b[1..], c[1..]);
    }
  }

  lemma FoldedNulFree(s: bytes, caseSensitive: bool)
    requires NulFree(s)
    ensures NulFree(Folded(s, caseSensitive))
  {
  }

  lemma CompareOpposite(a: bytes, b: bytes, caseSensitive: bool)
    ensures CompareStrings(a, b, caseSensitive) == -CompareStrings(b, a, caseSensitive)
  {
    StrCmpOpposite(Folded(a, caseSensitive), Folded(b, caseSensitive));
  }

  lemma CompareTransitive(a: bytes, b: bytes, c: bytes, caseSensitive: bool)
    requires NulFree(a) && NulFree(b) && NulFree(c)
    requires CompareStrings(a, b, caseSensitive) <= 0 && CompareStrings(b, c, caseSensitive) <= 0
    ensures CompareStrings(a, c, caseSensitive) <= 0
  {
    hide Folded, NulFree;
    FoldedNulFree(a, caseSensitive);
    FoldedNulFree(b, caseSensitive);
    FoldedNulFree(c, caseSensitive);
    StrCmpTransitive(Folded(a, caseSensitive), Folded(b, caseSensitive), Folded(c, caseSensitive));
  }

  // ----- Sorting -----

  predicate NamesNulFree(s: seq<Entry>) {
    forall e <- s :: NulFree(e.0)
  }

  // No entry comes before this name.
  predicate AtLeast(name: bytes, s: seq<Entry>, caseSensitive: bool) {
    forall e <- s :: CompareStrings(name, e.0, caseSensitive) <= 0
  }

  predicate Ordered(s: seq<Entry>, caseSensitive: bool) {
    s == [] || (AtLeast(s[0].0, s[1..], caseSensitive) && Ordered(s[1..], caseSensitive))
  }

  lemma AtLeastToo(low: bytes, name: bytes, s: seq<Entry>, caseSensitive: bool)
    requires NulFree(low) && NulFree(name) && NamesNulFree(s)
    requires CompareStrings(low, name, caseSensitive) <= 0 && AtLeast(name, s, caseSensitive)
    ensures AtLeast(low, s, caseSensitive)
  {
    hide CompareStrings, NulFree;
    forall e | e in s
      ensures CompareStrings(low, e.0, caseSensitive) <= 0
    {
      CompareTransitive(low, name, e.0, caseSensitive);
    }
  }

  lemma {:induction false} InOrderIsOrdered(s: seq<Entry>, caseSensitive: bool)
    requires NamesNulFree(s) && InOrder(s, caseSensitive)
    ensures Ordered(s, caseSensitive)
  {
    hide CompareStrings, NulFree;
    if |s| > 1 {
      InOrderIsOrdered(s[1..], caseSensitive);
      AtLeastToo(s[0].0, s[1].0, s[1..][1..], caseSensitive);
      assert s[1..] == [s[1]] + s[1..][1..];
    }
  }

  lemma MergedMembers(a: seq<Entry>, b: seq<Entry>, caseSensitive: bool)
    ensures forall e :: e in Merge(a, b, caseSensitive) <==> e in a || e in b
  {
    hide Merge;
    var r := Merge(a, b, caseSensitive);
    forall e
      ensures e in r <==> e in a || e in b
    {
      assert e in r <==> e in multiset(r);
    }
  }

  // The head of a merge comes before the rest.
  lemma HeadFirst(x: Entry, a: seq<Entry>, y: Entry, b: seq<Entry>, caseSensitive: bool)
    requires NulFree(x.0) && NulFree(y.0) && NamesNulFree(a) && NamesNulFree(b)
    requires AtLeast(x.0, a, caseSensitive) && AtLeast(y.0, b, caseSensitive) && CompareStrings(x.0, y.0, caseSensitive) <= 0
    ensures AtLeast(x.0, Merge(a, [y] + b, caseSensitive), caseSensitive)
    ensures AtLeast(x.0, Merge([y] + b, a, caseSensitive), caseSensitive)
  {
    hide CompareStrings, NulFree, Merge;
    AtLeastToo(x.0, y.0, b, caseSensitive);
    MergedMembers(a, [y] + b, caseSensitive);
    MergedMembers([y] + b, a, caseSensitive);
  }

  lemma {:induction false} MergeOrders(a: seq<Entry>, b: seq<Entry>, caseSensitive: bool)
    requires NamesNulFree(a) && NamesNulFree(b) && Ordered(a, caseSensitive) && Ordered(b, caseSensitive)
    ensures Ordered(Merge(a, b, caseSensitive), caseSensitive)
    decreases |a| + |b|
  {
    hide CompareStrings, NulFree, AtLeast;
    if a != [] && b != [] {
      assert a == [a[0]] + a[1..] && b == [b[0]] + b[1..];
      if CompareStrings(a[0].0, b[0].0, caseSensitive) < 0 {
        MergeOrders(a[1..], b, caseSensitive);
        HeadFirst(a[0], a[1..], b[0], b[1..], caseSensitive);
      } else {
        MergeOrders(a, b[1..], caseSensitive);
        CompareOpposite(a[0].0, b[0].0, caseSensitive);
        HeadFirst(b[0], b[1..], a[0], a[1..], caseSensitive);
      }
    }
  }

  lemma SortedMembers(s: seq<Entry>, caseSensitive: bool)
    ensures forall e :: e in Sort(s, caseSensitive) <==> e in s
  {
    hide Sort;
    var r := Sort(s, caseSensitive);
    forall e
      ensures e in r <==> e in s
    {
      assert e in r <==> e in multiset(r);
      assert e in s <==> e in multiset(s);
    }
  }

  // sort_list sorts; that it permutes is in its own contract.
  lemma {:induction false} SortOrders(s: seq<Entry>, caseSensitive: bool)
    requires NamesNulFree(s)
    ensures Ordered(Sort(s, caseSensitive), caseSensitive)
    decreases |s|
  {
    hide CompareStrings, NulFree, AtLeast, Merge, InOrder;
    if InOrder(s, caseSensitive) || |s| <= 1 {
      if |s| <= 1 {
        ShortIsInOrder(s, caseSensitive);
      }
      InOrderIsOrdered(s, caseSensitive);
    } else {
      var middle := (|s| + 1) / 2;
      var a, b := s[..middle], s[middle..];
      SortOrders(a, caseSensitive);
      SortOrders(b, caseSensitive);
      SortedMembers(a, caseSensitive);
      SortedMembers(b, caseSensitive);
      MergeOrders(Sort(a, caseSensitive), Sort(b, caseSensitive), caseSensitive);
    }
  }

  lemma ShortIsInOrder(s: seq<Entry>, caseSensitive: bool)
    requires |s| <= 1
    ensures InOrder(s, caseSensitive)
  {
  }

  // ----- Lists with one entry for each name -----

  ghost predicate Functional(m: multiset<Entry>) {
    && (forall e :: m[e] <= 1)
    && (forall e, e' :: e in m && e' in m && e.0 == e'.0 ==> e == e')
  }

  ghost predicate Named(s: seq<Entry>, name: bytes) {
    exists e <- s :: e.0 == name
  }

  lemma FunctionalTail(s: seq<Entry>)
    requires s != [] && Functional(multiset(s))
    ensures Functional(multiset(s[1..])) && !Named(s[1..], s[0].0)
  {
    assert s == [s[0]] + s[1..];
    assert multiset(s) == multiset{s[0]} + multiset(s[1..]);
    assert multiset(s)[s[0]] == 1 + multiset(s[1..])[s[0]];
    forall e
      ensures multiset(s[1..])[e] <= 1
    {
      assert multiset(s)[e] == multiset{s[0]}[e] + multiset(s[1..])[e];
    }
    forall e | e in s[1..]
      ensures e.0 != s[0].0
    {
      assert e in multiset(s[1..]) && e in multiset(s) && s[0] in multiset(s);
    }
  }

  lemma {:induction false} EntriesOf(ms: Members, e: Entry)
    requires MembersDistinct(ms)
    ensures e in Entries(ms) <==> HasName(ms, e.0) && Lookup(ms, e.0) == e.1
    ensures multiset(Entries(ms))[e] <= 1
  {
    if ms.Member? {
      EntriesOf(ms.next, e);
      assert multiset(Entries(ms)) == multiset{(ms.name, ms.value)} + multiset(Entries(ms.next));
      if e in Entries(ms.next) {
        assert HasName(ms.next, e.0);
      }
    }
  }

  lemma SortedFunctional(ms: Members)
    requires MembersDistinct(ms)
    ensures Functional(multiset(Sort(Entries(ms), true)))
    ensures forall e :: e in Sort(Entries(ms), true) <==> HasName(ms, e.0) && Lookup(ms, e.0) == e.1
  {
    hide Sort, Entries;
    var s := Entries(ms);
    SortedMembers(s, true);
    forall e: Entry
      ensures e in s <==> HasName(ms, e.0) && Lookup(ms, e.0) == e.1
      ensures multiset(s)[e] <= 1
    {
      EntriesOf(ms, e);
    }
    forall e: Entry, e': Entry | e in multiset(s) && e' in multiset(s) && e.0 == e'.0
      ensures e == e'
    {
      assert e in s && e' in s;
    }
  }

  lemma {:induction false} EntryFacts(ms: Members, e: Entry)
    requires e in Entries(ms)
    ensures WfMembers(ms) ==> NulFree(e.0) && Wf(e.1)
    ensures MembersDistinct(ms) ==> DistinctNames(e.1)
  {
    if e != (ms.name, ms.value) {
      EntryFacts(ms.next, e);
    }
  }

  // ----- Deciding equality -----

  // What the walk through two sorted lists decides
  ghost predicate SameEntries(a: seq<Entry>, b: seq<Entry>) {
    && (forall name :: Named(a, name) <==> Named(b, name))
    && (forall e, e' | e in a && e' in b && e.0 == e'.0 :: Equivalent(e.1, e'.1))
  }

  // Entries of well-formed members, sorted and without repeated names
  ghost predicate Sorted(s: seq<Entry>, nesting: nat) {
    && Ordered(s, true) && Functional(multiset(s))
    && (forall e <- s :: NulFree(e.0) && Wf(e.1) && DistinctNames(e.1) && Nesting(e.1) <= nesting)
  }

  lemma SortedTail(s: seq<Entry>, nesting: nat)
    requires s != [] && Sorted(s, nesting)
    ensures Sorted(s[1..], nesting) && !Named(s[1..], s[0].0)
  {
    hide Wf, DistinctNames, NulFree, AtLeast;
    FunctionalTail(s);
  }

  // Of two sorted lists with the same names, the first names are the same.
  lemma SameFirst(a: seq<Entry>, b: seq<Entry>, nesting: nat, nesting': nat)
    requires a != [] && b != [] && Sorted(a, nesting) && Sorted(b, nesting')
    requires Named(b, a[0].0) && Named(a, b[0].0)
    ensures a[0].0 == b[0].0
  {
    hide NulFree, Wf, DistinctNames, StrCmp;
    FirstIsLeast(a, b[0].0);
    FirstIsLeast(b, a[0].0);
    StrCmpOpposite(a[0].0, b[0].0);
    StrCmpZero(a[0].0, b[0].0);
  }

  lemma FirstIsLeast(a: seq<Entry>, name: bytes)
    requires a != [] && Ordered(a, true) && NulFree(a[0].0) && Named(a, name)
    ensures StrCmp(a[0].0, name) <= 0
  {
    hide StrCmp;
    StrCmpZero(a[0].0, a[0].0);
    var e :| e in a && e.0 == name;
    assert a == [a[0]] + a[1..];
    if e in a[1..] {
      assert CompareStrings(a[0].0, e.0, true) <= 0;
    }
  }

  lemma {:induction false} EntriesDecide(a: seq<Entry>, b: seq<Entry>, nesting: nat, nesting': nat)
    requires Sorted(a, nesting) && Sorted(b, nesting')
    ensures CompareEntries(a, b, true, nesting) <==> SameEntries(a, b)
    decreases nesting, 2, |a|
  {
    hide Sorted, SameEntries, Equivalent, Compare, NulFree;
    SortedNestingOf(a, nesting);
    if a == [] || b == [] {
      EmptySame(a, b);
    } else {
      SortedTail(a, nesting);
      SortedTail(b, nesting');
      HeadFacts(a, nesting);
      HeadFacts(b, nesting');
      StrCmpZero(a[0].0, b[0].0);
      CompareDecides(a[0].1, b[0].1);
      EntriesDecide(a[1..], b[1..], nesting, nesting');
      if a[0].0 == b[0].0 {
        SameStep(a, b);
      } else if SameEntries(a, b) {
        FirstsNamed(a, b);
        SameFirst(a, b, nesting, nesting');
        assert false;
      }
    }
  }

  lemma SortedNestingOf(s: seq<Entry>, nesting: nat)
    requires Sorted(s, nesting)
    ensures forall e <- s :: Nesting(e.1) <= nesting
  {
  }

  lemma HeadFacts(s: seq<Entry>, nesting: nat)
    requires s != [] && Sorted(s, nesting)
    ensures NulFree(s[0].0) && Wf(s[0].1) && DistinctNames(s[0].1) && Nesting(s[0].1) <= nesting
  {
    assert s[0] in s;
  }

  lemma EmptySame(a: seq<Entry>, b: seq<Entry>)
    requires a == [] || b == []
    ensures SameEntries(a, b) <==> a == [] && b == []
  {
    hide Equivalent;
    if a != [] {
      assert a[0] in a && Named(a, a[0].0);
    }
    if b != [] {
      assert b[0] in b && Named(b, b[0].0);
    }
  }

  lemma FirstsNamed(a: seq<Entry>, b: seq<Entry>)
    requires a != [] && b != [] && SameEntries(a, b)
    ensures Named(b, a[0].0) && Named(a, b[0].0)
  {
    hide Equivalent;
    assert a[0] in a && Named(a, a[0].0);
    assert b[0] in b && Named(b, b[0].0);
  }

  lemma NamedParts(a: seq<Entry>, name: bytes)
    requires a != []
    ensures Named(a, name) <==> a[0].0 == name || Named(a[1..], name)
  {
    assert a == [a[0]] + a[1..];
  }

  lemma SameStep(a: seq<Entry>, b: seq<Entry>)
    requires a != [] && b != [] && a[0].0 == b[0].0 && !Named(a[1..], a[0].0) && !Named(b[1..], b[0].0)
    ensures SameEntries(a, b) <==> Equivalent(a[0].1, b[0].1) && SameEntries(a[1..], b[1..])
  {
    hide Equivalent, Named;
    assert a == [a[0]] + a[1..] && b == [b[0]] + b[1..];
    forall name
      ensures Named(a, name) <==> a[0].0 == name || Named(a[1..], name)
      ensures Named(b, name) <==> b[0].0 == name || Named(b[1..], name)
    {
      NamedParts(a, name);
      NamedParts(b, name);
    }
    TailsNotNamed(a);
    TailsNotNamed(b);
  }

  lemma TailsNotNamed(a: seq<Entry>)
    requires a != [] && !Named(a[1..], a[0].0)
    ensures forall e <- a[1..] :: e.0 != a[0].0
  {
  }

  lemma {:induction false} ItemsDecide(a: Items, b: Items)
    requires WfItems(a) && WfItems(b) && ItemsDistinct(a) && ItemsDistinct(b)
    ensures CompareItems(a, b, true) <==> EquivalentItems(a, b)
    decreases ItemsNesting(a), 2, a
  {
    hide Compare, Equivalent, Wf, DistinctNames, Nesting;
    if a.Item? && b.Item? {
      CompareDecides(a.head, b.head);
      ItemsDecide(a.tail, b.tail);
    }
  }

  // For trees without repeated names, compare_json decides equality up to the order of members at every level.
  lemma {:induction false} CompareDecides(a: Json, b: Json)
    requires Wf(a) && Wf(b) && DistinctNames(a) && DistinctNames(b)
    ensures Compare(a, b, true) <==> Equivalent(a, b)
    decreases Nesting(a), 1
  {
    if a.Array? && b.Array? {
      ItemsDecide(a.items, b.items);
    } else if a.Object? && b.Object? {
      hide Compare, Equivalent, Wf, DistinctNames;
      ObjectsDecide(a, b);
    }
  }

  lemma SortedEntries(ms: Members)
    requires WfMembers(ms) && MembersDistinct(ms)
    ensures Sorted(Sort(Entries(ms), true), MembersNesting(ms))
  {
    hide Sort, Entries, Wf, DistinctNames, NulFree, WfMembers, MembersDistinct, Functional, Ordered;
    var s := Entries(ms);
    forall e | e in s
      ensures NulFree(e.0) && Wf(e.1) && DistinctNames(e.1)
    {
      EntryFacts(ms, e);
    }
    SortOrders(s, true);
    SortedFunctional(ms);
    SortedMembers(s, true);
    SortedNesting(ms, true);
  }

  lemma {:induction false} ObjectsDecide(a: Json, b: Json)
    requires a.Object? && b.Object? && Wf(a) && Wf(b) && DistinctNames(a) && DistinctNames(b)
    ensures Compare(a, b, true) <==> Equivalent(a, b)
    decreases Nesting(a), 0
  {
    hide Sort, Entries, Sorted, SameEntries, CompareEntries, WfMembers, MembersDistinct;
    var x, y := Sort(Entries(a.members), true), Sort(Entries(b.members), true);
    SortedEntries(a.members);
    SortedEntries(b.members);
    SortedNesting(a.members, true);
    EntriesDecide(x, y, MembersNesting(a.members), MembersNesting(b.members));
    SortedFunctional(a.members);
    SortedFunctional(b.members);
    SameAsObjects(x, y, a.members, b.members);
    ObjectsCompare(a, b, true);
  }

  lemma ObjectsCompare(a: Json, b: Json, caseSensitive: bool)
    requires a.Object? && b.Object?
    ensures forall e <- Sort(Entries(a.members), caseSensitive) :: Nesting(e.1) <= MembersNesting(a.members)
    ensures Compare(a, b, caseSensitive) ==
      CompareEntries(Sort(Entries(a.members), caseSensitive), Sort(Entries(b.members), caseSensitive),
                     caseSensitive, MembersNesting(a.members))
  {
    hide Sort, Entries, CompareEntries, Nesting;
    SortedNesting(a.members, caseSensitive);
  }

  lemma SameAsObjects(x: seq<Entry>, y: seq<Entry>, a: Members, b: Members)
    requires forall e :: e in x <==> HasName(a, e.0) && Lookup(a, e.0) == e.1
    requires forall e :: e in y <==> HasName(b, e.0) && Lookup(b, e.0) == e.1
    ensures SameEntries(x, y) <==> EquivalentMembers(a, b)
  {
    hide Equivalent, HasName, Lookup;
    forall name
      ensures Named(x, name) <==> HasName(a, name)
      ensures Named(y, name) <==> HasName(b, name)
    {
      if HasName(a, name) {
        assert (name, Lookup(a, name)) in x;
      }
      if HasName(b, name) {
        assert (name, Lookup(b, name)) in y;
      }
    }
    if EquivalentMembers(a, b) {
      forall e, e' | e in x && e' in y && e.0 == e'.0
        ensures Equivalent(e.1, e'.1)
      {
        assert HasName(a, e.0) && HasName(b, e.0);
      }
    }
    if SameEntries(x, y) {
      forall name | HasName(a, name) && HasName(b, name)
        ensures Equivalent(Lookup(a, name), Lookup(b, name))
      {
        assert (name, Lookup(a, name)) in x && (name, Lookup(b, name)) in y;
      }
      forall name
        ensures HasName(a, name) <==> HasName(b, name)
      {
        assert Named(x, name) <==> Named(y, name);
      }
    }
  }

  // With a repeated name the order of members does matter.
  lemma RepeatedNamesKeepTheirOrder()
    ensures var a := Member(['a'], True, Member(['a'], False, NoMembers));
      var b := Member(['a'], False, Member(['a'], True, NoMembers));
      multiset(Entries(a)) == multiset(Entries(b)) && !Compare(Object(a), Object(b), true)
  {
    hide Sort, Entries, StrCmp;
    var x, y: Entry := (['a'], True), (['a'], False);
    SortedPair(x, y);
    SortedPair(y, x);
    EntriesOfPair(x, y);
    EntriesOfPair(y, x);
    assert multiset([x, y]) == multiset([y, x]);
    var a := Object(Member(['a'], True, Member(['a'], False, NoMembers)));
    var b := Object(Member(['a'], False, Member(['a'], True, NoMembers)));
    ObjectsCompare(a, b, true);
    DifferAtFirst([y, x], [x, y], MembersNesting(a.members));
  }

  lemma DifferAtFirst(x: seq<Entry>, y: seq<Entry>, nesting: nat)
    requires x != [] && y != [] && x[0].1 == False && y[0].1 == True && forall e <- x :: Nesting(e.1) <= nesting
    ensures !CompareEntries(x, y, true, nesting)
  {
  }

  lemma EntriesOfPair(x: Entry, y: Entry)
    ensures Entries(Member(x.0, x.1, Member(y.0, y.1, NoMembers))) == [x, y]
  {
    assert Entries(Member(y.0, y.1, NoMembers)) == [y];
  }

  // Two members of one name change places.
  lemma SortedPair(x: Entry, y: Entry)
    requires x.0 == y.0 && NulFree(x.0)
    ensures Sort([x, y], true) == [y, x]
  {
    hide StrCmp;
    StrCmpZero(x.0, y.0);
    assert [x, y][..1] == [x] && [x, y][1..] == [y] && [y][1..] == [];
    assert Merge([x], [], true) == [x];
  }
}
