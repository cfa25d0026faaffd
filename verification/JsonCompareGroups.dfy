// What comparison makes of objects, repeated names and all (examples/json/cJSON_Utils.c).
module JsonCompareGroups {
  import opened Bytes
  import opened JsonTree
  import opened JsonCompare
  import opened JsonCompareTheorems
  import opened JsonReordering

  // ----- Sorting reverses members of one name -----

  // The values of a name's members, in order. Names are folded if case does not matter.
  function Group(s: seq<Entry>, name: bytes, caseSensitive: bool): seq<Json> {
    if s == [] then []
    else (if Folded(s[0].0, caseSensitive) == name then [s[0].1] else []) + Group(s[1..], name, caseSensitive)
  }

  function Reversed(s: seq<Json>): (r: seq<Json>)
    ensures |r| == |s| && forall i | 0 <= i < |s| :: r[i] == s[|s| - 1 - i]
  {
    if s == [] then [] else Reversed(s[1..]) + [s[0]]
  }

  lemma GroupCons(e: Entry, s: seq<Entry>, name: bytes, caseSensitive: bool)
    ensures Group([e] + s, name, caseSensitive) ==
      (if Folded(e.0, caseSensitive) == name then [e.1] else []) + Group(s, name, caseSensitive)
  {
    assert ([e] + s)[1..] == s;
  }

  lemma {:induction false} NoneOfName(s: seq<Entry>, name: bytes, caseSensitive: bool)
    requires forall e <- s :: Folded(e.0, caseSensitive) != name
    ensures Group(s, name, caseSensitive) == []
    decreases |s|
  {
    hide Folded;
    if s != [] {
      NoneOfName(s[1..], name, caseSensitive);
    }
  }

  lemma SameWhenFolded(a: bytes, b: bytes, caseSensitive: bool)
    requires NulFree(a) && NulFree(b)
    ensures CompareStrings(a, b, caseSensitive) == 0 <==> Folded(a, caseSensitive) == Folded(b, caseSensitive)
  {
    hide Folded, NulFree, StrCmp;
    FoldedNulFree(a, caseSensitive);
    FoldedNulFree(b, caseSensitive);
    StrCmpZero(Folded(a, caseSensitive), Folded(b, caseSensitive));
  }

  // A name that comes before an ordered list's first one is none of its names.
  lemma BeforeAll(name: bytes, s: seq<Entry>, caseSensitive: bool)
    requires NulFree(name) && NamesNulFree(s) && Ordered(s, caseSensitive)
    requires s != [] ==> CompareStrings(name, s[0].0, caseSensitive) < 0
    ensures Group(s, Folded(name, caseSensitive), caseSensitive) == []
  {
    hide CompareStrings, NulFree, Folded, Group;
    forall e | e in s
      ensures Folded(e.0, caseSensitive) != Folded(name, caseSensitive)
    {
      SameWhenFolded(name, e.0, caseSensitive);
      SameWhenFolded(name, s[0].0, caseSensitive);
      if CompareStrings(name, e.0, caseSensitive) == 0 {
        FirstIsLow(s, e, caseSensitive);
        FoldedAlike(name, e.0, s[0].0, caseSensitive);
      }
    }
    NoneOfName(s, Folded(name, caseSensitive), caseSensitive);
  }

  lemma FirstIsLow(s: seq<Entry>, e: Entry, caseSensitive: bool)
    requires e in s && Ordered(s, caseSensitive)
    ensures CompareStrings(s[0].0, e.0, caseSensitive) <= 0
  {
    hide CompareStrings;
    assert s == [s[0]] + s[1..];
    CompareOpposite(e.0, e.0, caseSensitive);
  }

  lemma FoldedAlike(a: bytes, b: bytes, c: bytes, caseSensitive: bool)
    requires Folded(a, caseSensitive) == Folded(b, caseSensitive)
    ensures CompareStrings(a, c, caseSensitive) == CompareStrings(b, c, caseSensitive)
    ensures CompareStrings(b, c, caseSensitive) == -CompareStrings(c, b, caseSensitive)
  {
    hide Folded;
    CompareOpposite(b, c, caseSensitive);
  }

  lemma MergeUnfolds(a: seq<Entry>, b: seq<Entry>, caseSensitive: bool)
    ensures Merge(a, b, caseSensitive) ==
      if a == [] then b
      else if b == [] then a
      else if CompareStrings(a[0].0, b[0].0, caseSensitive) < 0 then [a[0]] + Merge(a[1..], b, caseSensitive)
      else [b[0]] + Merge(a, b[1..], caseSensitive)
  {
    hide CompareStrings;
  }

  lemma GroupTail(s: seq<Entry>, name: bytes, caseSensitive: bool)
    requires s != []
    ensures Group(s, name, caseSensitive) ==
      (if Folded(s[0].0, caseSensitive) == name then [s[0].1] else []) + Group(s[1..], name, caseSensitive)
  {
    hide Folded;
  }

  lemma Joined(g: seq<Json>, x: seq<Json>, y: seq<Json>)
    ensures g + (x + y) == (g + x) + y
    ensures g == [] || x == [] ==> g + (x + y) == x + (g + y)
    ensures x == [] ==> x + y == y && y + x == y
  {
  }

  lemma {:induction false} GroupConcat(a: seq<Entry>, b: seq<Entry>, name: bytes, caseSensitive: bool)
    ensures Group(a + b, name, caseSensitive) == Group(a, name, caseSensitive) + Group(b, name, caseSensitive)
    decreases |a|
  {
    hide Folded, Group;
    if a == [] {
      assert a + b == b;
      NoneOfName(a, name, caseSensitive);
      Joined([], [], Group(b, name, caseSensitive));
    } else {
      assert a + b == [a[0]] + (a[1..] + b);
      GroupConcat(a[1..], b, name, caseSensitive);
      GroupCons(a[0], a[1..] + b, name, caseSensitive);
      GroupTail(a, name, caseSensitive);
      Joined(if Folded(a[0].0, caseSensitive) == name then [a[0].1] else [],
             Group(a[1..], name, caseSensitive), Group(b, name, caseSensitive));
    }
  }

  // Of members of one name, merging puts the second list's first.
  lemma {:induction false} MergeGroup(a: seq<Entry>, b: seq<Entry>, name: bytes, caseSensitive: bool)
    requires NamesNulFree(a) && NamesNulFree(b) && Ordered(a, caseSensitive) && Ordered(b, caseSensitive)
    ensures Group(Merge(a, b, caseSensitive), name, caseSensitive) ==
      Group(b, name, caseSensitive) + Group(a, name, caseSensitive)
    decreases |a| + |b|
  {
    hide CompareStrings, NulFree, Folded, Merge, Group, AtLeast;
    MergeUnfolds(a, b, caseSensitive);
    var x, y := Group(a, name, caseSensitive), Group(b, name, caseSensitive);
    if a == [] || b == [] {
      NoneOfName([], name, caseSensitive);
      Joined([], x, y);
      Joined([], y, x);
    } else if CompareStrings(a[0].0, b[0].0, caseSensitive) < 0 {
      MergeGroup(a[1..], b, name, caseSensitive);
      GroupCons(a[0], Merge(a[1..], b, caseSensitive), name, caseSensitive);
      GroupTail(a, name, caseSensitive);
      BeforeAll(a[0].0, b, caseSensitive);
      Joined(if Folded(a[0].0, caseSensitive) == name then [a[0].1] else [], y, Group(a[1..], name, caseSensitive));
    } else {
      MergeGroup(a, b[1..], name, caseSensitive);
      GroupCons(b[0], Merge(a, b[1..], caseSensitive), name, caseSensitive);
      GroupTail(b, name, caseSensitive);
      Joined(if Folded(b[0].0, caseSensitive) == name then [b[0].1] else [], Group(b[1..], name, caseSensitive), x);
    }
  }

  lemma {:induction false} InOrderGroup(s: seq<Entry>, name: bytes, caseSensitive: bool)
    requires NamesNulFree(s) && InOrder(s, caseSensitive)
    ensures |Group(s, name, caseSensitive)| <= 1
    decreases |s|
  {
    hide CompareStrings, NulFree, Folded, Group;
    if s == [] {
      NoneOfName(s, name, caseSensitive);
    } else {
      GroupTail(s, name, caseSensitive);
      if |s| == 1 {
        NoneOfName(s[1..], name, caseSensitive);
      } else {
        InOrderGroup(s[1..], name, caseSensitive);
        InOrderIsOrdered(s[1..], caseSensitive);
        assert s[0] in s;
        BeforeAll(s[0].0, s[1..], caseSensitive);
      }
    }
  }

  lemma ReversedConcat(a: seq<Json>, b: seq<Json>)
    ensures Reversed(a + b) == Reversed(b) + Reversed(a)
  {
    hide Reversed;
  }

  lemma ReversedShort(s: seq<Json>)
    requires |s| <= 1
    ensures Reversed(s) == s
  {
    hide Reversed;
  }

  // sort_list reverses the members of each name.
  lemma {:induction false} SortReversesGroups(s: seq<Entry>, name: bytes, caseSensitive: bool)
    requires NamesNulFree(s)
    ensures Group(Sort(s, caseSensitive), name, caseSensitive) == Reversed(Group(s, name, caseSensitive))
    decreases |s|
  {
    hide NulFree, Merge, Sort, Group, Reversed, Ordered, InOrder;
    SortUnfolds(s, caseSensitive);
    if |s| <= 1 || InOrder(s, caseSensitive) {
      if |s| <= 1 {
        ShortIsInOrder(s, caseSensitive);
      }
      InOrderGroup(s, name, caseSensitive);
      ReversedShort(Group(s, name, caseSensitive));
    } else {
      var middle := (|s| + 1) / 2;
      var a, b := s[..middle], s[middle..];
      SortReversesGroups(a, name, caseSensitive);
      SortReversesGroups(b, name, caseSensitive);
      SortOrders(a, caseSensitive);
      SortOrders(b, caseSensitive);
      SortedMembers(a, caseSensitive);
      SortedMembers(b, caseSensitive);
      MergeGroup(Sort(a, caseSensitive), Sort(b, caseSensitive), name, caseSensitive);
      assert s == a + b;
      GroupConcat(a, b, name, caseSensitive);
      ReversedConcat(Group(a, name, caseSensitive), Group(b, name, caseSensitive));
    }
  }

  // ----- What comparison decides -----

  // As many values, that compare as equal one by one
  predicate Pairwise(x: seq<Json>, y: seq<Json>, caseSensitive: bool) {
    |x| == |y| && forall i | 0 <= i < |x| :: Compare(x[i], y[i], caseSensitive)
  }

  // Each name has the same values in both, in order.
  ghost predicate SameGroups(s: seq<Entry>, t: seq<Entry>, caseSensitive: bool) {
    forall name: bytes :: Pairwise(Group(s, name, caseSensitive), Group(t, name, caseSensitive), caseSensitive)
  }

  lemma PairwiseReversed(x: seq<Json>, y: seq<Json>, caseSensitive: bool)
    ensures Pairwise(Reversed(x), Reversed(y), caseSensitive) <==> Pairwise(x, y, caseSensitive)
  {
    hide Reversed, Compare;
    if Pairwise(Reversed(x), Reversed(y), caseSensitive) {
      forall i | 0 <= i < |x|
        ensures Compare(x[i], y[i], caseSensitive)
      {
        assert Compare(Reversed(x)[|x| - 1 - i], Reversed(y)[|x| - 1 - i], caseSensitive);
      }
    }
  }

  lemma PairwiseFirst(x: seq<Json>, y: seq<Json>, v: Json, w: Json, caseSensitive: bool)
    requires Pairwise([v] + x, [w] + y, caseSensitive)
    ensures Compare(v, w, caseSensitive) && Pairwise(x, y, caseSensitive)
  {
    hide Compare;
    assert Compare(([v] + x)[0], ([w] + y)[0], caseSensitive);
    forall i | 0 <= i < |x|
      ensures |x| == |y| && Compare(x[i], y[i], caseSensitive)
    {
      assert Compare(([v] + x)[i + 1], ([w] + y)[i + 1], caseSensitive);
    }
  }

  lemma PairwiseOnto(x: seq<Json>, y: seq<Json>, v: Json, w: Json, caseSensitive: bool)
    requires Compare(v, w, caseSensitive) && Pairwise(x, y, caseSensitive)
    ensures Pairwise([v] + x, [w] + y, caseSensitive)
  {
    hide Compare;
    forall i | 0 <= i < |x| + 1
      ensures Compare(([v] + x)[i], ([w] + y)[i], caseSensitive)
    {
      if i > 0 {
        assert Compare(x[i - 1], y[i - 1], caseSensitive);
      }
    }
  }

  lemma PairwiseCons(x: seq<Json>, y: seq<Json>, v: Json, w: Json, caseSensitive: bool)
    ensures Pairwise([v] + x, [w] + y, caseSensitive) <==> Compare(v, w, caseSensitive) && Pairwise(x, y, caseSensitive)
  {
    hide Compare, Pairwise;
    if Pairwise([v] + x, [w] + y, caseSensitive) {
      PairwiseFirst(x, y, v, w, caseSensitive);
    } else if Compare(v, w, caseSensitive) && Pairwise(x, y, caseSensitive) {
      PairwiseOnto(x, y, v, w, caseSensitive);
    }
  }

  // The lists side by side: the same names, and values that compare as equal
  predicate Alongside(x: seq<Entry>, y: seq<Entry>, caseSensitive: bool) {
    && |x| == |y|
    && forall p | 0 <= p < |x| ::
         Folded(x[p].0, caseSensitive) == Folded(y[p].0, caseSensitive) && Compare(x[p].1, y[p].1, caseSensitive)
  }

  lemma {:induction false} AlongsideGroups(x: seq<Entry>, y: seq<Entry>, name: bytes, caseSensitive: bool)
    requires Alongside(x, y, caseSensitive)
    ensures Pairwise(Group(x, name, caseSensitive), Group(y, name, caseSensitive), caseSensitive)
    decreases |x|
  {
    hide Folded, Compare, Group, Pairwise;
    if x == [] {
      NoneOfName(x, name, caseSensitive);
      NonePairwise(caseSensitive);
    } else {
      AlongsideGroups(x[1..], y[1..], name, caseSensitive);
      GroupTail(x, name, caseSensitive);
      GroupTail(y, name, caseSensitive);
      var g, h := Group(x[1..], name, caseSensitive), Group(y[1..], name, caseSensitive);
      PairwiseCons(g, h, x[0].1, y[0].1, caseSensitive);
      assert [] + g == g && [] + h == h;
    }
  }

  lemma NonePairwise(caseSensitive: bool)
    ensures Pairwise([], [], caseSensitive)
  {
  }

  lemma {:induction false} GroupOfOne(s: seq<Entry>, name: bytes, caseSensitive: bool)
    ensures Group(s, name, caseSensitive) != [] <==> exists e <- s :: Folded(e.0, caseSensitive) == name
    decreases |s|
  {
    hide Folded, Group;
    if s == [] {
      NoneOfName(s, name, caseSensitive);
    } else {
      GroupTail(s, name, caseSensitive);
      GroupOfOne(s[1..], name, caseSensitive);
      assert s == [s[0]] + s[1..];
    }
  }

  lemma FirstsAgree(x: seq<Entry>, y: seq<Entry>, caseSensitive: bool)
    requires x != [] && SameGroups(x, y, caseSensitive)
    ensures exists e <- y :: Folded(e.0, caseSensitive) == Folded(x[0].0, caseSensitive)
  {
    hide Folded, Group, Compare;
    var name := Folded(x[0].0, caseSensitive);
    GroupTail(x, name, caseSensitive);
    GroupOfOne(y, name, caseSensitive);
    assert Pairwise(Group(x, name, caseSensitive), Group(y, name, caseSensitive), caseSensitive);
  }

  lemma GroupsSymmetric(x: seq<Entry>, y: seq<Entry>, caseSensitive: bool)
    requires x != [] && SameGroups(y, x, caseSensitive)
    ensures exists e <- y :: Folded(e.0, caseSensitive) == Folded(x[0].0, caseSensitive)
  {
    hide Folded, Group, Compare;
    var name := Folded(x[0].0, caseSensitive);
    GroupTail(x, name, caseSensitive);
    GroupOfOne(y, name, caseSensitive);
    assert Pairwise(Group(y, name, caseSensitive), Group(x, name, caseSensitive), caseSensitive);
  }

  // Of two ordered lists with the same groups, the first names are the same.
  lemma SameFirst(x: seq<Entry>, y: seq<Entry>, caseSensitive: bool)
    requires x != [] && y != [] && NamesNulFree(x) && NamesNulFree(y)
    requires Ordered(x, caseSensitive) && Ordered(y, caseSensitive) && SameGroups(x, y, caseSensitive)
    ensures Folded(x[0].0, caseSensitive) == Folded(y[0].0, caseSensitive)
  {
    hide Folded, Group, CompareStrings, NulFree, SameGroups, Ordered;
    FirstsAgree(x, y, caseSensitive);
    GroupsSymmetric(y, x, caseSensitive);
    var e :| e in y && Folded(e.0, caseSensitive) == Folded(x[0].0, caseSensitive);
    var f :| f in x && Folded(f.0, caseSensitive) == Folded(y[0].0, caseSensitive);
    FirstIsLow(y, e, caseSensitive);
    FirstIsLow(x, f, caseSensitive);
    FoldedAlike(x[0].0, e.0, y[0].0, caseSensitive);
    FoldedAlike(y[0].0, f.0, x[0].0, caseSensitive);
    CompareOpposite(x[0].0, y[0].0, caseSensitive);
    assert x[0] in x && y[0] in y;
    SameWhenFolded(x[0].0, y[0].0, caseSensitive);
  }

  lemma {:induction false} GroupsAlongside(x: seq<Entry>, y: seq<Entry>, caseSensitive: bool)
    requires NamesNulFree(x) && NamesNulFree(y) && Ordered(x, caseSensitive) && Ordered(y, caseSensitive)
    requires SameGroups(x, y, caseSensitive)
    ensures Alongside(x, y, caseSensitive)
    decreases |x|
  {
    hide Folded, Group, Compare, NulFree, SameGroups, AtLeast;
    if x == [] || y == [] {
      if x != [] {
        FirstsAgree(x, y, caseSensitive);
      }
      if y != [] {
        GroupsSymmetric(y, x, caseSensitive);
      }
    } else {
      SameFirst(x, y, caseSensitive);
      TailGroups(x, y, caseSensitive);
      GroupsAlongside(x[1..], y[1..], caseSensitive);
      AlongsideCons(x, y, caseSensitive);
    }
  }

  lemma AlongsideCons(x: seq<Entry>, y: seq<Entry>, caseSensitive: bool)
    requires x != [] && y != [] && Folded(x[0].0, caseSensitive) == Folded(y[0].0, caseSensitive)
    requires Compare(x[0].1, y[0].1, caseSensitive) && Alongside(x[1..], y[1..], caseSensitive)
    ensures Alongside(x, y, caseSensitive)
  {
    hide Folded, Compare;
    assert x == [x[0]] + x[1..] && y == [y[0]] + y[1..];
  }

  lemma TailGroup(x: seq<Entry>, y: seq<Entry>, name: bytes, caseSensitive: bool)
    requires x != [] && y != [] && Folded(x[0].0, caseSensitive) == Folded(y[0].0, caseSensitive)
    requires SameGroups(x, y, caseSensitive)
    ensures Pairwise(Group(x[1..], name, caseSensitive), Group(y[1..], name, caseSensitive), caseSensitive)
    ensures name == Folded(x[0].0, caseSensitive) ==> Compare(x[0].1, y[0].1, caseSensitive)
  {
    hide Folded, Group, Compare, Pairwise;
    var g, h := Group(x[1..], name, caseSensitive), Group(y[1..], name, caseSensitive);
    GroupTail(x, name, caseSensitive);
    GroupTail(y, name, caseSensitive);
    PairwiseCons(g, h, x[0].1, y[0].1, caseSensitive);
    assert [] + g == g && [] + h == h;
    assert Pairwise(Group(x, name, caseSensitive), Group(y, name, caseSensitive), caseSensitive);
  }

  lemma TailGroups(x: seq<Entry>, y: seq<Entry>, caseSensitive: bool)
    requires x != [] && y != [] && Folded(x[0].0, caseSensitive) == Folded(y[0].0, caseSensitive)
    requires SameGroups(x, y, caseSensitive)
    ensures Compare(x[0].1, y[0].1, caseSensitive) && SameGroups(x[1..], y[1..], caseSensitive)
  {
    hide Folded, Group, Compare, Pairwise;
    TailGroup(x, y, Folded(x[0].0, caseSensitive), caseSensitive);
    forall name: bytes
      ensures Pairwise(Group(x[1..], name, caseSensitive), Group(y[1..], name, caseSensitive), caseSensitive)
    {
      TailGroup(x, y, name, caseSensitive);
    }
  }

  lemma SortedGroups(s: seq<Entry>, t: seq<Entry>, caseSensitive: bool)
    requires NamesNulFree(s) && NamesNulFree(t)
    ensures var x, y := Sort(s, caseSensitive), Sort(t, caseSensitive);
      SameGroups(x, y, caseSensitive) <==> SameGroups(s, t, caseSensitive)
  {
    hide NulFree, Sort, Group, Pairwise, Reversed;
    var x, y := Sort(s, caseSensitive), Sort(t, caseSensitive);
    forall name: bytes
      ensures Pairwise(Group(x, name, caseSensitive), Group(y, name, caseSensitive), caseSensitive)
        <==> Pairwise(Group(s, name, caseSensitive), Group(t, name, caseSensitive), caseSensitive)
    {
      SortReversesGroups(s, name, caseSensitive);
      SortReversesGroups(t, name, caseSensitive);
      PairwiseReversed(Group(s, name, caseSensitive), Group(t, name, caseSensitive), caseSensitive);
    }
  }

  lemma SortedNames(s: seq<Entry>, caseSensitive: bool)
    requires NamesNulFree(s)
    ensures NamesNulFree(Sort(s, caseSensitive)) && Ordered(Sort(s, caseSensitive), caseSensitive)
  {
    hide NulFree, Sort, Ordered;
    SortedMembers(s, caseSensitive);
    SortOrders(s, caseSensitive);
  }

  lemma AlongsideMeans(x: seq<Entry>, y: seq<Entry>, caseSensitive: bool)
    requires NamesNulFree(x) && NamesNulFree(y)
    ensures Alongside(x, y, caseSensitive) <==>
      && |x| == |y|
      && (forall p | 0 <= p < |x| :: CompareStrings(x[p].0, y[p].0, caseSensitive) == 0)
      && (forall p | 0 <= p < |x| :: Compare(x[p].1, y[p].1, caseSensitive))
  {
    hide Compare, Folded, CompareStrings, NulFree;
    if |x| == |y| {
      forall p | 0 <= p < |x|
        ensures CompareStrings(x[p].0, y[p].0, caseSensitive) == 0 <==>
          Folded(x[p].0, caseSensitive) == Folded(y[p].0, caseSensitive)
      {
        assert x[p] in x && y[p] in y;
        SameWhenFolded(x[p].0, y[p].0, caseSensitive);
      }
    }
  }

  // What compare_json decides of any two objects, in either case mode: each name has as many members in the one as in
  // the other, and in their order they have values that compare as equal.
  lemma ObjectsCompareByName(a: Members, b: Members, caseSensitive: bool)
    requires NamesNulFree(Entries(a)) && NamesNulFree(Entries(b))
    ensures Compare(Object(a), Object(b), caseSensitive) <==> SameGroups(Entries(a), Entries(b), caseSensitive)
  {
    hide Compare, Sort, NulFree, Entries, CompareStrings, SameGroups, Ordered, Alongside;
    var s, t := Entries(a), Entries(b);
    var x, y := Sort(s, caseSensitive), Sort(t, caseSensitive);
    ObjectsPairwise(a, b, caseSensitive);
    SortedNames(s, caseSensitive);
    SortedNames(t, caseSensitive);
    AlongsideMeans(x, y, caseSensitive);
    SortedGroups(s, t, caseSensitive);
    if Alongside(x, y, caseSensitive) {
      EachGroup(x, y, caseSensitive);
    } else if SameGroups(x, y, caseSensitive) {
      GroupsAlongside(x, y, caseSensitive);
    }
  }

  lemma EachGroup(x: seq<Entry>, y: seq<Entry>, caseSensitive: bool)
    requires Alongside(x, y, caseSensitive)
    ensures SameGroups(x, y, caseSensitive)
  {
    hide Alongside, Group, Pairwise;
    forall name: bytes
      ensures Pairwise(Group(x, name, caseSensitive), Group(y, name, caseSensitive), caseSensitive)
    {
      AlongsideGroups(x, y, name, caseSensitive);
    }
  }

  // ----- Sorting and comparing again -----

  // The values read the same backwards.
  predicate SameBackwards(g: seq<Json>, caseSensitive: bool) {
    Pairwise(g, Reversed(g), caseSensitive)
  }

  ghost predicate GroupsSameBackwards(s: seq<Entry>, caseSensitive: bool) {
    forall name: bytes :: SameBackwards(Group(s, name, caseSensitive), caseSensitive)
  }

  // Once sorted, an object compares as equal to what it was if and only if each name's values read the same backwards.
  lemma SortedCompares(a: Members, caseSensitive: bool)
    requires NamesNulFree(Entries(a))
    ensures Compare(Object(a), Object(MembersOf(Sort(Entries(a), caseSensitive))), caseSensitive)
      <==> GroupsSameBackwards(Entries(a), caseSensitive)
  {
    hide Compare, Sort, NulFree, Entries, Group, Reversed, Pairwise;
    var s := Entries(a);
    var sorted := Sort(s, caseSensitive);
    SortedNames(s, caseSensitive);
    EntriesOfMembers(sorted);
    ObjectsCompareByName(a, MembersOf(sorted), caseSensitive);
    if SameGroups(s, sorted, caseSensitive) {
      forall name: bytes
        ensures SameBackwards(Group(s, name, caseSensitive), caseSensitive)
      {
        SortReversesGroups(s, name, caseSensitive);
        assert Pairwise(Group(s, name, caseSensitive), Group(sorted, name, caseSensitive), caseSensitive);
      }
    }
    if GroupsSameBackwards(s, caseSensitive) {
      forall name: bytes
        ensures Pairwise(Group(s, name, caseSensitive), Group(sorted, name, caseSensitive), caseSensitive)
      {
        SortReversesGroups(s, name, caseSensitive);
        assert SameBackwards(Group(s, name, caseSensitive), caseSensitive);
      }
    }
  }

  // Sorted twice, it always does.
  lemma SortedTwiceCompares(a: Members, caseSensitive: bool)
    requires NamesNulFree(Entries(a))
    ensures Compare(Object(a), Object(MembersOf(Sort(Sort(Entries(a), caseSensitive), caseSensitive))), caseSensitive)
  {
    hide Compare, Sort, NulFree, Entries, Group, Reversed, Pairwise, Ordered;
    var s := Entries(a);
    var sorted := Sort(s, caseSensitive);
    var twice := Sort(sorted, caseSensitive);
    SortedNames(s, caseSensitive);
    SortedNames(sorted, caseSensitive);
    EntriesOfMembers(twice);
    ObjectsCompareByName(a, MembersOf(twice), caseSensitive);
    forall name: bytes
      ensures Pairwise(Group(s, name, caseSensitive), Group(twice, name, caseSensitive), caseSensitive)
    {
      SortReversesGroups(s, name, caseSensitive);
      SortReversesGroups(sorted, name, caseSensitive);
      TwiceReversed(Group(s, name, caseSensitive), caseSensitive);
    }
  }

  lemma TwiceReversed(g: seq<Json>, caseSensitive: bool)
    ensures Pairwise(g, Reversed(Reversed(g)), caseSensitive)
  {
    hide Reversed, Compare;
    forall i | 0 <= i < |g|
      ensures Compare(g[i], Reversed(Reversed(g))[i], caseSensitive)
    {
      CompareReflexive(g[i], caseSensitive);
    }
  }
}
