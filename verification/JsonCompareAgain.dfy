// What a second comparison of the same trees gives, when the first has relinked them (examples/json/cJSON_Utils.c).
module JsonCompareAgain {
  import opened Bytes
  import opened JsonTree
  import opened JsonCompare
  import opened JsonCompareTheorems
  import opened JsonCompareGroups
  import opened JsonReordering
  import opened JsonList
  import opened JsonSort
  import opened JsonLinked

  // ----- Comparison is an equivalence -----

  // Well-formed entries that are nested no deeper than this
  predicate WfEntries(s: seq<Entry>, nesting: nat) {
    forall e <- s :: NulFree(e.0) && Wf(e.1) && Nesting(e.1) <= nesting
  }

  lemma SortedWf(ms: Members, caseSensitive: bool)
    requires WfMembers(ms)
    ensures WfEntries(Sort(Entries(ms), caseSensitive), MembersNesting(ms))
  {
    hide Sort, Entries, NulFree, Wf, Nesting, WfMembers;
    var s := Sort(Entries(ms), caseSensitive);
    SortedMembers(Entries(ms), caseSensitive);
    SortedNesting(ms, caseSensitive);
    forall e | e in s
      ensures NulFree(e.0) && Wf(e.1)
    {
      EntryFacts(ms, e);
    }
  }

  // Names that compare as equal are equal, once folded.
  lemma NamesTransitive(a: bytes, b: bytes, c: bytes, caseSensitive: bool)
    requires NulFree(a) && NulFree(b) && CompareStrings(a, b, caseSensitive) == 0
    ensures CompareStrings(b, c, caseSensitive) == 0 ==> CompareStrings(a, c, caseSensitive) == 0
    ensures CompareStrings(b, a, caseSensitive) == 0
  {
    hide Folded, StrCmp, NulFree;
    FoldedNulFree(a, caseSensitive);
    FoldedNulFree(b, caseSensitive);
    StrCmpZero(Folded(a, caseSensitive), Folded(b, caseSensitive));
    CompareOpposite(a, b, caseSensitive);
  }

  // Comparison is symmetric and transitive.
  lemma {:induction false} Equivalence(a: Json, b: Json, c: Json, caseSensitive: bool)
    requires Wf(a) && Wf(b) && Compare(a, b, caseSensitive)
    ensures Compare(b, a, caseSensitive) && (Compare(b, c, caseSensitive) ==> Compare(a, c, caseSensitive))
    decreases Nesting(a), 1
  {
    match a
    case Array(items) =>
      ItemsEquivalence(items, b.items, if c.Array? then c.items else NoItems, caseSensitive);
    case Object(members) =>
      MembersEquivalence(members, b.members, if c.Object? then c.members else NoMembers, caseSensitive);
    case _ =>
  }

  lemma {:induction false} ItemsEquivalence(a: Items, b: Items, c: Items, caseSensitive: bool)
    requires WfItems(a) && WfItems(b) && CompareItems(a, b, caseSensitive)
    ensures CompareItems(b, a, caseSensitive)
    ensures CompareItems(b, c, caseSensitive) ==> CompareItems(a, c, caseSensitive)
    decreases ItemsNesting(a), 2, a
  {
    hide Compare, Wf;
    if a.Item? {
      Equivalence(a.head, b.head, if c.Item? then c.head else Null, caseSensitive);
      ItemsEquivalence(a.tail, b.tail, if c.Item? then c.tail else NoItems, caseSensitive);
    }
  }

  lemma {:induction false} EntryEquivalence(x: seq<Entry>, y: seq<Entry>, z: Entry, p: nat, caseSensitive: bool,
                                             nesting: nat, n: nat)
    requires p < |x| && p < |y| && WfEntries(x, nesting) && WfEntries(y, n)
    requires CompareStrings(x[p].0, y[p].0, caseSensitive) == 0 && Compare(x[p].1, y[p].1, caseSensitive)
    ensures CompareStrings(y[p].0, x[p].0, caseSensitive) == 0 && Compare(y[p].1, x[p].1, caseSensitive)
    ensures CompareStrings(y[p].0, z.0, caseSensitive) == 0 ==> CompareStrings(x[p].0, z.0, caseSensitive) == 0
    ensures Compare(y[p].1, z.1, caseSensitive) ==> Compare(x[p].1, z.1, caseSensitive)
    decreases nesting, 2
  {
    hide Compare, CompareStrings, NulFree, Wf, Nesting;
    assert x[p] in x && y[p] in y;
    NamesTransitive(x[p].0, y[p].0, z.0, caseSensitive);
    Equivalence(x[p].1, y[p].1, z.1, caseSensitive);
  }

  lemma {:induction false} MembersEquivalence(a: Members, b: Members, c: Members, caseSensitive: bool)
    requires WfMembers(a) && WfMembers(b) && Compare(Object(a), Object(b), caseSensitive)
    ensures Compare(Object(b), Object(a), caseSensitive)
    ensures Compare(Object(b), Object(c), caseSensitive) ==> Compare(Object(a), Object(c), caseSensitive)
    decreases MembersNesting(a), 3
  {
    hide Compare, CompareStrings, NulFree, Wf, Nesting, MembersNesting, Sort, Entries, WfMembers, WfEntries;
    var x, y, z := Sort(Entries(a), caseSensitive), Sort(Entries(b), caseSensitive), Sort(Entries(c), caseSensitive);
    SortedWf(a, caseSensitive);
    SortedWf(b, caseSensitive);
    ObjectsPairwise(a, b, caseSensitive);
    ObjectsPairwise(b, a, caseSensitive);
    ObjectsPairwise(b, c, caseSensitive);
    ObjectsPairwise(a, c, caseSensitive);
    forall p | 0 <= p < |x|
      ensures CompareStrings(y[p].0, x[p].0, caseSensitive) == 0 && Compare(y[p].1, x[p].1, caseSensitive)
      ensures p < |z| && CompareStrings(y[p].0, z[p].0, caseSensitive) == 0 ==>
        CompareStrings(x[p].0, z[p].0, caseSensitive) == 0
      ensures p < |z| && Compare(y[p].1, z[p].1, caseSensitive) ==> Compare(x[p].1, z[p].1, caseSensitive)
    {
      EntryEquivalence(x, y, if p < |z| then z[p] else x[p], p, caseSensitive, MembersNesting(a), MembersNesting(b));
    }
  }

  // ----- Relinked trees -----

  // In every object, the values of each name read the same backwards.
  ghost predicate SameBackwardsIn(j: Json, caseSensitive: bool) {
    match j
    case Array(items) => SameBackwardsInItems(items, caseSensitive)
    case Object(members) =>
      GroupsSameBackwards(Entries(members), caseSensitive) && SameBackwardsInMembers(members, caseSensitive)
    case _ => true
  }

  ghost predicate SameBackwardsInItems(items: Items, caseSensitive: bool) {
    items.Item? ==> SameBackwardsIn(items.head, caseSensitive) && SameBackwardsInItems(items.tail, caseSensitive)
  }

  ghost predicate SameBackwardsInMembers(ms: Members, caseSensitive: bool) {
    ms.Member? ==> SameBackwardsIn(ms.value, caseSensitive) && SameBackwardsInMembers(ms.next, caseSensitive)
  }

  // Where sorting puts an entry, it puts the one that stands in its place in another list.
  lemma PlacedAlike(s: seq<Entry>, r: seq<Entry>, p: nat, caseSensitive: bool) returns (k: nat)
    requires |s| == |r| && (forall i | 0 <= i < |s| :: s[i].0 == r[i].0)
    requires p < |Sort(s, caseSensitive)|
    ensures k < |s| && |Sort(r, caseSensitive)| == |Sort(s, caseSensitive)|
    ensures Sort(s, caseSensitive)[p] == s[k] && Sort(r, caseSensitive)[p] == r[k]
  {
    hide Sort, Mapped;
    var places := Sort(Places(s), caseSensitive);
    SortByPlace(s, s, caseSensitive);
    SortByPlace(s, r, caseSensitive);
    SortedMembers(Places(s), caseSensitive);
    assert places[p] in Places(s);
    k :| 0 <= k < |s| && Places(s)[k] == places[p];
  }

  lemma SortedLength(s: seq<Entry>, caseSensitive: bool)
    ensures |Sort(s, caseSensitive)| == |s|
  {
    hide Sort;
    assert |multiset(Sort(s, caseSensitive))| == |multiset(s)|;
  }

  // Two objects with the same names in the same order, and values that compare as equal
  lemma SideBySideSame(a: Members, b: Members, caseSensitive: bool)
    requires var s, r := Entries(a), Entries(b);
      |s| == |r| && forall i | 0 <= i < |s| :: s[i].0 == r[i].0 && Compare(s[i].1, r[i].1, caseSensitive)
    ensures Compare(Object(a), Object(b), caseSensitive)
  {
    hide Compare, Sort, Entries, CompareStrings;
    var x, y := Sort(Entries(a), caseSensitive), Sort(Entries(b), caseSensitive);
    SortedLength(Entries(a), caseSensitive);
    SortedLength(Entries(b), caseSensitive);
    forall p | 0 <= p < |x|
      ensures CompareStrings(x[p].0, y[p].0, caseSensitive) == 0 && Compare(x[p].1, y[p].1, caseSensitive)
    {
      var k := PlacedAlike(Entries(a), Entries(b), p, caseSensitive);
      CompareOpposite(x[p].0, x[p].0, caseSensitive);
    }
    ObjectsPairwise(a, b, caseSensitive);
  }

  lemma {:induction false} KidsRelinked(ks: seq<Linked>, ks': seq<Linked>, caseSensitive: bool)
    requires |ks| == |ks'|
    requires forall i | 0 <= i < |ks| :: Wf(ValueOf(ks'[i])) && Compare(ValueOf(ks[i]), ValueOf(ks'[i]), caseSensitive)
    ensures WfItems(ItemsValue(ks')) && CompareItems(ItemsValue(ks), ItemsValue(ks'), caseSensitive)
    decreases |ks|
  {
    hide ValueOf, Wf, Compare;
    if ks != [] {
      KidsRelinked(ks[1..], ks'[1..], caseSensitive);
    }
  }

  lemma FirstOrLater(ks: seq<Linked>)
    requires ks != []
    ensures |ks[1..]| == |ks| - 1 && forall i | 0 < i < |ks| :: ks[i] == ks[1..][i - 1]
  {
  }

  lemma {:induction false} MembersWf(ks: seq<Linked>)
    ensures WfMembers(MembersValue(ks)) <==>
      forall i | 0 <= i < |ks| :: NulFree(ks[i].item.entry.0) && Wf(ValueOf(ks[i]))
    decreases |ks|
  {
    hide ValueOf, Wf, NulFree;
    if ks != [] {
      MembersWf(ks[1..]);
      FirstOrLater(ks);
    }
  }

  lemma {:induction false} ItemsWf(ks: seq<Linked>, caseSensitive: bool)
    ensures WfItems(ItemsValue(ks)) <==> forall i | 0 <= i < |ks| :: Wf(ValueOf(ks[i]))
    ensures SameBackwardsInItems(ItemsValue(ks), caseSensitive) <==>
      forall i | 0 <= i < |ks| :: SameBackwardsIn(ValueOf(ks[i]), caseSensitive)
    decreases |ks|
  {
    hide ValueOf, Wf, SameBackwardsIn;
    if ks != [] {
      ItemsWf(ks[1..], caseSensitive);
      FirstOrLater(ks);
    }
  }

  lemma {:induction false} MembersBackwards(ks: seq<Linked>, caseSensitive: bool)
    ensures SameBackwardsInMembers(MembersValue(ks), caseSensitive) <==>
      forall i | 0 <= i < |ks| :: SameBackwardsIn(ValueOf(ks[i]), caseSensitive)
    decreases |ks|
  {
    hide ValueOf, SameBackwardsIn;
    if ks != [] {
      MembersBackwards(ks[1..], caseSensitive);
      FirstOrLater(ks);
    }
  }

  // The members' trees, sorted, stand for the sorted members.
  lemma {:induction false} MembersOfEntries(ms: Members)
    ensures MembersOf(Entries(ms)) == ms
  {
    if ms.Member? {
      MembersOfEntries(ms.next);
    }
  }

  lemma SortedMembersValue(ks: seq<Linked>, caseSensitive: bool)
    ensures MembersValue(SortKids(ks, caseSensitive)) == MembersOf(Sort(Entries(MembersValue(ks)), caseSensitive))
  {
    hide Sort, SortKids, MembersValue, Entries, KidEntries;
    var sorted := SortKids(ks, caseSensitive);
    KidsSorted(ks, caseSensitive);
    EntriesOfKids(ks);
    EntriesOfKids(sorted);
    MembersOfEntries(MembersValue(sorted));
  }

  lemma KidNamesNulFree(ks: seq<Linked>)
    requires WfMembers(MembersValue(ks))
    ensures NamesNulFree(Entries(MembersValue(ks)))
  {
    hide NulFree, Wf, Entries, MembersValue, WfMembers;
    forall e | e in Entries(MembersValue(ks))
      ensures NulFree(e.0)
    {
      EntryFacts(MembersValue(ks), e);
    }
  }

  // The kids of an object sorted
  lemma KidsReordered(ks: seq<Linked>, caseSensitive: bool)
    requires WfMembers(MembersValue(ks))
    ensures WfMembers(MembersValue(SortKids(ks, caseSensitive)))
    ensures Compare(Object(MembersValue(ks)), Object(MembersValue(SortKids(ks, caseSensitive))), caseSensitive)
      <==> GroupsSameBackwards(Entries(MembersValue(ks)), caseSensitive)
  {
    hide Compare, SortKids, Sort, MembersValue, Entries, GroupsSameBackwards, WfMembers, NamesNulFree;
    KidNamesNulFree(ks);
    SortedMembersValue(ks, caseSensitive);
    SortedCompares(MembersValue(ks), caseSensitive);
    SortedKidsWf(ks, caseSensitive);
  }

  lemma SortedKidsWf(ks: seq<Linked>, caseSensitive: bool)
    requires WfMembers(MembersValue(ks))
    ensures WfMembers(MembersValue(SortKids(ks, caseSensitive)))
  {
    hide SortKids, MembersValue, WfMembers, Wf, NulFree, ValueOf;
    var sorted := SortKids(ks, caseSensitive);
    SameMembers(sorted, ks);
    MembersWf(ks);
    MembersWf(sorted);
    forall i | 0 <= i < |sorted|
      ensures NulFree(sorted[i].item.entry.0) && Wf(ValueOf(sorted[i]))
    {
      assert sorted[i] in ks;
    }
  }

  // The kids of an object relinked themselves
  lemma MembersRelinked(ms: seq<Linked>, ks': seq<Linked>, caseSensitive: bool)
    requires |ks'| == |ms| && WfMembers(MembersValue(ms))
    requires forall i | 0 <= i < |ms| :: ms[i].item == ks'[i].item && Wf(ValueOf(ks'[i]))
    requires forall i | 0 <= i < |ms| :: Compare(ValueOf(ms[i]), ValueOf(ks'[i]), caseSensitive)
    ensures WfMembers(MembersValue(ks'))
    ensures Compare(Object(MembersValue(ms)), Object(MembersValue(ks')), caseSensitive)
  {
    hide ValueOf, Wf, Compare, NulFree, KidEntries, MembersValue, Entries;
    MembersWf(ms);
    MembersWf(ks');
    EntriesOfKids(ms);
    EntriesOfKids(ks');
    SideBySideSame(MembersValue(ms), MembersValue(ks'), caseSensitive);
  }

  // The kids that relinked ones come from, in their order
  lemma KidsBefore(t: Linked, t': Linked, caseSensitive: bool) returns (ms: seq<Linked>)
    requires Relinked(t, t', caseSensitive)
    ensures |ms| == |t'.kids| && (ms == t.kids || (t.item.entry.1.Object? && ms == SortKids(t.kids, caseSensitive)))
    ensures forall i | 0 <= i < |ms| :: ms[i] in t.kids && ms[i].item == t'.kids[i].item
    ensures forall i | 0 <= i < |ms| :: Relinked(ms[i], t'.kids[i], caseSensitive)
  {
    hide ItemsOf, SortKids, SortItems;
    ms := if ItemsOf(t'.kids) == ItemsOf(t.kids) then t.kids else SortKids(t.kids, caseSensitive);
    KidsSorted(t.kids, caseSensitive);
    SameMembers(SortKids(t.kids, caseSensitive), t.kids);
    assert ItemsOf(ms) == ItemsOf(t'.kids);
    forall i | 0 <= i < |ms|
      ensures ms[i].item == t'.kids[i].item
    {
      assert ItemsOf(ms)[i] == ItemsOf(t'.kids)[i];
    }
    assert |ItemsOf(ms)| == |ItemsOf(t'.kids)|;
  }

  // An object of relinked kids, in either order
  lemma ObjectRelinked(ks: seq<Linked>, ms: seq<Linked>, ks': seq<Linked>, caseSensitive: bool)
    requires ms == ks || ms == SortKids(ks, caseSensitive)
    requires WfMembers(MembersValue(ks)) && GroupsSameBackwards(Entries(MembersValue(ks)), caseSensitive)
    requires |ks'| == |ms| && forall i | 0 <= i < |ms| :: ms[i].item == ks'[i].item && Wf(ValueOf(ks'[i]))
    requires forall i | 0 <= i < |ms| :: Compare(ValueOf(ms[i]), ValueOf(ks'[i]), caseSensitive)
    ensures WfMembers(MembersValue(ks'))
    ensures Compare(Object(MembersValue(ks)), Object(MembersValue(ks')), caseSensitive)
  {
    hide ValueOf, WfMembers, Compare, Entries, MembersValue, GroupsSameBackwards, SortKids;
    KidsReordered(ks, caseSensitive);
    MembersRelinked(ms, ks', caseSensitive);
    var a, b, c := Object(MembersValue(ks)), Object(MembersValue(ms)), Object(MembersValue(ks'));
    if ms != ks {
      Equivalence(a, b, c, caseSensitive);
    }
  }

  // A relinked tree compares as equal to what it was, if the values of each name read the same backwards.
  lemma {:induction false} RelinkedIsSame(t: Linked, t': Linked, caseSensitive: bool)
    requires Relinked(t, t', caseSensitive) && Wf(ValueOf(t)) && SameBackwardsIn(ValueOf(t), caseSensitive)
    ensures Wf(ValueOf(t')) && Compare(ValueOf(t), ValueOf(t'), caseSensitive)
    decreases t'
  {
    hide Relinked, ItemsValue, MembersValue, Compare, GroupsSameBackwards;
    var ms := KidsBefore(t, t', caseSensitive);
    RelinkedItem(t, t', caseSensitive);
    match t.item.entry.1
    case Array(_) =>
      ItemsWf(t.kids, caseSensitive);
      forall i | 0 <= i < |ms|
        ensures Wf(ValueOf(t'.kids[i])) && Compare(ValueOf(ms[i]), ValueOf(t'.kids[i]), caseSensitive)
      {
        RelinkedIsSame(ms[i], t'.kids[i], caseSensitive);
      }
      KidsRelinked(t.kids, t'.kids, caseSensitive);
      ArraysCompare(ItemsValue(t.kids), ItemsValue(t'.kids), caseSensitive);
    case Object(_) =>
      MembersWf(t.kids);
      MembersBackwards(t.kids, caseSensitive);
      forall i | 0 <= i < |ms|
        ensures Wf(ValueOf(t'.kids[i])) && Compare(ValueOf(ms[i]), ValueOf(t'.kids[i]), caseSensitive)
      {
        RelinkedIsSame(ms[i], t'.kids[i], caseSensitive);
      }
      ObjectRelinked(t.kids, ms, t'.kids, caseSensitive);
    case _ => CompareReflexive(ValueOf(t), caseSensitive);
  }

  lemma ArraysCompare(a: Items, b: Items, caseSensitive: bool)
    ensures Compare(Array(a), Array(b), caseSensitive) == CompareItems(a, b, caseSensitive)
  {
  }

  // ----- The condition is exact -----

  lemma OneRelinked(t: Linked, i: nat, k: Linked, caseSensitive: bool)
    requires Proper(t) && i < |t.kids| && Relinked(t.kids[i], k, caseSensitive)
    ensures Relinked(t, Linked(t.item, t.kids[i := k]), caseSensitive)
  {
    hide Nodes, Below, ItemsOf, SortItems;
    var ks := t.kids[i := k];
    KidsAre(t);
    RelinkedItem(t.kids[i], k, caseSensitive);
    assert ItemsOf(ks) == ItemsOf(t.kids);
    forall x, y | x in t.kids && y in ks && x.item == y.item
      ensures Relinked(x, y, caseSensitive)
    {
      var j :| 0 <= j < |ks| && ks[j] == y;
      OneOfEach(t.kids, x, t.kids[j]);
      if j != i {
        SeparateAt(t.kids, j);
        RelinkedSelf(x, caseSensitive);
      }
    }
  }

  lemma KidItself(t: Linked, x: Linked, y: Linked, caseSensitive: bool)
    requires Proper(t) && x in t.kids && y in t.kids && x.item == y.item
    ensures Relinked(x, y, caseSensitive)
  {
    hide Nodes, Below, Relinked, Proper;
    KidsAre(t);
    OneOfEach(t.kids, x, y);
    var j :| 0 <= j < |t.kids| && t.kids[j] == x;
    SeparateAt(t.kids, j);
    RelinkedSelf(x, caseSensitive);
  }

  lemma SortedRelinked(t: Linked, caseSensitive: bool)
    requires Proper(t) && t.item.entry.1.Object?
    ensures Relinked(t, Linked(t.item, SortKids(t.kids, caseSensitive)), caseSensitive)
  {
    hide Nodes, Below, Proper, ItemsOf, SortItems, SortKids, Relinked;
    var sorted := SortKids(t.kids, caseSensitive);
    KidsSorted(t.kids, caseSensitive);
    SameMembers(sorted, t.kids);
    forall x, y | x in t.kids && y in sorted && x.item == y.item
      ensures Relinked(x, y, caseSensitive)
    {
      var j :| 0 <= j < |sorted| && sorted[j] == y;
      KidItself(t, x, sorted[j], caseSensitive);
    }
    FromKids(t, sorted, caseSensitive);
  }

  lemma FromKids(t: Linked, ks: seq<Linked>, caseSensitive: bool)
    requires KeptOrSorted(t, ItemsOf(ks), caseSensitive)
    requires forall x, y | x in t.kids && y in ks && x.item == y.item :: Relinked(x, y, caseSensitive)
    ensures Relinked(t, Linked(t.item, ks), caseSensitive)
  {
    hide ItemsOf, SortItems;
  }

  lemma {:induction false} ItemsDiffer(ks: seq<Linked>, i: nat, k: Linked, caseSensitive: bool)
    requires i < |ks| && !Compare(ValueOf(ks[i]), ValueOf(k), caseSensitive)
    ensures !CompareItems(ItemsValue(ks), ItemsValue(ks[i := k]), caseSensitive)
    decreases |ks|
  {
    hide ValueOf, Compare;
    if i > 0 {
      assert ks[i := k][1..] == ks[1..][i - 1 := k];
      ItemsDiffer(ks[1..], i - 1, k, caseSensitive);
    }
  }

  // The group of an entry's name, around the entry
  lemma GroupAround(s: seq<Entry>, i: nat, v: Json, caseSensitive: bool)
    requires i < |s|
    ensures var name := Folded(s[i].0, caseSensitive);
      Group(s[i := (s[i].0, v)], name, caseSensitive)
        == Group(s[..i], name, caseSensitive) + ([v] + Group(s[i + 1..], name, caseSensitive))
  {
    hide Group, Folded;
    var name := Folded(s[i].0, caseSensitive);
    assert s[i := (s[i].0, v)] == s[..i] + ([(s[i].0, v)] + s[i + 1..]);
    GroupConcat(s[..i], [(s[i].0, v)] + s[i + 1..], name, caseSensitive);
    GroupCons((s[i].0, v), s[i + 1..], name, caseSensitive);
  }

  lemma GroupsDiffer(s: seq<Entry>, i: nat, v: Json, caseSensitive: bool)
    requires i < |s| && !Compare(s[i].1, v, caseSensitive)
    ensures !SameGroups(s, s[i := (s[i].0, v)], caseSensitive)
  {
    hide Group, Folded, Compare;
    var name, t := Folded(s[i].0, caseSensitive), s[i := (s[i].0, v)];
    assert s == s[i := (s[i].0, s[i].1)];
    GroupAround(s, i, s[i].1, caseSensitive);
    GroupAround(s, i, v, caseSensitive);
    var x, y, n := Group(s, name, caseSensitive), Group(t, name, caseSensitive), |Group(s[..i], name, caseSensitive)|;
    assert x[n] == s[i].1 && y[n] == v;
    assert !Pairwise(x, y, caseSensitive);
  }

  lemma MembersDiffer(ks: seq<Linked>, i: nat, k: Linked, caseSensitive: bool)
    requires WfMembers(MembersValue(ks)) && i < |ks| && k.item == ks[i].item
    requires !Compare(ValueOf(ks[i]), ValueOf(k), caseSensitive)
    ensures !Compare(Object(MembersValue(ks)), Object(MembersValue(ks[i := k])), caseSensitive)
  {
    hide ValueOf, Compare, Group, KidEntries, Entries, MembersValue, SameGroups, NulFree, WfMembers;
    var s, t := KidEntries(ks), KidEntries(ks[i := k]);
    EntriesOfKids(ks);
    EntriesOfKids(ks[i := k]);
    assert t == s[i := (s[i].0, ValueOf(k))];
    KidNamesNulFree(ks);
    GroupsDiffer(s, i, ValueOf(k), caseSensitive);
    ChangedNamesNulFree(s, t);
    ObjectsCompareByName(MembersValue(ks), MembersValue(ks[i := k]), caseSensitive);
  }

  lemma ChangedNamesNulFree(s: seq<Entry>, t: seq<Entry>)
    requires NamesNulFree(s) && |t| == |s| && forall i | 0 <= i < |s| :: t[i].0 == s[i].0
    ensures NamesNulFree(t)
  {
    hide NulFree;
    forall e | e in t
      ensures NulFree(e.0)
    {
      var i :| 0 <= i < |t| && t[i] == e;
      assert s[i] in s;
    }
  }

  // Otherwise some list of the tree, sorted, makes it compare as different.
  lemma {:induction false} SomeSortIsSeen(t: Linked, caseSensitive: bool) returns (t': Linked)
    requires Proper(t) && Wf(ValueOf(t)) && !SameBackwardsIn(ValueOf(t), caseSensitive)
    ensures Relinked(t, t', caseSensitive) && !Compare(ValueOf(t), ValueOf(t'), caseSensitive)
    decreases t
  {
    hide Nodes, Below, Relinked, ItemsValue, MembersValue, Compare, GroupsSameBackwards;
    KidsAre(t);
    ItemsWf(t.kids, caseSensitive);
    MembersWf(t.kids);
    MembersBackwards(t.kids, caseSensitive);
    if t.item.entry.1.Object? && !GroupsSameBackwards(Entries(MembersValue(t.kids)), caseSensitive) {
      t' := Linked(t.item, SortKids(t.kids, caseSensitive));
      SortedRelinked(t, caseSensitive);
      KidsReordered(t.kids, caseSensitive);
    } else {
      var i :| 0 <= i < |t.kids| && !SameBackwardsIn(ValueOf(t.kids[i]), caseSensitive);
      SeparateAt(t.kids, i);
      var k := SomeSortIsSeen(t.kids[i], caseSensitive);
      t' := Linked(t.item, t.kids[i := k]);
      OneRelinked(t, i, k, caseSensitive);
      RelinkedItem(t.kids[i], k, caseSensitive);
      if t.item.entry.1.Array? {
        ItemsDiffer(t.kids, i, k, caseSensitive);
        ArraysCompare(ItemsValue(t.kids), ItemsValue(t'.kids), caseSensitive);
      } else {
        MembersDiffer(t.kids, i, k, caseSensitive);
      }
    }
  }

  // A tree compares as equal to all that comparisons can make of it, if and only if in each of its objects the values
  // of each name read the same backwards.
  lemma RelinkingIsUnseen(t: Linked, caseSensitive: bool)
    requires Proper(t) && Wf(ValueOf(t))
    ensures SameBackwardsIn(ValueOf(t), caseSensitive) <==>
      forall t' | Relinked(t, t', caseSensitive) :: Compare(ValueOf(t), ValueOf(t'), caseSensitive)
  {
    hide Proper, Wf, Relinked, SameBackwardsIn, Compare, ValueOf;
    if SameBackwardsIn(ValueOf(t), caseSensitive) {
      forall t' | Relinked(t, t', caseSensitive)
        ensures Compare(ValueOf(t), ValueOf(t'), caseSensitive)
      {
        RelinkedIsSame(t, t', caseSensitive);
      }
    } else {
      var t' := SomeSortIsSeen(t, caseSensitive);
    }
  }

  // ----- Comparing again -----

  // A second comparison of the relinked trees gives the same answer, if in both the values of each name read the same
  // backwards.
  lemma ComparesAgain(ta: Linked, tb: Linked, ta': Linked, tb': Linked, caseSensitive: bool)
    requires Relinked(ta, ta', caseSensitive) && Wf(ValueOf(ta)) && SameBackwardsIn(ValueOf(ta), caseSensitive)
    requires Relinked(tb, tb', caseSensitive) && Wf(ValueOf(tb)) && SameBackwardsIn(ValueOf(tb), caseSensitive)
    ensures Compare(ValueOf(ta'), ValueOf(tb'), caseSensitive) == Compare(ValueOf(ta), ValueOf(tb), caseSensitive)
  {
    hide Relinked, Wf, SameBackwardsIn, Compare, ValueOf;
    var a, b, a', b' := ValueOf(ta), ValueOf(tb), ValueOf(ta'), ValueOf(tb');
    RelinkedIsSame(ta, ta', caseSensitive);
    RelinkedIsSame(tb, tb', caseSensitive);
    Equivalence(a, a', b', caseSensitive);
    Equivalence(b, b', a, caseSensitive);
    Equivalence(a', a, b, caseSensitive);
    if Compare(a, b, caseSensitive) {
      Equivalence(a', b, b', caseSensitive);
    }
    if Compare(a', b', caseSensitive) {
      Equivalence(a, b', b, caseSensitive);
    }
  }

  // Otherwise it need not: sorting exchanges two members of one name each time, so that an object compares as equal to
  // a copy of itself, and then as different from the next copy.
  lemma SecondComparisonDiffers()
    ensures var s: seq<Entry> := [(['a'], True), (['a'], False)];
      var a, sorted := Object(MembersOf(s)), Object(MembersOf(Sort(s, true)));
      && Sort(s, true) == [s[1], s[0]] && Sort(Sort(s, true), true) == s
      && Compare(a, a, true) && !Compare(sorted, a, true)
  {
    hide Sort, StrCmp, Compare, Entries;
    var x, y: Entry := (['a'], True), (['a'], False);
    SortedPair(x, y);
    SortedPair(y, x);
    EntriesOfMembers([x, y]);
    EntriesOfMembers([y, x]);
    CompareReflexive(Object(MembersOf([x, y])), true);
    ObjectsPairwise(MembersOf([y, x]), MembersOf([x, y]), true);
    assert !Compare(x.1, y.1, true) by {
      DifferentScalars();
    }
  }

  lemma DifferentScalars()
    ensures !Compare(True, False, true)
  {
  }
}
