// compare_json of examples/json/cJSON_Utils.c on linked trees: it relinks the members of both objects as it goes, and
// takes trees that an earlier comparison has relinked.
module JsonCompareInPlace {
  import opened JsonTree
  import opened JsonCompare
  import JsonCompareTheorems
  import opened JsonList
  import opened JsonSort
  import opened JsonLinked

  // ----- The comparison -----

  // Two lists of trees side by side, from the i-th on; the names are looked at in objects.
  predicate SameFrom(ka: seq<Linked>, kb: seq<Linked>, i: nat, named: bool, caseSensitive: bool)
    decreases |ka| - i
  {
    if i < |ka| && i < |kb| then
      && (named ==> CompareStrings(ka[i].item.entry.0, kb[i].item.entry.0, caseSensitive) == 0)
      && Compare(ValueOf(ka[i]), ValueOf(kb[i]), caseSensitive)
      && SameFrom(ka, kb, i + 1, named, caseSensitive)
    else i >= |ka| && i >= |kb|
  }

  // What compare_json asks of its arguments: two trees of chained items that share none.
  ghost predicate Comparable(a: Linked, b: Linked)
    reads Nodes(a)`child, Nodes(a)`children, Below(a)`next, Below(a)`prev
    reads Nodes(b)`child, Nodes(b)`children, Below(b)`next, Below(b)`prev
  {
    Proper(a) && Proper(b) && Nodes(a) !! Nodes(b) && Stands(a) && Stands(b)
  }

  ghost predicate SideBySide(ka: seq<Linked>, kb: seq<Linked>) {
    Separate(ka) && Separate(kb) && NodesOf(ka) !! NodesOf(kb)
  }

  lemma InOneKid(t: Linked, o: Node)
    requires o in Below(t)
    ensures exists i | 0 <= i < |t.kids| :: o in Nodes(t.kids[i])
  {
    hide Nodes;
  }

  // All items of a tree exist.
  lemma {:induction false} Exists(t: Linked)
    ensures forall o <- Nodes(t) :: allocated(o)
    decreases t
  {
    forall i | 0 <= i < |t.kids|
      ensures forall o <- Nodes(t.kids[i]) :: allocated(o)
    {
      Exists(t.kids[i]);
    }
    forall o | o in Below(t)
      ensures allocated(o)
    {
      InOneKid(t, o);
    }
  }

  lemma AllExist(ks: seq<Linked>)
    ensures forall o <- NodesOf(ks) :: allocated(o)
  {
    forall k | k in ks
      ensures forall o <- Nodes(k) :: allocated(o)
    {
      Exists(k);
    }
  }

  // Trees that nothing is done to stay as they are.
  twostate lemma Untouched(t: Linked)
    requires forall o <- Nodes(t) :: old(allocated(o))
    requires forall o <- Nodes(t) :: o.child == old(o.child) && o.children == old(o.children)
    requires forall o <- Below(t) :: o in Nodes(t) && o.next == old(o.next) && o.prev == old(o.prev)
    ensures old(Stands(t)) == Stands(t)
  {
  }

  lemma KidsComparable(ka: seq<Linked>, kb: seq<Linked>, i: nat)
    requires SideBySide(ka, kb) && AllStand(ka) && AllStand(kb) && i < |ka| && i < |kb|
    ensures Comparable(ka[i], kb[i]) && ka[i] in ka && kb[i] in kb
    ensures Nodes(ka[i]) <= NodesOf(ka) && Nodes(kb[i]) <= NodesOf(kb)
    ensures Below(ka[i]) <= BelowOf(ka) && Below(kb[i]) <= BelowOf(kb)
  {
    hide Nodes, Proper, Stands, NodesOf;
    PartWithin(ka, ka[i]);
    PartWithin(kb, kb[i]);
  }

  lemma OthersStand(ks: seq<Linked>, i: nat, k': Linked)
    requires i < |ks| && Stands(k') && forall j | 0 <= j < |ks| && j != i :: Stands(ks[j])
    ensures AllStand(ks[i := k'])
  {
    hide Stands;
  }

  // One step of the two loops of compare_json: all but the two trees at hand stay as they are.
  method ComparePair(x: Node, y: Node, caseSensitive: bool, ghost ka: seq<Linked>, ghost kb: seq<Linked>, ghost i: nat)
    returns (same: bool, ghost k': Linked, ghost l': Linked)
    requires SideBySide(ka, kb) && AllStand(ka) && AllStand(kb) && i < |ka| && i < |kb|
    requires ka[i].item == x && kb[i].item == y
    modifies NodesOf(ka)`child, NodesOf(ka)`children, BelowOf(ka)`next, BelowOf(ka)`prev
    modifies NodesOf(kb)`child, NodesOf(kb)`children, BelowOf(kb)`next, BelowOf(kb)`prev
    ensures same == Compare(ValueOf(ka[i]), ValueOf(kb[i]), caseSensitive)
    ensures Relinked(ka[i], k', caseSensitive) && AllStand(ka[i := k'])
    ensures Relinked(kb[i], l', caseSensitive) && AllStand(kb[i := l'])
    decreases NodesOf(ka), 3
  {
    hide Proper, Stands, Relinked, Comparable, Separate, Nodes, Below, NodesOf, BelowOf, Compare, ValueOf, AllStand;
    KidsComparable(ka, kb, i);
    AllExist(ka);
    AllExist(kb);
    OneOfBoth(ka, kb, i);
    same, k', l' := CompareBoth(x, y, caseSensitive, ka[i], kb[i]);
    forall j | 0 <= j < |ka| && j != i
      ensures Stands(ka[j])
    {
      Untouched(ka[j]);
    }
    forall j | 0 <= j < |kb| && j != i
      ensures Stands(kb[j])
    {
      Untouched(kb[j]);
    }
    OthersStand(ka, i, k');
    OthersStand(kb, i, l');
  }

  // The trees beside the two at hand
  lemma OneOfBoth(ka: seq<Linked>, kb: seq<Linked>, i: nat)
    requires SideBySide(ka, kb) && AllStand(ka) && AllStand(kb) && i < |ka| && i < |kb|
    ensures forall j | 0 <= j < |ka| && j != i ::
      Stands(ka[j]) && Below(ka[j]) <= Nodes(ka[j]) <= NodesOf(ka)
      && Nodes(ka[j]) !! Nodes(ka[i]) && Nodes(ka[j]) !! Nodes(kb[i])
    ensures forall j | 0 <= j < |kb| && j != i ::
      Stands(kb[j]) && Below(kb[j]) <= Nodes(kb[j]) <= NodesOf(kb)
      && Nodes(kb[j]) !! Nodes(ka[i]) && Nodes(kb[j]) !! Nodes(kb[i])
    ensures Below(ka[i]) <= Nodes(ka[i]) && Below(kb[i]) <= Nodes(kb[i])
  {
    hide Nodes, Below, NodesOf, BelowOf, Proper, Stands;
    PartWithin(ka, ka[i]);
    PartWithin(kb, kb[i]);
    ItemWithin(ka[i]);
    ItemWithin(kb[i]);
    forall j | 0 <= j < |ka|
      ensures Below(ka[j]) <= Nodes(ka[j]) <= NodesOf(ka)
    {
      PartWithin(ka, ka[j]);
      ItemWithin(ka[j]);
    }
    forall j | 0 <= j < |kb|
      ensures Below(kb[j]) <= Nodes(kb[j]) <= NodesOf(kb)
    {
      PartWithin(kb, kb[j]);
      ItemWithin(kb[j]);
    }
  }

  lemma HeadsApart(ks: seq<Linked>, others: seq<Linked>)
    requires Separate(ks) && NodesOf(ks) !! NodesOf(others)
    ensures forall x <- ItemsOf(ks) :: x !in BelowOf(ks) && x !in NodesOf(others) && x !in BelowOf(others)
  {
    hide ItemsOf, NodesOf, BelowOf, Separate;
    PartsWithin(others);
    forall x | x in ItemsOf(ks)
      ensures x !in BelowOf(ks) && x !in NodesOf(others) && x !in BelowOf(others)
    {
      HeadNotBelow(ks, x);
    }
  }

  ghost predicate Chained(head: Node?, items: seq<Node>)
    reads items`next, items`prev
  {
    IsChain(head, items)
  }

  // What holds of one list in those loops: the trees stand as they have been relinked, from the i-th on as they were.
  ghost predicate Walking(head: Node?, ks: seq<Linked>, ks': seq<Linked>, i: nat, caseSensitive: bool)
    reads NodesOf(ks')`child, NodesOf(ks')`children, BelowOf(ks')`next, BelowOf(ks')`prev
    reads ItemsOf(ks)`next, ItemsOf(ks)`prev
  {
    && i <= |ks| && RelinkedAll(ks, ks', caseSensitive) && AllStand(ks') && Chained(head, ItemsOf(ks))
    && forall j | i <= j < |ks| :: ks'[j] == ks[j]
  }

  lemma StepCloses(head: Node?, ks: seq<Linked>, ks': seq<Linked>, i: nat, k': Linked, caseSensitive: bool)
    requires i < |ks| && RelinkedAll(ks, ks', caseSensitive) && (forall j | i <= j < |ks| :: ks'[j] == ks[j])
    requires Relinked(ks[i], k', caseSensitive) && AllStand(ks'[i := k']) && Chained(head, ItemsOf(ks))
    ensures Walking(head, ks, ks'[i := k'], i + 1, caseSensitive)
  {
    hide Relinked, AllStand, Chained, ItemsOf;
    RelinkedItem(ks[i], k', caseSensitive);
  }

  lemma StepOpens(head: Node?, ks: seq<Linked>, ks': seq<Linked>, i: nat, caseSensitive: bool)
    requires Walking(head, ks, ks', i, caseSensitive) && Separate(ks)
    ensures RelinkedAll(ks, ks', caseSensitive) && AllStand(ks') && Chained(head, ItemsOf(ks))
    ensures |ks'| == |ks| == |ItemsOf(ks)|
    ensures forall j | i <= j < |ks| :: ks'[j] == ks[j]
    ensures Separate(ks') && NodesOf(ks') == NodesOf(ks) && BelowOf(ks') == BelowOf(ks)
    ensures head == if ks == [] then null else ks[0].item
    ensures i > 0 ==> ks[i - 1].item.next == if i < |ks| then ks[i].item else null
  {
    hide Relinked, AllStand, Separate, NodesOf, BelowOf, IsChain;
    SameForests(ks, ks', caseSensitive);
    ChainHead(head, ItemsOf(ks));
    if i > 0 {
      NextAt(head, ItemsOf(ks), i - 1);
    }
  }

  method WalkStep(first: Node?, second: Node?, x: Node, y: Node, caseSensitive: bool, ghost ka: seq<Linked>,
                  ghost kb: seq<Linked>, ghost ka': seq<Linked>, ghost kb': seq<Linked>, ghost i: nat)
    returns (same: bool, ghost ka'': seq<Linked>, ghost kb'': seq<Linked>)
    requires SideBySide(ka, kb) && i < |ka| && i < |kb| && ka[i].item == x && kb[i].item == y
    requires Walking(first, ka, ka', i, caseSensitive) && Walking(second, kb, kb', i, caseSensitive)
    modifies NodesOf(ka)`child, NodesOf(ka)`children, BelowOf(ka)`next, BelowOf(ka)`prev
    modifies NodesOf(kb)`child, NodesOf(kb)`children, BelowOf(kb)`next, BelowOf(kb)`prev
    ensures same == Compare(ValueOf(ka[i]), ValueOf(kb[i]), caseSensitive)
    ensures Walking(first, ka, ka'', i + 1, caseSensitive) && Walking(second, kb, kb'', i + 1, caseSensitive)
    decreases NodesOf(ka), 4
  {
    hide Walking, RelinkedAll, Relinked, AllStand, Separate, NodesOf, BelowOf, Compare, ValueOf, Chained, ItemsOf;
    StepOpens(first, ka, ka', i, caseSensitive);
    StepOpens(second, kb, kb', i, caseSensitive);
    HeadsApart(ka, kb);
    HeadsApart(kb, ka);
    ghost var k, l;
    same, k, l := ComparePair(x, y, caseSensitive, ka', kb', i);
    ka'', kb'' := ka'[i := k], kb'[i := l];
    StepCloses(first, ka, ka', i, k, caseSensitive);
    StepCloses(second, kb, kb', i, l, caseSensitive);
  }

  // The loops of compare_json over two arrays, or over two sorted objects
  method Walk(first: Node?, second: Node?, named: bool, caseSensitive: bool, ghost ka: seq<Linked>, ghost kb: seq<Linked>)
    returns (same: bool, ghost ka': seq<Linked>, ghost kb': seq<Linked>)
    requires SideBySide(ka, kb) && AllStand(ka) && AllStand(kb)
    requires Chained(first, ItemsOf(ka)) && Chained(second, ItemsOf(kb))
    modifies NodesOf(ka)`child, NodesOf(ka)`children, BelowOf(ka)`next, BelowOf(ka)`prev
    modifies NodesOf(kb)`child, NodesOf(kb)`children, BelowOf(kb)`next, BelowOf(kb)`prev
    ensures same == SameFrom(ka, kb, 0, named, caseSensitive)
    ensures RelinkedAll(ka, ka', caseSensitive) && AllStand(ka') && Chained(first, ItemsOf(ka))
    ensures RelinkedAll(kb, kb', caseSensitive) && AllStand(kb') && Chained(second, ItemsOf(kb))
    decreases NodesOf(ka), 5
  {
    hide Separate, Walking, NodesOf, BelowOf, Compare, ValueOf, CompareStrings, AllStand, Chained, ItemsOf, RelinkedAll;
    var x, y := first, second;
    ghost var i := 0;
    ka', kb' := ka, kb;
    StartsWalking(first, ka, caseSensitive);
    StartsWalking(second, kb, caseSensitive);
    StepOpens(first, ka, ka', i, caseSensitive);
    StepOpens(second, kb, kb', i, caseSensitive);
    same := false;
    while x != null && y != null
      invariant i <= |ka| && Walking(first, ka, ka', i, caseSensitive)
      invariant i <= |kb| && Walking(second, kb, kb', i, caseSensitive)
      invariant x == (if i < |ka| then ka[i].item else null) && y == if i < |kb| then kb[i].item else null
      invariant SameFrom(ka, kb, i, named, caseSensitive) == SameFrom(ka, kb, 0, named, caseSensitive)
      decreases |ka| - i
    {
      if named && CompareStrings(x.entry.0, y.entry.0, caseSensitive) != 0 {
        StepOpens(first, ka, ka', i, caseSensitive);
        StepOpens(second, kb, kb', i, caseSensitive);
        return false, ka', kb';
      }
      var identical;
      identical, ka', kb' := WalkStep(first, second, x, y, caseSensitive, ka, kb, ka', kb', i);
      StepOpens(first, ka, ka', i + 1, caseSensitive);
      StepOpens(second, kb, kb', i + 1, caseSensitive);
      if !identical {
        return false, ka', kb';
      }
      x, y := x.next, y.next;
      i := i + 1;
    }
    StepOpens(first, ka, ka', i, caseSensitive);
    StepOpens(second, kb, kb', i, caseSensitive);
    same := x == null && y == null;
  }

  lemma StartsWalking(head: Node?, ks: seq<Linked>, caseSensitive: bool)
    requires Separate(ks) && AllStand(ks) && Chained(head, ItemsOf(ks))
    ensures Walking(head, ks, ks, 0, caseSensitive)
  {
    hide Relinked, AllStand, Chained, Nodes, Proper;
    forall k | k in ks
      ensures Relinked(k, k, caseSensitive)
    {
      RelinkedSelf(k, caseSensitive);
    }
  }

  // ----- Opening and closing a tree -----

  lemma Opens(t: Linked)
    requires Stands(t)
    ensures t.item.children == ItemsOf(t.kids) && Chained(t.item.child, ItemsOf(t.kids)) && AllStand(t.kids)
  {
  }

  // The trees of an object's or array's items before it is walked: kept, or sorted
  ghost predicate KidsInOrder(t: Linked, ks: seq<Linked>, caseSensitive: bool) {
    ks == t.kids || (t.item.entry.1.Object? && ks == SortKids(t.kids, caseSensitive))
  }

  lemma KidsKept(t: Linked, ks: seq<Linked>, caseSensitive: bool)
    requires KidsInOrder(t, ks, caseSensitive)
    ensures multiset(ks) == multiset(t.kids) && KeptOrSorted(t, ItemsOf(ks), caseSensitive)
  {
    hide SortKids, ItemsOf;
    KidsSorted(t.kids, caseSensitive);
  }

  // A tree of the relinked kids
  lemma Closes(t: Linked, ks: seq<Linked>, ks': seq<Linked>, caseSensitive: bool)
    requires Proper(t) && KidsInOrder(t, ks, caseSensitive) && RelinkedAll(ks, ks', caseSensitive) && AllStand(ks')
    requires t.item.children == ItemsOf(ks) && Chained(t.item.child, ItemsOf(ks))
    ensures var t' := Linked(t.item, ks'); Stands(t') && Relinked(t, t', caseSensitive)
  {
    hide Nodes, Below, Proper, Stands, Relinked, AllStand, IsChain, KidsInOrder, KeptOrSorted;
    StandsOf(t.item, ks');
    KidsKept(t, ks, caseSensitive);
    SameMembers(ks, t.kids);
    RelinkedKids(t, ks, ks', caseSensitive);
  }

  lemma StandsOf(item: Node, ks: seq<Linked>)
    requires item.children == ItemsOf(ks) && Chained(item.child, ItemsOf(ks)) && AllStand(ks)
    ensures Stands(Linked(item, ks))
  {
  }

  lemma RelinkedKids(t: Linked, ks: seq<Linked>, ks': seq<Linked>, caseSensitive: bool)
    requires Proper(t) && RelinkedAll(ks, ks', caseSensitive) && (forall k <- ks :: k in t.kids)
    requires KeptOrSorted(t, ItemsOf(ks), caseSensitive)
    ensures Relinked(t, Linked(t.item, ks'), caseSensitive)
  {
    hide Nodes, Below, Proper, KeptOrSorted;
    KidsAre(t);
    assert ItemsOf(ks') == ItemsOf(ks);
    forall k, k' | k in t.kids && k' in ks' && k.item == k'.item
      ensures Relinked(k, k', caseSensitive)
    {
      var i :| 0 <= i < |ks'| && ks'[i] == k';
      assert ks[i] in ks;
      OneOfEach(t.kids, k, ks[i]);
    }
  }

  // ----- Sorting an object -----

  lemma HeadItems(ks: seq<Linked>)
    requires Separate(ks)
    ensures SetOf(ItemsOf(ks)) !! BelowOf(ks) && SetOf(ItemsOf(ks)) <= NodesOf(ks) && Distinct(ItemsOf(ks))
  {
    hide Nodes, Below, NodesOf, BelowOf, Proper;
    forall x | x in SetOf(ItemsOf(ks))
      ensures x !in BelowOf(ks) && x in NodesOf(ks)
    {
      HeadNotBelow(ks, x);
    }
    forall i, j | 0 <= i < j < |ks|
      ensures ks[i].item != ks[j].item
    {
      ItemWithin(ks[i]);
      ItemWithin(ks[j]);
    }
  }

  lemma SortedStand(ks: seq<Linked>, caseSensitive: bool)
    requires forall k <- ks :: Stands(k)
    ensures AllStand(SortKids(ks, caseSensitive))
  {
    hide Stands, SortKids;
    var sorted := SortKids(ks, caseSensitive);
    SameMembers(sorted, ks);
    forall i | 0 <= i < |sorted|
      ensures Stands(sorted[i])
    {
      assert sorted[i] in ks;
    }
  }

  method SortChildren(a: Node, caseSensitive: bool, ghost items: seq<Node>)
    requires a.children == items && Chained(a.child, items) && Distinct(items)
    modifies a`child, a`children, SetOf(items)`next, SetOf(items)`prev
    ensures a.children == SortItems(items, caseSensitive) && Chained(a.child, a.children)
  {
    hide SortItems, IsChain, Distinct, SetOf, IsList;
    SortObject(a, caseSensitive);
  }

  // sort_object relinks an object's own members, and leaves what is below them.
  method SortMembers(a: Node, caseSensitive: bool, ghost t: Linked)
    requires t.item == a && Proper(t) && Stands(t)
    modifies a`child, a`children, SetOf(ItemsOf(t.kids))`next, SetOf(ItemsOf(t.kids))`prev
    ensures a.children == ItemsOf(SortKids(t.kids, caseSensitive)) && Chained(a.child, a.children)
    ensures AllStand(SortKids(t.kids, caseSensitive))
  {
    hide Nodes, Below, NodesOf, BelowOf, Proper, Separate, Stands, SortItems, SortKids, ItemsOf, SetOf, Chained;
    hide Distinct;
    KidsAre(t);
    Opens(t);
    HeadItems(t.kids);
    AllExist(t.kids);
    KidsSorted(t.kids, caseSensitive);
    SortChildren(a, caseSensitive, ItemsOf(t.kids));
    forall k | k in t.kids
      ensures Stands(k)
    {
      PartWithin(t.kids, k);
      ItemWithin(k);
      Untouched(k);
    }
    SortedStand(t.kids, caseSensitive);
  }

  // The same, where other trees stand beside it
  method SortBeside(b: Node, caseSensitive: bool, ghost t: Linked, ghost head: Node?, ghost ks: seq<Linked>)
    requires t.item == b && Proper(t) && Stands(t) && NodesOf(ks) !! Nodes(t)
    requires AllStand(ks) && Chained(head, ItemsOf(ks)) && Separate(ks)
    modifies b`child, b`children, SetOf(ItemsOf(t.kids))`next, SetOf(ItemsOf(t.kids))`prev
    ensures b.children == ItemsOf(SortKids(t.kids, caseSensitive)) && Chained(b.child, b.children)
    ensures AllStand(SortKids(t.kids, caseSensitive))
    ensures AllStand(ks) && Chained(head, ItemsOf(ks))
  {
    hide Nodes, Below, NodesOf, BelowOf, Proper, Separate, Stands, SortKids, ItemsOf, SetOf, Chained, AllStand;
    hide Distinct;
    KidsAre(t);
    HeadItems(t.kids);
    HeadItems(ks);
    PartsWithin(ks);
    AllExist(ks);
    SortMembers(b, caseSensitive, t);
  }

  // Both objects are sorted, the second without touching the first.
  method SortBothMembers(a: Node, b: Node, caseSensitive: bool, ghost ta: Linked, ghost tb: Linked)
    requires ta.item == a && tb.item == b && Comparable(ta, tb)
    modifies Nodes(ta)`child, Nodes(ta)`children, Below(ta)`next, Below(ta)`prev
    modifies Nodes(tb)`child, Nodes(tb)`children, Below(tb)`next, Below(tb)`prev
    ensures a.children == ItemsOf(SortKids(ta.kids, caseSensitive)) && Chained(a.child, a.children)
    ensures b.children == ItemsOf(SortKids(tb.kids, caseSensitive)) && Chained(b.child, b.children)
    ensures AllStand(SortKids(ta.kids, caseSensitive)) && AllStand(SortKids(tb.kids, caseSensitive))
  {
    hide Nodes, Below, NodesOf, BelowOf, Proper, Separate, Stands, SortKids, ItemsOf, SetOf, Chained, AllStand;
    hide Distinct;
    KidsAre(ta);
    KidsAre(tb);
    HeadItems(ta.kids);
    HeadItems(tb.kids);
    Exists(tb);
    StaySeparate(ta.kids, SortKids(ta.kids, caseSensitive));
    SortMembers(a, caseSensitive, ta);
    SortBeside(b, caseSensitive, tb, a.child, SortKids(ta.kids, caseSensitive));
  }

  // ----- The specification -----

  lemma {:induction false} ItemsAreSame(ka: seq<Linked>, kb: seq<Linked>, i: nat, caseSensitive: bool)
    requires i <= |ka| && i <= |kb|
    ensures SameFrom(ka, kb, i, false, caseSensitive)
         == CompareItems(ItemsValue(ka[i..]), ItemsValue(kb[i..]), caseSensitive)
    decreases |ka| - i
  {
    hide Compare, ValueOf;
    if i < |ka| && i < |kb| {
      assert ka[i..][0] == ka[i] && ka[i..][1..] == ka[i + 1..];
      assert kb[i..][0] == kb[i] && kb[i..][1..] == kb[i + 1..];
      ItemsAreSame(ka, kb, i + 1, caseSensitive);
    }
  }

  lemma {:induction false} EntriesAreSame(ka: seq<Linked>, kb: seq<Linked>, i: nat, caseSensitive: bool, n: nat)
    requires i <= |ka| && i <= |kb| && forall e <- KidEntries(ka)[i..] :: Nesting(e.1) <= n
    ensures SameFrom(ka, kb, i, true, caseSensitive)
         == CompareEntries(KidEntries(ka)[i..], KidEntries(kb)[i..], caseSensitive, n)
    decreases |ka| - i
  {
    hide KidEntries, Compare, Nesting, ValueOf, CompareStrings;
    var x, y := KidEntries(ka), KidEntries(kb);
    if i < |ka| && i < |kb| {
      assert x[i..][0] == x[i] && y[i..][0] == y[i];
      assert x[i..][1..] == x[i + 1..] && y[i..][1..] == y[i + 1..];
      EntriesAreSame(ka, kb, i + 1, caseSensitive, n);
    }
  }

  lemma ArraysAreSame(ta: Linked, tb: Linked, caseSensitive: bool)
    requires ta.item.entry.1.Array? && tb.item.entry.1.Array?
    ensures SameFrom(ta.kids, tb.kids, 0, false, caseSensitive) == Compare(ValueOf(ta), ValueOf(tb), caseSensitive)
  {
    hide SameFrom, ItemsValue;
    assert ta.kids[0..] == ta.kids && tb.kids[0..] == tb.kids;
    ItemsAreSame(ta.kids, tb.kids, 0, caseSensitive);
  }

  lemma ObjectsAreSame(ta: Linked, tb: Linked, caseSensitive: bool)
    requires ta.item.entry.1.Object? && tb.item.entry.1.Object?
    ensures SameFrom(SortKids(ta.kids, caseSensitive), SortKids(tb.kids, caseSensitive), 0, true, caseSensitive)
         == Compare(ValueOf(ta), ValueOf(tb), caseSensitive)
  {
    hide SameFrom, SortKids, Sort, KidEntries, Entries, Nesting, MembersNesting, MembersValue, Compare, CompareEntries;
    var x, y := SortKids(ta.kids, caseSensitive), SortKids(tb.kids, caseSensitive);
    EntriesOfKids(ta.kids);
    EntriesOfKids(tb.kids);
    KidsSorted(ta.kids, caseSensitive);
    KidsSorted(tb.kids, caseSensitive);
    JsonCompareTheorems.ObjectsCompare(ValueOf(ta), ValueOf(tb), caseSensitive);
    assert KidEntries(x)[0..] == KidEntries(x) && KidEntries(y)[0..] == KidEntries(y);
    EntriesAreSame(x, y, 0, caseSensitive, MembersNesting(MembersValue(ta.kids)));
  }

  lemma ScalarsAreSame(ta: Linked, tb: Linked, caseSensitive: bool)
    requires !(ta.item.entry.1.Array? && tb.item.entry.1.Array?)
    requires !(ta.item.entry.1.Object? && tb.item.entry.1.Object?)
    ensures (ta.item.entry.1 == tb.item.entry.1) == Compare(ValueOf(ta), ValueOf(tb), caseSensitive)
  {
  }

  // ----- compare_json -----

  method CompareBoth(a: Node, b: Node, caseSensitive: bool, ghost ta: Linked, ghost tb: Linked)
    returns (same: bool, ghost ta': Linked, ghost tb': Linked)
    requires ta.item == a && tb.item == b && Comparable(ta, tb)
    modifies Nodes(ta)`child, Nodes(ta)`children, Below(ta)`next, Below(ta)`prev
    modifies Nodes(tb)`child, Nodes(tb)`children, Below(tb)`next, Below(tb)`prev
    ensures same == Compare(ValueOf(ta), ValueOf(tb), caseSensitive)
    ensures Stands(ta') && Relinked(ta, ta', caseSensitive) && Stands(tb') && Relinked(tb, tb', caseSensitive)
    ensures a.entry.1.Object? && b.entry.1.Object? ==>
      && ItemsOf(ta'.kids) == SortItems(ItemsOf(ta.kids), caseSensitive)
      && ItemsOf(tb'.kids) == SortItems(ItemsOf(tb.kids), caseSensitive)
    decreases Nodes(ta), 2
  {
    hide Nodes, Below, Proper, Stands, Relinked, Compare, ValueOf, ItemsOf, SortItems;
    if a.entry.1.Array? && b.entry.1.Array? {
      same, ta', tb' := CompareArrays(a, b, caseSensitive, ta, tb);
    } else if a.entry.1.Object? && b.entry.1.Object? {
      same, ta', tb' := CompareObjects(a, b, caseSensitive, ta, tb);
    } else {
      RelinkedSelf(ta, caseSensitive);
      RelinkedSelf(tb, caseSensitive);
      ScalarsAreSame(ta, tb, caseSensitive);
      same, ta', tb' := a.entry.1 == b.entry.1, ta, tb;
    }
  }

  // The loops, and the trees that they leave
  method WalkKids(a: Node, b: Node, named: bool, caseSensitive: bool, ghost ta: Linked, ghost tb: Linked,
                  ghost ka: seq<Linked>, ghost kb: seq<Linked>)
    returns (same: bool, ghost ta': Linked, ghost tb': Linked)
    requires ta.item == a && tb.item == b && Proper(ta) && Proper(tb) && Nodes(ta) !! Nodes(tb)
    requires KidsInOrder(ta, ka, caseSensitive) && KidsInOrder(tb, kb, caseSensitive)
    requires a.children == ItemsOf(ka) && Chained(a.child, ItemsOf(ka)) && AllStand(ka)
    requires b.children == ItemsOf(kb) && Chained(b.child, ItemsOf(kb)) && AllStand(kb)
    modifies Nodes(ta)`child, Nodes(ta)`children, Below(ta)`next, Below(ta)`prev
    modifies Nodes(tb)`child, Nodes(tb)`children, Below(tb)`next, Below(tb)`prev
    ensures same == SameFrom(ka, kb, 0, named, caseSensitive)
    ensures Stands(ta') && Relinked(ta, ta', caseSensitive) && ItemsOf(ta'.kids) == ItemsOf(ka)
    ensures Stands(tb') && Relinked(tb, tb', caseSensitive) && ItemsOf(tb'.kids) == ItemsOf(kb)
    decreases Below(ta), 6
  {
    hide Nodes, Below, NodesOf, BelowOf, Proper, Separate, Stands, Relinked, RelinkedAll, AllStand, Chained, ItemsOf;
    hide KidsInOrder, KeptOrSorted;
    KidsAre(ta);
    KidsAre(tb);
    KidsKept(ta, ka, caseSensitive);
    KidsKept(tb, kb, caseSensitive);
    StaySeparate(ta.kids, ka);
    StaySeparate(tb.kids, kb);
    ghost var ka', kb';
    same, ka', kb' := Walk(a.child, b.child, named, caseSensitive, ka, kb);
    SameForests(ka, ka', caseSensitive);
    SameForests(kb, kb', caseSensitive);
    Closes(ta, ka, ka', caseSensitive);
    Closes(tb, kb, kb', caseSensitive);
    ta', tb' := Linked(a, ka'), Linked(b, kb');
  }

  method CompareArrays(a: Node, b: Node, caseSensitive: bool, ghost ta: Linked, ghost tb: Linked)
    returns (same: bool, ghost ta': Linked, ghost tb': Linked)
    requires ta.item == a && tb.item == b && Comparable(ta, tb) && a.entry.1.Array? && b.entry.1.Array?
    modifies Nodes(ta)`child, Nodes(ta)`children, Below(ta)`next, Below(ta)`prev
    modifies Nodes(tb)`child, Nodes(tb)`children, Below(tb)`next, Below(tb)`prev
    ensures same == Compare(ValueOf(ta), ValueOf(tb), caseSensitive)
    ensures Stands(ta') && Relinked(ta, ta', caseSensitive) && Stands(tb') && Relinked(tb, tb', caseSensitive)
    decreases Nodes(ta), 1
  {
    hide Nodes, Below, NodesOf, Proper, Stands, Relinked, AllStand, Chained, ItemsOf, SameFrom, Compare, ValueOf;
    KidsAre(ta);
    Opens(ta);
    Opens(tb);
    ArraysAreSame(ta, tb, caseSensitive);
    same, ta', tb' := WalkKids(a, b, false, caseSensitive, ta, tb, ta.kids, tb.kids);
  }

  method CompareObjects(a: Node, b: Node, caseSensitive: bool, ghost ta: Linked, ghost tb: Linked)
    returns (same: bool, ghost ta': Linked, ghost tb': Linked)
    requires ta.item == a && tb.item == b && Comparable(ta, tb) && a.entry.1.Object? && b.entry.1.Object?
    modifies Nodes(ta)`child, Nodes(ta)`children, Below(ta)`next, Below(ta)`prev
    modifies Nodes(tb)`child, Nodes(tb)`children, Below(tb)`next, Below(tb)`prev
    ensures same == Compare(ValueOf(ta), ValueOf(tb), caseSensitive)
    ensures Stands(ta') && Relinked(ta, ta', caseSensitive) && Stands(tb') && Relinked(tb, tb', caseSensitive)
    ensures ItemsOf(ta'.kids) == SortItems(ItemsOf(ta.kids), caseSensitive)
    ensures ItemsOf(tb'.kids) == SortItems(ItemsOf(tb.kids), caseSensitive)
    decreases Nodes(ta), 1
  {
    hide Nodes, Below, NodesOf, Proper, Stands, Relinked, AllStand, Chained, ItemsOf, SameFrom, Compare, ValueOf;
    hide SortKids, SortItems;
    KidsAre(ta);
    KidsSorted(ta.kids, caseSensitive);
    KidsSorted(tb.kids, caseSensitive);
    ObjectsAreSame(ta, tb, caseSensitive);
    SortBothMembers(a, b, caseSensitive, ta, tb);
    same, ta', tb' :=
      WalkKids(a, b, true, caseSensitive, ta, tb, SortKids(ta.kids, caseSensitive), SortKids(tb.kids, caseSensitive));
  }

  // What a comparison may relink: the lists in a tree, but not the links of its root
  function Roots(t: Linked, present: bool): seq<Linked> {
    if present then [t] else []
  }

  // compare_json
  method CompareInPlace(a: Node?, b: Node?, caseSensitive: bool, ghost ta: Linked, ghost tb: Linked)
    returns (same: bool, ghost ta': Linked, ghost tb': Linked)
    requires a != null && b != null ==> ta.item == a && tb.item == b && Comparable(ta, tb)
    modifies NodesOf(Roots(ta, a != null && b != null))`child, NodesOf(Roots(ta, a != null && b != null))`children
    modifies BelowOf(Roots(ta, a != null && b != null))`next, BelowOf(Roots(ta, a != null && b != null))`prev
    modifies NodesOf(Roots(tb, a != null && b != null))`child, NodesOf(Roots(tb, a != null && b != null))`children
    modifies BelowOf(Roots(tb, a != null && b != null))`next, BelowOf(Roots(tb, a != null && b != null))`prev
    ensures same == (a != null && b != null && Compare(ValueOf(ta), ValueOf(tb), caseSensitive))
    ensures a != null && b != null ==>
      Relinked(ta, ta', caseSensitive) && Relinked(tb, tb', caseSensitive) && Comparable(ta', tb')
    ensures a != null && b != null && a.entry.1.Object? && b.entry.1.Object? ==>
      && ItemsOf(ta'.kids) == SortItems(ItemsOf(ta.kids), caseSensitive)
      && ItemsOf(tb'.kids) == SortItems(ItemsOf(tb.kids), caseSensitive)
  {
    hide Nodes, Below, NodesOf, BelowOf, Proper, Stands, Relinked, Compare, ValueOf, ItemsOf, SortItems;
    if a == null || b == null {
      return false, ta, tb;
    }
    PartWithin([ta], ta);
    PartWithin([tb], tb);
    same, ta', tb' := CompareBoth(a, b, caseSensitive, ta, tb);
    SameTree(ta, ta', caseSensitive);
    SameTree(tb, tb', caseSensitive);
  }
}
