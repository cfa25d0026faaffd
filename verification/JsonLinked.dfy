// Trees of linked cJSON items, and what a comparison may do to them: put the members of objects in another order.
module JsonLinked {
  import opened JsonTree
  import opened JsonCompare
  import opened JsonList
  import opened JsonSort

  // ----- Linked trees -----

  // Which items make up a tree, in the order in which they are chained
  datatype Linked = Linked(item: Node, kids: seq<Linked>)

  function ItemsOf(ks: seq<Linked>): (r: seq<Node>)
    ensures |r| == |ks| && forall i | 0 <= i < |ks| :: r[i] == ks[i].item
  {
    seq(|ks|, i requires 0 <= i < |ks| => ks[i].item)
  }

  ghost function Below(t: Linked): set<Node>
    decreases t, 0
  {
    set k, x | k in t.kids && x in Nodes(k) :: x
  }

  ghost function Nodes(t: Linked): set<Node>
    decreases t, 1
  {
    {t.item} + Below(t)
  }

  ghost function NodesOf(ks: seq<Linked>): set<Node> {
    set k, x | k in ks && x in Nodes(k) :: x
  }

  ghost function BelowOf(ks: seq<Linked>): set<Node> {
    set k, x | k in ks && x in Below(k) :: x
  }

  // No item is in the tree twice.
  ghost predicate Proper(t: Linked)
    decreases t, 0
  {
    && t.item !in Below(t)
    && (forall k <- t.kids :: Proper(k))
    && (forall i, j | 0 <= i < j < |t.kids| :: Nodes(t.kids[i]) !! Nodes(t.kids[j]))
  }

  // What a tree stands for. Of an array or object the item itself holds just the type.
  function ValueOf(t: Linked): Json
    decreases t
  {
    match t.item.entry.1
    case Array(_) => Array(ItemsValue(t.kids))
    case Object(_) => Object(MembersValue(t.kids))
    case scalar => scalar
  }

  function ItemsValue(ks: seq<Linked>): Items
    decreases ks
  {
    if ks == [] then NoItems else Items.Item(ValueOf(ks[0]), ItemsValue(ks[1..]))
  }

  function MembersValue(ks: seq<Linked>): Members
    decreases ks
  {
    if ks == [] then NoMembers else Member(ks[0].item.entry.0, ValueOf(ks[0]), MembersValue(ks[1..]))
  }

  // The names and values of some trees
  function KidEntries(ks: seq<Linked>): (r: seq<Entry>)
    ensures |r| == |ks| && forall i | 0 <= i < |ks| :: r[i] == (ks[i].item.entry.0, ValueOf(ks[i]))
  {
    if ks == [] then [] else [(ks[0].item.entry.0, ValueOf(ks[0]))] + KidEntries(ks[1..])
  }

  lemma {:induction false} EntriesOfKids(ks: seq<Linked>)
    ensures Entries(MembersValue(ks)) == KidEntries(ks)
  {
    hide ValueOf;
    if ks != [] {
      EntriesOfKids(ks[1..]);
    }
  }

  lemma KidsWithin(t: Linked)
    ensures forall k <- t.kids :: Nodes(k) <= Below(t) && Below(k) <= Nodes(k) && k.item in Below(t)
    ensures forall x <- ItemsOf(t.kids) :: x in Below(t)
  {
  }

  // The items are chained as the tree has them. The first one's `prev` may be anything.
  ghost predicate Stands(t: Linked)
    reads Nodes(t)`child, Nodes(t)`children, Below(t)`next, Below(t)`prev
    decreases t
  {
    KidsWithin(t);
    && t.item.children == ItemsOf(t.kids) && IsChain(t.item.child, ItemsOf(t.kids))
    && forall k <- t.kids :: Stands(k)
  }

  // ----- Several trees side by side -----

  ghost predicate Separate(ks: seq<Linked>) {
    && (forall k <- ks :: Proper(k))
    && (forall i, j | 0 <= i < j < |ks| :: Nodes(ks[i]) !! Nodes(ks[j]))
  }

  lemma OthersApart(ks: seq<Linked>, k: Linked, other: Linked)
    requires Separate(ks) && k in ks && other in ks && other != k
    ensures Nodes(k) !! Nodes(other) && k.item != other.item
  {
    hide Nodes, Proper;
    var i :| 0 <= i < |ks| && ks[i] == k;
    var j :| 0 <= j < |ks| && ks[j] == other;
    ItemWithin(k);
    ItemWithin(other);
  }

  lemma ItemWithin(t: Linked)
    ensures t.item in Nodes(t) && Below(t) <= Nodes(t)
  {
  }

  lemma PartWithin(ks: seq<Linked>, k: Linked)
    requires k in ks
    ensures Nodes(k) <= NodesOf(ks) && Below(k) <= BelowOf(ks) <= NodesOf(ks)
  {
    forall x | x in BelowOf(ks)
      ensures x in NodesOf(ks)
    {
      var k' :| k' in ks && x in Below(k');
      assert x in Nodes(k');
    }
  }

  ghost predicate AllStand(ks: seq<Linked>)
    reads NodesOf(ks)`child, NodesOf(ks)`children, BelowOf(ks)`next, BelowOf(ks)`prev
  {
    forall k <- ks :: (PartWithin(ks, k); Stands(k))
  }

  // An item at the head of a tree is below none.
  lemma HeadNotBelow(ks: seq<Linked>, x: Node)
    requires Separate(ks) && x in ItemsOf(ks)
    ensures x !in BelowOf(ks) && x in NodesOf(ks)
  {
    hide Nodes, Below;
    var i :| 0 <= i < |ks| && ks[i].item == x;
    ItemWithin(ks[i]);
    PartWithin(ks, ks[i]);
    forall k | k in ks
      ensures x !in Below(k)
    {
      ItemWithin(k);
      if k != ks[i] {
        OthersApart(ks, k, ks[i]);
      } else {
        NotBelowItself(k);
      }
    }
  }

  lemma NotBelowItself(t: Linked)
    requires Proper(t)
    ensures t.item !in Below(t)
  {
  }

  lemma PartsWithin(ks: seq<Linked>)
    ensures BelowOf(ks) <= NodesOf(ks)
  {
    forall x | x in BelowOf(ks)
      ensures x in NodesOf(ks)
    {
      var k :| k in ks && x in Below(k);
      PartWithin(ks, k);
    }
  }

  // ----- Relinking -----

  // The same items, each list as it was or, below an object, sorted
  ghost predicate Relinked(t: Linked, t': Linked, caseSensitive: bool)
    decreases t'
  {
    && t'.item == t.item && KeptOrSorted(t, ItemsOf(t'.kids), caseSensitive)
    && forall k, k' | k in t.kids && k' in t'.kids && k.item == k'.item :: Relinked(k, k', caseSensitive)
  }

  predicate KeptOrSorted(t: Linked, items: seq<Node>, caseSensitive: bool) {
    || items == ItemsOf(t.kids)
    || (t.item.entry.1.Object? && items == SortItems(ItemsOf(t.kids), caseSensitive))
  }

  lemma KeptItems(t: Linked, items: seq<Node>, caseSensitive: bool)
    requires KeptOrSorted(t, items, caseSensitive)
    ensures multiset(items) == multiset(ItemsOf(t.kids)) && (!t.item.entry.1.Object? ==> items == ItemsOf(t.kids))
  {
    hide SortItems, ItemsOf;
  }

  ghost predicate RelinkedAll(ks: seq<Linked>, ks': seq<Linked>, caseSensitive: bool) {
    && |ks'| == |ks| && (forall i | 0 <= i < |ks| :: ks'[i].item == ks[i].item)
    && forall i | 0 <= i < |ks| :: Relinked(ks[i], ks'[i], caseSensitive)
  }

  lemma RelinkedItem(t: Linked, t': Linked, caseSensitive: bool)
    requires Relinked(t, t', caseSensitive)
    ensures t'.item == t.item
  {
  }

  lemma OneOfEach(ks: seq<Linked>, k: Linked, k': Linked)
    requires Separate(ks) && k in ks && k' in ks && k.item == k'.item
    ensures k == k'
  {
    if k != k' {
      OthersApart(ks, k, k');
    }
  }

  lemma {:induction false} RelinkedSelf(t: Linked, caseSensitive: bool)
    requires Proper(t)
    ensures Relinked(t, t, caseSensitive)
    decreases t
  {
    hide Nodes, Below;
    forall k, k' | k in t.kids && k' in t.kids && k.item == k'.item
      ensures Relinked(k, k', caseSensitive)
    {
      OneOfEach(t.kids, k, k');
      RelinkedSelf(k, caseSensitive);
    }
  }

  function Taken<T>(s: seq<T>, i: nat): (r: seq<T>)
    requires i < |s|
    ensures |r| == |s| - 1 && forall k | 0 <= k < |r| :: r[k] == s[if k < i then k else k + 1]
    ensures multiset(s) == multiset{s[i]} + multiset(r)
  {
    assert s == s[..i] + ([s[i]] + s[i + 1..]);
    s[..i] + s[i + 1..]
  }

  lemma ItemsTaken(ks: seq<Linked>, i: nat)
    requires i < |ks|
    ensures multiset(ItemsOf(ks)) == multiset{ks[i].item} + multiset(ItemsOf(Taken(ks, i)))
  {
    hide Taken, ItemsOf;
    assert ItemsOf(Taken(ks, i)) == Taken(ItemsOf(ks), i);
  }

  lemma MatchedRest(ks: seq<Linked>, ks': seq<Linked>, j: nat)
    requires multiset(ItemsOf(ks')) == multiset(ItemsOf(ks)) && ks' != [] && j < |ks| && ks[j].item == ks'[0].item
    ensures multiset(ItemsOf(ks'[1..])) == multiset(ItemsOf(Taken(ks, j)))
  {
    hide ItemsOf, Taken;
    ItemsTaken(ks', 0);
    ItemsTaken(ks, j);
    FirstTaken(ks');
    assert multiset(ItemsOf(ks'[1..])) == multiset(ItemsOf(ks')) - multiset{ks'[0].item};
  }

  lemma MatchFor(ks: seq<Linked>, ks': seq<Linked>) returns (j: nat)
    requires multiset(ItemsOf(ks')) == multiset(ItemsOf(ks)) && ks' != []
    ensures j < |ks| && ks[j].item == ks'[0].item
  {
    assert ItemsOf(ks')[0] in multiset(ItemsOf(ks'));
    assert ItemsOf(ks')[0] in ItemsOf(ks);
    j :| 0 <= j < |ks| && ItemsOf(ks)[j] == ItemsOf(ks')[0];
  }

  // The trees of the one list in the order of the other's items
  lemma {:induction false} Matched(ks: seq<Linked>, ks': seq<Linked>) returns (ms: seq<Linked>)
    requires multiset(ItemsOf(ks')) == multiset(ItemsOf(ks))
    ensures multiset(ms) == multiset(ks) && |ms| == |ks'| && forall i | 0 <= i < |ms| :: ms[i].item == ks'[i].item
    decreases |ks'|
  {
    hide ItemsOf, Taken;
    if ks' == [] {
      ms := [];
      NoneMatched(ks);
    } else {
      var j := MatchFor(ks, ks');
      MatchedRest(ks, ks', j);
      var rest := Matched(Taken(ks, j), ks'[1..]);
      ms := [ks[j]] + rest;
      assert multiset(ms) == multiset{ks[j]} + multiset(rest);
    }
  }

  lemma NoneMatched(ks: seq<Linked>)
    requires multiset(ItemsOf([])) == multiset(ItemsOf(ks))
    ensures ks == []
  {
    assert |multiset(ItemsOf(ks))| == |ItemsOf(ks)|;
  }

  lemma FirstTaken<T>(s: seq<T>)
    requires s != []
    ensures Taken(s, 0) == s[1..]
  {
  }

  lemma SameMembers<T>(a: seq<T>, b: seq<T>)
    requires multiset(a) == multiset(b)
    ensures |a| == |b| && (forall i | 0 <= i < |a| :: a[i] in b) && (forall i | 0 <= i < |b| :: b[i] in a)
  {
    assert |a| == |multiset(a)| == |multiset(b)| == |b|;
    forall i | 0 <= i < |a|
      ensures a[i] in b
    {
      assert a[i] in multiset(a);
      assert a[i] in multiset(b);
    }
    forall i | 0 <= i < |b|
      ensures b[i] in a
    {
      assert b[i] in multiset(b);
      assert b[i] in multiset(a);
    }
  }

  lemma {:induction false} TwiceOnce<T>(s: seq<T>, x: T)
    requires forall i, j | 0 <= i < j < |s| :: s[i] != s[j]
    ensures multiset(s)[x] <= 1
  {
    if s != [] {
      FirstTaken(s);
      assert multiset(s) == multiset{s[0]} + multiset(Taken(s, 0));
      TwiceOnce(s[1..], x);
      if x == s[0] {
        assert x !in s[1..];
      }
    }
  }

  lemma StillOnce<T>(s: seq<T>, s': seq<T>, i: nat, j: nat)
    requires (forall i, j | 0 <= i < j < |s| :: s[i] != s[j]) && multiset(s') == multiset(s) && i < j < |s'|
    ensures s'[i] != s'[j]
  {
    if s'[i] == s'[j] {
      assert s' == s'[..i] + [s'[i]] + s'[i + 1..j] + [s'[j]] + s'[j + 1..];
      TwiceOnce(s, s'[i]);
    }
  }

  lemma TreesOnce(ks: seq<Linked>, i: nat, j: nat)
    requires Separate(ks) && i < j < |ks|
    ensures ks[i] != ks[j]
  {
    hide Nodes;
    ItemWithin(ks[i]);
  }

  // In another order, trees are as separate as before.
  lemma StaySeparate(ks: seq<Linked>, ks': seq<Linked>)
    requires Separate(ks) && multiset(ks') == multiset(ks)
    ensures Separate(ks') && NodesOf(ks') == NodesOf(ks) && BelowOf(ks') == BelowOf(ks)
  {
    hide Nodes, Below, Proper;
    SameMembers(ks', ks);
    forall i, j | 0 <= i < j < |ks|
      ensures ks[i] != ks[j]
    {
      TreesOnce(ks, i, j);
    }
    forall i, j | 0 <= i < j < |ks'|
      ensures Nodes(ks'[i]) !! Nodes(ks'[j])
    {
      StillOnce(ks, ks', i, j);
      OthersApart(ks, ks'[i], ks'[j]);
    }
  }

  lemma KidsAre(t: Linked)
    ensures NodesOf(t.kids) == Below(t) <= Nodes(t) && BelowOf(t.kids) <= Below(t) && t.item in Nodes(t)
    ensures Proper(t) ==> Separate(t.kids) && t.item !in Below(t)
  {
    PartsWithin(t.kids);
  }

  lemma {:induction false} SameTree(t: Linked, t': Linked, caseSensitive: bool)
    requires Relinked(t, t', caseSensitive) && Proper(t)
    ensures Proper(t') && Nodes(t') == Nodes(t) && Below(t') == Below(t)
    decreases t'
  {
    hide Nodes, Below, NodesOf, BelowOf, Proper, ItemsOf, Separate, KeptOrSorted;
    KeptItems(t, ItemsOf(t'.kids), caseSensitive);
    var ms := Matched(t.kids, t'.kids);
    SameMembers(ms, t.kids);
    KidsAre(t);
    StaySeparate(t.kids, ms);
    forall i | 0 <= i < |ms|
      ensures Relinked(ms[i], t'.kids[i], caseSensitive) && Proper(ms[i])
      ensures Proper(t'.kids[i]) && Nodes(t'.kids[i]) == Nodes(ms[i]) && Below(t'.kids[i]) == Below(ms[i])
    {
      assert ms[i] in ms && t'.kids[i] in t'.kids;
      SeparateAt(ms, i);
      SameTree(ms[i], t'.kids[i], caseSensitive);
    }
    SameForest(ms, t'.kids);
    Assembled(t, t');
  }

  lemma SeparateAt(ks: seq<Linked>, i: nat)
    requires Separate(ks) && i < |ks|
    ensures Proper(ks[i])
  {
    hide Proper;
  }

  lemma SameForest(ms: seq<Linked>, ks: seq<Linked>)
    requires |ks| == |ms| && Separate(ms)
    requires forall i | 0 <= i < |ms| :: Proper(ks[i]) && Nodes(ks[i]) == Nodes(ms[i]) && Below(ks[i]) == Below(ms[i])
    ensures Separate(ks) && NodesOf(ks) == NodesOf(ms) && BelowOf(ks) == BelowOf(ms)
  {
    hide Nodes, Below, Proper;
    NodesAt(ks, ms);
    NodesAt(ms, ks);
  }

  lemma NodesAt(ks: seq<Linked>, ms: seq<Linked>)
    requires |ks| == |ms| && forall i | 0 <= i < |ms| :: Nodes(ks[i]) == Nodes(ms[i]) && Below(ks[i]) == Below(ms[i])
    ensures NodesOf(ks) <= NodesOf(ms) && BelowOf(ks) <= BelowOf(ms)
  {
    hide Nodes, Below;
    forall x | x in NodesOf(ks)
      ensures x in NodesOf(ms)
    {
      var k :| k in ks && x in Nodes(k);
      var i :| 0 <= i < |ks| && ks[i] == k;
      assert ms[i] in ms;
    }
    forall x | x in BelowOf(ks)
      ensures x in BelowOf(ms)
    {
      var k :| k in ks && x in Below(k);
      var i :| 0 <= i < |ks| && ks[i] == k;
      assert ms[i] in ms;
    }
  }

  // A tree from its parts
  lemma Assembled(t: Linked, t': Linked)
    requires t'.item == t.item && Proper(t) && Separate(t'.kids) && NodesOf(t'.kids) == Below(t)
    ensures Proper(t') && Nodes(t') == Nodes(t) && Below(t') == Below(t)
  {
    KidsAre(t');
  }

  lemma SameForests(ks: seq<Linked>, ks': seq<Linked>, caseSensitive: bool)
    requires RelinkedAll(ks, ks', caseSensitive) && Separate(ks)
    ensures Separate(ks') && NodesOf(ks') == NodesOf(ks) && BelowOf(ks') == BelowOf(ks) && ItemsOf(ks') == ItemsOf(ks)
  {
    hide Nodes, Below, NodesOf, BelowOf, Proper, Separate, Relinked;
    forall i | 0 <= i < |ks|
      ensures Proper(ks'[i]) && Nodes(ks'[i]) == Nodes(ks[i]) && Below(ks'[i]) == Below(ks[i])
    {
      SeparateAt(ks, i);
      SameTree(ks[i], ks'[i], caseSensitive);
    }
    SameForest(ks, ks');
  }

  // ----- Sorting trees -----

  function MergeKids(a: seq<Linked>, b: seq<Linked>, caseSensitive: bool): (r: seq<Linked>)
    ensures multiset(r) == multiset(a) + multiset(b)
  {
    if a == [] then b
    else if b == [] then a
    else if CompareStrings(a[0].item.entry.0, b[0].item.entry.0, caseSensitive) < 0 then
      TakesOne(a);
      [a[0]] + MergeKids(a[1..], b, caseSensitive)
    else
      TakesOne(b);
      [b[0]] + MergeKids(a, b[1..], caseSensitive)
  }

  // The trees in the order into which their items are relinked
  function SortKids(ks: seq<Linked>, caseSensitive: bool): (r: seq<Linked>)
    ensures multiset(r) == multiset(ks)
    decreases |ks|
  {
    if |ks| <= 1 || InOrder(KidEntries(ks), caseSensitive) then ks
    else
      var middle := (|ks| + 1) / 2;
      assert ks == ks[..middle] + ks[middle..];
      MergeKids(SortKids(ks[..middle], caseSensitive), SortKids(ks[middle..], caseSensitive), caseSensitive)
  }

  lemma {:induction false} KidsMerged(a: seq<Linked>, b: seq<Linked>, caseSensitive: bool)
    ensures ItemsOf(MergeKids(a, b, caseSensitive)) == MergeItems(ItemsOf(a), ItemsOf(b), caseSensitive)
    ensures KidEntries(MergeKids(a, b, caseSensitive)) == Merge(KidEntries(a), KidEntries(b), caseSensitive)
    decreases |a| + |b|
  {
    hide CompareStrings, KidEntries, ItemsOf, MergeItems, Merge, MergeKids, ValueOf;
    KidMerged(a, b, caseSensitive);
    if a != [] && b != [] {
      Tails(a);
      Tails(b);
      if CompareStrings(a[0].item.entry.0, b[0].item.entry.0, caseSensitive) < 0 {
        KidsMerged(a[1..], b, caseSensitive);
        InFront(a[0], MergeKids(a[1..], b, caseSensitive));
      } else {
        KidsMerged(a, b[1..], caseSensitive);
        InFront(b[0], MergeKids(a, b[1..], caseSensitive));
      }
    }
  }

  lemma KidMerged(a: seq<Linked>, b: seq<Linked>, caseSensitive: bool)
    ensures a == [] || b == [] ==>
      && ItemsOf(MergeKids(a, b, caseSensitive)) == MergeItems(ItemsOf(a), ItemsOf(b), caseSensitive)
      && KidEntries(MergeKids(a, b, caseSensitive)) == Merge(KidEntries(a), KidEntries(b), caseSensitive)
    ensures a != [] && b != [] ==>
      var x, y, p, q, e, f := ItemsOf(a), ItemsOf(b), KidEntries(a), KidEntries(b), a[0], b[0];
      if CompareStrings(e.item.entry.0, f.item.entry.0, caseSensitive) < 0 then
        && MergeKids(a, b, caseSensitive) == [e] + MergeKids(a[1..], b, caseSensitive)
        && MergeItems(x, y, caseSensitive) == [x[0]] + MergeItems(x[1..], y, caseSensitive)
        && Merge(p, q, caseSensitive) == [p[0]] + Merge(p[1..], q, caseSensitive)
      else
        && MergeKids(a, b, caseSensitive) == [f] + MergeKids(a, b[1..], caseSensitive)
        && MergeItems(x, y, caseSensitive) == [y[0]] + MergeItems(x, y[1..], caseSensitive)
        && Merge(p, q, caseSensitive) == [q[0]] + Merge(p, q[1..], caseSensitive)
  {
    hide CompareStrings, KidEntries, ItemsOf, ValueOf;
  }

  lemma Tails(a: seq<Linked>)
    requires a != []
    ensures ItemsOf(a)[0] == a[0].item && ItemsOf(a)[1..] == ItemsOf(a[1..])
    ensures KidEntries(a)[0] == (a[0].item.entry.0, ValueOf(a[0])) && KidEntries(a)[1..] == KidEntries(a[1..])
  {
    hide KidEntries, ItemsOf, ValueOf;
  }

  lemma InFront(k: Linked, rest: seq<Linked>)
    ensures ItemsOf([k] + rest) == [k.item] + ItemsOf(rest)
    ensures KidEntries([k] + rest) == [(k.item.entry.0, ValueOf(k))] + KidEntries(rest)
  {
    hide KidEntries, ItemsOf, ValueOf;
  }

  lemma {:induction false} SameOrder(ks: seq<Linked>, caseSensitive: bool)
    ensures InOrder(Values(ItemsOf(ks)), caseSensitive) == InOrder(KidEntries(ks), caseSensitive)
    decreases |ks|
  {
    hide CompareStrings, KidEntries, ItemsOf, ValueOf, Values;
    if |ks| > 1 {
      Tails(ks);
      ValuesTail(ItemsOf(ks));
      SameOrder(ks[1..], caseSensitive);
    }
  }

  lemma ItemHalves(ks: seq<Linked>, m: nat)
    requires m <= |ks|
    ensures ItemsOf(ks)[..m] == ItemsOf(ks[..m]) && ItemsOf(ks)[m..] == ItemsOf(ks[m..])
  {
    hide ItemsOf;
  }

  lemma {:induction false} EntryHalves(ks: seq<Linked>, m: nat)
    requires m <= |ks|
    ensures KidEntries(ks)[..m] == KidEntries(ks[..m]) && KidEntries(ks)[m..] == KidEntries(ks[m..])
  {
    hide ValueOf, KidEntries;
    var es, a, b := KidEntries(ks), KidEntries(ks[..m]), KidEntries(ks[m..]);
    assert |es[..m]| == |a| && forall i | 0 <= i < m :: es[..m][i] == a[i];
    assert |es[m..]| == |b| && forall i | 0 <= i < |ks| - m :: es[m..][i] == b[i];
  }

  lemma KidsStep(ks: seq<Linked>, caseSensitive: bool)
    ensures SortKids(ks, caseSensitive) ==
      if |ks| <= 1 || InOrder(KidEntries(ks), caseSensitive) then ks
      else
        var m := (|ks| + 1) / 2;
        MergeKids(SortKids(ks[..m], caseSensitive), SortKids(ks[m..], caseSensitive), caseSensitive)
  {
    hide InOrder, MergeKids, KidEntries;
  }

  lemma {:induction false} KidsSorted(ks: seq<Linked>, caseSensitive: bool)
    ensures ItemsOf(SortKids(ks, caseSensitive)) == SortItems(ItemsOf(ks), caseSensitive)
    ensures KidEntries(SortKids(ks, caseSensitive)) == Sort(KidEntries(ks), caseSensitive)
    decreases |ks|
  {
    hide KidEntries, ItemsOf, InOrder, Merge, Sort, MergeItems, SortItems, MergeKids, SortKids, Values;
    KidsStep(ks, caseSensitive);
    SameOrder(ks, caseSensitive);
    SortUnfolds(KidEntries(ks), caseSensitive);
    if |ks| <= 1 || InOrder(KidEntries(ks), caseSensitive) {
      SortedAlready(ItemsOf(ks), caseSensitive);
    } else {
      var m := (|ks| + 1) / 2;
      SortStep(ItemsOf(ks), m, caseSensitive);
      ItemHalves(ks, m);
      EntryHalves(ks, m);
      KidsSorted(ks[..m], caseSensitive);
      KidsSorted(ks[m..], caseSensitive);
      KidsMerged(SortKids(ks[..m], caseSensitive), SortKids(ks[m..], caseSensitive), caseSensitive);
    }
  }
}
