// When a sorted object's members are still a proper list (examples/json/cJSON_Utils.c).
module JsonSortTheorems {
  import opened JsonTree
  import opened JsonCompare
  import opened JsonCompareTheorems
  import opened JsonNames
  import opened JsonList
  import opened JsonSort

  predicate Before(x: Node, y: Node, caseSensitive: bool) {
    CompareStrings(x.entry.0, y.entry.0, caseSensitive) < 0
  }

  lemma BeforeMeans(x: Node, y: Node, caseSensitive: bool)
    requires NulFree(x.entry.0) && NulFree(y.entry.0)
    ensures Before(x, y, caseSensitive) <==> NameBefore(x.entry.0, y.entry.0, caseSensitive)
  {
    hide CompareStrings, NameBefore, NulFree;
    NegativeIsNameBefore(x.entry.0, y.entry.0, caseSensitive);
  }

  ghost predicate NulFreeNames(items: seq<Node>) {
    forall x <- items :: NulFree(x.entry.0)
  }

  // The last one of the items with the least name
  ghost predicate LastLeast(items: seq<Node>, i: nat, caseSensitive: bool) {
    && i < |items|
    && (forall j | 0 <= j < |items| :: !Before(items[j], items[i], caseSensitive))
    && (forall j | i < j < |items| :: Before(items[i], items[j], caseSensitive))
  }

  // The first one of the items with the greatest name
  ghost predicate FirstGreatest(items: seq<Node>, i: nat, caseSensitive: bool) {
    && i < |items|
    && (forall j | 0 <= j < |items| :: !Before(items[i], items[j], caseSensitive))
    && (forall j | 0 <= j < i :: Before(items[j], items[i], caseSensitive))
  }

  // ----- The order of names -----

  // Not before is the reverse of an order.
  lemma NotBefore(x: Node, y: Node, z: Node, caseSensitive: bool)
    requires NulFree(x.entry.0) && NulFree(y.entry.0) && NulFree(z.entry.0)
    ensures !Before(x, x, caseSensitive)
    ensures Before(x, y, caseSensitive) ==> !Before(y, x, caseSensitive)
    ensures !Before(x, y, caseSensitive) && !Before(y, z, caseSensitive) ==> !Before(x, z, caseSensitive)
  {
    hide CompareStrings, NulFree;
    CompareOpposite(x.entry.0, x.entry.0, caseSensitive);
    CompareOpposite(x.entry.0, y.entry.0, caseSensitive);
    CompareOpposite(y.entry.0, z.entry.0, caseSensitive);
    CompareOpposite(x.entry.0, z.entry.0, caseSensitive);
    if !Before(x, y, caseSensitive) && !Before(y, z, caseSensitive) {
      CompareTransitive(z.entry.0, y.entry.0, x.entry.0, caseSensitive);
    }
  }

  // Before, or in no order, and then before
  lemma BeforeAll(x: Node, y: Node, z: Node, caseSensitive: bool)
    requires NulFree(x.entry.0) && NulFree(y.entry.0) && NulFree(z.entry.0)
    ensures Before(x, y, caseSensitive) && !Before(z, y, caseSensitive) ==> Before(x, z, caseSensitive)
    ensures !Before(y, x, caseSensitive) && Before(y, z, caseSensitive) ==> Before(x, z, caseSensitive)
  {
    hide Before;
    NotBefore(x, z, y, caseSensitive);
    NotBefore(y, x, z, caseSensitive);
  }

  ghost predicate Ascending(items: seq<Node>, caseSensitive: bool) {
    forall i, j | 0 <= i <= j < |items| :: !Before(items[j], items[i], caseSensitive)
  }

  lemma SortedAscends(items: seq<Node>, caseSensitive: bool)
    requires NulFreeNames(items)
    ensures Ascending(SortItems(items, caseSensitive), caseSensitive)
  {
    hide SortItems, Sort, Values, Ordered, CompareStrings;
    ValuesSorted(items, caseSensitive);
    SortOrders(Values(items), caseSensitive);
    var r := SortItems(items, caseSensitive);
    forall i, j | 0 <= i <= j < |r|
      ensures !Before(r[j], r[i], caseSensitive)
    {
      OrderedAt(Values(r), i, j, caseSensitive);
    }
  }

  // ----- Where the first and the last item come from -----

  lemma AscendingParts(items: seq<Node>, caseSensitive: bool)
    requires items != [] && Ascending(items, caseSensitive)
    ensures !Before(items[|items| - 1], items[0], caseSensitive) && Ascending(items[1..], caseSensitive)
  {
    hide Before;
  }

  lemma {:induction false} MergeLast(a: seq<Node>, b: seq<Node>, caseSensitive: bool)
    requires a != [] && b != [] && NulFreeNames(a) && NulFreeNames(b) && Ascending(a, caseSensitive) && Ascending(b, caseSensitive)
    ensures var x, y, r := a[|a| - 1], b[|b| - 1], MergeItems(a, b, caseSensitive);
      r != [] && r[|r| - 1] == if Before(x, y, caseSensitive) then y else x
    decreases |a| + |b|
  {
    hide MergeItems, CompareStrings, NulFree, Ascending;
    ItemMerged(a, b, caseSensitive);
    var x, y := a[|a| - 1], b[|b| - 1];
    AscendingParts(a, caseSensitive);
    AscendingParts(b, caseSensitive);
    if Before(a[0], b[0], caseSensitive) {
      if |a| == 1 {
        MergedWithNone(a[1..], b, caseSensitive);
        BeforeAll(a[0], b[0], y, caseSensitive);
      } else {
        MergeLast(a[1..], b, caseSensitive);
      }
    } else if |b| == 1 {
      MergedWithNone(a, b[1..], caseSensitive);
      NotBefore(x, a[0], b[0], caseSensitive);
    } else {
      MergeLast(a, b[1..], caseSensitive);
    }
  }

  lemma FirstOfHalves(x: seq<Node>, y: seq<Node>, i: nat, j: nat, caseSensitive: bool)
    requires NulFreeNames(x) && NulFreeNames(y) && LastLeast(x, i, caseSensitive) && LastLeast(y, j, caseSensitive)
    ensures LastLeast(x + y, if Before(x[i], y[j], caseSensitive) then i else |x| + j, caseSensitive)
  {
    hide Before, NulFree;
    forall k | 0 <= k < |x|
      ensures !Before(x[i], y[j], caseSensitive) ==> !Before(x[k], y[j], caseSensitive)
    {
      NotBefore(x[k], x[i], y[j], caseSensitive);
    }
    forall k | 0 <= k < |y|
      ensures Before(x[i], y[j], caseSensitive) ==> Before(x[i], y[k], caseSensitive) && !Before(y[k], x[i], caseSensitive)
    {
      BeforeAll(x[i], y[j], y[k], caseSensitive);
      NotBefore(x[i], y[k], y[k], caseSensitive);
    }
  }

  lemma LastOfHalves(x: seq<Node>, y: seq<Node>, i: nat, j: nat, caseSensitive: bool)
    requires NulFreeNames(x) && NulFreeNames(y) && FirstGreatest(x, i, caseSensitive) && FirstGreatest(y, j, caseSensitive)
    ensures FirstGreatest(x + y, if Before(x[i], y[j], caseSensitive) then |x| + j else i, caseSensitive)
  {
    hide Before, NulFree;
    forall k | 0 <= k < |x|
      ensures Before(x[i], y[j], caseSensitive) ==> Before(x[k], y[j], caseSensitive) && !Before(y[j], x[k], caseSensitive)
    {
      BeforeAll(x[k], x[i], y[j], caseSensitive);
      NotBefore(x[k], y[j], y[j], caseSensitive);
    }
    forall k | 0 <= k < |y|
      ensures !Before(x[i], y[j], caseSensitive) ==> !Before(x[i], y[k], caseSensitive)
    {
      NotBefore(x[i], y[j], y[k], caseSensitive);
    }
  }

  lemma {:induction false} InOrderBefore(items: seq<Node>, i: nat, j: nat, caseSensitive: bool)
    requires NulFreeNames(items) && InOrder(Values(items), caseSensitive) && i < j < |items|
    ensures Before(items[i], items[j], caseSensitive) && !Before(items[j], items[i], caseSensitive)
    decreases |items|
  {
    hide CompareStrings, NulFree, Values;
    ValuesTail(items);
    if i > 0 {
      InOrderBefore(items[1..], i - 1, j - 1, caseSensitive);
    } else {
      if j > 1 {
        InOrderBefore(items[1..], 0, j - 1, caseSensitive);
        BeforeAll(items[0], items[1], items[j], caseSensitive);
      }
      NotBefore(items[0], items[j], items[j], caseSensitive);
    }
  }

  lemma InOrderEnds(items: seq<Node>, caseSensitive: bool)
    requires items != [] && NulFreeNames(items) && (|items| == 1 || InOrder(Values(items), caseSensitive))
    ensures LastLeast(items, 0, caseSensitive) && FirstGreatest(items, |items| - 1, caseSensitive)
  {
    hide Before, NulFree, InOrder, Values;
    NotBefore(items[0], items[0], items[0], caseSensitive);
    var last := |items| - 1;
    NotBefore(items[last], items[last], items[last], caseSensitive);
    forall i, j | 0 <= i < j < |items|
      ensures Before(items[i], items[j], caseSensitive) && !Before(items[j], items[i], caseSensitive)
    {
      InOrderBefore(items, i, j, caseSensitive);
    }
  }

  lemma MergeFirst(a: seq<Node>, b: seq<Node>, caseSensitive: bool)
    requires a != [] && b != []
    ensures var r := MergeItems(a, b, caseSensitive);
      r != [] && r[0] == if Before(a[0], b[0], caseSensitive) then a[0] else b[0]
  {
    hide CompareStrings, MergeItems;
    ItemMerged(a, b, caseSensitive);
  }

  lemma SortedNames(items: seq<Node>, caseSensitive: bool)
    requires NulFreeNames(items)
    ensures NulFreeNames(SortItems(items, caseSensitive))
  {
    hide SortItems, NulFree;
    var r := SortItems(items, caseSensitive);
    forall x | x in r
      ensures NulFree(x.entry.0)
    {
      assert x in multiset(r) && x in multiset(items);
    }
  }

  // The first and the last item of the two sorted halves, merged
  lemma MergedEnds(x: seq<Node>, y: seq<Node>, caseSensitive: bool)
    requires NulFreeNames(x) && NulFreeNames(y)
    requires var a, b := SortItems(x, caseSensitive), SortItems(y, caseSensitive); a != [] && b != []
    ensures var a, b := SortItems(x, caseSensitive), SortItems(y, caseSensitive);
      var r := MergeItems(a, b, caseSensitive);
      && r != [] && r[0] == (if Before(a[0], b[0], caseSensitive) then a[0] else b[0])
      && r[|r| - 1] == if Before(a[|a| - 1], b[|b| - 1], caseSensitive) then b[|b| - 1] else a[|a| - 1]
  {
    hide SortItems, MergeItems, NulFreeNames, Before, Ascending;
    SortedAscends(x, caseSensitive);
    SortedAscends(y, caseSensitive);
    SortedNames(x, caseSensitive);
    SortedNames(y, caseSensitive);
    MergeFirst(SortItems(x, caseSensitive), SortItems(y, caseSensitive), caseSensitive);
    MergeLast(SortItems(x, caseSensitive), SortItems(y, caseSensitive), caseSensitive);
  }

  // Among items of one name, sorting puts the last first and the first last.
  lemma {:induction false} SortEnds(items: seq<Node>, caseSensitive: bool) returns (i: nat, k: nat)
    requires items != [] && NulFreeNames(items)
    ensures i < |items| && LastLeast(items, i, caseSensitive)
    ensures k < |items| && FirstGreatest(items, k, caseSensitive)
    ensures var r := SortItems(items, caseSensitive); r != [] && r[0] == items[i] && r[|r| - 1] == items[k]
    decreases |items|
  {
    hide SortItems, MergeItems, InOrder, NulFree, Before, Values, LastLeast, FirstGreatest;
    if |items| <= 1 || InOrder(Values(items), caseSensitive) {
      SortedAlready(items, caseSensitive);
      i, k := 0, |items| - 1;
      InOrderEnds(items, caseSensitive);
    } else {
      var m := (|items| + 1) / 2;
      var x, y := items[..m], items[m..];
      SortStep(items, m, caseSensitive);
      var i1, k1 := SortEnds(x, caseSensitive);
      var i2, k2 := SortEnds(y, caseSensitive);
      MergedEnds(x, y, caseSensitive);
      assert items == x + y;
      FirstOfHalves(x, y, i1, i2, caseSensitive);
      LastOfHalves(x, y, k1, k2, caseSensitive);
      i := if Before(x[i1], y[i2], caseSensitive) then i1 else m + i2;
      k := if Before(x[k1], y[k2], caseSensitive) then m + k2 else k1;
    }
  }

  // ----- When the ends stay in place -----

  // The first name comes before all others, and the last one after all others.
  ghost predicate EndsInPlace(items: seq<Node>, caseSensitive: bool) {
    && (forall i | 0 < i < |items| :: Before(items[0], items[i], caseSensitive))
    && (forall i | 0 <= i < |items| - 1 :: Before(items[i], items[|items| - 1], caseSensitive))
  }

  // The condition under which SortObject leaves a proper list, in terms of the names before the call
  lemma SameEndsMeans(items: seq<Node>, caseSensitive: bool)
    requires Distinct(items) && NulFreeNames(items)
    ensures SameEnds(items, SortItems(items, caseSensitive)) <==> EndsInPlace(items, caseSensitive)
  {
    hide SortItems, NulFree, Before;
    if items == [] {
      SortedAlready(items, caseSensitive);
    } else {
      var i, k := SortEnds(items, caseSensitive);
      var last := |items| - 1;
      assert SameEnds(items, SortItems(items, caseSensitive)) <==> i == 0 && k == last;
      if i > 0 {
        NotBefore(items[0], items[i], items[i], caseSensitive);
      }
      if k < last {
        NotBefore(items[k], items[last], items[last], caseSensitive);
      }
    }
  }
}
