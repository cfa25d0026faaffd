// sort_list of examples/json/cJSON_Utils.c: a merge sort that relinks the items. It leaves the first item's
// `prev` as it comes.
module JsonSort {
  import opened JsonCompare
  import opened JsonList

  function Front(items: seq<Node>): seq<Node> {
    if items == [] then [] else items[..|items| - 1]
  }

  function Back(items: seq<Node>): seq<Node> {
    if items == [] then [] else items[1..]
  }

  // Neighbours are linked both ways.
  ghost predicate Inner(items: seq<Node>)
    reads Front(items)`next, Back(items)`prev
  {
    Nexts(Front(items)) == Back(items) && Prevs(Back(items)) == Front(items)
  }

  ghost predicate IsChain(head: Node?, items: seq<Node>)
    reads items`next, Back(items)`prev
  {
    if items == [] then head == null
    else head == items[0] && Inner(items) && items[|items| - 1].next == null
  }

  function Values(items: seq<Node>): (r: seq<Entry>)
    ensures |r| == |items| && forall i | 0 <= i < |items| :: r[i] == items[i].entry
  {
    if items == [] then [] else [items[0].entry] + Values(items[1..])
  }

  // Merging and sorting of the items themselves
  function MergeItems(a: seq<Node>, b: seq<Node>, caseSensitive: bool): (r: seq<Node>)
    ensures multiset(r) == multiset(a) + multiset(b)
  {
    if a == [] then b
    else if b == [] then a
    else if CompareStrings(a[0].entry.0, b[0].entry.0, caseSensitive) < 0 then
      TakesOne(a);
      [a[0]] + MergeItems(a[1..], b, caseSensitive)
    else
      TakesOne(b);
      [b[0]] + MergeItems(a, b[1..], caseSensitive)
  }

  function SortItems(items: seq<Node>, caseSensitive: bool): (r: seq<Node>)
    ensures multiset(r) == multiset(items)
    decreases |items|
  {
    if |items| <= 1 || InOrder(Values(items), caseSensitive) then items
    else
      var middle := (|items| + 1) / 2;
      assert items == items[..middle] + items[middle..];
      MergeItems(SortItems(items[..middle], caseSensitive), SortItems(items[middle..], caseSensitive), caseSensitive)
  }

  lemma {:induction false} ValuesMerged(a: seq<Node>, b: seq<Node>, caseSensitive: bool)
    ensures Values(MergeItems(a, b, caseSensitive)) == Merge(Values(a), Values(b), caseSensitive)
    decreases |a| + |b|
  {
    hide CompareStrings, Values, MergeItems;
    if a == [] || b == [] {
      MergedWithNone(a, b, caseSensitive);
    } else {
      ItemMerged(a, b, caseSensitive);
      ValuesTail(a);
      ValuesTail(b);
      if CompareStrings(a[0].entry.0, b[0].entry.0, caseSensitive) < 0 {
        ValuesMerged(a[1..], b, caseSensitive);
        ValuesCons(a[0], MergeItems(a[1..], b, caseSensitive));
      } else {
        ValuesMerged(a, b[1..], caseSensitive);
        ValuesCons(b[0], MergeItems(a, b[1..], caseSensitive));
      }
    }
  }

  lemma MergedWithNone(a: seq<Node>, b: seq<Node>, caseSensitive: bool)
    requires a == [] || b == []
    ensures MergeItems(a, b, caseSensitive) == a + b
  {
  }

  lemma ItemMerged(a: seq<Node>, b: seq<Node>, caseSensitive: bool)
    requires a != [] && b != []
    ensures MergeItems(a, b, caseSensitive) ==
      if CompareStrings(a[0].entry.0, b[0].entry.0, caseSensitive) < 0 then [a[0]] + MergeItems(a[1..], b, caseSensitive)
      else [b[0]] + MergeItems(a, b[1..], caseSensitive)
  {
    hide CompareStrings;
  }

  lemma ValuesTail(a: seq<Node>)
    requires a != []
    ensures Values(a)[0] == a[0].entry && Values(a)[1..] == Values(a[1..])
  {
  }

  lemma ValuesHalves(items: seq<Node>, m: nat)
    requires m <= |items|
    ensures Values(items)[..m] == Values(items[..m]) && Values(items)[m..] == Values(items[m..])
  {
    hide Values;
  }

  lemma ValuesCons(x: Node, rest: seq<Node>)
    ensures Values([x] + rest) == [x.entry] + Values(rest)
  {
    hide Values;
  }

  // What the items hold is then what comparison sorts.
  lemma {:induction false} ValuesSorted(items: seq<Node>, caseSensitive: bool)
    ensures Values(SortItems(items, caseSensitive)) == Sort(Values(items), caseSensitive)
    decreases |items|
  {
    hide Values, InOrder, Merge, Sort, MergeItems, SortItems;
    SortUnfolds(Values(items), caseSensitive);
    if |items| <= 1 || InOrder(Values(items), caseSensitive) {
      SortedAlready(items, caseSensitive);
    } else {
      var middle := (|items| + 1) / 2;
      var a, b := items[..middle], items[middle..];
      SortStep(items, middle, caseSensitive);
      ValuesSorted(a, caseSensitive);
      ValuesSorted(b, caseSensitive);
      ValuesMerged(SortItems(a, caseSensitive), SortItems(b, caseSensitive), caseSensitive);
      ValuesHalves(items, middle);
    }
  }

  lemma InnerAt(items: seq<Node>, i: nat)
    requires Inner(items) && i + 1 < |items|
    ensures items[i].next == items[i + 1] && items[i + 1].prev == items[i]
  {
    assert Nexts(Front(items))[i] == Front(items)[i].next;
    assert Prevs(Back(items))[i] == Back(items)[i].prev;
  }

  lemma InnerFrom(items: seq<Node>)
    requires forall i | 0 <= i < |items| - 1 :: items[i].next == items[i + 1] && items[i + 1].prev == items[i]
    ensures Inner(items)
  {
    hide Nexts, Prevs;
    forall i | 0 <= i < |items| - 1
      ensures Nexts(Front(items))[i] == Back(items)[i] && Prevs(Back(items))[i] == Front(items)[i]
    {
      assert items[i].next == items[i + 1];
    }
  }

  lemma InnerJoined(a: seq<Node>, b: seq<Node>)
    requires a != [] && b != [] && Inner(a) && Inner(b) && a[|a| - 1].next == b[0] && b[0].prev == a[|a| - 1]
    ensures Inner(a + b)
  {
    hide Inner;
    var items := a + b;
    forall i | 0 <= i < |items| - 1
      ensures items[i].next == items[i + 1] && items[i + 1].prev == items[i]
    {
      if i + 1 < |a| {
        InnerAt(a, i);
      } else if i >= |a| {
        InnerAt(b, i - |a|);
      }
    }
    InnerFrom(items);
  }

  lemma InnerParts(items: seq<Node>, m: nat)
    requires m <= |items| && Inner(items)
    ensures Inner(items[..m]) && Inner(items[m..])
  {
    hide Inner;
    forall i | 0 <= i < m - 1
      ensures items[..m][i].next == items[..m][i + 1] && items[..m][i + 1].prev == items[..m][i]
    {
      InnerAt(items, i);
    }
    InnerFrom(items[..m]);
    forall i | 0 <= i < |items| - m - 1
      ensures items[m..][i].next == items[m..][i + 1] && items[m..][i + 1].prev == items[m..][i]
    {
      InnerAt(items, m + i);
    }
    InnerFrom(items[m..]);
  }

  // ----- Merging -----

  // No item is in two of the lists, or twice in one.
  ghost predicate Apart(done: seq<Node>, a: seq<Node>, b: seq<Node>) {
    && Distinct(done) && Distinct(a) && Distinct(b)
    && (forall x <- done :: x !in a && x !in b)
    && (forall x <- a :: x !in b)
  }

  lemma DistinctConcat(a: seq<Node>, b: seq<Node>)
    requires Distinct(a) && Distinct(b) && forall x <- a :: x !in b
    ensures Distinct(a + b)
  {
    var s := a + b;
    forall i, j | 0 <= i < j < |s|
      ensures s[i] != s[j]
    {
      if i < |a| <= j {
        assert a[i] in a && b[j - |a|] in b;
      }
    }
  }

  lemma TakeFirst(done: seq<Node>, a: seq<Node>, b: seq<Node>)
    requires a != [] && Apart(done, a, b)
    ensures Apart(done + [a[0]], a[1..], b) && a[0] !in done && a[0] !in a[1..] && a[0] !in b
    ensures a[0] !in Back(a) && a[0] !in Back(a[1..]) && a[0] !in Back(b) && a[0] !in Back(done)
    ensures done != [] ==> var last := done[|done| - 1];
      last !in a && last !in a[1..] && last !in b && last !in Front(done) && last !in Front(a)
    ensures multiset(done + [a[0]] + a[1..] + b) == multiset(done + a + b)
  {
    DistinctConcat(done, [a[0]]);
    assert a == [a[0]] + a[1..];
    assert done + [a[0]] + a[1..] + b == done + a + b;
    PartsIn(done);
    PartsIn(a);
    PartsIn(a[1..]);
    PartsIn(b);
  }

  lemma PartsIn(items: seq<Node>)
    ensures (forall x <- Front(items) :: x in items) && (forall x <- Back(items) :: x in items)
  {
  }

  lemma Swapped(done: seq<Node>, a: seq<Node>, b: seq<Node>)
    requires Apart(done, a, b)
    ensures Apart(done, b, a) && multiset(done + a + b) == multiset(done + b + a)
  {
  }

  // The items merged so far
  ghost predicate IsRun(head: Node?, tail: Node?, items: seq<Node>)
    reads Front(items)`next, Back(items)`prev
  {
    if items == [] then head == null
    else head == items[0] && tail == items[|items| - 1] && Inner(items)
  }

  // One more item at the end of the run
  method AddSmaller(head: Node?, tail: Node?, smaller: Node, ghost done: seq<Node>) returns (result: Node?)
    requires IsRun(head, tail, done) && smaller !in done
    requires done != [] ==> done[|done| - 1] !in Front(done)
    modifies (if done == [] then {} else {done[|done| - 1]})`next, smaller`prev
    ensures IsRun(result, smaller, done + [smaller])
    ensures if head == null then result == smaller && smaller.prev == old(smaller.prev)
            else result == head && head.prev == old(head.prev)
  {
    if head == null {
      result := smaller;
      InnerFrom(done + [smaller]);
    } else {
      tail.next := smaller;
      smaller.prev := tail;
      result := head;
      InnerFrom([smaller]);
      InnerJoined(done, [smaller]);
    }
  }

  lemma ChainTail(head: Node?, items: seq<Node>)
    requires items != [] && IsChain(head, items)
    ensures head == items[0] && IsChain(items[0].next, items[1..])
  {
    hide Inner;
    InnerParts(items, 1);
    if |items| > 1 {
      InnerAt(items, 0);
    }
  }

  lemma MergeStep(done: seq<Node>, a: seq<Node>, b: seq<Node>, caseSensitive: bool)
    requires a != [] && b != []
    ensures
      if CompareStrings(a[0].entry.0, b[0].entry.0, caseSensitive) < 0 then
        done + MergeItems(a, b, caseSensitive) == done + [a[0]] + MergeItems(a[1..], b, caseSensitive)
      else
        done + MergeItems(a, b, caseSensitive) == done + [b[0]] + MergeItems(a, b[1..], caseSensitive)
  {
    hide CompareStrings, MergeItems;
    ItemMerged(a, b, caseSensitive);
  }

  // One round: the first item of `list` goes to the run.
  method Take(head: Node?, tail: Node?, list: Node, other: Node?, ghost done: seq<Node>, ghost a: seq<Node>, ghost b: seq<Node>)
    returns (result: Node?)
    requires a != [] && IsRun(head, tail, done) && IsChain(list, a) && IsChain(other, b) && Apart(done, a, b)
    modifies (if done == [] then {} else {done[|done| - 1]})`next, list`prev
    ensures IsRun(result, list, done + [list])
    ensures if head == null then result == list && list.prev == old(list.prev)
            else result == head && head.prev == old(head.prev)
    ensures IsChain(list.next, a[1..]) && IsChain(other, b)
    ensures Apart(done + [list], a[1..], b) && multiset(done + [list] + a[1..] + b) == multiset(done + a + b)
  {
    hide IsChain, IsRun, Apart;
    ChainTail(list, a);
    TakeFirst(done, a, b);
    ChainHead(other, b);
    result := AddSmaller(head, tail, list, done);
  }

  // The state of the merging loop
  ghost predicate Merging(head: Node?, tail: Node?, first: Node?, second: Node?, done: seq<Node>, f: seq<Node>, s: seq<Node>)
    reads f`next, Back(f)`prev, s`next, Back(s)`prev, Front(done)`next, Back(done)`prev
  {
    && IsChain(first, f) && IsChain(second, s) && IsRun(head, tail, done) && Apart(done, f, s)
    && (done == [] || f != [] || s != [])
    && first == (if f == [] then null else f[0]) && second == (if s == [] then null else s[0])
  }

  function PrevOf(item: Node?): Node?
    reads Self(item)
  {
    if item == null then null else item.prev
  }

  // One of the two lists' first items, with the prev that it had
  ghost predicate IsOldHead(x: Node?, list1: Node?, prev1: Node?, list2: Node?, prev2: Node?)
    reads Self(x)
  {
    (x == list1 && PrevOf(x) == prev1) || (x == list2 && PrevOf(x) == prev2)
  }

  // Until the first round the lists' first items are untouched; from then on one of them heads the run.
  ghost predicate HeadKept(done: seq<Node>, head: Node?, first: Node?, second: Node?,
                           list1: Node?, prev1: Node?, list2: Node?, prev2: Node?)
    reads Self(head), Self(list1), Self(list2)
  {
    if done == [] then first == list1 && second == list2 && PrevOf(list1) == prev1 && PrevOf(list2) == prev2
    else IsOldHead(head, list1, prev1, list2, prev2)
  }

  lemma HeadsOf(head: Node?, tail: Node?, first: Node?, second: Node?, done: seq<Node>, f: seq<Node>, s: seq<Node>)
    requires Merging(head, tail, first, second, done, f, s)
    ensures first == if f == [] then null else f[0]
    ensures second == if s == [] then null else s[0]
    ensures head == null <==> done == []
  {
    hide IsChain, Apart;
  }

  // One round of the merging loop
  method Round(head: Node?, tail: Node?, list1: Node, list2: Node, caseSensitive: bool,
               ghost done: seq<Node>, ghost f: seq<Node>, ghost s: seq<Node>)
    returns (result: Node?, first: Node?, second: Node?, smaller: Node, ghost f': seq<Node>, ghost s': seq<Node>)
    requires f != [] && s != [] && Merging(head, tail, list1, list2, done, f, s)
    modifies (if done == [] then {} else {done[|done| - 1]})`next, list1`prev, list2`prev
    ensures Merging(result, smaller, first, second, done + [smaller], f', s') && |f'| + |s'| < |f| + |s|
    ensures smaller == list1 || smaller == list2
    ensures if head == null then result == smaller && smaller.prev == old(smaller.prev)
            else result == head && head.prev == old(head.prev)
    ensures multiset(done + [smaller] + f' + s') == multiset(done + f + s)
    ensures done + [smaller] + MergeItems(f', s', caseSensitive) == done + MergeItems(f, s, caseSensitive)
  {
    hide MergeItems, CompareStrings, IsChain, IsRun, Apart;
    MergeStep(done, f, s, caseSensitive);
    first, second, f', s' := list1, list2, f, s;
    if CompareStrings(list1.entry.0, list2.entry.0, caseSensitive) < 0 {
      smaller := list1;
      result := Take(head, tail, list1, list2, done, f, s);
      f' := f[1..];
      first := list1.next;
      ChainHead(first, f');
    } else {
      smaller := list2;
      Swapped(done, f, s);
      result := Take(head, tail, list2, list1, done, s, f);
      s' := s[1..];
      second := list2.next;
      ChainHead(second, s');
      Swapped(done + [smaller], s', f);
    }
  }

  // The same, with what it does to the first item
  method RoundKept(head: Node?, tail: Node?, list1: Node, list2: Node, caseSensitive: bool,
                   ghost done: seq<Node>, ghost f: seq<Node>, ghost s: seq<Node>,
                   ghost head1: Node?, ghost prev1: Node?, ghost head2: Node?, ghost prev2: Node?)
    returns (result: Node?, first: Node?, second: Node?, smaller: Node, ghost f': seq<Node>, ghost s': seq<Node>)
    requires f != [] && s != [] && Merging(head, tail, list1, list2, done, f, s)
    requires HeadKept(done, head, list1, list2, head1, prev1, head2, prev2)
    modifies (if done == [] then {} else {done[|done| - 1]})`next, list1`prev, list2`prev
    ensures Merging(result, smaller, first, second, done + [smaller], f', s') && |f'| + |s'| < |f| + |s|
    ensures HeadKept(done + [smaller], result, first, second, head1, prev1, head2, prev2)
    ensures multiset(done + [smaller] + f' + s') == multiset(done + f + s)
    ensures done + [smaller] + MergeItems(f', s', caseSensitive) == done + MergeItems(f, s, caseSensitive)
  {
    hide Merging, MergeItems;
    HeadsOf(head, tail, list1, list2, done, f, s);
    result, first, second, smaller, f', s' := Round(head, tail, list1, list2, caseSensitive, done, f, s);
  }

  lemma NoneKept(list1: Node?, list2: Node?)
    ensures HeadKept([], null, list1, list2, list1, PrevOf(list1), list2, PrevOf(list2))
  {
  }

  // The merging loop of sort_list
  method MergeLoop(list1: Node?, list2: Node?, caseSensitive: bool, ghost a: seq<Node>, ghost b: seq<Node>, ghost region: set<Node>)
    returns (result: Node?, tail: Node?, first: Node?, second: Node?,
             ghost done: seq<Node>, ghost f: seq<Node>, ghost s: seq<Node>)
    requires Merging(null, null, list1, list2, [], a, b) && Within(a + b, region)
    modifies region`next, region`prev
    ensures Merging(result, tail, first, second, done, f, s) && (first == null || second == null)
    ensures HeadKept(done, result, first, second, list1, old(PrevOf(list1)), list2, old(PrevOf(list2)))
    ensures multiset(done + f + s) == multiset(a + b)
    ensures done + MergeItems(f, s, caseSensitive) == MergeItems(a, b, caseSensitive)
  {
    hide MergeItems, Merging, Within, IsChain, IsRun, Apart, Inner, Distinct, HeadKept;
    result, tail, first, second := null, null, list1, list2;
    done, f, s := [], a, b;
    ghost var prev1, prev2 := PrevOf(list1), PrevOf(list2);
    NothingMerged(a, b, caseSensitive);
    NoneKept(list1, list2);
    assert [] + a + b == a + b;
    while first != null && second != null
      invariant Merging(result, tail, first, second, done, f, s)
      invariant HeadKept(done, result, first, second, list1, prev1, list2, prev2)
      invariant multiset(done + f + s) == multiset(a + b)
      invariant done + MergeItems(f, s, caseSensitive) == MergeItems(a, b, caseSensitive)
      decreases |f| + |s|
    {
      HeadsOf(result, tail, first, second, done, f, s);
      MayRelink(done, f, s, a + b, region);
      var smaller: Node;
      ghost var f', s';
      result, first, second, smaller, f', s' :=
        RoundKept(result, tail, first, second, caseSensitive, done, f, s, list1, prev1, list2, prev2);
      tail := smaller;
      done, f, s := done + [smaller], f', s';
    }
  }

  // The merging half of sort_list
  method MergeLists(list1: Node?, list2: Node?, caseSensitive: bool, ghost a: seq<Node>, ghost b: seq<Node>, ghost region: set<Node>)
    returns (result: Node?, ghost merged: seq<Node>)
    requires IsChain(list1, a) && IsChain(list2, b) && Apart([], a, b) && Within(a + b, region)
    requires list1 != null && list2 != null
    modifies region`next, region`prev
    ensures IsChain(result, merged) && multiset(merged) == multiset(a + b) && Distinct(merged)
    ensures IsOldHead(result, list1, old(list1.prev), list2, old(list2.prev))
    ensures merged == MergeItems(a, b, caseSensitive)
  {
    hide MergeItems, IsChain, IsRun, Apart, Distinct, Within;
    NothingMerged(a, b, caseSensitive);
    ChainHead(list1, a);
    ChainHead(list2, b);
    var tail, first, second;
    ghost var done, f, s;
    result, tail, first, second, done, f, s := MergeLoop(list1, list2, caseSensitive, a, b, region);
    HeadsOf(result, tail, first, second, done, f, s);
    MayRelink(done, f, s, a + b, region);
    NothingToMerge(done, f, s, caseSensitive);
    if first != null {
      result := AppendRest(result, tail, first, done, f, s);
      merged := done + f;
    } else if second != null {
      Swapped(done, f, s);
      result := AppendRest(result, tail, second, done, s, f);
      merged := done + s;
    } else {
      EmptyRun(result, tail);
      merged := [];
    }
  }

  lemma EmptyRun(head: Node?, tail: Node?)
    requires IsRun(head, tail, [])
    ensures IsChain(head, [])
  {
  }

  // The rest of one list, when the other is used up
  method AppendRest(head: Node?, tail: Node?, rest: Node, ghost done: seq<Node>, ghost f: seq<Node>, ghost s: seq<Node>)
    returns (result: Node?)
    requires IsRun(head, tail, done) && f != [] && IsChain(rest, f) && Apart(done, f, s)
    modifies (if done == [] then {} else {done[|done| - 1]})`next, rest`prev
    ensures IsChain(result, done + f)
    ensures if head == null then result == rest && rest.prev == old(rest.prev)
            else result == head && head.prev == old(head.prev)
  {
    hide Inner, Distinct, Apart;
    if head == null {
      assert done + f == f;
      return rest;
    }
    TakeFirst(done, f, s);
    tail.next := rest;
    rest.prev := tail;
    result := head;
    RunAndRest(head, tail, rest, done, f);
  }

  lemma RunAndRest(head: Node, tail: Node, rest: Node, done: seq<Node>, f: seq<Node>)
    requires done != [] && f != [] && head == done[0] && tail == done[|done| - 1] && rest == f[0]
    requires Inner(done) && Inner(f) && tail.next == rest && rest.prev == tail && f[|f| - 1].next == null
    ensures IsChain(head, done + f)
  {
    hide Inner;
    InnerJoined(done, f);
  }

  lemma NothingToMerge(done: seq<Node>, f: seq<Node>, s: seq<Node>, caseSensitive: bool)
    requires Apart(done, f, s) && (f == [] || s == [])
    ensures done + MergeItems(f, s, caseSensitive) == done + (if f != [] then f else s)
    ensures done + f + s == done + (if f != [] then f else s) && Distinct(done + (if f != [] then f else s))
    ensures f == [] && s == [] ==> done + f + s == done
  {
    hide Distinct;
    var rest := if f != [] then f else s;
    DistinctConcat(done, rest);
  }

  ghost predicate Within(items: seq<Node>, region: set<Node>) {
    forall x <- items :: x in region
  }

  // The items that a round relinks are among those of the two lists.
  lemma MayRelink(done: seq<Node>, f: seq<Node>, s: seq<Node>, all: seq<Node>, region: set<Node>)
    requires multiset(done + f + s) == multiset(all) && Within(all, region)
    ensures f != [] ==> f[0] in region
    ensures s != [] ==> s[0] in region
    ensures done != [] ==> done[|done| - 1] in region
  {
    forall x | x in done + f + s
      ensures x in region
    {
      assert x in multiset(done + f + s);
      assert x in multiset(all);
    }
    if f != [] {
      assert f[0] in done + f + s;
    }
    if s != [] {
      assert s[0] in done + f + s;
    }
    if done != [] {
      assert done[|done| - 1] in done + f + s;
    }
  }

  lemma NothingMerged(a: seq<Node>, b: seq<Node>, caseSensitive: bool)
    ensures [] + MergeItems(a, b, caseSensitive) == MergeItems(a, b, caseSensitive)
    ensures IsRun(null, null, [])
  {
    hide MergeItems;
  }

  lemma ChainHead(head: Node?, items: seq<Node>)
    requires IsChain(head, items)
    ensures head == if items == [] then null else items[0]
  {
    hide Inner;
  }

  // ----- sort_list -----

  lemma NextAt(head: Node?, items: seq<Node>, i: nat)
    requires IsChain(head, items) && i < |items|
    ensures head == items[0] && items[i].next == if i + 1 < |items| then items[i + 1] else null
  {
    hide Inner;
    if i + 1 < |items| {
      InnerAt(items, i);
    }
  }

  // The test for a sorted list
  method TestInOrder(list: Node?, caseSensitive: bool, ghost items: seq<Node>) returns (sorted: bool)
    requires items != [] && IsChain(list, items)
    ensures sorted == InOrder(Values(items), caseSensitive) && IsChain(list, items)
  {
    hide IsChain, Values, CompareStrings;
    ghost var s := Values(items);
    NextAt(list, items, 0);
    var current := list;
    ghost var i := 0;
    assert s[0..] == s;
    while current != null && current.next != null
        && CompareStrings(current.entry.0, current.next.entry.0, caseSensitive) < 0
      invariant i < |items| && current == items[i] && IsChain(list, items)
      invariant InOrder(s[i..], caseSensitive) == InOrder(s, caseSensitive)
      decreases |items| - i
    {
      NextAt(list, items, i);
      assert s[i..][1..] == s[i + 1..];
      current := current.next;
      i := i + 1;
    }
    NextAt(list, items, i);
    sorted := current == null || current.next == null;
  }

  // Two pointers, one twice as fast, to find the middle
  method FindMiddle(list: Node?, ghost items: seq<Node>) returns (second: Node?)
    requires |items| > 1 && IsChain(list, items)
    ensures second == items[(|items| + 1) / 2] && IsChain(list, items)
  {
    NextAt(list, items, 0);
    second := list;
    var current := list;
    ghost var i := 0;
    while current != null
      invariant 2 * i <= |items| + 1 && i < |items| && second == items[i]
      invariant current == if 2 * i < |items| then items[2 * i] else null
      decreases |items| + 1 - 2 * i
    {
      NextAt(list, items, i);
      NextAt(list, items, 2 * i);
      second := second.next;
      current := current.next;
      if current != null {
        NextAt(list, items, 2 * i + 1);
        current := current.next;
      }
      i := i + 1;
    }
  }

  lemma DistinctAt(items: seq<Node>, m: nat)
    requires Distinct(items) && 0 < m < |items|
    ensures Distinct(items[..m]) && Distinct(items[m..]) && forall x <- items[..m] :: x !in items[m..]
    ensures items[m - 1] !in Front(items[..m]) && items[m] !in Back(items[m..])
    ensures items[m - 1] !in Front(items[m..]) && items[m] !in Back(items[..m]) && items[m - 1] != items[|items| - 1]
    ensures items[0] != items[m]
    ensures items == items[..m] + items[m..]
  {
    assert items[..m][m - 1] == items[m - 1] && items[m..][0] == items[m];
  }

  // The two halves
  method Split(list: Node?, second: Node?, ghost items: seq<Node>, ghost m: nat)
    requires 0 < m < |items| && IsChain(list, items) && Distinct(items) && second == items[m]
    modifies {items[m - 1]}`next, {items[m]}`prev
    ensures IsChain(list, items[..m]) && IsChain(second, items[m..])
    ensures PrevOf(list) == old(PrevOf(list)) && PrevOf(second) == null
  {
    hide Inner, Distinct;
    NextAt(list, items, 0);
    InnerAt(items, m - 1);
    InnerParts(items, m);
    DistinctAt(items, m);
    if second != null && second.prev != null {
      second.prev.next := null;
      second.prev := null;
    }
    assert items[..m][|items[..m]| - 1] == items[m - 1];
  }

  function SetOf(items: seq<Node>): (r: set<Node>)
    ensures (forall x <- r :: x in items) && (forall x <- items :: x in r)
  {
    set x | x in items
  }

  lemma SamePlaces(sorted: seq<Node>, items: seq<Node>)
    requires multiset(sorted) == multiset(items)
    ensures forall x :: x in sorted <==> x in items
  {
    forall x
      ensures x in sorted <==> x in items
    {
      assert x in multiset(sorted) <==> x in multiset(items);
    }
  }

  lemma HalvesApart(items: seq<Node>, m: nat, a: seq<Node>, b: seq<Node>)
    requires Distinct(items) && 0 < m < |items|
    requires multiset(a) == multiset(items[..m]) && multiset(b) == multiset(items[m..]) && Distinct(a) && Distinct(b)
    ensures Apart([], a, b) && Within(a + b, SetOf(items)) && multiset(a + b) == multiset(items)
  {
    hide SetOf;
    DistinctAt(items, m);
    SamePlaces(a, items[..m]);
    SamePlaces(b, items[m..]);
    assert multiset(a + b) == multiset(items[..m]) + multiset(items[m..]);
    assert multiset(items[..m] + items[m..]) == multiset(items[..m]) + multiset(items[m..]);
  }

  lemma SortStep(items: seq<Node>, m: nat, caseSensitive: bool)
    requires |items| > 1 && m == (|items| + 1) / 2 && !InOrder(Values(items), caseSensitive)
    ensures SortItems(items, caseSensitive)
         == MergeItems(SortItems(items[..m], caseSensitive), SortItems(items[m..], caseSensitive), caseSensitive)
  {
    hide Values, InOrder, MergeItems;
  }

  lemma SortedAlready(items: seq<Node>, caseSensitive: bool)
    requires |items| <= 1 || InOrder(Values(items), caseSensitive)
    ensures SortItems(items, caseSensitive) == items
  {
    hide Values, InOrder;
  }

  // sort_list
  method SortList(list: Node?, caseSensitive: bool, ghost items: seq<Node>) returns (result: Node?, ghost sorted: seq<Node>)
    requires IsChain(list, items) && Distinct(items)
    modifies SetOf(items)`next, SetOf(items)`prev
    ensures IsChain(result, sorted) && Distinct(sorted) && multiset(sorted) == multiset(items)
    ensures sorted == SortItems(items, caseSensitive)
    ensures PrevOf(result) == if result == list then old(PrevOf(list)) else null
    decreases |items|, 1
  {
    hide IsChain, Distinct, Values, InOrder, SortItems, MergeItems, Apart, Within, Front, Back;
    ChainHead(list, items);
    if list != null {
      NextAt(list, items, 0);
    }
    if list == null || list.next == null {
      SortedAlready(items, caseSensitive);
      return list, items;
    }
    var inOrder := TestInOrder(list, caseSensitive, items);
    if inOrder {
      SortedAlready(items, caseSensitive);
      return list, items;
    }
    result, sorted := SortHalves(list, caseSensitive, items);
  }

  method SortHalves(list: Node?, caseSensitive: bool, ghost items: seq<Node>) returns (result: Node?, ghost sorted: seq<Node>)
    requires IsChain(list, items) && Distinct(items) && |items| > 1 && !InOrder(Values(items), caseSensitive)
    modifies SetOf(items)`next, SetOf(items)`prev
    ensures IsChain(result, sorted) && Distinct(sorted) && multiset(sorted) == multiset(items)
    ensures sorted == SortItems(items, caseSensitive)
    ensures PrevOf(result) == if result == list then old(PrevOf(list)) else null
    decreases |items|, 0
  {
    hide IsChain, Distinct, Values, InOrder, SortItems, MergeItems, Apart, Within, SetOf, Inner, Front, Back;
    ghost var m := (|items| + 1) / 2;
    NextAt(list, items, 0);
    var second := FindMiddle(list, items);
    Split(list, second, items, m);
    DistinctAt(items, m);
    var first;
    ghost var a, b;
    first, second, a, b := SortBoth(list, second, caseSensitive, items[..m], items[m..], |items| - 1);
    HalvesApart(items, m, a, b);
    HeadsApart(list, first, second, items, m, a, b);
    SortStep(items, m, caseSensitive);
    result, sorted := MergeLists(first, second, caseSensitive, a, b, SetOf(items));
  }

  lemma HeadsApart(list: Node?, first: Node?, second: Node?, items: seq<Node>, m: nat, a: seq<Node>, b: seq<Node>)
    requires 0 < m < |items| && list == items[0] && Distinct(items) && IsChain(first, a) && IsChain(second, b)
    requires multiset(a) == multiset(items[..m]) && multiset(b) == multiset(items[m..])
    ensures first != null && second != null && second != list
  {
    hide IsChain, Distinct;
    DistinctAt(items, m);
    SamePlaces(a, items[..m]);
    SamePlaces(b, items[m..]);
    ChainHead(first, a);
    ChainHead(second, b);
    assert items[..m][0] in a && items[m..][0] in b;
    assert b[0] in items[m..] && items[..m][0] !in items[m..];
  }

  lemma HeadElsewhere(head: Node?, items: seq<Node>, other: seq<Node>)
    requires IsChain(head, items) && forall x <- items :: x !in other
    ensures head == null || head !in SetOf(other)
  {
    ChainHead(head, items);
  }

  // The recursive calls of sort_list
  method SortBoth(list1: Node?, list2: Node?, caseSensitive: bool, ghost x: seq<Node>, ghost y: seq<Node>, ghost n: nat)
    returns (first: Node?, second: Node?, ghost a: seq<Node>, ghost b: seq<Node>)
    requires IsChain(list1, x) && IsChain(list2, y) && Distinct(x) && Distinct(y) && forall i <- x :: i !in y
    requires |x| <= n && |y| <= n
    modifies SetOf(x)`next, SetOf(x)`prev, SetOf(y)`next, SetOf(y)`prev
    ensures IsChain(first, a) && Distinct(a) && multiset(a) == multiset(x) && a == SortItems(x, caseSensitive)
    ensures IsChain(second, b) && Distinct(b) && multiset(b) == multiset(y) && b == SortItems(y, caseSensitive)
    ensures PrevOf(first) == if first == list1 then old(PrevOf(list1)) else null
    ensures PrevOf(second) == if second == list2 then old(PrevOf(list2)) else null
    decreases n, 2
  {
    hide IsChain, Distinct, SortItems, SetOf;
    PartsIn(y);
    HeadElsewhere(list2, y, x);
    first, a := SortList(list1, caseSensitive, x);
    SamePlaces(a, x);
    PartsIn(a);
    HeadElsewhere(first, a, y);
    second, b := SortList(list2, caseSensitive, y);
  }

  // ----- sort_object -----

  lemma ChainOfList(head: Node?, items: seq<Node>)
    requires IsList(head, items)
    ensures IsChain(head, items) && Distinct(items)
    ensures items != [] ==> head == items[0] && head.prev == items[|items| - 1]
  {
    if items != [] {
      LinksOf(head, items, 0);
      LinksOf(head, items, |items| - 1);
      forall i | 0 <= i < |items| - 1
        ensures items[i].next == items[i + 1] && items[i + 1].prev == items[i]
      {
        LinksOf(head, items, i);
        LinksOf(head, items, i + 1);
      }
      InnerFrom(items);
    }
  }

  // A chain is a list again if and only if its first item points back at its last.
  lemma ListOfChain(head: Node?, items: seq<Node>)
    requires IsChain(head, items) && Distinct(items)
    ensures IsList(head, items) <==> items == [] || items[0].prev == items[|items| - 1]
  {
    hide Distinct, Inner;
    if items != [] {
      if IsList(head, items) {
        LinksOf(head, items, 0);
      }
      if items[0].prev == items[|items| - 1] {
        forall i | 0 <= i < |items|
          ensures Nexts(items)[i] == Followers(items)[i] && Prevs(items)[i] == Leaders(items)[i]
        {
          LinksAt(items, i);
          NextAt(head, items, i);
          if i > 0 {
            InnerAt(items, i - 1);
          }
        }
      }
    }
  }

  ghost predicate SameEnds(items: seq<Node>, sorted: seq<Node>) {
    if items == [] || sorted == [] then items == sorted
    else sorted[0] == items[0] && sorted[|sorted| - 1] == items[|items| - 1]
  }

  // Whether the sorted items are a proper list, in terms of the chain before: its first item stays first, and it
  // pointed at the one that is the last now.
  ghost predicate PointsAtLast(items: seq<Node>, prev: Node?, sorted: seq<Node>) {
    if items == [] || sorted == [] then items == sorted
    else sorted[0] == items[0] && prev == sorted[|sorted| - 1]
  }

  lemma StillAList(list: Node?, prev: Node?, head: Node?, items: seq<Node>, sorted: seq<Node>)
    requires IsChain(head, sorted) && Distinct(sorted) && multiset(sorted) == multiset(items)
    requires list == (if items == [] then null else items[0]) && PrevOf(head) == if head == list then prev else null
    ensures IsList(head, sorted) <==> PointsAtLast(items, prev, sorted)
  {
    hide Distinct, IsList, Inner;
    assert |items| == |multiset(items)| && |sorted| == |multiset(sorted)|;
    ListOfChain(head, sorted);
    ChainHead(head, sorted);
  }

  lemma ListPoints(parent: Node)
    requires parent.Valid()
    ensures IsChain(parent.child, parent.children) && Distinct(parent.children) && parent !in parent.children
    ensures parent.children != [] ==> PrevOf(parent.child) == parent.children[|parent.children| - 1]
  {
    ChainOfList(parent.child, parent.children);
  }

  // sort_object: the items stay chained in order, but the first one's `prev` is the one that it had.
  method SortObject(parent: Node?, caseSensitive: bool)
    requires parent != null ==> IsChain(parent.child, parent.children) && Distinct(parent.children)
    modifies Self(parent)`child, Self(parent)`children, SetOf(Kids(parent))`next, SetOf(Kids(parent))`prev
    ensures Kids(parent) == SortItems(old(Kids(parent)), caseSensitive)
    ensures parent != null ==> IsChain(parent.child, Kids(parent))
    ensures parent != null && parent !in old(Kids(parent)) ==>
      (parent.Valid() <==> PointsAtLast(old(Kids(parent)), old(PrevOf(parent.child)), Kids(parent)))
    ensures parent != null && old(parent.Valid()) ==> (parent.Valid() <==> SameEnds(old(Kids(parent)), Kids(parent)))
  {
    hide Distinct, SortItems, Inner, SetOf, IsChain, IsList;
    if parent == null {
      SortedAlready([], caseSensitive);
      return;
    }
    ghost var kids, list, prev := parent.children, parent.child, PrevOf(parent.child);
    ghost var proper := parent.Valid();
    if proper {
      ListPoints(parent);
    }
    ChainHead(list, kids);
    var head;
    ghost var sorted;
    head, sorted := SortList(parent.child, caseSensitive, kids);
    SamePlaces(sorted, kids);
    StillAList(list, prev, head, kids, sorted);
    parent.child, parent.children := head, sorted;
  }
}
