// The child lists of cJSON (examples/json/cJSON.c): doubly linked, with the first item's `prev` at the last.
module JsonList {
  import opened JsonCompare

  class Node {
    var next: Node?
    var prev: Node?
    var child: Node?

    // Its name, with what the item holds
    const entry: Entry

    // The children that the list stands for
    ghost var children: seq<Node>

    ghost predicate Valid()
      reads this`child, this`children, children`next, children`prev
    {
      this !in children && IsList(child, children)
    }
  }

  // ----- The links of some items, as sequences -----

  ghost function Nexts(items: seq<Node>): (r: seq<Node?>)
    reads items`next
    ensures |r| == |items| && forall i | 0 <= i < |items| :: r[i] == items[i].next
  {
    if items == [] then [] else Nexts(items[..|items| - 1]) + [items[|items| - 1].next]
  }

  ghost function Prevs(items: seq<Node>): (r: seq<Node?>)
    reads items`prev
    ensures |r| == |items| && forall i | 0 <= i < |items| :: r[i] == items[i].prev
  {
    if items == [] then [] else Prevs(items[..|items| - 1]) + [items[|items| - 1].prev]
  }

  ghost predicate Distinct(items: seq<Node>) {
    forall i, j | 0 <= i < j < |items| :: items[i] != items[j]
  }

  // The items are chained from `head` in this order, and the first one points back at the last.
  ghost predicate IsList(head: Node?, items: seq<Node>)
    reads items`next, items`prev
  {
    && Distinct(items)
    && if items == [] then head == null
       else head == items[0] && Nexts(items) == Followers(items) && Prevs(items) == Leaders(items)
  }

  function Followers(items: seq<Node>): (r: seq<Node?>)
    requires items != []
    ensures |r| == |items|
  {
    items[1..] + [null]
  }

  function Leaders(items: seq<Node>): (r: seq<Node?>)
    requires items != []
    ensures |r| == |items|
  {
    [items[|items| - 1]] + items[..|items| - 1]
  }

  lemma LinksAt(items: seq<Node>, i: nat)
    requires i < |items|
    ensures Followers(items)[i] == if i + 1 < |items| then items[i + 1] else null
    ensures Leaders(items)[i] == if i == 0 then items[|items| - 1] else items[i - 1]
  {
  }

  lemma LinksOf(head: Node?, items: seq<Node>, i: nat)
    requires IsList(head, items) && i < |items|
    ensures items[i].next == if i + 1 < |items| then items[i + 1] else null
    ensures items[i].prev == if i == 0 then items[|items| - 1] else items[i - 1]
    ensures head == items[0] && (items[i] == head <==> i == 0)
  {
    assert Nexts(items)[i] == items[i].next && Prevs(items)[i] == items[i].prev;
  }

  // ----- Assignments -----

  method SetNext(item: Node, value: Node?, ghost items: seq<Node>, ghost i: nat)
    requires i < |items| && items[i] == item && Distinct(items)
    modifies item`next
    ensures Nexts(items) == old(Nexts(items))[i := value] && item.next == value
  {
    item.next := value;
  }

  method SetPrev(item: Node, value: Node?, ghost items: seq<Node>, ghost i: nat)
    requires i < |items| && items[i] == item && Distinct(items)
    modifies item`prev
    ensures Prevs(items) == old(Prevs(items))[i := value] && item.prev == value
  {
    item.prev := value;
  }

  // ----- What the operations do to the sequence of children -----

  ghost function Kids(parent: Node?): seq<Node>
    reads if parent == null then {} else {parent}
  {
    if parent == null then [] else parent.children
  }

  function Self(item: Node?): set<Node> {
    if item == null then {} else {item}
  }

  function RemoveAt<T>(s: seq<T>, i: nat): (r: seq<T>)
    requires i < |s|
    ensures |r| == |s| - 1
  {
    s[..i] + s[i + 1..]
  }

  function InsertAt<T>(s: seq<T>, i: nat, x: T): (r: seq<T>)
    requires i <= |s|
    ensures |r| == |s| + 1
  {
    s[..i] + [x] + s[i..]
  }

  ghost function IndexOf(s: seq<Node>, x: Node): (i: nat)
    requires x in s
    ensures i < |s| && s[i] == x
  {
    var i :| 0 <= i < |s| && s[i] == x;
    i
  }

  lemma InsertedIndex<T>(s: seq<T>, i: nat, x: T, k: nat)
    requires i <= |s| && k <= |s|
    ensures InsertAt(s, i, x)[k] == if k < i then s[k] else if k == i then x else s[k - 1]
  {
  }

  lemma InsertedNexts(items: seq<Node>, i: nat, x: Node)
    requires i <= |items|
    ensures Nexts(InsertAt(items, i, x)) == InsertAt(Nexts(items), i, x.next)
  {
    hide Nexts, InsertAt;
    var items', r := InsertAt(items, i, x), InsertAt(Nexts(items), i, x.next);
    forall k | 0 <= k < |items'|
      ensures Nexts(items')[k] == r[k]
    {
      InsertedIndex(items, i, x, k);
      InsertedIndex(Nexts(items), i, x.next, k);
    }
  }

  lemma RemovedNexts(items: seq<Node>, i: nat)
    requires i < |items|
    ensures Nexts(RemoveAt(items, i)) == RemoveAt(Nexts(items), i)
  {
    hide Nexts;
    var items', r := RemoveAt(items, i), RemoveAt(Nexts(items), i);
    forall k | 0 <= k < |items'|
      ensures Nexts(items')[k] == r[k]
    {
      assert items'[k] == if k < i then items[k] else items[k + 1];
    }
  }

  lemma InsertedPrevs(items: seq<Node>, i: nat, x: Node)
    requires i <= |items|
    ensures Prevs(InsertAt(items, i, x)) == InsertAt(Prevs(items), i, x.prev)
  {
    hide Prevs, InsertAt;
    var items', r := InsertAt(items, i, x), InsertAt(Prevs(items), i, x.prev);
    forall k | 0 <= k < |items'|
      ensures Prevs(items')[k] == r[k]
    {
      InsertedIndex(items, i, x, k);
      InsertedIndex(Prevs(items), i, x.prev, k);
    }
  }

  lemma RemovedPrevs(items: seq<Node>, i: nat)
    requires i < |items|
    ensures Prevs(RemoveAt(items, i)) == RemoveAt(Prevs(items), i)
  {
    hide Prevs;
    var items', r := RemoveAt(items, i), RemoveAt(Prevs(items), i);
    forall k | 0 <= k < |items'|
      ensures Prevs(items')[k] == r[k]
    {
      assert items'[k] == if k < i then items[k] else items[k + 1];
    }
  }

  lemma InsertedDistinct(items: seq<Node>, i: nat, x: Node)
    requires i <= |items| && x !in items && Distinct(items)
    ensures Distinct(InsertAt(items, i, x))
  {
    var items' := InsertAt(items, i, x);
    assert forall k | 0 <= k < |items'| :: items'[k] == if k < i then items[k] else if k == i then x else items[k - 1];
  }

  lemma RemovedDistinct(items: seq<Node>, i: nat)
    requires i < |items| && Distinct(items)
    ensures Distinct(RemoveAt(items, i)) && items[i] !in RemoveAt(items, i) && forall x <- RemoveAt(items, i) :: x in items
  {
    var items' := RemoveAt(items, i);
    assert forall k | 0 <= k < |items'| :: items'[k] == if k < i then items[k] else items[k + 1];
  }

  lemma Inserted(items: seq<Node>, i: nat, x: Node)
    requires i <= |items| && x !in items && Distinct(items)
    ensures var items' := InsertAt(items, i, x);
      Distinct(items') && Nexts(items') == InsertAt(Nexts(items), i, x.next) && Prevs(items') == InsertAt(Prevs(items), i, x.prev)
  {
    hide Nexts, Prevs, Distinct, InsertAt;
    InsertedNexts(items, i, x);
    InsertedPrevs(items, i, x);
    InsertedDistinct(items, i, x);
  }

  lemma Removed(items: seq<Node>, i: nat)
    requires i < |items| && Distinct(items)
    ensures var items' := RemoveAt(items, i);
      && Distinct(items') && items[i] !in items' && (forall x <- items' :: x in items)
      && Nexts(items') == RemoveAt(Nexts(items), i) && Prevs(items') == RemoveAt(Prevs(items), i)
  {
    hide Nexts, Prevs, Distinct, RemoveAt;
    RemovedNexts(items, i);
    RemovedPrevs(items, i);
    RemovedDistinct(items, i);
  }

  lemma Replaced(items: seq<Node>, i: nat, x: Node)
    requires i < |items| && x !in items && Distinct(items)
    ensures var items' := items[i := x];
      Distinct(items') && Nexts(items') == Nexts(items)[i := x.next] && Prevs(items') == Prevs(items)[i := x.prev]
  {
  }

  // ----- Reading -----

  // cJSON_GetArraySize
  method GetArraySize(parent: Node?) returns (size: nat)
    requires parent != null ==> parent.Valid()
    ensures size == |Kids(parent)|
  {
    hide IsList;
    if parent == null {
      return 0;
    }
    var child := parent.child;
    size := 0;
    HeadOf(parent.child, parent.children);
    while child != null
      invariant size <= |parent.children|
      invariant child == if size < |parent.children| then parent.children[size] else null
      decreases |parent.children| - size
    {
      LinksOf(parent.child, parent.children, size);
      size := size + 1;
      child := child.next;
    }
  }

  lemma HeadOf(head: Node?, items: seq<Node>)
    requires IsList(head, items)
    ensures head == if items == [] then null else items[0]
    ensures Distinct(items)
  {
  }

  // get_array_item
  method GetItem(parent: Node?, index: nat) returns (item: Node?)
    requires parent != null ==> parent.Valid()
    ensures item == if index < |Kids(parent)| then Kids(parent)[index] else null
  {
    hide IsList;
    if parent == null {
      return null;
    }
    item := parent.child;
    var left: nat := index;
    ghost var at := 0;
    HeadOf(parent.child, parent.children);
    while item != null && left > 0
      invariant at + left == index && at <= |parent.children|
      invariant item == if at < |parent.children| then parent.children[at] else null
    {
      LinksOf(parent.child, parent.children, at);
      left := left - 1;
      item := item.next;
      at := at + 1;
    }
  }

  // ----- Appending -----

  lemma AppendedLinks(items: seq<Node>, x: Node)
    requires items != []
    ensures var n, items' := |items|, items + [x];
      && InsertAt(Followers(items)[n - 1 := x], n, null) == Followers(items')
      && InsertAt(Leaders(items)[0 := x], n, items[n - 1]) == Leaders(items')
      && InsertAt(items, n, x) == items'
  {
  }

  // add_item_to_array. It leaves item.next as it is unless the list is empty.
  method AddItemToArray(parent: Node?, item: Node?) returns (ok: bool)
    requires parent != null ==> parent.Valid()
    requires parent != null && item != null && parent != item ==> item !in parent.children && item.next == null
    modifies Self(parent)`child, Self(parent)`children, Kids(parent)`next, Kids(parent)`prev, Self(item)`next, Self(item)`prev
    ensures ok == (item != null && parent != null && parent != item)
    ensures parent != null ==> parent.Valid() && parent.children == old(parent.children) + if ok then [item] else []
  {
    hide Distinct, Nexts, Prevs, Followers, Leaders, RemoveAt, InsertAt;
    if item == null || parent == null || parent == item {
      return false;
    }
    ghost var items := parent.children;
    HeadOf(parent.child, items);
    var child := parent.child;
    if child == null {
      parent.child := item;
      item.prev := item;
      item.next := null;
      Single(item);
      assert items + [item] == [item];
    } else {
      LinksOf(child, items, 0);
      if child.prev != null {
        // suffix_object
        SetNext(child.prev, item, items, |items| - 1);
        item.prev := child.prev;
        SetPrev(parent.child, item, items, 0);
      }
      AppendedLinks(items, item);
      Inserted(items, |items|, item);
    }
    parent.children := items + [item];
    ok := true;
  }

  lemma Single(item: Node)
    requires item.next == null && item.prev == item
    ensures IsList(item, [item])
  {
  }

  // ----- Detaching -----

  lemma RemovedFollowers(items: seq<Node>, i: nat)
    requires i < |items| && |items| > 1
    ensures var f := Followers(items);
      RemoveAt(if i > 0 then f[i - 1 := f[i]] else f, i) == Followers(RemoveAt(items, i))
  {
    var f, items' := Followers(items), RemoveAt(items, i);
    var l, r := RemoveAt(if i > 0 then f[i - 1 := f[i]] else f, i), Followers(items');
    forall k | 0 <= k < |r|
      ensures l[k] == r[k]
    {
      assert r[k] == if k + 1 < |items'| then items'[k + 1] else null;
    }
  }

  lemma RemovedIndex<T>(s: seq<T>, i: nat, k: nat)
    requires i < |s| && k + 1 < |s|
    ensures RemoveAt(s, i)[k] == if k < i then s[k] else s[k + 1]
  {
  }

  lemma RemovedLeaders(items: seq<Node>, i: nat)
    requires i < |items| && |items| > 1
    ensures var l := Leaders(items);
      RemoveAt(l[(if i + 1 < |items| then i + 1 else 0) := l[i]], i) == Leaders(RemoveAt(items, i))
  {
    hide RemoveAt;
    var l, items' := Leaders(items), RemoveAt(items, i);
    var u := l[(if i + 1 < |items| then i + 1 else 0) := l[i]];
    var l', r := RemoveAt(u, i), Leaders(items');
    forall k | 0 <= k < |r|
      ensures l'[k] == r[k]
    {
      RemovedIndex(u, i, k);
      RemovedIndex(items, i, if k == 0 then |items'| - 1 else k - 1);
      LinksAt(items', k);
    }
  }

  lemma RemovedLinks(items: seq<Node>, i: nat)
    requires i < |items| && |items| > 1
    ensures var f, l, items' := Followers(items), Leaders(items), RemoveAt(items, i);
      && RemoveAt(if i > 0 then f[i - 1 := f[i]] else f, i) == Followers(items')
      && RemoveAt(l[(if i + 1 < |items| then i + 1 else 0) := l[i]], i) == Leaders(items')
      && items'[0] == (if i == 0 then items[1] else items[0])
      && f[i] == (if i + 1 < |items| then items[i + 1] else null)
      && l[i] == (if i > 0 then items[i - 1] else items[|items| - 1])
  {
    RemovedFollowers(items, i);
    RemovedLeaders(items, i);
  }

  // The neighbours of an item are linked past it.
  method LinkPast(parent: Node, item: Node, ghost items: seq<Node>, ghost i: nat)
    requires IsList(parent.child, items) && i < |items| && items[i] == item
    modifies parent`child, items`next, items`prev
    ensures Nexts(items) == if i > 0 then Followers(items)[i - 1 := Followers(items)[i]] else Followers(items)
    ensures |items| > 1 ==>
      Prevs(items) == Leaders(items)[(if i + 1 < |items| then i + 1 else 0) := Leaders(items)[i]]
    ensures parent.child == if i == 0 then Followers(items)[0] else items[0]
  {
    hide Distinct, Nexts, Prevs, Followers, Leaders;
    LinksAt(items, i);
    LinksAt(items, 0);
    LinksOf(parent.child, items, i);
    LinksOf(parent.child, items, 0);
    if item != parent.child {
      SetNext(item.prev, item.next, items, i - 1);
    }
    if item.next != null {
      SetPrev(item.next, item.prev, items, i + 1);
    }
    if item == parent.child {
      parent.child := item.next;
    } else if item.next == null {
      SetPrev(parent.child, item.prev, items, 0);
    }
  }

  // cJSON_DetachItemViaPointer
  method DetachItemViaPointer(parent: Node?, item: Node?) returns (r: Node?)
    requires parent != null ==> parent.Valid()
    requires parent != null && item != null ==> item in parent.children
    modifies Self(parent)`child, Self(parent)`children, Kids(parent)`next, Kids(parent)`prev
    ensures r == if parent == null then null else item
    ensures parent != null ==> parent.Valid()
    ensures parent != null && item == null ==> parent.children == old(parent.children)
    ensures parent != null && item != null ==>
      && parent.children == old(RemoveAt(parent.children, IndexOf(parent.children, item)))
      && item.next == null && item.prev == null
  {
    hide Distinct, Nexts, Prevs, Followers, Leaders, RemoveAt;
    if parent == null || item == null {
      return null;
    }
    ghost var items, i := parent.children, IndexOf(parent.children, item);
    HeadOf(parent.child, items);
    LinkPast(parent, item, items, i);
    Removed(items, i);
    item.prev := null;
    item.next := null;
    parent.children := RemoveAt(items, i);
    if |items| > 1 {
      RemovedLinks(items, i);
    } else {
      OnlyFollower(items);
    }
    r := item;
  }

  // cJSON_DetachItemFromArray
  method DetachItemFromArray(parent: Node?, which: int) returns (r: Node?)
    requires parent != null ==> parent.Valid()
    modifies Self(parent)`child, Self(parent)`children, Kids(parent)`next, Kids(parent)`prev
    ensures parent != null ==> parent.Valid()
    ensures if 0 <= which < |old(Kids(parent))|
      then r == old(Kids(parent))[which] && r.next == null && r.prev == null && Kids(parent) == old(RemoveAt(Kids(parent), which))
      else r == null && Kids(parent) == old(Kids(parent))
  {
    hide IsList, RemoveAt;
    if which < 0 {
      return null;
    }
    var item := GetItem(parent, which);
    if parent != null && item != null {
      HeadOf(parent.child, parent.children);
      OneIndex(parent.children, which);
    }
    r := DetachItemViaPointer(parent, item);
  }

  lemma OneIndex(items: seq<Node>, i: nat)
    requires Distinct(items) && i < |items|
    ensures IndexOf(items, items[i]) == i
  {
  }

  // ----- Inserting -----

  lemma InsertedLinks(items: seq<Node>, i: nat, x: Node)
    requires i < |items|
    ensures var f, l, items' := Followers(items), Leaders(items), InsertAt(items, i, x);
      && InsertAt(if i > 0 then f[i - 1 := x] else f, i, items[i]) == Followers(items')
      && InsertAt(l[i := x], i, l[i]) == Leaders(items')
      && items'[0] == (if i == 0 then x else items[0])
      && l[i] == (if i > 0 then items[i - 1] else items[|items| - 1])
      && forall y <- items' :: y == x || y in items
  {
    InsertedFollowers(items, i, x);
    InsertedLeaders(items, i, x);
  }

  lemma InsertedFollowers(items: seq<Node>, i: nat, x: Node)
    requires i < |items|
    ensures var f := Followers(items);
      InsertAt(if i > 0 then f[i - 1 := x] else f, i, items[i]) == Followers(InsertAt(items, i, x))
  {
    hide InsertAt;
    var f, items' := Followers(items), InsertAt(items, i, x);
    var f' := if i > 0 then f[i - 1 := x] else f;
    var l, r := InsertAt(f', i, items[i]), Followers(items');
    forall k | 0 <= k < |r|
      ensures l[k] == r[k]
    {
      InsertedIndex(f', i, items[i], k);
      if k < |items| {
        InsertedIndex(items, i, x, k + 1);
      }
    }
  }

  lemma InsertedLeaders(items: seq<Node>, i: nat, x: Node)
    requires i < |items|
    ensures var l := Leaders(items);
      InsertAt(l[i := x], i, l[i]) == Leaders(InsertAt(items, i, x))
  {
    hide InsertAt;
    var l, items' := Leaders(items), InsertAt(items, i, x);
    var l', r := InsertAt(l[i := x], i, l[i]), Leaders(items');
    forall k | 0 <= k < |r|
      ensures l'[k] == r[k]
    {
      InsertedIndex(l[i := x], i, l[i], k);
      InsertedIndex(items, i, x, if k == 0 then |items| else k - 1);
    }
  }

  // cJSON_InsertItemInArray: past the end it appends.
  method InsertItemInArray(parent: Node?, which: int, newItem: Node?) returns (ok: bool)
    requires parent != null ==> parent.Valid()
    requires parent != null && newItem != null && newItem != parent ==> newItem !in parent.children
    requires 0 <= which < |Kids(parent)| ==> newItem != parent
    requires which >= |Kids(parent)| && newItem != null ==> newItem.next == null
    modifies Self(parent)`child, Self(parent)`children, Kids(parent)`next, Kids(parent)`prev, Self(newItem)`next, Self(newItem)`prev
    ensures ok == (which >= 0 && newItem != null && parent != null && parent != newItem)
    ensures parent != null ==> parent.Valid()
    ensures parent != null ==> parent.children == old(
      if !ok then parent.children
      else InsertAt<Node>(parent.children, if which < |parent.children| then which else |parent.children|, newItem))
  {
    hide Distinct, Nexts, Prevs, Followers, Leaders, InsertAt, IsList;
    if which < 0 || newItem == null {
      return false;
    }
    var after := GetItem(parent, which);
    if after == null {
      ok := AddItemToArray(parent, newItem);
      if ok {
        InsertedLast(old(parent.children), newItem);
      }
      return;
    }
    ghost var items := parent.children;
    LinksOf(parent.child, items, which);
    if after != parent.child && after.prev == null {
      return false;
    }
    LinkBefore(parent, after, newItem, items, which);
    Inserted(items, which, newItem);
    InsertedLinks(items, which, newItem);
    parent.children := InsertAt<Node>(items, which, newItem);
    MakeList(parent.child, parent.children);
    ok := true;
  }

  lemma InsertedLast(items: seq<Node>, x: Node)
    ensures InsertAt(items, |items|, x) == items + [x]
  {
  }

  lemma MakeList(head: Node?, items: seq<Node>)
    requires Distinct(items) && items != [] && head == items[0]
    requires Nexts(items) == Followers(items) && Prevs(items) == Leaders(items)
    ensures IsList(head, items)
  {
    hide Distinct, Nexts, Prevs, Followers, Leaders;
  }

  method LinkBefore(parent: Node, after: Node, newItem: Node, ghost items: seq<Node>, ghost i: nat)
    requires IsList(parent.child, items) && i < |items| && items[i] == after && newItem !in items
    modifies parent`child, items`next, items`prev, newItem`next, newItem`prev
    ensures Nexts(items) == if i > 0 then Followers(items)[i - 1 := newItem] else Followers(items)
    ensures Prevs(items) == Leaders(items)[i := newItem] && Distinct(items)
    ensures newItem.next == after && newItem.prev == Leaders(items)[i]
    ensures parent.child == if i == 0 then newItem else items[0]
  {
    hide Distinct, Nexts, Prevs, Followers, Leaders;
    LinksAt(items, i);
    LinksOf(parent.child, items, i);
    newItem.next := after;
    newItem.prev := after.prev;
    SetPrev(after, newItem, items, i);
    if after == parent.child {
      parent.child := newItem;
    } else {
      SetNext(newItem.prev, newItem, items, i - 1);
    }
  }

  // ----- Replacing -----

  lemma ReplacedLinks(items: seq<Node>, i: nat, x: Node)
    requires i < |items|
    ensures var f, l, items' := Followers(items), Leaders(items), items[i := x];
      && (if i > 0 then f[i - 1 := x] else f)[i := f[i]] == Followers(items')
      && (if |items| > 1 then l[(if i + 1 < |items| then i + 1 else 0) := x][i := l[i]] else [x]) == Leaders(items')
  {
  }

  // cJSON_ReplaceItemViaPointer, but for the deletion of the item
  method ReplaceItemViaPointer(parent: Node?, item: Node?, replacement: Node?) returns (ok: bool)
    requires parent != null ==> parent.Valid()
    requires parent != null && item != null && parent.child != null ==> item in parent.children
    requires parent != null && item != null && parent.child != null && replacement != null && replacement != item ==>
      replacement !in parent.children && replacement != parent
    modifies Self(parent)`child, Self(parent)`children, Kids(parent)`next, Kids(parent)`prev,
             Self(replacement)`next, Self(replacement)`prev, Self(item)`next, Self(item)`prev
    ensures ok == (parent != null && old(parent.child) != null && replacement != null && item != null)
    ensures parent != null ==> parent.Valid()
    ensures parent != null && !ok ==> parent.children == old(parent.children)
    ensures ok ==> item in old(parent.children) && (replacement != item ==> item.next == null && item.prev == null)
    ensures ok ==> parent.children == old(parent.children)[old(IndexOf(parent.children, item)) := replacement]
  {
    hide Distinct, Nexts, Prevs, Followers, Leaders, IsList;
    if parent == null || parent.child == null || replacement == null || item == null {
      return false;
    }
    ghost var items, i := parent.children, IndexOf(parent.children, item);
    if replacement == item {
      return true;
    }
    HeadOf(parent.child, items);
    LinkInstead(parent, item, replacement, items, i);
    Replaced(items, i, replacement);
    ReplacedLinks(items, i, replacement);
    NotInReplaced(items, i, replacement);
    item.next := null;
    item.prev := null;
    parent.children := items[i := replacement];
    MakeList(parent.child, parent.children);
    ok := true;
  }

  // cJSON_ReplaceItemInArray
  method ReplaceItemInArray(parent: Node?, which: int, newItem: Node?) returns (ok: bool)
    requires parent != null ==> parent.Valid()
    requires 0 <= which < |Kids(parent)| && newItem != null && newItem != Kids(parent)[which] ==>
      newItem !in parent.children && newItem != parent
    modifies Self(parent)`child, Self(parent)`children, Kids(parent)`next, Kids(parent)`prev, Self(newItem)`next, Self(newItem)`prev
    ensures ok == (newItem != null && 0 <= which < |old(Kids(parent))|)
    ensures parent != null ==> parent.Valid()
    ensures parent != null ==> parent.children == old(if !ok then parent.children else parent.children[which := newItem])
  {
    hide IsList;
    if which < 0 {
      return false;
    }
    var item := GetItem(parent, which);
    if parent != null {
      HeadOf(parent.child, parent.children);
      if item != null {
        OneIndex(parent.children, which);
      }
    }
    ok := ReplaceItemViaPointer(parent, item, newItem);
  }

  lemma NotInReplaced(items: seq<Node>, i: nat, x: Node)
    requires i < |items| && Distinct(items) && x != items[i]
    ensures items[i] !in items[i := x] && forall y <- items[i := x] :: y == x || y in items
  {
  }

  method LinkInstead(parent: Node, item: Node, replacement: Node, ghost items: seq<Node>, ghost i: nat)
    requires IsList(parent.child, items) && i < |items| && items[i] == item && replacement !in items
    modifies parent`child, items`next, items`prev, replacement`next, replacement`prev
    ensures Nexts(items) == if i > 0 then Followers(items)[i - 1 := replacement] else Followers(items)
    ensures |items| > 1 ==> Prevs(items) == Leaders(items)[(if i + 1 < |items| then i + 1 else 0) := replacement]
    ensures replacement.next == Followers(items)[i]
    ensures replacement.prev == if |items| > 1 then Leaders(items)[i] else replacement
    ensures parent.child == if i == 0 then replacement else items[0]
  {
    hide Distinct, Nexts, Prevs, Followers, Leaders;
    LinksAt(items, i);
    HeadOf(parent.child, items);
    LinksOf(parent.child, items, i);
    LinksOf(parent.child, items, 0);
    replacement.next := item.next;
    replacement.prev := item.prev;
    if replacement.next != null {
      SetPrev(replacement.next, replacement, items, i + 1);
    }
    if parent.child == item {
      if parent.child.prev == parent.child {
        replacement.prev := replacement;
      }
      parent.child := replacement;
    } else {
      if replacement.prev != null {
        SetNext(replacement.prev, replacement, items, i - 1);
      }
      if replacement.next == null {
        SetPrev(parent.child, replacement, items, 0);
      }
    }
  }

  lemma OnlyFollower(items: seq<Node>)
    requires |items| == 1
    ensures Followers(items) == [null]
  {
  }
}
