// How examples/json/cJSON_Utils.c compares trees: it sorts the members of both objects and walks them side by side.
module JsonCompare {
  import opened Bytes
  import opened JsonTree
  import opened JsonPointer

  // A member of an object: its name and its value
  type Entry = (bytes, Json)

  // strcmp: the first difference, with the end of a string as NUL
  function StrCmp(a: bytes, b: bytes): int {
    if a == [] && b == [] then 0
    else if a == [] then -(b[0] as int)
    else if b == [] then a[0] as int
    else if a[0] != b[0] then a[0] as int - b[0] as int
    else StrCmp(a[1..], b[1..])
  }

  function Folded(s: bytes, caseSensitive: bool): bytes {
    if caseSensitive then s else seq(|s|, i requires 0 <= i < |s| => ToLower(s[i]))
  }

  // compare_strings
  function CompareStrings(a: bytes, b: bytes, caseSensitive: bool): int {
    StrCmp(Folded(a, caseSensitive), Folded(b, caseSensitive))
  }

  function Entries(ms: Members): (r: seq<Entry>)
    ensures forall e <- r :: Nesting(e.1) <= MembersNesting(ms)
  {
    match ms
    case NoMembers => []
    case Member(name, value, next) => [(name, value)] + Entries(next)
  }

  // ----- sort_list -----

  lemma TakesOne<T>(s: seq<T>)
    requires s != []
    ensures multiset(s) == multiset{s[0]} + multiset(s[1..])
  {
    assert s == [s[0]] + s[1..];
  }

  // The merging loop: of two equal names, the second list's comes first.
  function Merge(a: seq<Entry>, b: seq<Entry>, caseSensitive: bool): (r: seq<Entry>)
    ensures multiset(r) == multiset(a) + multiset(b)
  {
    if a == [] then b
    else if b == [] then a
    else if CompareStrings(a[0].0, b[0].0, caseSensitive) < 0 then
      TakesOne(a);
      [a[0]] + Merge(a[1..], b, caseSensitive)
    else
      TakesOne(b);
      [b[0]] + Merge(a, b[1..], caseSensitive)
  }

  // The test that leaves a list as it is
  predicate InOrder(s: seq<Entry>, caseSensitive: bool) {
    |s| <= 1 || (CompareStrings(s[0].0, s[1].0, caseSensitive) < 0 && InOrder(s[1..], caseSensitive))
  }

  function Sort(s: seq<Entry>, caseSensitive: bool): (r: seq<Entry>)
    ensures multiset(r) == multiset(s)
    decreases |s|
  {
    if |s| <= 1 || InOrder(s, caseSensitive) then s
    else
      var middle := (|s| + 1) / 2;
      assert s == s[..middle] + s[middle..];
      Merge(Sort(s[..middle], caseSensitive), Sort(s[middle..], caseSensitive), caseSensitive)
  }

  lemma SortUnfolds(s: seq<Entry>, caseSensitive: bool)
    ensures Sort(s, caseSensitive) ==
      if |s| <= 1 || InOrder(s, caseSensitive) then s
      else
        var middle := (|s| + 1) / 2;
        Merge(Sort(s[..middle], caseSensitive), Sort(s[middle..], caseSensitive), caseSensitive)
  {
    hide InOrder, Merge;
  }

  // ----- compare_json -----

  lemma SortedNesting(ms: Members, caseSensitive: bool)
    ensures forall e <- Sort(Entries(ms), caseSensitive) :: Nesting(e.1) <= MembersNesting(ms)
  {
    var s := Sort(Entries(ms), caseSensitive);
    forall e | e in s
      ensures Nesting(e.1) <= MembersNesting(ms)
    {
      assert e in multiset(s) && e in multiset(Entries(ms));
    }
  }

  function Compare(a: Json, b: Json, caseSensitive: bool): bool
    decreases Nesting(a), 1
  {
    match a
    case Number(value) => b.Number? && value == b.value
    case String(text) => b.String? && text == b.text
    case Array(items) => b.Array? && CompareItems(items, b.items, caseSensitive)
    case Object(members) =>
      b.Object? &&
      (SortedNesting(members, caseSensitive);
       CompareEntries(Sort(Entries(members), caseSensitive), Sort(Entries(b.members), caseSensitive),
                      caseSensitive, MembersNesting(members)))
    case _ => a == b
  }

  function CompareItems(a: Items, b: Items, caseSensitive: bool): bool
    decreases ItemsNesting(a), 2, a
  {
    if a.Item? && b.Item? then
      Compare(a.head, b.head, caseSensitive) && CompareItems(a.tail, b.tail, caseSensitive)
    else a.NoItems? && b.NoItems?
  }

  function CompareEntries(a: seq<Entry>, b: seq<Entry>, caseSensitive: bool, nesting: nat): bool
    requires forall e <- a :: Nesting(e.1) <= nesting
    decreases nesting, 2, |a|
  {
    if a != [] && b != [] then
      CompareStrings(a[0].0, b[0].0, caseSensitive) == 0
      && Compare(a[0].1, b[0].1, caseSensitive)
      && CompareEntries(a[1..], b[1..], caseSensitive, nesting)
    else a == [] && b == []
  }

  // ----- Equality up to the order of members -----

  function Lookup(ms: Members, name: bytes): (j: Json)
    requires HasName(ms, name)
    ensures Nesting(j) <= MembersNesting(ms)
  {
    if ms.name == name then ms.value else Lookup(ms.next, name)
  }

  ghost predicate Equivalent(a: Json, b: Json)
    decreases Nesting(a), 1
  {
    match a
    case Array(items) => b.Array? && EquivalentItems(items, b.items)
    case Object(members) => b.Object? && EquivalentMembers(members, b.members)
    case _ => a == b
  }

  ghost predicate EquivalentItems(a: Items, b: Items)
    decreases ItemsNesting(a), 2, a
  {
    if a.Item? && b.Item? then Equivalent(a.head, b.head) && EquivalentItems(a.tail, b.tail)
    else a.NoItems? && b.NoItems?
  }

  // The same names, with equivalent values
  ghost predicate EquivalentMembers(a: Members, b: Members)
    decreases MembersNesting(a), 2
  {
    && (forall name :: HasName(a, name) <==> HasName(b, name))
    && (forall name | HasName(a, name) && HasName(b, name) :: Equivalent(Lookup(a, name), Lookup(b, name)))
  }
}
