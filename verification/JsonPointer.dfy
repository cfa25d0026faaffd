// JSON Pointers (RFC 6901) as examples/json/cJSON_Utils.c builds and follows them. A node of a tree is
// named by its path, the indices of the children that lead to it: different nodes have different paths.
module JsonPointer {
  import opened Bytes
  import opened JsonTree
  import opened JsonText

  type Path = seq<nat>

  const SIZE_MAX: int := 0xFFFF_FFFF_FFFF_FFFF

  // A C string, read at or past its end
  function CharAt(c: bytes, i: nat): byte {
    if i < |c| then c[i] else '\0'
  }

  predicate EndsToken(c: bytes, i: nat) {
    CharAt(c, i) == '\0' || CharAt(c, i) == '/'
  }

  // tolower, in the C locale
  function ToLower(b: byte): byte {
    if 'A' <= b <= 'Z' then (b as int + 32) as char else b
  }

  predicate SameByte(a: byte, b: byte, caseSensitive: bool) {
    if caseSensitive then a == b else ToLower(a) == ToLower(b)
  }

  // compare_pointers, from the n-th byte of the name and the p-th of the pointer on
  predicate Matches(name: bytes, n: nat, c: bytes, p: nat, caseSensitive: bool)
    decreases |name| - n
  {
    if n < |name| && !EndsToken(c, p) then
      if CharAt(c, p) == '~' then
        if (CharAt(c, p + 1) != '0' || name[n] != '~') && (CharAt(c, p + 1) != '1' || name[n] != '/') then false
        else Matches(name, n + 1, c, p + 2, caseSensitive)
      else SameByte(name[n], CharAt(c, p), caseSensitive) && Matches(name, n + 1, c, p + 1, caseSensitive)
    else !EndsToken(c, p) == (n < |name|)
  }

  // encode_string_as_pointer
  function EncodeByte(b: byte): bytes {
    if b == '/' then ['~', '1'] else if b == '~' then ['~', '0'] else [b]
  }

  function Encode(s: bytes): bytes {
    if s == [] then [] else EncodeByte(s[0]) + Encode(s[1..])
  }

  // The loop of decode_array_index_from_pointer. It looks at the first byte of the token to see whether a later
  // byte is past '9'.
  function DecodeLoop(c: bytes, first: nat, i: nat, index: nat): (nat, nat)
    decreases |c| - i
  {
    if i < |c| && c[i] >= '0' && CharAt(c, first) <= '9' then
      DecodeLoop(c, first, i + 1, (10 * index + (c[i] as int - '0' as int)) % (SIZE_MAX + 1))
    else (index, i)
  }

  function DecodeIndex(c: bytes, p: nat): Option<nat> {
    if CharAt(c, p) == '0' && !EndsToken(c, p + 1) then None
    else
      var (index, end) := DecodeLoop(c, p, p, 0);
      if EndsToken(c, end) then Some(index) else None
  }

  // The end of the reference token at p
  function TokenEnd(c: bytes, p: nat): (e: nat)
    ensures e >= p
    decreases |c| - p
  {
    if p < |c| && !EndsToken(c, p) then TokenEnd(c, p + 1) else p
  }

  // get_array_item
  function ItemAt(items: Items, k: nat): Option<Json> {
    match items
    case NoItems => None
    case Item(head, tail) => if k == 0 then Some(head) else ItemAt(tail, k - 1)
  }

  function ItemCount(items: Items): nat {
    match items
    case NoItems => 0
    case Item(_, tail) => 1 + ItemCount(tail)
  }

  function MemberAt(ms: Members, k: nat): Option<(bytes, Json)> {
    match ms
    case NoMembers => None
    case Member(name, value, next) => if k == 0 then Some((name, value)) else MemberAt(next, k - 1)
  }

  // The first member, counting from k, whose name matches the token at p
  function FirstMatch(ms: Members, k: nat, c: bytes, p: nat, caseSensitive: bool): Option<(nat, Json)> {
    match ms
    case NoMembers => None
    case Member(name, value, next) =>
      if Matches(name, 0, c, p, caseSensitive) then Some((k, value)) else FirstMatch(next, k + 1, c, p, caseSensitive)
  }

  // get_item_from_pointer: the node it comes to, starting at node `here` with tree j
  function Get(j: Json, here: Path, c: bytes, p: nat, caseSensitive: bool): Option<Path>
    decreases |c| - p
  {
    if p >= |c| || c[p] != '/' then Some(here)
    else
      match j
      case Array(items) =>
        var index := DecodeIndex(c, p + 1);
        if index.None? then None
        else
          var child := ItemAt(items, index.value);
          if child.None? then None
          else Get(child.value, here + [index.value], c, TokenEnd(c, p + 1), caseSensitive)
      case Object(members) =>
        var found := FirstMatch(members, 0, c, p + 1, caseSensitive);
        if found.None? then None
        else Get(found.value.1, here + [found.value.0], c, TokenEnd(c, p + 1), caseSensitive)
      case _ => None
  }

  // cJSONUtils_FindPointerFromObjectTo: a depth-first search for the node
  function Find(j: Json, here: Path, target: Path): Option<bytes>
    decreases j, 1
  {
    if here == target then Some([])
    else
      match j
      case Array(items) => FindInItems(items, 0, here, target)
      case Object(members) => FindInMembers(members, 0, here, target)
      case _ => None
  }

  function FindInItems(items: Items, k: nat, here: Path, target: Path): Option<bytes>
    decreases items, 0
  {
    match items
    case NoItems => None
    case Item(head, tail) =>
      match Find(head, here + [k], target)
      case Some(pointer) => Some(['/'] + Digits(k) + pointer)
      case None => FindInItems(tail, k + 1, here, target)
  }

  function FindInMembers(ms: Members, k: nat, here: Path, target: Path): Option<bytes>
    decreases ms, 0
  {
    match ms
    case NoMembers => None
    case Member(name, value, next) =>
      match Find(value, here + [k], target)
      case Some(pointer) => Some(['/'] + Encode(name) + pointer)
      case None => FindInMembers(next, k + 1, here, target)
  }

  // ----- Nodes and their pointers, by their paths -----

  // There is a node at this path.
  predicate IsNode(j: Json, path: Path)
    decreases |path|
  {
    path == [] ||
    match j
    case Array(items) => ItemAt(items, path[0]).Some? && IsNode(ItemAt(items, path[0]).value, path[1..])
    case Object(members) => MemberAt(members, path[0]).Some? && IsNode(MemberAt(members, path[0]).value.1, path[1..])
    case _ => false
  }

  // The pointer that RFC 6901 gives to a node
  function PointerTo(j: Json, path: Path): bytes
    requires IsNode(j, path)
    decreases |path|
  {
    if path == [] then []
    else
      match j
      case Array(items) => ['/'] + Digits(path[0]) + PointerTo(ItemAt(items, path[0]).value, path[1..])
      case Object(members) =>
        ['/'] + Encode(MemberAt(members, path[0]).value.0) + PointerTo(MemberAt(members, path[0]).value.1, path[1..])
  }

  predicate HasName(ms: Members, name: bytes) {
    ms.Member? && (ms.name == name || HasName(ms.next, name))
  }

  // The place of the first member of a name
  function FirstNamed(ms: Members, name: bytes): nat
    requires HasName(ms, name)
  {
    if ms.name == name then 0 else 1 + FirstNamed(ms.next, name)
  }

  // On the way to the node, no earlier member has the name of the one that the path goes through.
  predicate Unshadowed(j: Json, path: Path)
    requires IsNode(j, path)
    decreases |path|
  {
    path == [] ||
    match j
    case Array(items) => Unshadowed(ItemAt(items, path[0]).value, path[1..])
    case Object(members) =>
      var (name, value) := MemberAt(members, path[0]).value;
      HasName(members, name) && FirstNamed(members, name) == path[0] && Unshadowed(value, path[1..])
  }

  // No object has two members of one name.
  predicate DistinctNames(j: Json) {
    match j
    case Array(items) => ItemsDistinct(items)
    case Object(members) => MembersDistinct(members)
    case _ => true
  }

  predicate ItemsDistinct(items: Items) {
    items.Item? ==> DistinctNames(items.head) && ItemsDistinct(items.tail)
  }

  predicate MembersDistinct(ms: Members) {
    ms.Member? ==> !HasName(ms.next, ms.name) && DistinctNames(ms.value) && MembersDistinct(ms.next)
  }

  // No array has more items than a size_t counts.
  predicate Countable(j: Json) {
    match j
    case Array(items) => ItemsCountable(items) && ItemCount(items) <= SIZE_MAX
    case Object(members) => MembersCountable(members)
    case _ => true
  }

  predicate ItemsCountable(items: Items) {
    items.Item? ==> Countable(items.head) && ItemsCountable(items.tail)
  }

  predicate MembersCountable(ms: Members) {
    ms.Member? ==> Countable(ms.value) && MembersCountable(ms.next)
  }
}
