// The tree that cJSON holds (examples/json/cJSON.h): an item's children hang off `child` and are
// chained by `next`. Strings are C strings, so they hold no NUL.
module JsonTree {
  import opened Bytes

  datatype Json =
    | Null | False | True
    | Number(value: int)
    | String(text: bytes)
    | Array(items: Items)
    | Object(members: Members)

  datatype Items = NoItems | Item(head: Json, tail: Items)

  datatype Members = NoMembers | Member(name: bytes, value: Json, next: Members)

  const INT_MAX: int := 0x7FFF_FFFF
  const INT_MIN: int := -0x8000_0000

  predicate NulFree(s: bytes) {
    forall i | 0 <= i < |s| :: s[i] != '\0'
  }

  // Trees as the item functions build them: NUL-free strings, numbers that are C ints.
  predicate Wf(j: Json) {
    match j
    case Number(value) => INT_MIN <= value <= INT_MAX
    case String(text) => NulFree(text)
    case Array(items) => WfItems(items)
    case Object(members) => WfMembers(members)
    case _ => true
  }

  predicate WfItems(items: Items) {
    items.Item? ==> Wf(items.head) && WfItems(items.tail)
  }

  predicate WfMembers(ms: Members) {
    ms.Member? ==> NulFree(ms.name) && Wf(ms.value) && WfMembers(ms.next)
  }

  // How deep arrays and objects are nested
  function Nesting(j: Json): nat {
    match j
    case Array(items) => 1 + ItemsNesting(items)
    case Object(members) => 1 + MembersNesting(members)
    case _ => 0
  }

  function Max(a: nat, b: nat): nat {
    if a >= b then a else b
  }

  function ItemsNesting(items: Items): nat {
    match items
    case NoItems => 0
    case Item(head, tail) => Max(Nesting(head), ItemsNesting(tail))
  }

  function MembersNesting(ms: Members): nat {
    match ms
    case NoMembers => 0
    case Member(_, value, next) => Max(Nesting(value), MembersNesting(next))
  }
}
