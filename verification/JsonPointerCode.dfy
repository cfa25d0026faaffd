// The loops of examples/json/cJSON_Utils.c that build, compare and follow pointers.
module JsonPointerCode {
  import opened Bytes
  import opened JsonTree
  import opened JsonText
  import opened JsonPointer

  // compare_pointers
  method ComparePointers(name: bytes, c: bytes, start: nat, caseSensitive: bool) returns (equal: bool)
    ensures equal == Matches(name, 0, c, start, caseSensitive)
  {
    hide SameByte, EndsToken;
    var n, p := 0, start;
    while n < |name| && !EndsToken(c, p)
      invariant n <= |name| && Matches(name, n, c, p, caseSensitive) == Matches(name, 0, c, start, caseSensitive)
    {
      if CharAt(c, p) == '~' {
        if (CharAt(c, p + 1) != '0' || name[n] != '~') && (CharAt(c, p + 1) != '1' || name[n] != '/') {
          return false;
        }
        p := p + 1;
      } else if !SameByte(name[n], CharAt(c, p), caseSensitive) {
        return false;
      }
      n, p := n + 1, p + 1;
    }
    equal := !EndsToken(c, p) == (n < |name|);
  }

  // pointer_encoded_length
  method PointerEncodedLength(s: bytes) returns (length: nat)
    ensures length == |Encode(s)|
  {
    length := 0;
    var i := 0;
    assert s[0..] == s;
    while i < |s|
      invariant i <= |s| && length + |Encode(s[i..])| == |Encode(s)|
    {
      assert s[i..][1..] == s[i + 1..];
      if s[i] == '~' || s[i] == '/' {
        length := length + 1;
      }
      i, length := i + 1, length + 1;
    }
  }

  // encode_string_as_pointer, at destination[start..]
  method EncodeStringAsPointer(destination: array<byte>, start: nat, source: bytes)
    requires start + |Encode(source)| < destination.Length
    modifies destination
    ensures var end := start + |Encode(source)|;
      destination[..end] == old(destination[..start]) + Encode(source) && destination[end] == '\0'
  {
    hide EncodeByte;
    ghost var all, done := Encode(source), [];
    var i, d := 0, start;
    assert source[0..] == source;
    while i < |source|
      invariant i <= |source| && done + Encode(source[i..]) == all
      invariant d == start + |done| && destination[..d] == old(destination[..start]) + done
    {
      EncodeStep(source, i, done);
      d := PutEncoded(destination, d, source[i]);
      done := done + EncodeByte(source[i]);
      i := i + 1;
    }
    destination[d] := '\0';
  }

  method PutEncoded(destination: array<byte>, d: nat, b: byte) returns (end: nat)
    requires d + |EncodeByte(b)| <= destination.Length
    modifies destination
    ensures end == d + |EncodeByte(b)| && destination[..end] == old(destination[..d]) + EncodeByte(b)
  {
    if b == '/' {
      destination[d], destination[d + 1] := '~', '1';
      end := d + 2;
    } else if b == '~' {
      destination[d], destination[d + 1] := '~', '0';
      end := d + 2;
    } else {
      destination[d] := b;
      end := d + 1;
    }
  }

  lemma EncodeStep(s: bytes, i: nat, done: bytes)
    requires i < |s|
    ensures done + Encode(s[i..]) == (done + EncodeByte(s[i])) + Encode(s[i + 1..])
  {
    hide EncodeByte;
    assert s[i..][1..] == s[i + 1..];
  }

  // decode_array_index_from_pointer
  method DecodeArrayIndex(c: bytes, pointer: nat) returns (index: Option<nat>)
    ensures index == DecodeIndex(c, pointer)
  {
    if CharAt(c, pointer) == '0' && !EndsToken(c, pointer + 1) {
      return None;
    }
    var parsedIndex, position := 0, pointer;
    while CharAt(c, position) >= '0' && CharAt(c, pointer) <= '9'
      invariant parsedIndex >= 0 && position >= pointer
      invariant DecodeLoop(c, pointer, position, parsedIndex) == DecodeLoop(c, pointer, pointer, 0)
      decreases |c| - position
    {
      parsedIndex := (10 * parsedIndex + (c[position] as int - '0' as int)) % (SIZE_MAX + 1);
      position := position + 1;
    }
    if !EndsToken(c, position) {
      return None;
    }
    index := Some(parsedIndex);
  }

  // get_array_item
  method GetArrayItem(items: Items, item: nat) returns (child: Option<Json>)
    ensures child == ItemAt(items, item)
  {
    var current, left: nat := items, item;
    while current.Item? && left > 0
      invariant ItemAt(current, left) == ItemAt(items, item)
      decreases current
    {
      left := left - 1;
      current := current.tail;
    }
    child := if current.Item? then Some(current.head) else None;
  }

  // get_item_from_pointer
  method GetItemFromPointer(root: Json, c: bytes, caseSensitive: bool) returns (node: Option<Path>)
    ensures node == Get(root, [], c, 0, caseSensitive)
  {
    hide DecodeIndex, Matches;
    var current, here: Path := root, [];
    var pointer := 0;
    while pointer < |c| && c[pointer] == '/'
      invariant Get(current, here, c, pointer, caseSensitive) == Get(root, [], c, 0, caseSensitive)
      decreases |c| - pointer
    {
      var token := pointer + 1;
      if current.Array? {
        var index := DecodeArrayIndex(c, token);
        if index.None? {
          return None;
        }
        var child := GetArrayItem(current.items, index.value);
        if child.None? {
          return None;
        }
        current, here := child.value, here + [index.value];
      } else if current.Object? {
        var k, members := 0, current.members;
        while members.Member?
          invariant FirstMatch(members, k, c, token, caseSensitive) == FirstMatch(current.members, 0, c, token, caseSensitive)
          decreases members
        {
          var equal := ComparePointers(members.name, c, token, caseSensitive);
          if equal {
            break;
          }
          k, members := k + 1, members.next;
        }
        if members.NoMembers? {
          return None;
        }
        current, here := members.value, here + [k];
      } else {
        return None;
      }
      pointer := token;
      while pointer < |c| && !EndsToken(c, pointer)
        invariant pointer >= token && TokenEnd(c, pointer) == TokenEnd(c, token)
        decreases |c| - pointer
      {
        pointer := pointer + 1;
      }
    }
    node := Some(here);
  }

  // cJSONUtils_FindPointerFromObjectTo
  method FindPointer(root: Json, here: Path, target: Path) returns (pointer: Option<bytes>)
    ensures pointer == Find(root, here, target)
    decreases root
  {
    hide Digits, Encode;
    if here == target {
      return Some([]);
    }
    var childIndex := 0;
    if root.Array? {
      var child := root.items;
      while child.Item?
        invariant FindInItems(child, childIndex, here, target) == FindInItems(root.items, 0, here, target)
        invariant child == root.items || child < root.items
        decreases child
      {
        var targetPointer := FindPointer(child.head, here + [childIndex], target);
        if targetPointer.Some? {
          return Some(['/'] + Digits(childIndex) + targetPointer.value);
        }
        child, childIndex := child.tail, childIndex + 1;
      }
    } else if root.Object? {
      var child := root.members;
      while child.Member?
        invariant FindInMembers(child, childIndex, here, target) == FindInMembers(root.members, 0, here, target)
        invariant child == root.members || child < root.members
        decreases child
      {
        var targetPointer := FindPointer(child.value, here + [childIndex], target);
        if targetPointer.Some? {
          var fullPointer := JoinPointer(child.name, targetPointer.value);
          return Some(fullPointer);
        }
        child, childIndex := child.next, childIndex + 1;
      }
    }
    pointer := None;
  }

  // The pointer of a member, in a buffer of exactly the size that the code asks for
  method JoinPointer(name: bytes, targetPointer: bytes) returns (pointer: bytes)
    ensures pointer == ['/'] + Encode(name) + targetPointer
  {
    hide Encode;
    var length := PointerEncodedLength(name);
    var fullPointer := new byte[|targetPointer| + length + 2];
    fullPointer[0] := '/';
    assert fullPointer[..1] == ['/'];
    EncodeStringAsPointer(fullPointer, 1, name);
    // strcat
    forall i | 0 <= i < |targetPointer| {
      fullPointer[length + 1 + i] := targetPointer[i];
    }
    fullPointer[length + 1 + |targetPointer|] := '\0';
    pointer := fullPointer[..length + 1 + |targetPointer|];
  }
}
