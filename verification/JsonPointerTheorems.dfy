// A pointer that is built for a node leads back to that node (examples/json/cJSON_Utils.c).
module JsonPointerTheorems {
  import opened Bytes
  import opened JsonTree
  import opened JsonText
  import opened JsonPointer
  import opened JsonParse
  import opened JsonOffsets
  import opened JsonScalars

  // ----- Names -----

  lemma MatchesEncodedByte(name: bytes, n: nat, c: bytes, p: nat, b: byte)
    requires n <= |name| && NulFree(name) && b != '\0' && At(c, p, EncodeByte(b))
    ensures Matches(name, n, c, p, true) <==>
      n < |name| && name[n] == b && Matches(name, n + 1, c, p + |EncodeByte(b)|, true)
  {
    hide At;
    var e := EncodeByte(b);
    AtByte(c, p, e, 0);
    if |e| == 2 {
      AtByte(c, p, e, 1);
    }
  }

  lemma {:induction false} MatchesEncoded(name: bytes, n: nat, c: bytes, p: nat, t: bytes)
    requires n <= |name| && NulFree(name) && NulFree(t) && At(c, p, Encode(t)) && EndsToken(c, p + |Encode(t)|)
    ensures Matches(name, n, c, p, true) <==> name[n..] == t
    decreases |t|
  {
    hide At, EncodeByte;
    if t == [] {
      assert Matches(name, n, c, p, true) <==> n == |name|;
    } else {
      hide Matches;
      var e := EncodeByte(t[0]);
      AtBoth(c, p, e, Encode(t[1..]));
      MatchesEncodedByte(name, n, c, p, t[0]);
      if n < |name| {
        MatchesEncoded(name, n + 1, c, p + |e|, t[1..]);
        assert t == [t[0]] + t[1..] && name[n..] == [name[n]] + name[n + 1..];
      }
    }
  }

  // compare_pointers tells whether a name is the one that a reference token encodes.
  lemma TokenNamesOneMember(name: bytes, t: bytes, c: bytes, p: nat)
    requires NulFree(name) && NulFree(t) && At(c, p, Encode(t)) && EndsToken(c, p + |Encode(t)|)
    ensures Matches(name, 0, c, p, true) <==> name == t
  {
    MatchesEncoded(name, 0, c, p, t);
    assert name[0..] == name;
  }

  lemma {:induction false} EncodeHasNoSlash(s: bytes)
    requires NulFree(s)
    ensures forall i | 0 <= i < |Encode(s)| :: Encode(s)[i] != '/' && Encode(s)[i] != '\0'
  {
    if s != [] {
      EncodeHasNoSlash(s[1..]);
    }
  }

  lemma {:induction false} TokenEndIs(c: bytes, p: nat, t: bytes)
    requires At(c, p, t) && EndsToken(c, p + |t|) && forall i | 0 <= i < |t| :: t[i] != '/' && t[i] != '\0'
    ensures TokenEnd(c, p) == p + |t|
    decreases |t|
  {
    hide At;
    if t != [] {
      AtByte(c, p, t, 0);
      assert t == [t[0]] + t[1..];
      AtBoth(c, p, [t[0]], t[1..]);
      TokenEndIs(c, p + 1, t[1..]);
    }
  }

  // ----- Indices -----

  // A reference token, which ends at a slash or at the end of the pointer
  predicate IsToken(t: bytes) {
    forall i | 0 <= i < |t| :: t[i] != '/' && t[i] != '\0'
  }

  // The tokens that the code takes for an index: the empty one, and those that start like a number and hold no
  // byte below '0'.
  predicate AcceptedIndex(t: bytes) {
    t == [] || ('0' <= t[0] <= '9' && (t[0] == '0' ==> |t| == 1) && forall k | 0 <= k < |t| :: t[k] >= '0')
  }

  // The array index that section 4 of RFC 6901 gives to a token
  function StandardIndex(t: bytes): Option<int> {
    if IsDigits(t) && (t[0] == '0' ==> |t| == 1) then Some(DigitsValue(t)) else None
  }

  const SIZES: int := SIZE_MAX + 1

  lemma {:induction false} DigitsValueIsNat(t: bytes)
    requires forall k | 0 <= k < |t| :: t[k] >= '0'
    ensures DigitsValue(t) >= 0
  {
    if t != [] {
      DigitsValueIsNat(t[..|t| - 1]);
    }
  }

  lemma DigitsSnoc(t: bytes, i: nat)
    requires i < |t|
    ensures DigitsValue(t[..i + 1]) == 10 * DigitsValue(t[..i]) + (t[i] as int - '0' as int)
  {
    assert t[..i + 1][..i] == t[..i];
  }

  lemma WrapsOnce(v: nat, digit: nat)
    ensures (10 * (v % SIZES) + digit) % SIZES == (10 * v + digit) % SIZES
  {
    var q := v / SIZES;
    assert 10 * v + digit == (10 * (v % SIZES) + digit) + SIZES * (10 * q);
    WholeTurns(10 * (v % SIZES) + digit, 10 * q);
  }

  lemma {:induction false} WholeTurns(x: nat, turns: nat)
    ensures (x + SIZES * turns) % SIZES == x % SIZES
  {
    if turns > 0 {
      WholeTurns(x, turns - 1);
    }
  }

  lemma {:induction false} DecodesBytes(c: bytes, p: nat, t: bytes, i: nat)
    requires At(c, p, t) && EndsToken(c, p + |t|) && IsToken(t) && t != [] && t[0] <= '9' && i <= |t|
    requires forall k | 0 <= k < i :: t[k] >= '0'
    ensures 0 <= DigitsValue(t[..i])
    ensures var (index, end) := DecodeLoop(c, p, p + i, DigitsValue(t[..i]) % SIZES);
      if forall k | 0 <= k < |t| :: t[k] >= '0' then index == DigitsValue(t) % SIZES && end == p + |t|
      else !EndsToken(c, end)
    decreases |t| - i
  {
    hide At, DigitsValue;
    AtByte(c, p, t, 0);
    DigitsValueIsNat(t[..i]);
    if i == |t| {
      assert t[..i] == t;
    } else {
      AtByte(c, p, t, i);
      if t[i] >= '0' {
        DigitsSnoc(t, i);
        WrapsOnce(DigitsValue(t[..i]), t[i] as int - '0' as int);
        DecodesBytes(c, p, t, i + 1);
      }
    }
  }

  lemma NoDigits(t: bytes)
    ensures DigitsValue(t[..0]) == 0 && DigitsValue([]) == 0
  {
  }

  // What decode_array_index_from_pointer makes of every token: its bytes as decimal digits, whatever they are,
  // modulo the number of values that a size_t has.
  lemma IndexIsDecoded(c: bytes, p: nat, t: bytes)
    requires At(c, p, t) && EndsToken(c, p + |t|) && IsToken(t)
    ensures DecodeIndex(c, p) == if AcceptedIndex(t) then Some(DigitsValue(t) % SIZES) else None
  {
    hide At, DigitsValue;
    NoDigits(t);
    if t != [] {
      AtByte(c, p, t, 0);
      if |t| > 1 {
        AtByte(c, p, t, 1);
      }
      if t[0] <= '9' {
        DecodesBytes(c, p, t, 0);
      }
    }
  }

  // The code departs from RFC 6901 on exactly the accepted tokens that are empty, hold a byte past '9' or exceed
  // a size_t.
  lemma IndexAgreesWithStandard(c: bytes, p: nat, t: bytes)
    requires At(c, p, t) && EndsToken(c, p + |t|) && IsToken(t)
    ensures DecodeIndex(c, p) == StandardIndex(t) <==>
      !AcceptedIndex(t) || (t != [] && (forall k | 0 <= k < |t| :: t[k] <= '9') && DigitsValue(t) <= SIZE_MAX)
  {
    hide At, DigitsValue, DecodeIndex;
    IndexIsDecoded(c, p, t);
    if AcceptedIndex(t) {
      DigitsValueIsNat(t);
    }
  }

  // The token `1a` is taken for 59.
  lemma LettersCountAsDigits()
    ensures DecodeIndex(['1', 'a'], 0) == Some(59) && StandardIndex(['1', 'a']) == None
  {
    var t: bytes := ['1', 'a'];
    assert t[..0] == [] && t[..1] == ['1'] && t[..2] == t;
    DigitsSnoc(t, 0);
    DigitsSnoc(t, 1);
    IndexIsDecoded(t, 0, t);
    assert !('0' <= t[1] <= '9');
  }

  lemma {:induction false} NoLeadingZero(n: nat)
    ensures Digits(n)[0] == '0' ==> n == 0
    ensures n < 10 ==> |Digits(n)| == 1
  {
    if n >= 10 {
      NoLeadingZero(n / 10);
    }
  }

  // The decimal of every size_t is read back.
  lemma IndexIsRead(c: bytes, p: nat, n: nat)
    requires n <= SIZE_MAX && At(c, p, Digits(n)) && EndsToken(c, p + |Digits(n)|)
    ensures DecodeIndex(c, p) == Some(n) && TokenEnd(c, p) == p + |Digits(n)| && |Digits(n)| <= 20
  {
    hide At, Digits, DigitsValue, DecodeIndex, TokenEnd, AcceptedIndex, EndsToken;
    DigitsAreAccepted(n);
    IndexIsDecoded(c, p, Digits(n));
    TokenEndIs(c, p, Digits(n));
  }

  lemma DigitsAreAccepted(n: nat)
    requires n <= SIZE_MAX
    ensures var t := Digits(n); IsToken(t) && AcceptedIndex(t) && DigitsValue(t) == n && |t| <= 20
  {
    hide Digits, DigitsValue;
    TwentyDigits();
    DigitsAreDecimal(n, 20);
    NoLeadingZero(n);
    assert forall i | 0 <= i < |Digits(n)| :: '0' <= Digits(n)[i] <= '9';
  }

  lemma TwentyDigits()
    ensures SIZE_MAX < Pow10(20)
  {
    assert Pow10(10) == 10_000_000_000;
    assert Pow10(20) == 10_000_000_000 * Pow10(10);
  }

  // ----- Finding -----

  // A search below one node does not meet a node that is not below it.
  lemma {:induction false} NotBelow(j: Json, here: Path, target: Path)
    requires !(here <= target)
    ensures Find(j, here, target) == None
    decreases j, 1
  {
    match j
    case Array(items) => { NotInItems(items, 0, here, target); }
    case Object(members) => { NotInMembers(members, 0, here, target); }
    case _ => {}
  }

  lemma {:induction false} NotInItems(items: Items, k: nat, here: Path, target: Path)
    requires !(here <= target) || (here < target && target[|here|] < k)
    ensures FindInItems(items, k, here, target) == None
    decreases items, 0
  {
    if items.Item? {
      NotBelow(items.head, here + [k], target);
      NotInItems(items.tail, k + 1, here, target);
    }
  }

  lemma {:induction false} NotInMembers(ms: Members, k: nat, here: Path, target: Path)
    requires !(here <= target) || (here < target && target[|here|] < k)
    ensures FindInMembers(ms, k, here, target) == None
    decreases ms, 0
  {
    if ms.Member? {
      NotBelow(ms.value, here + [k], target);
      NotInMembers(ms.next, k + 1, here, target);
    }
  }

  // The search finds exactly the nodes of the tree, and gives each its pointer.
  lemma {:induction false} FindsNode(j: Json, here: Path, path: Path)
    ensures Find(j, here, here + path) == if IsNode(j, path) then Some(PointerTo(j, path)) else None
    decreases j, 1
  {
    if path == [] {
      assert here + path == here;
    } else {
      assert here + path != here;
      match j
      case Array(items) => { FindsInItems(items, 0, here, path, j); }
      case Object(members) => { FindsInMembers(members, 0, here, path, j); }
      case _ => {}
    }
  }

  lemma {:induction false} FindsInItems(items: Items, k: nat, here: Path, path: Path, j: Json)
    requires path != [] && k <= path[0] && j.Array? && ItemAt(items, path[0] - k) == ItemAt(j.items, path[0])
    ensures FindInItems(items, k, here, here + path) == if IsNode(j, path) then Some(PointerTo(j, path)) else None
    decreases items, 0
  {
    if items.Item? {
      var target := here + path;
      if k < path[0] {
        assert (here + [k])[|here|] == k && target[|here|] == path[0];
        NotBelow(items.head, here + [k], target);
        FindsInItems(items.tail, k + 1, here, path, j);
      } else {
        assert target == (here + [k]) + path[1..];
        FindsNode(items.head, here + [k], path[1..]);
        if !IsNode(j, path) {
          NotInItems(items.tail, k + 1, here, target);
        }
      }
    }
  }

  lemma {:induction false} FindsInMembers(ms: Members, k: nat, here: Path, path: Path, j: Json)
    requires path != [] && k <= path[0] && j.Object? && MemberAt(ms, path[0] - k) == MemberAt(j.members, path[0])
    ensures FindInMembers(ms, k, here, here + path) == if IsNode(j, path) then Some(PointerTo(j, path)) else None
    decreases ms, 0
  {
    if ms.Member? {
      var target := here + path;
      if k < path[0] {
        assert (here + [k])[|here|] == k && target[|here|] == path[0];
        NotBelow(ms.value, here + [k], target);
        FindsInMembers(ms.next, k + 1, here, path, j);
      } else {
        assert target == (here + [k]) + path[1..];
        FindsNode(ms.value, here + [k], path[1..]);
        if !IsNode(j, path) {
          NotInMembers(ms.next, k + 1, here, target);
        }
      }
    }
  }

  // ----- Getting -----

  lemma {:induction false} ItemInRange(items: Items, k: nat)
    requires ItemAt(items, k).Some?
    ensures k < ItemCount(items)
    ensures WfItems(items) ==> Wf(ItemAt(items, k).value)
    ensures ItemsCountable(items) ==> Countable(ItemAt(items, k).value)
    ensures ItemsDistinct(items) ==> DistinctNames(ItemAt(items, k).value)
  {
    if k > 0 {
      ItemInRange(items.tail, k - 1);
    }
  }

  lemma {:induction false} MemberFacts(ms: Members, k: nat)
    requires MemberAt(ms, k).Some?
    ensures HasName(ms, MemberAt(ms, k).value.0)
    ensures WfMembers(ms) ==> NulFree(MemberAt(ms, k).value.0) && Wf(MemberAt(ms, k).value.1)
    ensures MembersCountable(ms) ==> Countable(MemberAt(ms, k).value.1)
    ensures MembersDistinct(ms) ==> DistinctNames(MemberAt(ms, k).value.1)
  {
    if k > 0 {
      MemberFacts(ms.next, k - 1);
    }
  }

  // The first member of that name is the one that matches.
  lemma {:induction false} MatchesFirstNamed(ms: Members, base: nat, c: bytes, p: nat, t: bytes)
    requires WfMembers(ms) && HasName(ms, t) && NulFree(t) && At(c, p, Encode(t)) && EndsToken(c, p + |Encode(t)|)
    ensures var m := FirstNamed(ms, t);
      MemberAt(ms, m).Some? && FirstMatch(ms, base, c, p, true) == Some((base + m, MemberAt(ms, m).value.1))
    decreases ms
  {
    hide At, Encode, Matches, NulFree, EndsToken;
    TokenNamesOneMember(ms.name, t, c, p);
    if ms.name != t {
      MatchesFirstNamed(ms.next, base + 1, c, p, t);
    }
  }

  lemma PointerEndsToken(j: Json, path: Path, c: bytes, p: nat)
    requires IsNode(j, path) && At(c, p, PointerTo(j, path)) && p + |PointerTo(j, path)| == |c|
    ensures EndsToken(c, p)
  {
    hide At;
    if path != [] {
      AtByte(c, p, PointerTo(j, path), 0);
    }
  }

  // Following a pointer never leaves the node that it starts from.
  lemma {:induction false} GetStaysBelow(j: Json, here: Path, c: bytes, p: nat, caseSensitive: bool)
    ensures var r := Get(j, here, c, p, caseSensitive); r.Some? ==> here <= r.value
    decreases |c| - p
  {
    hide DecodeIndex, ItemAt, FirstMatch, TokenEnd;
    if p < |c| && c[p] == '/' {
      if j.Array? && DecodeIndex(c, p + 1).Some? {
        var k := DecodeIndex(c, p + 1).value;
        if ItemAt(j.items, k).Some? {
          GetStaysBelow(ItemAt(j.items, k).value, here + [k], c, TokenEnd(c, p + 1), caseSensitive);
        }
      } else if j.Object? {
        var found := FirstMatch(j.members, 0, c, p + 1, caseSensitive);
        if found.Some? {
          GetStaysBelow(found.value.1, here + [found.value.0], c, TokenEnd(c, p + 1), caseSensitive);
        }
      }
    }
  }

  function Child(j: Json, k: nat): Json
    requires IsNode(j, [k])
  {
    if j.Array? then ItemAt(j.items, k).value else MemberAt(j.members, k).value.1
  }

  function Token(j: Json, k: nat): bytes
    requires IsNode(j, [k])
  {
    if j.Array? then Digits(k) else Encode(MemberAt(j.members, k).value.0)
  }

  // The first reference token of a node's pointer, and what follows it
  lemma PointerParts(j: Json, path: Path, c: bytes, p: nat) returns (next: nat)
    requires path != [] && IsNode(j, path) && At(c, p, PointerTo(j, path)) && p + |PointerTo(j, path)| == |c|
    ensures IsNode(j, path[..1]) && IsNode(Child(j, path[0]), path[1..])
    ensures p < |c| && c[p] == '/' && next == p + 1 + |Token(j, path[0])| && At(c, p + 1, Token(j, path[0]))
    ensures EndsToken(c, next) && At(c, next, PointerTo(Child(j, path[0]), path[1..]))
    ensures next + |PointerTo(Child(j, path[0]), path[1..])| == |c|
  {
    hide At, Digits, Encode, EndsToken;
    assert path[..1] == [path[0]];
    var child, token := Child(j, path[0]), Token(j, path[0]);
    var rest := PointerTo(child, path[1..]);
    assert PointerTo(j, path) == ['/'] + (token + rest);
    next := p + 1 + |token|;
    AtBoth(c, p, ['/'], token + rest);
    AtBoth(c, p + 1, token, rest);
    AtByte(c, p, ['/'], 0);
    PointerEndsToken(child, path[1..], c, next);
  }

  lemma {:induction false} GetsNode(j: Json, here: Path, path: Path, c: bytes, p: nat)
    requires IsNode(j, path) && Wf(j) && Countable(j)
    requires At(c, p, PointerTo(j, path)) && p + |PointerTo(j, path)| == |c|
    ensures Get(j, here, c, p, true) == Some(here + path) <==> Unshadowed(j, path)
    decreases |path|
  {
    hide At, Digits, Encode, EndsToken, DecodeIndex, TokenEnd, FirstMatch, PointerTo, NulFree, FirstNamed;
    if path == [] {
      assert here + path == here;
      NoPointer(j);
    } else {
      var next := PointerParts(j, path, c, p);
      var k := path[0];
      assert path[..1] == [k];
      assert here + path == here + [k] + path[1..];
      if j.Array? {
        ItemInRange(j.items, k);
        IndexIsRead(c, p + 1, k);
        GetsNode(Child(j, k), here + [k], path[1..], c, next);
      } else {
        MemberFacts(j.members, k);
        var name := MemberAt(j.members, k).value.0;
        var m := FirstNamed(j.members, name);
        MatchesFirstNamed(j.members, 0, c, p + 1, name);
        EncodeHasNoSlash(name);
        TokenEndIs(c, p + 1, Token(j, k));
        if m == k {
          GetsNode(Child(j, k), here + [k], path[1..], c, next);
        } else {
          GetStaysBelow(MemberAt(j.members, m).value.1, here + [m], c, next, true);
          assert (here + path)[|here|] == k && (here + [m])[|here|] == m;
        }
      }
    }
  }

  lemma NoPointer(j: Json)
    ensures PointerTo(j, []) == []
  {
  }

  // For every tree and every path: a pointer is found for just the nodes of the tree, and it gets that very node
  // just when no earlier member of the same name is in the way.
  lemma FindThenGet(j: Json, path: Path)
    requires Wf(j) && Countable(j)
    ensures match Find(j, [], path)
      case Some(pointer) => IsNode(j, path) && (Get(j, [], pointer, 0, true) == Some(path) <==> Unshadowed(j, path))
      case None => !IsNode(j, path)
  {
    hide Find, Get, Countable, Wf, Unshadowed;
    assert [] + path == path;
    FindsNode(j, [], path);
    if IsNode(j, path) {
      GetsNode(j, [], path, PointerTo(j, path), 0);
    }
  }

  lemma {:induction false} FirstOfDistinct(ms: Members, k: nat)
    requires MembersDistinct(ms) && MemberAt(ms, k).Some?
    ensures HasName(ms, MemberAt(ms, k).value.0) && FirstNamed(ms, MemberAt(ms, k).value.0) == k
  {
    MemberFacts(ms, k);
    if k > 0 {
      MemberFacts(ms.next, k - 1);
      FirstOfDistinct(ms.next, k - 1);
    }
  }

  // With distinct names nothing is in the way.
  lemma {:induction false} DistinctNamesShadowNothing(j: Json, path: Path)
    requires DistinctNames(j) && IsNode(j, path)
    ensures Unshadowed(j, path)
    decreases |path|
  {
    hide FirstNamed;
    if path != [] {
      var k := path[0];
      assert path[..1] == [k];
      if j.Array? {
        ItemInRange(j.items, k);
      } else {
        MemberFacts(j.members, k);
        FirstOfDistinct(j.members, k);
      }
      DistinctNamesShadowNothing(Child(j, k), path[1..]);
    }
  }

  // So in a tree with distinct names every node has a pointer that gets it.
  lemma PointerLeadsBack(j: Json, path: Path)
    requires Wf(j) && Countable(j) && DistinctNames(j) && IsNode(j, path)
    ensures Find(j, [], path).Some? && Get(j, [], Find(j, [], path).value, 0, true) == Some(path)
  {
    FindThenGet(j, path);
    DistinctNamesShadowNothing(j, path);
  }
}
