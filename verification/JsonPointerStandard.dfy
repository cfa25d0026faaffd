// The evaluation of JSON Pointers by section 4 of RFC 6901, and when the case-sensitive getter of
// examples/json/cJSON_Utils.c agrees with it.
module JsonPointerStandard {
  import opened Bytes
  import opened JsonTree
  import opened JsonPointer
  import opened JsonPointerTheorems
  import opened JsonParse
  import opened JsonScalars

  // ----- The standard -----

  // The name that a reference token stands for: ~1 is a slash, ~0 a tilde, and a tilde may stand for nothing else.
  function DecodeName(t: bytes): Option<bytes> {
    if t == [] then Some([])
    else if t[0] != '~' then Prefixed(t[0], DecodeName(t[1..]))
    else if |t| == 1 then None
    else if t[1] == '0' then Prefixed('~', DecodeName(t[2..]))
    else if t[1] == '1' then Prefixed('/', DecodeName(t[2..]))
    else None
  }

  function Prefixed(b: byte, name: Option<bytes>): (r: Option<bytes>)
    ensures r.Some? ==> r.value != []
  {
    if name.Some? then Some([b] + name.value) else None
  }

  // The reference token at p
  function TokenText(c: bytes, p: nat): bytes
    requires p <= |c|
  {
    TokenEndFits(c, p);
    c[p..TokenEnd(c, p)]
  }

  lemma {:induction false} TokenEndFits(c: bytes, p: nat)
    requires p <= |c|
    ensures TokenEnd(c, p) <= |c| && EndsToken(c, TokenEnd(c, p))
    ensures forall i | p <= i < TokenEnd(c, p) :: !EndsToken(c, i)
    decreases |c| - p
  {
    if p < |c| && !EndsToken(c, p) {
      TokenEndFits(c, p + 1);
    }
  }

  function NameCount(ms: Members, name: bytes): nat {
    match ms
    case NoMembers => 0
    case Member(n, _, next) => (if n == name then 1 else 0) + NameCount(next, name)
  }

  lemma {:induction false} CountedIsThere(ms: Members, name: bytes)
    ensures HasName(ms, name) <==> NameCount(ms, name) > 0
    ensures HasName(ms, name) ==> MemberAt(ms, FirstNamed(ms, name)).Some?
  {
    if ms.Member? && ms.name != name {
      CountedIsThere(ms.next, name);
    }
  }

  // The first member of a name: its place and its value
  function Named(ms: Members, name: bytes): (nat, Json)
    requires HasName(ms, name)
  {
    CountedIsThere(ms, name);
    (FirstNamed(ms, name), MemberAt(ms, FirstNamed(ms, name)).value.1)
  }

  // The node that a pointer, from its p-th byte on, names in the tree j at `here`. A name that is not the name of
  // exactly one member is an error, and so is every token below a scalar.
  function Evaluate(j: Json, here: Path, c: bytes, p: nat): Option<Path>
    requires p <= |c|
    decreases |c| - p
  {
    if p == |c| then Some(here)
    else if c[p] != '/' then None
    else
      TokenEndFits(c, p + 1);
      var t, next := TokenText(c, p + 1), TokenEnd(c, p + 1);
      match j
      case Array(items) =>
        var index := StandardIndex(t);
        if index.None? || index.value < 0 then None
        else
          var child := ItemAt(items, index.value);
          if child.None? then None else Evaluate(child.value, here + [index.value], c, next)
      case Object(members) =>
        var name := DecodeName(t);
        if name.None? || NameCount(members, name.value) != 1 then None
        else
          CountedIsThere(members, name.value);
          var (k, value) := Named(members, name.value);
          Evaluate(value, here + [k], c, next)
      case _ => None
  }

  // ----- Where the code does as the standard has it -----

  // Every step of the code is one of the standard: tokens follow slashes, indices are decimals of a size_t, and
  // names are not repeated.
  predicate Regular(j: Json, c: bytes, p: nat)
    requires p <= |c|
    decreases |c| - p
  {
    p == |c| ||
    (c[p] == '/' &&
     (TokenEndFits(c, p + 1);
      var t, next := TokenText(c, p + 1), TokenEnd(c, p + 1);
      match j
      case Array(items) =>
        && StandardIndex(t).Some? && 0 <= StandardIndex(t).value <= SIZE_MAX
        && var child := ItemAt(items, StandardIndex(t).value);
           child.Some? ==> Regular(child.value, c, next)
      case Object(members) =>
        var name := DecodeName(t);
        name.Some? && HasName(members, name.value) ==>
          NameCount(members, name.value) == 1 && Regular(Named(members, name.value).1, c, next)
      case _ => true))
  }

  // ----- Agreement -----

  lemma {:induction false} SkipsByte(c: bytes, p: nat)
    requires p < |c| && !EndsToken(c, p)
    ensures TokenText(c, p) == [c[p]] + TokenText(c, p + 1) && TokenEnd(c, p) == TokenEnd(c, p + 1)
  {
    TokenEndFits(c, p + 1);
  }

  lemma PrefixedIs(b: byte, x: Option<bytes>, s: bytes, n: nat)
    requires n < |s|
    ensures Prefixed(b, x) == Some(s[n..]) <==> s[n] == b && x == Some(s[n + 1..])
  {
    if x.Some? {
      assert ([b] + x.value)[0] == b && ([b] + x.value)[1..] == x.value;
      assert s[n..] == [s[n]] + s[n + 1..];
    }
  }

  // compare_pointers tells whether a name is the one that the token stands for.
  lemma {:induction false} MatchesToken(name: bytes, n: nat, c: bytes, p: nat)
    requires NulFree(name) && n <= |name| && p <= |c|
    ensures Matches(name, n, c, p, true) <==> DecodeName(TokenText(c, p)) == Some(name[n..])
    decreases |c| - p
  {
    hide TokenText, TokenEnd, Prefixed;
    TokenEndFits(c, p);
    assert |name[n..]| == |name| - n;
    if EndsToken(c, p) {
      TokenAtEnd(c, p);
    } else {
      SkipsByte(c, p);
      var t := TokenText(c, p);
      assert t[0] == c[p] && t[1..] == TokenText(c, p + 1);
      if c[p] == '~' {
        EscapeInToken(c, p);
        if n < |name| && (CharAt(c, p + 1) == '0' || CharAt(c, p + 1) == '1') {
          MatchesToken(name, n + 1, c, p + 2);
          PrefixedIs(if c[p + 1] == '0' then '~' else '/', DecodeName(t[2..]), name, n);
        }
      } else if n < |name| {
        MatchesToken(name, n + 1, c, p + 1);
        PrefixedIs(c[p], DecodeName(t[1..]), name, n);
      }
    }
  }

  lemma TokenAtEnd(c: bytes, p: nat)
    requires p <= |c| && EndsToken(c, p)
    ensures TokenText(c, p) == []
  {
  }

  lemma EscapeInToken(c: bytes, p: nat)
    requires p < |c| && c[p] == '~' && !EndsToken(c, p)
    ensures var t := TokenText(c, p);
      && (|t| > 1 <==> !EndsToken(c, p + 1))
      && (|t| > 1 ==> p + 2 <= |c| && t[1] == c[p + 1] && t[2..] == TokenText(c, p + 2))
  {
    SkipsByte(c, p);
    if !EndsToken(c, p + 1) {
      SkipsByte(c, p + 1);
    } else {
      TokenAtEnd(c, p + 1);
    }
  }

  lemma {:induction false} FirstMatchIs(ms: Members, base: nat, c: bytes, p: nat)
    requires WfMembers(ms) && p <= |c|
    ensures FirstMatch(ms, base, c, p, true) ==
      var name := DecodeName(TokenText(c, p));
      if name.None? || !HasName(ms, name.value) then None
      else Some((base + Named(ms, name.value).0, Named(ms, name.value).1))
    decreases ms
  {
    hide Matches, DecodeName, TokenText, NulFree;
    if ms.Member? {
      MatchesToken(ms.name, 0, c, p);
      assert ms.name[0..] == ms.name;
      FirstMatchIs(ms.next, base + 1, c, p);
    }
  }

  lemma TokenIsThere(c: bytes, p: nat)
    requires p <= |c|
    ensures var t := TokenText(c, p); At(c, p, t) && EndsToken(c, p + |t|) && IsToken(t) && TokenEnd(c, p) == p + |t|
  {
    TokenEndFits(c, p);
    var t := TokenText(c, p);
    forall i | 0 <= i < |t|
      ensures t[i] != '/' && t[i] != '\0'
    {
      assert t[i] == c[p + i] && !EndsToken(c, p + i);
    }
  }

  // An index of the standard is what the code decodes if a size_t holds it.
  lemma IndexIs(c: bytes, p: nat)
    requires p <= |c|
    ensures var s := StandardIndex(TokenText(c, p));
      s.Some? ==> 0 <= s.value && (s.value <= SIZE_MAX ==> DecodeIndex(c, p) == Some(s.value))
  {
    hide TokenText, At, EndsToken, IsToken, DecodeIndex, DigitsValue;
    TokenIsThere(c, p);
    var t := TokenText(c, p);
    if StandardIndex(t).Some? {
      DigitsValueIsNat(t);
      IndexIsDecoded(c, p, t);
    }
  }

  // For every tree and every pointer: the standard's evaluation is that of the code where all of its steps are
  // steps of the standard, and fails everywhere else.
  lemma {:induction false} EvaluatesAsGot(j: Json, here: Path, c: bytes, p: nat)
    requires Wf(j) && Countable(j) && NulFree(c) && p <= |c|
    ensures Evaluate(j, here, c, p) == if Regular(j, c, p) then Get(j, here, c, p, true) else None
    decreases |c| - p
  {
    hide TokenText, StandardIndex, DecodeIndex, DecodeName, FirstMatch, NulFree, TokenEnd;
    if p < |c| && c[p] == '/' {
      TokenEndFits(c, p + 1);
      var t, next := TokenText(c, p + 1), TokenEnd(c, p + 1);
      if j.Array? {
        IndexIs(c, p + 1);
        var index := StandardIndex(t);
        if index.Some? && ItemAt(j.items, index.value).Some? {
          ItemInRange(j.items, index.value);
          EvaluatesAsGot(ItemAt(j.items, index.value).value, here + [index.value], c, next);
        }
      } else if j.Object? {
        FirstMatchIs(j.members, 0, c, p + 1);
        var name := DecodeName(t);
        if name.Some? {
          CountedIsThere(j.members, name.value);
          if HasName(j.members, name.value) {
            var (k, value) := Named(j.members, name.value);
            MemberFacts(j.members, k);
            EvaluatesAsGot(value, here + [k], c, next);
          }
        }
      }
    }
  }

  // The exact condition: the getter agrees with the standard unless it comes to a node by a step that is none of
  // the standard's.
  lemma GetIsStandard(j: Json, c: bytes)
    requires Wf(j) && Countable(j) && NulFree(c)
    ensures Get(j, [], c, 0, true) == Evaluate(j, [], c, 0) <==> Get(j, [], c, 0, true) == None || Regular(j, c, 0)
  {
    hide Get, Evaluate, Regular;
    EvaluatesAsGot(j, [], c, 0);
  }

  // The pointer `a` gets the root.
  lemma AnyTextGetsTheRoot(j: Json)
    ensures Get(j, [], ['a'], 0, true) == Some([]) && Evaluate(j, [], ['a'], 0) == None
  {
  }

  // ----- Which pointers agree on every tree -----

  // A token that the code takes for the index of an item that an array can have, and the standard does not
  predicate IsBadIndex(t: bytes) {
    && AcceptedIndex(t) && DigitsValue(t) % SIZES < SIZE_MAX
    && !(StandardIndex(t).Some? && StandardIndex(t).value <= SIZE_MAX)
  }

  // Some tree has a node to which the code follows the pointer.
  predicate IsPassable(c: bytes, p: nat)
    requires p <= |c|
    decreases |c| - p
  {
    p == |c| || c[p] != '/' ||
    (TokenEndFits(c, p + 1);
     var t := TokenText(c, p + 1);
     (DecodeName(t).Some? || IsBadIndex(t)) && IsPassable(c, TokenEnd(c, p + 1)))
  }

  // A token does not follow a slash, or may be a bad index.
  predicate HasBadStep(c: bytes, p: nat)
    requires p <= |c|
    decreases |c| - p
  {
    p < |c| &&
    (c[p] != '/' ||
     (TokenEndFits(c, p + 1);
      IsBadIndex(TokenText(c, p + 1)) || HasBadStep(c, TokenEnd(c, p + 1))))
  }

  function Padded(k: nat, last: Json): Items {
    if k == 0 then Item(last, NoItems) else Item(Null, Padded(k - 1, last))
  }

  // A tree to whose node the pointer leads, over bad indices wherever there can be one
  function Witness(c: bytes, p: nat): Json
    requires p <= |c|
    decreases |c| - p
  {
    if p == |c| || c[p] != '/' then Null
    else
      TokenEndFits(c, p + 1);
      var t, rest := TokenText(c, p + 1), Witness(c, TokenEnd(c, p + 1));
      if IsBadIndex(t) then Array(Padded(DigitsValue(t) % SIZES, rest))
      else if DecodeName(t).Some? then Object(Member(DecodeName(t).value, rest, NoMembers))
      else Null
  }

  lemma {:induction false} DigitsAreAName(t: bytes)
    requires forall k | 0 <= k < |t| :: t[k] != '~'
    ensures DecodeName(t).Some?
  {
    if t != [] {
      DigitsAreAName(t[1..]);
    }
  }

  lemma {:induction false} DecodedIsNulFree(t: bytes)
    requires NulFree(t)
    ensures DecodeName(t).Some? ==> NulFree(DecodeName(t).value)
  {
    if t != [] {
      DecodedIsNulFree(t[1..]);
      if |t| > 1 {
        DecodedIsNulFree(t[2..]);
      }
    }
  }

  lemma {:induction false} DistinctCount(ms: Members, name: bytes)
    requires MembersDistinct(ms)
    ensures NameCount(ms, name) <= 1
  {
    if ms.Member? {
      DistinctCount(ms.next, name);
      CountedIsThere(ms.next, name);
    }
  }

  lemma {:induction false} PaddedItems(k: nat, last: Json)
    ensures ItemCount(Padded(k, last)) == k + 1 && ItemAt(Padded(k, last), k) == Some(last)
    ensures WfItems(Padded(k, last)) == Wf(last) && ItemsDistinct(Padded(k, last)) == DistinctNames(last)
    ensures ItemsCountable(Padded(k, last)) == Countable(last)
  {
    if k > 0 {
      PaddedItems(k - 1, last);
    }
  }

  lemma OnlyMember(name: bytes, value: Json)
    ensures var ms := Member(name, value, NoMembers);
      && HasName(ms, name) && NameCount(ms, name) == 1 && Named(ms, name) == (0, value)
      && WfMembers(ms) == (NulFree(name) && Wf(value)) && MembersDistinct(ms) == DistinctNames(value)
      && MembersCountable(ms) == Countable(value)
  {
    var ms := Member(name, value, NoMembers);
    assert NameCount(NoMembers, name) == 0;
    assert FirstNamed(ms, name) == 0 && MemberAt(ms, 0) == Some((name, value));
  }

  // What the code decodes at p, in terms of the token there
  lemma IndexAt(c: bytes, p: nat)
    requires p <= |c|
    ensures var t := TokenText(c, p);
      && DecodeIndex(c, p) == (if AcceptedIndex(t) then Some(DigitsValue(t) % SIZES) else None)
      && (StandardIndex(t).Some? ==> DecodeName(t).Some?)
  {
    hide TokenText, At, EndsToken, DecodeIndex, DigitsValue, DecodeName;
    TokenIsThere(c, p);
    var t := TokenText(c, p);
    IndexIsDecoded(c, p, t);
    if StandardIndex(t).Some? {
      DigitsAreAName(t);
    }
  }

  // A step into an array
  lemma ArrayStep(items: Items, c: bytes, p: nat)
    requires p <= |c| && ItemCount(items) <= SIZE_MAX && DecodeIndex(c, p).Some?
    requires ItemAt(items, DecodeIndex(c, p).value).Some?
    ensures var t := TokenText(c, p);
      if StandardIndex(t).Some? && StandardIndex(t).value <= SIZE_MAX then
        StandardIndex(t) == Some(DecodeIndex(c, p).value) && DecodeName(t).Some?
      else IsBadIndex(t)
  {
    hide TokenText, DecodeIndex, DigitsValue, DecodeName, StandardIndex, AcceptedIndex;
    IndexAt(c, p);
    IndexIs(c, p);
    ItemInRange(items, DecodeIndex(c, p).value);
  }

  lemma {:induction false} GotOverBadStep(j: Json, here: Path, c: bytes, p: nat)
    requires Wf(j) && Countable(j) && DistinctNames(j) && NulFree(c) && p <= |c| && Get(j, here, c, p, true).Some?
    ensures IsPassable(c, p) && (Regular(j, c, p) || HasBadStep(c, p))
    decreases |c| - p
  {
    hide TokenText, StandardIndex, DecodeIndex, DecodeName, FirstMatch, NulFree, TokenEnd, IsBadIndex;
    if p < |c| && c[p] == '/' {
      TokenEndFits(c, p + 1);
      var t, next := TokenText(c, p + 1), TokenEnd(c, p + 1);
      if j.Array? {
        ArrayStep(j.items, c, p + 1);
        var k := DecodeIndex(c, p + 1).value;
        ItemInRange(j.items, k);
        GotOverBadStep(ItemAt(j.items, k).value, here + [k], c, next);
      } else {
        FirstMatchIs(j.members, 0, c, p + 1);
        var name := DecodeName(t).value;
        CountedIsThere(j.members, name);
        DistinctCount(j.members, name);
        var (k, value) := Named(j.members, name);
        MemberFacts(j.members, k);
        GotOverBadStep(value, here + [k], c, next);
      }
    }
  }

  lemma {:induction false} WitnessIsGot(here: Path, c: bytes, p: nat)
    requires NulFree(c) && p <= |c| && IsPassable(c, p)
    ensures var j := Witness(c, p);
      && Wf(j) && Countable(j) && DistinctNames(j)
      && Get(j, here, c, p, true).Some? && (Regular(j, c, p) <==> !HasBadStep(c, p))
    decreases |c| - p
  {
    hide TokenText, StandardIndex, DecodeIndex, DecodeName, FirstMatch, NulFree, TokenEnd, DigitsValue, AcceptedIndex;
    if p < |c| && c[p] == '/' {
      TokenEndFits(c, p + 1);
      var t, next := TokenText(c, p + 1), TokenEnd(c, p + 1);
      var rest := Witness(c, next);
      if IsBadIndex(t) {
        var k := DigitsValue(t) % SIZES;
        IndexAt(c, p + 1);
        PaddedItems(k, rest);
        WitnessIsGot(here + [k], c, next);
      } else {
        var name := DecodeName(t).value;
        TokenIsNulFree(c, p + 1);
        OnlyMember(name, rest);
        WitnessIsGot(here + [0], c, next);
        FirstMatchIs(Member(name, rest, NoMembers), 0, c, p + 1);
      }
    }
  }

  lemma TokenIsNulFree(c: bytes, p: nat)
    requires NulFree(c) && p <= |c|
    ensures DecodeName(TokenText(c, p)).Some? ==> NulFree(DecodeName(TokenText(c, p)).value)
  {
    TokenEndFits(c, p);
    DecodedIsNulFree(TokenText(c, p));
  }

  // The same from the pointer alone: getter and standard agree on every tree with distinct names unless the code can
  // follow the pointer over a step that the standard does not have.
  lemma PointerIsStandard(c: bytes)
    requires NulFree(c)
    ensures (forall j | Wf(j) && Countable(j) && DistinctNames(j) :: Get(j, [], c, 0, true) == Evaluate(j, [], c, 0))
      <==> !(IsPassable(c, 0) && HasBadStep(c, 0))
  {
    hide Get, Evaluate, Regular, IsPassable, HasBadStep, Wf, Countable, DistinctNames, NulFree;
    forall j | Wf(j) && Countable(j) && DistinctNames(j) && Get(j, [], c, 0, true) != Evaluate(j, [], c, 0)
      ensures IsPassable(c, 0) && HasBadStep(c, 0)
    {
      GetIsStandard(j, c);
      GotOverBadStep(j, [], c, 0);
    }
    if IsPassable(c, 0) && HasBadStep(c, 0) {
      WitnessIsGot([], c, 0);
      GetIsStandard(Witness(c, 0), c);
    }
  }

  // The pointer `/` gets the first item of an array, where the standard has no index.
  lemma NoIndexGetsTheFirst(head: Json)
    ensures var j := Array(Item(head, NoItems));
      Get(j, [], ['/'], 0, true) == Some([0]) && Evaluate(j, [], ['/'], 0) == None
  {
    var c: bytes := ['/'];
    assert TokenText(c, 1) == [] && TokenEnd(c, 1) == 1;
    assert DecodeIndex(c, 1) == Some(0);
    assert [] + [0] == [0];
  }
}
