// Following pointers in either case mode (examples/json/cJSON_Utils.c), by decoded names and the alphabet.
module JsonPointerNames {
  import opened Bytes
  import opened JsonTree
  import opened JsonPointer
  import opened JsonPointerTheorems
  import opened JsonPointerStandard
  import opened JsonScalars
  import opened JsonNames

  // ----- One token -----

  // The name that the token stands for, if it stands for one, is the same as this.
  ghost predicate IsNamed(name: bytes, token: bytes, caseSensitive: bool) {
    DecodeName(token).Some? && SameName(name, DecodeName(token).value, caseSensitive)
  }

  ghost predicate SamePrefixed(name: bytes, b: byte, rest: Option<bytes>, caseSensitive: bool) {
    Prefixed(b, rest).Some? && SameName(name, Prefixed(b, rest).value, caseSensitive)
  }

  lemma SameByteIs(a: byte, b: byte, caseSensitive: bool)
    ensures SameByte(a, b, caseSensitive) <==> if caseSensitive then a == b else SameButForCase(a, b)
  {
    hide ToLower, SameButForCase;
    FoldsCase(a, b);
  }

  lemma SameParts(x: byte, xs: bytes, b: byte, bs: bytes, caseSensitive: bool)
    ensures SameName([x] + xs, [b] + bs, caseSensitive) <==>
      SameName([x], [b], caseSensitive) && SameName(xs, bs, caseSensitive)
  {
    hide SameButForCase;
    var s, t := [x] + xs, [b] + bs;
    assert s[0] == x && t[0] == b && s[1..] == xs && t[1..] == bs;
    if !caseSensitive && SameName(s, t, false) {
      forall i | 0 <= i < |xs|
        ensures SameButForCase(xs[i], bs[i])
      {
        assert xs[i] == s[i + 1] && bs[i] == t[i + 1];
      }
    }
  }

  lemma OneByteSame(x: byte, b: byte, caseSensitive: bool)
    ensures SameName([x], [b], caseSensitive) <==> if caseSensitive then x == b else SameButForCase(x, b)
    ensures SameByte(x, b, caseSensitive) <==> SameName([x], [b], caseSensitive)
  {
    hide SameButForCase;
    SameByteIs(x, b, caseSensitive);
    assert [x][0] == x && [b][0] == b;
  }

  // Slashes and tildes are letters of neither case.
  lemma MarksAreExact(x: byte, caseSensitive: bool)
    ensures SameName([x], ['~'], caseSensitive) <==> x == '~'
    ensures SameName([x], ['/'], caseSensitive) <==> x == '/'
  {
    OneByteSame(x, '~', caseSensitive);
    OneByteSame(x, '/', caseSensitive);
    FoldsCase(x, '~');
    FoldsCase(x, '/');
  }

  lemma NameGoesOn(name: bytes, n: nat, b: byte, rest: Option<bytes>, caseSensitive: bool)
    requires n <= |name|
    ensures SamePrefixed(name[n..], b, rest, caseSensitive) <==>
      && n < |name| && SameName([name[n]], [b], caseSensitive)
      && rest.Some? && SameName(name[n + 1..], rest.value, caseSensitive)
  {
    hide SameButForCase;
    if n < |name| && rest.Some? {
      assert name[n..] == [name[n]] + name[n + 1..];
      SameParts(name[n], name[n + 1..], b, rest.value, caseSensitive);
    }
    assert |name[n..]| == |name| - n;
  }

  lemma EmptyName(name: bytes, caseSensitive: bool)
    ensures SameName(name, [], caseSensitive) <==> name == []
  {
  }

  // In either mode compare_pointers holds if and only if the token, with its escapes decoded, is the same name.
  lemma {:induction false} MatchMeans(name: bytes, n: nat, c: bytes, p: nat, caseSensitive: bool)
    requires n <= |name| && p <= |c|
    ensures Matches(name, n, c, p, caseSensitive) <==> IsNamed(name[n..], TokenText(c, p), caseSensitive)
    decreases |c| - p
  {
    hide TokenText, TokenEnd, Prefixed, SameName, SameByte, DecodeName;
    TokenEndFits(c, p);
    assert |name[n..]| == |name| - n;
    var t := TokenText(c, p);
    DecodeNameIs(t);
    if EndsToken(c, p) {
      TokenAtEnd(c, p);
      EmptyName(name[n..], caseSensitive);
    } else {
      SkipsByte(c, p);
      assert t[0] == c[p] && t[1..] == TokenText(c, p + 1);
      if c[p] == '~' {
        EscapeInToken(c, p);
        NameGoesOn(name, n, '~', DecodeName(if |t| > 1 then t[2..] else []), caseSensitive);
        NameGoesOn(name, n, '/', DecodeName(if |t| > 1 then t[2..] else []), caseSensitive);
        if n < |name| {
          MarksAreExact(name[n], caseSensitive);
          if |t| > 1 {
            MatchMeans(name, n + 1, c, p + 2, caseSensitive);
          }
        }
      } else {
        NameGoesOn(name, n, c[p], DecodeName(t[1..]), caseSensitive);
        if n < |name| {
          OneByteSame(name[n], c[p], caseSensitive);
          MatchMeans(name, n + 1, c, p + 1, caseSensitive);
        }
      }
    }
  }

  lemma DecodeNameIs(t: bytes)
    ensures DecodeName(t) ==
      if t == [] then Some([])
      else if t[0] != '~' then Prefixed(t[0], DecodeName(t[1..]))
      else if |t| == 1 then None
      else if t[1] == '0' then Prefixed('~', DecodeName(t[2..]))
      else if t[1] == '1' then Prefixed('/', DecodeName(t[2..]))
      else None
  {
    hide Prefixed;
  }

  // ----- The member that a token names -----

  // The first member of the same name: its place and its value
  ghost function FirstSame(ms: Members, token: bytes, caseSensitive: bool): Option<(nat, Json)> {
    match ms
    case NoMembers => None
    case Member(name, value, next) =>
      if IsNamed(name, token, caseSensitive) then Some((0, value))
      else
        var later := FirstSame(next, token, caseSensitive);
        if later.None? then None else Some((1 + later.value.0, later.value.1))
  }

  lemma {:induction false} FirstMatchIsFirstSame(ms: Members, base: nat, c: bytes, p: nat, caseSensitive: bool)
    requires p <= |c|
    ensures FirstMatch(ms, base, c, p, caseSensitive) ==
      var first := FirstSame(ms, TokenText(c, p), caseSensitive);
      if first.None? then None else Some((base + first.value.0, first.value.1))
    decreases ms
  {
    hide Matches, IsNamed, TokenText;
    if ms.Member? {
      MatchMeans(ms.name, 0, c, p, caseSensitive);
      assert ms.name[0..] == ms.name;
      FirstMatchIsFirstSame(ms.next, base + 1, c, p, caseSensitive);
    }
  }

  // ----- Following a pointer -----

  // Where the pointer leads from p on: into arrays by the number of the token's digits, modulo what a size_t holds,
  // and into objects by the first member of the same name
  ghost function Follow(j: Json, here: Path, c: bytes, p: nat, caseSensitive: bool): Option<Path>
    requires p <= |c|
    decreases |c| - p
  {
    if p == |c| || c[p] != '/' then Some(here)
    else
      TokenEndFits(c, p + 1);
      var t, next := TokenText(c, p + 1), TokenEnd(c, p + 1);
      match j
      case Array(items) =>
        if !AcceptedIndex(t) then None
        else
          var k := DigitsValue(t) % 0x1_0000_0000_0000_0000;
          var child := ItemAt(items, k);
          if child.None? then None else Follow(child.value, here + [k], c, next, caseSensitive)
      case Object(members) =>
        var first := FirstSame(members, t, caseSensitive);
        if first.None? then None else Follow(first.value.1, here + [first.value.0], c, next, caseSensitive)
      case _ => None
  }

  // The getter, in either case mode, for every tree and pointer
  lemma {:induction false} GetFollows(j: Json, here: Path, c: bytes, p: nat, caseSensitive: bool)
    requires p <= |c|
    ensures Get(j, here, c, p, caseSensitive) == Follow(j, here, c, p, caseSensitive)
    decreases |c| - p
  {
    hide TokenText, DecodeIndex, FirstMatch, FirstSame, TokenEnd, DigitsValue, AcceptedIndex;
    if p < |c| && c[p] == '/' {
      TokenEndFits(c, p + 1);
      var t, next := TokenText(c, p + 1), TokenEnd(c, p + 1);
      if j.Array? {
        IndexAt(c, p + 1);
        if AcceptedIndex(t) {
          var k := DigitsValue(t) % 0x1_0000_0000_0000_0000;
          if ItemAt(j.items, k).Some? {
            GetFollows(ItemAt(j.items, k).value, here + [k], c, next, caseSensitive);
          }
        }
      } else if j.Object? {
        FirstMatchIsFirstSame(j.members, 0, c, p + 1, caseSensitive);
        var first := FirstSame(j.members, t, caseSensitive);
        if first.Some? {
          GetFollows(first.value.1, here + [first.value.0], c, next, caseSensitive);
        }
      }
    }
  }
}
