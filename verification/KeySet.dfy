// The set of keys of one table (src/ekeyset.c).
module KeySet {
  import opened Bytes
  import opened KeyHash
  import opened Probing

  // What makes two keys the same key: a string's bytes, or a number's value.
  datatype Id = StringId(text: bytes) | NumberId(num: Double)

  function IdOf(k: Key): Id {
    if k.kind.NumberKey? then NumberId(k.num) else StringId(k.text)
  }

  predicate IsNaNKey(k: Key) {
    k.kind.NumberKey? && IsNaN(k.num)
  }

  // No two keys are the same, except that a NaN differs even from itself.
  ghost predicate Unique(c: multiset<Key>) {
    && (forall k :: c[k] > 1 ==> IsNaNKey(k))
    && (forall k, k' :: k in c && k' in c && k != k' && IdOf(k) == IdOf(k') ==> IsNaNKey(k))
  }

  function Ids(c: multiset<Key>): set<Id> {
    set k | k in c :: IdOf(k)
  }

  // A zero beside a zero of the other sign
  ghost predicate HasOtherZero(k: Key, ids: set<Id>) {
    k.kind.NumberKey? && IsZero(k.num) && exists d | NumberId(d) in ids :: IsZero(d) && d != k.num
  }

  // A key with the usual equality
  ghost predicate IsOrdinary(k: Key, ids: set<Id>) {
    Taken(k) && !IsNaNKey(k) && !HasOtherZero(k, ids)
  }

  // Keys as init_key makes them.
  ghost predicate WellMade(readNumber: NumberReader, c: multiset<Key>) {
    forall k :: k in c ==> Taken(k) && k == MakeKey(readNumber, k.kind, k.text)
  }

  // ----- Keys and identities -----

  lemma {:induction false} CopiedTwice(s: bytes)
    ensures Copied(Copied(s)) == Copied(s)
  {
    if s != [] && s[0] != '\0' {
      CopiedTwice(s[1..]);
      assert Copied(s)[1..] == Copied(s[1..]);
    }
  }

  lemma {:induction false} SameCopies(a: bytes, b: bytes)
    requires |a| == |b|
    ensures SameString(Copied(a), Copied(b)) <==> Copied(a) == Copied(b)
  {
    if a != [] {
      var x, y := Copied(a), Copied(b);
      assert a[0] == x[0] && b[0] == y[0];
      if a[0] == b[0] && a[0] != '\0' {
        SameCopies(a[1..], b[1..]);
        assert x[1..] == Copied(a[1..]) && y[1..] == Copied(b[1..]);
        assert x == [x[0]] + x[1..] && y == [y[0]] + y[1..];
      } else if a[0] == b[0] {
        assert x == y;
      }
    }
  }

  // For keys as init_key makes them, is_equal is equality of identities but for NaNs and zeros.
  lemma EqualIsSameId(readNumber: NumberReader, a: Key, b: Key)
    requires a == MakeKey(readNumber, a.kind, a.text) && b == MakeKey(readNumber, b.kind, b.text)
    requires Taken(a) && Taken(b)
    ensures IdOf(a) == IdOf(b) && !IsNaNKey(a) ==> IsEqual(a, b)
    ensures IsEqual(a, b) ==> IdOf(a) == IdOf(b) || (a.kind.NumberKey? && b.kind.NumberKey? && IsZero(a.num) && IsZero(b.num))
    ensures IdOf(a) == IdOf(b) ==> HashValue(a) == HashValue(b)
  {
    if a.kind.StringKey? && b.kind.StringKey? && |a.text| == |b.text| {
      SameCopies(a.text, b.text);
    }
  }

  lemma SameIdIsFound(readNumber: NumberReader, slots: seq<Key>, k: Key, k': Key)
    requires |slots| > 0 && Reachable(slots) && WellMade(readNumber, Contents(slots))
    requires k == MakeKey(readNumber, k.kind, k.text) && Taken(k) && !IsNaNKey(k)
    requires k' in Contents(slots) && IdOf(k') == IdOf(k)
    ensures Finds(slots, k)
  {
    hide IsEqual, MakeKey, IsNaNKey, HashValue, Contents, Distance, IdOf;
    ContentsMembers(slots, k');
    var i :| 0 <= i < |slots| && slots[i] == k';
    EqualIsSameId(readNumber, k, k');
    var h := Home(k', |slots|);
    assert TakenRun(slots, h, Distance(h, i, |slots|) + 1);
    assert Taken(slots[Around(h, 0, |slots|)]);
  }

  lemma FindsIsMembership(readNumber: NumberReader, slots: seq<Key>, k: Key)
    requires |slots| > 0 && Reachable(slots) && WellMade(readNumber, Contents(slots))
    requires k == MakeKey(readNumber, k.kind, k.text)
    requires IsOrdinary(k, Ids(Contents(slots)))
    ensures Finds(slots, k) <==> IdOf(k) in Ids(Contents(slots))
  {
    hide IsEqual, MakeKey, IsNaN, HashValue, Home, Reachable, Contents;
    var c := Contents(slots);
    if Finds(slots, k) {
      var i :| 0 <= i < |slots| && IsEqual(k, slots[i]);
      EmptyNeverEquals(k, slots[i]);
      ContentsMembers(slots, slots[i]);
      EqualIsSameId(readNumber, k, slots[i]);
      assert IdOf(slots[i]) in Ids(c);
    }
    if IdOf(k) in Ids(c) {
      var k' :| k' in c && IdOf(k') == IdOf(k);
      SameIdIsFound(readNumber, slots, k, k');
    }
  }

  // What Key_Set_has_key says of every key: a NaN is never found, and a zero beside a zero of the other sign
  // is found just when its home slot is taken.
  lemma FindsExactly(readNumber: NumberReader, slots: seq<Key>, k: Key)
    requires |slots| > 0 && Reachable(slots) && WellMade(readNumber, Contents(slots))
    requires Taken(k) && k == MakeKey(readNumber, k.kind, k.text)
    ensures var ids := Ids(Contents(slots));
      Finds(slots, k) <==>
        if IsNaNKey(k) then false
        else if HasOtherZero(k, ids) then Taken(slots[Home(k, |slots|)])
        else IdOf(k) in ids
  {
    hide MakeKey, IsNaN, HashValue, Home, Reachable, Contents, SameString;
    var c := Contents(slots);
    if IsNaNKey(k) {
    } else if HasOtherZero(k, Ids(c)) {
      ZeroIsNumber(k.num);
      var d :| NumberId(d) in Ids(c) && IsZero(d) && d != k.num;
      ZeroIsNumber(d);
      var k' :| k' in c && IdOf(k') == NumberId(d);
      ContentsMembers(slots, k');
      var i :| 0 <= i < |slots| && slots[i] == k';
      assert IsEqual(k, slots[i]);
    } else {
      FindsIsMembership(readNumber, slots, k);
    }
  }

  lemma ZeroIsNumber(d: Double)
    requires IsZero(d)
    ensures !IsNaN(d)
  {
  }

  lemma EmptyNeverEquals(a: Key, b: Key)
    requires Taken(a) && IsEqual(a, b)
    ensures Taken(b)
  {
  }

  lemma WithoutOne(c: multiset<Key>, k: Key)
    requires Unique(c) && k in c && !IsNaNKey(k)
    ensures var rest := c - multiset{k};
      Unique(rest) && |rest| == |c| - 1 && Ids(c) == Ids(rest) + {IdOf(k)} && IdOf(k) !in Ids(rest)
  {
    hide IdOf, IsNaNKey;
    var rest := c - multiset{k};
    assert c[k] == 1 && forall x :: rest[x] <= c[x];
    assert forall x :: x in c ==> x == k || x in rest;
  }

  // Without NaNs, as many keys as identities
  lemma {:induction false} IdsSize(c: multiset<Key>)
    requires Unique(c) && forall k :: k in c ==> !IsNaNKey(k)
    ensures |Ids(c)| == |c|
    decreases |c|
  {
    hide Unique, IdOf, IsNaNKey;
    if c == multiset{} {
      assert Ids(c) == {};
    } else {
      hide Ids;
      var k :| k in c;
      WithoutOne(c, k);
      IdsSize(c - multiset{k});
    }
  }

  lemma HashNext(d: Double, i: nat, hash: int, power: int)
    requires i < 7 && d[i] == '\0'
    ensures HashFrom(d, i, hash, power) == HashFrom(d, i + 1, Remainder(hash - 96 * power), Remainder(power * P))
  {
    hide Remainder;
    assert Signed(d[i]) - 'a' as int + 1 == -96;
    assert hash + (-96) * power == hash - 96 * power;
  }

  lemma HashOfSevenNuls(d: Double)
    requires forall i | 0 <= i < 7 :: d[i] == '\0'
    ensures HashFrom(d, 0, 0, 1) == HashFrom(d, 7, -40364360, 512613868)
  {
    hide HashFrom;
    HashNext(d, 0, 0, 1);
    HashNext(d, 1, -96, 31);
    HashNext(d, 2, -3072, 961);
    HashNext(d, 3, -95328, 29791);
    HashNext(d, 4, -2955264, 923521);
    HashNext(d, 5, -91613280, 28629151);
    HashNext(d, 6, -840011758, 887503681);
  }

  lemma LastHash(d: Double, hash: int, power: int)
    ensures HashFrom(d, 7, hash, power) == Remainder(hash + (Signed(d[7]) - 96) * power)
  {
    var next, power' := Remainder(hash + (Signed(d[7]) - 96) * power), Remainder(power * P);
    assert HashFrom(d, 8, next, power') == next;
  }

  // Where the code falls short: 0.0 equals -0.0, but their bytes and so their hashes differ.
  lemma HashOfZeros()
    ensures HashString(ZERO) == 1896188401 && HashString(NEGATIVE_ZERO) == 1281613882
  {
    hide HashFrom;
    HashOfSevenNuls(ZERO);
    LastHash(ZERO, -40364360, 512613868);
    HashOfSevenNuls(NEGATIVE_ZERO);
    LastHash(NEGATIVE_ZERO, -40364360, 512613868);
  }

  // A table that holds 0.0 but does not find -0.0, which add_key will then add
  lemma SignedZeroIsMissed()
    ensures var zero, minus := Key(NumberKey, ['0'], ZERO), Key(NumberKey, ['-', '0'], NEGATIVE_ZERO);
      var slots := [EMPTY, zero, EMPTY, EMPTY, EMPTY];
      Reachable(slots) && IsEqual(minus, zero) && !Finds(slots, minus)
  {
    hide HashString;
    HashOfZeros();
  }

  // ----- Capacity -----

  // 5, 11, 23, ...: each resize doubles and adds one.
  function Capacity(doublings: nat): (n: nat)
    ensures n >= 5
  {
    if doublings == 0 then 5 else Capacity(doublings - 1) * 2 + 1
  }

  function Pow2(n: nat): nat {
    if n == 0 then 1 else 2 * Pow2(n - 1)
  }

  // The capacity is odd, so that 0.65 times it is never a whole number: rounding cannot matter.
  lemma {:induction false} CapacityShape(doublings: nat)
    ensures Capacity(doublings) == 6 * Pow2(doublings) - 1
    ensures forall n: nat :: 20 * n != 13 * Capacity(doublings)
  {
    if doublings > 0 {
      CapacityShape(doublings - 1);
    }
    forall n: nat
      ensures 20 * n != 13 * Capacity(doublings)
    {
      EvenIsNotOdd(10 * n, 39 * Pow2(doublings) - 7);
    }
  }

  lemma EvenIsNotOdd(a: int, b: int)
    ensures 2 * a != 2 * b + 1
  {
  }

  const TABLE_MINSIZ := 5

  class KeySet {
    const readNumber: NumberReader
    var nitems: nat
    var slots: array<Key>

    ghost var doublings: nat

    ghost predicate Consistent()
      reads this, slots
    {
      && slots.Length > 0
      && nitems == |Contents(slots[..])|
      && Reachable(slots[..])
    }

    ghost predicate Valid()
      reads this, slots
    {
      && Consistent()
      && slots.Length == Capacity(doublings)
      && 20 * nitems < 13 * slots.Length
      && Unique(Contents(slots[..]))
      && WellMade(readNumber, Contents(slots[..]))
    }

    ghost function Members(): set<Id>
      reads this, slots
    {
      Ids(Contents(slots[..]))
    }

    // Key_Set_new_with_pool
    constructor (readNumber: NumberReader)
      ensures Valid() && fresh(slots) && Contents(slots[..]) == multiset{} && this.readNumber == readNumber
    {
      this.readNumber := readNumber;
      nitems := 0;
      slots := new Key[TABLE_MINSIZ](_ => EMPTY);
      doublings := 0;
      new;
      ContentsOfEmpty(slots[..]);
    }

    // hashvalue
    static method HashOf(k: Key) returns (h: nat)
      ensures h == HashValue(k)
    {
      if k.kind == NumberKey {
        h := KeyHash.Hash(k.num);
      } else {
        h := KeyHash.Hash(k.text);
      }
    }

    // Key_Set_size
    method Size() returns (n: nat)
      requires Valid()
      ensures n == |Contents(slots[..])|
      ensures (forall k <- Contents(slots[..]) :: !IsNaNKey(k)) ==> n == |Members()|
    {
      hide Reachable, WellMade, Contents, Unique, Ids;
      if forall k <- Contents(slots[..]) :: !IsNaNKey(k) {
        IdsSize(Contents(slots[..]));
      }
      n := nitems;
    }

    // Key_Set_has_key
    method HasKey(kind: KeyType, s: bytes) returns (found: bool)
      requires Valid()
      ensures found <==> Finds(slots[..], MakeKey(readNumber, kind, s))
      ensures var k := MakeKey(readNumber, kind, s); IsOrdinary(k, Members()) ==> (found <==> IdOf(k) in Members())
    {
      hide Contents, IsEqual, MakeKey;
      var value := MakeKey(readNumber, kind, s);
      if IsOrdinary(value, Members()) {
        MadeKey(readNumber, kind, s);
        FindsIsMembership(readNumber, slots[..], value);
      }
      found := Lookup(value);
    }

    // The probing of Key_Set_has_key
    method Lookup(value: Key) returns (found: bool)
      requires slots.Length > 0
      ensures found <==> Finds(slots[..], value)
    {
      hide IsEqual, HashValue, Around, NoMatch;
      var n := slots.Length;
      ghost var s := slots[..];
      var hash := HashOf(value);
      var original := hash % n;
      if slots[original].kind == EmptyKey {
        return false;
      }
      if IsEqual(value, slots[original]) {
        assert s[original] == slots[original];
        return true;
      }
      var index := original;
      ghost var d := 0;
      NothingTaken(s, original);
      NoMatchMore(s, value, original, 0);
      while true
        invariant 0 <= d < n && index == Around(original, d, n) && NoMatch(s, value, original, d + 1)
        decreases n - d
      {
        Step(original, d, n);
        index := (index + 1) % n;
        d := d + 1;
        if IsEqual(value, slots[index]) {
          assert s[index] == slots[index];
          return true;
        }
        if index == original {
          break;
        }
        NoMatchMore(s, value, original, d);
      }
      NoMatchAtAll(s, value, original);
      found := false;
    }

    // The probing of add_key
    method Probe(p: Key) returns (index: nat, ghost steps: nat, ok: bool)
      requires slots.Length > 0
      ensures index < slots.Length
      ensures ok == exists i | 0 <= i < slots.Length :: !Taken(slots[i])
      ensures ok ==>
        var s, home := slots[..], Home(p, slots.Length);
        steps < |s| && index == Around(home, steps, |s|) && TakenRun(s, home, steps) && !Taken(s[index])
    {
      hide HashValue, Around, TakenRun, Distance;
      var n := slots.Length;
      ghost var s := slots[..];
      var hash := HashOf(p);
      var original := hash % n;
      index, steps, ok := original, 0, true;
      NothingTaken(s, original);
      if slots[index].kind != EmptyKey {
        TakenMore(s, original, 0);
        while true
          invariant 0 <= steps < n && index == Around(original, steps, n) && TakenRun(s, original, steps + 1)
          decreases n - steps
        {
          Step(original, steps, n);
          index := (index + 1) % n;
          steps := steps + 1;
          if index == original || slots[index].kind == EmptyKey {
            break;
          }
          TakenMore(s, original, steps);
        }
        if index == original {
          FullRun(s, original);
          ok := false;
        }
      }
    }

    // add_key
    method AddSlot(p: Key) returns (ok: bool)
      requires Consistent() && Taken(p)
      modifies this`nitems, slots
      ensures Consistent() && ok == (old(nitems) < slots.Length) && nitems == old(nitems) + if ok then 1 else 0
      ensures Contents(slots[..]) == old(Contents(slots[..])) + if ok then multiset{p} else multiset{}
    {
      hide Home, Contents, Reachable, Around, TakenRun;
      var index: nat;
      ghost var steps: nat;
      index, steps, ok := Probe(p);
      ghost var s := slots[..];
      ContentsSize(s);
      if ok {
        FreeSlot(s, Home(p, slots.Length), steps, p);
        slots[index] := p;
        assert slots[..] == s[index := p];
        nitems := nitems + 1;
      }
    }

    // resize
    method Resize()
      requires Valid()
      modifies this
      ensures Valid() && fresh(slots) && doublings == old(doublings) + 1 && slots.Length == 2 * old(slots.Length) + 1
      ensures Contents(slots[..]) == old(Contents(slots[..])) && nitems == old(nitems)
    {
      hide Reachable, Unique, WellMade, Contents, Consistent, Taken;
      ghost var all := slots[..];
      Counts();
      var oldSlots := slots;
      var oldLen := slots.Length;
      slots := new Key[oldLen * 2 + 1](_ => EMPTY);
      nitems := 0;
      doublings := doublings + 1;
      StartsEmpty();
      ghost var newSlots := slots;
      var i := 0;
      while i < oldLen
        invariant 0 <= i <= oldLen && oldSlots[..] == all && slots == newSlots
        invariant Consistent() && nitems <= i && Contents(slots[..]) == Contents(all[..i])
        modifies this`nitems, slots
      {
        var p := oldSlots[i];
        OneMoreSlot(all, i);
        if p.kind != EmptyKey {
          var ok := AddSlot(p);
        }
        i := i + 1;
      }
      assert all[..oldLen] == all;
      Counts();
    }

    // What the invariant says of a table of empty slots, and of the number of items
    lemma StartsEmpty()
      requires nitems == 0 && slots.Length > 0 && forall i | 0 <= i < slots.Length :: slots[i] == EMPTY
      ensures Consistent() && Contents(slots[..]) == Contents([])
    {
      ContentsOfEmpty(slots[..]);
    }

    lemma Counts()
      requires Consistent()
      ensures nitems == |Contents(slots[..])| && slots.Length > 0 && Reachable(slots[..])
    {
      hide Contents, Reachable;
    }

    // Key_Set_add_key
    method AddKey(kind: KeyType, s: bytes) returns (added: bool)
      requires Valid()
      modifies this, slots
      ensures Valid() && (slots == old(slots) || fresh(slots))
      ensures var k := MakeKey(readNumber, kind, s);
        && (added <==> kind != EmptyKey && !old(Finds(slots[..], k)))
        && Contents(slots[..]) == old(Contents(slots[..])) + if added then multiset{k} else multiset{}
      ensures var k := MakeKey(readNumber, kind, s);
        IsOrdinary(k, old(Members())) ==>
          && (added <==> IdOf(k) !in old(Members()))
          && Members() == old(Members()) + {IdOf(k)}
    {
      hide Reachable, Unique, WellMade, Finds, MakeKey, IsOrdinary, Contents, Capacity, Ids, IdOf, Taken, Consistent;
      var value := MakeKey(readNumber, kind, s);
      ghost var c := Contents(slots[..]);
      if kind == EmptyKey {
        NotOrdinary(readNumber, kind, s, Members());
        return false;
      }
      var found := HasKey(kind, s);
      MadeKey(readNumber, kind, s);
      if found {
        assert c + multiset{} == c;
        assert IsOrdinary(value, Members()) ==> Members() == Members() + {IdOf(value)};
        return false;
      }
      Counts();
      StaysUnique(readNumber, slots[..], value);
      IdsOfSum(c, value);
      if 20 * (nitems + 1) >= 13 * slots.Length {
        Resize();
        Counts();
      }
      assert 20 * (nitems + 1) < 13 * slots.Length;
      added := AddSlot(value);
      assert added;
    }

    // Key_Set_iterator: the keys that one pass will give.
    method Iterator() returns (keys: seq<Key>)
      requires Valid()
      ensures multiset(keys) == Contents(slots[..]) && |keys| == nitems
    {
      hide Reachable, Unique, MakeKey, Contents, WellMade, Taken, Capacity;
      ghost var s := slots[..];
      keys := [];
      var length := nitems;
      var i := 0;
      NoSlots(s);
      while i < slots.Length && |keys| < length
        invariant i <= slots.Length && multiset(keys) == Contents(s[..i])
      {
        var p := slots[i];
        OneMoreSlot(s, i);
        if p.kind != EmptyKey {
          MadeHere(readNumber, s, i);
          keys := keys + [MakeKey(readNumber, p.kind, p.text)];
        }
        i := i + 1;
      }
      ContentsGrow(s, i);
      assert s[..slots.Length] == s;
      assert |multiset(keys)| == |keys|;
    }
  }

  lemma IdsOfSum(c: multiset<Key>, k: Key)
    ensures Ids(c + multiset{k}) == Ids(c) + {IdOf(k)}
  {
    hide IdOf;
    assert k in c + multiset{k};
  }

  lemma NoSlots(slots: seq<Key>)
    ensures Contents(slots[..0]) == multiset{}
  {
  }

  lemma OneMoreSlot(slots: seq<Key>, i: nat)
    requires i < |slots|
    ensures Contents(slots[..i + 1]) == Contents(slots[..i]) + if slots[i].kind == EmptyKey then multiset{} else multiset{slots[i]}
    ensures Taken(slots[i]) == (slots[i].kind != EmptyKey)
  {
    ContentsSnoc(slots[..i + 1]);
    assert slots[..i + 1][..i] == slots[..i];
  }

  lemma MadeHere(readNumber: NumberReader, slots: seq<Key>, i: nat)
    requires i < |slots| && Taken(slots[i]) && WellMade(readNumber, Contents(slots))
    ensures slots[i] == MakeKey(readNumber, slots[i].kind, slots[i].text)
  {
    ContentsMembers(slots, slots[i]);
  }

  lemma NoMatchMore(slots: seq<Key>, k: Key, from: nat, steps: nat)
    requires from < |slots| && steps < |slots| && !IsEqual(k, slots[Around(from, steps, |slots|)])
    requires steps == 0 || NoMatch(slots, k, from, steps)
    ensures NoMatch(slots, k, from, steps + 1)
  {
    hide IsEqual;
  }

  lemma NothingTaken(slots: seq<Key>, from: nat)
    requires from < |slots|
    ensures TakenRun(slots, from, 0) && Around(from, 0, |slots|) == from
  {
  }

  lemma TakenMore(slots: seq<Key>, from: nat, steps: nat)
    requires from < |slots| && steps < |slots| && TakenRun(slots, from, steps)
    requires Taken(slots[Around(from, steps, |slots|)])
    ensures TakenRun(slots, from, steps + 1)
  {
  }

  // The slot that add_key takes for k
  lemma FreeSlot(slots: seq<Key>, from: nat, steps: nat, k: Key)
    requires from < |slots| && steps < |slots| && Home(k, |slots|) == from
    requires TakenRun(slots, from, steps) && !Taken(slots[Around(from, steps, |slots|)])
    requires Taken(k) && Reachable(slots)
    ensures var slots' := slots[Around(from, steps, |slots|) := k];
      Reachable(slots') && Contents(slots') == Contents(slots) + multiset{k} && |Contents(slots)| < |slots|
  {
    hide Home, Contents, Reachable, Taken, TakenRun;
    var i := Around(from, steps, |slots|);
    assert Distance(from, i, |slots|) == steps;
    InsertKeepsReachable(slots, i, k);
    ContentsUpdate(slots, i, k);
    ContentsSize(slots);
  }

  lemma MadeKey(readNumber: NumberReader, kind: KeyType, s: bytes)
    ensures var k := MakeKey(readNumber, kind, s); k == MakeKey(readNumber, k.kind, k.text) && (Taken(k) <==> kind != EmptyKey)
  {
    CopiedTwice(s);
  }

  lemma NotOrdinary(readNumber: NumberReader, kind: KeyType, s: bytes, ids: set<Id>)
    requires kind == EmptyKey
    ensures !IsOrdinary(MakeKey(readNumber, kind, s), ids)
  {
  }

  // A key that is not found can be added.
  lemma StaysUnique(readNumber: NumberReader, slots: seq<Key>, k: Key)
    requires |slots| > 0 && Reachable(slots) && Taken(k) && !Finds(slots, k)
    requires Unique(Contents(slots)) && WellMade(readNumber, Contents(slots))
    requires k == MakeKey(readNumber, k.kind, k.text)
    ensures Unique(Contents(slots) + multiset{k}) && WellMade(readNumber, Contents(slots) + multiset{k})
  {
    hide MakeKey, IsEqual, Contents, HashValue, Finds, Reachable, IsNaN;
    var c := Contents(slots);
    if !IsNaNKey(k) {
      forall k' | k' in c
        ensures IdOf(k') != IdOf(k)
      {
        if IdOf(k') == IdOf(k) {
          SameIdIsFound(readNumber, slots, k, k');
        }
      }
    }
  }

  lemma {:induction false} ContentsGrow(slots: seq<Key>, i: nat)
    requires i <= |slots|
    ensures Contents(slots[..i]) <= Contents(slots)
    ensures |Contents(slots[..i])| >= |Contents(slots)| ==> Contents(slots[..i]) == Contents(slots)
    decreases |slots| - i
  {
    if i == |slots| {
      assert slots[..i] == slots;
    } else {
      ContentsSnoc(slots[..i + 1]);
      assert slots[..i + 1][..i] == slots[..i];
      ContentsGrow(slots, i + 1);
    }
  }
}
