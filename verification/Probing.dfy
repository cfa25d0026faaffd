// Open addressing with linear probing, as src/ekeyset.c lays it out, on the slot sequence.
module Probing {
  import opened Bytes
  import opened KeyHash

  datatype KeyType = EmptyKey | StringKey | NumberKey

  // The eight bytes of a C double, least significant first, as hash_double sees them.
  type Double = b: bytes | |b| == 8 witness ['\0', '\0', '\0', '\0', '\0', '\0', '\0', '\0']

  const ZERO: Double := ['\0', '\0', '\0', '\0', '\0', '\0', '\0', '\0']
  const NEGATIVE_ZERO: Double := ['\0', '\0', '\0', '\0', '\0', '\0', '\0', '\U{80}']

  predicate IsNaN(d: Double) {
    d[7] as int % 0x80 == 0x7F && d[6] as int >= 0xF0 && (d[6] as int > 0xF0 || exists i | 0 <= i < 6 :: d[i] != '\0')
  }

  predicate IsZero(d: Double) {
    d == ZERO || d == NEGATIVE_ZERO
  }

  // The == of C on doubles
  predicate DoubleEquals(a: Double, b: Double) {
    !IsNaN(a) && !IsNaN(b) && (a == b || (IsZero(a) && IsZero(b)))
  }

  datatype Key = Key(kind: KeyType, text: bytes, num: Double)

  const EMPTY := Key(EmptyKey, [], ZERO)

  // strncpy: the bytes before the first NUL, and NULs from there on
  function Copied(s: bytes): (r: bytes)
    ensures |r| == |s|
  {
    if s == [] then []
    else if s[0] == '\0' then seq(|s|, _ => '\0')
    else [s[0]] + Copied(s[1..])
  }

  // strtod is a call into the C library.
  type NumberReader = bytes -> Double

  // init_key
  function MakeKey(readNumber: NumberReader, kind: KeyType, s: bytes): Key {
    Key(kind, Copied(s), if kind.NumberKey? then readNumber(Copied(s)) else ZERO)
  }

  // strncmp(a, b, n) == 0 for two texts of n bytes
  predicate SameString(a: bytes, b: bytes)
    requires |a| == |b|
  {
    a == [] || (a[0] == b[0] && (a[0] == '\0' || SameString(a[1..], b[1..])))
  }

  // is_equal
  predicate IsEqual(a: Key, b: Key) {
    a.kind == b.kind &&
    match a.kind
    case NumberKey => DoubleEquals(a.num, b.num)
    case StringKey => |a.text| == |b.text| && SameString(a.text, b.text)
    case EmptyKey => false
  }

  // hashvalue
  function HashValue(k: Key): nat {
    if k.kind.NumberKey? then HashString(k.num) else HashString(k.text)
  }

  function Home(k: Key, size: nat): (h: nat)
    requires size > 0
    ensures h < size
  {
    HashValue(k) % size
  }

  // ----- The set that the slots stand for -----

  predicate Taken(k: Key) {
    !k.kind.EmptyKey?
  }

  function Content(k: Key): multiset<Key> {
    if Taken(k) then multiset{k} else multiset{}
  }

  function Contents(slots: seq<Key>): multiset<Key> {
    if slots == [] then multiset{} else Contents(slots[..|slots| - 1]) + Content(slots[|slots| - 1])
  }

  lemma ContentsSnoc(slots: seq<Key>)
    requires slots != []
    ensures Contents(slots) == Contents(slots[..|slots| - 1]) + Content(slots[|slots| - 1])
  {
  }

  lemma {:induction false} ContentsMembers(slots: seq<Key>, k: Key)
    ensures k in Contents(slots) <==> Taken(k) && k in slots
  {
    if slots != [] {
      var front, last := slots[..|slots| - 1], slots[|slots| - 1];
      ContentsSnoc(slots);
      ContentsMembers(front, k);
      assert slots == front + [last];
    }
  }

  lemma {:induction false} ContentsSize(slots: seq<Key>)
    ensures |Contents(slots)| <= |slots|
    ensures |Contents(slots)| < |slots| <==> exists i | 0 <= i < |slots| :: !Taken(slots[i])
  {
    hide Taken;
    if slots != [] {
      var n := |slots| - 1;
      ContentsSnoc(slots);
      ContentsSize(slots[..n]);
      assert forall i | 0 <= i < n :: slots[..n][i] == slots[i];
      assert |Content(slots[n])| == if Taken(slots[n]) then 1 else 0;
    }
  }

  lemma {:induction false} ContentsUpdate(slots: seq<Key>, i: nat, k: Key)
    requires i < |slots| && !Taken(slots[i]) && Taken(k)
    ensures Contents(slots[i := k]) == Contents(slots) + multiset{k}
  {
    hide Contents, Taken;
    var n := |slots| - 1;
    var slots', front := slots[i := k], slots[..n];
    ContentsSnoc(slots);
    ContentsSnoc(slots');
    if i == n {
      assert slots'[..n] == front;
    } else {
      assert slots'[..n] == front[i := k];
      ContentsUpdate(front, i, k);
    }
  }

  lemma {:induction false} ContentsOfEmpty(slots: seq<Key>)
    requires forall i | 0 <= i < |slots| :: !Taken(slots[i])
    ensures Contents(slots) == multiset{}
  {
    if slots != [] {
      ContentsOfEmpty(slots[..|slots| - 1]);
    }
  }

  // ----- Probing -----

  // `steps` slots on from `from`, going round.
  function Around(from: nat, steps: nat, size: nat): (i: nat)
    requires from < size && steps <= size
    ensures i < size
  {
    if from + steps < size then from + steps else from + steps - size
  }

  function Distance(from: nat, to: nat, size: nat): (d: nat)
    requires from < size && to < size
    ensures d < size && Around(from, d, size) == to
  {
    if to >= from then to - from else to + size - from
  }

  // The first `steps` slots from `from` on are taken.
  predicate TakenRun(slots: seq<Key>, from: nat, steps: nat)
    requires from < |slots| && steps <= |slots|
  {
    forall d | 0 <= d < steps :: Taken(slots[Around(from, d, |slots|)])
  }

  // Every key sits at the end of a run of taken slots that starts at its home.
  ghost predicate Reachable(slots: seq<Key>) {
    forall i | 0 <= i < |slots| && Taken(slots[i]) ::
      TakenRun(slots, Home(slots[i], |slots|), Distance(Home(slots[i], |slots|), i, |slots|) + 1)
  }

  lemma FullRun(slots: seq<Key>, from: nat)
    requires from < |slots| && TakenRun(slots, from, |slots|)
    ensures forall i | 0 <= i < |slots| :: Taken(slots[i])
  {
    forall i | 0 <= i < |slots|
      ensures Taken(slots[i])
    {
      var d := Distance(from, i, |slots|);
      assert Taken(slots[Around(from, d, |slots|)]);
    }
  }

  lemma InsertKeepsReachable(slots: seq<Key>, i: nat, k: Key)
    requires i < |slots| && !Taken(slots[i]) && Taken(k) && Reachable(slots)
    requires TakenRun(slots, Home(k, |slots|), Distance(Home(k, |slots|), i, |slots|))
    ensures Reachable(slots[i := k])
  {
    hide Home;
    var slots' := slots[i := k];
    forall j | 0 <= j < |slots'| && Taken(slots'[j])
      ensures TakenRun(slots', Home(slots'[j], |slots'|), Distance(Home(slots'[j], |slots'|), j, |slots'|) + 1)
    {
      var h := Home(slots'[j], |slots|);
      var d := Distance(h, j, |slots|);
      if j == i {
        assert TakenRun(slots, h, d);
      } else {
        assert TakenRun(slots, h, d + 1);
      }
    }
  }

  lemma Step(from: nat, steps: nat, size: nat)
    requires from < size && steps < size
    ensures (Around(from, steps, size) + 1) % size == Around(from, steps + 1, size)
    ensures Around(from, steps + 1, size) == from <==> steps + 1 == size
  {
    var i := Around(from, steps, size);
    if i + 1 == size {
      assert (i + 1) % size == 0;
    } else {
      assert (i + 1) % size == i + 1;
    }
  }

  // None of the first `steps` slots from `from` on equals k.
  predicate NoMatch(slots: seq<Key>, k: Key, from: nat, steps: nat)
    requires from < |slots| && steps <= |slots|
  {
    forall d | 0 <= d < steps :: !IsEqual(k, slots[Around(from, d, |slots|)])
  }

  lemma NoMatchAtAll(slots: seq<Key>, k: Key, from: nat)
    requires from < |slots| && NoMatch(slots, k, from, |slots|)
    ensures !Finds(slots, k)
  {
    hide IsEqual, Home, Taken;
    forall i | 0 <= i < |slots|
      ensures !IsEqual(k, slots[i])
    {
      var d := Distance(from, i, |slots|);
      assert !IsEqual(k, slots[Around(from, d, |slots|)]);
    }
  }

  // Key_Set_has_key looks at every slot, but only once the key's home is taken.
  ghost predicate Finds(slots: seq<Key>, k: Key)
    requires |slots| > 0
  {
    Taken(slots[Home(k, |slots|)]) && exists i | 0 <= i < |slots| :: IsEqual(k, slots[i])
  }
}
