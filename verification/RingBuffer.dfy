// The ring buffer between the application and the lexer (src/ebuffer.c).
module RingBuffer {
  import opened Bytes

  // What one call of an ELTN_Reader yields: some text, and a code that is non-zero on an error.
  datatype Chunk = Chunk(text: bytes, code: int)

  // The bytes that a reader still has to give before it ends or fails. A failing call's text comes
  // too late: read_into_buffer reports the end of the stream at once.
  function Delivers(chunks: seq<Chunk>): bytes {
    if chunks == [] || chunks[0].code != 0 then []
    else chunks[0].text + Delivers(chunks[1..])
  }

  // What ELTN_Buffer_read makes available: it ignores the code of the first call, whose text is kept.
  function Taken(chunks: seq<Chunk>): bytes {
    if chunks != [] && chunks[0].code != 0 then chunks[0].text else Delivers(chunks)
  }

  predicate NeverFails(chunks: seq<Chunk>) {
    forall i | 0 <= i < |chunks| :: chunks[i].code == 0
  }

  // The application's reader: a call returns the next chunk, or no text at the end.
  class Reader {
    var chunks: seq<Chunk>

    constructor (chunks: seq<Chunk>)
      ensures this.chunks == chunks
    {
      this.chunks := chunks;
    }

    method Call() returns (text: Option<bytes>, code: int)
      modifies this
      ensures if old(chunks) == [] then text.None? && chunks == []
              else text == Some(old(chunks)[0].text) && code == old(chunks)[0].code && chunks == old(chunks)[1..]
    {
      if chunks == [] {
        return None, 0;
      }
      text, code := Some(chunks[0].text), chunks[0].code;
      chunks := chunks[1..];
    }
  }

  const INIT_BUF_SIZE := 1024

  function Wrap(i: nat, size: nat): nat
    requires i < 2 * size
  {
    if i < size then i else i - size
  }

  // The bytes from `head` up to `tail`, going round the end of the buffer.
  ghost function Ring(data: bytes, head: nat, tail: nat): bytes
    requires head < |data| && tail < |data|
  {
    if head <= tail then data[head..tail] else data[head..] + data[..tail]
  }

  // Overwriting the free cells from `tail` on with `text`, round the end if need be, appends it.
  lemma RingAppend(was: bytes, data: bytes, head: nat, tail: nat, text: bytes)
    requires head < |data| == |was| && tail < |data| && |Ring(was, head, tail)| + |text| < |data|
    requires forall i | 0 <= i < |text| :: data[Wrap(tail + i, |data|)] == text[i]
    requires forall j | 0 <= j < |data| && !(tail <= j < tail + |text|) && !(j < tail + |text| - |data|) :: data[j] == was[j]
    ensures Ring(data, head, Wrap(tail + |text|, |data|)) == Ring(was, head, tail) + text
  {
    var end := Wrap(tail + |text|, |data|);
    var r, r' := Ring(was, head, tail), Ring(data, head, end);
    forall k | 0 <= k < |r| + |text|
      ensures r'[k] == (r + text)[k]
    {
      RingAt(data, head, end, k);
      if k < |r| {
        RingAt(was, head, tail, k);
      }
    }
  }

  lemma RingAt(data: bytes, head: nat, tail: nat, k: nat)
    requires head < |data| && tail < |data| && k < |Ring(data, head, tail)|
    ensures Ring(data, head, tail)[k] == data[Wrap(head + k, |data|)]
  {
  }

  class Buffer {
    var reader: Reader?
    var buffer: array<byte>
    var head: nat
    var tail: nat
    var eof: bool

    ghost var Repr: set<object>

    ghost predicate Valid()
      reads this, Repr
      ensures Valid() ==> this in Repr
    {
      && this in Repr && buffer in Repr && (reader != null ==> reader in Repr)
      && head < buffer.Length && tail < buffer.Length
    }

    // The queue that the ring stands for.
    ghost function Contents(): bytes
      reads this, Repr
      requires Valid()
    {
      Ring(buffer[..], head, tail)
    }

    // What the reader will still add to the queue.
    ghost function Upcoming(): bytes
      reads this, reader
    {
      if eof || reader == null then [] else Delivers(reader.chunks)
    }

    ghost function Remaining(): bytes
      reads this, Repr
      requires Valid()
    {
      Contents() + Upcoming()
    }

    ghost predicate ReaderNeverFails()
      reads this, reader
    {
      reader == null || NeverFails(reader.chunks)
    }

    constructor ()
      ensures Valid() && fresh(Repr) && reader == null && !eof && Contents() == []
      ensures buffer.Length == INIT_BUF_SIZE
    {
      buffer := new byte[INIT_BUF_SIZE](_ => '\0');
      head, tail, eof, reader := 0, 0, false, null;
      Repr := {this, buffer};
    }

    // ELTN_Buffer_length
    method Length() returns (n: nat)
      requires Valid()
      ensures n == |Contents()| && n < buffer.Length
    {
      n := if head <= tail then tail - head else buffer.Length - (head - tail);
    }

    // ELTN_Buffer_set_capacity
    method SetCapacity(newcap: nat) returns (ok: bool)
      requires Valid()
      modifies this`buffer, this`head, this`tail, this`Repr
      ensures Valid() && fresh(Repr - old(Repr)) && Contents() == old(Contents())
      ensures ok <==> newcap > |old(Contents())|
      ensures if ok then fresh(buffer) && buffer.Length == newcap && head == 0 else buffer == old(buffer)
    {
      var length := Length();
      if newcap <= length {
        return false;
      }
      var newbuf := new byte[newcap](_ => '\0');
      if length > 0 {
        if head < tail {
          forall i | 0 <= i < length { newbuf[i] := buffer[head + i]; }
        } else {
          var headlen := length - tail;
          forall i | 0 <= i < length { newbuf[i] := if i < headlen then buffer[head + i] else buffer[i - headlen]; }
        }
        assert newbuf[..length] == Contents();
      }
      buffer, head, tail := newbuf, 0, length;
      Repr := Repr + {newbuf};
      ok := true;
    }

    // ELTN_Buffer_write
    method Write(text: bytes) returns (n: int)
      requires Valid()
      modifies this`buffer, this`head, this`tail, this`Repr, buffer
      ensures Valid() && fresh(Repr - old(Repr))
      ensures n == if eof then -1 else |text|
      ensures Contents() == if eof then old(Contents()) else old(Contents()) + text
    {
      var currlen := Length();
      if eof {
        return -1;
      }
      if currlen + |text| >= buffer.Length {
        var status := SetCapacity((currlen + |text|) * 2);
        if !status {
          return -1;
        }
      }
      Store(text);
      n := |text|;
    }

    // The copying half of ELTN_Buffer_write.
    method Store(text: bytes)
      requires Valid() && |Contents()| + |text| < buffer.Length
      modifies this`tail, buffer
      ensures Valid() && Contents() == old(Contents()) + text
    {
      hide Ring;
      if tail + |text| < buffer.Length {
        forall i | 0 <= i < |text| { buffer[tail + i] := text[i]; }
        RingAppend(old(buffer[..]), buffer[..], head, tail, text);
        tail := tail + |text|;
      } else {
        var headlen := buffer.Length - tail;
        var taillen := |text| - headlen;
        forall i | 0 <= i < headlen { buffer[tail + i] := text[i]; }
        forall i | 0 <= i < taillen { buffer[i] := text[headlen + i]; }
        RingAppend(old(buffer[..]), buffer[..], head, tail, text);
        tail := taillen;
      }
    }

    // ELTN_Buffer_close
    method Close()
      requires Valid()
      modifies this`eof
      ensures Valid() && eof && Contents() == old(Contents()) == Remaining()
    {
      eof := true;
    }

    // next_byte
    method NextByte(consume: bool) returns (c: Option<byte>)
      requires Valid()
      modifies this`head
      ensures Valid()
      ensures if old(Contents()) == [] then c.None? && Contents() == []
              else c == Some(old(Contents())[0]) && Contents() == if consume then old(Contents())[1..] else old(Contents())
    {
      if head == tail {
        return None;
      }
      c := Some(buffer[head]);
      if consume {
        head := head + 1;
        if head >= buffer.Length {
          head := 0;
        }
      }
    }

    // read_into_buffer
    method ReadIntoBuffer() returns (n: int)
      requires Valid() && reader != null
      modifies Repr
      ensures Valid() && reader == old(reader) && fresh(Repr - old(Repr))
      ensures old(reader.chunks) == [] ==>
        n == -1 && eof && reader.chunks == [] && Contents() == old(Contents())
      ensures old(reader.chunks) != [] ==>
        var c := old(reader.chunks)[0];
        && reader.chunks == old(reader.chunks)[1..]
        && Contents() == (if old(eof) then old(Contents()) else old(Contents()) + c.text)
        && eof == (old(eof) || c.code != 0)
        && n == if eof then -1 else |c.text|
      ensures !old(eof) ==> if n < 0 then old(Upcoming()) == [] else Remaining() == old(Remaining())
      ensures old(ReaderNeverFails()) ==> ReaderNeverFails()
    {
      ghost var contents, chunks := Contents(), reader.chunks;
      assert chunks != [] ==> contents + (chunks[0].text + Delivers(chunks[1..])) == (contents + chunks[0].text) + Delivers(chunks[1..]);
      var text, errcode := reader.Call();
      if text.None? {
        eof := true;
        return -1;
      }
      var writeresult := Write(text.value);
      if errcode != 0 {
        eof := true;
        return -1;
      }
      if writeresult < 0 {
        eof := true;
        return writeresult;
      }
      n := |text.value|;
    }

    // ELTN_Buffer_read
    method Read(source: Reader?) returns (n: int)
      requires Valid()
      modifies Repr, source
      ensures Valid()
      ensures source == null ==> n == -1 && Contents() == old(Contents()) && eof == old(eof)
      ensures reader == if source == null then old(reader) else source
      ensures fresh(Repr - old(Repr) - {source})
      ensures source != null ==> Remaining() == old(Contents()) + if old(eof) then [] else Taken(old(source.chunks))
      ensures source != null && NeverFails(old(source.chunks)) ==> ReaderNeverFails()
    {
      if source == null {
        return -1;
      }
      reader := source;
      Repr := Repr + {source};
      n := ReadIntoBuffer();
    }

    // ensure_more_bytes, which is called when the ring is empty
    method EnsureMoreBytes() returns (ok: bool)
      requires Valid() && Contents() == []
      modifies Repr
      ensures Valid() && reader == old(reader) && fresh(Repr - old(Repr))
      ensures ok <==> old(Remaining()) != []
      ensures ok ==> Remaining() == old(Remaining()) && Contents() != []
      ensures old(ReaderNeverFails()) ==> Remaining() == old(Remaining()) && ReaderNeverFails()
    {
      if eof {
        return false;
      }
      if reader == null {
        return false;
      }
      var length := Length();
      while length == 0
        invariant Valid() && reader == old(reader) && reader != null && fresh(Repr - old(Repr))
        invariant !eof && length == |Contents()| && Remaining() == old(Remaining())
        invariant old(ReaderNeverFails()) ==> ReaderNeverFails()
        decreases |reader.chunks|
      {
        var n := ReadIntoBuffer();
        if n < 0 {
          return false;
        }
        length := Length();
      }
      ok := true;
    }

    lemma EmptyRing()
      requires Valid()
      ensures Contents() == [] <==> head == tail
    {
    }

    // ELTN_Buffer_next_char: the next byte of queue and reader together, however they are divided.
    method NextChar(consume: bool) returns (c: Option<byte>)
      requires Valid()
      modifies Repr
      ensures Valid() && reader == old(reader) && fresh(Repr - old(Repr))
      ensures old(Remaining()) == [] ==> c.None?
      ensures old(Remaining()) != [] ==>
        && c == Some(old(Remaining())[0])
        && Remaining() == if consume then old(Remaining())[1..] else old(Remaining())
      ensures old(ReaderNeverFails()) ==> ReaderNeverFails() && (c.None? ==> Remaining() == [])
    {
      hide Ring;
      EmptyRing();
      if head == tail {
        var more := EnsureMoreBytes();
        if !more {
          return None;
        }
      }
      ghost var contents := Contents();
      c := NextByte(consume);
      assert contents != [] && (contents + Upcoming())[1..] == contents[1..] + Upcoming();
    }
  }

  // ----- Chunking -----

  function Texts(chunks: seq<Chunk>): bytes {
    if chunks == [] then [] else chunks[0].text + Texts(chunks[1..])
  }

  // Only the concatenation of the chunks matters, as long as no call fails.
  lemma ChunkingIsInvisible(a: seq<Chunk>, b: seq<Chunk>)
    requires NeverFails(a) && NeverFails(b)
    ensures Taken(a) == Texts(a)
    ensures Texts(a) == Texts(b) <==> Taken(a) == Taken(b)
  {
    TakenIsAll(a);
    TakenIsAll(b);
  }

  predicate AllEmpty(chunks: seq<Chunk>) {
    forall i | 0 <= i < |chunks| :: chunks[i].text == []
  }

  // From a failing call on, there is no text.
  predicate NoneLate(chunks: seq<Chunk>) {
    chunks == [] || if chunks[0].code != 0 then AllEmpty(chunks) else NoneLate(chunks[1..])
  }

  // The same, but that the first call may fail and have text.
  predicate NothingTooLate(chunks: seq<Chunk>) {
    chunks == [] || if chunks[0].code != 0 then AllEmpty(chunks[1..]) else NoneLate(chunks[1..])
  }

  // All text gets through just when none comes too late: text that a later call returns along with a non-zero
  // code is lost.
  lemma TakenIsAll(chunks: seq<Chunk>)
    ensures Taken(chunks) == Texts(chunks) <==> NothingTooLate(chunks)
    ensures NeverFails(chunks) ==> NothingTooLate(chunks)
  {
    if chunks != [] {
      var text, rest := chunks[0].text, chunks[1..];
      DeliversSome(rest);
      Cancel(text, [], Texts(rest));
      Cancel(text, Delivers(rest), Texts(rest));
      NoTexts(rest);
      assert text + [] == text;
      assert NeverFails(chunks) ==> NeverFails(rest);
    }
  }

  // The text of a second call that fails is lost.
  lemma LateTextIsLost()
    ensures var chunks := [Chunk(['a'], 0), Chunk(['b'], 1)]; Taken(chunks) == ['a'] && Texts(chunks) == ['a', 'b']
  {
    var rest := [Chunk(['b'], 1)];
    assert [Chunk(['a'], 0), Chunk(['b'], 1)][1..] == rest && rest[1..] == [];
    assert Texts(rest) == ['b'] && Delivers(rest) == [];
  }

  lemma Cancel(a: bytes, b: bytes, c: bytes)
    ensures a + b == a + c <==> b == c
  {
    assert (a + b)[|a|..] == b && (a + c)[|a|..] == c;
  }

  lemma {:induction false} NoTexts(chunks: seq<Chunk>)
    ensures Texts(chunks) == [] <==> AllEmpty(chunks)
  {
    if chunks != [] {
      NoTexts(chunks[1..]);
      assert forall k | 0 <= k < |chunks| - 1 :: chunks[1..][k] == chunks[k + 1];
    }
  }

  lemma {:induction false} DeliversSome(chunks: seq<Chunk>)
    ensures Delivers(chunks) == Texts(chunks) <==> NoneLate(chunks)
    ensures NeverFails(chunks) ==> NoneLate(chunks)
  {
    if chunks != [] {
      var rest := chunks[1..];
      DeliversSome(rest);
      NoTexts(chunks);
      Cancel(chunks[0].text, Delivers(rest), Texts(rest));
      assert NeverFails(chunks) ==> NeverFails(rest);
    }
  }
}
