/** The memory-backed storage family: a cursor over a caller-owned, fixed-size byte
    buffer (MemoryStorage), the reading and writing capabilities attached to it
    (MemoryReader, MemoryWriter) and the reader-writer that attaches both to a single
    storage (MemoryReaderWriter).

    The first half of the module is the specification: `Storage` is the abstract
    value of a MemoryStorage (the buffer's bytes and the cursor), and the functions
    below say what Read and Write do to it. The classes in the second half are
    proved against these functions. */
module Memory {
  import opened Interface

  datatype Option<T> = None | Some(value: T)

  /** The abstract value of a MemoryStorage: the bytes of the borrowed buffer and
      the cursor, in bytes from the start of the buffer. */
  datatype Storage = Storage(bytes: seq<byte>, position: nat)
  {
    /** The cursor is inside the buffer or just past its last byte. */
    predicate InBounds()
    {
      position <= |bytes|
    }
  }

  /** How many bytes a read of `count` bytes delivers from a buffer of `size` bytes
      with the cursor at `position`: `count` when that many remain, otherwise all
      that remain. */
  function ReadCount(size: nat, position: nat, count: nat): (r: nat)
    requires position <= size
    ensures r <= count && position + r <= size
    ensures r == count || position + r == size
  {
    if count <= size - position then count else size - position
  }

  /** The bytes a read of `count` bytes returns: the window starting at the cursor. */
  function ReadResult(s: Storage, count: nat): (data: seq<byte>)
    requires s.InBounds()
    ensures |data| == ReadCount(|s.bytes|, s.position, count)
    ensures forall i :: 0 <= i < |data| ==> data[i] == s.bytes[s.position + i]
  {
    s.bytes[s.position .. s.position + ReadCount(|s.bytes|, s.position, count)]
  }

  /** The storage after a read of `count` bytes: same bytes, cursor past what was read. */
  function AfterRead(s: Storage, count: nat): (t: Storage)
    requires s.InBounds()
    ensures t.bytes == s.bytes && t.position == s.position + |ReadResult(s, count)|
    ensures t.InBounds()
  {
    s.(position := s.position + ReadCount(|s.bytes|, s.position, count))
  }

  /** `bytes` with the window at `at` replaced by `data`. */
  function Splice(bytes: seq<byte>, at: nat, data: seq<byte>): (r: seq<byte>)
    requires at + |data| <= |bytes|
    ensures |r| == |bytes|
    ensures forall i :: at <= i < at + |data| ==> r[i] == data[i - at]
    ensures forall i :: 0 <= i < |bytes| && !(at <= i < at + |data|) ==> r[i] == bytes[i]
  {
    bytes[..at] + data + bytes[at + |data|..]
  }

  /** The storage after writing `data`, or None when the payload does not fit in what
      is left of the buffer (the source throws there). */
  function AfterWrite(s: Storage, data: seq<byte>): (r: Option<Storage>)
    requires s.InBounds()
    ensures r.Some? <==> |data| <= |s.bytes| - s.position
    ensures r.Some? ==> r.value.InBounds() && |r.value.bytes| == |s.bytes|
    ensures r.Some? ==> r.value.position == s.position + |data|
  {
    if |data| > |s.bytes| - s.position then None
    else Some(Storage(Splice(s.bytes, s.position, data), s.position + |data|))
  }

  /** A successful write followed by a seek back and a read of as many bytes returns
      the payload, and leaves the storage as the write left it. */
  lemma WriteThenReadBack(s: Storage, data: seq<byte>)
    requires s.InBounds() && AfterWrite(s, data).Some?
    ensures var back := AfterWrite(s, data).value.(position := s.position);
            ReadResult(back, |data|) == data && AfterRead(back, |data|) == AfterWrite(s, data).value
  {
  }

  /** Reading at the end of the buffer delivers nothing and does not move the cursor. */
  lemma ReadAtEnd(s: Storage, count: nat)
    requires s.position == |s.bytes|
    ensures ReadResult(s, count) == [] && AfterRead(s, count) == s
  {
  }

  /** Two reads in a row deliver the same bytes, and leave the cursor at the same
      place, as one read of the combined count. */
  lemma ConsecutiveReads(s: Storage, a: nat, b: nat)
    requires s.InBounds()
    ensures ReadResult(s, a) + ReadResult(AfterRead(s, a), b) == ReadResult(s, a + b)
    ensures AfterRead(AfterRead(s, a), b) == AfterRead(s, a + b)
  {
  }

  /** Writing `d1 + d2` succeeds exactly when writing `d1` and then `d2` both succeed,
      and then both leave the same storage. When `d1` fits and `d1 + d2` does not,
      the combined write fails (and `MemoryWriter.Write` then changes nothing), whereas
      writing `d1` alone has stored `d1` at the cursor. */
  lemma ConsecutiveWrites(s: Storage, d1: seq<byte>, d2: seq<byte>)
    requires s.InBounds()
    ensures AfterWrite(s, d1 + d2).Some? <==>
            AfterWrite(s, d1).Some? && AfterWrite(AfterWrite(s, d1).value, d2).Some?
    ensures AfterWrite(s, d1 + d2).Some? ==>
            AfterWrite(s, d1 + d2) == AfterWrite(AfterWrite(s, d1).value, d2)
    ensures AfterWrite(s, d1).Some? && AfterWrite(s, d1 + d2).None? ==>
            AfterWrite(s, d1).value.bytes[s.position .. s.position + |d1|] == d1
  {
    if AfterWrite(s, d1 + d2).Some? {
      var w1 := AfterWrite(s, d1).value;
      var w := AfterWrite(s, d1 + d2).value;
      var w2 := AfterWrite(w1, d2).value;
      assert |w.bytes| == |w2.bytes|;
      forall i | 0 <= i < |w.bytes| ensures w.bytes[i] == w2.bytes[i] {
        if s.position <= i < s.position + |d1| {
          assert w.bytes[s.position + (i - s.position)] == (d1 + d2)[i - s.position];
        } else if s.position + |d1| <= i < s.position + |d1| + |d2| {
          assert w.bytes[s.position + (i - s.position)] == (d1 + d2)[i - s.position];
          assert w2.bytes[w1.position + (i - w1.position)] == d2[i - w1.position];
        }
      }
      assert w.bytes == w2.bytes;
    }
  }

  /** One more than the largest value of size_t. */
  const SIZE_T_MODULUS: nat := 0x1_0000_0000_0000_0000

  /** `buffer.size() - position` as the source computes it, in size_t: the guards of
      both Reads and of Write. */
  function RoomAsWritten(size: nat, position: nat): (r: nat)
    requires size < SIZE_T_MODULUS && position < SIZE_T_MODULUS
    ensures r < SIZE_T_MODULUS
  {
    (size - position) % SIZE_T_MODULUS
  }

  /** With the cursor inside the buffer the size_t subtraction is exact, so the
      guards compute what `ReadCount` and `AfterWrite` use. */
  lemma RoomExactInBounds(size: nat, position: nat)
    requires position <= size < SIZE_T_MODULUS
    ensures RoomAsWritten(size, position) == size - position
  {
  }

  /** After a seek past the end the subtraction wraps around: the room appears to be
      2^64 - (position - size) bytes, at least one, although none is left. So a read
      of one byte is granted one byte and a one-byte write passes the overflow guard;
      both then copy at index `position`, outside the buffer. This is why Read and
      Write require the cursor to be inside the buffer. */
  lemma RoomWrapsPastEnd(size: nat, position: nat)
    requires size < position < SIZE_T_MODULUS
    ensures RoomAsWritten(size, position) == SIZE_T_MODULUS - (position - size)
    ensures RoomAsWritten(size, position) >= 1
  {
  }

  /** A MemoryStorage: a non-owning view of a caller's buffer plus the one cursor. */
  class MemoryStorage {
    /** The borrowed buffer; never reallocated or resized. */
    const buffer: array<byte>
    var position: nat

    ghost function Model(): Storage
      reads this, buffer
    {
      Storage(buffer[..], position)
    }

    /** Binds to the caller's buffer itself (no copy) with the cursor at 0. */
    constructor (source: array<byte>)
      ensures buffer == source && position == 0
    {
      buffer := source;
      position := 0;
    }

    /** Sets the cursor to exactly `newPosition`, with no bounds check. */
    method Seek(newPosition: nat)
      modifies this`position
      ensures position == newPosition
      ensures buffer[..] == old(buffer[..])
    {
      position := newPosition;
    }

    /** The length of the buffer; no operation changes it. */
    method GetSize() returns (size: nat)
      ensures size == buffer.Length && size == |Model().bytes|
    {
      size := buffer.Length;
    }
  }

  /** The reading capability over one MemoryStorage. */
  class MemoryReader {
    const storage: MemoryStorage

    /** A reader over a fresh storage bound to `source`. */
    constructor (source: array<byte>)
      ensures fresh(storage) && storage.buffer == source && storage.position == 0
    {
      storage := new MemoryStorage(source);
    }

    /** A reader attached to an existing storage, sharing its cursor. */
    constructor Sharing(storage: MemoryStorage)
      ensures this.storage == storage
    {
      this.storage := storage;
    }

    /** Read(vector&, count): returns the bytes read and their number, at most
        `count`, and advances the cursor past them. */
    method Read(count: nat) returns (outData: seq<byte>, r: nat)
      requires storage.position <= storage.buffer.Length
      modifies storage`position
      ensures outData == ReadResult(old(storage.Model()), count)
      ensures storage.Model() == AfterRead(old(storage.Model()), count)
      ensures ReadsAtMost(count, outData, r)
    {
      var position := storage.position;
      r := ReadCount(storage.buffer.Length, position, count);
      outData := storage.buffer[position .. position + r];
      storage.position := position + r;
    }

    /** Read(span): fills the front of the span `out[lo..hi]` with as many bytes as
        fit and remain, leaves everything else in `out` alone, and advances the
        cursor past what was read. */
    method ReadSpan(out: array<byte>, lo: nat, hi: nat) returns (r: nat)
      requires lo <= hi <= out.Length
      requires out != storage.buffer
      requires storage.position <= storage.buffer.Length
      modifies storage`position, out
      ensures out[..] == Splice(old(out[..]), lo, ReadResult(old(storage.Model()), hi - lo))
      ensures storage.Model() == AfterRead(old(storage.Model()), hi - lo)
      ensures r == |ReadResult(old(storage.Model()), hi - lo)|
      ensures FillsSpanFront(old(out[lo..hi]), out[lo..hi], r)
    {
      var position := storage.position;
      r := ReadCount(storage.buffer.Length, position, hi - lo);
      var i := 0;
      while i < r
        invariant 0 <= i <= r
        invariant forall k :: lo <= k < lo + i ==> out[k] == storage.buffer[position + (k - lo)]
        invariant forall k :: 0 <= k < out.Length && !(lo <= k < lo + i) ==> out[k] == old(out[k])
      {
        out[lo + i] := storage.buffer[position + i];
        i := i + 1;
      }
      storage.position := position + r;
      ghost var data := ReadResult(old(storage.Model()), hi - lo);
      assert out[..] == Splice(old(out[..]), lo, data);
      assert out[lo..hi][r..] == old(out[lo..hi])[r..];
    }
  }

  /** The writing capability over one MemoryStorage. */
  class MemoryWriter {
    const storage: MemoryStorage

    /** A writer over a fresh storage bound to `source`. */
    constructor (source: array<byte>)
      ensures fresh(storage) && storage.buffer == source && storage.position == 0
    {
      storage := new MemoryStorage(source);
    }

    /** A writer attached to an existing storage, sharing its cursor. */
    constructor Sharing(storage: MemoryStorage)
      ensures this.storage == storage
    {
      this.storage := storage;
    }

    /** Write(span): when `data` fits in what is left of the buffer, copies it in place
        at the cursor and advances the cursor past it; otherwise fails (`ok` false,
        the source's exception) and changes nothing. */
    method Write(data: seq<byte>) returns (ok: bool)
      requires storage.position <= storage.buffer.Length
      modifies storage`position, storage.buffer
      ensures AfterWrite(old(storage.Model()), data) == if ok then Some(storage.Model()) else None
      ensures !ok ==> storage.Model() == old(storage.Model())
      ensures WritesWholePayload(ok, old(storage.position), data, storage.buffer[..])
    {
      var position := storage.position;
      if |data| > storage.buffer.Length - position {
        ok := false;
        return;
      }
      var i := 0;
      while i < |data|
        invariant 0 <= i <= |data|
        invariant forall k :: position <= k < position + i ==> storage.buffer[k] == data[k - position]
        invariant forall k :: 0 <= k < storage.buffer.Length && !(position <= k < position + i) ==>
                    storage.buffer[k] == old(storage.buffer[k])
      {
        storage.buffer[position + i] := data[i];
        i := i + 1;
      }
      storage.position := position + |data|;
      ok := true;
      assert storage.buffer[..] == Splice(old(storage.buffer[..]), position, data);
      assert storage.buffer[..][position .. position + |data|] == data;
    }

    /** Write(vector): forwards to Write with the same bytes. */
    method WriteVector(data: seq<byte>) returns (ok: bool)
      requires storage.position <= storage.buffer.Length
      modifies storage`position, storage.buffer
      ensures AfterWrite(old(storage.Model()), data) == if ok then Some(storage.Model()) else None
      ensures !ok ==> storage.Model() == old(storage.Model())
      ensures WritesWholePayload(ok, old(storage.position), data, storage.buffer[..])
    {
      ok := Write(data);
    }
  }

  /** Both capabilities over one MemoryStorage: one buffer reference and one cursor. */
  class MemoryReaderWriter {
    const storage: MemoryStorage
    const reader: MemoryReader
    const writer: MemoryWriter

    /** The reader and the writer are attached to this adapter's storage, not to
        copies of it. */
    predicate SharesOneStorage()
    {
      reader.storage == storage && writer.storage == storage
    }

    /** Creates the storage once and attaches the reader and the writer to it. */
    constructor (source: array<byte>)
      ensures SharesOneStorage()
      ensures fresh(storage) && storage.buffer == source && storage.position == 0
    {
      var shared := new MemoryStorage(source);
      storage := shared;
      reader := new MemoryReader.Sharing(shared);
      writer := new MemoryWriter.Sharing(shared);
    }

    method Read(count: nat) returns (outData: seq<byte>, r: nat)
      requires SharesOneStorage()
      requires storage.position <= storage.buffer.Length
      modifies storage`position
      ensures outData == ReadResult(old(storage.Model()), count)
      ensures storage.Model() == AfterRead(old(storage.Model()), count)
      ensures ReadsAtMost(count, outData, r)
    {
      outData, r := reader.Read(count);
    }

    method ReadSpan(out: array<byte>, lo: nat, hi: nat) returns (r: nat)
      requires SharesOneStorage()
      requires lo <= hi <= out.Length
      requires out != storage.buffer
      requires storage.position <= storage.buffer.Length
      modifies storage`position, out
      ensures out[..] == Splice(old(out[..]), lo, ReadResult(old(storage.Model()), hi - lo))
      ensures storage.Model() == AfterRead(old(storage.Model()), hi - lo)
      ensures r == |ReadResult(old(storage.Model()), hi - lo)|
      ensures FillsSpanFront(old(out[lo..hi]), out[lo..hi], r)
    {
      r := reader.ReadSpan(out, lo, hi);
    }

    method Write(data: seq<byte>) returns (ok: bool)
      requires SharesOneStorage()
      requires storage.position <= storage.buffer.Length
      modifies storage`position, storage.buffer
      ensures AfterWrite(old(storage.Model()), data) == if ok then Some(storage.Model()) else None
      ensures !ok ==> storage.Model() == old(storage.Model())
      ensures WritesWholePayload(ok, old(storage.position), data, storage.buffer[..])
    {
      ok := writer.Write(data);
    }

    method WriteVector(data: seq<byte>) returns (ok: bool)
      requires SharesOneStorage()
      requires storage.position <= storage.buffer.Length
      modifies storage`position, storage.buffer
      ensures AfterWrite(old(storage.Model()), data) == if ok then Some(storage.Model()) else None
      ensures !ok ==> storage.Model() == old(storage.Model())
      ensures WritesWholePayload(ok, old(storage.position), data, storage.buffer[..])
    {
      ok := Write(data);
    }
  }
}
