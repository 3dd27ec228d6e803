/** Client-side uses of the memory adapters: the memory part of the demonstration
    program, and the shared-cursor round trip of the reader-writer. */
module Demo {
  import opened Interface
  import opened Memory

  /** The ASCII code of '='. */
  const EQUALS: byte := 61

  /** "binary\0data\0\0\0\0", the demonstration buffer's initial 15 bytes. */
  const INITIAL: seq<byte> := [98, 105, 110, 97, 114, 121, 0, 100, 97, 116, 97, 0, 0, 0, 0]

  /** `n` copies of `b`, as std::vector<std::byte>(n, b) holds. */
  function Repeat(b: byte, n: nat): (r: seq<byte>)
    ensures |r| == n && forall i :: 0 <= i < n ==> r[i] == b
  {
    seq(n, _ => b)
  }

  /** Helper of `MemoryScenario`: the buffer after the separate writer's six '=' at 0. */
  lemma AfterFirstWrite()
    ensures Splice(INITIAL, 0, Repeat(EQUALS, 6)) == Repeat(EQUALS, 6) + INITIAL[6..]
  {
  }

  /** Helper of `MemoryScenario`: the buffer, and the read buffer, after the
      reader-writer's three '=' at 12. */
  lemma AfterSecondWrite()
    ensures Splice(Repeat(EQUALS, 6) + INITIAL[6..], 12, Repeat(EQUALS, 3))
            == Repeat(EQUALS, 6) + INITIAL[6..12] + Repeat(EQUALS, 3)
  {
  }

  /** A reader-writer writes, seeks back and reads as many bytes: it reads exactly what
      it wrote, because reads and writes move the one cursor over the one buffer. */
  method WriteSeekRead(rw: MemoryReaderWriter, data: seq<byte>) returns (ok: bool, back: seq<byte>)
    requires rw.SharesOneStorage()
    requires rw.storage.position <= rw.storage.buffer.Length
    modifies rw.storage`position, rw.storage.buffer
    ensures ok <==> |data| <= old(rw.storage.buffer.Length - rw.storage.position)
    ensures ok ==> back == data && rw.storage.position == old(rw.storage.position) + |data|
    ensures !ok ==> rw.storage.Model() == old(rw.storage.Model())
  {
    var start := rw.storage.position;
    ghost var before := rw.storage.Model();
    ok := rw.Write(data);
    if !ok {
      back := [];
      return;
    }
    rw.storage.Seek(start);
    WriteThenReadBack(before, data);
    var r;
    back, r := rw.Read(|data|);
  }

  /** Seeking twice to `p` leaves the storage as seeking once does. */
  method SeekTwice(st: MemoryStorage, p: nat)
    modifies st`position
    ensures st.Model() == old(st.Model()).(position := p)
  {
    st.Seek(p);
    ghost var once := st.Model();
    st.Seek(p);
    assert st.Model() == once;
  }

  /** A reader and a writer built separately over one buffer share its bytes but not
      a cursor: the reader reads the whole buffer, the writer writes `data` at 0
      without moving the reader's cursor, and the reader, sought back to 0, reads
      the buffer with the writer's bytes in it. */
  method SeparateAdapters(buffer: array<byte>, data: seq<byte>)
    returns (first: seq<byte>, second: seq<byte>, readerCursor: nat, writerCursor: nat)
    requires |data| <= buffer.Length
    modifies buffer
    ensures first == old(buffer[..])
    ensures buffer[..] == Splice(old(buffer[..]), 0, data)
    ensures readerCursor == buffer.Length && writerCursor == |data|
    ensures second == buffer[..]
  {
    var reader := new MemoryReader(buffer);
    var size := reader.storage.GetSize();
    var n;
    first, n := reader.Read(size);

    var writer := new MemoryWriter(buffer);
    var ok := writer.WriteVector(data);
    readerCursor, writerCursor := reader.storage.position, writer.storage.position;

    reader.storage.Seek(0);
    second, n := reader.Read(size);
  }

  /** A reader-writer over `buffer` seeks to `at`, writes `data`, seeks back to `at`
      and reads into the span `readBuf[at .. at + |data|]`: the span receives
      exactly `data`, and the rest of `readBuf` is untouched. */
  method SharedRoundTrip(buffer: array<byte>, readBuf: array<byte>, at: nat, data: seq<byte>)
    requires at + |data| <= buffer.Length && at + |data| <= readBuf.Length
    requires readBuf != buffer
    modifies buffer, readBuf
    ensures buffer[..] == Splice(old(buffer[..]), at, data)
    ensures readBuf[..] == Splice(old(readBuf[..]), at, data)
  {
    var readwrite := new MemoryReaderWriter(buffer);
    readwrite.storage.Seek(at);
    var ok := readwrite.WriteVector(data);
    readwrite.storage.Seek(at);
    assert ReadResult(readwrite.storage.Model(), |data|) == data;
    var n := readwrite.ReadSpan(readBuf, at, at + |data|);
  }

  /** The memory scenario of the demonstration program on its 15-byte buffer:
      separate reader and writer with six '=' written at 0, then a reader-writer
      with three '=' at 12 read back into the tail of the read buffer. The vector
      the reads fill is modelled by returned sequences, and the span over its tail
      by an array holding its contents. */
  method MemoryScenario() returns (first: seq<byte>, second: seq<byte>, third: seq<byte>,
                                   readerCursor: nat, writerCursor: nat)
    ensures first == INITIAL
    ensures readerCursor == 15 && writerCursor == 6
    ensures second == Repeat(EQUALS, 6) + INITIAL[6..]
    ensures third == Repeat(EQUALS, 6) + INITIAL[6..12] + Repeat(EQUALS, 3)
  {
    var memoryBuffer := new byte[15](i requires 0 <= i < 15 => INITIAL[i]);
    assert memoryBuffer[..] == INITIAL;
    first, second, readerCursor, writerCursor := SeparateAdapters(memoryBuffer, Repeat(EQUALS, 6));
    AfterFirstWrite();

    var readBuf := new byte[|second|](i requires 0 <= i < |second| => second[i]);
    assert readBuf[..] == second;
    SharedRoundTrip(memoryBuffer, readBuf, 12, Repeat(EQUALS, 3));
    AfterSecondWrite();
    third := readBuf[..];
  }
}
