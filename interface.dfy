/** The three capability contracts of the storage adapters (readable, writable,
    seekable), stated as predicates over what a call did. Every adapter method that
    implements a capability states the matching predicate in its postcondition.
    The seekable capability (Seek, GetSize) has no predicate of its own: it is
    implemented once, by the MemoryStorage class, and the reader contract below
    deliberately mentions no cursor. */
module Interface {

  /** std::byte */
  type byte = bv8

  /** IDataReader::Read(vector&, count): the output holds exactly the bytes read,
      `r` is their number, and that is never more than was asked for. */
  ghost predicate ReadsAtMost(count: nat, outData: seq<byte>, r: nat)
  {
    r == |outData| && r <= count
  }

  /** IDataReader::Read(span): the span keeps its length (nothing is allocated or
      resized), at most its length is read, and only its first `r` bytes change. */
  ghost predicate FillsSpanFront(before: seq<byte>, after: seq<byte>, r: nat)
  {
    |after| == |before| && r <= |before| && after[r..] == before[r..]
  }

  /** IDataWriter::Write: a call that succeeds has stored the entire payload at `at`;
      a write that cannot be completed entirely must fail instead, so a partial write
      is never a success. The interface promises nothing about the medium after a
      failure, nor that the medium keeps its length (a writer may extend it); the
      memory writer's own contract adds both for its fixed-size buffer. */
  ghost predicate WritesWholePayload(ok: bool, at: nat, data: seq<byte>, after: seq<byte>)
  {
    ok ==> at + |data| <= |after| && after[at .. at + |data|] == data
  }
}
