# Memory-backed storage adapters, modelled in Dafny

This project models the memory half of a small C++ I/O abstraction. Three capabilities
(reading, writing, seeking) are implemented over a caller-owned, fixed-size byte buffer:

- `MemoryStorage` holds a non-owning reference to the buffer and the single cursor
  `position`. It implements seeking: `Seek` sets the cursor without a bounds check;
  `GetSize` returns the buffer length.
- `MemoryReader` adds the reading capability. `Read(vector, count)` delivers
  `min(count, size - position)` bytes from the cursor on. `Read(span)` fills the front
  of a caller's span the same way, without allocating.
- `MemoryWriter` adds the writing capability. `Write` copies the whole payload in
  place at the cursor, or throws when it does not fit and changes nothing.
- `MemoryReaderWriter` attaches both capabilities to one storage. In the source this
  is done by virtual inheritance. The result is one buffer reference and one cursor,
  so a write followed by a seek back and a read returns what was written.

## How the model is laid out

- `interface.dfy` (module `Interface`) states the capability contracts of
  `Interface.h` as predicates over what a call did:
  - `ReadsAtMost`: the bytes actually read, never more than requested.
  - `FillsSpanFront`: the span keeps its length and only its front changes.
  - `WritesWholePayload`: a successful write has stored the whole payload; one that
    cannot be completed entirely fails. It does not promise that the medium keeps its
    length, since a writer may extend its medium. That nothing changes on failure and
    that the buffer keeps its size are the memory writer's own guarantees (its guard
    throws before the copy into a fixed buffer), stated in its contract.

  Each implementing method states the matching predicate in its `ensures`. The
  reader contract has no cursor in it. Seeking exists only on `MemoryStorage`.
- `memory.dfy` (module `Memory`) holds two things. First, the specification:
  `Storage(bytes, position)` is the abstract value of a `MemoryStorage`, and the
  functions `ReadCount`, `ReadResult`, `AfterRead`, `Splice` and `AfterWrite` say what
  each operation does to it. Lemmas relate them: write-then-read-back, reading at the
  end, consecutive reads, consecutive writes, and the size_t subtraction. Second, the
  classes. Each method is proved against those functions through `Model()`, with
  copy loops for the in-place copies.
- C++ inheritance becomes composition:
  - `MemoryReader` and `MemoryWriter` each hold a `const storage: MemoryStorage`, which
    stands for their `MemoryStorage` base.
  - `MemoryReaderWriter` creates one storage and attaches a reader and a writer to it
    with their `Sharing` constructors. This mirrors the single virtual base.
  - `SharesOneStorage()` is the one-cursor invariant.
  - The seekable operations belong to the base, so they are called as
    `adapter.storage.Seek(p)`.
- `demo.dfy` (module `Demo`) holds the client-side uses:
  - the memory scenario of `Homework.cpp`;
  - two separately built adapters over one buffer, which share bytes but not a
    cursor;
  - the reader-writer round trip;
  - seek idempotence.

The cursor past the end: `Seek` accepts any position, but `Read` and `Write` compute
`buffer.size() - position` in `size_t`. Once the cursor is past the end, that
subtraction wraps around. `RoomWrapsPastEnd` shows that both guards then let bytes
through, and the copy goes outside the buffer. The model therefore requires
`position <= buffer.Length` on every Read and Write. It does not assume a clamp there:
in the source a read past the end does not return nothing, and a write there does not
fail.

The demonstration writes six `'='` over `"binary"` only. So after the first write the
buffer holds `"======\0data\0\0\0\0"`, keeping the zero byte after position 5.
(`std::vector<std::byte>{6, std::byte{'='}}` is the count-and-value constructor,
because an `int` does not convert to `std::byte` implicitly.)

## Model

| member | source | states |
|---|---|---|
| `Interface.ReadsAtMost` | Interface.h:10-13 | the reader contract of Read(vector&, count): the output holds exactly the bytes read, their number is returned, and it is at most `count` |
| `Interface.FillsSpanFront` | Interface.h:14-16 | the reader contract of Read(span): the span keeps its length (no allocation), at most its length is read, and only its first `r` bytes change |
| `Interface.WritesWholePayload` | Interface.h:24-25 | the writer contract: a successful Write has stored the entire payload at the cursor, so a partial write is never a success; nothing is promised about the medium after a failure, nor that it keeps its length (the memory writer adds both) |
| `Memory.ReadCount` | MemoryStorage.h:36 | the count read is at most the count asked for, stays inside the buffer, and is the count asked for unless the read reaches the end of the buffer: `min(count, size - position)` |
| `Memory.ReadResult` | MemoryStorage.h:38-39 | the bytes read have length `ReadCount(...)` and byte `i` is the buffer byte at `position + i`: the window starting at the cursor |
| `Memory.AfterRead` | MemoryStorage.h:40 | a read leaves the bytes unchanged, advances the cursor by the number of bytes read, and keeps the cursor within the buffer |
| `Memory.Splice` | MemoryStorage.h:64 | the in-place copy: same length, the window at `at` holds the payload, and every byte outside the window is unchanged |
| `Memory.AfterWrite` | MemoryStorage.h:59-66 | a write succeeds if and only if the payload fits in `size - position`; on success the size is unchanged and the cursor advances by the payload length; None is the exception |
| `Memory.WriteThenReadBack` | MemoryStorage.h:69-74 | after a successful write at `p`, seeking back to `p` and reading as many bytes returns exactly the payload and ends where the write ended |
| `Memory.ReadAtEnd` | MemoryStorage.h:36-40 | a read with the cursor at the end returns no bytes, does not fail, and does not move the cursor |
| `Memory.ConsecutiveReads` | MemoryStorage.h:32-43 | reading `a` then `b` bytes returns the same bytes, and leaves the cursor at the same place, as one read of `a + b` bytes |
| `Memory.ConsecutiveWrites` | MemoryStorage.h:59-66 | writing `d1 + d2` succeeds if and only if writing `d1` and then `d2` both succeed, and then gives the same storage; when `d1` fits but `d1 + d2` does not, the combined write fails while writing `d1` alone leaves `d1` stored at the cursor |
| `Memory.RoomAsWritten` | MemoryStorage.h:62 | `buffer.size() - position` in size_t arithmetic is a size_t value; its meaning is given by the next two lemmas |
| `Memory.RoomExactInBounds` | MemoryStorage.h:36 | with the cursor inside the buffer, the size_t subtraction equals the true number of remaining bytes |
| `Memory.RoomWrapsPastEnd` | MemoryStorage.h:46 | with the cursor past the end, the subtraction wraps to `2^64 - (position - size)`, at least 1, so the read and write guards let bytes through that do not exist |
| `Memory.MemoryStorage.constructor` | MemoryStorage.h:17-20 | the storage refers to the caller's buffer itself (no copy) and the cursor starts at 0 |
| `Memory.MemoryStorage.Seek` | MemoryStorage.h:22 | the cursor becomes exactly the new position, with no bounds check, and the buffer is unchanged |
| `Memory.MemoryStorage.GetSize` | MemoryStorage.h:23 | returns the buffer length, the length of the abstract bytes; the buffer is never reallocated, so Seek, Read and Write cannot change it |
| `Memory.MemoryReader.constructor` | MemoryStorage.h:29-30 | a reader built from a buffer gets its own fresh storage over that buffer, with the cursor at 0 |
| `Memory.MemoryReader.Sharing` | MemoryStorage.h:7 | a reader attached to an existing storage uses that storage object, not a copy |
| `Memory.MemoryReader.Read` | MemoryStorage.h:32-43 | returns the window `ReadResult` and its length, at most `count` (the reader contract), advances the cursor past it, and leaves the buffer unchanged |
| `Memory.MemoryReader.ReadSpan` | MemoryStorage.h:44-50 | fills `out[lo..lo+r)` from the window, with `r = min(hi - lo, size - position)`; leaves the rest of `out` and the buffer unchanged; advances the cursor by `r` (the span-reader contract) |
| `Memory.MemoryWriter.constructor` | MemoryStorage.h:56-57 | a writer built from a buffer gets its own fresh storage over that buffer, with the cursor at 0 |
| `Memory.MemoryWriter.Sharing` | MemoryStorage.h:7 | a writer attached to an existing storage uses that storage object, not a copy |
| `Memory.MemoryWriter.Write` | MemoryStorage.h:59-66 | the new storage is `AfterWrite` of the old one. On failure buffer and cursor are unchanged. On success the payload is in place at the old cursor and every other byte is unchanged (the writer contract `WritesWholePayload`, plus the memory writer's failure frame from the guard before the copy) |
| `Memory.MemoryWriter.WriteVector` | Interface.h:27 | the vector overload has exactly the contract of the span Write on the same bytes |
| `Memory.MemoryReaderWriter.constructor` | MemoryStorage.h:69-74 | creates one storage over the caller's buffer, cursor 0, and attaches both the reader and the writer to it |
| `Memory.MemoryReaderWriter.Read` | MemoryStorage.h:32-43 | the inherited vector Read, acting on the one shared storage |
| `Memory.MemoryReaderWriter.ReadSpan` | MemoryStorage.h:44-50 | the inherited span Read, acting on the one shared storage |
| `Memory.MemoryReaderWriter.Write` | MemoryStorage.h:59-66 | the inherited Write, acting on the one shared storage |
| `Memory.MemoryReaderWriter.WriteVector` | Interface.h:27 | the vector overload of Write on the reader-writer, with the span Write's contract |
| `Demo.Repeat` | Homework.cpp:26 | `n` copies of one byte, as the payload vectors of the demonstration are built |
| `Demo.SeekTwice` | MemoryStorage.h:22 | seeking twice to `p` leaves the storage as one seek to `p` does |
| `Demo.WriteSeekRead` | Homework.cpp:32-36 | on a reader-writer, a write succeeds if and only if it fits; on success seek-back-and-read returns exactly the payload; on failure nothing changes |
| `Demo.SeparateAdapters` | Homework.cpp:19-29 | a separately built reader and writer share the buffer's bytes: the reader sees the write after seeking to 0. They have independent cursors: the writer's write leaves the reader's cursor at the end |
| `Demo.SharedRoundTrip` | Homework.cpp:32-36 | a reader-writer write at `at` changes only that window of the buffer, and the span read back from `at` receives exactly the payload |
| `Demo.MemoryScenario` | Homework.cpp:8-37 | on the 15-byte demonstration buffer the three reads return the initial bytes, then six `'='` over `"binary"`, then additionally three `'='` at 12; the cursors after the separate write are 15 (reader) and 6 (writer) |

## Left out

- The file backend (`FileStorage.h`) is not part of this model. It is a thin wrapper over `std::basic_fstream`, whose seeking, reading, `gcount` and file-size behaviour live in the C++ library.
- The console printing and the file part of the demonstration program are not modelled.
- Exceptions are not modelled as control flow. The exception of Write is the result `ok == false` (`None` in `AfterWrite`), together with a frame saying nothing changed.
- `std::vector` capacity and reallocation are not modelled. The vector Read returns the bytes as a sequence instead of resizing a caller's vector.
- The constructor overloads (span, vector, pointer plus size) all become one constructor over an `array<byte>`. The `assert(source_data)` non-null check is implied by Dafny arrays being non-null. The protected default constructor of `MemoryStorage` is not modelled.
- Virtual inheritance and dynamic dispatch are not modelled. Each capability interface is a predicate that the implementing methods state, not a type that callers hold. The C++ name hiding that makes `Write(vector)` resolve to the span `Write` is not modelled either. Both overloads share one contract anyway.
- `size_t` is modelled as `nat`. Its width matters only in the subtraction `buffer.size() - position`, which `RoomAsWritten` models. Within the model's preconditions the cursor advance cannot overflow.
- Memory.MemoryReader.ReadSpan: requires the span's array not to be the storage's own array, so any span over the storage's own buffer is excluded, including a window disjoint from the bytes read, which is well defined in the source. Reading from a buffer into itself is not modelled.
- Memory.MemoryReaderWriter.ReadSpan: excludes any span over the storage's own array, like `MemoryReader.ReadSpan`.
- Memory.MemoryWriter.Write: the payload is a sequence passed by value. A payload span that views the storage's own buffer, so that the copy may read bytes it is overwriting, is not modelled. The same holds for `WriteVector` and the reader-writer's `Write` and `WriteVector`.
- Memory.MemoryReader.Read: requires the cursor within the buffer. Past the end the source's size_t subtraction wraps and the copy reads outside the buffer (`RoomWrapsPastEnd`). That out-of-bounds behaviour is not modelled.
- Memory.MemoryReader.ReadSpan: requires the cursor within the buffer, for the same reason as `Read`.
- Memory.MemoryWriter.Write: requires the cursor within the buffer. Past the end the overflow guard passes a one-byte write that lands outside the buffer (`RoomWrapsPastEnd`). That is not modelled.
- Memory.MemoryWriter.WriteVector: requires the cursor within the buffer, like `Write`.
- Memory.MemoryReaderWriter.Read: requires the cursor within the buffer, like `MemoryReader.Read`.
- Memory.MemoryReaderWriter.ReadSpan: requires the cursor within the buffer, like `MemoryReader.ReadSpan`.
- Memory.MemoryReaderWriter.Write: requires the cursor within the buffer, like `MemoryWriter.Write`.
- Memory.MemoryReaderWriter.WriteVector: requires the cursor within the buffer, like `MemoryWriter.Write`.
