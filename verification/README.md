# Journaling block-translation storage

A Dafny model of LibHac's `JournalStorage`, the storage facade under the
save-data file system. The facade is a logical byte space cut into blocks of
`BlockSize` bytes. Each virtual block is stored in the physical block of the
base storage that the journal map names. The model covers:

- **the journal header**: a 32-byte little-endian record (ASCII magic, u32
  version, i64 total size, journal size and block size) decoded from the
  header storage (`JournalHeaders`);
- **the journal map entry**: a `(physicalIndex, virtualIndex)` pair, and the
  table of entries indexed by virtual block number that the facade resolves
  blocks through (`JournalMaps`);
- **the facade** (`Journal.JournalStorage`): a class over a base storage.
  - The constructor decodes the header, takes the block size and the
    logical length from it, and records whether the base storage is
    released with the facade.
  - `Read` and `Write` are the source's `while` loops. Each turn handles one
    block-local segment at its translated physical offset, and the first
    failing base-storage access ends the request with that failure.
  - `Flush` forwards to the base storage. `GetSize` returns the cached
    length.
  - `FsTrim` is the source's `for` loop: it fills every block whose bit is
    set in the free-block bitmap.
- **the base storage** (`Storage.MemoryStorage`): a byte array that can be
  read, written, filled and flushed. Which accesses the device refuses is a
  map from accesses to errors. An access outside the array fails with
  `OutOfRange`.

Each loop method is proved against a specification function of the old
state in `JournalSpec` and `TrimSpec`. Those modules prove what the source
promises about the functions:

- the segments tile the request and none crosses a block boundary;
- a request's result is the outcome of its first failing access;
- a read fills exactly the completed bytes from their physical offsets;
- a write changes only the physical bytes of its completed bytes;
- reading back a successful write through an injective map returns the
  written bytes;
- a trim fills exactly the wiped free blocks, and trimming twice is trimming
  once.

`BlockMath` defines the block number, the position within a block and the
block start by linear recursion. Lemmas tie them to the `/`, `%` and `*`
that the source writes.

## Model

| member | source | states |
|---|---|---|
| Binary.LeBytes | src/LibHac/Fs/Save/JournalStorage.cs:130-133 | the n-byte little-endian encoding of x reads back as x |
| Binary.LeBytesOfUnsigned | src/LibHac/Fs/Save/JournalStorage.cs:130-133 | encoding the little-endian value of a byte string gives the string back |
| Binary.ToI64 | src/LibHac/Fs/Save/JournalStorage.cs:131-133 | a 64-bit pattern read as a `long` is non-negative exactly when the top bit is clear, and differs from the pattern by 0 or 2^64 |
| Binary.FromI64 | src/LibHac/Fs/Save/JournalStorage.cs:131-133 | the bit pattern of a `long` is below 2^64 and reads back as the same `long` |
| Binary.WrapI32 | src/LibHac/Fs/Save/JournalStorage.cs:45 | an `int` computation's value agrees with the exact value modulo 2^32, and is that value when it fits |
| Binary.WrapI64 | src/LibHac/Fs/Save/JournalStorage.cs:29 | a `long` computation's value agrees with the exact value modulo 2^64, and is that value when it fits |
| JournalHeaders.Decode | src/LibHac/Fs/Save/JournalStorage.cs:125-134 | a header is decoded exactly when the region holds 32 bytes, and its magic has four characters |
| JournalHeaders.MagicBytes | src/LibHac/Fs/Save/JournalStorage.cs:129 | an ASCII magic written as four bytes decodes back to itself |
| JournalHeaders.Encode | src/LibHac/Fs/Save/JournalStorage.cs:125-134 | a header is written as exactly the 32 bytes the reader consumes |
| JournalHeaders.Fields | src/LibHac/Fs/Save/JournalStorage.cs:129-133 | a 32-byte region is the concatenation of its fields at offsets 0, 4, 8, 16 and 24 |
| JournalHeaders.DecodeEncode | src/LibHac/Fs/Save/JournalStorage.cs:125-134 | decoding the encoding of a header gives that header |
| JournalHeaders.EncodeDecode | src/LibHac/Fs/Save/JournalStorage.cs:125-134 | every 32-byte region with an ASCII magic is the encoding of the header decoded from it |
| JournalHeaders.FromToI64 | src/LibHac/Fs/Save/JournalStorage.cs:131-133 | reading a 64-bit pattern as a `long` and writing it back gives the pattern |
| JournalHeaders.LogicalLength | src/LibHac/Fs/Save/JournalStorage.cs:29 | the logical length agrees with total size minus journal size modulo 2^64 (the wrapped difference), and is that difference whenever it fits a `long` |
| BlockMath.MultipleIsProduct | src/LibHac/Fs/Save/JournalStorage.cs:45 | k blocks of bs bytes are k * bs bytes |
| BlockMath.BlockPosition | src/LibHac/Fs/Save/JournalStorage.cs:43 | the position within a block is below the block size |
| BlockMath.BlockDecompose | src/LibHac/Fs/Save/JournalStorage.cs:42-43 | a position is its block's start plus its position within the block |
| BlockMath.BlockUnique | src/LibHac/Fs/Save/JournalStorage.cs:42-43 | that decomposition is the only one with a position below the block size |
| BlockMath.BlockNumberIsQuotient | src/LibHac/Fs/Save/JournalStorage.cs:42-43 | block number and position are `inPos / BlockSize` and `inPos % BlockSize` |
| BlockMath.SameBlock | src/LibHac/Fs/Save/JournalStorage.cs:47 | positions before the end of a block stay in it, at increasing positions |
| BlockMath.BlockBelow | src/LibHac/Fs/Save/JournalStorage.cs:42-45 | a position below count whole blocks has a block number below count |
| BlockMath.BlockMonotone | src/LibHac/Fs/Save/JournalStorage.cs:42 | block numbers grow with positions |
| BlockMath.BlockSpan | src/LibHac/Fs/Save/JournalStorage.cs:110 | exactly the positions in [i * bs, i * bs + bs) lie in block i |
| BlockMath.SegmentLength | src/LibHac/Fs/Save/JournalStorage.cs:47 | `Math.Min(remaining, BlockSize - blockPos)` is at least 1, at most the remaining bytes and the block size, stays in the block, and is either the rest of the request or the rest of the block |
| BlockMath.Segments | src/LibHac/Fs/Save/JournalStorage.cs:40-55 | a request is cut into no segments exactly when it is empty, and every segment is non-empty, at most one block and inside the request |
| BlockMath.SegmentsTile | src/LibHac/Fs/Save/JournalStorage.cs:40-55 | the segments start at the request's start, each where the previous ones end, and their lengths sum to the request length |
| BlockMath.SegmentsInOneBlock | src/LibHac/Fs/Save/JournalStorage.cs:42-47 | no segment crosses a block boundary |
| BlockMath.PhysicalOffsetIsProduct | src/LibHac/Fs/Save/JournalStorage.cs:45 | the physical offset is `physical * BlockSize + blockPos` computed exactly |
| BlockMath.PhysicalOffsetLocates | src/LibHac/Fs/Save/JournalStorage.cs:45 | the offset of a position in a non-negative physical block lies in that block, at that position |
| BlockMath.PhysicalOffsetFitsLong | src/LibHac/Fs/Save/JournalStorage.cs:45 | for every `int` block and block size the offset fits a `long` |
| BlockMath.PhysicalOffsetInjective | src/LibHac/Fs/Save/JournalStorage.cs:45 | distinct (block, position) pairs have distinct offsets |
| BlockMath.PhysicalOffsetAsWritten | src/LibHac/Fs/Save/JournalStorage.cs:45 | the offset as the C# expression computes it in `int` arithmetic equals the exact offset when no step overflows |
| BlockMath.PhysicalOffsetAsWrittenWraps | src/LibHac/Fs/Save/JournalStorage.cs:45 | physical block 0x20000 of 0x4000-byte blocks starts at 2^31, but the `int` expression gives -2^31 |
| BlockMath.BlockStartAsWritten | src/LibHac/Fs/Save/JournalStorage.cs:110 | the fill offset `i * BlockSize` in `int` arithmetic equals i * bs when it fits |
| BlockMath.BlockStartAsWrittenWraps | src/LibHac/Fs/Save/JournalStorage.cs:110 | free block 0x20000 of 0x4000-byte blocks starts at 2^31, but the `int` expression gives -2^31 |
| BlockMath.BlockStartAsWrittenHitsBlockZero | src/LibHac/Fs/Save/JournalStorage.cs:110 | free block 0x40000 of 0x4000-byte blocks starts at 2^32, but the `int` expression gives 0, the start of block 0 |
| Storage.CopiedSlice | src/LibHac/Fs/Save/JournalStorage.cs:75 | copying `source.Slice(outPos, n)` is copying n bytes of source from outPos |
| Storage.MemoryStorage.Read | src/LibHac/Fs/Save/JournalStorage.cs:49 | the base storage's read answers the access's outcome and, on success only, copies the bytes into the destination span |
| Storage.MemoryStorage.Write | src/LibHac/Fs/Save/JournalStorage.cs:75 | the base storage's write answers the access's outcome and, on success only, copies the source into the storage |
| Storage.MemoryStorage.Fill | src/LibHac/Fs/Save/JournalStorage.cs:110 | the base storage's fill answers the access's outcome and, on success only, sets the span to the value |
| JournalSpec.TranslateIsSourceOffset | src/LibHac/Fs/Save/JournalStorage.cs:42-45 | the translation of logical byte p is `GetPhysicalBlock(p / BlockSize) * BlockSize + p % BlockSize` computed exactly, with the block number inside the map's table |
| JournalSpec.TranslateInSegment | src/LibHac/Fs/Save/JournalStorage.cs:42-49 | inside one segment, consecutive logical bytes are stored at consecutive physical bytes |
| JournalSpec.TranslateDistinct | src/LibHac/Fs/Save/JournalStorage.cs:42-45 | two logical bytes share a physical byte only if their blocks share a physical block |
| JournalSpec.MapInjectiveTranslation | src/LibHac/Fs/Save/JournalStorage.cs:42-45 | if the virtual blocks a request touches map to distinct physical blocks, its bytes are stored at distinct physical bytes |
| JournalSpec.TouchedBlocksDistinct | src/LibHac/Fs/Save/JournalStorage.cs:42-45 | the same, for two given bytes of the request |
| JournalSpec.AccessesStep | src/LibHac/Fs/Save/JournalStorage.cs:40-55 | a request's first base-storage access is its first segment's, at the translated offset, and the rest are the rest of the request's |
| JournalSpec.FirstFailureIsFirst | src/LibHac/Fs/Save/JournalStorage.cs:49-50 | stopping at the first failure succeeds exactly when every access does, and otherwise answers the outcome of an access all of whose predecessors succeeded |
| JournalSpec.LoopResultIsFirstFailure | src/LibHac/Fs/Save/JournalStorage.cs:40-57 | the loop's result is the outcome of the first failing access of the request's access sequence, or `Success` |
| JournalSpec.CompletedProgress | src/LibHac/Fs/Save/JournalStorage.cs:40-57 | the loop succeeds exactly when it completes the whole request |
| JournalSpec.CompletedBound | src/LibHac/Fs/Save/JournalStorage.cs:40-55 | the loop completes at most the requested bytes |
| JournalSpec.ReadBufferSize | src/LibHac/Fs/Save/JournalStorage.cs:49 | the read loop keeps the destination's length |
| JournalSpec.ReadBufferByte | src/LibHac/Fs/Save/JournalStorage.cs:34-58 | a completed destination byte holds the base-storage byte at its translated offset, and every other destination byte is unchanged |
| JournalSpec.ReadBufferBytes | src/LibHac/Fs/Save/JournalStorage.cs:34-58 | the same, for the whole destination: the bytes read before the first failure stay copied, and the rest are untouched |
| JournalSpec.WriteBufferSize | src/LibHac/Fs/Save/JournalStorage.cs:75 | the write loop keeps the base storage's length |
| JournalSpec.TouchedInSegment | src/LibHac/Fs/Save/JournalStorage.cs:71-75 | every physical byte a segment's write covers is the translation of a logical byte of the request |
| JournalSpec.WriteBufferUntouched | src/LibHac/Fs/Save/JournalStorage.cs:60-84 | the write loop leaves every base-storage byte that no completed logical byte is stored at as it was |
| JournalSpec.WriteBufferAvoids | src/LibHac/Fs/Save/JournalStorage.cs:60-84 | a base-storage byte no logical byte of the request is stored at is unchanged |
| JournalSpec.WriteBufferFirst | src/LibHac/Fs/Save/JournalStorage.cs:71-76 | after a successful first write, a byte of the first segment stored alone holds its source byte at the end |
| JournalSpec.WriteBufferByte | src/LibHac/Fs/Save/JournalStorage.cs:60-84 | every completed logical byte stored alone holds its source byte at its physical offset after the loop |
| JournalSpec.WriteBufferBytes | src/LibHac/Fs/Save/JournalStorage.cs:60-84 | the write changes only physical bytes of its completed bytes, and under an injective translation each completed byte's physical byte holds its source byte |
| JournalSpec.WriteThenRead | src/LibHac/Fs/Save/JournalStorage.cs:34-84 | reading back a successfully written range through an injective translation returns exactly the written bytes |
| JournalSpec.ReadBackByte | src/LibHac/Fs/Save/JournalStorage.cs:34-84 | the same, for one byte |
| TrimSpec.TrimmedSize | src/LibHac/Fs/Save/JournalStorage.cs:106-111 | the trim loop keeps the base storage's length |
| TrimSpec.TrimmedByte | src/LibHac/Fs/Save/JournalStorage.cs:106-111 | after the loop has visited blocks [0, upTo), a byte holds the fill value exactly when its block is among them, is free and its fill succeeded, and its old value otherwise |
| TrimSpec.TrimmedBytes | src/LibHac/Fs/Save/JournalStorage.cs:103-111 | the trim fills exactly the bytes of the free blocks whose fill succeeds and leaves every other byte unchanged |
| TrimSpec.TrimIdempotent | src/LibHac/Fs/Save/JournalStorage.cs:103-111 | trimming twice with the same bitmap and the same device answers leaves the same bytes as trimming once |
| Journal.JournalStorage.constructor | src/LibHac/Fs/Save/JournalStorage.cs:19-32 | the facade keeps its storages and map, caches the decoded header, the block size narrowed from it and the logical length, and registers the base storage for release exactly when `leaveOpen` is false |
| Journal.JournalStorage.Read | src/LibHac/Fs/Save/JournalStorage.cs:34-58 | the read returns the loop's result (the first failing segment read, or `Success`) and leaves the destination as the read specification says |
| Journal.JournalStorage.ReadSegment | src/LibHac/Fs/Save/JournalStorage.cs:42-54 | one turn of the read loop: a failing segment read is the request's result and leaves its final destination, and a successful one leaves the rest of the request with the same result and final destination |
| Journal.JournalStorage.Write | src/LibHac/Fs/Save/JournalStorage.cs:60-84 | the write returns the loop's result (the first failing segment write, or `Success`) and leaves the base storage as the write specification says |
| Journal.JournalStorage.WriteSegment | src/LibHac/Fs/Save/JournalStorage.cs:68-80 | one turn of the write loop, in the same terms as for the read |
| Journal.JournalStorage.Locate | src/LibHac/Fs/Save/JournalStorage.cs:42-47 | the offset the source computes from `inPos / BlockSize`, `inPos % BlockSize` (both narrowed to `int`) and the mapped physical block is the specification's translation of `inPos`, and the `Math.Min` segment length is the specification's segment length; the offset is `physical * BlockSize + blockPos` computed exactly, the corrected form under Findings, not the source's 32-bit product |
| Journal.JournalStorage.Flush | src/LibHac/Fs/Save/JournalStorage.cs:86-89 | flushing returns the base storage's flush result unchanged |
| Journal.JournalStorage.GetSize | src/LibHac/Fs/Save/JournalStorage.cs:91-95 | the size query always succeeds, touches no storage, and returns total size minus journal size whenever 0 <= journal <= total |
| Journal.JournalStorage.FsTrim | src/LibHac/Fs/Save/JournalStorage.cs:100-114 | the trim loop leaves the base storage as the trim specification says: the free blocks whose fill succeeds hold the fill value, and every other byte is unchanged |

## Left out

- The journal map's construction from the header bytes at 0x20..0x30 and the map parameters (`JournalStorage.cs:25-26`) is not modelled. `JournalMap` is not part of this model, so the map (its entry table and block counts) is a constructor parameter.
- `Map.FsTrim()` (`:113`) and the duplex bitmap (`:103-104`) are not part of this model. The free-block bitmap is a `seq<bool>` parameter of `FsTrim` whose length must be the map's journal plus main-data block count. The fill value is a byte parameter.
- `GetBaseStorage` and `GetHeaderStorage` (`:97-98`) only wrap a storage as read-only, so they are not modelled.
- Streams, `BinaryReader` and `Slice` are left out. The header storage is its byte contents. A region shorter than 32 bytes decodes to `None`, and the constructor requires a decodable header, since the source's reader throws there.
- The magic and the version are read (`:129-130`) and never compared with anything, so a header with any magic decodes; the model does the same.
- The constructor does not check the block size or the sizes. Since the code has no error path, the constructor requires a block size in (0, 2^31), so the `(int)` narrowing at `:28` keeps the value. The logical length is computed with `long` wrap-around, so no total-versus-journal requirement is needed.
- Journal.JournalStorage.Read: the `(int)` narrowing of the block number (`:42`, `:68`) is not written out. Read and Write require that the map's table has at most 2^31 entries, so the narrowed value is the block number itself.
- Journal.JournalStorage.Read: the argument checks of the storage base class are not modelled. Unmapped blocks make the (not shown) map lookup throw. Read and Write therefore require the request to lie inside the blocks the map resolves, at a non-negative offset.
- The base storage is modelled with three simplifications:
  - its device answers are a fixed finite map from accesses to errors, so a device whose answers change over time is not modelled;
  - a failing access is assumed to change nothing, so a torn partial write is not modelled;
  - it answers every access outside its bytes with `OutOfRange`.
- Disposal is reduced to the list of storages released with the facade. Concurrency and the media's latency are out of scope.
- Journal.JournalStorage.Locate, Journal.JournalStorage.Read, Journal.JournalStorage.Write and Journal.JournalStorage.FsTrim compute physical offsets and fill offsets exactly (64-bit), the corrected form recorded under Findings, not the source's 32-bit `int` products (`:45`, `:71`, `:110`). They therefore differ from the source once an offset reaches 2^31; the as-written values are modelled separately by `BlockMath.PhysicalOffsetAsWritten` and `BlockMath.BlockStartAsWritten`.

## Findings

| source | as written | input that shows it | evidently intended | confidence | as-written member | corrected member |
|---|---|---|---|---|---|---|
| src/LibHac/Fs/Save/JournalStorage.cs:45, :71 | `Map.GetPhysicalBlock(blockNum) * BlockSize + blockPos` multiplies two `int`s and adds an `int` in 32-bit arithmetic, then widens the result to `long` | physical block 0x20000 with 0x4000-byte blocks: the offset should be 2^31 but the expression gives -2^31 | the offset computed in 64-bit arithmetic, as the `long` it is stored in suggests | not executed | BlockMath.PhysicalOffsetAsWrittenWraps | BlockMath.PhysicalOffsetFitsLong |
| src/LibHac/Fs/Save/JournalStorage.cs:110 | `i * BlockSize` is computed in 32-bit `int` arithmetic before it is passed to the `long` offset of `Fill` | free block 0x40000 with 0x4000-byte blocks: the fill should start at 2^32 but starts at 0, so it wipes block 0, which may be in use | the block start in 64-bit arithmetic | not executed | BlockMath.BlockStartAsWrittenHitsBlockZero | BlockMath.BlockSpan |
