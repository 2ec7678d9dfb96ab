/**
 * The journaling storage facade: a logical byte space split into blocks of
 * `blockSize` bytes, each virtual block stored in the physical block of the
 * base storage that the journal map names. Reads and writes walk the
 * request one block segment at a time; a trim fills every free block with
 * a fill value.
 */
module Journal {
  import opened Binary
  import opened Results
  import opened BlockMath
  import opened Storage
  import opened JournalMaps
  import opened JournalHeaders
  import opened JournalSpec
  import opened TrimSpec

  class JournalStorage {
    const baseStorage: MemoryStorage
    const headerStorage: seq<byte>
    const journalMap: JournalMap
    const header: JournalHeader
    const blockSize: i32
    const length: i64
    /** The storages released together with this one. */
    var toDispose: seq<MemoryStorage>

    /** The header has a usable block size, and the cached fields agree with it. */
    predicate Valid() {
      && blockSize as int == header.blockSize as int
      && ValidBlockSize(blockSize)
      && length == LogicalLength(header)
    }

    /**
     * Decodes the header from the first bytes of `headerBytes`, takes the
     * block size and the logical length from it, and registers the base
     * storage for release unless `leaveOpen` is set.
     */
    constructor (baseStorage: MemoryStorage, headerBytes: seq<byte>, journalMap: JournalMap, leaveOpen: bool)
      requires Decode(headerBytes).Some?
      requires ValidBlockSize(Decode(headerBytes).value.blockSize as int)
      ensures Valid()
      ensures this.baseStorage == baseStorage && this.headerStorage == headerBytes && this.journalMap == journalMap
      ensures header == Decode(headerBytes).value && blockSize as int == header.blockSize as int
      ensures length == LogicalLength(header)
      ensures toDispose == if leaveOpen then [] else [baseStorage]
    {
      this.baseStorage := baseStorage;
      this.headerStorage := headerBytes;
      var h := Decode(headerBytes).value;
      this.header := h;
      this.journalMap := journalMap;
      this.blockSize := h.blockSize as i32;
      this.length := WrapI64(h.totalSize - h.journalSize);
      this.toDispose := if leaveOpen then [] else [baseStorage];
    }

    /**
     * Reads `destination.Length` logical bytes at `offset`: each segment is
     * read from its physical offset, and the first failing read ends the
     * request with that failure.
     */
    method Read(offset: int, destination: array<byte>) returns (r: Result)
      requires destination != baseStorage.data
      requires MappedRange(journalMap.entries, blockSize, offset, destination.Length)
      requires |journalMap.entries| <= 0x8000_0000
      modifies destination
      ensures r == LoopResult(ReadOp, baseStorage.faults, baseStorage.data.Length, journalMap.entries, blockSize,
                              offset, destination.Length)
      ensures destination[..] == ReadBuffer(baseStorage.data[..], baseStorage.faults, journalMap.entries, blockSize,
                                            offset, old(destination[..]), 0, destination.Length)
    {
      ghost var result := LoopResult(ReadOp, baseStorage.faults, baseStorage.data.Length, journalMap.entries,
                                     blockSize, offset, destination.Length);
      ghost var final := ReadBuffer(baseStorage.data[..], baseStorage.faults, journalMap.entries, blockSize,
                                    offset, destination[..], 0, destination.Length);
      var inPos := offset;
      var outPos := 0;
      var remaining := destination.Length;
      while remaining > 0
        invariant inPos == offset + outPos && outPos + remaining == destination.Length
        invariant MappedRange(journalMap.entries, blockSize, inPos, remaining)
        invariant LoopResult(ReadOp, baseStorage.faults, baseStorage.data.Length, journalMap.entries, blockSize,
                             inPos, remaining) == result
        invariant ReadBuffer(baseStorage.data[..], baseStorage.faults, journalMap.entries, blockSize,
                             inPos, destination[..], outPos, remaining) == final
        decreases remaining
      {
        var bytesToRead;
        r, bytesToRead := ReadSegment(inPos, destination, outPos, remaining, result, final);
        if r.Failure? {
          return;
        }
        outPos := outPos + bytesToRead;
        inPos := inPos + bytesToRead;
        remaining := remaining - bytesToRead;
      }
      r := Success;
    }

    /**
     * One turn of the read loop: the segment at `inPos` is read into
     * `destination` at `outPos`. A failure is the outcome `result` of the
     * whole request and leaves the buffer `final`; otherwise the rest of
     * the request still ends with them.
     */
    method ReadSegment(inPos: int, destination: array<byte>, outPos: nat, remaining: nat,
                       ghost result: Result, ghost final: seq<byte>)
      returns (r: Result, count: int)
      requires destination != baseStorage.data
      requires MappedRange(journalMap.entries, blockSize, inPos, remaining) && 0 < remaining
      requires |journalMap.entries| <= 0x8000_0000
      requires outPos + remaining <= destination.Length
      requires LoopResult(ReadOp, baseStorage.faults, baseStorage.data.Length, journalMap.entries, blockSize,
                          inPos, remaining) == result
      requires ReadBuffer(baseStorage.data[..], baseStorage.faults, journalMap.entries, blockSize,
                          inPos, destination[..], outPos, remaining) == final
      modifies destination
      ensures count == SegmentLength(inPos, remaining, blockSize) && 0 < count <= remaining
      ensures r.Failure? ==> r == result && destination[..] == final
      ensures r.Success? ==>
        && MappedRange(journalMap.entries, blockSize, inPos + count, remaining - count)
        && LoopResult(ReadOp, baseStorage.faults, baseStorage.data.Length, journalMap.entries, blockSize,
                      inPos + count, remaining - count) == result
        && ReadBuffer(baseStorage.data[..], baseStorage.faults, journalMap.entries, blockSize,
                      inPos + count, destination[..], outPos + count, remaining - count) == final
    {
      var physicalOffset;
      physicalOffset, count := Locate(inPos, remaining);
      r := baseStorage.Read(physicalOffset, destination, outPos, count);
    }

    /**
     * Writes `source` at logical `offset`: each segment is written at its
     * physical offset, and the first failing write ends the request with
     * that failure.
     */
    method Write(offset: int, source: seq<byte>) returns (r: Result)
      requires MappedRange(journalMap.entries, blockSize, offset, |source|)
      requires |journalMap.entries| <= 0x8000_0000
      modifies baseStorage.data
      ensures r == LoopResult(WriteOp, baseStorage.faults, baseStorage.data.Length, journalMap.entries, blockSize,
                              offset, |source|)
      ensures baseStorage.data[..] == WriteBuffer(old(baseStorage.data[..]), baseStorage.faults, journalMap.entries,
                                                  blockSize, offset, source, 0, |source|)
    {
      ghost var result := LoopResult(WriteOp, baseStorage.faults, baseStorage.data.Length, journalMap.entries,
                                     blockSize, offset, |source|);
      ghost var final := WriteBuffer(baseStorage.data[..], baseStorage.faults, journalMap.entries, blockSize,
                                     offset, source, 0, |source|);
      var inPos := offset;
      var outPos := 0;
      var remaining := |source|;
      while remaining > 0
        invariant inPos == offset + outPos && outPos + remaining == |source|
        invariant MappedRange(journalMap.entries, blockSize, inPos, remaining)
        invariant LoopResult(WriteOp, baseStorage.faults, baseStorage.data.Length, journalMap.entries, blockSize,
                             inPos, remaining) == result
        invariant WriteBuffer(baseStorage.data[..], baseStorage.faults, journalMap.entries, blockSize,
                              inPos, source, outPos, remaining) == final
        decreases remaining
      {
        var bytesToWrite;
        r, bytesToWrite := WriteSegment(inPos, source, outPos, remaining, result, final);
        if r.Failure? {
          return;
        }
        outPos := outPos + bytesToWrite;
        inPos := inPos + bytesToWrite;
        remaining := remaining - bytesToWrite;
      }
      r := Success;
    }

    /**
     * One turn of the write loop: `source` at `outPos` is written to the
     * segment at `inPos`. A failure is the outcome `result` of the whole
     * request and leaves the base storage `final`; otherwise the rest of the
     * request still ends with them.
     */
    method WriteSegment(inPos: int, source: seq<byte>, outPos: nat, remaining: nat,
                        ghost result: Result, ghost final: seq<byte>)
      returns (r: Result, count: int)
      requires MappedRange(journalMap.entries, blockSize, inPos, remaining) && 0 < remaining
      requires |journalMap.entries| <= 0x8000_0000
      requires outPos + remaining <= |source|
      requires LoopResult(WriteOp, baseStorage.faults, baseStorage.data.Length, journalMap.entries, blockSize,
                          inPos, remaining) == result
      requires WriteBuffer(baseStorage.data[..], baseStorage.faults, journalMap.entries, blockSize,
                           inPos, source, outPos, remaining) == final
      modifies baseStorage.data
      ensures count == SegmentLength(inPos, remaining, blockSize) && 0 < count <= remaining
      ensures r.Failure? ==> r == result && baseStorage.data[..] == final
      ensures r.Success? ==>
        && MappedRange(journalMap.entries, blockSize, inPos + count, remaining - count)
        && LoopResult(WriteOp, baseStorage.faults, baseStorage.data.Length, journalMap.entries, blockSize,
                      inPos + count, remaining - count) == result
        && WriteBuffer(baseStorage.data[..], baseStorage.faults, journalMap.entries, blockSize,
                       inPos + count, source, outPos + count, remaining - count) == final
    {
      var physicalOffset;
      physicalOffset, count := Locate(inPos, remaining);
      r := baseStorage.Write(physicalOffset, source[outPos..outPos + count]);
      if r.Success? {
        CopiedSlice(old(baseStorage.data[..]), physicalOffset, source, outPos, count);
      }
    }

    /**
     * One step of the read and write loops: the physical offset of logical
     * byte `inPos` and how many of the `remaining` bytes stay in its block.
     */
    method Locate(inPos: int, remaining: int) returns (physicalOffset: int, count: int)
      requires MappedRange(journalMap.entries, blockSize, inPos, remaining) && 0 < remaining
      requires |journalMap.entries| <= 0x8000_0000
      ensures physicalOffset == Translate(journalMap.entries, blockSize, inPos)
      ensures count == SegmentLength(inPos, remaining, blockSize)
    {
      BlockNumberIsQuotient(inPos, blockSize as int);
      BlockBelow(inPos, blockSize as int, |journalMap.entries|);
      var blockNum: i32 := inPos / blockSize as int;
      var blockPos: i32 := inPos % blockSize as int;
      var physical := GetPhysicalBlock(journalMap.entries, blockNum);
      PhysicalOffsetIsProduct(physical, blockSize, blockPos);
      physicalOffset := physical as int * blockSize as int + blockPos;
      count := if remaining < blockSize as int - blockPos then remaining else blockSize as int - blockPos;
    }

    /** Flushing is the base storage's flush. */
    method Flush() returns (r: Result)
      ensures r == Answer(baseStorage.faults, Access.Flush)
    {
      r := baseStorage.Flush();
    }

    /** The logical size is the header's total size less its journal size. */
    method GetSize() returns (r: Result, size: i64)
      requires Valid()
      ensures r == Success && size == LogicalLength(header)
      ensures 0 <= header.journalSize <= header.totalSize ==> size == header.totalSize - header.journalSize
    {
      size := length;
      r := Success;
    }

    /**
     * Fills every physical block whose bit is set in the free-block bitmap
     * `free` with `fillValue`, ignoring what the base storage answers.
     */
    method FsTrim(free: seq<bool>, fillValue: byte)
      requires Valid()
      requires |free| == journalMap.journalBlockCount as int + journalMap.mainDataBlockCount as int
      modifies baseStorage.data
      ensures baseStorage.data[..] == TrimmedUpTo(old(baseStorage.data[..]), baseStorage.faults, free, blockSize,
                                                  fillValue, |free|)
    {
      for i := 0 to |free|
        invariant baseStorage.data[..] == TrimmedUpTo(old(baseStorage.data[..]), baseStorage.faults, free, blockSize,
                                                      fillValue, i)
      {
        if !free[i] {
          continue;
        }
        MultipleIsProduct(i, blockSize as int);
        var rc := baseStorage.Fill(fillValue, i * blockSize as int, blockSize as int);
      }
    }
  }
}
