/**
 * The journal map as the storage facade sees it: a table indexed by virtual
 * block number whose entries name a physical block, and the block counts of
 * the map header that size the free-block bitmap.
 */
module JournalMaps {
  import opened Binary

  /** A (physical, virtual) block index pair. */
  datatype JournalMapEntry = JournalMapEntry(physicalIndex: i32, virtualIndex: i32)

  datatype JournalMap = JournalMap(
    journalBlockCount: i32,
    mainDataBlockCount: i32,
    entries: seq<JournalMapEntry>)

  /** The physical block that virtual block `virtualBlock` is mapped to. */
  function GetPhysicalBlock(entries: seq<JournalMapEntry>, virtualBlock: int): i32
    requires 0 <= virtualBlock < |entries|
  {
    entries[virtualBlock].physicalIndex
  }

  /** No two virtual blocks in `[first, last]` share a physical block. */
  ghost predicate MapInjective(entries: seq<JournalMapEntry>, first: int, last: int) {
    forall v, w :: 0 <= first <= v < w <= last < |entries| ==>
      GetPhysicalBlock(entries, v) != GetPhysicalBlock(entries, w)
  }
}
