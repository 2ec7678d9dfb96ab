/**
 * Block arithmetic of the journaling storage: how a byte range is cut into
 * block-local segments, and where a block-local position lies in the base
 * storage.
 *
 * Block numbers, positions within a block and block starts are defined by
 * recursion, one block at a time, so that reasoning about them stays linear;
 * lemmas tie each one to the `*`, `/` and `%` the source writes.
 */
module BlockMath {
  import opened Binary

  // ---------------------------------------------------------------------
  // Multiples of the block size
  // ---------------------------------------------------------------------

  /** `k` blocks of `bs` bytes, counted backwards for negative `k`. */
  function Multiple(k: int, bs: int): int
    decreases if k < 0 then -k else k
  {
    if k == 0 then 0
    else if k > 0 then Multiple(k - 1, bs) + bs
    else Multiple(k + 1, bs) - bs
  }

  /** `Multiple` is the product. */
  lemma {:induction false} MultipleIsProduct(k: int, bs: int)
    ensures Multiple(k, bs) == k * bs
    decreases if k < 0 then -k else k
  {
    if k > 0 {
      MultipleIsProduct(k - 1, bs);
      assert k * bs == (k - 1) * bs + bs;
    } else if k < 0 {
      MultipleIsProduct(k + 1, bs);
      assert k * bs == (k + 1) * bs - bs;
    }
  }

  lemma MultipleStep(k: int, bs: int)
    ensures Multiple(k + 1, bs) == Multiple(k, bs) + bs
  {
  }

  lemma {:induction false} MultipleAdd(a: int, d: int, bs: int)
    ensures Multiple(a + d, bs) == Multiple(a, bs) + Multiple(d, bs)
    decreases if d < 0 then -d else d
  {
    if d > 0 {
      MultipleAdd(a, d - 1, bs);
      MultipleStep(a + d - 1, bs);
      MultipleStep(d - 1, bs);
    } else if d < 0 {
      MultipleAdd(a, d + 1, bs);
      MultipleStep(a + d, bs);
      MultipleStep(d, bs);
    }
  }

  lemma {:induction false} MultipleNonNegative(k: nat, bs: int)
    requires 0 <= bs
    ensures 0 <= Multiple(k, bs)
  {
    if k > 0 {
      MultipleNonNegative(k - 1, bs);
    }
  }

  /** More blocks take at least one more block's worth of bytes. */
  lemma MultipleOrder(a: int, b: int, bs: int)
    requires 0 <= bs
    ensures a <= b ==> Multiple(a, bs) <= Multiple(b, bs)
    ensures a < b ==> Multiple(a, bs) + bs <= Multiple(b, bs)
  {
    MultipleAdd(a, b - a, bs);
    if a < b {
      MultipleNonNegative(b - a - 1, bs);
    }
  }

  /** The only multiple strictly between `-bs` and `bs` is zero. */
  lemma MultipleSmall(d: int, bs: int)
    requires 0 < bs
    ensures -bs < Multiple(d, bs) < bs ==> d == 0
  {
    MultipleOrder(0, d, bs);
    MultipleOrder(d, 0, bs);
  }

  // ---------------------------------------------------------------------
  // Block number and position within the block
  // ---------------------------------------------------------------------

  /** The block a non-negative position lies in. */
  function BlockNumber(p: nat, bs: int): nat
    requires 0 < bs
    decreases p
  {
    if p < bs then 0 else BlockNumber(p - bs, bs) + 1
  }

  /** Where a non-negative position lies within its block. */
  function BlockPosition(p: nat, bs: int): (r: nat)
    requires 0 < bs
    ensures r < bs
    decreases p
  {
    if p < bs then p else BlockPosition(p - bs, bs)
  }

  /** A position is its block's start plus its position in the block. */
  lemma {:induction false} BlockDecompose(p: nat, bs: int)
    requires 0 < bs
    ensures p == Multiple(BlockNumber(p, bs), bs) + BlockPosition(p, bs)
    decreases p
  {
    if p >= bs {
      BlockDecompose(p - bs, bs);
      MultipleStep(BlockNumber(p - bs, bs), bs);
    }
  }

  /** Block number and position are the only such decomposition. */
  lemma {:induction false} BlockUnique(p: nat, bs: int, q: nat, r: int)
    requires 0 < bs && 0 <= r < bs && p == Multiple(q, bs) + r
    ensures BlockNumber(p, bs) == q && BlockPosition(p, bs) == r
    decreases q
  {
    if q > 0 {
      MultipleNonNegative(q - 1, bs);
      BlockUnique(p - bs, bs, q - 1, r);
    }
  }

  /** Quotient and remainder are determined by `x == q * bs + r` with `0 <= r < bs`. */
  lemma DivModUnique(x: int, bs: int, q: int, r: int)
    requires 0 < bs && 0 <= r < bs && x == q * bs + r
    ensures x / bs == q && x % bs == r
  {
    var q', r' := x / bs, x % bs;
    assert x == q' * bs + r';
    MultipleIsProduct(q' - q, bs);
    assert Multiple(q' - q, bs) == q' * bs - q * bs;
    MultipleSmall(q' - q, bs);
  }

  /**
   * For the non-negative positions the facade works with, the block number
   * and position are the quotient and remainder of the source's `/` and `%`
   * (which agree with C#'s truncating operators there).
   */
  lemma BlockNumberIsQuotient(p: nat, bs: int)
    requires 0 < bs
    ensures BlockNumber(p, bs) == p / bs && BlockPosition(p, bs) == p % bs
  {
    BlockDecompose(p, bs);
    MultipleIsProduct(BlockNumber(p, bs), bs);
    DivModUnique(p, bs, BlockNumber(p, bs), BlockPosition(p, bs));
  }

  /** Positions that stay before the end of a block share its block number. */
  lemma SameBlock(p: nat, k: int, bs: int)
    requires 0 < bs && 0 <= k < bs - BlockPosition(p, bs)
    ensures BlockNumber(p + k, bs) == BlockNumber(p, bs)
    ensures BlockPosition(p + k, bs) == BlockPosition(p, bs) + k
  {
    BlockDecompose(p, bs);
    BlockUnique(p + k, bs, BlockNumber(p, bs), BlockPosition(p, bs) + k);
  }

  /** A position below `count` whole blocks lies in one of those blocks. */
  lemma BlockBelow(p: nat, bs: int, count: int)
    requires 0 < bs && p < Multiple(count, bs)
    ensures BlockNumber(p, bs) < count
  {
    BlockDecompose(p, bs);
    MultipleOrder(count, BlockNumber(p, bs), bs);
  }

  /** Block numbers grow with positions. */
  lemma BlockMonotone(p: nat, q: nat, bs: int)
    requires 0 < bs && p <= q
    ensures BlockNumber(p, bs) <= BlockNumber(q, bs)
  {
    BlockDecompose(p, bs);
    BlockDecompose(q, bs);
    MultipleOrder(BlockNumber(q, bs), BlockNumber(p, bs), bs);
  }

  /** Exactly the positions of block `i` lie in `[i * bs, i * bs + bs)`. */
  lemma BlockSpan(i: nat, bs: int)
    requires 0 < bs
    ensures forall j: int :: 0 <= j ==>
      (Multiple(i, bs) <= j < Multiple(i, bs) + bs <==> BlockNumber(j, bs) == i)
  {
    forall j: int | 0 <= j
      ensures Multiple(i, bs) <= j < Multiple(i, bs) + bs <==> BlockNumber(j, bs) == i
    {
      BlockDecompose(j, bs);
      if Multiple(i, bs) <= j < Multiple(i, bs) + bs {
        BlockUnique(j, bs, i, j - Multiple(i, bs));
      }
    }
  }

  // ---------------------------------------------------------------------
  // Segments of a request
  // ---------------------------------------------------------------------

  /**
   * The length of the next segment: the rest of the request, cut at the end
   * of the current block. It is at least one byte, so the loop advances.
   */
  function SegmentLength(p: int, remaining: int, bs: int): (n: int)
    requires 0 <= p && 0 < bs && 0 < remaining
    ensures 1 <= n <= remaining && n <= bs
    ensures BlockPosition(p, bs) + n <= bs
    ensures n == remaining || BlockPosition(p, bs) + n == bs
  {
    if remaining < bs - BlockPosition(p, bs) then remaining else bs - BlockPosition(p, bs)
  }

  /** A block-local piece of a request: logical position and length. */
  datatype Segment = Segment(position: int, length: int)

  /** A segment of at least one byte and at most one block, inside the request `[p, p + n)`. */
  predicate WithinRequest(s: Segment, p: int, n: int, bs: int) {
    && 1 <= s.length <= bs
    && p <= s.position && s.position + s.length <= p + n
  }

  function SumLengths(segs: seq<Segment>): int
  {
    if segs == [] then 0 else segs[0].length + SumLengths(segs[1..])
  }

  /**
   * The segments a request of `n` bytes at `p` is cut into, in order: each
   * non-empty and inside the request.
   */
  function Segments(p: int, n: nat, bs: int): (segs: seq<Segment>)
    requires 0 <= p && 0 < bs
    decreases n
    ensures segs == [] <==> n == 0
    ensures forall i :: 0 <= i < |segs| ==> WithinRequest(segs[i], p, n, bs)
  {
    if n == 0 then []
    else
      var len := SegmentLength(p, n, bs);
      var rest := Segments(p + len, n - len, bs);
      assert forall i :: 1 <= i < |rest| + 1 == |[Segment(p, len)] + rest| ==>
        ([Segment(p, len)] + rest)[i] == rest[i - 1];
      [Segment(p, len)] + rest
  }

  /**
   * The segments tile the request: the first starts at `p`, each starts
   * where the ones before it end, and together they are `n` bytes long.
   */
  lemma {:induction false} SegmentsTile(p: int, n: nat, bs: int)
    requires 0 <= p && 0 < bs
    ensures var segs := Segments(p, n, bs);
      && SumLengths(segs) == n
      && forall i :: 0 <= i < |segs| ==> segs[i].position == p + SumLengths(segs[..i])
    decreases n
  {
    if n > 0 {
      var len := SegmentLength(p, n, bs);
      var rest := Segments(p + len, n - len, bs);
      var segs := Segments(p, n, bs);
      SegmentsTile(p + len, n - len, bs);
      assert segs[1..] == rest;
      forall i | 0 < i < |segs|
        ensures segs[i].position == p + SumLengths(segs[..i])
      {
        var prefix := segs[..i];
        assert prefix[0] == Segment(p, len) && prefix[1..] == rest[..i - 1];
        assert SumLengths(prefix) == len + SumLengths(rest[..i - 1]);
        assert segs[i] == rest[i - 1];
      }
      assert segs[..0] == [];
    }
  }

  /** The first and the last byte of `s` lie in the same block. */
  predicate InOneBlock(s: Segment, bs: int)
    requires 0 < bs
  {
    0 <= s.position && 1 <= s.length
    && BlockNumber(s.position, bs) == BlockNumber(s.position + s.length - 1, bs)
  }

  /** No segment crosses a block boundary. */
  lemma {:induction false} SegmentsInOneBlock(p: int, n: nat, bs: int)
    requires 0 <= p && 0 < bs
    ensures forall s :: s in Segments(p, n, bs) ==> InOneBlock(s, bs)
    decreases n
  {
    if n > 0 {
      var len := SegmentLength(p, n, bs);
      var rest := Segments(p + len, n - len, bs);
      assert InOneBlock(Segment(p, len), bs) by {
        SameBlock(p, len - 1, bs);
      }
      SegmentsInOneBlock(p + len, n - len, bs);
      assert Segments(p, n, bs) == [Segment(p, len)] + rest;
    }
  }

  // ---------------------------------------------------------------------
  // Physical offsets
  // ---------------------------------------------------------------------

  /** Where a block-local position of physical block `physical` lies, in 64-bit arithmetic. */
  function PhysicalOffset(physical: i32, bs: i32, blockPos: int): int
  {
    Multiple(physical, bs) + blockPos
  }

  /** The offset is the source's `physical * BlockSize + blockPos`, computed without overflow. */
  lemma PhysicalOffsetIsProduct(physical: i32, bs: i32, blockPos: int)
    ensures PhysicalOffset(physical, bs, blockPos) == physical * bs + blockPos
  {
    MultipleIsProduct(physical, bs);
  }

  /** A physical offset in a non-negative block lies in that block, at its position. */
  lemma PhysicalOffsetLocates(physical: i32, bs: i32, blockPos: int)
    requires 0 <= physical && 0 < bs && 0 <= blockPos < bs
    ensures 0 <= PhysicalOffset(physical, bs, blockPos)
    ensures BlockNumber(PhysicalOffset(physical, bs, blockPos), bs) == physical
    ensures BlockPosition(PhysicalOffset(physical, bs, blockPos), bs) == blockPos
  {
    MultipleNonNegative(physical, bs);
    BlockUnique(PhysicalOffset(physical, bs, blockPos), bs, physical, blockPos);
  }

  /** Multiplication by a non-negative factor keeps order. */
  lemma MulMonotone(a: int, b: int, c: nat)
    requires a <= b
    ensures a * c <= b * c
  {
    MultipleIsProduct(a, c);
    MultipleIsProduct(b, c);
    MultipleIsProduct(b - a, c);
    MultipleAdd(a, b - a, c);
    MultipleNonNegative(b - a, c);
  }

  /**
   * The offset fits a `long` for every `int` block number and block size,
   * so computing it in 64-bit arithmetic never overflows.
   */
  lemma PhysicalOffsetFitsLong(physical: i32, bs: i32, blockPos: int)
    requires 0 < bs && 0 <= blockPos < bs
    ensures -0x8000_0000_0000_0000 <= PhysicalOffset(physical, bs, blockPos) < 0x8000_0000_0000_0000
  {
    PhysicalOffsetIsProduct(physical, bs, blockPos);
    MulMonotone(physical, 0x7FFF_FFFF, bs);
    MulMonotone(-0x8000_0000, physical, bs);
    MulMonotone(bs, 0x8000_0000, 0x8000_0000);
    MulMonotone(bs, 0x8000_0000, 0x7FFF_FFFF);
  }

  /** Distinct (block, position) pairs never share a physical offset. */
  lemma PhysicalOffsetInjective(p1: i32, q1: int, p2: i32, q2: int, bs: i32)
    requires 0 < bs && 0 <= q1 < bs && 0 <= q2 < bs
    ensures PhysicalOffset(p1, bs, q1) == PhysicalOffset(p2, bs, q2) ==> p1 == p2 && q1 == q2
  {
    MultipleAdd(p2, p1 - p2, bs);
    MultipleSmall(p1 - p2, bs);
  }

  /**
   * The same offset as the C# expression computes it: `int * int + int`
   * is evaluated in 32-bit arithmetic before it is widened to `long`.
   */
  function PhysicalOffsetAsWritten(physical: i32, bs: i32, blockPos: i32): (r: i32)
    ensures -0x8000_0000 <= physical * bs < 0x8000_0000 && -0x8000_0000 <= physical * bs + blockPos < 0x8000_0000
      ==> r == physical * bs + blockPos
  {
    WrapI32(WrapI32(physical * bs) + blockPos)
  }

  /** Physical block 131072 of 16 KiB blocks starts at 2 GiB; the 32-bit product is negative. */
  lemma PhysicalOffsetAsWrittenWraps()
    ensures PhysicalOffset(0x2_0000, 0x4000, 0) == 0x8000_0000
    ensures PhysicalOffsetAsWritten(0x2_0000, 0x4000, 0) == -0x8000_0000
  {
    PhysicalOffsetIsProduct(0x2_0000, 0x4000, 0);
  }

  /** The fill offset as the C# expression `i * BlockSize` computes it, in 32-bit arithmetic. */
  function BlockStartAsWritten(i: i32, bs: i32): (r: i32)
    ensures -0x8000_0000 <= i * bs < 0x8000_0000 ==> r == i * bs
  {
    WrapI32(i * bs)
  }

  /** Free block 131072 of 16 KiB blocks: the 32-bit start is negative, the intended one 2 GiB. */
  lemma BlockStartAsWrittenWraps()
    ensures Multiple(0x2_0000, 0x4000) == 0x8000_0000
    ensures BlockStartAsWritten(0x2_0000, 0x4000) == -0x8000_0000
  {
    MultipleIsProduct(0x2_0000, 0x4000);
  }

  /**
   * Free block 0x40000 of 16 KiB blocks starts at 4 GiB, but its 32-bit start
   * wraps to 0: the fill lands on block 0.
   */
  lemma BlockStartAsWrittenHitsBlockZero()
    ensures Multiple(0x4_0000, 0x4000) == 0x1_0000_0000
    ensures BlockStartAsWritten(0x4_0000, 0x4000) == Multiple(0, 0x4000)
  {
    MultipleIsProduct(0x4_0000, 0x4000);
  }
}
