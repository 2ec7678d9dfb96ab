/**
 * The 32-byte journal header: a 4-byte ASCII magic, a u32 version and three
 * signed 64-bit sizes, all little-endian, read field after field from offset 0.
 */
module JournalHeaders {
  import opened Binary
  import opened Results

  datatype JournalHeader = JournalHeader(
    magic: string,
    version: u32,
    totalSize: i64,
    journalSize: i64,
    blockSize: i64)

  /** Bytes the reader consumes: 4 + 4 + 8 + 8 + 8. */
  const HeaderSize: nat := 0x20

  const MagicOffset: nat := 0x00
  const VersionOffset: nat := 0x04
  const TotalSizeOffset: nat := 0x08
  const JournalSizeOffset: nat := 0x10
  const BlockSizeOffset: nat := 0x18

  /** ASCII decoding: a byte above 0x7F has no ASCII character and becomes '?'. */
  function AsciiChar(b: byte): (c: char)
    ensures b < 0x80 ==> c as int == b
    ensures b >= 0x80 ==> c == '?'
  {
    if b < 0x80 then b as char else '?'
  }

  function ReadAscii(s: seq<byte>): (r: string)
    ensures |r| == |s|
    ensures forall i :: 0 <= i < |s| ==> r[i] == AsciiChar(s[i])
  {
    seq(|s|, i requires 0 <= i < |s| => AsciiChar(s[i]))
  }

  function ReadU32(s: seq<byte>, at: nat): u32
    requires at + 4 <= |s|
  {
    Pow256Widths();
    Unsigned(s[at..at + 4])
  }

  function ReadI64(s: seq<byte>, at: nat): i64
    requires at + 8 <= |s|
  {
    Pow256Widths();
    ToI64(Unsigned(s[at..at + 8]))
  }

  /**
   * Decodes the header from the start of the header storage. A region shorter
   * than 32 bytes makes the reader run past the end: no header (`None`).
   * Nothing is validated: not the magic, not the sizes.
   */
  function Decode(s: seq<byte>): (r: Option<JournalHeader>)
    ensures r.Some? <==> |s| >= HeaderSize
    ensures r.Some? ==> |r.value.magic| == 4
  {
    if |s| < HeaderSize then None
    else Some(JournalHeader(
      ReadAscii(s[MagicOffset..MagicOffset + 4]),
      ReadU32(s, VersionOffset),
      ReadI64(s, TotalSizeOffset),
      ReadI64(s, JournalSizeOffset),
      ReadI64(s, BlockSizeOffset)))
  }

  /** A header whose magic is four ASCII characters, so that it can be written out. */
  predicate Encodable(h: JournalHeader) {
    |h.magic| == 4 && forall i :: 0 <= i < 4 ==> h.magic[i] as int < 0x80
  }

  /** The magic as ASCII bytes. */
  function MagicBytes(magic: string): (s: seq<byte>)
    requires |magic| == 4 && forall i :: 0 <= i < 4 ==> magic[i] as int < 0x80
    ensures |s| == 4
    ensures ReadAscii(s) == magic
  {
    seq(4, i requires 0 <= i < 4 => magic[i] as int as byte)
  }

  /** The 32 bytes a header is stored as. */
  function Encode(h: JournalHeader): (s: seq<byte>)
    requires Encodable(h)
    ensures |s| == HeaderSize
  {
    MagicBytes(h.magic)
      + LeBytes(h.version, 4)
      + LeBytes(FromI64(h.totalSize), 8)
      + LeBytes(FromI64(h.journalSize), 8)
      + LeBytes(FromI64(h.blockSize), 8)
  }

  /** The five fields of a 32-byte string, at their offsets. */
  lemma Fields(s: seq<byte>, a: seq<byte>, b: seq<byte>, c: seq<byte>, d: seq<byte>, e: seq<byte>)
    requires |a| == 4 && |b| == 4 && |c| == 8 && |d| == 8 && |e| == 8
    ensures s == a + b + c + d + e <==>
      |s| == HeaderSize && s[0..4] == a && s[4..8] == b && s[8..16] == c && s[16..24] == d && s[24..32] == e
  {
    if |s| == HeaderSize && s[0..4] == a && s[4..8] == b && s[8..16] == c && s[16..24] == d && s[24..32] == e {
      assert s == s[0..4] + s[4..8] + s[8..16] + s[16..24] + s[24..32];
    }
  }

  /** Reading back what `Encode` wrote gives the original fields. */
  lemma DecodeEncode(h: JournalHeader)
    requires Encodable(h)
    ensures Decode(Encode(h)) == Some(h)
  {
    var s := Encode(h);
    Fields(s, MagicBytes(h.magic), LeBytes(h.version, 4), LeBytes(FromI64(h.totalSize), 8),
           LeBytes(FromI64(h.journalSize), 8), LeBytes(FromI64(h.blockSize), 8));
  }

  /** The two's complement reading of a 64-bit pattern written back gives the pattern. */
  lemma FromToI64(u: nat)
    requires u < TwoTo64
    ensures FromI64(ToI64(u)) == u
  {
  }

  /**
   * Every 32-byte region whose magic bytes are ASCII is the encoding of the
   * header decoded from it: decoding loses nothing.
   */
  lemma EncodeDecode(s: seq<byte>)
    requires |s| >= HeaderSize
    requires forall i :: 0 <= i < 4 ==> s[i] < 0x80
    ensures Decode(s).Some? && Encodable(Decode(s).value)
    ensures Encode(Decode(s).value) == s[..HeaderSize]
  {
    var h := Decode(s).value;
    var t := s[..HeaderSize];
    Pow256Widths();
    LeBytesOfUnsigned(s[4..8]);
    LeBytesOfUnsigned(s[8..16]);
    LeBytesOfUnsigned(s[16..24]);
    LeBytesOfUnsigned(s[24..32]);
    FromToI64(Unsigned(s[8..16]));
    FromToI64(Unsigned(s[16..24]));
    FromToI64(Unsigned(s[24..32]));
    assert MagicBytes(h.magic) == s[0..4];
    assert t[0..4] == s[0..4] && t[4..8] == s[4..8] && t[8..16] == s[8..16]
      && t[16..24] == s[16..24] && t[24..32] == s[24..32];
    Fields(t, MagicBytes(h.magic), LeBytes(h.version, 4), LeBytes(FromI64(h.totalSize), 8),
           LeBytes(FromI64(h.journalSize), 8), LeBytes(FromI64(h.blockSize), 8));
  }

  /**
   * The logical length the storage exposes: total size minus journal size,
   * computed in 64-bit (`long`) arithmetic.
   */
  function LogicalLength(h: JournalHeader): (r: i64)
    ensures (h.totalSize - h.journalSize - r) % TwoTo64 == 0
    ensures -0x8000_0000_0000_0000 <= h.totalSize - h.journalSize < 0x8000_0000_0000_0000
      ==> r == h.totalSize - h.journalSize
  {
    WrapI64(h.totalSize - h.journalSize)
  }
}
