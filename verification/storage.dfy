/**
 * The base storage the journaling layer forwards to: a byte array that can
 * be read, written, filled and flushed. Whether an in-range access succeeds
 * is decided by the device, modelled as the map `faults` from the accesses
 * that fail to their errors; an access outside the array fails with
 * `OutOfRange`. A failing access changes nothing.
 */
module Storage {
  import opened Binary
  import opened Results

  datatype Op = ReadOp | WriteOp | FillOp

  /** One request to the base storage. */
  datatype Access =
    | Transfer(op: Op, offset: int, size: int)
    | Flush

  /** The device's answers: the accesses that fail, with their errors; every other access succeeds. */
  type Faults = map<Access, Error>

  /** What the device answers to `a`. */
  function Answer(faults: Faults, a: Access): Result {
    if a in faults then Failure(faults[a]) else Success
  }

  predicate InBounds(a: Access, storageSize: int) {
    a.Flush? || (0 <= a.offset && 0 <= a.size && a.offset + a.size <= storageSize)
  }

  /** What the base storage answers to `a`. */
  function AccessOutcome(faults: Faults, storageSize: int, a: Access): (r: Result)
    ensures r.Success? ==> InBounds(a, storageSize)
    ensures !InBounds(a, storageSize) ==> r == Failure(OutOfRange)
  {
    if InBounds(a, storageSize) then Answer(faults, a) else Failure(OutOfRange)
  }

  /** `s` with `count` bytes of `source`, starting at `from`, copied over it at `at`. */
  function Copied(s: seq<byte>, at: int, source: seq<byte>, from: int, count: int): (r: seq<byte>)
    requires 0 <= at && 0 <= from && 0 <= count && at + count <= |s| && from + count <= |source|
    ensures |r| == |s|
    ensures forall j :: at <= j < at + count ==> r[j] == source[from + (j - at)]
    ensures forall j :: 0 <= j < |s| && !(at <= j < at + count) ==> r[j] == s[j]
  {
    seq(|s|, j requires 0 <= j < |s| => if at <= j < at + count then source[from + (j - at)] else s[j])
  }

  /** Copying a slice of `source` is copying from `source` at the slice's start. */
  lemma CopiedSlice(s: seq<byte>, at: int, source: seq<byte>, from: int, count: int)
    requires 0 <= at && 0 <= from && 0 <= count && at + count <= |s| && from + count <= |source|
    ensures Copied(s, at, source[from..from + count], 0, count) == Copied(s, at, source, from, count)
  {
  }

  /** `s` with the bytes in `[at, at + count)` set to `value`. */
  function Filled(s: seq<byte>, at: int, count: int, value: byte): (r: seq<byte>)
    ensures |r| == |s|
    ensures forall j :: 0 <= j < |s| ==>
      r[j] == if at <= j < at + count then value else s[j]
  {
    seq(|s|, j requires 0 <= j < |s| => if at <= j < at + count then value else s[j])
  }

  class MemoryStorage {
    const data: array<byte>
    const faults: Faults

    constructor (data: array<byte>, faults: Faults)
      ensures this.data == data && this.faults == faults
    {
      this.data := data;
      this.faults := faults;
    }

    /** Reads `count` bytes at `offset` into `destination[start..start + count]`. */
    method Read(offset: int, destination: array<byte>, start: nat, count: nat) returns (r: Result)
      requires start + count <= destination.Length
      requires destination != data
      modifies destination
      ensures r == AccessOutcome(faults, data.Length, Transfer(ReadOp, offset, count))
      ensures destination[..] == if r.Success?
        then Copied(old(destination[..]), start, data[..], offset, count)
        else old(destination[..])
    {
      r := AccessOutcome(faults, data.Length, Transfer(ReadOp, offset, count));
      if r.Success? {
        forall j | start <= j < start + count {
          destination[j] := data[offset + (j - start)];
        }
      }
    }

    /** Writes `source` at `offset`. */
    method Write(offset: int, source: seq<byte>) returns (r: Result)
      modifies data
      ensures r == AccessOutcome(faults, data.Length, Transfer(WriteOp, offset, |source|))
      ensures data[..] == if r.Success?
        then Copied(old(data[..]), offset, source, 0, |source|)
        else old(data[..])
    {
      r := AccessOutcome(faults, data.Length, Transfer(WriteOp, offset, |source|));
      if r.Success? {
        forall j | offset <= j < offset + |source| {
          data[j] := source[j - offset];
        }
      }
    }

    /** Sets `count` bytes at `offset` to `value`. */
    method Fill(value: byte, offset: int, count: int) returns (r: Result)
      modifies data
      ensures r == AccessOutcome(faults, data.Length, Transfer(FillOp, offset, count))
      ensures data[..] == if r.Success?
        then Filled(old(data[..]), offset, count, value)
        else old(data[..])
    {
      r := AccessOutcome(faults, data.Length, Transfer(FillOp, offset, count));
      if r.Success? {
        forall j | offset <= j < offset + count {
          data[j] := value;
        }
      }
    }

    method Flush() returns (r: Result)
      ensures r == Answer(faults, Access.Flush)
    {
      r := Answer(faults, Access.Flush);
    }
  }
}
