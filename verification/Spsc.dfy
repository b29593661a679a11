/** The single-producer single-consumer ring over a block of shared memory, as one process sees it
    between two steps of its peer. `RingProtocol` covers the steps that interleave. */
module Spsc {
  import opened Words
  import opened RingIndex

  const HEADER: uint32 := 32
  const VERSION: uint32 := 100

  /** The mapped block: the header words, and behind them the bytes of the ring. */
  class SharedMemory {
    const base: array<byte>
    var versionNumber: uint32
    var bufferSize: uint32
    var readIndex: uint32
    var writeIndex: uint32

    ghost var accepted: seq<byte>  // every byte published since initialisation
    ghost var taken: nat           // how many of them the reader has taken

    constructor (size: uint32)
      requires HEADER < size
      ensures fresh(base) && base.Length == size - HEADER
    {
      base := new byte[size - HEADER];
      versionNumber, bufferSize, readIndex, writeIndex := 0, 0, 0, 0;
      accepted, taken := [], 0;
    }

    ghost function Cap(): int
      reads this
    {
      bufferSize - HEADER
    }

    ghost predicate Valid()
      reads this, base
    {
      && versionNumber == VERSION
      && 0 < Cap() <= base.Length
      && taken <= |accepted| <= taken + Room(Cap(), 0)
      && readIndex == IndexOf(taken, Cap())
      && writeIndex == IndexOf(|accepted|, Cap())
      && forall k :: taken <= k < |accepted| ==> base[Slot(k, Cap())] == accepted[k]
    }

    /** The bytes published and not yet taken. */
    ghost function Queue(): seq<byte>
      requires taken <= |accepted|
      reads this
    {
      accepted[taken..]
    }
  }

  class SPSC {
    var header: SharedMemory?
    var capacity: uint32
    var isWriter: bool

    constructor ()
      ensures header == null && isWriter
    {
      header, capacity, isWriter := null, 0, true;
    }

    /** The handle is attached and agrees with the header about the size. */
    ghost predicate Valid()
      reads this, header, if header == null then {} else {header.base}
    {
      header != null && header.Valid() && capacity == header.Cap()
    }

    method Init(memory: SharedMemory, maxLen: uint32, isWriter: bool, isServer: bool) returns (ok: bool)
      requires maxLen > HEADER ==> maxLen - HEADER <= memory.base.Length
      modifies this, memory
      ensures this.isWriter == isWriter
      ensures ok == (maxLen > HEADER
                     && (isServer || (old(memory.versionNumber) == VERSION && old(memory.bufferSize) == maxLen)))
      ensures ok ==> header == memory
      ensures ok && isServer ==> Valid() && memory.accepted == [] && memory.taken == 0
      ensures ok && !isServer && old(memory.Valid()) ==> Valid()
      ensures !ok && maxLen > HEADER ==> header == null
      ensures maxLen > HEADER ==> capacity == maxLen - HEADER
      ensures maxLen <= HEADER ==> header == old(header) && capacity == old(capacity)
      ensures !isServer || maxLen <= HEADER ==> unchanged(memory)
    {
      ok := true;
      this.isWriter := isWriter;
      if maxLen > HEADER {
        header := memory;
        capacity := Sub32(maxLen, HEADER);
        if isServer {
          memory.versionNumber := VERSION;
          memory.bufferSize := maxLen;
          memory.writeIndex := 0;
          memory.readIndex := 0;
          memory.accepted, memory.taken := [], 0;
        } else if memory.versionNumber != VERSION || memory.bufferSize != maxLen {
          header := null;
          ok := false;
        }
      } else {
        ok := false;
      }
    }

    method Size() returns (size: uint32)
      requires Valid()
      ensures size == |header.Queue()|
    {
      CalcSizeExact(capacity, header.taken, |header.accepted|);
      size := CalcSize(capacity, header.readIndex, header.writeIndex);
    }

    /** Takes the oldest bytes of the queue, as many as fit `maxLen`, into `dest[at..]`. */
    method Read(dest: array<byte>, at: nat, maxLen: uint32) returns (len: uint32)
      requires Valid()
      requires dest != header.base && at + maxLen <= dest.Length
      modifies header`readIndex, header`taken, dest
      ensures Valid()
      ensures len == if isWriter then 0 else Min(maxLen, old(|header.Queue()|))
      ensures header.taken == old(header.taken) + len
      ensures dest[at..at + len] == old(header.Queue())[..len]
      ensures forall i :: 0 <= i < dest.Length && !(at <= i < at + len) ==> dest[i] == old(dest[i])
    {
      hide IndexOf, Slot, CopySlot, Landing;
      assert dest[at..at] == header.Queue()[..0];
      if isWriter { return 0; }
      len := Size();
      if len > maxLen {
        len := maxLen;
      }
      if len == 0 { return 0; }
      ghost var total, c, front := header.taken, capacity, header.Queue()[..len];
      AdvanceExact(c, total, len);
      AdvanceUnbounded(c, IndexOf(total, c), len);
      var next := CopyOut(dest, at, header.readIndex, len);
      header.readIndex := next;
      header.taken := header.taken + len;
      forall j | 0 <= j < len
        ensures dest[at + j] == front[j]
      {
        CopySlotExact(c, total, j);
        assert header.base[Slot(total + j, c)] == header.accepted[total + j] == front[j];
      }
      SliceIs(dest, at, front);
    }

    /** Writes as much of `data[from..from + dataLen]` as there is room for, oldest byte first. */
    method Write(data: array<byte>, from: nat, dataLen: uint32) returns (len: uint32)
      requires Valid()
      requires data != header.base && from + dataLen <= data.Length
      modifies header`writeIndex, header`accepted, header.base
      ensures Valid()
      ensures len == if isWriter then Min(dataLen, Room(capacity, old(|header.Queue()|))) else 0
      ensures header.accepted == old(header.accepted) + data[from..from + len]
    {
      hide IndexOf, Slot, CopySlot, Landing, Advance, WriteLength;
      if !isWriter { return 0; }
      ghost var total, c, before := |header.accepted|, capacity, header.accepted;
      var avail := SpaceLeft();
      if avail == 0 { return 0; }
      WriteLengthExact(avail, dataLen);
      len := WriteLength(avail, dataLen);
      AdvanceExact(c, total, len);
      AdvanceUnbounded(c, IndexOf(total, c), len);
      var next := CopyIn(header.writeIndex, data, from, len);
      header.writeIndex := next;
      header.accepted := before + data[from..from + len];
      forall k | header.taken <= k < |header.accepted|
        ensures header.base[Slot(k, c)] == header.accepted[k]
      {
        LandingExact(c, total, len, k);
      }
    }

    /** `capacity()` of the source: the room left, keeping one byte back. */
    method SpaceLeft() returns (avail: uint32)
      requires Valid()
      ensures avail == 0 ==> Room(capacity, |header.Queue()|) == 0
      ensures avail > 0 ==> avail == Room(capacity, |header.Queue()|) + 1
    {
      CapacityExact(capacity, header.taken, |header.accepted|);
      avail := Capacity(capacity, header.readIndex, header.writeIndex);
    }

    /** The two copies of `read`, and the index to store after them. */
    method CopyOut(dest: array<byte>, at: nat, index: uint32, len: uint32) returns (next: uint32)
      requires header != null && index <= capacity <= header.base.Length && len <= capacity
      requires dest != header.base && at + len <= dest.Length
      modifies dest
      ensures next == if index + len <= capacity then index + len else index + len - capacity
      ensures forall j :: 0 <= j < len ==> dest[at + j] == header.base[CopySlot(capacity, index, j)]
      ensures forall i :: 0 <= i < dest.Length && !(at <= i < at + len) ==> dest[i] == old(dest[i])
    {
      var availTop := Sub32(capacity, index);
      if availTop >= len {
        CopyForward(dest, at, header.base, index, len);
        next := Add32(index, len);
      } else {
        var remainder := Sub32(len, availTop);
        if availTop > 0 {
          CopyForward(dest, at, header.base, index, availTop);
        }
        if remainder > 0 {
          CopyForward(dest, at + availTop, header.base, 0, remainder);
        }
        next := remainder;
      }
    }

    /** The two copies of `write`, and the index to store after them. */
    method CopyIn(index: uint32, data: array<byte>, from: nat, len: uint32) returns (next: uint32)
      requires header != null && index <= capacity <= header.base.Length && len <= capacity
      requires data != header.base && from + len <= data.Length
      modifies header.base
      ensures next == if index + len <= capacity then index + len else index + len - capacity
      ensures forall s :: 0 <= s < capacity ==>
        var j := Landing(capacity, index, len, s);
        header.base[s] == if j >= 0 then data[from + j] else old(header.base[s])
    {
      var availTop := Sub32(capacity, index);
      if len <= availTop {
        CopyForward(header.base, index, data, from, len);
        next := Add32(index, len);
      } else {
        var remainder := Sub32(len, availTop);
        if availTop > 0 {
          CopyForward(header.base, index, data, from, availTop);
        }
        if remainder > 0 {
          CopyForward(header.base, 0, data, from + availTop, remainder);
        }
        next := remainder;
      }
    }
  }

  /** Index C is reached at every capacity of at least three: pass bytes through one by one until the
      write index is C - 1, and write one more. */
  method ReachTopIndex(memory: SharedMemory, size: uint32, block: array<byte>)
    requires HEADER + 3 <= size && memory.base.Length == size - HEADER
    requires block != memory.base && block.Length > 0
    modifies memory, memory.base, block
    ensures memory.Valid() && memory.writeIndex == memory.Cap() == size - HEADER
  {
    hide Slot, IndexOf;
    var writer: SPSC := new SPSC();
    var reader: SPSC := new SPSC();
    var c := size - HEADER;
    var ok := writer.Init(memory, size, true, true);
    ok := reader.Init(memory, size, false, false);
    for k := 0 to c - 1
      invariant writer.Valid() && reader.Valid() && writer.header == reader.header == memory
      invariant writer.isWriter && !reader.isWriter && writer.capacity == c
      invariant memory.taken == |memory.accepted| == k
    {
      PassOne(writer, reader, block);
    }
    var n := writer.Write(block, 0, 1);
    FullLap(c);
  }

  /** Passes one byte through an empty ring. */
  method PassOne(writer: SPSC, reader: SPSC, block: array<byte>)
    requires writer.Valid() && reader.Valid() && writer.header == reader.header
    requires writer.isWriter && !reader.isWriter && 3 <= writer.capacity
    requires writer.header.taken == |writer.header.accepted|
    requires block != writer.header.base && block.Length > 0
    modifies writer.header, writer.header.base, block
    ensures writer.Valid() && reader.Valid()
    ensures writer.header.taken == |writer.header.accepted| == old(writer.header.taken) + 1
  {
    hide Slot, IndexOf;
    var n := writer.Write(block, 0, 1);
    n := reader.Read(block, 0, 1);
  }
}
