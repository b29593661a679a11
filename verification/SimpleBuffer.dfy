/** A byte queue in one growable block: a window that slides up as bytes are consumed, is moved back
    to the front when that makes enough room, and otherwise moves to a block twice as large. */
module SimpleBuffer {
  import opened Words

  /** Where the live bytes lie, `start..end` of a block of `max` bytes. */
  datatype Window = Window(start: nat, end: nat, max: nat) {
    predicate Valid() {
      start <= end <= max
    }

    function Size(): nat {
      if start <= end then end - start else 0
    }

    function Free(): nat {
      if end <= max then max - end else 0
    }
  }

  /** The block size `growBuffer` asks for, if its words did not wrap around. */
  function GrowTarget(w: Window, d: nat): nat {
    var doubled := 2 * w.max;
    if doubled - w.end < d then doubled + d else doubled
  }

  predicate CanGrow(w: Window, limit: nat, d: nat) {
    d < w.start || GrowTarget(w, d) <= limit
  }

  /** The window after `growBuffer`. */
  function Grown(w: Window, limit: nat, d: nat): Window {
    if d < w.start then Window(0, w.Size(), w.max)
    else if GrowTarget(w, d) <= limit then Window(0, w.Size(), GrowTarget(w, d))
    else w
  }

  /** Whether `addBuffer` and `confirmCapacity` find room for `d` more bytes. */
  predicate Fits(w: Window, limit: nat, d: nat) {
    d <= w.Free() || CanGrow(w, limit, d)
  }

  /** The window once room for `d` bytes has been sought. */
  function Reserved(w: Window, limit: nat, d: nat): Window {
    if d <= w.Free() then w else Grown(w, limit, d)
  }

  /** The window after an append. */
  function Appended(w: Window, limit: nat, d: nat): (w': Window)
    ensures w.Valid() ==> w'.Valid() && w'.Size() == w.Size() + if Fits(w, limit, d) then d else 0
  {
    if Fits(w, limit, d) then
      var r := Reserved(w, limit, d);
      Window(r.start, r.end + d, r.max)
    else w
  }

  /** The window after `n` bytes were consumed. */
  function Consumed(w: Window, n: nat): Window {
    if w.Size() <= n then Window(0, 0, w.max) else Window(w.start + n, w.end, w.max)
  }

  lemma ConsumedTwice(w: Window, m: nat, n: nat)
    requires w.Valid() && m + n <= w.Size()
    ensures Consumed(w, m).Valid() && Consumed(w, m).Size() == w.Size() - m
    ensures n > 0 ==> Consumed(Consumed(w, m), n) == Consumed(w, m + n)
  {
  }

  /** Seeking room never changes how many bytes are live, never passes the limit, and makes the room
      exactly when `Fits` says so. */
  lemma ReservedMakesRoom(w: Window, limit: nat, d: nat)
    requires w.Valid()
    ensures Reserved(w, limit, d).Valid() && Reserved(w, limit, d).Size() == w.Size()
    ensures d <= Reserved(w, limit, d).Free() <==> Fits(w, limit, d)
    ensures w.max <= Reserved(w, limit, d).max
    ensures w.max <= limit ==> Reserved(w, limit, d).max <= limit
  {
  }

  /** Growth is driven by need: a block that grew for `d` bytes with `n` live ones is smaller than
      `4d + 2n`; and it is at least twice as large as before. */
  lemma GrowthBound(w: Window, limit: nat, d: nat)
    requires w.Valid()
    ensures Reserved(w, limit, d).max == w.max
         || 2 * w.max <= Reserved(w, limit, d).max < 4 * d + 2 * w.Size()
  {
    if Reserved(w, limit, d).max != w.max {
      assert w.start <= d && w.max < w.end + d;
    }
  }

  /** So a request succeeds whenever four times its size and twice the live bytes stay within the limit. */
  lemma HeadroomSuffices(w: Window, limit: nat, d: nat)
    requires w.Valid() && 4 * d + 2 * w.Size() <= limit
    ensures Fits(w, limit, d)
  {
    if d > w.Free() && d >= w.start {
      GrowthBound(w, GrowTarget(w, d), d);
    }
  }

  /** A reservation that succeeded is good for any commit up to its size, with no further growth. */
  lemma ReserveThenCommit(w: Window, limit: nat, d: nat, n: nat)
    requires w.Valid() && Fits(w, limit, d) && n <= d
    ensures var r := Reserved(w, limit, d);
      Fits(r, limit, n) && Reserved(r, limit, n) == r && Window(r.start, r.end + n, r.max).Valid()
  {
    ReservedMakesRoom(w, limit, d);
  }

  // 32-bit sizes.

  /** The block size as `growBuffer` computes it, on words that wrap around. */
  function WrappedTarget(w: Window, d: nat): uint32 {
    var doubled := Add32(w.max, w.max);
    if Sub32(doubled, w.end) < d then Add32(doubled, d) else doubled
  }

  /** `growBuffer` needs no larger block, or the size of the larger block does not wrap around, or it is
      refused all the same. */
  predicate GrowExact(w: Window, limit: nat, d: nat) {
    d < w.start || GrowTarget(w, d) < WIDTH || WrappedTarget(w, d) > limit
  }

  /** The same for a request that asks for growth only when there is no room. */
  predicate Exact(w: Window, limit: nat, d: nat) {
    d <= w.Free() || GrowExact(w, limit, d)
  }

  lemma ExactTarget(w: Window, limit: uint32, d: uint32)
    requires w.Valid() && w.max < WIDTH && GrowExact(w, limit, d) && d >= w.start
    ensures WrappedTarget(w, d) <= limit <==> GrowTarget(w, d) <= limit
    ensures GrowTarget(w, d) <= limit ==> WrappedTarget(w, d) == GrowTarget(w, d)
  {
  }

  /** Sizes that cannot wrap are exact. */
  lemma SmallIsExact(w: Window, limit: nat, d: nat)
    requires 2 * w.max + d < WIDTH
    ensures Exact(w, limit, d)
  {
  }

  /** A true result of `growBuffer` is a promise of room. For every block below 2 GiB the promise is kept
      if and only if the request is exact. */
  lemma PromiseKeptIffExact(w: Window, limit: uint32, d: uint32)
    requires w.Valid() && 2 * w.max < WIDTH && d >= w.start
    ensures (WrappedTarget(w, d) <= limit ==> w.Size() + d <= WrappedTarget(w, d)) <==> GrowExact(w, limit, d)
  {
    var target := 2 * w.max + d;
    if WIDTH <= target && 2 * w.max - w.end < d {
      assert WrappedTarget(w, d) == target - WIDTH;
    }
  }

  /** An input that breaks it: 16 KiB in the block, none live, and a request of 4 GiB less 16 KiB. The
      computed size comes out as 16 KiB again, and `growBuffer` says yes. */
  lemma PromiseCanBreak(limit: uint32)
    requires 16384 <= limit
    ensures var w, d := Window(0, 0, 16384), WIDTH - 16384;
      && d > w.Free() && d >= w.start && WrappedTarget(w, d) == w.max <= limit
      && w.Size() + d > WrappedTarget(w, d)
  {
  }

  class SimpleBuffer {
    var buffer: array<byte>
    var startLoc: uint32
    var endLoc: uint32
    var maxLen: uint32
    var maxGrowSize: uint32
    var defaultSize: uint32

    ghost function Win(): Window
      reads this
    {
      Window(startLoc, endLoc, maxLen)
    }

    ghost predicate Valid()
      reads this
    {
      startLoc <= endLoc <= maxLen == buffer.Length
    }

    /** The block respects the growth limit. Only `Reset` can break this. */
    ghost predicate Bounded()
      reads this
    {
      maxLen <= maxGrowSize
    }

    ghost function Contents(): seq<byte>
      requires Valid()
      reads this, buffer
    {
      buffer[startLoc..endLoc]
    }

    constructor (defaultLen: uint32, maxGrowSize: uint32)
      ensures Valid() && Bounded() && fresh(buffer)
      ensures Contents() == [] && Win() == Window(0, 0, defaultLen)
      ensures this.maxGrowSize == if defaultLen > maxGrowSize then defaultLen else maxGrowSize
    {
      this.maxGrowSize := if defaultLen > maxGrowSize then defaultLen else maxGrowSize;
      startLoc, endLoc := 0, 0;
      defaultSize := defaultLen;
      maxLen := defaultLen;
      buffer := new byte[defaultLen];
    }

    /** Drops everything and starts again with a block of the given size, which the growth limit does
        not bound. */
    method Reset(defaultSize: uint32)
      modifies this
      ensures Valid() && fresh(buffer) && Contents() == []
      ensures Win() == Window(0, 0, defaultSize) && this.defaultSize == defaultSize
      ensures maxGrowSize == old(maxGrowSize)
      ensures Bounded() <==> defaultSize <= maxGrowSize
    {
      startLoc, endLoc := 0, 0;
      this.defaultSize := defaultSize;
      maxLen := defaultSize;
      buffer := new byte[defaultSize];
    }

    function GetSize(): (size: uint32)
      requires Valid()
      reads this, buffer
      ensures size == |Contents()|
    {
      Sub32(endLoc, startLoc)
    }

    /** The block, the position of the first live byte in it, and how many follow. */
    method GetData() returns (data: array<byte>, at: uint32, dataLen: uint32)
      requires Valid()
      ensures data == buffer && at == startLoc && at + dataLen == endLoc
      ensures data[at..at + dataLen] == Contents()
    {
      dataLen := GetSize();
      data, at := buffer, startLoc;
    }

    method Clear()
      requires Valid()
      modifies this`startLoc, this`endLoc
      ensures Valid() && Contents() == [] && Win() == Window(0, 0, old(maxLen))
    {
      startLoc, endLoc := 0, 0;
    }

    /** Moves the live bytes to the front of the block; the two ranges may overlap. */
    method Compact()
      requires Valid()
      modifies this`startLoc, this`endLoc, buffer
      ensures Valid() && Contents() == old(Contents()) && Win() == Window(0, old(Win().Size()), maxLen)
    {
      hide Add32, Sub32;
      ghost var live := Contents();
      var keepSize := GetSize();
      if keepSize > 0 {
        CopyForward(buffer, 0, buffer, startLoc, keepSize);
      }
      SliceIs(buffer, 0, live);
      startLoc := 0;
      endLoc := keepSize;
    }

    /** Moves the live bytes to the front of a new block. */
    method Enlarge(newMaxLen: uint32)
      requires Valid() && maxLen <= newMaxLen
      modifies this`buffer, this`startLoc, this`endLoc, this`maxLen
      ensures Valid() && Contents() == old(Contents()) && Win() == Window(0, old(Win().Size()), newMaxLen)
      ensures fresh(buffer)
    {
      var bufferSize := GetSize();
      maxLen := newMaxLen;
      var newBuffer := new byte[maxLen];
      if bufferSize > 0 {
        CopyForward(newBuffer, 0, buffer, startLoc, bufferSize);
      }
      buffer := newBuffer;
      startLoc := 0;
      endLoc := bufferSize;
    }

    /** Makes room for `dataLen` more bytes. */
    method GrowBuffer(dataLen: uint32) returns (ok: bool)
      requires Valid() && GrowExact(Win(), maxGrowSize, dataLen)
      modifies this`buffer, this`startLoc, this`endLoc, this`maxLen, buffer
      ensures Valid() && Contents() == old(Contents())
      ensures ok <==> CanGrow(old(Win()), maxGrowSize, dataLen)
      ensures Win() == Grown(old(Win()), maxGrowSize, dataLen)
      ensures ok ==> dataLen <= Win().Free()
      ensures !ok ==> unchanged(this) && unchanged(buffer)
      ensures buffer == old(buffer) || fresh(buffer)
    {
      hide Add32, Sub32, GrowExact;
      ok := false;
      var emptySize := startLoc;
      if dataLen < emptySize {
        Compact();
        ok := true;
      } else {
        ExactTarget(Win(), maxGrowSize, dataLen);
        var newMaxLen := Add32(maxLen, maxLen);
        var available := Sub32(newMaxLen, endLoc);
        if available < dataLen {
          newMaxLen := Add32(newMaxLen, dataLen);
        }
        if newMaxLen > maxGrowSize {
        } else {
          ok := true;
          Enlarge(newMaxLen);
        }
      }
    }

    /** The part of `addBuffer` that runs once there is room. */
    method Append(data: Option<seq<byte>>, dataLen: uint32)
      requires Valid() && dataLen <= Win().Free()
      requires data.Some? ==> |data.value| == dataLen
      modifies this`endLoc, buffer
      ensures Valid() && Win() == Window(startLoc, old(endLoc) + dataLen, maxLen)
      ensures Contents() == old(Contents()) +
        (if data.Some? then data.value else old(buffer[endLoc..endLoc + dataLen]))
    {
      hide Add32;
      if data.Some? {
        CopyBytes(buffer, endLoc, data.value);
      }
      assert buffer[startLoc..endLoc] == old(Contents());
      assert buffer[startLoc..endLoc + dataLen] == buffer[startLoc..endLoc] + buffer[endLoc..endLoc + dataLen];
      endLoc := Add32(endLoc, dataLen);
    }

    /** Appends `dataLen` bytes: the given ones, or with no data the ones already written behind the
        live bytes. A failed append changes nothing. */
    method AddBuffer(data: Option<seq<byte>>, dataLen: uint32) returns (ok: bool)
      requires Valid() && Exact(Win(), maxGrowSize, dataLen)
      requires data.Some? ==> |data.value| == dataLen
      modifies this`buffer, this`startLoc, this`endLoc, this`maxLen, buffer
      ensures Valid()
      ensures ok <==> Fits(old(Win()), maxGrowSize, dataLen)
      ensures Win() == Appended(old(Win()), maxGrowSize, dataLen)
      ensures ok ==> old(Contents()) <= Contents()
      ensures ok && data.Some? ==> Contents() == old(Contents()) + data.value
      ensures data.None? && dataLen <= old(Win().Free()) ==>
        && buffer == old(buffer)
        && Contents() == old(Contents()) + old(buffer[endLoc..endLoc + dataLen])
      ensures !ok ==> unchanged(this) && unchanged(old(buffer))
      ensures buffer == old(buffer) || fresh(buffer)
    {
      hide Add32, Sub32, CanGrow, Grown, GrowTarget;
      ok := false;
      var available := Sub32(maxLen, endLoc);
      if dataLen > available {
        var grown := GrowBuffer(dataLen);
        available := Sub32(maxLen, endLoc);
      }
      if dataLen <= available {
        Append(data, dataLen);
        ok := true;
      }
    }

    /** Removes the oldest bytes, at most as many as there are. */
    method Consume(removeLen: uint32)
      requires Valid()
      modifies this`startLoc, this`endLoc
      ensures Valid() && Contents() == old(Contents())[Min(removeLen, old(|Contents()|))..]
      ensures Win() == Consumed(old(Win()), removeLen)
    {
      hide Add32, Sub32;
      var n := removeLen;
      var activeBufferSize := Sub32(endLoc, startLoc);
      if n > activeBufferSize {
        n := activeBufferSize;
      }
      startLoc := Add32(startLoc, n);
      if startLoc == endLoc {
        startLoc, endLoc := 0, 0;
      }
    }

    /** Makes room for `capacity` bytes behind the live ones; on success `at` is where they go. */
    method ConfirmCapacity(capacity: uint32) returns (ok: bool, at: uint32)
      requires Valid() && Exact(Win(), maxGrowSize, capacity)
      modifies this`buffer, this`startLoc, this`endLoc, this`maxLen, buffer
      ensures Valid() && Contents() == old(Contents())
      ensures ok <==> Fits(old(Win()), maxGrowSize, capacity)
      ensures Win() == Reserved(old(Win()), maxGrowSize, capacity)
      ensures ok ==> at == endLoc && capacity <= Win().Free()
      ensures !ok ==> unchanged(this) && unchanged(buffer)
      ensures buffer == old(buffer) || fresh(buffer)
    {
      hide Add32, Sub32;
      ok, at := false, 0;
      var available := Sub32(maxLen, endLoc);
      if capacity > available {
        var grown := GrowBuffer(capacity);
        available := Sub32(maxLen, endLoc);
      }
      if capacity <= available {
        ok, at := true, endLoc;
      }
    }
  }

  // Every sequence of operations, as a queue.

  /** `Add` appends; `Fill` reserves room, writes there, and commits what it wrote; `Take` consumes;
      `Empty` clears. */
  datatype Operation = Add(data: seq<byte>) | Fill(capacity: nat, data: seq<byte>) | Take(n: nat) | Empty

  /** A byte queue with the window that decides which requests succeed, and its history: `results` says
      of each operation whether it did; `Take` and `Empty` always do. */
  datatype Queue = Queue(bytes: seq<byte>, w: Window, accepted: seq<byte>, removed: seq<byte>, results: seq<bool>)

  function Perform(q: Queue, limit: nat, op: Operation): Queue {
    match op
    case Add(data) =>
      if Fits(q.w, limit, |data|) then
        Queue(q.bytes + data, Appended(q.w, limit, |data|), q.accepted + data, q.removed, q.results + [true])
      else q.(results := q.results + [false])
    case Fill(capacity, data) =>
      if Fits(q.w, limit, capacity) then
        var fill, r := data[..Min(|data|, capacity)], Reserved(q.w, limit, capacity);
        Queue(q.bytes + fill, Window(r.start, r.end + |fill|, r.max), q.accepted + fill, q.removed, q.results + [true])
      else q.(results := q.results + [false])
    case Take(n) =>
      var k := Min(n, |q.bytes|);
      Queue(q.bytes[k..], Consumed(q.w, n), q.accepted, q.removed + q.bytes[..k], q.results + [true])
    case Empty => Queue([], Window(0, 0, q.w.max), q.accepted, q.removed + q.bytes, q.results + [true])
  }

  /** What holds of a queue after any operations: it is a FIFO, and its block respects the limit. */
  ghost predicate Fifo(q: Queue, limit: nat) {
    && q.w.Valid() && q.w.Size() == |q.bytes| && q.w.max <= limit
    && q.accepted == q.removed + q.bytes
  }

  lemma PerformKeepsFifo(q: Queue, limit: nat, op: Operation)
    requires Fifo(q, limit)
    ensures Fifo(Perform(q, limit, op), limit) && q.w.max <= Perform(q, limit, op).w.max
  {
    match op
    case Add(data) => ReservedMakesRoom(q.w, limit, |data|);
    case Fill(capacity, data) => ReservedMakesRoom(q.w, limit, capacity);
    case Take(n) =>
      var k := Min(n, |q.bytes|);
      assert q.bytes[..k] + q.bytes[k..] == q.bytes;
    case Empty =>
  }

  ghost function PerformAll(q: Queue, limit: nat, ops: seq<Operation>): (q': Queue)
    requires Fifo(q, limit)
    ensures Fifo(q', limit) && q.w.max <= q'.w.max
  {
    hide Perform;
    if ops == [] then q
    else
      var before := PerformAll(q, limit, ops[..|ops| - 1]);
      PerformKeepsFifo(before, limit, ops[|ops| - 1]);
      Perform(before, limit, ops[|ops| - 1])
  }

  /** The sizes in an operation are words, and room sought is sought exactly. */
  predicate InRange(w: Window, limit: nat, op: Operation) {
    match op
    case Add(data) => |data| < WIDTH && Exact(w, limit, |data|)
    case Fill(capacity, _) => capacity < WIDTH && Exact(w, limit, capacity)
    case Take(n) => n < WIDTH
    case Empty => true
  }

  ghost predicate AllInRange(q: Queue, limit: nat, ops: seq<Operation>)
    requires Fifo(q, limit)
  {
    forall k :: 0 <= k < |ops| ==> InRange(PerformAll(q, limit, ops[..k]).w, limit, ops[k])
  }

  /** The real buffer is in the state of the queue. */
  ghost predicate Represents(b: SimpleBuffer, q: Queue)
    reads b, b.buffer
  {
    b.Valid() && q.bytes == b.Contents() && q.w == b.Win()
  }

  /** Writes into reserved room and commits. */
  method WriteAndCommit(b: SimpleBuffer, at: uint32, fill: seq<byte>)
    requires b.Valid() && at == b.endLoc && |fill| <= b.Win().Free()
    modifies b, b.buffer
    ensures b.Valid() && b.Contents() == old(b.Contents()) + fill
    ensures b.Win() == Window(old(b.startLoc), old(b.endLoc) + |fill|, old(b.maxLen))
    ensures b.maxGrowSize == old(b.maxGrowSize) && b.buffer == old(b.buffer)
  {
    hide GrowExact, CanGrow, Grown;
    CopyBytes(b.buffer, at, fill);
    assert b.buffer[at..at + |fill|] == fill;
    assert b.Contents() == old(b.Contents());
    var ok := b.AddBuffer(None, |fill|);
  }

  /** Reserves room, writes into it, and commits: the path of `poll`. */
  method FillBuffer(b: SimpleBuffer, capacity: uint32, data: seq<byte>, ghost q: Queue) returns (ok: bool)
    requires Represents(b, q) && Fifo(q, b.maxGrowSize) && Exact(q.w, b.maxGrowSize, capacity)
    modifies b, b.buffer
    ensures b.maxGrowSize == old(b.maxGrowSize) && (b.buffer == old(b.buffer) || fresh(b.buffer))
    ensures var q' := Perform(q, b.maxGrowSize, Fill(capacity, data));
      Represents(b, q') && q'.results == q.results + [ok]
  {
    hide Exact, Fits, Reserved, SimpleBuffer.Contents;
    var at;
    ok, at := b.ConfirmCapacity(capacity);
    if ok {
      WriteAndCommit(b, at, data[..Min(|data|, capacity)]);
    }
  }

  /** One operation on the real buffer. */
  method Apply(b: SimpleBuffer, op: Operation, ghost q: Queue) returns (ok: bool)
    requires Represents(b, q) && Fifo(q, b.maxGrowSize) && InRange(q.w, b.maxGrowSize, op)
    modifies b, b.buffer
    ensures b.maxGrowSize == old(b.maxGrowSize) && (b.buffer == old(b.buffer) || fresh(b.buffer))
    ensures var q' := Perform(q, b.maxGrowSize, op); Represents(b, q') && q'.results == q.results + [ok]
  {
    hide Fits, Appended, Reserved, Consumed, Exact, Fifo, SimpleBuffer.Contents, SimpleBuffer.Valid;
    ok := true;
    match op
    case Add(data) => ok := b.AddBuffer(Some(data), |data|);
    case Fill(capacity, data) =>
      hide Perform;
      ok := FillBuffer(b, capacity, data, q);
    case Take(n) => b.Consume(n);
    case Empty => b.Clear();
  }

  /** Over every sequence of operations the buffer is the queue: the same contents, the same requests
      granted and refused. */
  method ApplyAll(b: SimpleBuffer, ops: seq<Operation>, ghost q: Queue) returns (results: seq<bool>)
    requires Represents(b, q) && Fifo(q, b.maxGrowSize) && AllInRange(q, b.maxGrowSize, ops)
    modifies b, b.buffer
    ensures b.maxGrowSize == old(b.maxGrowSize)
    ensures var q' := PerformAll(q, b.maxGrowSize, ops); Represents(b, q') && q'.results == q.results + results
  {
    hide Fifo, Perform, InRange, Represents;
    ghost var now := q;
    results := [];
    for k := 0 to |ops|
      invariant b.maxGrowSize == old(b.maxGrowSize)
      invariant b.buffer == old(b.buffer) || fresh(b.buffer)
      invariant now == PerformAll(q, b.maxGrowSize, ops[..k])
      invariant Represents(b, now) && now.results == q.results + results
    {
      assert ops[..k + 1][..k] == ops[..k];
      var ok := Apply(b, ops[k], now);
      now := Perform(now, b.maxGrowSize, ops[k]);
      results := results + [ok];
    }
    assert ops[..|ops|] == ops;
  }
}
