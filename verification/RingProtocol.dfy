/** The ring as two concurrent sides see it: one writer and one reader, interleaved at every index
    load, every single-byte copy and every index store. Each side keeps a snapshot of the other's
    index that may be stale by the time it is used.

    Memory is sequentially consistent here: a data byte is visible before the index that publishes it. */
module RingProtocol {
  import opened Words
  import opened RingIndex

  /** Where the writer is inside `write`. `room` is the room there was when the call began, and
      `seen` the total the reader had taken when its index was loaded; both are history only. */
  datatype Writer =
    | WIdle
    | WCalled(data: seq<byte>, room: nat)
    | WSized(data: seq<byte>, room: nat, writeIndex: nat)
    | WCounted(data: seq<byte>, room: nat, writeIndex: nat, readIndex: nat, seen: nat)
    | WCopying(data: seq<byte>, room: nat, writeIndex: nat, seen: nat, count: nat, done: nat)
    | WReturned(len: nat)

  /** Where the reader is inside `read`. `queued` is the number of bytes queued when the call began,
      and `seen` the total that was published when the writer's index was loaded. */
  datatype Reader =
    | RIdle
    | RCalled(maxLen: nat, queued: int)
    | RSized(maxLen: nat, queued: int, writeIndex: nat, seen: nat)
    | RCounted(maxLen: nat, queued: int, writeIndex: nat, seen: nat, readIndex: nat)
    | RCopying(maxLen: nat, queued: int, readIndex: nat, seen: nat, count: nat, got: seq<byte>)
    | RReturned(maxLen: nat, bytes: seq<byte>)

  // Completed calls, in the order of their index stores.
  datatype WriteRecord = WriteRecord(data: seq<byte>, room: nat, len: nat)
  datatype ReadRecord = ReadRecord(maxLen: nat, queued: int, bytes: seq<byte>)

  datatype Ring = Ring(
    c: nat, mem: seq<byte>, readIndex: nat, writeIndex: nat, writer: Writer, reader: Reader,
    accepted: seq<byte>,        // history: every byte published
    delivered: seq<byte>,       // history: every byte taken
    writeLog: seq<WriteRecord>, readLog: seq<ReadRecord>)
  {
    ghost function Queued(): int {
      |accepted| - |delivered|
    }
  }

  ghost predicate Init(s: Ring) {
    && 0 < s.c < WIDTH && |s.mem| == s.c
    && s.readIndex == 0 && s.writeIndex == 0
    && s.writer.WIdle? && s.reader.RIdle?
    && s.accepted == [] && s.delivered == [] && s.writeLog == [] && s.readLog == []
  }

  datatype Action =
    | CallWrite(data: seq<byte>) | StepWriter | EndWrite
    | CallRead(maxLen: nat) | StepReader | EndRead

  ghost predicate Enabled(s: Ring, a: Action) {
    match a
    case CallWrite(data) => s.writer.WIdle? && |data| < WIDTH
    case StepWriter => !s.writer.WIdle? && !s.writer.WReturned?
    case EndWrite => s.writer.WReturned?
    case CallRead(maxLen) => s.reader.RIdle? && maxLen < WIDTH
    case StepReader => !s.reader.RIdle? && !s.reader.RReturned?
    case EndRead => s.reader.RReturned?
  }

  ghost function FinishWrite(s: Ring, data: seq<byte>, room: nat, len: nat): Ring {
    s.(writer := WReturned(len), accepted := s.accepted + data[..Min(len, |data|)],
       writeLog := s.writeLog + [WriteRecord(data, room, len)])
  }

  /** The next step of a writer inside `write`: a load, a one-byte copy, or the store. */
  ghost function WriterStep(s: Ring): Ring
    requires !s.writer.WIdle? && !s.writer.WReturned?
  {
    match s.writer
    case WCalled(data, room) =>
      s.(writer := WSized(data, room, s.writeIndex))
    case WSized(data, room, wi) =>
      s.(writer := WCounted(data, room, wi, s.readIndex, |s.delivered|))
    case WCounted(data, room, wi, ri, seen) =>
      var avail := Capacity(s.c, ri, wi);
      if avail == 0 then FinishWrite(s, data, room, 0)
      else s.(writer := WCopying(data, room, s.writeIndex, seen, WriteLength(avail, |data|), 0))
    case WCopying(data, room, wi, seen, count, done) =>
      if done < count then
        s.(mem := Store(s.mem, CopySlot(s.c, wi, done), Load(data, done)),
           writer := WCopying(data, room, wi, seen, count, done + 1))
      else
        FinishWrite(s.(writeIndex := Advance(s.c, wi, count)), data, room, count)
  }

  ghost function FinishRead(s: Ring, maxLen: nat, queued: int, bytes: seq<byte>): Ring {
    s.(reader := RReturned(maxLen, bytes), delivered := s.delivered + bytes,
       readLog := s.readLog + [ReadRecord(maxLen, queued, bytes)])
  }

  /** The next step of a reader inside `read`. */
  ghost function ReaderStep(s: Ring): Ring
    requires !s.reader.RIdle? && !s.reader.RReturned?
  {
    match s.reader
    case RCalled(maxLen, queued) =>
      s.(reader := RSized(maxLen, queued, s.writeIndex, |s.accepted|))
    case RSized(maxLen, queued, wi, seen) =>
      s.(reader := RCounted(maxLen, queued, wi, seen, s.readIndex))
    case RCounted(maxLen, queued, wi, seen, ri) =>
      var len := Min(CalcSize(s.c, ri, wi), maxLen);
      if len == 0 then FinishRead(s, maxLen, queued, [])
      else s.(reader := RCopying(maxLen, queued, s.readIndex, seen, len, []))
    case RCopying(maxLen, queued, ri, seen, count, got) =>
      if |got| < count then
        s.(reader := RCopying(maxLen, queued, ri, seen, count, got + [Load(s.mem, CopySlot(s.c, ri, |got|))]))
      else
        FinishRead(s.(readIndex := Advance(s.c, ri, count)), maxLen, queued, got)
  }

  ghost function Apply(s: Ring, a: Action): Ring
    requires Enabled(s, a)
  {
    match a
    case CallWrite(data) => s.(writer := WCalled(data, Room(s.c, s.Queued())))
    case StepWriter => WriterStep(s)
    case EndWrite => s.(writer := WIdle)
    case CallRead(maxLen) => s.(reader := RCalled(maxLen, s.Queued()))
    case StepReader => ReaderStep(s)
    case EndRead => s.(reader := RIdle)
  }

  ghost predicate Next(s: Ring, s': Ring) {
    exists a :: Enabled(s, a) && s' == Apply(s, a)
  }

  ghost predicate IsRun(run: seq<Ring>) {
    && |run| > 0 && Init(run[0])
    && forall i :: 0 <= i < |run| - 1 ==> Next(run[i], run[i + 1])
  }

  // The inductive invariant.

  ghost predicate MemoryInv(s: Ring) {
    && 0 < s.c < WIDTH && |s.mem| == s.c
    && s.delivered <= s.accepted
    && s.Queued() <= Room(s.c, 0)
    && s.readIndex == IndexOf(|s.delivered|, s.c)
    && s.writeIndex == IndexOf(|s.accepted|, s.c)
    && forall k :: |s.delivered| <= k < |s.accepted| ==> s.mem[Slot(k, s.c)] == s.accepted[k]
  }

  /** What a snapshot of the reader's index, taken when `seen` bytes had been read, is worth. */
  ghost predicate StaleRead(s: Ring, room: nat, seen: nat) {
    seen <= |s.delivered| && |s.accepted| - seen <= Room(s.c, 0) && room <= Room(s.c, |s.accepted| - seen)
  }

  ghost predicate WriterInv(s: Ring)
    requires 0 < s.c == |s.mem|
  {
    match s.writer
    case WIdle => true
    case WCalled(data, room) => |data| < WIDTH && room <= Room(s.c, s.Queued())
    case WSized(data, room, wi) => |data| < WIDTH && room <= Room(s.c, s.Queued()) && wi == s.writeIndex
    case WCounted(data, room, wi, ri, seen) =>
      |data| < WIDTH && wi == s.writeIndex && StaleRead(s, room, seen) && ri == IndexOf(seen, s.c)
    case WCopying(data, room, wi, seen, count, done) =>
      && wi == s.writeIndex && StaleRead(s, room, seen)
      && count == Min(|data|, Room(s.c, |s.accepted| - seen))
      && done <= count
      && forall j :: 0 <= j < done ==> s.mem[Slot(|s.accepted| + j, s.c)] == data[j]
    case WReturned(len) => s.writeLog != [] && s.writeLog[|s.writeLog| - 1].len == len
  }

  ghost predicate ReaderInv(s: Ring)
    requires 0 < s.c == |s.mem|
  {
    match s.reader
    case RIdle => true
    case RCalled(maxLen, queued) => queued <= s.Queued()
    case RSized(maxLen, queued, wi, seen) =>
      |s.delivered| <= seen <= |s.accepted| && queued <= seen - |s.delivered| && wi == IndexOf(seen, s.c)
    case RCounted(maxLen, queued, wi, seen, ri) =>
      && |s.delivered| <= seen <= |s.accepted| && queued <= seen - |s.delivered|
      && wi == IndexOf(seen, s.c) && ri == s.readIndex
    case RCopying(maxLen, queued, ri, seen, count, got) =>
      && |s.delivered| <= seen <= |s.accepted| && queued <= seen - |s.delivered|
      && ri == s.readIndex && count == Min(seen - |s.delivered|, maxLen)
      && |got| <= count && got == s.accepted[|s.delivered|..|s.delivered| + |got|]
    case RReturned(maxLen, bytes) =>
      |bytes| <= maxLen && s.readLog != []
      && s.readLog[|s.readLog| - 1].maxLen == maxLen && s.readLog[|s.readLog| - 1].bytes == bytes
  }

  ghost function Written(log: seq<WriteRecord>): seq<byte> {
    if log == [] then []
    else var last := log[|log| - 1];
         Written(log[..|log| - 1]) + last.data[..Min(last.len, |last.data|)]
  }

  ghost function Read(log: seq<ReadRecord>): seq<byte> {
    if log == [] then [] else Read(log[..|log| - 1]) + log[|log| - 1].bytes
  }

  /** A completed write took a prefix, at least as much as the room at its start allowed. */
  ghost predicate GoodWrite(r: WriteRecord) {
    Min(|r.data|, r.room) <= r.len <= |r.data|
  }

  /** A completed read got at least the bytes that were queued at its start, up to its limit. */
  ghost predicate GoodRead(r: ReadRecord) {
    |r.bytes| <= r.maxLen && (r.queued <= |r.bytes| || |r.bytes| == r.maxLen)
  }

  ghost predicate HistoryInv(s: Ring) {
    && s.accepted == Written(s.writeLog) && s.delivered == Read(s.readLog)
    && (forall r :: r in s.writeLog ==> GoodWrite(r))
    && (forall r :: r in s.readLog ==> GoodRead(r))
  }

  ghost predicate Inv(s: Ring) {
    MemoryInv(s) && WriterInv(s) && ReaderInv(s) && HistoryInv(s)
  }

  lemma InitInv(s: Ring)
    requires Init(s)
    ensures Inv(s)
  {
  }

  lemma CallKeepsInv(s: Ring, a: Action)
    requires Inv(s) && Enabled(s, a) && !a.StepWriter? && !a.StepReader?
    ensures Inv(Apply(s, a))
  {
    hide Slot, IndexOf, Written, Read;
  }

  /** One more completed write or read. */
  lemma LogsGrow(w: seq<WriteRecord>, x: WriteRecord, r: seq<ReadRecord>, y: ReadRecord)
    ensures Written(w + [x]) == Written(w) + x.data[..Min(x.len, |x.data|)]
    ensures Read(r + [y]) == Read(r) + y.bytes
  {
    assert (w + [x])[..|w|] == w;
    assert (r + [y])[..|r|] == r;
  }

  /** A writer's load, and a write that finds no room. */
  lemma WriterLoadKeepsInv(s: Ring)
    requires Inv(s) && (s.writer.WCalled? || s.writer.WSized? || s.writer.WCounted?)
    ensures Inv(WriterStep(s))
  {
    hide Slot, IndexOf, Capacity, WriteLength, Written, Read;
    if s.writer.WCounted? {
      CapacityExact(s.c, s.writer.seen, |s.accepted|);
      var avail := Capacity(s.c, s.writer.readIndex, s.writer.writeIndex);
      if avail == 0 {
        LogsGrow(s.writeLog, WriteRecord(s.writer.data, s.writer.room, 0), [], ReadRecord(0, 0, []));
      } else {
        WriteLengthExact(avail, |s.writer.data|);
      }
    }
  }

  /** A one-byte copy goes to a slot that holds no unread byte and no byte copied before it. */
  lemma WriterCopyKeepsInv(s: Ring)
    requires Inv(s) && s.writer.WCopying? && s.writer.done < s.writer.count
    ensures Inv(WriterStep(s))
  {
    hide Slot, IndexOf, CopySlot, Written, Read;
    var w, total := s.writer, |s.accepted|;
    CopySlotExact(s.c, total, w.done);
    forall k | |s.delivered| <= k < total + w.done
      ensures Slot(k, s.c) != Slot(total + w.done, s.c)
    {
      SlotsApart(k, total + w.done, s.c);
    }
  }

  /** The store publishes exactly the bytes copied. */
  lemma WriterStoreMemory(s: Ring)
    requires Inv(s) && s.writer.WCopying? && s.writer.done == s.writer.count
    ensures MemoryInv(WriterStep(s))
  {
    hide Slot, IndexOf, Advance, ReaderInv, HistoryInv;
    AdvanceExact(s.c, |s.accepted|, s.writer.count);
  }

  lemma WriterStoreKeepsInv(s: Ring)
    requires Inv(s) && s.writer.WCopying? && s.writer.done == s.writer.count
    ensures Inv(WriterStep(s))
  {
    hide Slot, IndexOf, Advance, Written, Read;
    var w, s' := s.writer, WriterStep(s);
    WriterStoreMemory(s);
    assert HistoryInv(s') by {
      LogsGrow(s.writeLog, WriteRecord(w.data, w.room, w.count), [], ReadRecord(0, 0, []));
    }
    if s.reader.RCopying? {
      var r, n := |s.delivered|, |s.reader.got|;
      assert s'.accepted[r..r + n] == s.accepted[r..r + n];
    }
  }

  lemma ReaderLoadKeepsInv(s: Ring)
    requires Inv(s) && (s.reader.RCalled? || s.reader.RSized?)
    ensures Inv(ReaderStep(s))
  {
    hide Slot, IndexOf, Written, Read;
  }

  lemma ReaderCountKeepsInv(s: Ring)
    requires Inv(s) && s.reader.RCounted?
    ensures Inv(ReaderStep(s))
  {
    hide Slot, IndexOf, CalcSize, Written, Read;
    var r := s.reader;
    assert CalcSize(s.c, r.readIndex, r.writeIndex) == r.seen - |s.delivered| by {
      CalcSizeExact(s.c, |s.delivered|, r.seen);
    }
    LogsGrow([], WriteRecord([], 0, 0), s.readLog, ReadRecord(r.maxLen, r.queued, []));
    assert s.delivered + [] == s.delivered;
  }

  lemma ReaderCopyKeepsInv(s: Ring)
    requires Inv(s) && s.reader.RCopying? && |s.reader.got| < s.reader.count
    ensures Inv(ReaderStep(s))
  {
    hide Slot, IndexOf, CopySlot, Written, Read;
    var r, total := s.reader, |s.delivered|;
    CopySlotExact(s.c, total, |r.got|);
    assert Load(s.mem, CopySlot(s.c, r.readIndex, |r.got|)) == s.accepted[total + |r.got|];
  }

  lemma ReaderStoreMemory(s: Ring)
    requires Inv(s) && s.reader.RCopying? && |s.reader.got| == s.reader.count
    ensures MemoryInv(ReaderStep(s))
  {
    hide Slot, IndexOf, Advance, WriterInv, HistoryInv;
    AdvanceExact(s.c, |s.delivered|, s.reader.count);
    assert s.delivered + s.reader.got == s.accepted[..|s.delivered| + s.reader.count];
  }

  lemma ReaderStoreKeepsInv(s: Ring)
    requires Inv(s) && s.reader.RCopying? && |s.reader.got| == s.reader.count
    ensures Inv(ReaderStep(s))
  {
    hide Slot, IndexOf, Advance, Written, Read;
    ReaderStoreMemory(s);
    LogsGrow([], WriteRecord([], 0, 0), s.readLog,
             ReadRecord(s.reader.maxLen, s.reader.queued, s.reader.got));
  }

  lemma StepKeepsInv(s: Ring, a: Action)
    requires Inv(s) && Enabled(s, a)
    ensures Inv(Apply(s, a))
  {
    hide MemoryInv, HistoryInv, ReaderStep, WriterStep;
    match a
    case StepWriter =>
      if s.writer.WCopying? {
        if s.writer.done < s.writer.count { WriterCopyKeepsInv(s); } else { WriterStoreKeepsInv(s); }
      } else {
        WriterLoadKeepsInv(s);
      }
    case StepReader =>
      if s.reader.RCopying? {
        if |s.reader.got| < s.reader.count { ReaderCopyKeepsInv(s); } else { ReaderStoreKeepsInv(s); }
      } else if s.reader.RCounted? {
        ReaderCountKeepsInv(s);
      } else {
        ReaderLoadKeepsInv(s);
      }
    case _ => CallKeepsInv(s, a);
  }

  /** Every state of every run satisfies the invariant. */
  lemma {:induction false} RunInv(run: seq<Ring>, i: nat)
    requires IsRun(run) && i < |run|
    ensures Inv(run[i])
  {
    if i == 0 {
      InitInv(run[0]);
    } else {
      RunInv(run, i - 1);
      assert Next(run[i - 1], run[i]);
      var a :| Enabled(run[i - 1], a) && run[i] == Apply(run[i - 1], a);
      StepKeepsInv(run[i - 1], a);
    }
  }

  // What a step does to the history, for the endpoints that use the ring.

  ghost predicate Writing(s: Ring) {
    !s.writer.WIdle? && !s.writer.WReturned?
  }

  /** The bytes `write` was called with. */
  ghost function Offered(s: Ring): seq<byte>
    requires Writing(s)
  {
    match s.writer
    case WCalled(data, _) => data
    case WSized(data, _, _) => data
    case WCounted(data, _, _, _, _) => data
    case WCopying(data, _, _, _, _, _) => data
  }

  /** A writer's step is invisible to the reader; it either goes on with the same data or returns
      having published a prefix of it. */
  lemma WriterStepEffect(s: Ring)
    requires Inv(s) && Writing(s)
    ensures var s' := WriterStep(s);
      && s'.reader == s.reader && s'.delivered == s.delivered
      && (Writing(s') ==> Offered(s') == Offered(s) && s'.accepted == s.accepted)
      && (!Writing(s') ==>
            && s'.writer.WReturned? && s'.writer.len <= |Offered(s)|
            && s'.accepted == s.accepted + Offered(s)[..s'.writer.len]
            && s'.writeLog != [] && s'.writeLog[|s'.writeLog| - 1].data == Offered(s))
  {
    hide MemoryInv, ReaderInv, HistoryInv, Capacity, WriteLength, CopySlot, Advance, Slot, IndexOf;
  }

  /** The number of bytes a reader inside `read` was asked for. */
  ghost function Asked(r: Reader): nat {
    match r
    case RIdle => 0
    case RCalled(maxLen, _) => maxLen
    case RSized(maxLen, _, _, _) => maxLen
    case RCounted(maxLen, _, _, _, _) => maxLen
    case RCopying(maxLen, _, _, _, _, _) => maxLen
    case RReturned(maxLen, _) => maxLen
  }

  /** A reader's step is invisible to the writer; it either goes on or returns the bytes it took. */
  lemma ReaderStepEffect(s: Ring)
    requires !s.reader.RIdle? && !s.reader.RReturned?
    ensures var s' := ReaderStep(s);
      && s'.writer == s.writer && s'.accepted == s.accepted && s'.writeLog == s.writeLog && !s'.reader.RIdle?
      && Asked(s'.reader) == Asked(s.reader)
      && s'.delivered == s.delivered + (if s'.reader.RReturned? then s'.reader.bytes else [])
  {
    hide CalcSize, CopySlot, Advance;
  }

  // What the invariant means for users of the ring.

  /** In every reachable state the slots the writer is still to fill exist and are apart from the slot
      of every unread byte, so from every slot the reader is still to copy; and every unread byte
      still holds what was accepted. */
  lemma Safety(run: seq<Ring>, i: nat)
    requires IsRun(run) && i < |run|
    ensures var s := run[i];
      && s.c == |s.mem| && 0 < s.c && |s.delivered| <= |s.accepted|
      && (forall k :: |s.delivered| <= k < |s.accepted| ==> s.mem[Slot(k, s.c)] == s.accepted[k])
      && (s.writer.WCopying? ==> forall j :: s.writer.done <= j < s.writer.count ==>
            && CopySlot(s.c, s.writer.writeIndex, j) < s.c
            && forall k :: |s.delivered| <= k < |s.accepted| ==>
                 Slot(k, s.c) != CopySlot(s.c, s.writer.writeIndex, j))
      && (s.reader.RCopying? ==> forall m :: |s.reader.got| <= m < s.reader.count ==>
            && |s.delivered| + m < |s.accepted|
            && CopySlot(s.c, s.reader.readIndex, m) == Slot(|s.delivered| + m, s.c))
  {
    hide Slot, IndexOf, CopySlot, HistoryInv;
    RunInv(run, i);
    var s := run[i];
    if s.writer.WCopying? {
      forall j | s.writer.done <= j < s.writer.count
        ensures CopySlot(s.c, s.writer.writeIndex, j) == Slot(|s.accepted| + j, s.c)
        ensures forall k :: |s.delivered| <= k < |s.accepted| ==> Slot(k, s.c) != Slot(|s.accepted| + j, s.c)
      {
        CopySlotExact(s.c, |s.accepted|, j);
        forall k | |s.delivered| <= k < |s.accepted| ensures Slot(k, s.c) != Slot(|s.accepted| + j, s.c) {
          SlotsApart(k, |s.accepted| + j, s.c);
        }
      }
    }
    if s.reader.RCopying? {
      forall m | |s.reader.got| <= m < s.reader.count
        ensures CopySlot(s.c, s.reader.readIndex, m) == Slot(|s.delivered| + m, s.c)
      {
        CopySlotExact(s.c, |s.delivered|, m);
      }
    }
  }

  /** No data race: the byte the writer fills next is never the byte the reader copies next. */
  lemma NoRace(run: seq<Ring>, i: nat)
    requires IsRun(run) && i < |run|
    requires run[i].writer.WCopying? && run[i].writer.done < run[i].writer.count
    requires run[i].reader.RCopying? && |run[i].reader.got| < run[i].reader.count
    ensures CopySlot(run[i].c, run[i].writer.writeIndex, run[i].writer.done)
         != CopySlot(run[i].c, run[i].reader.readIndex, |run[i].reader.got|)
  {
    hide Slot, CopySlot;
    Safety(run, i);
  }

  /** With operations ordered at their index stores the ring is a FIFO queue: in every run what the
      reads returned, put together, is a prefix of what the writes accepted, put together. The queue
      is relaxed only in how much one call moves, and never moves less than was possible at its start. */
  lemma Linearizable(run: seq<Ring>, i: nat)
    requires IsRun(run) && i < |run|
    ensures Read(run[i].readLog) <= Written(run[i].writeLog)
    ensures |Written(run[i].writeLog)| <= |Read(run[i].readLog)| + Room(run[i].c, 0)
    ensures forall r :: r in run[i].writeLog ==> GoodWrite(r)
    ensures forall r :: r in run[i].readLog ==> GoodRead(r)
  {
    hide Written, Read, IndexOf, Slot, GoodWrite, GoodRead;
    RunInv(run, i);
  }

  /** In every reachable state both indices lie in 0..C, the ambiguous pair does not occur, and
      `calcSize` of the two is the exact number of bytes queued. */
  lemma IndexInvariant(run: seq<Ring>, i: nat)
    requires IsRun(run) && i < |run|
    ensures var s := run[i];
      && s.readIndex <= s.c && s.writeIndex <= s.c
      && !(s.readIndex == 0 && s.writeIndex == s.c)
      && CalcSize(s.c, s.readIndex, s.writeIndex) == |s.accepted| - |s.delivered|
  {
    hide CalcSize, IndexOf, Slot, Written, Read;
    RunInv(run, i);
    var s := run[i];
    CalcSizeExact(s.c, |s.delivered|, |s.accepted|);
    NeverAmbiguous(s.c, |s.delivered|, |s.accepted|);
  }

  /** A ring of one or two bytes accepts nothing, ever: both bytes are the ones the writer gives up. So
      its indices never leave 0, and index C is not reached. */
  lemma {:induction false} TinyRingStaysEmpty(run: seq<Ring>, i: nat)
    requires IsRun(run) && i < |run| && run[i].c <= 2
    ensures run[i].accepted == [] && run[i].readIndex == run[i].writeIndex == 0
  {
    hide Inv, Enabled, Apply;
    RunInv(run, i);
    if i > 0 {
      RunInv(run, i - 1);
      assert Next(run[i - 1], run[i]);
      var a :| Enabled(run[i - 1], a) && run[i] == Apply(run[i - 1], a);
      StepHistory(run[i - 1], a);
      TinyRingStaysEmpty(run, i - 1);
      TinyRing(run[i - 1]);
    }
    TinyRing(run[i]);
  }

  /** A step publishes bytes or takes bytes, not both. */
  lemma StepHistory(s: Ring, a: Action)
    requires Inv(s) && Enabled(s, a)
    ensures var s' := Apply(s, a); s'.c == s.c && (s'.accepted == s.accepted || s'.delivered == s.delivered)
  {
    hide Inv, Capacity, CalcSize, WriteLength, CopySlot, Advance, Offered;
    match a
    case StepWriter => WriterStepEffect(s);
    case StepReader => ReaderStepEffect(s);
    case _ =>
  }

  lemma TinyRing(s: Ring)
    requires Inv(s) && s.c <= 2
    ensures |s.accepted| == |s.delivered|
    ensures s.accepted == [] ==> s.readIndex == s.writeIndex == 0
    ensures Init(s) ==> s.accepted == []
  {
    hide WriterInv, ReaderInv, HistoryInv, Slot;
  }
}
