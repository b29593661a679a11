/** The transport under a connection. One class stands for both kinds the program has: the pair of
    shared-memory rings, and a socket of the operating system, whose answers are given in advance.
    What its callers may rely on is the contract of each method. */
module Transport {
  import opened Words
  import opened Framing
  import opened RingIndex
  import opened Spsc

  /** What the operating system will report to one `receive`. */
  datatype Arrival = Chunk(bytes: seq<byte>) | NothingYet(errno: Errno) | EndOfStream

  /** What it will report to one `send`. */
  datatype Acceptance = Takes(len: nat) | Refuses(errno: Errno)

  /** Everything an operating-system socket will report. */
  datatype Script = Script(arrivals: seq<Arrival>, acceptances: seq<Acceptance>)

  datatype Errno = WOULD_BLOCK | IN_PROGRESS | BROKEN

  datatype Call = ReceiveCall | SendCall | CloseCall | NullSelectCall

  /** `stream`: all the peer has published, of which `received` is a prefix; `taken`: how many of the
      accepted bytes the peer has taken; `room`: how many more a `Send` can place. */
  datatype RingView = RingView(stream: seq<byte>, taken: nat, room: nat)

  // What the scripts of an operating-system socket hold.

  /** A receive from it brings bytes. */
  predicate Delivers(a: Arrival) {
    a.Chunk? && a.bytes != []
  }

  /** The position of the first arrival that brings no bytes, or the length when there is none. */
  function StopAt(arrivals: seq<Arrival>): (k: nat)
    ensures k <= |arrivals|
    ensures forall i :: 0 <= i < k ==> Delivers(arrivals[i])
    ensures k < |arrivals| ==> !Delivers(arrivals[k])
  {
    if arrivals == [] || !Delivers(arrivals[0]) then 0 else StopAt(arrivals[1..]) + 1
  }

  /** What arrives before the first stop. */
  function Chunks(arrivals: seq<Arrival>): (chunks: seq<seq<byte>>)
    ensures |chunks| == StopAt(arrivals)
    ensures forall i :: 0 <= i < |chunks| ==> arrivals[i] == Chunk(chunks[i])
  {
    seq(StopAt(arrivals), i requires 0 <= i < StopAt(arrivals) => arrivals[i].bytes)
  }

  function Waiting(arrivals: seq<Arrival>): seq<byte> {
    Flatten(Chunks(arrivals))
  }

  /** What is left once the stop has been met. */
  function AfterStop(arrivals: seq<Arrival>): seq<Arrival> {
    Drop(arrivals, StopAt(arrivals) + 1)
  }

  /** The stop is the end of the stream, an empty chunk or an error, not a mere wait. */
  predicate Fatal(arrivals: seq<Arrival>) {
    var k := StopAt(arrivals);
    k < |arrivals| && (arrivals[k].EndOfStream? || arrivals[k].Chunk? || arrivals[k] == NothingYet(BROKEN))
  }

  lemma FirstWaits(arrivals: seq<Arrival>)
    requires arrivals != [] && Delivers(arrivals[0])
    ensures Waiting(arrivals) == arrivals[0].bytes + Waiting(arrivals[1..])
    ensures AfterStop(arrivals) == AfterStop(arrivals[1..]) && Fatal(arrivals) == Fatal(arrivals[1..])
  {
    var chunks, later := Chunks(arrivals), Chunks(arrivals[1..]);
    assert StopAt(arrivals) == StopAt(arrivals[1..]) + 1;
    assert forall i :: 0 <= i < |later| ==> arrivals[i + 1] == Chunk(later[i]);
    assert chunks[1..] == later;
  }

  /** Taking the first `n` bytes of a chunk leaves the rest of everything. */
  lemma TakeOfChunk(arrivals: seq<Arrival>, n: nat)
    requires arrivals != [] && arrivals[0].Chunk? && 0 < n <= |arrivals[0].bytes|
    ensures var c := arrivals[0].bytes;
      var after := (if n < |c| then [Chunk(c[n..])] else []) + arrivals[1..];
      && Waiting(arrivals) == c[..n] + Waiting(after)
      && AfterStop(arrivals) == AfterStop(after) && Fatal(arrivals) == Fatal(after)
  {
    hide Waiting, AfterStop, Fatal;
    var c := arrivals[0].bytes;
    FirstWaits(arrivals);
    if n < |c| {
      var after := [Chunk(c[n..])] + arrivals[1..];
      FirstWaits(after);
      assert after[1..] == arrivals[1..];
      assert c == c[..n] + c[n..];
    } else {
      assert [] + arrivals[1..] == arrivals[1..];
    }
  }

  lemma NothingWaits(arrivals: seq<Arrival>)
    requires arrivals == [] || !Delivers(arrivals[0])
    ensures Waiting(arrivals) == [] && AfterStop(arrivals) == Drop(arrivals, 1)
    ensures Fatal(arrivals) <==>
      arrivals != [] && arrivals[0] != NothingYet(WOULD_BLOCK) && arrivals[0] != NothingYet(IN_PROGRESS)
  {
    if arrivals != [] {
      match arrivals[0]
      case Chunk(c) =>
      case NothingYet(e) => assert e == WOULD_BLOCK || e == IN_PROGRESS || e == BROKEN;
      case EndOfStream =>
    }
  }

  /** A send to it takes bytes. */
  predicate Progresses(a: Acceptance) {
    a.Takes? && a.len > 0
  }

  /** How many bytes the first `u` acceptances take, offered enough. */
  function Total(acceptances: seq<Acceptance>, u: nat): nat
    requires u <= |acceptances|
  {
    if u == 0 then 0
    else Total(acceptances, u - 1) + if acceptances[u - 1].Takes? then acceptances[u - 1].len else 0
  }

  /** The acceptance is an error, or takes nothing, which counts as one. */
  predicate Breaks(a: Acceptance) {
    a == Takes(0) || a == Refuses(BROKEN)
  }

  /** Sending `n` bytes uses the first `u` acceptances: each but the last takes bytes and leaves some, and
      the last takes the rest or stops the sending. */
  ghost predicate Uses(acceptances: seq<Acceptance>, n: nat, u: nat) {
    && u <= |acceptances| && (n == 0 ==> u == 0)
    && (forall i :: 0 <= i < u - 1 ==> Progresses(acceptances[i])) && (u > 0 ==> Total(acceptances, u - 1) < n)
    && (n > 0 && u < |acceptances| ==>
          u > 0 && (Total(acceptances, u) >= n || !Progresses(acceptances[u - 1])))
  }

  /** What one receive from the operating system answers. */
  ghost predicate Answers(before: seq<Arrival>, maxLen: nat, ret: int, bytes: seq<byte>, errno: Errno, after: seq<Arrival>) {
    if before == [] then ret == -1 && errno == WOULD_BLOCK && after == []
    else
      match before[0]
      case Chunk(c) =>
        && ret == |bytes| == Min(|c|, maxLen) && bytes == c[..|bytes|]
        && after == (if |bytes| < |c| then [Chunk(c[|bytes|..])] else []) + before[1..]
      case NothingYet(e) => ret == -1 && errno == e && after == before[1..]
      case EndOfStream => ret == 0 && after == before[1..]
  }

  /** What one send to it answers. */
  ghost predicate Accepts(before: seq<Acceptance>, dataLen: nat, ret: int, errno: Errno, after: seq<Acceptance>) {
    if before == [] then ret == -1 && errno == WOULD_BLOCK && after == []
    else
      && after == before[1..]
      && match before[0]
         case Takes(len) => ret == Min(len, dataLen)
         case Refuses(e) => ret == -1 && errno == e
  }

  class Wsocket {
    const shared: bool
    const reader: SPSC  // the rings; unattached when not shared
    const writer: SPSC
    var arrivals: seq<Arrival>
    var acceptances: seq<Acceptance>
    var errno: Errno
    ghost var received: seq<byte>  // every byte ever received
    ghost var accepted: seq<byte>  // every byte ever accepted for sending
    ghost var calls: seq<Call>     // every call that can touch the peer, in order

    ghost predicate Valid()
      reads this, Rings()
    {
      shared ==>
        && reader.Valid() && writer.Valid() && !reader.isWriter && writer.isWriter
        && reader.header != writer.header && reader.header.base != writer.header.base
        && received == reader.header.accepted[..reader.header.taken]
        && accepted == writer.header.accepted
    }

    function Pending(): Script
      reads this
    {
      Script(arrivals, acceptances)
    }

    /** Everything `Valid` depends on besides this object. */
    ghost function Rings(): set<object>
      reads reader, writer
    {
      {reader, writer}
      + (if reader.header != null then {reader.header, reader.header.base} else {})
      + (if writer.header != null then {writer.header, writer.header.base} else {})
    }

    /** What `Receive` may change besides this object and its destination. */
    ghost function ReadSide(): set<object>
      reads reader
    {
      if shared && reader.header != null then {reader.header} else {}
    }

    /** What `Send` may change besides this object. */
    ghost function WriteSide(): set<object>
      reads writer
    {
      if shared && writer.header != null then {writer.header, writer.header.base} else {}
    }

    /** What this side can see of the peer through the rings. */
    ghost function View(): RingView
      requires Valid()
      reads this, Rings()
    {
      if shared then
        RingView(reader.header.accepted, writer.header.taken,
                 Room(writer.capacity, |writer.header.accepted| - writer.header.taken))
      else RingView([], 0, 0)
    }

    constructor OfSystem(arrivals: seq<Arrival>, acceptances: seq<Acceptance>)
      ensures Valid() && !shared && received == [] && accepted == [] && calls == []
      ensures this.arrivals == arrivals && this.acceptances == acceptances
      ensures fresh(Rings())
    {
      shared := false;
      reader := new SPSC();
      writer := new SPSC();
      this.arrivals, this.acceptances := arrivals, acceptances;
      errno := WOULD_BLOCK;
      received, accepted, calls := [], [], [];
    }

    /** The two rings of a server connection: it writes to the server block and reads from the client
        block; a client does the opposite. A server clears both. */
    constructor OfSharedMemory(serverBlock: SharedMemory, clientBlock: SharedMemory, size: uint32, isServer: bool)
      requires serverBlock != clientBlock && serverBlock.base != clientBlock.base
      requires HEADER < size && serverBlock.base.Length == clientBlock.base.Length == size - HEADER
      requires !isServer ==> serverBlock.Valid() && serverBlock.bufferSize == size
      requires !isServer ==> clientBlock.Valid() && clientBlock.bufferSize == size
      modifies serverBlock, clientBlock
      ensures Valid() && shared && calls == []
      ensures fresh(reader) && fresh(writer)
      ensures writer.capacity == reader.capacity == size - HEADER && writer != reader
      ensures writer.header == (if isServer then serverBlock else clientBlock)
      ensures reader.header == (if isServer then clientBlock else serverBlock)
      ensures isServer ==> received == [] && accepted == [] && View().stream == []
      ensures !isServer ==> unchanged(serverBlock) && unchanged(clientBlock)
    {
      var w: SPSC := new SPSC();
      var r: SPSC := new SPSC();
      var ok: bool;
      if isServer {
        ok := w.Init(serverBlock, size, true, true);
        ok := r.Init(clientBlock, size, false, true);
      } else {
        ok := w.Init(clientBlock, size, true, false);
        ok := r.Init(serverBlock, size, false, false);
      }
      shared := true;
      reader, writer := r, w;
      arrivals, acceptances, errno := [], [], WOULD_BLOCK;
      received := r.header.accepted[..r.header.taken];
      accepted := w.header.accepted;
      calls := [];
    }

    /** Takes at most `maxLen` bytes from the peer. A result of zero or less means none. */
    method Receive(dest: array<byte>, at: nat, maxLen: uint32) returns (ret: int, ghost bytes: seq<byte>)
      requires Valid() && dest !in Rings() && at + maxLen <= dest.Length
      modifies this`arrivals, this`errno, this`received, this`calls, ReadSide(), dest
      ensures Valid() && ret <= maxLen && calls == old(calls) + [ReceiveCall]
      ensures |bytes| == if ret > 0 then ret else 0
      ensures received == old(received) + bytes && dest[at..at + |bytes|] == bytes
      ensures forall i :: 0 <= i < dest.Length && !(at <= i < at + |bytes|) ==> dest[i] == old(dest[i])
      ensures View() == old(View())
      ensures shared ==> received <= View().stream && (bytes == [] ==> ret == -1)
      ensures shared ==> |bytes| == Min(maxLen, |View().stream| - |old(received)|)
      ensures !shared ==> Answers(old(arrivals), maxLen, ret, bytes, errno, arrivals)
    {
      calls := calls + [ReceiveCall];
      bytes := [];
      if shared {
        var count := reader.Read(dest, at, maxLen);
        bytes := dest[at..at + count];
        ret := if count > 0 then count else -1;
      } else if arrivals == [] {
        ret, errno := -1, WOULD_BLOCK;
      } else {
        match arrivals[0]
        case Chunk(chunk) =>
          var n := Min(|chunk|, maxLen);
          CopyBytes(dest, at, chunk[..n]);
          arrivals := (if n < |chunk| then [Chunk(chunk[n..])] else []) + arrivals[1..];
          bytes := chunk[..n];
          ret := n;
        case NothingYet(e) =>
          ret, errno, arrivals := -1, e, arrivals[1..];
        case EndOfStream =>
          ret, arrivals := 0, arrivals[1..];
      }
      received := received + bytes;
    }

    /** Offers bytes to the peer, who accepts a prefix. A result of zero or less means none. */
    method Send(data: array<byte>, from: nat, dataLen: uint32) returns (ret: int)
      requires Valid() && data !in Rings() && from + dataLen <= data.Length
      modifies this`acceptances, this`errno, this`accepted, this`calls, WriteSide()
      ensures Valid() && ret <= dataLen && calls == old(calls) + [SendCall]
      ensures ret > 0 ==> accepted == old(accepted) + data[from..from + ret]
      ensures ret <= 0 ==> accepted == old(accepted)
      ensures shared ==> ret == var n := Min(dataLen, old(View()).room); if n == 0 then -1 else n
      ensures !shared ==> Accepts(old(acceptances), dataLen, ret, errno, acceptances)
      ensures View() == if shared && ret > 0 then old(View()).(room := old(View()).room - ret) else old(View())
    {
      calls := calls + [SendCall];
      if shared {
        var count := writer.Write(data, from, dataLen);
        accepted := accepted + data[from..from + count];
        ret := if count > 0 then count else -1;
      } else if acceptances == [] {
        ret, errno := -1, WOULD_BLOCK;
      } else {
        match acceptances[0] {
          case Takes(len) =>
            var n := Min(len, dataLen);
            accepted := accepted + data[from..from + n];
            ret := n;
          case Refuses(e) =>
            ret, errno := -1, e;
        }
        acceptances := acceptances[1..];
      }
    }

    /** Whether the last call moved nothing only because it would have had to wait. */
    predicate WouldBlock()
      reads this
    {
      shared || errno == WOULD_BLOCK
    }

    predicate InProgress()
      reads this
    {
      !shared && errno == IN_PROGRESS
    }

    method Close()
      requires Valid()
      modifies this`calls
      ensures Valid() && calls == old(calls) + [CloseCall]
      ensures View() == old(View())
    {
      calls := calls + [CloseCall];
    }

    method NullSelect(timeOut: int)
      requires Valid()
      modifies this`calls
      ensures Valid() && View() == old(View())
      ensures calls == old(calls) + [NullSelectCall]
    {
      calls := calls + [NullSelectCall];
    }
  }
}
