/** The two ends of one shared-memory connection, polled in turns. */
module Pair {
  import opened Words
  import opened Frames
  import opened RingIndex
  import opened Framing
  import opened ReadyStates
  import opened Transport
  import opened SocketChat
  import opened SimpleBuffer
  import opened Spsc
  import S = Session
  import D = Drain

  /** Two connections wired to each other: each writes the block the other reads, and they share
      nothing else. */
  ghost predicate Connected(x: SocketChat, y: SocketChat)
    reads x.Footprint(), y.Footprint()
    ensures Connected(x, y) ==> x.Valid() && y.Valid()
  {
    && x.Valid() && y.Valid() && x.socket.shared && y.socket.shared
    && x.socket.writer.header == y.socket.reader.header && y.socket.writer.header == x.socket.reader.header
    && Private(x) !! y.Footprint() && Private(y) !! x.Footprint()
  }

  /** What a connection does not share with its peer. */
  ghost function Private(x: SocketChat): set<object>
    reads x, x.receiveBuffer, x.transmitBuffer
  {
    {x, x.receiveBuffer, x.receiveBuffer.buffer, x.transmitBuffer, x.transmitBuffer.buffer,
     x.socket, x.socket.reader, x.socket.writer}
  }

  /** The direction from `x` to `y` as a value. */
  ghost function Between(c: nat, x: S.Session, y: S.Session): D.Link {
    D.Link(c, x.tx, if |y.received| <= |x.accepted| then x.accepted[|y.received|..] else [], y.rx, y.messages)
  }

  ghost function LinkOf(x: SocketChat, y: SocketChat): D.Link
    requires Connected(x, y)
    reads x.Footprint(), y.Footprint()
  {
    Between(x.socket.writer.capacity, x.Abs(), y.Abs())
  }

  /** A server's transport, which clears both blocks, and then a client's on the same blocks. */
  method ConnectSockets(serverBlock: SharedMemory, clientBlock: SharedMemory, size: uint32)
    returns (s: Wsocket, c: Wsocket)
    requires serverBlock != clientBlock && serverBlock.base != clientBlock.base
    requires HEADER < size && serverBlock.base.Length == clientBlock.base.Length == size - HEADER
    modifies serverBlock, clientBlock
    ensures s.Valid() && c.Valid() && s.shared && c.shared
    ensures {s, s.reader, s.writer} !! {c} + c.Rings() && {c, c.reader, c.writer} !! {s} + s.Rings()
    ensures s.writer.header == c.reader.header == serverBlock && c.writer.header == s.reader.header == clientBlock
    ensures s.received == s.accepted == c.received == c.accepted == []
    ensures Capacities(s) == Capacities(c) == (size - HEADER, size - HEADER)
  {
    hide IndexOf, Slot, Room;
    s := new Wsocket.OfSharedMemory(serverBlock, clientBlock, size, true);
    c := new Wsocket.OfSharedMemory(serverBlock, clientBlock, size, false);
  }

  /** A new connection on one end, apart from everything known so far; the other end's transport is not
      touched. */
  method Open(socket: Wsocket, peer: Wsocket, ghost known: set<object>) returns (chat: SocketChat)
    requires socket.Valid() && peer.Valid()
    ensures chat.Valid() && chat.socket == socket && peer.Valid() && chat.readyState == OPEN
    ensures fresh(chat.Own()) && chat.Own() !! known
    ensures chat.Abs() == S.NEW.(accepted := socket.accepted, received := socket.received, calls := socket.calls)
  {
    hide Attached, IndexOf, Slot, Room;
    chat := new SocketChat(socket);
  }

  /** The second end of a connection whose first end is open. */
  method OpenSecond(server: SocketChat, c: Wsocket) returns (client: SocketChat)
    requires server.Valid() && c.Valid() && server.socket.shared && c.shared
    requires server.socket.writer.header == c.reader.header && c.writer.header == server.socket.reader.header
    requires Private(server) !! {c} + c.Rings() && {c, c.reader, c.writer} !! server.Footprint()
    ensures Connected(server, client) && client.socket == c && client.readyState == OPEN
    ensures server.readyState == old(server.readyState) && server.Abs() == old(server.Abs())
    ensures client.Abs() == S.NEW.(accepted := c.accepted, received := c.received, calls := c.calls)
    ensures server.socket.writer.capacity == old(server.socket.writer.capacity)
    ensures c.writer.capacity == old(c.writer.capacity)
  {
    hide SimpleBuffer.Contents, IndexOf, Slot, Room, Attached;
    ghost var before := server.Footprint();
    client := new SocketChat(c);
    assert client.Own() !! before;
  }

  /** The two ends of a new connection. */
  method Connect(serverBlock: SharedMemory, clientBlock: SharedMemory, size: uint32)
    returns (server: SocketChat, client: SocketChat)
    requires serverBlock != clientBlock && serverBlock.base != clientBlock.base
    requires HEADER < size && serverBlock.base.Length == clientBlock.base.Length == size - HEADER
    modifies serverBlock, clientBlock
    ensures Connected(server, client) && server.readyState == OPEN && client.readyState == OPEN
    ensures LinkOf(server, client) == LinkOf(client, server) == D.Link(size - HEADER, [], [], [], [])
  {
    hide Wsocket.Valid, Wsocket.View, SimpleBuffer.Contents, SocketChat.Valid, Connected;
    var s, c := ConnectSockets(serverBlock, clientBlock, size);
    server := Open(s, c, {s, s.reader, s.writer, c, c.reader, c.writer} + s.Rings() + c.Rings());
    client := OpenSecond(server, c);
  }

  /** One end polls; the rings of the other end, `far`, are as good as before. */
  method PollWired(x: SocketChat, far: Wsocket, callback: Callback?) returns (ghost io: S.PollIo)
    requires x.Valid() && x.readyState == OPEN && far.Valid() && x.socket.shared && far.shared
    requires SameHandles(far.writer.header, far.reader.header, x.socket)
    requires {far, far.reader, far.writer} !! x.Footprint()
    modifies x.Footprint(), callback
    ensures x.Valid() && far.Valid()
    ensures x.receiveBuffer.buffer == old(x.receiveBuffer.buffer) || fresh(x.receiveBuffer.buffer)
    ensures x.transmitBuffer.buffer == old(x.transmitBuffer.buffer)
    ensures SameHandles(far.writer.header, far.reader.header, x.socket)
    ensures Capacities(x.socket) == old(Capacities(x.socket))
    ensures S.Possible(old(x.Abs()), io) && x.Abs() == S.AfterPoll(old(x.Abs()), io, callback != null, 0)
    ensures SharedPoll(old(x.Abs()), old(x.socket.View()), io)
  {
    hide S.AfterPoll, SharedPoll, S.Possible, IndexOf, Slot, Room, Attached, SimpleBuffer.Contents;
    ghost var before := x.Abs();
    io := x.Poll(callback, 0);
    S.PollOnlyAdds(before, io, callback != null, 0);
  }

  ghost predicate SameHandles(r: SharedMemory?, w: SharedMemory?, socket: Wsocket)
    reads socket, socket.reader, socket.writer
  {
    socket.reader.header == r && socket.writer.header == w
  }

  ghost function Capacities(socket: Wsocket): (uint32, uint32)
    reads socket.reader, socket.writer
  {
    (socket.reader.capacity, socket.writer.capacity)
  }

  /** One end polls; the other end is not disturbed. */
  method PollBeside(x: SocketChat, y: SocketChat, callback: Callback?) returns (ghost io: S.PollIo)
    requires Connected(x, y) && x.readyState == OPEN
    modifies x.Footprint(), callback
    ensures Connected(x, y) && y.readyState == old(y.readyState)
    ensures y.receiveBuffer.buffer == old(y.receiveBuffer.buffer)
    ensures y.transmitBuffer.buffer == old(y.transmitBuffer.buffer) && y.socket.Rings() == old(y.socket.Rings())
    ensures x.receiveBuffer.buffer == old(x.receiveBuffer.buffer) || fresh(x.receiveBuffer.buffer)
    ensures x.transmitBuffer.buffer == old(x.transmitBuffer.buffer) && x.socket.Rings() == old(x.socket.Rings())
    ensures Capacities(x.socket) == old(Capacities(x.socket)) && Capacities(y.socket) == old(Capacities(y.socket))
    ensures S.Possible(old(x.Abs()), io) && x.Abs() == S.AfterPoll(old(x.Abs()), io, callback != null, 0)
    ensures y.Abs() == old(y.Abs())
    ensures SharedPoll(old(x.Abs()), old(x.socket.View()), io)
  {
    hide S.AfterPoll, SharedPoll, S.Possible, Wsocket.Valid, Wsocket.View, SimpleBuffer.Contents;
    io := PollWired(x, y.socket, callback);
  }

  /** What the wiring means: the ring `y` reads carries what `x` had accepted, and what `y` received from
      it is what `x` sees as taken. */
  lemma Wiring(x: SocketChat, y: SocketChat)
    requires Connected(x, y)
    ensures y.socket.View().stream == x.socket.accepted && y.socket.received <= x.socket.accepted
    ensures x.socket.View().room == Room(x.socket.writer.capacity, |x.socket.accepted| - |y.socket.received|)
    ensures x.socket.writer.capacity > 0 && |x.socket.accepted| - |y.socket.received| <= Room(x.socket.writer.capacity, 0)
  {
  }

  lemma SenderPollIsTurn(c: nat, x: S.Session, y: S.Session, view: RingView, io: S.PollIo, x': S.Session)
    requires x.ready == OPEN && S.Possible(x, io) && SharedPoll(x, view, io)
    requires y.received <= x.accepted && view.room == Room(c, |x.accepted| - |y.received|)
    requires x' == S.AfterPoll(x, io, false, 0)
    ensures x'.ready == OPEN && Between(c, x', y) == D.SenderTurn(Between(c, x, y))
  {
    hide Room;
    assert (x.accepted + x.tx[..io.taken])[|y.received|..] == x.accepted[|y.received|..] + x.tx[..io.taken];
  }

  lemma ReceiverPollIsTurn(c: nat, x: S.Session, y: S.Session, view: RingView, io: S.PollIo, y': S.Session)
    requires y.ready == OPEN && S.Possible(y, io) && SharedPoll(y, view, io)
    requires y.received <= x.accepted == view.stream
    requires 4 * MAX_READ_SIZE + 2 * (|y.rx| + |x.accepted| - |y.received|) <= MAX_BUFFER_SIZE
    requires y' == S.AfterPoll(y, io, true, 0)
    ensures y'.ready == OPEN && Between(c, x, y') == D.ReceiverTurn(Between(c, x, y))
  {
    hide Dispatch;
    assert x.accepted[|y.received|..] == io.incoming;
  }

  lemma Symmetric(x: SocketChat, y: SocketChat)
    ensures Connected(x, y) <==> Connected(y, x)
  {
    hide IndexOf, Slot, Attached;
  }

  method SenderPolls(x: SocketChat, y: SocketChat)
    requires Connected(x, y) && x.readyState == OPEN
    modifies x.Footprint()
    ensures Connected(x, y) && x.readyState == OPEN && y.readyState == old(y.readyState)
    ensures y.receiveBuffer.buffer == old(y.receiveBuffer.buffer)
    ensures y.transmitBuffer.buffer == old(y.transmitBuffer.buffer) && y.socket.Rings() == old(y.socket.Rings())
    ensures x.receiveBuffer.buffer == old(x.receiveBuffer.buffer) || fresh(x.receiveBuffer.buffer)
    ensures x.transmitBuffer.buffer == old(x.transmitBuffer.buffer) && x.socket.Rings() == old(x.socket.Rings())
    ensures LinkOf(x, y) == D.SenderTurn(old(LinkOf(x, y)))
  {
    hide Connected, D.SenderTurn, S.AfterPoll, SharedPoll, S.Possible, SocketChat.Abs, Wsocket.View;
    Wiring(x, y);
    ghost var x0, y0, view := x.Abs(), y.Abs(), x.socket.View();
    ghost var c := x.socket.writer.capacity;
    ghost var io := PollBeside(x, y, null);
    SenderPollIsTurn(c, x0, y0, view, io, x.Abs());
  }

  method ReceiverPolls(x: SocketChat, y: SocketChat, callback: Callback)
    requires Connected(x, y) && y.readyState == OPEN
    requires 4 * MAX_READ_SIZE + 2 * (|LinkOf(x, y).rx| + |LinkOf(x, y).queue|) <= MAX_BUFFER_SIZE
    modifies y.Footprint(), callback
    ensures Connected(x, y) && y.readyState == OPEN && x.readyState == old(x.readyState)
    ensures x.receiveBuffer.buffer == old(x.receiveBuffer.buffer)
    ensures x.transmitBuffer.buffer == old(x.transmitBuffer.buffer) && x.socket.Rings() == old(x.socket.Rings())
    ensures y.receiveBuffer.buffer == old(y.receiveBuffer.buffer) || fresh(y.receiveBuffer.buffer)
    ensures y.transmitBuffer.buffer == old(y.transmitBuffer.buffer) && y.socket.Rings() == old(y.socket.Rings())
    ensures LinkOf(x, y) == D.ReceiverTurn(old(LinkOf(x, y)))
  {
    hide Connected, D.ReceiverTurn, S.AfterPoll, SharedPoll, S.Possible, SocketChat.Abs, Wsocket.View;
    Wiring(x, y);
    Symmetric(x, y);
    ghost var x0, y0, view := x.Abs(), y.Abs(), y.socket.View();
    ghost var c := x.socket.writer.capacity;
    ghost var io := PollBeside(y, x, callback);
    Symmetric(x, y);
    ReceiverPollIsTurn(c, x0, y0, view, io, y.Abs());
  }

  /** One round on the real connections is one round of the model: the sender polls, then the receiver. */
  method Round(x: SocketChat, y: SocketChat, callback: Callback)
    requires Connected(x, y) && x.readyState == OPEN && y.readyState == OPEN
    requires 4 * MAX_READ_SIZE + 2 * (|LinkOf(x, y).rx| + LinkOf(x, y).Outstanding()) <= MAX_BUFFER_SIZE
    modifies x.Footprint(), y.Footprint(), callback
    ensures Connected(x, y) && x.readyState == OPEN && y.readyState == OPEN
    ensures x.receiveBuffer.buffer == old(x.receiveBuffer.buffer) || fresh(x.receiveBuffer.buffer)
    ensures x.transmitBuffer.buffer == old(x.transmitBuffer.buffer) && x.socket.Rings() == old(x.socket.Rings())
    ensures y.receiveBuffer.buffer == old(y.receiveBuffer.buffer) || fresh(y.receiveBuffer.buffer)
    ensures y.transmitBuffer.buffer == old(y.transmitBuffer.buffer) && y.socket.Rings() == old(y.socket.Rings())
    ensures LinkOf(x, y) == D.Round(old(LinkOf(x, y)))
  {
    hide Connected, LinkOf, Wsocket.Rings, D.SenderTurn, D.ReceiverTurn;
    D.SenderTurnKeeps(LinkOf(x, y));
    SenderPolls(x, y);
    ReceiverPolls(x, y, callback);
  }

  /** Polling in turns until the sender has nothing left to send delivers everything that was
      outstanding, after exactly the number of rounds the drain bound says. */
  method DrainAll(x: SocketChat, y: SocketChat, callback: Callback) returns (rounds: nat)
    requires Connected(x, y) && x.readyState == OPEN && y.readyState == OPEN && NoEnd(LinkOf(x, y).rx)
    requires 3 <= LinkOf(x, y).c && LinkOf(x, y).Outstanding() > 0
    requires 4 * MAX_READ_SIZE + 2 * (|LinkOf(x, y).rx| + LinkOf(x, y).Outstanding()) <= MAX_BUFFER_SIZE
    modifies x.Footprint(), y.Footprint(), callback
    ensures Connected(x, y)
    ensures var l := old(LinkOf(x, y)); var d := Dispatch(l.rx + l.queue + l.tx);
      && rounds == D.CeilDiv(l.Outstanding(), l.c - 2)
      && LinkOf(x, y) == D.Link(l.c, [], [], d.rest, l.messages + d.messages)
  {
    hide Connected, LinkOf, Wsocket.Rings, D.Round, D.CeilDiv, Dispatch, NoEnd;
    ghost var l := LinkOf(x, y);
    ghost var limit := |l.rx| + l.Outstanding();
    QueueFits(x, y);
    rounds := 0;
    while rounds == 0 || x.transmitBuffer.GetSize() > 0
      invariant Connected(x, y) && x.readyState == OPEN && y.readyState == OPEN
      invariant x.receiveBuffer.buffer == old(x.receiveBuffer.buffer) || fresh(x.receiveBuffer.buffer)
      invariant x.transmitBuffer.buffer == old(x.transmitBuffer.buffer) && x.socket.Rings() == old(x.socket.Rings())
      invariant y.receiveBuffer.buffer == old(y.receiveBuffer.buffer) || fresh(y.receiveBuffer.buffer)
      invariant y.transmitBuffer.buffer == old(y.transmitBuffer.buffer) && y.socket.Rings() == old(y.socket.Rings())
      invariant LinkOf(x, y) == D.Rounds(l, rounds)
      invariant rounds > 0 ==> D.Rounds(l, rounds - 1).Outstanding() > 0
      decreases LinkOf(x, y).Outstanding()
    {
      D.NextRound(l, rounds);
      QueueFits(x, y);
      Round(x, y, callback);
      rounds := rounds + 1;
    }
    QueueFits(x, y);
    D.NextRound(l, rounds);
    D.DrainBound(l, rounds - 1);
    D.DrainBound(l, rounds);
  }

  lemma QueueFits(x: SocketChat, y: SocketChat)
    requires Connected(x, y)
    ensures x.transmitBuffer.GetSize() == |LinkOf(x, y).tx|
    ensures 3 <= LinkOf(x, y).c ==> |LinkOf(x, y).queue| <= LinkOf(x, y).c - 2
  {
    hide IndexOf, Slot;
    Wiring(x, y);
  }
}
