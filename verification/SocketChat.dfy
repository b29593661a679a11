/** One chat connection: text framing on top of two growable buffers and a transport. */
module SocketChat {
  import opened Words
  import opened Frames
  import opened Framing
  import opened ReadyStates
  import opened SimpleBuffer
  import opened Transport
  import S = Session

  /** Receives the messages of a dispatch, as the server does: a later message overwrites an earlier one. */
  class Callback {
    var haveMessage: bool
    var message: Text
    ghost var received: seq<Text>  // every message since the last `Forget`

    ghost predicate Valid()
      reads this
    {
      (haveMessage <==> received != []) && (haveMessage ==> message == received[|received| - 1])
    }

    constructor ()
      ensures Valid() && received == []
    {
      haveMessage, message, received := false, [], [];
    }

    method Forget()
      modifies this
      ensures Valid() && received == []
    {
      haveMessage, received := false, [];
    }

    method ReceiveMessage(message: Text)
      modifies this
      ensures Valid() && received == old(received) + [message]
    {
      haveMessage := true;
      this.message := message;
      received := received + [message];
    }
  }

  /** A buffer within the limits of a connection. */
  ghost predicate Limited(b: SimpleBuffer)
    reads b
  {
    b.Valid() && b.Bounded() && b.maxGrowSize == MAX_BUFFER_SIZE
  }

  /** The first append of `sendText`. */
  method AppendText(b: SimpleBuffer, str: Option<seq<byte>>)
    requires Limited(b) && Exact(b.Win(), MAX_BUFFER_SIZE, |TextSent(str)|)
    modifies b, b.buffer
    ensures Limited(b) && b.Win() == TextAppended(old(b.Win()), |TextSent(str)|)
    ensures b.Contents() ==
      old(b.Contents()) + (if TextFits(old(b.Win()), |TextSent(str)|) then TextSent(str) else [])
    ensures b.buffer == old(b.buffer) || fresh(b.buffer)
  {
    hide TextSent, Fits, Reserved, Exact;
    var text := TextSent(str);
    ReservedMakesRoom(b.Win(), MAX_BUFFER_SIZE, |text|);
    var ok := b.AddBuffer(if str.Some? then Some(text) else None, |text|);
    NothingSent(str);
    assert text == [] ==> old(b.buffer[b.endLoc..b.endLoc]) == text;
  }

  lemma NothingSent(str: Option<seq<byte>>)
    ensures str.None? ==> TextSent(str) == []
  {
  }

  /** The two appends of `sendText`; neither result is looked at. */
  method AppendFrame(b: SimpleBuffer, str: Option<seq<byte>>)
    requires Limited(b) && Exact(b.Win(), MAX_BUFFER_SIZE, |TextSent(str)|)
    modifies b, b.buffer
    ensures Limited(b) && b.Win() == FrameAppended(old(b.Win()), |TextSent(str)|)
    ensures b.Contents() == old(b.Contents()) + Appending(old(b.Win()), TextSent(str))
    ensures b.buffer == old(b.buffer) || fresh(b.buffer)
  {
    hide TextSent, Fits, Reserved, Exact;
    AppendText(b, str);
    SmallIsExact(b.Win(), MAX_BUFFER_SIZE, 2);
    ReservedMakesRoom(b.Win(), MAX_BUFFER_SIZE, 2);
    var ok := b.AddBuffer(Some(END), 2);
  }

  /** A buffer of this module's size, apart from the memory of a transport. */
  ghost predicate Attached(b: SimpleBuffer, socket: Wsocket)
    reads b, b.buffer, socket, socket.Rings()
    ensures Attached(b, socket) ==> b.Valid() && socket.Valid() && |b.Contents()| <= MAX_BUFFER_SIZE
    ensures Attached(b, socket) && socket.shared ==> socket.received <= socket.View().stream
  {
    && Limited(b) && socket.Valid()
    && {b, b.buffer} !! socket.Rings()
  }

  /** Room for one receive. */
  method ReserveRoom(b: SimpleBuffer, socket: Wsocket) returns (ok: bool)
    requires Attached(b, socket)
    modifies b, b.buffer
    ensures Attached(b, socket) && b.Contents() == old(b.Contents())
    ensures b.buffer == old(b.buffer) || fresh(b.buffer)
    ensures ok ==> MAX_READ_SIZE <= b.Win().Free()
    ensures !ok ==> MAX_BUFFER_SIZE < 4 * MAX_READ_SIZE + 2 * |b.Contents()|
    ensures socket.View() == old(socket.View())
  {
    hide Wsocket.Valid, Wsocket.View, Fits, Reserved, Exact;
    if 4 * MAX_READ_SIZE + 2 * b.Win().Size() <= MAX_BUFFER_SIZE {
      HeadroomSuffices(b.Win(), MAX_BUFFER_SIZE, MAX_READ_SIZE);
    }
    ReservedMakesRoom(b.Win(), MAX_BUFFER_SIZE, MAX_READ_SIZE);
    SmallIsExact(b.Win(), MAX_BUFFER_SIZE, MAX_READ_SIZE);
    var at;
    ok, at := b.ConfirmCapacity(MAX_READ_SIZE);
  }

  /** One receive, straight into the room behind the live bytes. */
  method ReceiveInPlace(b: SimpleBuffer, socket: Wsocket) returns (ret: int, ghost bytes: seq<byte>)
    requires Attached(b, socket) && MAX_READ_SIZE <= b.Win().Free()
    modifies b.buffer, socket`arrivals, socket`errno, socket`received, socket`calls, socket.ReadSide()
    ensures Attached(b, socket) && b.Contents() == old(b.Contents())
    ensures |bytes| == if ret > 0 then ret else 0
    ensures |bytes| <= b.Win().Free() && b.buffer[b.endLoc..b.endLoc + |bytes|] == bytes
    ensures socket.received == old(socket.received) + bytes
    ensures socket.calls == old(socket.calls) + [ReceiveCall]
    ensures socket.View() == old(socket.View())
    ensures socket.shared ==> (bytes == [] ==> ret < 0 && socket.received == socket.View().stream)
    ensures !socket.shared ==> Answers(old(socket.arrivals), MAX_READ_SIZE, ret, bytes, socket.errno, socket.arrivals)
  {
    hide Wsocket.Valid, Wsocket.View;
    ret, bytes := socket.Receive(b.buffer, b.endLoc, MAX_READ_SIZE);
    assert bytes == [] ==> old(socket.received) + bytes == old(socket.received);
  }

  /** Commits received bytes. The room reserved for them is still there, so this always succeeds. */
  method Commit(b: SimpleBuffer, socket: Wsocket, len: nat, ghost bytes: seq<byte>)
    requires Attached(b, socket) && len == |bytes| <= b.Win().Free()
    requires b.buffer[b.endLoc..b.endLoc + len] == bytes
    modifies b, b.buffer
    ensures Attached(b, socket) && b.Contents() == old(b.Contents()) + bytes
    ensures b.buffer == old(b.buffer) && b.maxLen == old(b.maxLen)
    ensures socket.View() == old(socket.View())
  {
    hide Wsocket.Valid;
    var ok := b.AddBuffer(None, len);
    assert ok;
  }

  method HangUp(b: SimpleBuffer, socket: Wsocket)
    requires Attached(b, socket)
    modifies socket`calls
    ensures Attached(b, socket) && socket.calls == old(socket.calls) + [CloseCall]
    ensures socket.View() == old(socket.View())
  {
    hide Wsocket.Valid;
    socket.Close();
  }

  /** What one turn of the receive loop does with the script of an operating-system socket. */
  ghost predicate OneReceive(before: seq<Arrival>, more: bool, bytes: seq<byte>, end: S.ReceiveEnd, after: seq<Arrival>) {
    if more then StillWaiting(before, bytes, after)
    else if end.NoRoom? then after == before
    else Waiting(before) == [] && after == AfterStop(before) && (end.ReceiveFailed? <==> Fatal(before))
  }

  /** `incoming` has come, and everything else is still to come. */
  ghost predicate StillWaiting(before: seq<Arrival>, incoming: seq<byte>, after: seq<Arrival>) {
    && Waiting(before) == incoming + Waiting(after)
    && AfterStop(before) == AfterStop(after) && Fatal(before) == Fatal(after)
  }

  lemma AnswersGive(before: seq<Arrival>, ret: int, bytes: seq<byte>, errno: Errno, after: seq<Arrival>)
    requires Answers(before, MAX_READ_SIZE, ret, bytes, errno, after)
    ensures ret > 0 ==> OneReceive(before, true, bytes, S.NoRoom, after)
    ensures ret < 0 && (errno == WOULD_BLOCK || errno == IN_PROGRESS) ==> OneReceive(before, false, [], S.NothingMore, after)
    ensures ret <= 0 && !(ret < 0 && (errno == WOULD_BLOCK || errno == IN_PROGRESS)) ==>
      OneReceive(before, false, [], S.ReceiveFailed, after)
  {
    hide Waiting, AfterStop, Fatal;
    if before != [] && Delivers(before[0]) {
      TakeOfChunk(before, |bytes|);
    } else {
      NothingWaits(before);
    }
  }

  lemma ReceiveFurther(before: seq<Arrival>, rx: seq<byte>, incoming: seq<byte>, now: seq<Arrival>,
                       more: bool, bytes: seq<byte>, end: S.ReceiveEnd, after: seq<Arrival>)
    requires StillWaiting(before, incoming, now) && OneReceive(now, more, bytes, end, after) && (!more ==> bytes == [])
    requires end.NoRoom? && !more ==> MAX_BUFFER_SIZE < 4 * MAX_READ_SIZE + 2 * |rx + incoming|
    ensures more ==> StillWaiting(before, incoming + bytes, after)
    ensures !more ==> S.SystemReceive(rx, before, incoming, end, after)
  {
    hide Waiting, AfterStop, Fatal;
    assert incoming + (bytes + Waiting(after)) == (incoming + bytes) + Waiting(after);
    assert incoming + [] == incoming;
  }

  lemma ReceiveStarts(arrivals: seq<Arrival>)
    ensures StillWaiting(arrivals, [], arrivals)
  {
    assert [] + Waiting(arrivals) == Waiting(arrivals);
  }

  lemma NoReceive(arrivals: seq<Arrival>)
    ensures OneReceive(arrivals, false, [], S.NoRoom, arrivals)
  {
  }

  /** One turn of the receive loop of `poll`, once there is room. */
  method ReceiveReserved(b: SimpleBuffer, socket: Wsocket)
    returns (more: bool, failed: bool, ghost bytes: seq<byte>, ghost end: S.ReceiveEnd)
    requires Attached(b, socket) && MAX_READ_SIZE <= b.Win().Free()
    modifies b, b.buffer, socket, socket.ReadSide()
    ensures Attached(b, socket) && b.Contents() == old(b.Contents()) + bytes
    ensures b.buffer == old(b.buffer) || fresh(b.buffer)
    ensures socket.received == old(socket.received) + bytes && socket.accepted == old(socket.accepted)
    ensures S.CallsGrew(old(socket.calls), socket.calls, failed)
    ensures socket.acceptances == old(socket.acceptances)
    ensures !socket.shared ==> OneReceive(old(socket.arrivals), more, bytes, end, socket.arrivals)
    ensures more <==> bytes != []
    ensures (!more ==> !end.NoRoom?) && (failed <==> !more && end.ReceiveFailed?)
    ensures socket.View() == old(socket.View()) && (socket.shared ==> !failed)
    ensures socket.shared && !more ==> socket.received == socket.View().stream
  {
    hide Attached, SimpleBuffer.Contents, Wsocket.View, OneReceive, Answers, S.CallsGrew;
    S.OneCall(socket.calls, ReceiveCall);
    more, failed, end := false, false, S.NoRoom;
    var ret;
    ghost var arrivals := socket.arrivals;
    ret, bytes := ReceiveInPlace(b, socket);
    if !socket.shared {
      AnswersGive(arrivals, ret, bytes, socket.errno, socket.arrivals);
    }
    assert b.Contents() + [] == b.Contents();
    if ret < 0 && (socket.WouldBlock() || socket.InProgress()) {
      end := S.NothingMore;
    } else if ret <= 0 {
      HangUp(b, socket);
      failed, end := true, S.ReceiveFailed;
    } else {
      Commit(b, socket, ret, bytes);
      more := true;
    }
  }

  /** One turn of the receive loop of `poll`. */
  method ReceiveOnce(b: SimpleBuffer, socket: Wsocket)
    returns (more: bool, failed: bool, ghost bytes: seq<byte>, ghost end: S.ReceiveEnd)
    requires Attached(b, socket)
    modifies b, b.buffer, socket, socket.ReadSide()
    ensures Attached(b, socket) && b.Contents() == old(b.Contents()) + bytes
    ensures b.buffer == old(b.buffer) || fresh(b.buffer)
    ensures socket.received == old(socket.received) + bytes && socket.accepted == old(socket.accepted)
    ensures S.CallsGrew(old(socket.calls), socket.calls, failed)
    ensures socket.acceptances == old(socket.acceptances)
    ensures !socket.shared ==> OneReceive(old(socket.arrivals), more, bytes, end, socket.arrivals)
    ensures more <==> bytes != []
    ensures failed <==> !more && end.ReceiveFailed?
    ensures socket.View() == old(socket.View()) && (socket.shared ==> !failed)
    ensures socket.shared && !more && !end.NoRoom? ==> socket.received == socket.View().stream
    ensures end.NoRoom? && !more ==> MAX_BUFFER_SIZE < 4 * MAX_READ_SIZE + 2 * |b.Contents()|
  {
    hide Attached, SimpleBuffer.Contents, Wsocket.View, OneReceive, S.CallsGrew;
    var ok := ReserveRoom(b, socket);
    if ok {
      more, failed, bytes, end := ReceiveReserved(b, socket);
    } else {
      more, failed, bytes, end := false, false, [], S.NoRoom;
      S.NoCalls(socket.calls);
      NoReceive(socket.arrivals);
      assert b.Contents() + [] == b.Contents() && socket.received + [] == socket.received;
    }
  }

  /** How far the receive loop is: `incoming` has been received and appended. */
  ghost predicate Receiving(b: SimpleBuffer, socket: Wsocket, rx: seq<byte>, received: seq<byte>, accepted: seq<byte>,
                            view: RingView, incoming: seq<byte>)
    reads b, b.buffer, socket, socket.Rings()
  {
    && Attached(b, socket) && b.Contents() == rx + incoming
    && socket.received == received + incoming && socket.accepted == accepted && socket.View() == view
  }

  lemma ReceivingStart(b: SimpleBuffer, socket: Wsocket)
    requires Attached(b, socket)
    ensures Receiving(b, socket, b.Contents(), socket.received, socket.accepted, socket.View(), [])
  {
    hide Wsocket.View;
    assert b.Contents() + [] == b.Contents() && socket.received + [] == socket.received;
  }

  /** One turn adds to what came before. */
  method ReceiveMore(b: SimpleBuffer, socket: Wsocket, ghost rx: seq<byte>, ghost received: seq<byte>,
                     ghost accepted: seq<byte>, ghost view: RingView, ghost before: seq<Arrival>,
                     ghost incoming: seq<byte>)
    returns (more: bool, failed: bool, ghost bytes: seq<byte>, ghost end: S.ReceiveEnd)
    requires Receiving(b, socket, rx, received, accepted, view, incoming)
    requires !socket.shared ==> StillWaiting(before, incoming, socket.arrivals)
    modifies b, b.buffer, socket, socket.ReadSide()
    ensures b.Valid() && Receiving(b, socket, rx, received, accepted, view, incoming + bytes)
    ensures |b.Contents()| == old(|b.Contents()|) + |bytes| <= MAX_BUFFER_SIZE
    ensures b.buffer == old(b.buffer) || fresh(b.buffer)
    ensures S.CallsGrew(old(socket.calls), socket.calls, failed)
    ensures socket.acceptances == old(socket.acceptances)
    ensures !socket.shared && more ==> StillWaiting(before, incoming + bytes, socket.arrivals)
    ensures !socket.shared && !more ==> S.SystemReceive(rx, before, incoming, end, socket.arrivals)
    ensures more <==> bytes != []
    ensures failed <==> !more && end.ReceiveFailed?
    ensures socket.shared ==> !failed && (!more && end.NothingMore? ==> received + incoming == view.stream)
    ensures end.NoRoom? && !more ==> MAX_BUFFER_SIZE < 4 * MAX_READ_SIZE + 2 * |rx + incoming|
  {
    hide Attached, SimpleBuffer.Contents, Wsocket.View, S.CallsGrew, OneReceive, StillWaiting, S.SystemReceive;
    ghost var now := socket.arrivals;
    more, failed, bytes, end := ReceiveOnce(b, socket);
    assert rx + incoming + [] == rx + incoming;
    if !socket.shared {
      ReceiveFurther(before, rx, incoming, now, more, bytes, end, socket.arrivals);
    }
    assert rx + incoming + bytes == rx + (incoming + bytes);
    assert received + incoming + bytes == received + (incoming + bytes);
    assert incoming + [] == incoming;
  }

  /** The receive loop of `poll`. It ends against any transport, because each turn that goes on adds to
      a buffer of bounded size. */
  method ReceiveAll(b: SimpleBuffer, socket: Wsocket)
    returns (failed: bool, ghost incoming: seq<byte>, ghost end: S.ReceiveEnd)
    requires Attached(b, socket)
    modifies b, b.buffer, socket, socket.ReadSide()
    ensures Receiving(b, socket, old(b.Contents()), old(socket.received), old(socket.accepted), old(socket.View()), incoming)
    ensures b.buffer == old(b.buffer) || fresh(b.buffer)
    ensures S.CallsGrew(old(socket.calls), socket.calls, failed)
    ensures socket.acceptances == old(socket.acceptances)
    ensures !socket.shared ==> S.SystemReceive(old(b.Contents()), old(socket.arrivals), incoming, end, socket.arrivals)
    ensures failed <==> end.ReceiveFailed?
    ensures socket.shared ==> !failed && (end.NothingMore? ==> old(socket.received) + incoming == old(socket.View()).stream)
    ensures end.NoRoom? ==> MAX_BUFFER_SIZE < 4 * MAX_READ_SIZE + 2 * |old(b.Contents()) + incoming|
  {
    hide Receiving, Attached, SimpleBuffer.Contents, SimpleBuffer.Valid, Wsocket.Valid, Wsocket.View, S.CallsGrew;
    hide StillWaiting, S.SystemReceive;
    S.NoCalls(socket.calls);
    ReceivingStart(b, socket);
    ReceiveStarts(socket.arrivals);
    incoming := [];
    ghost var rx, received, accepted, view := b.Contents(), socket.received, socket.accepted, socket.View();
    while true
      invariant b.Valid() && Receiving(b, socket, rx, received, accepted, view, incoming)
      invariant b.buffer == old(b.buffer) || fresh(b.buffer)
      invariant S.CallsGrew(old(socket.calls), socket.calls, false) && socket.acceptances == old(socket.acceptances)
      invariant !socket.shared ==> StillWaiting(old(socket.arrivals), incoming, socket.arrivals)
      decreases MAX_BUFFER_SIZE - |b.Contents()|
    {
      var more;
      ghost var bytes;
      ghost var calls := socket.calls;
      more, failed, bytes, end := ReceiveMore(b, socket, rx, received, accepted, view, old(socket.arrivals), incoming);
      S.CallsGrewFurther(old(socket.calls), calls, socket.calls, false, failed);
      if !more {
        assert incoming + bytes == incoming;
        break;
      }
      incoming := incoming + bytes;
    }
  }

  /** The view after `n` bytes were placed in the ring. */
  ghost predicate Narrowed(before: RingView, socket: Wsocket, n: nat)
    requires socket.Valid()
    reads socket, socket.Rings()
  {
    && socket.View().stream == before.stream && socket.View().taken == before.taken
    && (socket.shared ==> socket.View().room == before.room - n)
  }

  /** One send of everything that waits. */
  method SendSome(b: SimpleBuffer, socket: Wsocket) returns (ret: int, ghost n: nat)
    requires Attached(b, socket) && b.Contents() != []
    modifies socket`acceptances, socket`errno, socket`accepted, socket`calls, socket.WriteSide()
    ensures Attached(b, socket) && b.Contents() == old(b.Contents())
    ensures n == (if ret > 0 then ret else 0) && n <= |b.Contents()|
    ensures socket.accepted == old(socket.accepted) + b.Contents()[..n]
    ensures socket.calls == old(socket.calls) + [SendCall]
    ensures socket.shared ==> n == Min(|b.Contents()|, old(socket.View()).room) && (n == 0 ==> ret < 0)
    ensures !socket.shared ==> Accepts(old(socket.acceptances), |b.Contents()|, ret, socket.errno, socket.acceptances)
    ensures Narrowed(old(socket.View()), socket, n)
  {
    hide Wsocket.Valid, Wsocket.View;
    var data, at, dataLen := b.GetData();
    ret := socket.Send(data, at, dataLen);
    n := if ret > 0 then ret else 0;
    SliceStart(data, at, n, dataLen);
    assert old(socket.accepted) + [] == old(socket.accepted);
  }

  /** Removes what was accepted. */
  method Discard(b: SimpleBuffer, socket: Wsocket, n: nat)
    requires Attached(b, socket) && n <= |b.Contents()|
    modifies b`startLoc, b`endLoc
    ensures Attached(b, socket) && b.Contents() == old(b.Contents())[n..]
    ensures b.Win() == Consumed(old(b.Win()), n)
    ensures socket.View() == old(socket.View())
  {
    hide Wsocket.Valid, Wsocket.View, Consumed, SimpleBuffer.Contents, SimpleBuffer.Win;
    b.Consume(n);
  }

  /** What one turn of the transmit loop with `size` bytes to send does with the script. */
  ghost predicate OneSend(before: seq<Acceptance>, size: nat, n: nat, failed: bool, after: seq<Acceptance>) {
    && after == Drop(before, 1)
    && n == (if before != [] && before[0].Takes? then Min(before[0].len, size) else 0)
    && (failed <==> before != [] && Breaks(before[0]))
  }

  lemma AcceptsGive(before: seq<Acceptance>, size: nat, ret: int, errno: Errno, after: seq<Acceptance>)
    requires Accepts(before, size, ret, errno, after) && size > 0
    ensures OneSend(before, size, if ret > 0 then ret else 0,
                    ret <= 0 && !(ret < 0 && (errno == WOULD_BLOCK || errno == IN_PROGRESS)), after)
  {
    if before != [] {
      match before[0]
      case Takes(len) =>
      case Refuses(e) => assert e == WOULD_BLOCK || e == IN_PROGRESS || e == BROKEN;
    }
  }

  /** After `used` acceptances, each of which took bytes, `taken` of `size` bytes have been taken. */
  ghost predicate SentSoFar(before: seq<Acceptance>, size: nat, used: nat, taken: nat, after: seq<Acceptance>) {
    && used <= |before| && after == before[used..]
    && (forall i :: 0 <= i < used ==> Progresses(before[i])) && (used > 0 ==> Total(before, used - 1) < size)
    && taken == Min(size, Total(before, used)) && (size == 0 ==> used == 0)
  }

  lemma SentFurther(before: seq<Acceptance>, size: nat, used: nat, taken: nat, now: seq<Acceptance>,
                    n: nat, failed: bool, after: seq<Acceptance>)
    requires SentSoFar(before, size, used, taken, now) && taken < size && OneSend(now, size - taken, n, failed, after)
    ensures var used' := if now == [] then used else used + 1;
      && (n > 0 ==> !failed && SentSoFar(before, size, used', taken + n, after))
      && (n == 0 ==> S.SystemSend(before, size, used', taken, if failed then S.SendFailed else S.SendBlocked, after))
  {
    assert Total(before, used) < size;
    if now != [] {
      assert now[0] == before[used] && after == before[used + 1..];
    }
  }

  lemma SentEverything(before: seq<Acceptance>, size: nat, used: nat, after: seq<Acceptance>)
    requires SentSoFar(before, size, used, size, after)
    ensures S.SystemSend(before, size, used, size, S.AllSent, after)
  {
  }

  lemma SendStarts(before: seq<Acceptance>, size: nat)
    ensures SentSoFar(before, size, 0, 0, before)
  {
    assert before[0..] == before;
  }

  /** One turn of the transmit loop of `poll`. */
  method SendOnce(b: SimpleBuffer, socket: Wsocket) returns (more: bool, failed: bool, ghost n: nat)
    requires Attached(b, socket) && b.Contents() != []
    modifies b`startLoc, b`endLoc, socket`acceptances, socket`errno, socket`accepted, socket`calls, socket.WriteSide()
    ensures Attached(b, socket) && n <= old(|b.Contents()|) && b.Contents() == old(b.Contents())[n..]
    ensures b.Win() == Taken(old(b.Win()), n)
    ensures socket.accepted == old(socket.accepted) + old(b.Contents())[..n]
    ensures S.CallsGrew(old(socket.calls), socket.calls, failed)
    ensures !socket.shared ==> OneSend(old(socket.acceptances), |old(b.Contents())|, n, failed, socket.acceptances)
    ensures more <==> n > 0
    ensures failed ==> !more
    ensures socket.shared ==> n == Min(old(|b.Contents()|), old(socket.View()).room) && !failed
    ensures Narrowed(old(socket.View()), socket, n)
  {
    hide Attached, SimpleBuffer.Contents, Wsocket.View, OneSend, Accepts, S.CallsGrew;
    S.OneCall(socket.calls, SendCall);
    var ret;
    ghost var acceptances, size := socket.acceptances, |b.Contents()|;
    ret, n := SendSome(b, socket);
    if !socket.shared {
      AcceptsGive(acceptances, size, ret, socket.errno, socket.acceptances);
    }
    more, failed := false, false;
    if ret < 0 && (socket.WouldBlock() || socket.InProgress()) {
    } else if ret <= 0 {
      HangUp(b, socket);
      failed := true;
    } else {
      more := true;
      Discard(b, socket, ret);
    }
  }

  /** How far the transmit loop is: `taken` of the bytes that waited have been accepted. */
  ghost predicate Progress(b: SimpleBuffer, socket: Wsocket, tx: seq<byte>, w: Window, accepted: seq<byte>,
                           view: RingView, taken: nat)
    reads b, b.buffer, socket, socket.Rings()
  {
    && Attached(b, socket) && taken <= |tx| && b.Contents() == tx[taken..] && b.Win() == Taken(w, taken)
    && socket.accepted == accepted + tx[..taken]
    && Narrowed(view, socket, taken) && (socket.shared ==> taken <= view.room)
  }

  lemma TakenFurther(w: Window, tx: seq<byte>, accepted: seq<byte>, m: nat, n: nat)
    requires w.Valid() && w.Size() == |tx| && m + n <= |tx|
    ensures Taken(Taken(w, m), n) == Taken(w, m + n)
    ensures tx[m..][n..] == tx[m + n..]
    ensures (accepted + tx[..m]) + tx[m..][..n] == accepted + tx[..m + n]
  {
    TakenTwice(w, |tx|, m, n);
    assert tx[..m] + tx[m..][..n] == tx[..m + n];
  }

  /** One turn moves the progress on. */
  method SendMore(b: SimpleBuffer, socket: Wsocket, ghost tx: seq<byte>, ghost w: Window, ghost accepted: seq<byte>,
                  ghost view: RingView, ghost taken: nat, ghost before: seq<Acceptance>, ghost used: nat)
    returns (more: bool, failed: bool, ghost n: nat, ghost used': nat)
    requires Progress(b, socket, tx, w, accepted, view, taken) && b.Contents() != [] && w.Valid() && w.Size() == |tx|
    requires !socket.shared ==> SentSoFar(before, |tx|, used, taken, socket.acceptances)
    modifies b`startLoc, b`endLoc, socket`acceptances, socket`errno, socket`accepted, socket`calls, socket.WriteSide()
    ensures b.Valid() && socket.Valid() && Progress(b, socket, tx, w, accepted, view, taken + n)
    ensures |b.Contents()| == old(|b.Contents()|) - n
    ensures S.CallsGrew(old(socket.calls), socket.calls, failed)
    ensures !socket.shared && more ==> SentSoFar(before, |tx|, used', taken + n, socket.acceptances)
    ensures !socket.shared && !more ==>
      S.SystemSend(before, |tx|, used', taken, if failed then S.SendFailed else S.SendBlocked, socket.acceptances)
    ensures more <==> n > 0
    ensures failed ==> !more
    ensures socket.shared ==> !failed && (!more ==> socket.View().room == 0)
  {
    hide Attached, SimpleBuffer.Contents, SimpleBuffer.Win, Wsocket.View, S.CallsGrew, Taken;
    hide OneSend, SentSoFar, S.SystemSend;
    ghost var now := socket.acceptances;
    more, failed, n := SendOnce(b, socket);
    TakenFurther(w, tx, accepted, taken, n);
    used' := if now == [] then used else used + 1;
    if !socket.shared {
      SentFurther(before, |tx|, used, taken, now, n, failed, socket.acceptances);
    }
  }

  lemma ProgressStart(b: SimpleBuffer, socket: Wsocket)
    requires Attached(b, socket)
    ensures Progress(b, socket, b.Contents(), b.Win(), socket.accepted, socket.View(), 0)
    ensures b.Valid() && socket.Valid() && b.Win().Valid() && b.Win().Size() == |b.Contents()|
  {
    hide Wsocket.View;
    assert socket.accepted + b.Contents()[..0] == socket.accepted;
  }

  /** Once nothing waits or there is no room, the loop has moved all it could. */
  lemma ProgressEnd(b: SimpleBuffer, socket: Wsocket, tx: seq<byte>, w: Window, accepted: seq<byte>,
                    view: RingView, taken: nat)
    requires Progress(b, socket, tx, w, accepted, view, taken)
    ensures b.Contents() == [] ==> taken == |tx|
    ensures socket.shared && (b.Contents() == [] || socket.View().room == 0) ==> taken == Min(|tx|, view.room)
  {
    hide Wsocket.View, Taken;
  }

  /** The transmit loop of `poll`. It ends because each turn that goes on takes from the buffer. */
  method SendAll(b: SimpleBuffer, socket: Wsocket)
    returns (failed: bool, ghost taken: nat, ghost end: S.SendEnd, ghost used: nat)
    requires Attached(b, socket)
    modifies b`startLoc, b`endLoc, socket`acceptances, socket`errno, socket`accepted, socket`calls, socket.WriteSide()
    ensures Progress(b, socket, old(b.Contents()), old(b.Win()), old(socket.accepted), old(socket.View()), taken)
    ensures S.CallsGrew(old(socket.calls), socket.calls, failed)
    ensures !socket.shared ==>
      S.SystemSend(old(socket.acceptances), |old(b.Contents())|, used, taken, end, socket.acceptances)
    ensures b.Valid() && (end.AllSent? <==> b.Contents() == [])
    ensures failed <==> end.SendFailed?
    ensures socket.shared ==> taken == Min(old(|b.Contents()|), old(socket.View()).room) && !failed
  {
    hide Progress, Attached, SimpleBuffer.Contents, SimpleBuffer.Win, SimpleBuffer.Valid, Wsocket.Valid, Wsocket.View, S.CallsGrew;
    hide SentSoFar, S.SystemSend;
    S.NoCalls(socket.calls);
    ProgressStart(b, socket);
    SendStarts(socket.acceptances, |b.Contents()|);
    failed, taken, end, used := false, 0, S.AllSent, 0;
    ghost var tx, w, view := b.Contents(), b.Win(), socket.View();
    while b.GetSize() > 0
      invariant Progress(b, socket, tx, w, old(socket.accepted), view, taken)
      invariant S.CallsGrew(old(socket.calls), socket.calls, false)
      invariant !socket.shared ==> SentSoFar(old(socket.acceptances), |tx|, used, taken, socket.acceptances)
      invariant b.Valid() && socket.Valid() && !failed && end.AllSent?
      decreases |b.Contents()|
    {
      var more;
      ghost var n;
      ghost var calls := socket.calls;
      more, failed, n, used := SendMore(b, socket, tx, w, old(socket.accepted), view, taken, old(socket.acceptances), used);
      S.CallsGrewFurther(old(socket.calls), calls, socket.calls, false, failed);
      taken := taken + n;
      if !more {
        end := if failed then S.SendFailed else S.SendBlocked;
        break;
      }
    }
    ProgressEnd(b, socket, tx, w, old(socket.accepted), view, taken);
    if !socket.shared && end.AllSent? {
      SentEverything(old(socket.acceptances), |tx|, used, socket.acceptances);
    }
  }

  /** The search of `_dispatchBinary` for the first CR LF. */
  method FindMessage(data: array<byte>, at: nat, dataLen: nat) returns (haveMessage: bool, messageEnd: nat)
    requires at + dataLen <= data.Length && dataLen >= 2
    ensures var end := FindEnd(data[at..at + dataLen]);
      && (haveMessage <==> end < dataLen)
      && (haveMessage ==> messageEnd == end)
  {
    ghost var s := data[at..at + dataLen];
    haveMessage, messageEnd := false, 0;
    for i := 0 to dataLen - 1
      invariant forall k: nat :: k < i ==> !EndAt(s, k)
    {
      if data[at + i] == CR && data[at + i + 1] == LF {
        FindEndUnique(s, i);
        return true, i;
      }
    }
    assert FindEnd(s) < |s| ==> EndAt(s, FindEnd(s));
  }

  /** One turn of the loop of `_dispatchBinary`: a NUL is written over the CR, and the callback reads a
      C string that starts at the first live byte. */
  method DispatchOnce(b: SimpleBuffer, callback: Callback) returns (more: bool)
    requires b.Valid()
    modifies b`startLoc, b`endLoc, b.buffer, callback
    ensures b.Valid() && (old(callback.Valid()) ==> callback.Valid())
    ensures var s := old(b.Contents()); var end := FindEnd(s);
      if more then
        && end < |s| && b.Contents() == s[end + 2..]
        && callback.received == old(callback.received) + [CString(s[..end])]
      else end == |s| && b.Contents() == s && callback.received == old(callback.received)
  {
    hide CString, FindEnd;
    ghost var s := b.Contents();
    var data, at, dataLen := b.GetData();
    if dataLen < 2 {
      return false;
    }
    var haveMessage, messageEnd := FindMessage(data, at, dataLen);
    if !haveMessage {
      return false;
    }
    assert EndAt(s, messageEnd);
    SliceStart(data, at, messageEnd, dataLen);
    data[at + messageEnd] := NUL;
    SliceIs(data, at, s[..messageEnd]);
    CStringStops(data[at..], messageEnd);
    assert data[at..][..messageEnd] == data[at..at + messageEnd];
    callback.ReceiveMessage(CString(data[at..]));
    b.Consume(messageEnd + 2);
    more := true;
  }

  /** Delivers every complete message in the buffer, oldest first, and leaves the rest. */
  method DispatchBinary(b: SimpleBuffer, callback: Callback)
    requires b.Valid()
    modifies b`startLoc, b`endLoc, b.buffer, callback
    ensures b.Valid() && b.Contents() == Dispatch(old(b.Contents())).rest
    ensures callback.received == old(callback.received) + Dispatch(old(b.Contents())).messages
    ensures old(callback.Valid()) ==> callback.Valid()
  {
    hide CString, FindEnd, Dispatch, SimpleBuffer.Contents, Callback.Valid;
    ghost var all, delivered := Dispatch(b.Contents()), [];
    while true
      invariant b.Valid() && (old(callback.Valid()) ==> callback.Valid())
      invariant callback.received == old(callback.received) + delivered
      invariant delivered + Dispatch(b.Contents()).messages == all.messages
      invariant Dispatch(b.Contents()).rest == all.rest
      decreases |b.Contents()|
    {
      ghost var s := b.Contents();
      DispatchCut(s);
      var more := DispatchOnce(b, callback);
      if !more {
        break;
      }
      ghost var message := CString(s[..FindEnd(s)]);
      Reassociate(delivered, [message], Dispatch(b.Contents()).messages);
      Reassociate(old(callback.received), delivered, [message]);
      delivered := delivered + [message];
    }
  }

  /** What the receive loop achieves on the shared-memory transport: it never fails, and it empties the
      ring unless the receive buffer is full. */
  ghost predicate SharedReceive(s: S.Session, view: RingView, end: S.ReceiveEnd) {
    && !end.ReceiveFailed?
    && s.received <= view.stream
    && (end.NothingMore? ==> s.received == view.stream)
    && (end.NoRoom? ==> MAX_BUFFER_SIZE < 4 * MAX_READ_SIZE + 2 * |s.rx|)
  }

  /** What a poll of an open or closing connection achieves on the shared-memory transport: it fills
      the outgoing ring as far as there is room, and empties the incoming one while the receive
      buffer has headroom. */
  ghost predicate SharedPoll(before: S.Session, view: RingView, io: S.PollIo) {
    && !io.receiveEnd.ReceiveFailed? && !io.sendEnd.SendFailed?
    && io.taken == Min(|before.tx|, view.room)
    && before.received + io.incoming <= view.stream
    && (4 * MAX_READ_SIZE + 2 * (|before.rx| + |view.stream| - |before.received|) <= MAX_BUFFER_SIZE ==>
          before.received + io.incoming == view.stream)
  }

  lemma SharedPhases(s0: S.Session, s1: S.Session, view: RingView, io: S.PollIo)
    requires s1 == S.AfterReceive(s0, io.incoming, io.receiveEnd).(calls := s1.calls)
    requires SharedReceive(s1, view, io.receiveEnd)
    requires !io.sendEnd.SendFailed? && io.taken == Min(|s1.tx|, view.room)
    ensures SharedPoll(s0, view, io)
  {
  }

  class SocketChat {
    var readyState: ReadyState
    const receiveBuffer: SimpleBuffer
    const transmitBuffer: SimpleBuffer
    const socket: Wsocket
    ghost var enqueued: seq<byte>
    ghost var messages: seq<Text>

    /** What this connection allocates for itself. */
    ghost function Own(): set<object>
      reads this, receiveBuffer, transmitBuffer
    {
      {this, receiveBuffer, receiveBuffer.buffer, transmitBuffer, transmitBuffer.buffer}
    }

    /** Everything this connection depends on, apart from a callback. */
    ghost function Footprint(): set<object>
      reads this, receiveBuffer, transmitBuffer, socket.Rings()
    {
      {this, receiveBuffer, receiveBuffer.buffer, transmitBuffer, transmitBuffer.buffer, socket} + socket.Rings()
    }

    ghost predicate Valid()
      reads Footprint()
      ensures Valid() ==> socket.Valid()
    {
      && Attached(receiveBuffer, socket) && Attached(transmitBuffer, socket)
      && receiveBuffer != transmitBuffer && receiveBuffer.buffer != transmitBuffer.buffer
      && this !in socket.Rings()
    }

    /** The connection as a value. */
    ghost function Abs(): (s: S.Session)
      requires Valid()
      reads Footprint()
      ensures s.ready == readyState && s.messages == messages
      ensures s.calls == socket.calls && s.received == socket.received && s.accepted == socket.accepted
    {
      S.Session(readyState, receiveBuffer.Contents(), transmitBuffer.Contents(), transmitBuffer.Win(), enqueued,
                socket.accepted, socket.received, messages, socket.calls)
    }

    constructor (socket: Wsocket)
      requires socket.Valid()
      ensures Valid() && this.socket == socket
      ensures fresh(Own())
      ensures Abs() == S.NEW.(accepted := socket.accepted, received := socket.received, calls := socket.calls)
    {
      hide Wsocket.View;
      this.socket := socket;
      readyState := OPEN;
      transmitBuffer := new SimpleBuffer(BUFFER_SIZE, MAX_BUFFER_SIZE);
      receiveBuffer := new SimpleBuffer(BUFFER_SIZE, MAX_BUFFER_SIZE);
      enqueued, messages := [], [];
    }

    /** Appends the text and CR LF to the transmit buffer. Whether the appends find room is not looked
        at: a text without its end, or an end without its text, may be what is enqueued. */
    method SendText(str: Option<seq<byte>>)
      requires Valid() && Exact(transmitBuffer.Win(), MAX_BUFFER_SIZE, |TextSent(str)|)
      modifies this`enqueued, transmitBuffer, transmitBuffer.buffer
      ensures Valid()
      ensures transmitBuffer.buffer == old(transmitBuffer.buffer) || fresh(transmitBuffer.buffer)
      ensures Abs() == S.AfterSendText(old(Abs()), TextSent(str))
    {
      hide TextSent, Appending, FrameAppended, Wsocket.Valid, Exact;
      hide SimpleBuffer.Valid, SimpleBuffer.Bounded, SimpleBuffer.Contents, SimpleBuffer.Win;
      enqueued := enqueued + Appending(transmitBuffer.Win(), TextSent(str));
      AppendFrame(transmitBuffer, str);
    }

    method Close()
      requires Valid()
      modifies this`readyState
      ensures Valid() && Abs() == S.AfterClose(old(Abs()))
    {
      if readyState == CLOSING || readyState == CLOSED {
        return;
      }
      readyState := CLOSING;
    }

    /** The receive loop, and the state it leaves. */
    method ReceivePhase() returns (ghost incoming: seq<byte>, ghost end: S.ReceiveEnd)
      requires Valid()
      modifies this`readyState, receiveBuffer, receiveBuffer.buffer, socket, socket.ReadSide()
      ensures Valid() && S.CallsGrew(old(socket.calls), socket.calls, end.ReceiveFailed?)
      ensures socket.acceptances == old(socket.acceptances)
      ensures !socket.shared ==> S.SystemReceive(old(Abs()).rx, old(socket.arrivals), incoming, end, socket.arrivals)
      ensures Abs() == S.AfterReceive(old(Abs()), incoming, end).(calls := socket.calls)
      ensures |Abs().rx| <= MAX_BUFFER_SIZE
      ensures receiveBuffer.buffer == old(receiveBuffer.buffer) || fresh(receiveBuffer.buffer)
      ensures socket.View() == old(socket.View())
      ensures socket.shared ==> SharedReceive(Abs(), socket.View(), end)
    {
      hide Wsocket.Valid, SimpleBuffer.Contents, S.SystemReceive;
      var failed;
      failed, incoming, end := ReceiveAll(receiveBuffer, socket);
      if failed {
        readyState := CLOSED;
      }
    }

    /** The transmit loop, and the state it leaves. */
    method TransmitPhase() returns (ghost taken: nat, ghost end: S.SendEnd, ghost used: nat)
      requires Valid()
      modifies this`readyState, transmitBuffer`startLoc, transmitBuffer`endLoc
      modifies socket`acceptances, socket`errno, socket`accepted, socket`calls, socket.WriteSide()
      ensures Valid() && S.CallsGrew(old(socket.calls), socket.calls, end.SendFailed?)
      ensures socket.arrivals == old(socket.arrivals)
      ensures !socket.shared ==>
        S.SystemSend(old(socket.acceptances), |old(Abs()).tx|, used, taken, end, socket.acceptances)
      ensures taken <= |old(Abs()).tx| && (end.AllSent? <==> taken == |old(Abs()).tx|)
      ensures Abs() == S.AfterSend(old(Abs()), taken, end).(calls := socket.calls)
      ensures socket.shared ==> taken == Min(|old(Abs()).tx|, old(socket.View()).room) && !end.SendFailed?
      ensures Narrowed(old(socket.View()), socket, taken)
    {
      hide Wsocket.Valid, SimpleBuffer.Contents, S.SystemSend;
      var failed;
      failed, taken, end, used := SendAll(transmitBuffer, socket);
      if failed {
        readyState := CLOSED;
      }
    }

    /** The last step of a drained connection that was asked to close. */
    method SettlePhase()
      requires Valid()
      modifies this`readyState, socket`calls
      ensures Valid()
      ensures S.CallsGrew(old(socket.calls), socket.calls, old(Abs()).tx == [] && old(readyState) == CLOSING)
      ensures Abs() == S.AfterSettle(old(Abs())).(calls := socket.calls)
      ensures socket.View() == old(socket.View())
    {
      hide Wsocket.Valid, SimpleBuffer.Contents;
      if transmitBuffer.GetSize() == 0 && readyState == CLOSING {
        socket.Close();
        readyState := CLOSED;
      }
    }

    method DispatchPhase(callback: Callback)
      requires Valid()
      modifies this`messages, receiveBuffer`startLoc, receiveBuffer`endLoc, receiveBuffer.buffer, callback
      ensures Valid() && Abs() == S.AfterDispatch(old(Abs()))
      ensures callback.received == old(callback.received) + Dispatch(old(Abs()).rx).messages
      ensures old(callback.Valid()) ==> callback.Valid()
      ensures socket.View() == old(socket.View())
    {
      hide Wsocket.Valid, SimpleBuffer.Contents, Dispatch, Callback.Valid;
      messages := messages + Dispatch(receiveBuffer.Contents()).messages;
      DispatchBinary(receiveBuffer, callback);
    }

    /** The receive loop and, unless it failed, the transmit loop. */
    method Transfer() returns (ghost io: S.PollIo)
      requires Valid() && readyState != CLOSED
      modifies this`readyState, receiveBuffer, receiveBuffer.buffer
      modifies transmitBuffer`startLoc, transmitBuffer`endLoc, socket, socket.ReadSide(), socket.WriteSide()
      ensures Valid() && S.Feasible(old(Abs()), io) && Abs() == S.AfterTransfer(old(Abs()), io)
      ensures CloseCall in io.calls <==> S.Failed(io)
      ensures !socket.shared ==> S.SystemPoll(old(Abs()), old(socket.Pending()), io, socket.Pending())
      ensures receiveBuffer.buffer == old(receiveBuffer.buffer) || fresh(receiveBuffer.buffer)
      ensures socket.shared ==> SharedPoll(old(Abs()), old(socket.View()), io)
      ensures Narrowed(old(socket.View()), socket, io.taken)
    {
      hide Valid, Abs, Wsocket.Valid, Wsocket.View, S.CallsGrew, S.AfterReceive, S.AfterSend, S.AfterTransfer, SharedPoll;
      hide S.SystemReceive, S.SystemSend, S.SystemPoll, S.Feasible;
      ghost var s0, view, before := Abs(), socket.View(), socket.Pending();
      ghost var incoming, receiveEnd := ReceivePhase();
      ghost var s1 := Abs();
      if readyState == CLOSED {
        S.ReceiveExit(s0, s1, incoming, receiveEnd);
        io := S.PollIo(incoming, receiveEnd, 0, S.SendBlocked, s1.calls[|s0.calls|..]);
        if !socket.shared {
          S.SystemFailed(s0, before, io, socket.Pending());
        }
        return;
      }
      ghost var taken, sendEnd, used := TransmitPhase();
      S.BothPhases(s0, s1, Abs(), incoming, receiveEnd, taken, sendEnd);
      io := S.PollIo(incoming, receiveEnd, taken, sendEnd, Abs().calls[|s0.calls|..]);
      if socket.shared {
        SharedPhases(s0, s1, view, io);
      } else {
        S.SystemBoth(s0, s1, before, io, socket.Pending(), used);
      }
    }

    /** Receives, sends, settles and dispatches, as far as the transport lets it. */
    method Poll(callback: Callback?, timeout: int) returns (ghost io: S.PollIo)
      requires Valid()
      modifies this`readyState, this`messages, receiveBuffer, receiveBuffer.buffer
      modifies transmitBuffer`startLoc, transmitBuffer`endLoc, socket, socket.ReadSide(), socket.WriteSide(), callback
      ensures Valid() && S.Possible(old(Abs()), io)
      ensures Abs() == S.AfterPoll(old(Abs()), io, callback != null, timeout)
      ensures callback != null ==> callback.received == old(callback.received) + Drop(messages, |old(messages)|)
      ensures callback != null && old(callback.Valid()) ==> callback.Valid()
      ensures receiveBuffer.buffer == old(receiveBuffer.buffer) || fresh(receiveBuffer.buffer)
      ensures socket.shared && old(readyState) != CLOSED ==> SharedPoll(old(Abs()), old(socket.View()), io)
      ensures !socket.shared && old(readyState) != CLOSED ==>
        S.SystemPoll(old(Abs()), old(socket.Pending()), io, socket.Pending())
      ensures old(readyState) == CLOSED ==> socket.Pending() == old(socket.Pending())
      ensures Narrowed(old(socket.View()), socket, if old(readyState) == CLOSED then 0 else io.taken)
    {
      hide Valid, Abs, Dispatch, Wsocket.Valid, Wsocket.View, S.CallsGrew, S.AfterTransfer, S.AfterSettle;
      hide Callback.Valid, S.Feasible, S.Failed;
      ghost var s0 := Abs();
      if readyState == CLOSED {
        if timeout > 0 {
          Wait(timeout);
        }
        io := S.Quiet(s0);
        return;
      }
      io := Transfer();
      if readyState == CLOSED {
        S.FailedPoll(s0, io, callback != null, timeout);
        return;
      }
      ghost var s2 := Abs();
      SettlePhase();
      S.FullPoll(s0, s2, Abs(), io, callback != null, timeout);
      io := io.(calls := Abs().calls[|s0.calls|..]);
      if callback != null {
        DispatchPhase(callback);
      }
    }

    method Wait(timeout: int)
      requires Valid()
      modifies socket`calls
      ensures Valid() && socket.View() == old(socket.View())
      ensures Abs() == old(Abs()).(calls := old(socket.calls) + [NullSelectCall])
    {
      hide Wsocket.Valid, Wsocket.View, SimpleBuffer.Contents;
      socket.NullSelect(timeout);
    }
  }

  /** The first poll of a connection over an operating-system socket, for any script with headroom: the
      callback is handed every message that waits, unless the script ends in a failure. */
  method PollFirst(arrivals: seq<Arrival>, acceptances: seq<Acceptance>, callback: Callback, timeout: int)
    returns (client: SocketChat)
    requires 4 * MAX_READ_SIZE + 2 * |Waiting(arrivals)| <= MAX_BUFFER_SIZE
    modifies callback
    ensures client.Valid() && client.socket.received == Waiting(arrivals)
    ensures client.readyState == if Fatal(arrivals) then CLOSED else OPEN
    ensures callback.received == old(callback.received)
      + if Fatal(arrivals) then [] else Dispatch(Waiting(arrivals)).messages
    ensures client.socket.arrivals == AfterStop(arrivals)
  {
    hide Waiting, AfterStop, Fatal, Dispatch, Attached, S.Possible, S.SystemPoll, S.AfterPoll, SharedPoll, Narrowed, Wsocket.View;
    client := OpenSystem(arrivals, acceptances);
    ghost var before := client.Abs();
    ghost var io := client.Poll(callback, timeout);
    FirstPoll(before, io, Script(arrivals, acceptances), client.socket.Pending(), timeout);
  }

  method OpenSystem(arrivals: seq<Arrival>, acceptances: seq<Acceptance>) returns (client: SocketChat)
    ensures client.Valid() && !client.socket.shared && client.Abs() == S.NEW
    ensures client.socket.Pending() == Script(arrivals, acceptances) && fresh(client.Footprint())
  {
    hide Attached, Wsocket.View;
    var socket := new Wsocket.OfSystem(arrivals, acceptances);
    client := new SocketChat(socket);
  }

  lemma FirstPoll(s: S.Session, io: S.PollIo, before: Script, after: Script, timeout: int)
    requires s == S.NEW && S.Possible(s, io) && S.SystemPoll(s, before, io, after)
    requires 4 * MAX_READ_SIZE + 2 * |Waiting(before.arrivals)| <= MAX_BUFFER_SIZE
    ensures var s' := S.AfterPoll(s, io, true, timeout);
      && s'.received == Waiting(before.arrivals) && after.arrivals == AfterStop(before.arrivals)
      && s'.ready == (if Fatal(before.arrivals) then CLOSED else OPEN)
      && s'.messages == (if Fatal(before.arrivals) then [] else Dispatch(Waiting(before.arrivals)).messages)
  {
    hide Waiting, AfterStop, Fatal, Dispatch, S.AfterPoll;
    S.InitInv(s);
    S.SystemPollMoves(s, before, io, after, true, timeout);
    S.PollMoves(s, io, true, timeout);
    assert [] + Waiting(before.arrivals) == Waiting(before.arrivals);
  }
}
