/** A connection as a value: what `sendText`, `close` and `poll` do to it, given what the transport
    reported during the poll. `SocketChat` is proved to do exactly this; here are the facts about
    every run, over any transport. */
module Session {
  import opened Words
  import opened Frames
  import opened Framing
  import opened ReadyStates
  import opened SimpleBuffer
  import opened Transport

  datatype Session = Session(
    ready: ReadyState,
    rx: seq<byte>, tx: seq<byte>,              // contents of the two buffers
    tw: Window,                                // window of the transmit buffer
    enqueued: seq<byte>,                       // every byte ever appended to the transmit buffer
    accepted: seq<byte>, received: seq<byte>,  // every byte the transport took and gave
    messages: seq<Text>,                       // every message delivered
    calls: seq<Call>)                          // every call to the transport

  const NEW := Session(OPEN, [], [], Window(0, 0, BUFFER_SIZE), [], [], [], [], [])

  datatype ReceiveEnd = NothingMore | NoRoom | ReceiveFailed
  datatype SendEnd = AllSent | SendBlocked | SendFailed

  /** What the transport did during one poll: the bytes it gave, how many it took, and how each of the
      two loops ended. */
  datatype PollIo = PollIo(
    incoming: seq<byte>, receiveEnd: ReceiveEnd, taken: nat, sendEnd: SendEnd, calls: seq<Call>)

  /** More calls were made, none of them `nullSelect`, and a `close` among them or not. */
  ghost predicate CallsGrew(before: seq<Call>, after: seq<Call>, closes: bool) {
    before <= after && NullSelectCall !in after[|before|..] && (CloseCall in after[|before|..] <==> closes)
  }

  lemma NoCalls(calls: seq<Call>)
    ensures CallsGrew(calls, calls, false)
  {
  }

  /** A call, and a call with a close after it. */
  lemma OneCall(calls: seq<Call>, c: Call)
    requires c != NullSelectCall && c != CloseCall
    ensures CallsGrew(calls, calls + [c], false) && CallsGrew(calls, calls + [c] + [CloseCall], true)
  {
    assert (calls + [c] + [CloseCall])[|calls|..] == [c, CloseCall];
  }

  lemma CallsGrewFurther(a: seq<Call>, b: seq<Call>, c: seq<Call>, closes: bool, closes': bool)
    requires CallsGrew(a, b, closes) && CallsGrew(b, c, closes')
    ensures CallsGrew(a, c, closes || closes')
  {
    assert c[|a|..] == b[|a|..] + c[|b|..];
  }

  /** What the two loops can see of a transport: it takes no more than waits, and gives no more than the
      receive buffer can hold. */
  predicate Feasible(s: Session, io: PollIo) {
    && io.taken <= |s.tx| && |s.rx| + |io.incoming| <= MAX_BUFFER_SIZE
    && (io.receiveEnd.ReceiveFailed? ==> io.taken == 0 && !io.sendEnd.SendFailed?)
    && (!io.receiveEnd.ReceiveFailed? ==> (io.sendEnd.AllSent? <==> io.taken == |s.tx|))
    && NullSelectCall !in io.calls
  }

  predicate Failed(io: PollIo) {
    io.receiveEnd.ReceiveFailed? || io.sendEnd.SendFailed?
  }

  /** What can happen in a poll of a connection that is not closed: the transport is closed if and only if
      it failed, or the connection was closing and everything has been taken. */
  predicate Possible(s: Session, io: PollIo) {
    s.ready == CLOSED ||
    (&& Feasible(s, io)
     && (CloseCall in io.calls <==> Failed(io) || (s.ready == CLOSING && io.taken == |s.tx|)))
  }

  /** What the receive loop does with the script of an operating-system socket: unless the receive buffer
      is full, it receives everything up to the first stop, and fails exactly when that stop is fatal. */
  ghost predicate SystemReceive(rx: seq<byte>, arrivals: seq<Arrival>, incoming: seq<byte>, end: ReceiveEnd,
                                after: seq<Arrival>) {
    if end.NoRoom? then
      && MAX_BUFFER_SIZE < 4 * MAX_READ_SIZE + 2 * |rx + incoming|
      && incoming + Waiting(after) == Waiting(arrivals)
      && AfterStop(after) == AfterStop(arrivals) && Fatal(after) == Fatal(arrivals)
    else
      incoming == Waiting(arrivals) && after == AfterStop(arrivals) && (end.ReceiveFailed? <==> Fatal(arrivals))
  }

  /** What the transmit loop does with `n` bytes to send: the script takes as many as its acceptances sum
      up to before the first that stops, and the loop fails exactly when that one breaks. */
  ghost predicate SystemSend(acceptances: seq<Acceptance>, n: nat, used: nat, taken: nat, end: SendEnd,
                             after: seq<Acceptance>) {
    && Uses(acceptances, n, used) && after == acceptances[used..]
    && taken == Min(n, Total(acceptances, used))
    && (end.AllSent? <==> taken == n)
    && (end.SendFailed? <==> taken < n && used > 0 && Breaks(acceptances[used - 1]))
  }

  /** Both loops of one poll. */
  ghost predicate SystemPoll(s: Session, before: Script, io: PollIo, after: Script) {
    && SystemReceive(s.rx, before.arrivals, io.incoming, io.receiveEnd, after.arrivals)
    && if io.receiveEnd.ReceiveFailed? then after.acceptances == before.acceptances
       else exists used: nat :: SystemSend(before.acceptances, |s.tx|, used, io.taken, io.sendEnd, after.acceptances)
  }

  lemma SystemFailed(s0: Session, before: Script, io: PollIo, after: Script)
    requires io.receiveEnd.ReceiveFailed? && after.acceptances == before.acceptances
    requires SystemReceive(s0.rx, before.arrivals, io.incoming, io.receiveEnd, after.arrivals)
    ensures SystemPoll(s0, before, io, after)
  {
    hide SystemReceive, SystemSend;
  }

  lemma SystemBoth(s0: Session, s1: Session, before: Script, io: PollIo, after: Script, used: nat)
    requires s1 == AfterReceive(s0, io.incoming, io.receiveEnd).(calls := s1.calls) && s1.ready != CLOSED
    requires SystemReceive(s0.rx, before.arrivals, io.incoming, io.receiveEnd, after.arrivals)
    requires SystemSend(before.acceptances, |s1.tx|, used, io.taken, io.sendEnd, after.acceptances)
    ensures SystemPoll(s0, before, io, after)
  {
    hide SystemReceive, SystemSend;
  }

  /** A poll during which the transport moved nothing. */
  function Quiet(s: Session): PollIo {
    PollIo([], NothingMore, 0, if s.tx == [] then AllSent else SendBlocked, [])
  }

  function AfterSendText(s: Session, text: Text): Session {
    var bytes := Appending(s.tw, text);
    s.(tx := s.tx + bytes, tw := FrameAppended(s.tw, |text|), enqueued := s.enqueued + bytes)
  }

  function AfterClose(s: Session): Session {
    if s.ready == OPEN then s.(ready := CLOSING) else s
  }

  function AfterReceive(s: Session, incoming: seq<byte>, end: ReceiveEnd): Session {
    s.(rx := s.rx + incoming, received := s.received + incoming,
       ready := if end.ReceiveFailed? then CLOSED else s.ready)
  }

  function AfterSend(s: Session, taken: nat, end: SendEnd): Session
    requires taken <= |s.tx|
  {
    s.(tx := s.tx[taken..], tw := Taken(s.tw, taken),
       accepted := s.accepted + s.tx[..taken],
       ready := if end.SendFailed? then CLOSED else s.ready)
  }

  function AfterSettle(s: Session): Session {
    if s.tx == [] && s.ready == CLOSING then s.(ready := CLOSED) else s
  }

  function AfterDispatch(s: Session): Session {
    s.(messages := s.messages + Dispatch(s.rx).messages, rx := Dispatch(s.rx).rest)
  }

  /** The receive loop and, unless it failed, the transmit loop. */
  function AfterTransfer(s: Session, io: PollIo): Session
    requires s.ready != CLOSED && Feasible(s, io)
  {
    var s1 := AfterReceive(s.(calls := s.calls + io.calls), io.incoming, io.receiveEnd);
    if s1.ready == CLOSED then s1 else AfterSend(s1, io.taken, io.sendEnd)
  }

  function AfterPoll(s: Session, io: PollIo, callback: bool, timeout: int): Session
    requires Possible(s, io)
  {
    if s.ready == CLOSED then
      s.(calls := s.calls + if timeout > 0 then [NullSelectCall] else [])
    else
      var s2 := AfterTransfer(s, io);
      if s2.ready == CLOSED then s2
      else if callback then AfterDispatch(AfterSettle(s2))
      else AfterSettle(s2)
  }

  // The phases of a poll, each with the calls it made, add up to `AfterPoll`.

  /** A failed receive ends the transfer before anything is sent. */
  lemma ReceiveExit(s0: Session, s1: Session, incoming: seq<byte>, receiveEnd: ReceiveEnd)
    requires s0.ready != CLOSED && s1.ready == CLOSED && CallsGrew(s0.calls, s1.calls, receiveEnd.ReceiveFailed?)
    requires s1 == AfterReceive(s0, incoming, receiveEnd).(calls := s1.calls) && |s1.rx| <= MAX_BUFFER_SIZE
    ensures s0.calls <= s1.calls && receiveEnd.ReceiveFailed?
    ensures var io := PollIo(incoming, receiveEnd, 0, SendBlocked, s1.calls[|s0.calls|..]);
      Feasible(s0, io) && s1 == AfterTransfer(s0, io) && CloseCall in io.calls
  {
  }

  lemma BothPhases(s0: Session, s1: Session, s2: Session, incoming: seq<byte>, receiveEnd: ReceiveEnd,
                   taken: nat, sendEnd: SendEnd)
    requires s0.ready != CLOSED && s1.ready != CLOSED
    requires CallsGrew(s0.calls, s1.calls, receiveEnd.ReceiveFailed?)
    requires CallsGrew(s1.calls, s2.calls, sendEnd.SendFailed?)
    requires s1 == AfterReceive(s0, incoming, receiveEnd).(calls := s1.calls) && |s1.rx| <= MAX_BUFFER_SIZE
    requires taken <= |s1.tx| && (sendEnd.AllSent? <==> taken == |s1.tx|)
    requires s2 == AfterSend(s1, taken, sendEnd).(calls := s2.calls)
    ensures s0.calls <= s2.calls
    ensures var io := PollIo(incoming, receiveEnd, taken, sendEnd, s2.calls[|s0.calls|..]);
      Feasible(s0, io) && s2 == AfterTransfer(s0, io) && (CloseCall in io.calls <==> Failed(io))
  {
    CallsGrewFurther(s0.calls, s1.calls, s2.calls, receiveEnd.ReceiveFailed?, sendEnd.SendFailed?);
  }

  /** A transfer that failed is the whole poll. */
  lemma FailedPoll(s0: Session, io: PollIo, callback: bool, timeout: int)
    requires s0.ready != CLOSED && Feasible(s0, io) && (CloseCall in io.calls <==> Failed(io))
    requires AfterTransfer(s0, io).ready == CLOSED
    ensures Possible(s0, io) && AfterTransfer(s0, io) == AfterPoll(s0, io, callback, timeout)
  {
  }

  /** The calls of settling are calls of the poll. */
  lemma FullPoll(s0: Session, s2: Session, s3: Session, io: PollIo, callback: bool, timeout: int)
    requires s0.ready != CLOSED && Feasible(s0, io) && (CloseCall in io.calls <==> Failed(io))
    requires s2 == AfterTransfer(s0, io) && s2.ready != CLOSED
    requires CallsGrew(s2.calls, s3.calls, s2.tx == [] && s2.ready == CLOSING)
    requires s3 == AfterSettle(s2).(calls := s3.calls)
    ensures s0.calls <= s3.calls
    ensures var io' := io.(calls := s3.calls[|s0.calls|..]);
      Possible(s0, io')
      && (if callback then AfterDispatch(s3) else s3) == AfterPoll(s0, io', callback, timeout)
  {
    hide AfterDispatch;
    assert s2.calls == s0.calls + io.calls;
    var calls := s3.calls[|s0.calls|..];
    assert calls == io.calls + s3.calls[|s2.calls|..];
    assert s0.calls + calls == s3.calls;
    assert AfterTransfer(s0, io.(calls := calls)) == s2.(calls := s3.calls);
  }

  lemma PollOnlyAdds(s: Session, io: PollIo, callback: bool, timeout: int)
    requires Possible(s, io)
    ensures s.messages <= AfterPoll(s, io, callback, timeout).messages
    ensures AfterPoll(s, io, callback, timeout).enqueued == s.enqueued
    ensures s.accepted <= AfterPoll(s, io, callback, timeout).accepted
    ensures s.received <= AfterPoll(s, io, callback, timeout).received
  {
    hide Dispatch;
  }

  ghost predicate Init(s: Session) {
    s == NEW
  }

  datatype Command =
    | SendText(text: Text)
    | Close
    | Poll(io: PollIo, callback: bool, timeout: int)

  ghost predicate Performs(s: Session, c: Command, s': Session) {
    match c
    case SendText(text) => s' == AfterSendText(s, text)
    case Close => s' == AfterClose(s)
    case Poll(io, callback, timeout) => Possible(s, io) && s' == AfterPoll(s, io, callback, timeout)
  }

  ghost predicate IsRun(run: seq<Session>, commands: seq<Command>) {
    && |run| == |commands| + 1 && Init(run[0])
    && forall i :: 0 <= i < |commands| ==> Performs(run[i], commands[i], run[i + 1])
  }

  /** The transport has taken a prefix of what was enqueued, the rest still waits; and the messages
      delivered are those in the bytes received, up to what still waits in the receive buffer. */
  ghost predicate Inv(s: Session) {
    && WindowFor(s.tw, |s.tx|)
    && s.enqueued == s.accepted + s.tx
    && Dispatch(s.received) ==
         Dispatched(s.messages + Dispatch(s.rx).messages, Dispatch(s.rx).rest)
  }

  lemma DispatchKeepsInv(s: Session)
    requires Inv(s)
    ensures Inv(AfterDispatch(s))
  {
    hide Dispatch;
    var d := Dispatch(s.rx);
    DispatchClean(s.rx);
    DispatchNone(d.rest);
    assert s.messages + d.messages == (s.messages + d.messages) + [];
  }

  lemma ReceiveKeepsInv(s: Session, incoming: seq<byte>, end: ReceiveEnd)
    requires Inv(s)
    ensures Inv(AfterReceive(s, incoming, end))
  {
    hide Dispatch;
    DispatchSplit(s.received, incoming);
    DispatchSplit(s.rx, incoming);
    var d := Dispatch(s.rx);
    var e := Dispatch(d.rest + incoming);
    assert (s.messages + d.messages) + e.messages == s.messages + (d.messages + e.messages);
  }

  lemma SendTextKeepsInv(s: Session, text: Text)
    requires Inv(s)
    ensures Inv(AfterSendText(s, text))
  {
    hide Dispatch, WindowFor, Appending, FrameAppended;
    FrameKeepsWindow(s.tw, text, |s.tx|);
  }

  lemma SendKeepsInv(s: Session, taken: nat, end: SendEnd)
    requires Inv(s) && taken <= |s.tx|
    ensures Inv(AfterSend(s, taken, end))
  {
    hide Dispatch;
    assert s.tx == s.tx[..taken] + s.tx[taken..];
  }

  lemma PollKeepsInv(s: Session, io: PollIo, callback: bool, timeout: int)
    requires Inv(s) && Possible(s, io)
    ensures Inv(AfterPoll(s, io, callback, timeout))
  {
    if s.ready == CLOSED {
      return;
    }
    var s0 := s.(calls := s.calls + io.calls);
    var s1 := AfterReceive(s0, io.incoming, io.receiveEnd);
    ReceiveKeepsInv(s0, io.incoming, io.receiveEnd);
    var s2 := AfterSend(s1, io.taken, io.sendEnd);
    SendKeepsInv(s1, io.taken, io.sendEnd);
    assert Inv(AfterSettle(s2));
    DispatchKeepsInv(AfterSettle(s2));
    hide AfterDispatch, Dispatch, WindowFor;
  }

  lemma InitInv(s: Session)
    requires Init(s)
    ensures Inv(s)
  {
    DispatchNone([]);
  }

  lemma {:induction false} RunInv(run: seq<Session>, commands: seq<Command>, i: nat)
    requires IsRun(run, commands) && i < |run|
    ensures Inv(run[i])
  {
    hide Dispatch, AfterPoll, AfterSendText, WindowFor;
    if i == 0 {
      InitInv(run[0]);
    } else {
      RunInv(run, commands, i - 1);
      assert Performs(run[i - 1], commands[i - 1], run[i]);
      match commands[i - 1]
      case SendText(text) => SendTextKeepsInv(run[i - 1], text);
      case Poll(io, callback, timeout) => PollKeepsInv(run[i - 1], io, callback, timeout);
      case Close =>
    }
  }

  /** Two receives in a row are one, and so are two sends. */
  lemma ReceiveTwice(s: Session, a: seq<byte>, b: seq<byte>, end: ReceiveEnd, end': ReceiveEnd)
    requires !end.ReceiveFailed?
    ensures AfterReceive(AfterReceive(s, a, end), b, end') == AfterReceive(s, a + b, end')
  {
    assert (s.rx + a) + b == s.rx + (a + b) && (s.received + a) + b == s.received + (a + b);
  }

  lemma SendTwice(s: Session, m: nat, n: nat, end: SendEnd, end': SendEnd)
    requires m + n <= |s.tx| && WindowFor(s.tw, |s.tx|) && !end.SendFailed?
    ensures AfterSend(AfterSend(s, m, end), n, end') == AfterSend(s, m + n, end')
  {
    hide Taken;
    TakenTwice(s.tw, |s.tx|, m, n);
    assert s.tx[m..][n..] == s.tx[m + n..] && s.tx[..m] + s.tx[m..][..n] == s.tx[..m + n];
  }

  /** One more command. */
  lemma RunGrows(run: seq<Session>, commands: seq<Command>, c: Command, s: Session)
    requires IsRun(run, commands) && Performs(run[|run| - 1], c, s)
    ensures IsRun(run + [s], commands + [c])
  {
    hide Performs, Init;
    var run', commands' := run + [s], commands + [c];
    forall i | 0 <= i < |commands'| ensures Performs(run'[i], commands'[i], run'[i + 1]) {
      assert i < |commands| ==> Performs(run[i], commands[i], run[i + 1]);
    }
  }

  /** The texts passed to `sendText`. */
  function Texts(commands: seq<Command>): seq<Text> {
    if commands == [] then []
    else
      var last := commands[|commands| - 1];
      Texts(commands[..|commands| - 1]) + if last.SendText? then [last.text] else []
  }

  /** Every frame found room. */
  ghost predicate AllFit(run: seq<Session>, commands: seq<Command>)
    requires |run| > |commands|
  {
    forall i :: 0 <= i < |commands| && commands[i].SendText? ==> FrameFits(run[i].tw, |commands[i].text|)
  }

  /** Every text was short enough for what was waiting when it was sent. */
  ghost predicate AllHaveHeadroom(run: seq<Session>, commands: seq<Command>)
    requires |run| > |commands|
  {
    forall i :: 0 <= i < |commands| && commands[i].SendText? ==>
      4 * |commands[i].text| + 2 * |run[i].tx| + 8 <= MAX_BUFFER_SIZE
  }

  lemma HeadroomFits(run: seq<Session>, commands: seq<Command>)
    requires IsRun(run, commands) && AllHaveHeadroom(run, commands)
    ensures AllFit(run, commands)
  {
    hide FrameFits, Performs;
    forall i | 0 <= i < |commands| && commands[i].SendText? ensures FrameFits(run[i].tw, |commands[i].text|) {
      RunInv(run, commands, i);
      assert WindowFor(run[i].tw, |run[i].tx|);
      FrameHeadroom(run[i].tw, |commands[i].text|);
    }
  }

  /** Over every run in which every frame found room, what was enqueued is the encoding of the texts. */
  lemma {:induction false} Lossless(run: seq<Session>, commands: seq<Command>)
    requires IsRun(run, commands) && AllFit(run, commands)
    ensures run[|run| - 1].enqueued == EncodeAll(Texts(commands))
    decreases |commands|
  {
    hide FrameFits, Dispatch, AfterPoll, Appending, EncodeAll, FrameAppended;
    if commands == [] {
      assert EncodeAll([]) == [] by { EncodeNone(); }
    } else {
      var n := |commands| - 1;
      Lossless(run[..n + 1], commands[..n]);
      assert Performs(run[n], commands[n], run[n + 1]);
      match commands[n]
      case SendText(text) =>
        WholeFrameIffFits(run[n].tw, text);
        EncodeAllConcat(Texts(commands[..n]), [text]);
        EncodeOne(text);
      case Poll(io, callback, timeout) =>
        PollOnlyAdds(run[n], io, callback, timeout);
        assert Texts(commands) == Texts(commands[..n]);
      case Close =>
        assert Texts(commands) == Texts(commands[..n]);
    }
  }

  lemma EncodeNone()
    ensures EncodeAll([]) == []
  {
  }

  lemma EncodeOne(text: Text)
    ensures EncodeAll([text]) == Encode(text)
  {
  }

  // The theorems.

  /** What a command does to a connection, by the state it finds. */
  lemma StateMoves(s: Session, c: Command, s': Session)
    requires Inv(s) && Performs(s, c, s')
    ensures s.ready == CLOSED ==>
      && s'.ready == CLOSED && s'.accepted == s.accepted && s'.received == s.received
      && s'.messages == s.messages && s'.rx == s.rx
      && (s'.calls == s.calls || s'.calls == s.calls + [NullSelectCall])
    ensures s.ready == CLOSING ==> s'.ready != OPEN
    ensures s.ready != CLOSED && s'.ready == CLOSED ==>
      && c.Poll?
      && (c.io.receiveEnd.ReceiveFailed? || c.io.sendEnd.SendFailed?
          || (s.ready == CLOSING && s'.accepted == s'.enqueued))
  {
    hide Dispatch;
    match c
    case Poll(io, callback, timeout) => PollKeepsInv(s, io, callback, timeout);
    case _ =>
  }

  /** What a poll of a connection that is not closed moves, and when it closes. A connection asked to close
      is closed by its next poll if and only if that poll fails or everything has been sent; one that was
      not is closed only by a failure; and the transport is closed exactly when the connection is. */
  lemma PollMoves(s: Session, io: PollIo, callback: bool, timeout: int)
    requires s.ready != CLOSED && Possible(s, io)
    ensures var s' := AfterPoll(s, io, callback, timeout);
      && s'.received == s.received + io.incoming
      && s'.accepted + s'.tx == s.accepted + s.tx && |s'.accepted| == |s.accepted| + io.taken
      && s'.calls == s.calls + io.calls
      && (s'.ready == CLOSED <==> Failed(io) || (s.ready == CLOSING && io.taken == |s.tx|))
      && (s'.ready == CLOSED <==> CloseCall in io.calls)
      && (s'.ready != CLOSED ==> s'.ready == s.ready)
  {
    hide Dispatch;
    assert s.tx == s.tx[..io.taken] + s.tx[io.taken..];
    assert s.accepted + s.tx == (s.accepted + s.tx[..io.taken]) + s.tx[io.taken..];
  }

  /** Over an operating-system socket, with headroom: everything waiting is received; unless that ends in a
      failure, everything the acceptances take is sent; with a callback every complete message is delivered;
      and the connection closes exactly if its script says so or it was to close and everything is sent. */
  lemma SystemPollMoves(s: Session, before: Script, io: PollIo, after: Script, callback: bool, timeout: int)
    requires Inv(s) && s.ready != CLOSED && Possible(s, io) && SystemPoll(s, before, io, after)
    requires 4 * MAX_READ_SIZE + 2 * (|s.rx| + |Waiting(before.arrivals)|) <= MAX_BUFFER_SIZE
    ensures var s' := AfterPoll(s, io, callback, timeout);
      && s'.received == s.received + Waiting(before.arrivals)
      && after.arrivals == AfterStop(before.arrivals)
      && (Fatal(before.arrivals) ==> s'.ready == CLOSED && s'.accepted == s.accepted && s'.messages == s.messages)
      && (!Fatal(before.arrivals) ==>
            exists used: nat :: (Uses(before.acceptances, |s.tx|, used)
                                 && |s'.accepted| == |s.accepted| + Min(|s.tx|, Total(before.acceptances, used))
                                 && after.acceptances == before.acceptances[used..]))
      && (!Failed(io) && callback ==> Dispatch(s'.received) == Dispatched(s'.messages, s'.rx))
  {
    hide Dispatch, Waiting, AfterStop, Fatal, Total, WindowFor;
    assert io.receiveEnd.NoRoom? ==> |io.incoming| <= |Waiting(before.arrivals)|;
    PollMoves(s, io, callback, timeout);
    if !Fatal(before.arrivals) {
      var used: nat :| SystemSend(before.acceptances, |s.tx|, used, io.taken, io.sendEnd, after.acceptances);
      assert Uses(before.acceptances, |s.tx|, used);
    }
    if !Failed(io) && callback {
      PollKeepsInv(s, io, true, timeout);
      DispatchedAll(s, io, timeout);
      InvMessages(AfterPoll(s, io, true, timeout));
    }
  }

  /** A poll of a closed connection only waits, and only if it is given time. */
  lemma ClosedPollWaits(s: Session, io: PollIo, callback: bool, timeout: int)
    requires s.ready == CLOSED
    ensures AfterPoll(s, io, callback, timeout) ==
      s.(calls := s.calls + if timeout > 0 then [NullSelectCall] else [])
  {
  }

  /** A poll that closes a connection asked to close: it fails, or everything has been sent. */
  ghost predicate Finishes(s: Session, c: Command) {
    c.Poll? && (Failed(c.io) || c.io.taken == |s.tx|)
  }

  /** Over every run, an open connection that is asked to close has been closed if and only if one of the
      polls since failed or sent everything that waited. */
  lemma {:induction false} CloseCompletes(run: seq<Session>, commands: seq<Command>, i: nat, j: nat)
    requires IsRun(run, commands) && i < j < |run| && commands[i].Close? && run[i].ready == OPEN
    ensures run[j].ready == CLOSED <==> exists k :: i < k < j && Finishes(run[k], commands[k])
    ensures run[j].ready == CLOSED || run[j].ready == CLOSING
    ensures run[j].ready == CLOSED ==> exists k :: |run[i].calls| <= k < |run[j].calls| && run[j].calls[k] == CloseCall
    ensures run[i].calls <= run[j].calls
    decreases j
  {
    hide AfterPoll, AfterSendText, Possible, Failed;
    if j == i + 1 {
      assert Performs(run[i], commands[i], run[j]);
    } else {
      var n := j - 1;
      CloseCompletes(run, commands, i, n);
      assert Performs(run[n], commands[n], run[j]);
      CloseStep(run[n], commands[n], run[j]);
      if run[n].ready == CLOSED {
        var k :| i < k < n && Finishes(run[k], commands[k]);
        var m :| |run[i].calls| <= m < |run[n].calls| && run[n].calls[m] == CloseCall;
        assert run[j].calls[m] == CloseCall;
      } else if run[j].ready == CLOSED {
        assert Finishes(run[n], commands[n]);
        var m :| |run[n].calls| <= m < |run[j].calls| && run[j].calls[m] == CloseCall;
        assert |run[i].calls| <= m;
      }
    }
  }

  /** One command of a connection that is closing or closed. */
  lemma CloseStep(s: Session, c: Command, s': Session)
    requires s.ready != OPEN && Performs(s, c, s')
    ensures s.calls <= s'.calls && s'.ready != OPEN
    ensures s.ready == CLOSED ==> s'.ready == CLOSED
    ensures s.ready == CLOSING ==> (s'.ready == CLOSED <==> Finishes(s, c))
    ensures s.ready == CLOSING && s'.ready == CLOSED ==>
      exists m :: |s.calls| <= m < |s'.calls| && s'.calls[m] == CloseCall
  {
    hide AfterPoll, AfterSendText, Failed;
    match c
    case Poll(io, callback, timeout) =>
      if s.ready == CLOSED {
        ClosedPollWaits(s, io, callback, timeout);
      } else {
        PollMoves(s, io, callback, timeout);
        if s'.ready == CLOSED {
          var m :| 0 <= m < |io.calls| && io.calls[m] == CloseCall;
          assert s'.calls[|s.calls| + m] == CloseCall;
        }
      }
    case SendText(text) => SendTextKeepsReady(s, text);
    case Close =>
  }

  lemma SendTextKeepsReady(s: Session, text: Text)
    ensures AfterSendText(s, text).ready == s.ready && AfterSendText(s, text).calls == s.calls
  {
  }

  /** Over every run a closed connection stays closed, moves no byte in either direction, delivers no
      message, and makes no call to the transport but `nullSelect`. */
  lemma {:induction false} ClosedIsFinal(run: seq<Session>, commands: seq<Command>, i: nat, j: nat)
    requires IsRun(run, commands) && i <= j < |run| && run[i].ready == CLOSED
    ensures run[j].ready == CLOSED
    ensures run[j].accepted == run[i].accepted && run[j].received == run[i].received
    ensures run[j].messages == run[i].messages && run[j].rx == run[i].rx
    ensures run[i].calls <= run[j].calls
    ensures forall k :: |run[i].calls| <= k < |run[j].calls| ==> run[j].calls[k] == NullSelectCall
    decreases j
  {
    hide Performs, Inv;
    if i < j {
      ClosedIsFinal(run, commands, i, j - 1);
      RunInv(run, commands, j - 1);
      assert Performs(run[j - 1], commands[j - 1], run[j]);
      StateMoves(run[j - 1], commands[j - 1], run[j]);
    }
  }

  /** Over every run OPEN is never re-entered; and a connection that closes without the transport
      failing was CLOSING and has handed over every byte ever enqueued. */
  lemma GracefulClose(run: seq<Session>, commands: seq<Command>, i: nat)
    requires IsRun(run, commands) && i < |commands|
    ensures run[i].ready != OPEN ==> run[i + 1].ready != OPEN
    ensures run[i].ready != CLOSED && run[i + 1].ready == CLOSED ==>
      && commands[i].Poll?
      && (commands[i].io.receiveEnd.ReceiveFailed? || commands[i].io.sendEnd.SendFailed?
          || (run[i].ready == CLOSING && run[i + 1].accepted == run[i + 1].enqueued))
  {
    hide Performs, Inv;
    RunInv(run, commands, i);
    assert Performs(run[i], commands[i], run[i + 1]);
    StateMoves(run[i], commands[i], run[i + 1]);
  }

  /** A poll that reaches the dispatch loop. */
  ghost predicate Dispatches(s: Session, c: Command) {
    c.Poll? && c.callback && s.ready != CLOSED && !c.io.receiveEnd.ReceiveFailed? && !c.io.sendEnd.SendFailed?
  }

  /** Over every run the messages delivered are a prefix of those in the bytes received, and all of
      them after a poll that reached the dispatch loop; however the bytes were cut into receives. */
  lemma Delivery(run: seq<Session>, commands: seq<Command>, i: nat)
    requires IsRun(run, commands) && i < |run|
    ensures run[i].messages <= Dispatch(run[i].received).messages
    ensures i > 0 && Dispatches(run[i - 1], commands[i - 1]) ==>
      Dispatch(run[i].received) == Dispatched(run[i].messages, run[i].rx)
  {
    hide Dispatch, Inv;
    RunInv(run, commands, i);
    assert Inv(run[i]) ==> run[i].messages <= Dispatch(run[i].received).messages by { InvMessages(run[i]); }
    if i > 0 && Dispatches(run[i - 1], commands[i - 1]) {
      assert Performs(run[i - 1], commands[i - 1], run[i]);
      var c := commands[i - 1];
      DispatchedAll(run[i - 1], c.io, c.timeout);
      InvMessages(run[i]);
      DispatchNone(run[i].rx);
    }
  }

  lemma InvMessages(s: Session)
    requires Inv(s)
    ensures s.messages <= Dispatch(s.received).messages
    ensures NoEnd(s.rx) ==> Dispatch(s.received) == Dispatched(s.messages, s.rx)
  {
    hide Dispatch;
    if NoEnd(s.rx) {
      DispatchNone(s.rx);
      assert s.messages + [] == s.messages;
    }
  }

  lemma DispatchedAll(s: Session, io: PollIo, timeout: int)
    requires Possible(s, io) && Dispatches(s, Poll(io, true, timeout))
    ensures NoEnd(AfterPoll(s, io, true, timeout).rx)
  {
    hide Dispatch, NoEnd;
    DispatchClean(s.rx + io.incoming);
  }

  // What can be lost.

  /** Over every run, every message received has been delivered if and only if no complete message waits
      in the receive buffer. */
  lemma DeliveredAllIff(run: seq<Session>, commands: seq<Command>, i: nat)
    requires IsRun(run, commands) && i < |run|
    ensures run[i].messages == Dispatch(run[i].received).messages <==> NoEnd(run[i].rx)
  {
    hide Dispatch, IsRun, Inv;
    RunInv(run, commands, i);
    InvDeliveredAll(run[i]);
  }

  lemma InvDeliveredAll(s: Session)
    requires Inv(s)
    ensures s.messages == Dispatch(s.received).messages <==> NoEnd(s.rx)
  {
    hide Dispatch, WindowFor;
    var d := Dispatch(s.rx);
    if NoEnd(s.rx) {
      InvMessages(s);
    } else {
      DispatchCut(s.rx);
      DispatchSome(s.rx);
      assert |s.messages + d.messages| > |s.messages|;
    }
  }

  /** A complete message that waits when a connection closes is never delivered: in every run what a
      closed connection has not dispatched stays undelivered. */
  lemma ClosedLosesRest(run: seq<Session>, commands: seq<Command>, i: nat, j: nat)
    requires IsRun(run, commands) && i <= j < |run| && run[i].ready == CLOSED
    ensures run[j].messages < Dispatch(run[j].received).messages <==> !NoEnd(run[i].rx)
  {
    hide Dispatch, IsRun, NoEnd;
    ClosedIsFinal(run, commands, i, j);
    DeliveredAllIff(run, commands, j);
    Delivery(run, commands, j);
  }

  /** An input: a message and the end of the stream arrive in the same poll of a new connection. The
      poll closes the connection before it dispatches, and the message stays where it is. */
  lemma LastMessageCanBeLost(text: Text, timeout: int)
    requires Clean(text) && |Encode(text)| <= MAX_BUFFER_SIZE
    ensures var io := PollIo(Encode(text), ReceiveFailed, 0, SendBlocked, [ReceiveCall, ReceiveCall, CloseCall]);
      && Possible(NEW, io)
      && var s := AfterPoll(NEW, io, true, timeout);
         s.ready == CLOSED && s.messages == [] && Dispatch(s.received).messages == [text]
  {
    hide Dispatch, Clean;
    DispatchEncoded([text]);
    assert EncodeAll([text]) == Encode(text);
    assert [] + Encode(text) == Encode(text);
  }

  /** An input: the first text of a new connection is as long as the growth limit. It finds no room and
      its CR LF does, so whoever receives what was enqueued is delivered an empty message. */
  lemma TextCanBeLost(text: Text)
    requires |text| == MAX_BUFFER_SIZE
    ensures var s := AfterSendText(NEW, text);
      s.enqueued == END && Dispatch(s.enqueued) == Dispatched([[]], [])
  {
    hide Dispatch, EncodeAll, Appending, FrameAppended;
    EndAloneIff(NEW.tw, text);
    assert AfterSendText(NEW, text).enqueued == [] + END == END;
    EncodeOne([]);
    assert Encode([]) == END;
    DispatchEncoded([[]]);
  }

  /** An input for the opposite: the second text fills the block to its limit, and its CR LF finds no
      room. Once the transport has taken everything a third text follows, and the peer is delivered the
      second and the third as one message. */
  lemma TextsCanRunTogether(first: Text, second: Text, third: Text)
    requires |first| == MAX_BUFFER_SIZE - 2 * BUFFER_SIZE && |second| == 2 * BUFFER_SIZE - 2
    requires |third| < BUFFER_SIZE
    requires Clean(first) && Clean(second + third)
    ensures var s := AfterSendText(AfterSendText(NEW, first), second);
      var s' := AfterSendText(AfterSend(s, |s.tx|, AllSent), third);
      Dispatch(s'.enqueued) == Dispatched([first, second + third], [])
  {
    hide Dispatch, Clean, EncodeAll;
    var s := AfterSendText(AfterSendText(NEW, first), second);
    assert s.enqueued == Encode(first) + second && s.tw == Window(0, MAX_BUFFER_SIZE, MAX_BUFFER_SIZE);
    var s' := AfterSendText(AfterSend(s, |s.tx|, AllSent), third);
    assert s'.enqueued == Encode(first) + Encode(second + third);
    assert EncodeAll([first, second + third]) == s'.enqueued by { EncodeTwo(first, second + third); }
    DispatchEncoded([first, second + third]);
  }

  lemma EncodeTwo(a: Text, b: Text)
    ensures EncodeAll([a, b]) == Encode(a) + Encode(b)
  {
    assert [a, b][1..] == [b];
    assert EncodeAll([b]) == Encode(b);
  }

  // Two connections.

  /** Two connections over any transport that hands over a prefix of what it accepted: if every text
      one side passed to `sendText` was clean and its frame found room, the other side has been
      delivered a prefix of those texts. */
  lemma OverAnyStream(run: seq<Session>, commands: seq<Command>, run': seq<Session>, commands': seq<Command>)
    requires IsRun(run, commands) && IsRun(run', commands')
    requires AllFit(run, commands) && AllClean(Texts(commands))
    requires run'[|commands'|].received <= run[|commands|].accepted
    ensures run'[|commands'|].messages <= Texts(commands)
  {
    hide Dispatch, EncodeAll, Performs, AllFit, Texts;
    var s, s' := run[|commands|], run'[|commands'|];
    RunInv(run, commands, |commands|);
    Delivery(run', commands', |commands'|);
    Lossless(run, commands);
    assert s.accepted <= s.enqueued;
    PrefixMessages(s'.received, s.enqueued);
    DispatchEncoded(Texts(commands));
  }
}
