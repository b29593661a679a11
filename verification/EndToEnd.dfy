/** Two chat endpoints over the shared-memory transport: a ring each way, and on each side a `poll`
    cut into its smallest steps, down to the single bytes the rings copy. Steps of the two sides
    interleave freely. Every endpoint is proved to be a session: each of its completed polls is one
    poll of the session machine. */
module EndToEnd {
  import opened Words
  import opened Frames
  import opened Framing
  import opened ReadyStates
  import opened SimpleBuffer
  import opened Transport
  import S = Session
  import R = RingProtocol

  /** Where an endpoint is inside `poll`. */
  datatype Phase = Outside | ReceiveLoop | InReceive | SendLoop | InSend | Settling | DispatchLoop

  datatype Endpoint = Endpoint(
    conn: S.Session, phase: Phase,
    rw: Window,                 // window of the receive buffer
    io: S.PollIo,               // history: what the poll under way has seen of its transport so far
    callback: bool, timeout: int,  // arguments of that poll
    states: seq<S.Session>,     // history: the connection after each completed command
    commands: seq<S.Command>,   // history: the completed commands
    consumed: seq<byte>)        // history: every byte dispatched
  {
    ghost function Before(): S.Session
      requires states != []
    {
      states[|states| - 1]
    }
  }

  datatype System = System(a: Endpoint, b: Endpoint, ab: R.Ring, ba: R.Ring)

  /** One endpoint with the ring it writes and the ring it reads. */
  datatype Actor = Actor(e: Endpoint, out: R.Ring, inn: R.Ring)

  datatype Action =
    | SendText(str: Option<seq<byte>>) | Close | PollClosed(callback: bool, timeout: int)
    | Poll(callback: bool, timeout: int)
    | Reserve | ReadStep | Received
    | StartSend | WriteStep | Sent | NothingToSend
    | Settle | DispatchStep

  ghost predicate Enabled(x: Actor, act: Action) {
    match act
    case SendText(str) => x.e.phase == Outside
    case Close => x.e.phase == Outside
    case PollClosed(_, _) => x.e.phase == Outside && x.e.conn.ready == CLOSED
    case Poll(_, _) => x.e.phase == Outside && x.e.conn.ready != CLOSED
    case Reserve => x.e.phase == ReceiveLoop && x.inn.reader.RIdle?
    case ReadStep => x.e.phase == InReceive && R.Enabled(x.inn, R.StepReader)
    case Received => x.e.phase == InReceive && x.inn.reader.RReturned?
    case StartSend => x.e.phase == SendLoop && x.e.conn.tx != [] && |x.e.conn.tx| < WIDTH && x.out.writer.WIdle?
    case WriteStep => x.e.phase == InSend && R.Enabled(x.out, R.StepWriter)
    case Sent => x.e.phase == InSend && x.out.writer.WReturned?
    case NothingToSend => x.e.phase == SendLoop && x.e.conn.tx == []
    case Settle => x.e.phase == Settling
    case DispatchStep => x.e.phase == DispatchLoop
  }

  // What each action does to its endpoint.

  /** A command is complete. */
  ghost function Completed(e: Endpoint, conn: S.Session, c: S.Command): Endpoint {
    e.(conn := conn, phase := Outside, states := e.states + [conn], commands := e.commands + [c])
  }

  ghost function Called(e: Endpoint, call: Call): Endpoint {
    e.(conn := e.conn.(calls := e.conn.calls + [call]), io := e.io.(calls := e.io.calls + [call]))
  }

  ghost function BeginPoll(e: Endpoint, callback: bool, timeout: int): Endpoint {
    e.(phase := ReceiveLoop, io := S.PollIo([], S.NoRoom, 0, S.SendBlocked, []), callback := callback, timeout := timeout)
  }

  /** `confirmCapacity`, and if there is room the call to `receive`. */
  ghost function AfterReserve(e: Endpoint): Endpoint {
    var e' := e.(rw := Reserved(e.rw, MAX_BUFFER_SIZE, MAX_READ_SIZE));
    if Fits(e.rw, MAX_BUFFER_SIZE, MAX_READ_SIZE) then Called(e', ReceiveCall).(phase := InReceive)
    else e'.(phase := SendLoop)
  }

  /** No bytes is the -1 of `receive`, and `wouldBlock` then says yes. */
  ghost function AfterReceived(e: Endpoint, bytes: seq<byte>): Endpoint {
    e.(conn := S.AfterReceive(e.conn, bytes, S.NothingMore), rw := e.rw.(end := e.rw.end + |bytes|),
       io := e.io.(incoming := e.io.incoming + bytes, receiveEnd := if bytes == [] then S.NothingMore else S.NoRoom),
       phase := if bytes == [] then SendLoop else ReceiveLoop)
  }

  ghost function AfterSent(e: Endpoint, len: nat): Endpoint
    requires len <= |e.conn.tx|
  {
    e.(conn := S.AfterSend(e.conn, len, S.SendBlocked), io := e.io.(taken := e.io.taken + len),
       phase := if len == 0 then Settling else SendLoop)
  }

  /** Settling closes the transport of a drained closing connection. */
  ghost function Settled(e: Endpoint): Endpoint {
    var e' := if e.conn.tx == [] && e.conn.ready == CLOSING then Called(e, CloseCall) else e;
    e'.(conn := S.AfterSettle(e'.conn),
        io := e'.io.(sendEnd := if e.conn.tx == [] then S.AllSent else S.SendBlocked))
  }

  ghost function AfterSettled(e: Endpoint): Endpoint {
    var e' := Settled(e);
    if e.callback then e'.(phase := DispatchLoop)
    else Completed(e', e'.conn, S.Poll(e'.io, e.callback, e.timeout))
  }

  ghost function AfterDispatchStep(e: Endpoint): Endpoint {
    var end := FindEnd(e.conn.rx);
    if end == |e.conn.rx| then Completed(e, e.conn, S.Poll(e.io, e.callback, e.timeout))
    else e.(conn := e.conn.(messages := e.conn.messages + [CString(e.conn.rx[..end])], rx := e.conn.rx[end + 2..]),
            rw := Consumed(e.rw, end + 2), consumed := e.consumed + e.conn.rx[..end + 2])
  }

  ghost function Step(x: Actor, act: Action): Actor
    requires Enabled(x, act)
  {
    var e := x.e;
    match act
    case SendText(str) =>
      x.(e := Completed(e, S.AfterSendText(e.conn, TextSent(str)), S.SendText(TextSent(str))))
    case Close => x.(e := Completed(e, S.AfterClose(e.conn), S.Close))
    case PollClosed(callback, timeout) =>
      var io := S.Quiet(e.conn);
      x.(e := Completed(e, S.AfterPoll(e.conn, io, callback, timeout), S.Poll(io, callback, timeout)))
    case Poll(callback, timeout) => x.(e := BeginPoll(e, callback, timeout))
    case Reserve =>
      var e' := AfterReserve(e);
      Actor(e', x.out, if e'.phase == InReceive then R.Apply(x.inn, R.CallRead(MAX_READ_SIZE)) else x.inn)
    case ReadStep => x.(inn := R.Apply(x.inn, R.StepReader))
    case Received => x.(e := AfterReceived(e, x.inn.reader.bytes), inn := R.Apply(x.inn, R.EndRead))
    case StartSend => x.(e := Called(e, SendCall).(phase := InSend), out := R.Apply(x.out, R.CallWrite(e.conn.tx)))
    case WriteStep => x.(out := R.Apply(x.out, R.StepWriter))
    case Sent =>
      // `write` never takes more than it is offered
      x.(e := AfterSent(e, Min(x.out.writer.len, |e.conn.tx|)), out := R.Apply(x.out, R.EndWrite))
    case NothingToSend => x.(e := e.(phase := Settling))
    case Settle => x.(e := AfterSettled(e))
    case DispatchStep => x.(e := AfterDispatchStep(e))
  }

  ghost predicate ActsAsA(s: System, s': System, act: Action) {
    var x := Actor(s.a, s.ab, s.ba);
    Enabled(x, act) && Actor(s'.a, s'.ab, s'.ba) == Step(x, act) && s'.b == s.b
  }

  ghost predicate ActsAsB(s: System, s': System, act: Action) {
    var x := Actor(s.b, s.ba, s.ab);
    Enabled(x, act) && Actor(s'.b, s'.ba, s'.ab) == Step(x, act) && s'.a == s.a
  }

  ghost predicate Next(s: System, s': System) {
    exists act :: ActsAsA(s, s', act) || ActsAsB(s, s', act)
  }

  ghost predicate InitEndpoint(e: Endpoint) {
    && e.conn == S.NEW && e.phase == Outside && e.rw == Window(0, 0, BUFFER_SIZE)
    && e.states == [S.NEW] && e.commands == [] && e.consumed == []
  }

  ghost predicate Init(s: System) {
    InitEndpoint(s.a) && InitEndpoint(s.b) && R.Init(s.ab) && R.Init(s.ba)
  }

  ghost predicate IsRun(run: seq<System>) {
    && |run| > 0 && Init(run[0])
    && forall i :: 0 <= i < |run| - 1 ==> Next(run[i], run[i + 1])
  }

  // An endpoint on its own.

  /** The part of the session's poll that an endpoint in the middle of `poll` has done. */
  ghost function DoneSoFar(e: Endpoint): S.Session
    requires e.states != []
  {
    var s1 := S.AfterReceive(e.Before().(calls := e.Before().calls + e.io.calls), e.io.incoming, e.io.receiveEnd);
    if e.io.taken <= |s1.tx| then S.AfterSend(s1, e.io.taken, S.SendBlocked) else s1
  }

  /** Dispatching the rest of `s` comes to the same as dispatching the rest of `t`, where it began. */
  ghost predicate SameDispatch(s: S.Session, t: S.Session) {
    && s.(messages := t.messages, rx := t.rx) == t
    && s.messages + Dispatch(s.rx).messages == t.messages + Dispatch(t.rx).messages
    && Dispatch(s.rx).rest == Dispatch(t.rx).rest
  }

  ghost predicate PollInv(e: Endpoint)
    requires e.states != []
  {
    if e.phase == Outside then e.conn == e.Before()
    else
      && e.Before().ready != CLOSED && NullSelectCall !in e.io.calls
      && (e.phase != DispatchLoop ==> CloseCall !in e.io.calls)
      && !e.io.receiveEnd.ReceiveFailed? && e.io.taken <= |e.Before().tx|
      && (e.phase == ReceiveLoop || e.phase == InReceive ==> e.io.taken == 0)
      && if e.phase == DispatchLoop then
           e.callback && S.Possible(e.Before(), e.io) && !e.io.sendEnd.SendFailed?
           && SameDispatch(e.conn, S.AfterSettle(DoneSoFar(e)))
         else e.conn == DoneSoFar(e)
  }

  /** The rings never fail a poll. */
  ghost predicate NeverFails(e: Endpoint)
    requires |e.states| > |e.commands|
  {
    forall k :: 0 <= k < |e.commands| && e.commands[k].Poll? && e.states[k].ready != CLOSED ==>
      !S.Failed(e.commands[k].io)
  }

  ghost predicate EndpointInv(e: Endpoint) {
    && e.states != [] && S.IsRun(e.states, e.commands) && NeverFails(e) && PollInv(e) && S.Inv(e.conn)
    && WindowFor(e.rw, |e.conn.rx|) && (e.phase == InReceive ==> MAX_READ_SIZE <= e.rw.Free())
    && e.conn.received == e.consumed + e.conn.rx
    && Dispatch(e.consumed) == Dispatched(e.conn.messages, [])
  }

  lemma InitEndpointInv(e: Endpoint)
    requires InitEndpoint(e)
    ensures EndpointInv(e)
  {
    S.InitInv(e.conn);
    DispatchNone([]);
  }

  lemma CompletedKeepsInv(e: Endpoint, conn: S.Session, c: S.Command)
    requires S.IsRun(e.states, e.commands) && NeverFails(e) && S.Performs(e.Before(), c, conn) && S.Inv(conn)
    requires c.Poll? && e.Before().ready != CLOSED ==> !S.Failed(c.io)
    requires WindowFor(e.rw, |conn.rx|) && conn.received == e.consumed + conn.rx
    requires Dispatch(e.consumed) == Dispatched(conn.messages, [])
    ensures EndpointInv(Completed(e, conn, c))
  {
    hide S.Inv, S.Performs, Dispatch, WindowFor, S.Failed;
    S.RunGrows(e.states, e.commands, c, conn);
  }

  /** Outside a poll: `sendText`, `close`, and the poll of a closed connection. */
  lemma CommandKeepsInv(e: Endpoint, str: Option<seq<byte>>, callback: bool, timeout: int)
    requires EndpointInv(e) && e.phase == Outside
    ensures EndpointInv(Completed(e, S.AfterSendText(e.conn, TextSent(str)), S.SendText(TextSent(str))))
    ensures EndpointInv(Completed(e, S.AfterClose(e.conn), S.Close))
    ensures e.conn.ready == CLOSED ==> var io := S.Quiet(e.conn);
      EndpointInv(Completed(e, S.AfterPoll(e.conn, io, callback, timeout), S.Poll(io, callback, timeout)))
  {
    hide Dispatch, WindowFor, S.IsRun, TextSent, Appending, FrameAppended, EndpointInv, Completed;
    assert S.IsRun(e.states, e.commands) && NeverFails(e) && e.conn == e.Before() && S.Inv(e.conn) && WindowFor(e.rw, |e.conn.rx|)
        && e.conn.received == e.consumed + e.conn.rx && Dispatch(e.consumed) == Dispatched(e.conn.messages, []) by {
      OutsideFacts(e);
    }
    S.SendTextKeepsInv(e.conn, TextSent(str));
    CompletedKeepsInv(e, S.AfterSendText(e.conn, TextSent(str)), S.SendText(TextSent(str)));
    CompletedKeepsInv(e, S.AfterClose(e.conn), S.Close);
    if e.conn.ready == CLOSED {
      var io := S.Quiet(e.conn);
      S.PollKeepsInv(e.conn, io, callback, timeout);
      CompletedKeepsInv(e, S.AfterPoll(e.conn, io, callback, timeout), S.Poll(io, callback, timeout));
    }
  }

  lemma OutsideFacts(e: Endpoint)
    requires EndpointInv(e)
    ensures S.IsRun(e.states, e.commands) && NeverFails(e) && S.Inv(e.conn) && WindowFor(e.rw, |e.conn.rx|)
    ensures e.conn.received == e.consumed + e.conn.rx && Dispatch(e.consumed) == Dispatched(e.conn.messages, [])
    ensures e.phase == Outside ==> e.conn == e.Before()
  {
  }

  lemma BeginPollKeepsInv(e: Endpoint, callback: bool, timeout: int)
    requires EndpointInv(e) && e.phase == Outside && e.conn.ready != CLOSED
    ensures EndpointInv(BeginPoll(e, callback, timeout))
  {
    hide Dispatch, WindowFor, S.IsRun, S.Inv;
    assert DoneSoFar(BeginPoll(e, callback, timeout)) == e.conn;
  }

  /** A call to the transport changes nothing but the list of calls. */
  lemma CalledIsDone(e: Endpoint, call: Call)
    requires e.states != [] && e.conn == DoneSoFar(e)
    ensures Called(e, call).conn == DoneSoFar(Called(e, call))
  {
    var calls := e.Before().calls;
    assert calls + (e.io.calls + [call]) == (calls + e.io.calls) + [call];
  }

  lemma CalledKeepsSessionInv(s: S.Session, calls: seq<Call>)
    requires S.Inv(s)
    ensures S.Inv(s.(calls := calls))
  {
  }

  lemma ReserveKeepsInv(e: Endpoint)
    requires EndpointInv(e) && e.phase == ReceiveLoop
    ensures EndpointInv(AfterReserve(e))
  {
    hide Dispatch, S.IsRun, S.Inv, DoneSoFar, Fits, Reserved;
    ReservedMakesRoom(e.rw, MAX_BUFFER_SIZE, MAX_READ_SIZE);
    CalledIsDone(e, ReceiveCall);
    CalledKeepsSessionInv(e.conn, e.conn.calls + [ReceiveCall]);
    assert DoneSoFar(e.(rw := Reserved(e.rw, MAX_BUFFER_SIZE, MAX_READ_SIZE), phase := SendLoop)) == DoneSoFar(e) by {
      SamePoll(e, e.(rw := Reserved(e.rw, MAX_BUFFER_SIZE, MAX_READ_SIZE), phase := SendLoop));
    }
    SamePoll(Called(e, ReceiveCall), AfterReserve(e));
  }

  /** What a poll has done depends on its start and on what it saw of its transport. */
  lemma SamePoll(e: Endpoint, e': Endpoint)
    requires e.states != [] && e'.states == e.states
    ensures e'.io == e.io ==> DoneSoFar(e') == DoneSoFar(e)
  {
  }

  lemma ReceivedIsDone(e: Endpoint, bytes: seq<byte>)
    requires e.states != [] && e.conn == DoneSoFar(e) && e.io.taken == 0 && !e.io.receiveEnd.ReceiveFailed?
    ensures AfterReceived(e, bytes).conn == DoneSoFar(AfterReceived(e, bytes))
  {
    var end' := if bytes == [] then S.NothingMore else S.NoRoom;
    S.ReceiveTwice(e.Before().(calls := e.Before().calls + e.io.calls), e.io.incoming, bytes, e.io.receiveEnd, end');
    hide S.AfterReceive;
    NothingSent(e.conn);
  }

  lemma NothingSent(s: S.Session)
    ensures S.AfterSend(s, 0, S.SendBlocked) == s
  {
    assert s.tx[0..] == s.tx && s.accepted + s.tx[..0] == s.accepted;
  }

  lemma SentIsDone(e: Endpoint, len: nat)
    requires e.states != [] && e.conn == DoneSoFar(e) && len <= |e.conn.tx|
    requires e.io.taken <= |e.Before().tx| && WindowFor(e.Before().tw, |e.Before().tx|)
    ensures e.io.taken + len <= |e.Before().tx|
    ensures AfterSent(e, len).conn == DoneSoFar(AfterSent(e, len))
  {
    var s1 := S.AfterReceive(e.Before().(calls := e.Before().calls + e.io.calls), e.io.incoming, e.io.receiveEnd);
    S.SendTwice(s1, e.io.taken, len, S.SendBlocked, S.SendBlocked);
    hide WindowFor, Consumed;
  }

  lemma ReceivedKeepsInv(e: Endpoint, bytes: seq<byte>)
    requires EndpointInv(e) && e.phase == InReceive && |bytes| <= MAX_READ_SIZE
    ensures EndpointInv(AfterReceived(e, bytes))
  {
    hide Dispatch, S.IsRun, S.Inv, DoneSoFar;
    S.ReceiveKeepsInv(e.conn, bytes, S.NothingMore);
    ReceivedIsDone(e, bytes);
    assert e.consumed + (e.conn.rx + bytes) == (e.consumed + e.conn.rx) + bytes;
  }

  lemma SentKeepsInv(e: Endpoint, len: nat)
    requires EndpointInv(e) && e.phase == InSend && len <= |e.conn.tx|
    ensures EndpointInv(AfterSent(e, len))
  {
    hide Dispatch, S.IsRun, S.Inv, DoneSoFar, WindowFor, Consumed;
    S.SendKeepsInv(e.conn, len, S.SendBlocked);
    StartedWell(e);
    SentIsDone(e, len);
  }

  lemma StartedWell(e: Endpoint)
    requires EndpointInv(e)
    ensures S.Inv(e.Before()) && WindowFor(e.Before().tw, |e.Before().tx|)
  {
    hide Dispatch, WindowFor, PollInv;
    S.RunInv(e.states, e.commands, |e.commands|);
  }

  /** An endpoint past its transmit loop has done the transfer of its session's poll. */
  lemma TransferDone(e: Endpoint, sendEnd: S.SendEnd)
    requires e.states != [] && e.Before().ready != CLOSED && e.io.taken <= |e.Before().tx|
    requires !e.io.receiveEnd.ReceiveFailed? && NullSelectCall !in e.io.calls
    requires |e.Before().rx| + |e.io.incoming| <= MAX_BUFFER_SIZE
    requires sendEnd == if e.io.taken == |e.Before().tx| then S.AllSent else S.SendBlocked
    ensures S.Feasible(e.Before(), e.io.(sendEnd := sendEnd))
    ensures S.AfterTransfer(e.Before(), e.io.(sendEnd := sendEnd)) == DoneSoFar(e.(io := e.io.(sendEnd := sendEnd)))
    ensures DoneSoFar(e.(io := e.io.(sendEnd := sendEnd))) == DoneSoFar(e)
  {
    hide Consumed;
  }

  lemma DoneSizes(e: Endpoint)
    requires e.states != [] && e.io.taken <= |e.Before().tx| && !e.io.receiveEnd.ReceiveFailed?
    ensures |DoneSoFar(e).rx| == |e.Before().rx| + |e.io.incoming|
    ensures |DoneSoFar(e).tx| == |e.Before().tx| - e.io.taken && DoneSoFar(e).ready == e.Before().ready
  {
    hide Consumed;
  }

  /** Settling, with the close of the transport it may make. */
  lemma SettledIsDone(e: Endpoint)
    requires EndpointInv(e) && e.phase == Settling
    ensures var e' := Settled(e);
      && S.Possible(e.Before(), e'.io) && !e'.io.sendEnd.SendFailed?
      && e'.conn == S.AfterSettle(DoneSoFar(e')) && DoneSoFar(e') == S.AfterTransfer(e.Before(), e'.io)
      && DoneSoFar(e').ready != CLOSED
  {
    hide Dispatch, S.IsRun, S.Inv, S.AfterTransfer, DoneSoFar;
    var sendEnd := if e.conn.tx == [] then S.AllSent else S.SendBlocked;
    DoneSizes(e);
    DoneSizes(Settled(e));
    CalledIsDone(e, CloseCall);
    TransferDone(e, sendEnd);
    TransferDone(Called(e, CloseCall), sendEnd);
    SamePoll(e.(io := e.io.(sendEnd := sendEnd)), Settled(e));
    SamePoll(Called(e, CloseCall).(io := Called(e, CloseCall).io.(sendEnd := sendEnd)), Settled(e));
  }

  lemma SettledKeepsInv(e: Endpoint)
    requires EndpointInv(e) && e.phase == Settling
    ensures EndpointInv(AfterSettled(e))
  {
    hide Dispatch, S.IsRun, S.Inv, WindowFor, S.AfterTransfer, DoneSoFar, SameDispatch, S.Possible;
    SettledIsDone(e);
    SettledAside(e);
    var e' := Settled(e);
    if e.callback {
      SamePoll(e', AfterSettled(e));
      SameItself(e'.conn);
    } else {
      CompletedKeepsInv(e', e'.conn, S.Poll(e'.io, e.callback, e.timeout));
    }
  }

  lemma SameItself(s: S.Session)
    ensures SameDispatch(s, s)
  {
  }

  lemma SettledAside(e: Endpoint)
    requires S.Inv(e.conn)
    ensures var e' := Settled(e);
      && S.Inv(e'.conn) && e'.conn.rx == e.conn.rx && e'.conn.received == e.conn.received
      && e'.conn.messages == e.conn.messages && e'.rw == e.rw && e'.consumed == e.consumed
      && e'.states == e.states && e'.commands == e.commands && e'.callback == e.callback
  {
    hide Dispatch, WindowFor;
  }

  /** The last turn of the dispatch loop completes the poll. */
  lemma DispatchEndKeepsInv(e: Endpoint)
    requires EndpointInv(e) && e.phase == DispatchLoop && FindEnd(e.conn.rx) == |e.conn.rx|
    ensures EndpointInv(AfterDispatchStep(e))
  {
    hide S.IsRun, S.Inv, WindowFor, DoneSoFar, S.AfterSettle, FindEnd, Dispatch, CString;
    DispatchCut(e.conn.rx);
    assert e.conn.messages + [] == e.conn.messages;
    DispatchPhaseDone(e);
    CompletedKeepsInv(e, e.conn, S.Poll(e.io, e.callback, e.timeout));
  }

  lemma DispatchPhaseDone(e: Endpoint)
    requires EndpointInv(e) && e.phase == DispatchLoop
    ensures var s2 := DoneSoFar(e); s2 == S.AfterTransfer(e.Before(), e.io) && s2.ready != CLOSED
  {
    hide S.IsRun, S.Inv, WindowFor, DoneSoFar, SameDispatch, Dispatch, S.AfterTransfer;
    DoneSizes(e);
    TransferDone(e, e.io.sendEnd);
  }

  /** Another turn delivers one message. */
  lemma DispatchMoreKeepsInv(e: Endpoint)
    requires EndpointInv(e) && e.phase == DispatchLoop && FindEnd(e.conn.rx) < |e.conn.rx|
    ensures EndpointInv(AfterDispatchStep(e))
  {
    hide S.IsRun, WindowFor, DoneSoFar, S.AfterSettle, FindEnd, Dispatch, CString, Consumed, S.Possible;
    var s, end := e.conn, FindEnd(e.conn.rx);
    var message, cut, rest := CString(s.rx[..end]), s.rx[..end + 2], s.rx[end + 2..];
    FoundEnd(s.rx);
    DispatchCut(s.rx);
    DispatchNext(e.consumed, s.rx);
    assert s.messages + ([message] + Dispatch(rest).messages) == (s.messages + [message]) + Dispatch(rest).messages;
    assert e.consumed + s.rx == (e.consumed + cut) + rest;
    assert WindowFor(Consumed(e.rw, end + 2), |rest|) by { ConsumedWindow(e.rw, |s.rx|, end + 2); }
    SamePoll(e, AfterDispatchStep(e));
  }

  lemma FoundEnd(s: seq<byte>)
    ensures FindEnd(s) < |s| ==> FindEnd(s) + 2 <= |s|
  {
    assert FindEnd(s) < |s| ==> EndAt(s, FindEnd(s));
  }

  lemma ConsumedWindow(w: Window, size: nat, n: nat)
    requires WindowFor(w, size) && n <= size
    ensures WindowFor(Consumed(w, n), size - n)
  {
  }

  // Each end of each ring agrees with the endpoint that holds it.

  /** Bytes the ring has accepted and the endpoint has not yet consumed: between the store inside `write`
      and the `consume` after it they are in both. */
  ghost function Doubled(e: Endpoint, out: R.Ring): seq<byte> {
    if out.writer.WReturned? then e.conn.tx[..Min(out.writer.len, |e.conn.tx|)] else []
  }

  /** The part of the transmit buffer that the ring has not accepted. */
  ghost function Unsent(e: Endpoint, out: R.Ring): seq<byte> {
    Drop(e.conn.tx, |Doubled(e, out)|)
  }

  /** Bytes taken from the ring and not yet committed to the receive buffer. */
  ghost function Uncommitted(inn: R.Ring): seq<byte> {
    if inn.reader.RReturned? then inn.reader.bytes else []
  }

  ghost predicate SenderLink(e: Endpoint, out: R.Ring) {
    && (out.writer.WIdle? <==> e.phase != InSend)
    && (R.Writing(out) ==> R.Offered(out) == e.conn.tx)
    && (out.writer.WReturned? ==>
          out.writer.len <= |e.conn.tx|
          && out.writeLog != [] && out.writeLog[|out.writeLog| - 1].data == e.conn.tx)
    && out.accepted == e.conn.accepted + Doubled(e, out)
  }

  ghost predicate ReceiverLink(e: Endpoint, inn: R.Ring) {
    && (inn.reader.RIdle? <==> e.phase != InReceive)
    && (e.phase == InReceive ==> R.Asked(inn.reader) == MAX_READ_SIZE)
    && inn.delivered == e.conn.received + Uncommitted(inn)
  }

  ghost predicate Inv(s: System) {
    && R.Inv(s.ab) && R.Inv(s.ba) && EndpointInv(s.a) && EndpointInv(s.b)
    && SenderLink(s.a, s.ab) && ReceiverLink(s.b, s.ab)
    && SenderLink(s.b, s.ba) && ReceiverLink(s.a, s.ba)
  }

  /** What a step of a reader that has returned says about its bytes. */
  lemma ReturnedAtMost(inn: R.Ring)
    requires R.Inv(inn) && inn.reader.RReturned?
    ensures |inn.reader.bytes| <= R.Asked(inn.reader)
  {
    hide R.MemoryInv, R.WriterInv, R.HistoryInv;
  }

  /** A step keeps the invariant of its endpoint. */
  lemma StepKeepsEndpointInv(x: Actor, act: Action)
    requires Enabled(x, act) && EndpointInv(x.e) && R.Inv(x.inn)
    requires SenderLink(x.e, x.out) && ReceiverLink(x.e, x.inn)
    ensures EndpointInv(Step(x, act).e)
  {
    hide EndpointInv, R.Inv, R.Apply, R.Offered, Completed, AfterReserve, AfterReceived, AfterSent, AfterSettled;
    hide AfterDispatchStep, S.AfterSendText, S.AfterClose, S.AfterPoll, TextSent, BeginPoll, S.Quiet;
    match act
    case SendText(str) => CommandKeepsInv(x.e, str, false, 0);
    case Close => CommandKeepsInv(x.e, None, false, 0);
    case PollClosed(callback, timeout) => CommandKeepsInv(x.e, None, callback, timeout);
    case Poll(callback, timeout) => BeginPollKeepsInv(x.e, callback, timeout);
    case Reserve => ReserveKeepsInv(x.e);
    case ReadStep =>
    case Received =>
      ReturnedAtMost(x.inn);
      ReceivedKeepsInv(x.e, x.inn.reader.bytes);
    case StartSend => StartSendKeepsInv(x.e);
    case WriteStep =>
    case Sent => SentKeepsInv(x.e, Min(x.out.writer.len, |x.e.conn.tx|));
    case NothingToSend => NothingToSendKeepsInv(x.e);
    case Settle => SettledKeepsInv(x.e);
    case DispatchStep =>
      if FindEnd(x.e.conn.rx) == |x.e.conn.rx| { DispatchEndKeepsInv(x.e); } else { DispatchMoreKeepsInv(x.e); }
  }

  lemma StartSendKeepsInv(e: Endpoint)
    requires EndpointInv(e) && e.phase == SendLoop
    ensures EndpointInv(Called(e, SendCall).(phase := InSend))
  {
    hide Dispatch, S.IsRun, S.Inv, DoneSoFar, WindowFor;
    CalledIsDone(e, SendCall);
    CalledKeepsSessionInv(e.conn, e.conn.calls + [SendCall]);
    SamePoll(Called(e, SendCall), Called(e, SendCall).(phase := InSend));
  }

  lemma NothingToSendKeepsInv(e: Endpoint)
    requires EndpointInv(e) && e.phase == SendLoop
    ensures EndpointInv(e.(phase := Settling))
  {
    hide Dispatch, S.IsRun, S.Inv, DoneSoFar, WindowFor;
    SamePoll(e, e.(phase := Settling));
  }

  lemma WriteStepKeepsLink(e: Endpoint, out: R.Ring)
    requires SenderLink(e, out) && R.Inv(out) && R.Writing(out)
    ensures SenderLink(e, R.WriterStep(out))
  {
    hide R.WriterStep, R.Inv, R.Offered;
    R.WriterStepEffect(out);
    assert R.WriterStep(out).writer.WReturned? || R.Writing(R.WriterStep(out));
  }

  /** What an action does to the sending side of its endpoint. */
  lemma SentSide(x: Actor, act: Action)
    requires Enabled(x, act) && (act.SendText? || act.Close? || act.PollClosed? || act.Settle? || act.DispatchStep?)
    ensures Step(x, act).e.conn.accepted == x.e.conn.accepted
    ensures Step(x, act).e.phase != InSend && x.e.phase != InSend && Step(x, act).out == x.out
  {
    hide TextSent, Appending, FrameAppended, FindEnd, CString, Dispatch, R.Apply;
  }

  lemma SentKeepsLink(e: Endpoint, out: R.Ring)
    requires SenderLink(e, out) && out.writer.WReturned? && e.phase == InSend
    ensures SenderLink(AfterSent(e, out.writer.len), R.Apply(out, R.EndWrite))
  {
    hide R.Inv, Consumed;
    assert e.conn.accepted + e.conn.tx[..out.writer.len] == (e.conn.accepted + e.conn.tx[..out.writer.len]) + [];
  }

  lemma SenderKeepsLink(x: Actor, act: Action)
    requires Enabled(x, act) && SenderLink(x.e, x.out) && R.Inv(x.out)
    ensures SenderLink(Step(x, act).e, Step(x, act).out)
  {
    hide R.Inv, R.WriterStep, R.ReaderStep, Fits, Reserved, TextSent, Appending, FrameAppended, FindEnd, CString, Dispatch;
    match act
    case SendText(_) => SentSide(x, act);
    case Close => SentSide(x, act);
    case PollClosed(_, _) => SentSide(x, act);
    case Settle => SentSide(x, act);
    case DispatchStep => SentSide(x, act);
    case WriteStep => WriteStepKeepsLink(x.e, x.out);
    case Sent => SentKeepsLink(x.e, x.out);
    case _ =>
  }

  lemma ReadStepKeepsLink(e: Endpoint, inn: R.Ring)
    requires ReceiverLink(e, inn) && e.phase == InReceive && R.Enabled(inn, R.StepReader)
    ensures ReceiverLink(e, R.ReaderStep(inn))
  {
    hide R.ReaderStep;
    R.ReaderStepEffect(inn);
  }

  /** What an action does to the receiving side of its endpoint. */
  lemma ReceivedSide(x: Actor, act: Action)
    requires Enabled(x, act) && !act.ReadStep? && !act.Received? && !act.Reserve?
    ensures Step(x, act).e.conn.received == x.e.conn.received && Step(x, act).inn == x.inn
    ensures Step(x, act).e.phase == InReceive <==> x.e.phase == InReceive
  {
    hide TextSent, Appending, FrameAppended, FindEnd, CString, Dispatch, R.Apply, Consumed;
  }

  lemma ReceiverKeepsLink(x: Actor, act: Action)
    requires Enabled(x, act) && ReceiverLink(x.e, x.inn)
    ensures ReceiverLink(Step(x, act).e, Step(x, act).inn)
  {
    hide R.ReaderStep, R.WriterStep, Fits, Reserved;
    match act
    case ReadStep => ReadStepKeepsLink(x.e, x.inn);
    case Received => assert x.inn.delivered == (x.e.conn.received + x.inn.reader.bytes) + [];
    case Reserve =>
    case _ =>
      hide Step;
      ReceivedSide(x, act);
  }

  /** An endpoint's step leaves the far ends of both of its rings alone. */
  lemma StepKeepsFarEnds(x: Actor, act: Action)
    requires Enabled(x, act) && R.Inv(x.out) && R.Inv(x.inn)
    ensures var y := Step(x, act);
      && R.Inv(y.out) && R.Inv(y.inn)
      && y.out.reader == x.out.reader && y.out.delivered == x.out.delivered
      && y.inn.writer == x.inn.writer && y.inn.accepted == x.inn.accepted && y.inn.writeLog == x.inn.writeLog
  {
    hide R.Inv, R.WriterStep, R.ReaderStep, TextSent, Fits, Reserved, Completed, AfterSettled, AfterDispatchStep;
    hide AfterReceived, AfterSent, S.AfterSendText, S.AfterPoll, S.Quiet;
    match act
    case Reserve => R.StepKeepsInv(x.inn, R.CallRead(MAX_READ_SIZE));
    case ReadStep => R.StepKeepsInv(x.inn, R.StepReader); R.ReaderStepEffect(x.inn);
    case Received => R.StepKeepsInv(x.inn, R.EndRead);
    case StartSend => R.StepKeepsInv(x.out, R.CallWrite(x.e.conn.tx));
    case WriteStep => R.StepKeepsInv(x.out, R.StepWriter); R.WriterStepEffect(x.out);
    case Sent => R.StepKeepsInv(x.out, R.EndWrite);
    case _ =>
  }

  /** A step by one endpoint keeps the whole invariant: `out` and `inn` are its rings, `far` its peer. */
  lemma ActorKeepsInv(x: Actor, far: Endpoint, act: Action)
    requires Enabled(x, act) && R.Inv(x.out) && R.Inv(x.inn) && EndpointInv(x.e)
    requires SenderLink(x.e, x.out) && ReceiverLink(far, x.out)
    requires SenderLink(far, x.inn) && ReceiverLink(x.e, x.inn)
    ensures var y := Step(x, act);
      && R.Inv(y.out) && R.Inv(y.inn) && EndpointInv(y.e)
      && SenderLink(y.e, y.out) && ReceiverLink(far, y.out)
      && SenderLink(far, y.inn) && ReceiverLink(y.e, y.inn)
  {
    hide Step, Enabled, R.Inv, EndpointInv;
    StepKeepsFarEnds(x, act);
    StepKeepsEndpointInv(x, act);
    SenderKeepsLink(x, act);
    ReceiverKeepsLink(x, act);
  }

  lemma {:induction false} RunInv(run: seq<System>, i: nat)
    requires IsRun(run) && i < |run|
    ensures Inv(run[i])
  {
    hide Step, Enabled, R.Inv, SenderLink, ReceiverLink, EndpointInv;
    if i == 0 {
      InitInv(run[0]);
    } else {
      RunInv(run, i - 1);
      var s, s' := run[i - 1], run[i];
      assert Next(s, s');
      if act :| ActsAsA(s, s', act) {
        ActorKeepsInv(Actor(s.a, s.ab, s.ba), s.b, act);
      } else {
        var act :| ActsAsB(s, s', act);
        ActorKeepsInv(Actor(s.b, s.ba, s.ab), s.a, act);
      }
    }
  }

  lemma InitInv(s: System)
    requires Init(s)
    ensures Inv(s)
  {
    hide EndpointInv;
    R.InitInv(s.ab);
    R.InitInv(s.ba);
    InitEndpointInv(s.a);
    InitEndpointInv(s.b);
  }

  // The theorems, for each direction on its own.

  /** Every endpoint is a session: in every reachable state its completed commands form a run of the
      session machine, so each completed poll is one poll of that machine for something its transport
      could have done, and outside a poll the connection is where that run has arrived. */
  lemma EndpointsAreSessions(run: seq<System>, i: nat)
    requires IsRun(run) && i < |run|
    ensures forall e :: e in [run[i].a, run[i].b] ==>
      S.IsRun(e.states, e.commands) && (e.phase == Outside ==> e.conn == e.states[|e.commands|])
  {
    hide R.Inv, SenderLink, ReceiverLink, S.IsRun, EndpointInv;
    RunInv(run, i);
    OutsideFacts(run[i].a);
    OutsideFacts(run[i].b);
    assert S.IsRun(run[i].a.states, run[i].a.commands) && S.IsRun(run[i].b.states, run[i].b.commands);
    SessionLength(run[i].a);
    SessionLength(run[i].b);
  }

  lemma SessionLength(e: Endpoint)
    ensures S.IsRun(e.states, e.commands) ==> |e.states| == |e.commands| + 1
  {
    hide S.Performs;
  }

  /** The texts passed to `sendText`. */
  ghost function TextsOf(e: Endpoint): seq<Text> {
    S.Texts(e.commands)
  }

  /** Every frame found room in the transmit buffer. */
  ghost predicate Lossless(e: Endpoint) {
    |e.states| > |e.commands| && S.AllFit(e.states, e.commands)
  }

  /** Nothing is lost, duplicated, reordered or altered between two endpoints. */
  ghost predicate Conserved(sender: Endpoint, ring: R.Ring, receiver: Endpoint) {
    && ring.delivered <= ring.accepted
    && sender.conn.enqueued ==
         receiver.consumed + receiver.conn.rx + Uncommitted(ring) + ring.accepted[|ring.delivered|..] + Unsent(sender, ring)
    && (Lossless(sender) ==> sender.conn.enqueued == EncodeAll(TextsOf(sender)))
  }

  /** End-to-end conservation, at every step of every interleaving and in both directions: the bytes
      ever enqueued are the bytes the peer dispatched, those in its receive buffer, those in the ring
      and those still to be sent, in this order; and if every frame found room, they are the encoding of
      all texts sent. */
  lemma Conservation(run: seq<System>, i: nat)
    requires IsRun(run) && i < |run|
    ensures Conserved(run[i].a, run[i].ab, run[i].b) && Conserved(run[i].b, run[i].ba, run[i].a)
  {
    hide Conserved, EndpointInv, SenderLink, ReceiverLink, R.Inv;
    RunInv(run, i);
    var s := run[i];
    Conserve(s.a, s.ab, s.b);
    Conserve(s.b, s.ba, s.a);
  }

  lemma Conserve(sender: Endpoint, ring: R.Ring, receiver: Endpoint)
    requires EndpointInv(sender) && SenderLink(sender, ring)
    requires EndpointInv(receiver) && ReceiverLink(receiver, ring) && R.Inv(ring)
    ensures Conserved(sender, ring, receiver)
  {
    hide EndpointInv, SenderLink, R.Inv, Lossless, EncodeAll, TextsOf, Doubled, Unsent, Uncommitted;
    EnqueuedSoFar(sender);
    ReceivedSoFar(receiver);
    Accepted(sender, ring);
    Delivered(ring);
    Pieces(sender.conn.accepted, Doubled(sender, ring), Unsent(sender, ring), receiver.consumed, receiver.conn.rx,
           Uncommitted(ring), ring.accepted[|ring.delivered|..]);
  }

  lemma Pieces(accepted: seq<byte>, doubled: seq<byte>, unsent: seq<byte>,
               consumed: seq<byte>, rx: seq<byte>, uncommitted: seq<byte>, queued: seq<byte>)
    requires accepted + doubled == consumed + rx + uncommitted + queued
    ensures accepted + (doubled + unsent) == consumed + rx + uncommitted + queued + unsent
  {
    assert accepted + (doubled + unsent) == (accepted + doubled) + unsent;
  }

  lemma Accepted(e: Endpoint, out: R.Ring)
    requires SenderLink(e, out)
    ensures out.accepted == e.conn.accepted + Doubled(e, out) && e.conn.tx == Doubled(e, out) + Unsent(e, out)
  {
    hide R.Offered;
  }

  lemma Delivered(ring: R.Ring)
    requires R.Inv(ring)
    ensures ring.delivered <= ring.accepted
    ensures ring.accepted == ring.delivered + ring.accepted[|ring.delivered|..]
  {
    hide R.WriterInv, R.ReaderInv, R.HistoryInv;
  }

  lemma ReceivedSoFar(e: Endpoint)
    requires EndpointInv(e)
    ensures e.conn.received == e.consumed + e.conn.rx
    ensures Dispatch(e.consumed) == Dispatched(e.conn.messages, [])
  {
    hide PollInv, S.Inv, S.IsRun, Dispatch;
  }

  /** What has been enqueued does not change during a poll. */
  lemma EnqueuedSoFar(e: Endpoint)
    requires EndpointInv(e)
    ensures e.conn.enqueued == e.conn.accepted + e.conn.tx
    ensures Lossless(e) ==> e.conn.enqueued == EncodeAll(TextsOf(e))
  {
    assert e.conn.enqueued == e.Before().enqueued && e.conn.enqueued == e.conn.accepted + e.conn.tx by {
      hide S.IsRun, Dispatch, WindowFor;
    }
    hide PollInv, S.Inv, Dispatch, WindowFor, EncodeAll, S.Texts, S.Performs, S.AllFit;
    if Lossless(e) {
      S.Lossless(e.states, e.commands);
    }
  }

  /** Nothing waits to be sent, in the ring or to be committed, and no complete message to be dispatched. */
  ghost predicate Drained(sender: Endpoint, ring: R.Ring, receiver: Endpoint) {
    && Unsent(sender, ring) == [] && ring.delivered == ring.accepted
    && Uncommitted(ring) == [] && NoEnd(receiver.conn.rx)
  }

  /** What one direction delivers. */
  ghost predicate Faithful(sender: Endpoint, ring: R.Ring, receiver: Endpoint) {
    // always: the messages in the bytes enqueued, or a prefix of them
    && receiver.conn.messages <= Dispatch(sender.conn.enqueued).messages
    // if every frame found room and no text contains CR LF: the texts sent, or a prefix of them
    && (Lossless(sender) && AllClean(TextsOf(sender)) ==> receiver.conn.messages <= TextsOf(sender))
    // and all of them once nothing is under way and the last dispatch loop has run dry
    && (Lossless(sender) && AllClean(TextsOf(sender)) && Drained(sender, ring, receiver) ==>
          receiver.conn.messages == TextsOf(sender) && receiver.conn.rx == [])
  }

  lemma Delivery(run: seq<System>, i: nat)
    requires IsRun(run) && i < |run|
    ensures Faithful(run[i].a, run[i].ab, run[i].b) && Faithful(run[i].b, run[i].ba, run[i].a)
  {
    hide Faithful, EndpointInv, SenderLink, ReceiverLink, R.Inv;
    RunInv(run, i);
    var s := run[i];
    Deliver(s.a, s.ab, s.b);
    Deliver(s.b, s.ba, s.a);
  }

  lemma Deliver(sender: Endpoint, ring: R.Ring, receiver: Endpoint)
    requires EndpointInv(sender) && SenderLink(sender, ring)
    requires EndpointInv(receiver) && ReceiverLink(receiver, ring) && R.Inv(ring)
    ensures Faithful(sender, ring, receiver)
  {
    hide Dispatch, EncodeAll, R.Inv, SenderLink, ReceiverLink, EndpointInv, Lossless, TextsOf, Uncommitted, Unsent;
    Conserve(sender, ring, receiver);
    ReceivedSoFar(receiver);
    PrefixMessages(receiver.consumed, sender.conn.enqueued);
    var texts := TextsOf(sender);
    if Lossless(sender) && AllClean(texts) {
      DispatchEncoded(texts);
      if Drained(sender, ring, receiver) {
        assert sender.conn.enqueued == receiver.consumed + receiver.conn.rx;
        DispatchSplit(receiver.consumed, receiver.conn.rx);
        assert [] + receiver.conn.rx == receiver.conn.rx;
        DispatchNone(receiver.conn.rx);
      }
    }
  }

  /** With headroom at every `sendText` no frame is cut, so then a clean text is never lost. */
  lemma DeliveryWithHeadroom(run: seq<System>, i: nat)
    requires IsRun(run) && i < |run|
    requires |run[i].a.states| > |run[i].a.commands| && S.AllHaveHeadroom(run[i].a.states, run[i].a.commands)
    requires AllClean(TextsOf(run[i].a))
    ensures run[i].b.conn.messages <= TextsOf(run[i].a)
    ensures Drained(run[i].a, run[i].ab, run[i].b) ==> run[i].b.conn.messages == TextsOf(run[i].a)
  {
    hide S.IsRun, S.AllHaveHeadroom, S.AllFit, AllClean, TextsOf, Drained, EndpointInv, SenderLink, ReceiverLink, R.Inv;
    EndpointsAreSessions(run, i);
    assert run[i].a in [run[i].a, run[i].b];
    S.HeadroomFits(run[i].a.states, run[i].a.commands);
    Delivery(run, i);
  }

  // Closing.

  /** A closed endpoint is outside `poll` or dispatching. */
  lemma ClosedPhase(e: Endpoint)
    requires EndpointInv(e) && e.conn.ready == CLOSED
    ensures e.phase == Outside || e.phase == DispatchLoop
  {
    hide S.IsRun, S.Inv, Dispatch, WindowFor, S.Possible;
  }

  lemma ClosedStep(x: Actor, act: Action)
    requires Enabled(x, act) && EndpointInv(x.e) && x.e.conn.ready == CLOSED
    ensures var y := Step(x, act); y.e.conn.ready == CLOSED && y.out == x.out && y.inn == x.inn
  {
    ClosedPhase(x.e);
    hide EndpointInv, R.Apply, TextSent, Appending, FrameAppended, FindEnd, CString, Dispatch, Consumed;
  }

  lemma OpenStep(x: Actor, act: Action)
    requires Enabled(x, act) && x.e.conn.ready != CLOSED
    ensures var y := Step(x, act);
      && (x.e.conn.ready == CLOSING ==> y.e.conn.ready != OPEN)
      && (y.e.conn.ready == CLOSED ==> act.Settle? && x.e.conn.ready == CLOSING && x.e.conn.tx == [])
  {
    hide R.Apply, TextSent, Appending, FrameAppended, FindEnd, CString, Dispatch, Consumed, Fits, Reserved;
  }

  lemma SettledEnqueued(x: Actor)
    requires Enabled(x, Settle)
    ensures Step(x, Settle).e.conn.enqueued == x.e.conn.enqueued && Step(x, Settle).out == x.out
  {
  }

  /** One step of a system as seen by the endpoint that acts: the state of the connection only moves
      towards CLOSED, it gets there only with every enqueued byte accepted by the ring, and once it is
      there the endpoint leaves both rings alone. */
  lemma CloseStep(x: Actor, act: Action)
    requires Enabled(x, act) && EndpointInv(x.e) && SenderLink(x.e, x.out)
    ensures var y := Step(x, act);
      && (x.e.conn.ready == CLOSED ==> y.e.conn.ready == CLOSED && y.out == x.out && y.inn == x.inn)
      && (x.e.conn.ready == CLOSING ==> y.e.conn.ready != OPEN)
      && (x.e.conn.ready != CLOSED && y.e.conn.ready == CLOSED ==>
            x.e.conn.ready == CLOSING && y.e.conn.enqueued == y.out.accepted)
  {
    if x.e.conn.ready == CLOSED {
      hide Step, EndpointInv;
      ClosedStep(x, act);
    } else {
      OpenStep(x, act);
      EnqueuedSoFar(x.e);
      Accepted(x.e, x.out);
      if act.Settle? {
        SettledEnqueued(x);
      }
      hide EndpointInv, Step, Doubled;
    }
  }

  /** Over every run, in the history of either endpoint: once an open connection has been asked to close,
      it is closed if and only if one of its polls since has handed everything that waited to the ring;
      and then its transport has been closed. */
  lemma CloseCompletes(run: seq<System>, n: nat, e: Endpoint, i: nat, j: nat)
    requires IsRun(run) && n < |run| && e in [run[n].a, run[n].b]
    requires i < j < |e.states| == |e.commands| + 1 && e.commands[i].Close? && e.states[i].ready == OPEN
    ensures e.states[j].ready == CLOSED <==>
      exists k :: i < k < j && e.commands[k].Poll? && e.commands[k].io.taken == |e.states[k].tx|
    ensures e.states[j].ready == CLOSED || e.states[j].ready == CLOSING
    ensures e.states[j].ready == CLOSED ==>
      exists k :: |e.states[i].calls| <= k < |e.states[j].calls| && e.states[j].calls[k] == CloseCall
  {
    hide EndpointInv, SenderLink, ReceiverLink, R.Inv, S.IsRun, S.Failed;
    RunInv(run, n);
    OutsideFacts(e);
    S.CloseCompletes(e.states, e.commands, i, j);
    if e.states[j].ready == CLOSED {
      FirstClosed(e, i, j);
    } else {
      forall k | i < k < j && e.commands[k].Poll? ensures e.commands[k].io.taken != |e.states[k].tx| {
        assert !S.Finishes(e.states[k], e.commands[k]);
      }
    }
  }

  /** The poll that closed it. */
  lemma {:induction false} FirstClosed(e: Endpoint, i: nat, j: nat)
    requires S.IsRun(e.states, e.commands) && NeverFails(e)
    requires i < j < |e.states| && e.commands[i].Close? && e.states[i].ready == OPEN && e.states[j].ready == CLOSED
    ensures exists k :: i < k < j && e.commands[k].Poll? && e.commands[k].io.taken == |e.states[k].tx|
    decreases j
  {
    hide S.Performs, S.Failed;
    S.CloseCompletes(e.states, e.commands, i, j);
    var k :| i < k < j && S.Finishes(e.states[k], e.commands[k]);
    if e.states[k].ready == CLOSED {
      FirstClosed(e, i, k);
    } else {
      assert !S.Failed(e.commands[k].io);
    }
  }

  /** What each action that begins outside a poll or completes one adds to the commands of its endpoint. */
  lemma ActionsAreCommands(x: Actor, act: Action)
    requires Enabled(x, act)
    ensures var e, e' := x.e, Step(x, act).e;
      && (act.SendText? ==>
            e'.commands == e.commands + [S.SendText(TextSent(act.str))]
            && e'.conn.enqueued == e.conn.enqueued + Appending(e.conn.tw, TextSent(act.str)))
      && (act.Close? ==> e'.commands == e.commands + [S.Close])
      && (act.Poll? ==> e'.commands == e.commands && e'.phase != Outside)
      && (e'.phase == Outside && e.phase != Outside ==>
            |e'.commands| == |e.commands| + 1 && e'.commands[..|e.commands|] == e.commands
            && e'.commands[|e.commands|].Poll?)
      && (e'.phase != Outside ==> e'.commands == e.commands)
  {
    hide TextSent, Appending, FrameAppended, FindEnd, CString, Dispatch, R.Apply, Consumed, Fits, Reserved;
  }

  /** The same system from the other side. */
  ghost function Swapped(s: System): System {
    System(s.b, s.a, s.ba, s.ab)
  }

  ghost function SwappedRun(run: seq<System>): seq<System> {
    seq(|run|, i requires 0 <= i < |run| => Swapped(run[i]))
  }

  /** The two ends are alike, so what is stated of end `a` of every run holds of end `b` too. */
  lemma SwappedIsRun(run: seq<System>)
    requires IsRun(run)
    ensures IsRun(SwappedRun(run))
  {
    hide Enabled, Step, R.Init, InitEndpoint;
    var swapped := SwappedRun(run);
    forall i | 0 <= i < |run| - 1 ensures Next(swapped[i], swapped[i + 1]) {
      assert Next(run[i], run[i + 1]);
      var act :| ActsAsA(run[i], run[i + 1], act) || ActsAsB(run[i], run[i + 1], act);
      assert ActsAsB(swapped[i], swapped[i + 1], act) || ActsAsA(swapped[i], swapped[i + 1], act);
    }
  }

  /** Over every run a closed endpoint stays closed, and whatever its peer does it neither sends to
      nor takes from the transport again. */
  lemma {:induction false} ClosedIsFinal(run: seq<System>, i: nat, j: nat)
    requires IsRun(run) && i <= j < |run| && run[i].a.conn.ready == CLOSED
    ensures run[j].a.conn.ready == CLOSED
    ensures run[j].ab.accepted == run[i].ab.accepted && run[j].ab.writer == run[i].ab.writer
    ensures run[j].ba.delivered == run[i].ba.delivered && run[j].ba.reader == run[i].ba.reader
    decreases j
  {
    hide Step, Enabled, R.Inv, SenderLink, ReceiverLink, EndpointInv, Init;
    if i < j {
      ClosedIsFinal(run, i, j - 1);
      RunInv(run, j - 1);
      var s, s' := run[j - 1], run[j];
      assert Next(s, s');
      if act :| ActsAsA(s, s', act) {
        CloseStep(Actor(s.a, s.ab, s.ba), act);
      } else {
        var act :| ActsAsB(s, s', act);
        StepKeepsFarEnds(Actor(s.b, s.ba, s.ab), act);
      }
    }
  }

  /** Over every run: OPEN is never re-entered, and when an endpoint closes, every byte it ever
      enqueued has been accepted by the transport. */
  lemma GracefulClose(run: seq<System>, i: nat)
    requires IsRun(run) && i + 1 < |run|
    ensures run[i].a.conn.ready != OPEN ==> run[i + 1].a.conn.ready != OPEN
    ensures run[i].a.conn.ready != CLOSED && run[i + 1].a.conn.ready == CLOSED ==>
      run[i].a.conn.ready == CLOSING && run[i + 1].a.conn.enqueued == run[i + 1].ab.accepted
  {
    hide Step, Enabled, R.Inv, SenderLink, ReceiverLink, EndpointInv, Init;
    RunInv(run, i);
    var s, s' := run[i], run[i + 1];
    assert Next(s, s');
    if act :| ActsAsA(s, s', act) {
      CloseStep(Actor(s.a, s.ab, s.ba), act);
    } else {
      var act :| ActsAsB(s, s', act);
    }
  }
}
