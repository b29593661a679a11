/** What one poll of an endpoint achieves over the rings when its peer stands still meanwhile, and that
    such a poll always comes to its end. */
module Polls {
  import opened Words
  import opened Frames
  import opened Framing
  import opened ReadyStates
  import opened RingIndex
  import opened SimpleBuffer
  import opened Transport
  import opened EndToEnd
  import S = Session
  import R = RingProtocol
  import P = RingProgress

  /** An endpoint and its rings in a state that the system can be in. */
  ghost predicate ActorInv(x: Actor) {
    R.Inv(x.out) && R.Inv(x.inn) && EndpointInv(x.e) && SenderLink(x.e, x.out) && ReceiverLink(x.e, x.inn)
  }

  lemma StepKeepsActorInv(x: Actor, act: Action)
    requires ActorInv(x) && Enabled(x, act)
    ensures ActorInv(Step(x, act))
  {
    hide R.Inv, EndpointInv, SenderLink, ReceiverLink, Step, Enabled;
    StepKeepsFarEnds(x, act);
    StepKeepsEndpointInv(x, act);
    SenderKeepsLink(x, act);
    ReceiverKeepsLink(x, act);
  }

  /** The steps of one poll by one endpoint, with nothing of its peer in between. */
  ghost predicate IsPoll(xs: seq<Actor>, acts: seq<Action>) {
    && |xs| == |acts| + 1 && |acts| > 1
    && (forall k :: 0 <= k < |acts| ==> Enabled(xs[k], acts[k]) && xs[k + 1] == Step(xs[k], acts[k]))
    && xs[0].e.phase == Outside && acts[0].Poll?
    && (forall k :: 0 < k < |acts| ==> xs[k].e.phase != Outside)
    && xs[|acts|].e.phase == Outside
  }

  /** A receive loop that starts with these bytes in its buffer and these still to come never runs out of
      room. */
  ghost predicate HasHeadroom(x: Actor) {
    4 * MAX_READ_SIZE + 2 * (|x.e.conn.rx| + |x.inn.accepted| - |x.e.conn.received|) <= MAX_BUFFER_SIZE
  }

  /** How many of the waiting bytes the ring has room for. */
  ghost function CanSend(x: Actor): nat {
    Min(|x.e.conn.tx|, Room(x.out.c, |x.out.accepted| - |x.out.delivered|))
  }

  /** How far a poll that began in `x` has come in `y`. */
  ghost predicate SoFar(x: Actor, y: Actor) {
    var e, f := x.e, y.e;
    && y.inn.accepted == x.inn.accepted && y.out.delivered == x.out.delivered && y.out.c == x.out.c
    && f.states == e.states && f.commands == e.commands && e.states != [] && f.Before() == e.conn
    && match f.phase
       case Outside => false
       case ReceiveLoop => y.out == x.out
       case InReceive => y.out == x.out && P.ReadsAlone(y.inn)
       case SendLoop => ReceivedAll(x, y) && f.io.taken <= CanSend(x)
       case InSend =>
         ReceivedAll(x, y) && f.io.taken <= CanSend(x) && P.WritesAlone(y.out, |f.conn.tx|) && f.conn.tx != []
       case Settling => ReceivedAll(x, y) && f.io.taken == CanSend(x)
       case DispatchLoop => ReceivedAll(x, y) && f.io.taken == CanSend(x)
  }

  ghost predicate ReceivedAll(x: Actor, y: Actor) {
    HasHeadroom(x) ==> y.e.conn.received == x.inn.accepted
  }

  /** What the parts of a poll in progress come to, in numbers. */
  lemma SoFarNumbers(x: Actor, y: Actor)
    requires ActorInv(x) && ActorInv(y) && SoFar(x, y) && x.e.phase == Outside
    ensures y.e.conn.received == x.e.conn.received + y.e.io.incoming
    ensures y.e.conn.accepted == x.e.conn.accepted + x.e.conn.tx[..y.e.io.taken]
    ensures |y.e.conn.tx| == |x.e.conn.tx| - y.e.io.taken
    ensures y.e.phase != DispatchLoop ==> |y.e.conn.rx| == |x.e.conn.rx| + |y.e.io.incoming|
  {
    hide R.Inv, S.IsRun, S.Inv, Dispatch, WindowFor, S.Possible, CanSend, ReceivedAll, Taken;
  }

  lemma PollBegins(x: Actor, callback: bool, timeout: int)
    requires ActorInv(x) && Enabled(x, Poll(callback, timeout))
    ensures SoFar(x, Step(x, Poll(callback, timeout)))
  {
    hide R.Inv, S.IsRun, S.Inv, Dispatch, WindowFor;
  }

  /** Where the loops keep their bytes. */
  lemma LoopFacts(y: Actor)
    requires ActorInv(y)
    ensures y.e.conn.received + Uncommitted(y.inn) == y.inn.delivered <= y.inn.accepted
    ensures y.out.accepted == y.e.conn.accepted + Doubled(y.e, y.out)
    ensures WindowFor(y.e.rw, |y.e.conn.rx|) && y.inn.c > 0
    ensures y.out.writer.WReturned? ==> y.out.writer.len <= |y.e.conn.tx|
    ensures y.e.phase == ReceiveLoop || y.e.phase == InReceive ==> y.e.io.taken == 0
  {
    hide S.IsRun, S.Inv, Dispatch, WindowFor, DoneSoFar, SameDispatch, R.WriterInv, R.ReaderInv, R.HistoryInv, R.Offered;
  }

  /** While it has headroom, a receive loop finds room for another read. */
  lemma HeadroomFits(x: Actor, y: Actor)
    requires ActorInv(x) && ActorInv(y) && SoFar(x, y) && x.e.phase == Outside
    requires y.e.phase == ReceiveLoop && HasHeadroom(x)
    ensures Fits(y.e.rw, MAX_BUFFER_SIZE, MAX_READ_SIZE)
  {
    hide ActorInv, Fits;
    SoFarNumbers(x, y);
    LoopFacts(y);
    LoopFacts(x);
    HeadroomSuffices(y.e.rw, MAX_BUFFER_SIZE, MAX_READ_SIZE);
  }

  lemma ReserveGoesOn(x: Actor, y: Actor)
    requires ActorInv(x) && ActorInv(y) && SoFar(x, y) && x.e.phase == Outside && Enabled(y, Reserve)
    ensures SoFar(x, Step(y, Reserve))
  {
    hide ActorInv, Fits, Reserved;
    LoopFacts(y);
    if HasHeadroom(x) {
      HeadroomFits(x, y);
    }
    P.CapacityFixed(y.inn, R.CallRead(MAX_READ_SIZE));
  }

  lemma ReadGoesOn(x: Actor, y: Actor)
    requires ActorInv(y) && SoFar(x, y) && Enabled(y, ReadStep)
    ensures SoFar(x, Step(y, ReadStep))
  {
    hide EndpointInv, SenderLink, R.Inv, R.ReaderStep, P.ReadsAlone;
    P.ReadAloneStep(y.inn);
    R.ReaderStepEffect(y.inn);
    StepKeepsFarEnds(y, ReadStep);
  }

  /** A read that comes back empty has found the ring empty. */
  lemma ReceivedGoesOn(x: Actor, y: Actor)
    requires ActorInv(y) && SoFar(x, y) && Enabled(y, Received)
    ensures SoFar(x, Step(y, Received))
  {
    hide EndpointInv, SenderLink, R.Inv;
    LoopFacts(y);
    assert y.e.conn.received + [] == y.e.conn.received;
    assert R.Asked(y.inn.reader) == MAX_READ_SIZE;
  }

  lemma SendGoesOn(x: Actor, y: Actor, act: Action)
    requires ActorInv(x) && ActorInv(y) && SoFar(x, y) && x.e.phase == Outside
    requires Enabled(y, act) && (act.StartSend? || act.NothingToSend?)
    ensures SoFar(x, Step(y, act))
  {
    hide ActorInv, R.WriterStep, R.ReaderStep;
    SoFarNumbers(x, y);
  }

  lemma WriteGoesOn(x: Actor, y: Actor)
    requires ActorInv(y) && SoFar(x, y) && Enabled(y, WriteStep)
    ensures SoFar(x, Step(y, WriteStep))
  {
    hide EndpointInv, ReceiverLink, SenderLink, R.Inv, R.WriterStep, P.WritesAlone;
    P.WriteAloneStep(y.out, |y.e.conn.tx|);
    R.WriterStepEffect(y.out);
    P.CapacityFixed(y.out, R.StepWriter);
  }

  /** A write that took nothing has found no room. */
  lemma SentGoesOn(x: Actor, y: Actor)
    requires ActorInv(x) && ActorInv(y) && SoFar(x, y) && x.e.phase == Outside && Enabled(y, Sent)
    ensures SoFar(x, Step(y, Sent))
  {
    hide ActorInv;
    SoFarNumbers(x, y);
    LoopFacts(y);
    LoopFacts(x);
    OutsideIdle(x);
    assert |y.out.accepted| == |y.e.conn.accepted| + y.out.writer.len;
  }

  lemma OutsideIdle(x: Actor)
    requires ActorInv(x) && x.e.phase == Outside
    ensures x.out.writer.WIdle? && x.inn.reader.RIdle?
  {
    hide EndpointInv, R.Inv, R.Offered;
  }

  /** Settling and dispatching move no byte of the rings. */
  lemma LastPhasesGoOn(x: Actor, y: Actor, act: Action)
    requires SoFar(x, y) && Enabled(y, act) && (act.Settle? || act.DispatchStep?)
    requires Step(y, act).e.phase != Outside
    ensures SoFar(x, Step(y, act))
  {
    hide FindEnd, CString, Dispatch, Consumed, CanSend, HasHeadroom;
  }

  /** Every step of a poll but the last goes on with it. */
  lemma GoesOn(x: Actor, y: Actor, act: Action)
    requires ActorInv(x) && ActorInv(y) && SoFar(x, y) && x.e.phase == Outside
    requires Enabled(y, act) && Step(y, act).e.phase != Outside
    ensures SoFar(x, Step(y, act))
  {
    hide ActorInv, SoFar, Step;
    assert y.e.phase != Outside by { InsidePoll(x, y); }
    match act
    case Reserve => ReserveGoesOn(x, y);
    case ReadStep => ReadGoesOn(x, y);
    case Received => ReceivedGoesOn(x, y);
    case StartSend => SendGoesOn(x, y, act);
    case NothingToSend => SendGoesOn(x, y, act);
    case WriteStep => WriteGoesOn(x, y);
    case Sent => SentGoesOn(x, y);
    case Settle => LastPhasesGoOn(x, y, act);
    case DispatchStep => LastPhasesGoOn(x, y, act);
    case _ =>
  }

  lemma InsidePoll(x: Actor, y: Actor)
    requires SoFar(x, y)
    ensures y.e.phase != Outside
  {
  }

  /** What a whole poll of `x`, ending in `z`, has achieved. */
  ghost predicate Achieved(x: Actor, z: Actor, callback: bool) {
    var s, t := x.e.conn, z.e.conn;
    // it is one poll of the session
    && |z.e.commands| == |x.e.commands| + 1 && z.e.commands[|x.e.commands|].Poll?
    // with headroom everything the peer has published has been received
    && (HasHeadroom(x) ==> t.received == x.inn.accepted == z.inn.accepted)
    // as much as there was room for has been handed to the ring
    && t.accepted == s.accepted + s.tx[..CanSend(x)] == z.out.accepted
    // with a callback every complete message received has been delivered
    && (callback ==> Dispatch(t.received) == Dispatched(t.messages, t.rx))
    // and a connection asked to close is closed exactly when everything has been handed over
    && (t.ready == CLOSED <==> s.ready == CLOSING && CanSend(x) == |s.tx|)
  }

  /** The last step of a poll, in the two forms it takes. */
  lemma PollEnds(x: Actor, y: Actor, act: Action)
    requires ActorInv(x) && ActorInv(y) && SoFar(x, y) && x.e.phase == Outside
    requires Enabled(y, act) && Step(y, act).e.phase == Outside
    ensures Achieved(x, Step(y, act), y.e.callback)
  {
    hide ActorInv, SoFar, Step, Achieved;
    EndingActs(x, y, act);
    if act.Settle? {
      SettleEnds(x, y);
    } else {
      DispatchEnds(x, y);
    }
  }

  lemma EndingActs(x: Actor, y: Actor, act: Action)
    requires SoFar(x, y) && Enabled(y, act) && Step(y, act).e.phase == Outside
    ensures act.Settle? || act.DispatchStep?
  {
    hide FindEnd, CString, Dispatch, Consumed, R.Apply, Fits, Reserved, CanSend, HasHeadroom;
  }

  lemma SettleEnds(x: Actor, y: Actor)
    requires ActorInv(x) && ActorInv(y) && SoFar(x, y) && x.e.phase == Outside
    requires Enabled(y, Settle) && Step(y, Settle).e.phase == Outside
    ensures Achieved(x, Step(y, Settle), y.e.callback)
  {
    hide ActorInv, Dispatch, CanSend, HasHeadroom;
    SoFarNumbers(x, y);
    ReadyInPoll(x, y);
    LoopFacts(y);
    RestIdle(y);
  }

  lemma DispatchEnds(x: Actor, y: Actor)
    requires ActorInv(x) && ActorInv(y) && SoFar(x, y) && x.e.phase == Outside
    requires Enabled(y, DispatchStep) && Step(y, DispatchStep).e.phase == Outside
    ensures Achieved(x, Step(y, DispatchStep), y.e.callback)
  {
    hide ActorInv, Dispatch, CanSend, HasHeadroom, FindEnd, CString, Consumed;
    SoFarNumbers(x, y);
    ReadyInPoll(x, y);
    LoopFacts(y);
    RestIdle(y);
    NothingLeft(y);
  }

  /** The ready state in the middle of a poll. */
  lemma ReadyInPoll(x: Actor, y: Actor)
    requires ActorInv(x) && ActorInv(y) && SoFar(x, y)
    ensures x.e.conn.ready != CLOSED
    ensures y.e.phase != DispatchLoop ==> y.e.conn.ready == x.e.conn.ready
    ensures y.e.phase == DispatchLoop ==>
      (y.e.conn.ready == CLOSED <==> x.e.conn.ready == CLOSING && y.e.io.taken == |x.e.conn.tx|)
  {
    hide R.Inv, S.IsRun, S.Inv, Dispatch, WindowFor, S.Possible, CanSend, ReceivedAll, Taken;
  }

  lemma RestIdle(y: Actor)
    requires ActorInv(y) && (y.e.phase == Settling || y.e.phase == DispatchLoop)
    ensures Doubled(y.e, y.out) == [] && y.out.accepted == y.e.conn.accepted
  {
    hide EndpointInv, R.Inv, R.Offered;
    assert y.e.conn.accepted + [] == y.e.conn.accepted;
  }

  /** A dispatch loop that ends leaves no complete message. */
  lemma NothingLeft(y: Actor)
    requires ActorInv(y) && FindEnd(y.e.conn.rx) == |y.e.conn.rx|
    ensures Dispatch(y.e.conn.received) == Dispatched(y.e.conn.messages, y.e.conn.rx)
  {
    hide R.Inv, S.IsRun, PollInv, WindowFor, SenderLink, ReceiverLink, FindEnd, Dispatch, CString;
    DispatchCut(y.e.conn.rx);
    assert y.e.conn.messages + [] == y.e.conn.messages;
  }

  /** Every poll during which its peer stands still does all of that. */
  lemma PollAchieves(xs: seq<Actor>, acts: seq<Action>)
    requires IsPoll(xs, acts) && ActorInv(xs[0])
    ensures Achieved(xs[0], xs[|acts|], acts[0].callback)
  {
    hide ActorInv, Step, Enabled, SoFar, Achieved;
    var n := |acts| - 1;
    PollSoFar(xs, acts, n);
    PollEnds(xs[0], xs[n], acts[n]);
  }

  lemma {:induction false} PollSoFar(xs: seq<Actor>, acts: seq<Action>, k: nat)
    requires IsPoll(xs, acts) && ActorInv(xs[0]) && 0 < k < |acts|
    ensures ActorInv(xs[k]) && SoFar(xs[0], xs[k]) && xs[k].e.callback == acts[0].callback
  {
    hide ActorInv, Step, Enabled, SoFar;
    if k == 1 {
      PollBegins(xs[0], acts[0].callback, acts[0].timeout);
      StepKeepsActorInv(xs[0], acts[0]);
      CallbackKept(xs[0], acts[0]);
    } else {
      PollSoFar(xs, acts, k - 1);
      assert xs[k] == Step(xs[k - 1], acts[k - 1]) && xs[k].e.phase != Outside;
      GoesOn(xs[0], xs[k - 1], acts[k - 1]);
      StepKeepsActorInv(xs[k - 1], acts[k - 1]);
      CallbackKept(xs[k - 1], acts[k - 1]);
    }
  }

  lemma CallbackKept(x: Actor, act: Action)
    requires Enabled(x, act)
    ensures Step(x, act).e.callback == if act.Poll? then act.callback else x.e.callback
    ensures act.Poll? ==> x.e.phase == Outside
  {
    hide FindEnd, CString, Dispatch, Consumed, R.Apply, Fits, Reserved, TextSent, Appending, FrameAppended;
  }

  // Every poll comes to its end.

  /** The step that an endpoint inside `poll` takes next. */
  ghost function NextAct(x: Actor): Action
    requires x.e.phase != Outside
  {
    match x.e.phase
    case ReceiveLoop => Reserve
    case InReceive => if x.inn.reader.RReturned? then Received else ReadStep
    case SendLoop => if x.e.conn.tx == [] then NothingToSend else StartSend
    case InSend => if x.out.writer.WReturned? then Sent else WriteStep
    case Settling => Settle
    case DispatchLoop => DispatchStep
  }

  ghost function Stage(x: Actor): nat {
    match x.e.phase
    case Outside => 0
    case ReceiveLoop => 4
    case InReceive => 4
    case SendLoop => 3
    case InSend => 3
    case Settling => 2
    case DispatchLoop => 1
  }

  /** What is left to do in a stage: bytes to receive, to send or to dispatch. */
  ghost function Amount(x: Actor): nat {
    match Stage(x)
    case 4 => if |x.e.conn.received| <= |x.inn.accepted| then |x.inn.accepted| - |x.e.conn.received| else 0
    case 3 => |x.e.conn.tx|
    case 1 => |x.e.conn.rx|
    case _ => 0
  }

  ghost function Steps(x: Actor): nat {
    match x.e.phase
    case ReceiveLoop => MAX_READ_SIZE + 5
    case InReceive => P.ReaderLeft(x.inn.reader)
    case SendLoop => |x.e.conn.tx| + 5
    case InSend => P.WriterLeft(x.out.writer)
    case _ => 0
  }

  lemma NextIsEnabled(x: Actor)
    requires ActorInv(x) && x.e.phase != Outside
    ensures Enabled(x, NextAct(x))
  {
    hide R.Inv, S.IsRun, S.Inv, Dispatch, PollInv, Taken;
    if x.e.phase == SendLoop {
      SizeFits(x);
    }
  }

  lemma SizeFits(x: Actor)
    requires ActorInv(x)
    ensures |x.e.conn.tx| < WIDTH
  {
    hide R.Inv, S.IsRun, Dispatch, PollInv, SenderLink, ReceiverLink;
  }

  /** The next step leads to a later stage, or leaves less to do in this one, or is one step closer to
      that. */
  lemma NextIsCloser(x: Actor)
    requires ActorInv(x) && x.e.phase != Outside && Enabled(x, NextAct(x))
    ensures var y := Step(x, NextAct(x));
      || Stage(y) < Stage(x)
      || (Stage(y) == Stage(x) && Amount(y) < Amount(x))
      || (Stage(y) == Stage(x) && Amount(y) == Amount(x) && Steps(y) < Steps(x))
  {
    hide R.ReaderStep, R.WriterStep, FindEnd, CString, Dispatch, Consumed, Fits, Reserved, P.ReaderLeft, P.WriterLeft;
    hide ActorInv;
    LoopFacts(x);
    LinkFacts(x);
    match NextAct(x)
    case ReadStep => P.ReaderStepShrinks(x.inn); R.ReaderStepEffect(x.inn);
    case WriteStep => P.WriterStepShrinks(x.out); R.WriterStepEffect(x.out);
    case Reserve => P.CalledLeft(R.Apply(x.inn, R.CallRead(MAX_READ_SIZE)));
    case StartSend => P.CalledLeft(R.Apply(x.out, R.CallWrite(x.e.conn.tx)));
    case DispatchStep => FoundEnd(x.e.conn.rx);
    case _ =>
  }

  lemma LinkFacts(x: Actor)
    requires ActorInv(x)
    ensures R.Inv(x.inn) && R.Inv(x.out)
  {
    hide R.Inv, EndpointInv, SenderLink, ReceiverLink;
  }

  /** From the middle of a poll to its end. */
  lemma Finish(x: Actor) returns (xs: seq<Actor>, acts: seq<Action>)
    requires ActorInv(x) && x.e.phase != Outside
    ensures |xs| == |acts| + 1 && |acts| > 0 && xs[0] == x && xs[|acts|].e.phase == Outside
    ensures forall k :: 0 <= k < |acts| ==> Enabled(xs[k], acts[k]) && xs[k + 1] == Step(xs[k], acts[k])
    ensures forall k :: 0 <= k < |acts| ==> xs[k].e.phase != Outside
    decreases Stage(x), Amount(x), Steps(x)
  {
    hide ActorInv, Enabled, Step, Stage, Amount, Steps, NextAct;
    NextIsEnabled(x);
    NextIsCloser(x);
    StepKeepsActorInv(x, NextAct(x));
    var y := Step(x, NextAct(x));
    if y.e.phase == Outside {
      xs, acts := [x, y], [NextAct(x)];
    } else {
      var later, after := Finish(y);
      xs, acts := [x] + later, [NextAct(x)] + after;
      assert forall k :: 0 < k <= |acts| ==> xs[k] == later[k - 1];
      assert forall k :: 0 < k < |acts| ==> acts[k] == after[k - 1];
    }
  }

  /** An endpoint that is outside `poll` and not closed can poll at any time, and the poll ends. */
  lemma PollCompletes(x: Actor, callback: bool, timeout: int) returns (xs: seq<Actor>, acts: seq<Action>)
    requires ActorInv(x) && x.e.phase == Outside && x.e.conn.ready != CLOSED
    ensures IsPoll(xs, acts) && xs[0] == x && acts[0] == Poll(callback, timeout)
    ensures Achieved(x, xs[|acts|], callback)
  {
    hide ActorInv, Step, Achieved;
    var act := Poll(callback, timeout);
    StepKeepsActorInv(x, act);
    assert Step(x, act).e.phase != Outside by { PollEnters(x, callback, timeout); }
    hide Enabled;
    var later, after := Finish(Step(x, act));
    xs, acts := [x] + later, [act] + after;
    assert forall k :: 0 < k <= |acts| ==> xs[k] == later[k - 1];
    assert forall k :: 0 < k < |acts| ==> acts[k] == after[k - 1];
    PollAchieves(xs, acts);
  }

  lemma PollEnters(x: Actor, callback: bool, timeout: int)
    requires Enabled(x, Poll(callback, timeout))
    ensures Step(x, Poll(callback, timeout)).e.phase != Outside
  {
  }

  // In runs of the whole system. End `a` is like end `b`: see SwappedIsRun.

  ghost function AsB(s: System): Actor {
    Actor(s.b, s.ba, s.ab)
  }

  ghost predicate StepOfB(s: System, s': System) {
    exists act :: ActsAsB(s, s', act)
  }

  /** Only `b` acts between two states of a run. */
  ghost predicate OnlyB(run: seq<System>, i: nat, j: nat)
    requires i <= j < |run|
  {
    forall k :: i <= k < j ==> StepOfB(run[k], run[k + 1])
  }

  lemma {:induction false} ActsOfB(run: seq<System>, i: nat, j: nat) returns (xs: seq<Actor>, acts: seq<Action>)
    requires i <= j < |run| && OnlyB(run, i, j)
    ensures |acts| == j - i && |xs| == |acts| + 1
    ensures forall k :: 0 <= k <= |acts| ==> xs[k] == AsB(run[i + k])
    ensures forall k :: 0 <= k < |acts| ==> Enabled(xs[k], acts[k]) && xs[k + 1] == Step(xs[k], acts[k])
    decreases j
  {
    hide Step, Enabled;
    if i == j {
      xs, acts := [AsB(run[i])], [];
    } else {
      var before, earlier := ActsOfB(run, i, j - 1);
      var s, s' := run[j - 1], run[j];
      assert StepOfB(run[j - 1], run[j - 1 + 1]);
      var act :| ActsAsB(s, s', act);
      xs, acts := before + [AsB(run[j])], earlier + [act];
    }
  }

  lemma ReachableActor(run: seq<System>, i: nat)
    requires IsRun(run) && i < |run|
    ensures ActorInv(AsB(run[i]))
  {
    hide R.Inv, EndpointInv, SenderLink, ReceiverLink, IsRun;
    EndToEnd.RunInv(run, i);
  }

  /** Only `b` acts, and it completes one poll. */
  ghost predicate OnePollOfB(run: seq<System>, i: nat, j: nat) {
    && i + 1 < j < |run| && OnlyB(run, i, j)
    && run[i].b.phase == Outside == run[j].b.phase && forall k :: i < k < j ==> run[k].b.phase != Outside
  }

  lemma PollOfB(run: seq<System>, i: nat, j: nat)
    requires IsRun(run) && OnePollOfB(run, i, j)
    ensures Achieved(AsB(run[i]), AsB(run[j]), run[i + 1].b.callback)
  {
    hide Enabled, Step, ActorInv, Achieved, StepOfB, EndToEnd.Init, Next;
    var xs, acts := ActsOfB(run, i, j);
    ReachableActor(run, i);
    forall k | 0 < k < |acts| ensures xs[k].e.phase != Outside {
      assert xs[k] == AsB(run[i + k]);
    }
    assert xs[0] == AsB(run[i + 0]) && xs[1] == AsB(run[i + 1]) && xs[|acts|] == AsB(run[i + |acts|]);
    assert Enabled(xs[0], acts[0]) && xs[0 + 1] == Step(xs[0], acts[0]);
    OnlyPollEnters(xs[0], acts[0]);
    CallbackKept(xs[0], acts[0]);
    PollAchieves(xs, acts);
  }

  /** Over any stretch of any run in which only `b` acts and completes one poll: with headroom it has
      received everything `a` had published; it has handed over as much as there was room for; with a
      callback it has delivered every complete message among what it received; and if it had been asked to
      close, it is closed exactly when everything has been handed over. */
  lemma PollFetchesEverything(run: seq<System>, i: nat, j: nat)
    requires IsRun(run) && OnePollOfB(run, i, j)
    ensures var s, t := run[i].b.conn, run[j].b.conn;
      var sent := Min(|s.tx|, Room(run[i].ba.c, |run[i].ba.accepted| - |run[i].ba.delivered|));
      && (4 * MAX_READ_SIZE + 2 * (|s.rx| + |run[i].ab.accepted| - |s.received|) <= MAX_BUFFER_SIZE ==>
            t.received == run[i].ab.accepted)
      && t.accepted == s.accepted + s.tx[..sent] == run[j].ba.accepted
      && (run[i + 1].b.callback ==> Dispatch(t.received) == Dispatched(t.messages, t.rx))
      && (t.ready == CLOSED <==> s.ready == CLOSING && sent == |s.tx|)
  {
    hide OnlyB, IsRun, Dispatch, Room;
    PollOfB(run, i, j);
  }

  lemma OnlyPollEnters(x: Actor, act: Action)
    requires Enabled(x, act) && x.e.phase == Outside && Step(x, act).e.phase != Outside
    ensures act.Poll?
  {
  }

  /** And there is always such a stretch: any run in which `b` is outside `poll` and not closed can go on
      with `b` alone until it has completed a poll. */
  lemma PollCanComplete(run: seq<System>, callback: bool, timeout: int) returns (run': seq<System>)
    requires IsRun(run) && run[|run| - 1].b.phase == Outside && run[|run| - 1].b.conn.ready != CLOSED
    ensures IsRun(run') && |run| + 1 < |run'| && run'[..|run|] == run && OnlyB(run', |run| - 1, |run'| - 1)
    ensures run'[|run| - 1].b.phase == Outside == run'[|run'| - 1].b.phase
    ensures forall k :: |run| <= k < |run'| - 1 ==> run'[k].b.phase != Outside
    ensures run'[|run|].b.callback == callback
  {
    hide Enabled, Step, ActorInv, Achieved, EndToEnd.Init;
    var n, s := |run| - 1, run[|run| - 1];
    ReachableActor(run, n);
    var xs, acts := PollCompletes(AsB(s), callback, timeout);
    var added := seq(|acts|, k requires 0 <= k < |acts| => System(s.a, xs[k + 1].e, xs[k + 1].inn, xs[k + 1].out));
    run' := run + added;
    forall k | n <= k < |run'| - 1 ensures StepOfB(run'[k], run'[k + 1]) && Next(run'[k], run'[k + 1]) {
      assert AsB(run'[k]) == xs[k - n] && AsB(run'[k + 1]) == xs[k - n + 1];
      assert ActsAsB(run'[k], run'[k + 1], acts[k - n]);
    }
    forall k | 0 <= k < |run'| - 1 ensures Next(run'[k], run'[k + 1]) {
      assert k < n ==> Next(run[k], run[k + 1]);
    }
    forall k | |run| <= k < |run'| - 1 ensures run'[k].b.phase != Outside {
      assert AsB(run'[k]) == xs[k - n];
    }
    CallbackKept(xs[0], acts[0]);
    assert AsB(run'[|run|]) == xs[1] && AsB(run'[|run'| - 1]) == xs[|acts|];
  }

  // With the peer running too.

  ghost predicate InReceiveLoop(e: Endpoint) {
    e.phase == ReceiveLoop || e.phase == InReceive
  }

  /** Whatever the peer does: an endpoint leaves its receive loop only when its receive buffer is nearly
      full, or right after a read that came back empty because the ring was empty when it began. */
  ghost predicate LeftWithReason(x: Actor) {
    || MAX_BUFFER_SIZE < 4 * MAX_READ_SIZE + 2 * |x.e.conn.rx|
    || (x.inn.reader.RReturned? && x.inn.reader.bytes == [] && x.inn.readLog != []
        && x.inn.readLog[|x.inn.readLog| - 1].bytes == [] && x.inn.readLog[|x.inn.readLog| - 1].queued <= 0)
  }

  lemma LeavesReceiveLoop(x: Actor, act: Action)
    requires ActorInv(x) && Enabled(x, act) && InReceiveLoop(x.e) && !InReceiveLoop(Step(x, act).e)
    ensures LeftWithReason(x) && Step(x, act).e.phase == SendLoop
  {
    hide ActorInv, Fits, Reserved, R.ReaderStep, R.WriterStep;
    LoopFacts(x);
    if act.Reserve? && 4 * MAX_READ_SIZE + 2 * |x.e.conn.rx| <= MAX_BUFFER_SIZE {
      HeadroomSuffices(x.e.rw, MAX_BUFFER_SIZE, MAX_READ_SIZE);
    }
    if act.Received? {
      EmptyReadLogged(x);
    }
  }

  lemma EmptyReadLogged(x: Actor)
    requires ActorInv(x) && x.e.phase == InReceive && x.inn.reader.RReturned? && x.inn.reader.bytes == []
    ensures x.inn.readLog != []
    ensures var r := x.inn.readLog[|x.inn.readLog| - 1]; r.bytes == [] && r.queued <= 0
  {
    hide EndpointInv, SenderLink, R.MemoryInv, R.WriterInv, R.Written, R.Read;
    var r := x.inn.readLog[|x.inn.readLog| - 1];
    assert r in x.inn.readLog && R.GoodRead(r) && r.maxLen == MAX_READ_SIZE;
  }

  ghost predicate InTransmitLoop(e: Endpoint) {
    e.phase == SendLoop || e.phase == InSend
  }

  /** And it leaves its transmit loop only when nothing waits to be sent, or right after a write of
      everything that waits, none of which was taken because there was no room when it began. */
  ghost predicate StoppedWithReason(x: Actor) {
    || x.e.conn.tx == []
    || (x.out.writer.WReturned? && x.out.writer.len == 0 && x.out.writeLog != []
        && x.out.writeLog[|x.out.writeLog| - 1] == R.WriteRecord(x.e.conn.tx, 0, 0))
  }

  lemma LeavesTransmitLoop(x: Actor, act: Action)
    requires ActorInv(x) && Enabled(x, act) && InTransmitLoop(x.e) && !InTransmitLoop(Step(x, act).e)
    ensures StoppedWithReason(x) && Step(x, act).e.phase == Settling
  {
    hide ActorInv, R.ReaderStep, R.WriterStep;
    if act.Sent? {
      WriteLogged(x);
    }
  }

  lemma WriteLogged(x: Actor)
    requires ActorInv(x) && x.e.phase == InSend && x.out.writer.WReturned?
    ensures x.out.writer.len <= |x.e.conn.tx| && x.out.writeLog != []
    ensures var w := x.out.writeLog[|x.out.writeLog| - 1];
      w.data == x.e.conn.tx && w.len == x.out.writer.len && Min(|w.data|, w.room) <= w.len
  {
    hide EndpointInv, ReceiverLink, R.MemoryInv, R.ReaderInv, R.Written, R.Read, R.Offered;
    var w := x.out.writeLog[|x.out.writeLog| - 1];
    assert w in x.out.writeLog && R.GoodWrite(w);
  }

  /** An endpoint enters `poll` by its receive loop. */
  lemma PollStartsReceiving(x: Actor, act: Action)
    requires Enabled(x, act) && x.e.phase == Outside && Step(x, act).e.phase != Outside
    ensures act.Poll? && InReceiveLoop(Step(x, act).e)
  {
  }

  /** In every run, at every step of `b`. */
  lemma LoopsRunDry(run: seq<System>, i: nat)
    requires IsRun(run) && i + 1 < |run|
    ensures InReceiveLoop(run[i].b) && !InReceiveLoop(run[i + 1].b) ==>
      LeftWithReason(AsB(run[i])) && run[i + 1].b.phase == SendLoop
    ensures InTransmitLoop(run[i].b) && !InTransmitLoop(run[i + 1].b) ==>
      StoppedWithReason(AsB(run[i])) && run[i + 1].b.phase == Settling
    ensures run[i].b.phase == Outside != run[i + 1].b.phase ==> InReceiveLoop(run[i + 1].b)
  {
    hide Enabled, Step, ActorInv, LeftWithReason, StoppedWithReason, EndToEnd.Init;
    ReachableActor(run, i);
    var s, s' := run[i], run[i + 1];
    assert Next(s, s');
    if act :| ActsAsB(s, s', act) {
      if InReceiveLoop(run[i].b) && !InReceiveLoop(run[i + 1].b) {
        LeavesReceiveLoop(AsB(s), act);
      }
      if InTransmitLoop(run[i].b) && !InTransmitLoop(run[i + 1].b) {
        LeavesTransmitLoop(AsB(s), act);
      }
      if run[i].b.phase == Outside != run[i + 1].b.phase {
        PollStartsReceiving(AsB(s), act);
      }
    } else {
      var act :| ActsAsA(s, s', act);
    }
  }
}
