/** The chat server's loop: clients join and drop, and every console line and every client's message is
    sent to all of them. */
module ChatServer {
  import opened Words
  import opened Frames
  import opened Framing
  import opened ReadyStates
  import opened SimpleBuffer
  import opened SocketChat
  import opened Transport
  import S = Session

  /** One client: its connection, what its transport will report, and what has been sent to it. `joined` is
      the number of broadcasts made before it came, and `lossless` says that every frame found room in its
      transmit buffer. */
  datatype Peer = Peer(id: nat, joined: nat, conn: S.Session, script: Script, log: seq<Text>, lossless: bool)

  /** The server as a value: its client list, and every text ever broadcast. */
  datatype Server = Server(peers: seq<Peer>, broadcasts: seq<Text>)

  /** One poll of a client: what its transport did, and what the transport will report later. */
  datatype Polling = Polling(io: S.PollIo, left: Script)

  /** What happens during one turn of the loop: a client may come, a line may be typed, and each client is
      polled. */
  datatype Turn = Turn(joins: Option<Script>, line: Option<seq<byte>>, polls: seq<Polling>)

  function Ascii(s: string): Text
    requires forall c :: c in s ==> c < 128 as char
  {
    seq(|s|, i requires 0 <= i < |s| => assert s[i] in s; (s[i] as int) as byte)
  }

  const BYE := Ascii("bye")
  const QUIT := Ascii("quit")
  const EXIT := Ascii("exit")

  predicate IsExit(line: Text) {
    line == BYE || line == QUIT || line == EXIT
  }

  function NewPeer(id: nat, joined: nat, script: Script): Peer {
    Peer(id, joined, S.NEW, script, [], true)
  }

  function Joined(s: Server, script: Option<Script>): Server {
    match script
    case None => s
    case Some(script) => s.(peers := s.peers + [NewPeer(|s.peers| + 1, |s.broadcasts|, script)])
  }

  function Sent(p: Peer, text: Text): Peer {
    p.(conn := S.AfterSendText(p.conn, text), log := p.log + [text],
       lossless := p.lossless && FrameFits(p.conn.tw, |text|))
  }

  /** What `sendText` takes from a C string. */
  function TextOf(str: seq<byte>): Text {
    TextSent(Some(str))
  }

  /** The first `k` clients have been sent a text. */
  function SentFirst(peers: seq<Peer>, k: nat, text: Text): (r: seq<Peer>)
    requires k <= |peers|
    ensures |r| == |peers|
    ensures forall i :: 0 <= i < |r| ==> r[i] == if i < k then Sent(peers[i], text) else peers[i]
  {
    seq(|peers|, i requires 0 <= i < |peers| => if i < k then Sent(peers[i], text) else peers[i])
  }

  function Broadcast(s: Server, str: seq<byte>): Server {
    Server(SentFirst(s.peers, |s.peers|, TextOf(str)), s.broadcasts + [TextOf(str)])
  }

  function Typed(s: Server, line: Option<seq<byte>>): Server {
    if line.Some? && !IsExit(CString(line.value)) then Broadcast(s, line.value) else s
  }

  /** The connected clients, in their order. */
  function Connected(peers: seq<Peer>): seq<Peer> {
    if peers == [] then []
    else (if peers[0].conn.ready != CLOSED then [peers[0]] else []) + Connected(peers[1..])
  }

  function Dropped(s: Server): Server {
    s.(peers := Connected(s.peers))
  }

  /** A client's connection after its poll. */
  function Polled(conn: S.Session, io: S.PollIo): (conn': S.Session)
    ensures conn.messages <= conn'.messages
  {
    if S.Possible(conn, io) then
      S.PollOnlyAdds(conn, io, true, 1);
      S.AfterPoll(conn, io, true, 1)
    else conn
  }

  /** The last message a poll delivered. */
  function News(before: S.Session, after: S.Session): Option<Text> {
    if after.messages == [] || after.messages == before.messages then None
    else Some(after.messages[|after.messages| - 1])
  }

  function PolledPeer(p: Peer, poll: Polling): Peer {
    p.(conn := Polled(p.conn, poll.io), script := poll.left)
  }

  /** Polls client `k` and sends the last message it delivered, if any, to all. */
  function EchoOne(s: Server, k: nat, poll: Polling): Server
    requires k < |s.peers|
  {
    var p := PolledPeer(s.peers[k], poll);
    var polled := s.(peers := s.peers[k := p]);
    var news := News(s.peers[k].conn, p.conn);
    if news.Some? then Broadcast(polled, news.value) else polled
  }

  function EchoFirst(s: Server, k: nat, polls: seq<Polling>): (s': Server)
    requires k <= |s.peers|
    ensures |s'.peers| == |s.peers|
  {
    if k == 0 then s
    else
      var before := EchoFirst(s, k - 1, polls);
      if k <= |polls| then EchoOne(before, k - 1, polls[k - 1]) else before
  }

  /** The clients still listed when the polls of a turn begin. */
  function Listed(s: Server, t: Turn): Server {
    Dropped(Typed(Joined(s, t.joins), t.line))
  }

  function AfterTurn(s: Server, t: Turn): Server {
    var dropped := Listed(s, t);
    EchoFirst(dropped, |dropped.peers|, t.polls)
  }

  predicate Exits(line: Option<seq<byte>>) {
    line.Some? && IsExit(CString(line.value))
  }

  /** A poll that is what the client's connection and transport make of it. */
  ghost predicate HonestPoll(conn: S.Session, script: Script, poll: Polling) {
    && S.Possible(conn, poll.io)
    && if conn.ready == CLOSED then poll.left == script else S.SystemPoll(conn, script, poll.io, poll.left)
  }

  ghost predicate Honest(p: Peer, poll: Polling) {
    HonestPoll(p.conn, p.script, poll)
  }

  ghost predicate HonestEcho(s: Server, polls: seq<Polling>) {
    |polls| <= |s.peers| && forall k :: 0 <= k < |polls| ==> Honest(EchoFirst(s, k, polls).peers[k], polls[k])
  }

  /** Every listed client is polled, and every poll is honest. */
  ghost predicate HonestTurn(s: Server, t: Turn) {
    |t.polls| == |Listed(s, t).peers| && HonestEcho(Listed(s, t), t.polls)
  }

  ghost predicate HonestRun(s: Server, turns: seq<Turn>) {
    forall n :: 0 <= n < |turns| ==> HonestTurn(AfterTurns(s, turns[..n]), turns[n])
  }

  /** The loop: turn after turn. */
  function AfterTurns(s: Server, turns: seq<Turn>): Server {
    if turns == [] then s else AfterTurn(AfterTurns(s, turns[..|turns| - 1]), turns[|turns| - 1])
  }

  // The invariant of the server.

  /** A listed client has been sent exactly the broadcasts made since it joined, and if every frame found
      room, what its connection has enqueued is their encoding. */
  ghost predicate PeerInv(p: Peer, broadcasts: seq<Text>) {
    && p.joined <= |broadcasts| && p.log == broadcasts[p.joined..]
    && (p.lossless ==> p.conn.enqueued == EncodeAll(p.log))
    && S.Inv(p.conn)
  }

  ghost predicate Inv(s: Server) {
    forall i :: 0 <= i < |s.peers| ==> PeerInv(s.peers[i], s.broadcasts)
  }

  lemma SentKeepsInv(p: Peer, broadcasts: seq<Text>, text: Text)
    requires PeerInv(p, broadcasts)
    ensures PeerInv(Sent(p, text), broadcasts + [text])
  {
    S.SendTextKeepsInv(p.conn, text);
    WholeFrameIffFits(p.conn.tw, text);
    EncodeAllConcat(p.log, [text]);
    S.EncodeOne(text);
    hide EncodeAll, S.Inv, FrameFits, FrameAppended, Appending;
  }

  lemma BroadcastKeepsInv(s: Server, str: seq<byte>)
    requires Inv(s)
    ensures Inv(Broadcast(s, str))
  {
    hide PeerInv, Sent, TextOf;
    forall i | 0 <= i < |s.peers| ensures PeerInv(Sent(s.peers[i], TextOf(str)), s.broadcasts + [TextOf(str)]) {
      SentKeepsInv(s.peers[i], s.broadcasts, TextOf(str));
    }
  }

  lemma PolledKeepsInv(p: Peer, broadcasts: seq<Text>, poll: Polling)
    requires PeerInv(p, broadcasts)
    ensures PeerInv(PolledPeer(p, poll), broadcasts)
  {
    var io := poll.io;
    hide S.AfterPoll, S.Inv, S.Possible, EncodeAll;
    if S.Possible(p.conn, io) {
      S.PollOnlyAdds(p.conn, io, true, 1);
      S.PollKeepsInv(p.conn, io, true, 1);
    }
  }

  lemma {:induction false} ConnectedSubset(peers: seq<Peer>)
    ensures forall i :: 0 <= i < |Connected(peers)| ==> Connected(peers)[i] in peers && Connected(peers)[i].conn.ready != CLOSED
  {
    if peers != [] {
      ConnectedSubset(peers[1..]);
    }
  }

  lemma EchoOneKeepsInv(s: Server, k: nat, poll: Polling)
    requires Inv(s) && k < |s.peers|
    ensures Inv(EchoOne(s, k, poll))
  {
    hide Broadcast, PeerInv, PolledPeer, News;
    var p := PolledPeer(s.peers[k], poll);
    PolledKeepsInv(s.peers[k], s.broadcasts, poll);
    var news := News(s.peers[k].conn, p.conn);
    if news.Some? {
      BroadcastKeepsInv(s.(peers := s.peers[k := p]), news.value);
    }
  }

  lemma {:induction false} EchoKeepsInv(s: Server, k: nat, polls: seq<Polling>)
    requires Inv(s) && k <= |s.peers|
    ensures Inv(EchoFirst(s, k, polls))
  {
    hide EchoOne, Inv;
    if k > 0 {
      EchoKeepsInv(s, k - 1, polls);
      if k <= |polls| {
        EchoOneKeepsInv(EchoFirst(s, k - 1, polls), k - 1, polls[k - 1]);
      }
    }
  }

  lemma JoinedKeepsInv(s: Server, script: Option<Script>)
    requires Inv(s)
    ensures Inv(Joined(s, script))
  {
    hide PeerInv;
    if script.Some? {
      NewPeerInv(|s.peers| + 1, s.broadcasts, script.value);
    }
  }

  lemma NewPeerInv(id: nat, broadcasts: seq<Text>, script: Script)
    ensures PeerInv(NewPeer(id, |broadcasts|, script), broadcasts)
  {
    S.InitInv(S.NEW);
    hide S.Inv;
  }

  lemma TurnKeepsInv(s: Server, t: Turn)
    requires Inv(s)
    ensures Inv(AfterTurn(s, t))
  {
    hide Broadcast, Connected, EchoFirst, PeerInv, Joined, CString;
    var joined := Joined(s, t.joins);
    JoinedKeepsInv(s, t.joins);
    if t.line.Some? {
      BroadcastKeepsInv(joined, t.line.value);
    }
    var typed := Typed(joined, t.line);
    ConnectedSubset(typed.peers);
    EchoKeepsInv(Dropped(typed), |Dropped(typed).peers|, t.polls);
  }

  lemma {:induction false} TurnsKeepInv(s: Server, turns: seq<Turn>)
    requires Inv(s)
    ensures Inv(AfterTurns(s, turns))
  {
    hide AfterTurn, Inv;
    if turns != [] {
      TurnsKeepInv(s, turns[..|turns| - 1]);
      TurnKeepsInv(AfterTurns(s, turns[..|turns| - 1]), turns[|turns| - 1]);
    }
  }

  const EMPTY := Server([], [])

  /** In every run of the server any two listed clients have been sent the same texts in the same order
      since the later of them joined, whoever dropped in between and whatever was echoed. */
  lemma CommonOrder(turns: seq<Turn>, i: nat, j: nat)
    requires var s := AfterTurns(EMPTY, turns);
      i < |s.peers| && j < |s.peers| && s.peers[i].joined <= s.peers[j].joined
    ensures var s := AfterTurns(EMPTY, turns);
      var later := s.peers[j].joined - s.peers[i].joined;
      later <= |s.peers[i].log| && s.peers[j].log == s.peers[i].log[later..]
  {
    hide AfterTurns, S.Inv, EncodeAll;
    TurnsKeepInv(EMPTY, turns);
    var s := AfterTurns(EMPTY, turns);
    assert PeerInv(s.peers[i], s.broadcasts) && PeerInv(s.peers[j], s.broadcasts);
  }

  // What is said.

  /** What a console line contributes: the line, unless it is a stop word. */
  function LineSaid(line: Option<seq<byte>>): seq<Text> {
    if line.None? || CString(line.value) in [Ascii("bye"), Ascii("quit"), Ascii("exit")] then []
    else [TextOf(line.value)]
  }

  /** A typed line either goes to all or stops the loop. */
  lemma LineSaidOrExits(line: Option<seq<byte>>)
    ensures LineSaid(line) == if line.None? || Exits(line) then [] else [TextOf(line.value)]
    ensures line.Some? ==> (Exits(line) <==> LineSaid(line) == [])
  {
    hide CString, TextOf;
  }

  /** What the first `k` clients contribute: each whose poll delivered something, the last message it
      delivered. */
  function Echoes(before: seq<Peer>, after: seq<Peer>, k: nat): seq<Text>
    requires k <= |before| == |after|
  {
    if k == 0 then []
    else
      var messages := after[k - 1].conn.messages;
      Echoes(before, after, k - 1)
        + if messages == [] || messages == before[k - 1].conn.messages then [] else [TextOf(messages[|messages| - 1])]
  }

  /** A client has been polled once: it has received what its transport had waiting, and unless the poll
      failed it has delivered every complete message received. */
  ghost predicate PolledOnce(p: Peer, poll: Polling, q: Peer) {
    && q.script == poll.left
    && S.SystemReceive(p.conn.rx, p.script.arrivals, poll.io.incoming, poll.io.receiveEnd, q.script.arrivals)
    && q.conn.received == p.conn.received + poll.io.incoming
    && (!S.Failed(poll.io) ==> Dispatch(q.conn.received) == Dispatched(q.conn.messages, q.conn.rx))
    && (S.Failed(poll.io) ==> q.conn.messages == p.conn.messages && q.conn.ready == CLOSED)
  }

  /** What a turn says and to whom: the console line if there is one and it is no stop word, then for each
      client still listed, in list order, the last message its poll delivered, if any; and every client
      still listed has been sent all of it, in this order, and nothing else. */
  ghost predicate Says(s: Server, t: Turn, s': Server) {
    var joined := s.peers + if t.joins.Some? then [NewPeer(|s.peers| + 1, |s.broadcasts|, t.joins.value)] else [];
    var before := Connected(joined);
    && |s'.peers| == |before| == |t.polls|
    && var said := LineSaid(t.line) + Echoes(before, s'.peers, |before|);
       && s'.broadcasts == s.broadcasts + said
       && forall k :: 0 <= k < |before| ==>
            && s'.peers[k].id == before[k].id && s'.peers[k].joined == before[k].joined
            && s'.peers[k].log == before[k].log + said
            && PolledOnce(before[k], t.polls[k], s'.peers[k])
  }

  /** Sending changes what waits to be sent, and nothing else of a client's connection. */
  ghost predicate OnlySent(p: Peer, q: Peer) {
    && q.id == p.id && q.joined == p.joined && q.script == p.script
    && q.conn == p.conn.(tx := q.conn.tx, tw := q.conn.tw, enqueued := q.conn.enqueued)
  }

  /** How far the echo loop is after `k` clients. */
  ghost predicate EchoSaid(d: Server, r: Server, k: nat, polls: seq<Polling>) {
    && |r.peers| == |d.peers| && k <= |polls| && k <= |d.peers|
    && r.broadcasts == d.broadcasts + Echoes(d.peers, r.peers, k)
    && (forall i :: 0 <= i < |d.peers| ==>
          && r.peers[i].id == d.peers[i].id && r.peers[i].joined == d.peers[i].joined
          && r.peers[i].log == d.peers[i].log + Echoes(d.peers, r.peers, k))
    && (forall i :: 0 <= i < k ==> PolledOnce(d.peers[i], polls[i], r.peers[i]))
    && (forall i :: k <= i < |d.peers| ==> OnlySent(d.peers[i], r.peers[i]))
  }

  lemma {:induction false} EchoesSame(before: seq<Peer>, a: seq<Peer>, b: seq<Peer>, k: nat)
    requires k <= |before| == |a| == |b|
    requires forall i :: 0 <= i < k ==> a[i].conn.messages == b[i].conn.messages
    ensures Echoes(before, a, k) == Echoes(before, b, k)
  {
    hide TextOf;
    if k > 0 {
      EchoesSame(before, a, b, k - 1);
    }
  }

  lemma SentAppends(p: Peer, text: Text)
    ensures Sent(p, text).log == p.log + [text]
    ensures Sent(p, text).conn.tx == p.conn.tx + Appending(p.conn.tw, text)
    ensures Sent(p, text).conn.accepted == p.conn.accepted
  {
  }

  lemma SentOnlySends(p: Peer, text: Text)
    ensures OnlySent(p, Sent(p, text)) && Sent(p, text).log == p.log + [text]
  {
  }

  /** What one honest poll does. */
  lemma PollOnce(p: Peer, q: Peer, poll: Polling)
    requires OnlySent(p, q) && S.Inv(q.conn) && Honest(q, poll) && q.conn.ready != CLOSED
    ensures PolledOnce(p, poll, PolledPeer(q, poll))
  {
    hide Dispatch, WindowFor, S.SystemReceive, S.SystemSend;
    var io := poll.io;
    S.PollMoves(q.conn, io, true, 1);
    if S.Failed(io) {
      FailedDeliversNothing(q.conn, io);
    } else {
      S.PollKeepsInv(q.conn, io, true, 1);
      S.DispatchedAll(q.conn, io, 1);
      S.InvMessages(S.AfterPoll(q.conn, io, true, 1));
    }
  }

  lemma FailedDeliversNothing(conn: S.Session, io: S.PollIo)
    requires conn.ready != CLOSED && S.Possible(conn, io) && S.Failed(io)
    ensures S.AfterPoll(conn, io, true, 1).messages == conn.messages
  {
    hide Dispatch;
  }

  function NewsText(before: S.Session, after: S.Session): seq<Text> {
    var news := News(before, after);
    if news.Some? then [TextOf(news.value)] else []
  }

  lemma EchoAdds(r: Server, k: nat, poll: Polling)
    requires k < |r.peers|
    ensures var r' := EchoOne(r, k, poll);
      |r'.peers| == |r.peers|
      && r'.broadcasts == r.broadcasts + NewsText(r.peers[k].conn, PolledPeer(r.peers[k], poll).conn)
  {
    hide PolledPeer, TextOf, News, Sent;
    assert r.broadcasts + [] == r.broadcasts;
  }

  lemma EchoTouches(r: Server, k: nat, poll: Polling, i: nat)
    requires k < |r.peers| && i < |r.peers|
    ensures var p := PolledPeer(r.peers[k], poll); var q := if i == k then p else r.peers[i];
      var q' := EchoOne(r, k, poll).peers[i];
      OnlySent(q, q') && q'.log == q.log + NewsText(r.peers[k].conn, p.conn)
  {
    hide PolledPeer, TextOf, News, Sent;
    var p := PolledPeer(r.peers[k], poll);
    var q := if i == k then p else r.peers[i];
    var news := News(r.peers[k].conn, p.conn);
    if news.Some? {
      SentOnlySends(q, TextOf(news.value));
    } else {
      assert q.log + [] == q.log;
    }
  }

  lemma EchoesGrow(d: Server, r: Server, k: nat, poll: Polling)
    requires |r.peers| == |d.peers| && k < |d.peers| && d.peers[k].conn.messages == r.peers[k].conn.messages
    ensures var r' := EchoOne(r, k, poll);
      |r'.peers| == |d.peers|
      && Echoes(d.peers, r'.peers, k + 1) ==
           Echoes(d.peers, r.peers, k) + NewsText(r.peers[k].conn, PolledPeer(r.peers[k], poll).conn)
  {
    hide EchoOne, PolledPeer, TextOf, Sent;
    EchoAdds(r, k, poll);
    var r' := EchoOne(r, k, poll);
    forall i | 0 <= i < k ensures r.peers[i].conn.messages == r'.peers[i].conn.messages {
      EchoTouches(r, k, poll, i);
    }
    EchoTouches(r, k, poll, k);
    EchoesSame(d.peers, r.peers, r'.peers, k);
  }

  /** One more client. */
  lemma EchoSaysMore(d: Server, r: Server, k: nat, polls: seq<Polling>)
    requires EchoSaid(d, r, k, polls) && k < |polls| && k < |d.peers| && Inv(r)
    requires Honest(r.peers[k], polls[k]) && d.peers[k].conn.ready != CLOSED
    ensures EchoSaid(d, EchoOne(r, k, polls[k]), k + 1, polls)
  {
    hide PolledOnce, PolledPeer, Honest, EchoOne, NewsText, Echoes, Inv;
    var r', text := EchoOne(r, k, polls[k]), NewsText(r.peers[k].conn, PolledPeer(r.peers[k], polls[k]).conn);
    EchoAdds(r, k, polls[k]);
    EchoesGrow(d, r, k, polls[k]);
    EchoPolls(d, r, k, polls[k]);
    PolledKeeps(r.peers[k], polls[k]);
    var said := Echoes(d.peers, r.peers, k);
    Reassociate(d.broadcasts, said, text);
    forall i | 0 <= i < |d.peers|
      ensures r'.peers[i].id == d.peers[i].id && r'.peers[i].joined == d.peers[i].joined
      ensures r'.peers[i].log == d.peers[i].log + (said + text)
      ensures i < k + 1 ==> PolledOnce(d.peers[i], polls[i], r'.peers[i])
      ensures k + 1 <= i ==> OnlySent(d.peers[i], r'.peers[i])
    {
      EchoTouches(r, k, polls[k], i);
      Reassociate(d.peers[i].log, said, text);
      if i < k {
        PolledOnceAside(d.peers[i], polls[i], r.peers[i], r'.peers[i]);
      } else if i == k {
        PolledOnceAside(d.peers[k], polls[k], PolledPeer(r.peers[k], polls[k]), r'.peers[k]);
      }
    }
  }

  lemma EchoPolls(d: Server, r: Server, k: nat, poll: Polling)
    requires k < |d.peers| == |r.peers| && OnlySent(d.peers[k], r.peers[k]) && Inv(r)
    requires Honest(r.peers[k], poll) && d.peers[k].conn.ready != CLOSED
    ensures PolledOnce(d.peers[k], poll, PolledPeer(r.peers[k], poll))
  {
    hide PolledOnce, PolledPeer, Honest, S.Inv;
    assert PeerInv(r.peers[k], r.broadcasts);
    PollOnce(d.peers[k], r.peers[k], poll);
  }

  lemma PolledKeeps(p: Peer, poll: Polling)
    ensures var q := PolledPeer(p, poll); q.id == p.id && q.joined == p.joined && q.log == p.log
  {
  }

  lemma PolledOnceAside(p: Peer, poll: Polling, q: Peer, q': Peer)
    requires PolledOnce(p, poll, q) && OnlySent(q, q')
    ensures PolledOnce(p, poll, q')
  {
    hide Dispatch, S.SystemReceive, S.Failed;
  }

  lemma {:induction false} EchoSays(d: Server, k: nat, polls: seq<Polling>)
    requires k <= |d.peers| && k <= |polls| && Inv(d) && HonestEcho(d, polls)
    requires forall i :: 0 <= i < |d.peers| ==> d.peers[i].conn.ready != CLOSED
    ensures EchoSaid(d, EchoFirst(d, k, polls), k, polls)
  {
    hide Inv, EchoOne, Honest, PolledOnce, EchoSaid;
    if k == 0 {
      NothingSaid(d, polls);
    } else {
      EchoSays(d, k - 1, polls);
      EchoKeepsInv(d, k - 1, polls);
      EchoSaysMore(d, EchoFirst(d, k - 1, polls), k - 1, polls);
    }
  }

  lemma NothingSaid(d: Server, polls: seq<Polling>)
    ensures EchoSaid(d, d, 0, polls)
  {
    hide PolledOnce;
    assert d.broadcasts + [] == d.broadcasts;
  }

  /** Dropping and sending commute. */
  lemma {:induction false} ConnectedSent(peers: seq<Peer>, text: Text)
    ensures Connected(SentFirst(peers, |peers|, text)) == SentFirst(Connected(peers), |Connected(peers)|, text)
  {
    hide Sent, SentFirst;
    var sent := SentFirst(peers, |peers|, text);
    if peers != [] {
      ConnectedSent(peers[1..], text);
      SentOnlySends(peers[0], text);
      assert sent[1..] == SentFirst(peers[1..], |peers| - 1, text);
    } else {
      assert sent == [];
    }
  }

  /** The clients listed when the polls begin, against those before the console line was sent. */
  lemma ListedSays(s: Server, t: Turn)
    ensures var joined := Joined(s, t.joins); var before := Connected(joined.peers); var d := Listed(s, t);
      && |d.peers| == |before| && d.broadcasts == s.broadcasts + LineSaid(t.line)
      && forall k :: 0 <= k < |before| ==>
           OnlySent(before[k], d.peers[k]) && d.peers[k].log == before[k].log + LineSaid(t.line)
  {
    hide Connected, Sent, TextOf, CString;
    var joined := Joined(s, t.joins);
    var before := Connected(joined.peers);
    if LineSaid(t.line) == [] {
      assert s.broadcasts + [] == s.broadcasts;
      assert Listed(s, t).peers == before;
    } else {
      var text := TextOf(t.line.value);
      ConnectedSent(joined.peers, text);
      forall k | 0 <= k < |before| ensures OnlySent(before[k], Sent(before[k], text)) && Sent(before[k], text).log == before[k].log + [text] {
        SentOnlySends(before[k], text);
      }
    }
  }

  lemma {:induction false} EchoesAside(a: seq<Peer>, b: seq<Peer>, after: seq<Peer>, k: nat)
    requires k <= |a| == |b| == |after|
    requires forall i :: 0 <= i < k ==> a[i].conn.messages == b[i].conn.messages
    ensures Echoes(a, after, k) == Echoes(b, after, k)
  {
    hide TextOf;
    if k > 0 {
      EchoesAside(a, b, after, k - 1);
    }
  }

  lemma TurnSays(s: Server, t: Turn)
    requires Inv(s) && HonestTurn(s, t)
    ensures Says(s, t, AfterTurn(s, t))
  {
    hide Connected, Echoes, Inv, PolledOnce, HonestEcho, EchoFirst, LineSaid, Listed;
    var d := Listed(s, t);
    var before := Connected(Joined(s, t.joins).peers);
    ListedSays(s, t);
    ListedOpen(s, t);
    EchoSays(d, |d.peers|, t.polls);
    var s' := AfterTurn(s, t);
    EchoesAside(before, d.peers, s'.peers, |before|);
    var line, echoes := LineSaid(t.line), Echoes(before, s'.peers, |before|);
    assert (s.broadcasts + line) + echoes == s.broadcasts + (line + echoes);
    forall k | 0 <= k < |before|
      ensures PolledOnce(before[k], t.polls[k], s'.peers[k]) && s'.peers[k].log == before[k].log + (line + echoes)
    {
      PolledOnceBefore(before[k], d.peers[k], t.polls[k], s'.peers[k]);
      assert (before[k].log + line) + echoes == before[k].log + (line + echoes);
    }
    assert s.peers + [] == s.peers;
  }

  lemma PolledOnceBefore(p: Peer, p': Peer, poll: Polling, q: Peer)
    requires OnlySent(p, p') && PolledOnce(p', poll, q)
    ensures PolledOnce(p, poll, q)
  {
    hide Dispatch, S.SystemReceive, S.Failed;
  }

  lemma ListedOpen(s: Server, t: Turn)
    requires Inv(s)
    ensures Inv(Listed(s, t)) && forall k :: 0 <= k < |Listed(s, t).peers| ==> Listed(s, t).peers[k].conn.ready != CLOSED
  {
    hide Connected, PeerInv, Joined, Broadcast, CString;
    JoinedKeepsInv(s, t.joins);
    if t.line.Some? {
      BroadcastKeepsInv(Joined(s, t.joins), t.line.value);
    }
    ConnectedSubset(Typed(Joined(s, t.joins), t.line).peers);
  }

  /** In every run of the server, turn by turn: the broadcasts grow by the console line and the clients'
      messages, and every listed client is sent exactly these. */
  lemma RunSays(turns: seq<Turn>, n: nat)
    requires HonestRun(EMPTY, turns) && n < |turns|
    ensures Says(AfterTurns(EMPTY, turns[..n]), turns[n], AfterTurns(EMPTY, turns[..n + 1]))
  {
    hide Says, AfterTurn, HonestTurn, Inv;
    NothingInv();
    TurnsKeepInv(EMPTY, turns[..n]);
    TurnSays(AfterTurns(EMPTY, turns[..n]), turns[n]);
    assert turns[..n + 1][..n] == turns[..n];
  }

  lemma NothingInv()
    ensures Inv(EMPTY)
  {
  }

  // What the clients' users see.

  ghost predicate CleanLine(t: Turn) {
    t.line.Some? ==> Clean(CString(t.line.value))
  }

  /** Cutting a clean C string to the length `sendText` takes leaves it clean. */
  lemma TextOfClean(str: seq<byte>)
    requires Clean(CString(str))
    ensures Clean(TextOf(str))
  {
    hide CString;
    var t := TextOf(str);
    forall i: nat ensures !EndAt(t, i) {
      assert !EndAt(CString(str), i);
    }
  }

  /** A message that a poll delivers is clean, whatever the client sent, and fits a buffer. */
  lemma NewsClean(conn: S.Session, io: S.PollIo)
    ensures var news := News(conn, Polled(conn, io));
      news.Some? ==> Clean(news.value) && |news.value| <= MAX_BUFFER_SIZE
  {
    hide Dispatch, Clean;
    DispatchClean(conn.rx + io.incoming);
    DispatchBounded(conn.rx + io.incoming);
  }

  lemma EchoOneKeepsClean(s: Server, k: nat, poll: Polling)
    requires AllClean(s.broadcasts) && k < |s.peers|
    ensures AllClean(EchoOne(s, k, poll).broadcasts)
  {
    var io := poll.io;
    hide Clean, Polled, SentFirst, TextOf, News, CString;
    var news := News(s.peers[k].conn, Polled(s.peers[k].conn, io));
    NewsClean(s.peers[k].conn, io);
    if news.Some? {
      CleanIsCString(news.value);
      TextOfClean(news.value);
    }
  }

  lemma CleanIsCString(t: Text)
    requires Clean(t)
    ensures CString(t) == t
  {
  }

  lemma {:induction false} EchoKeepsClean(s: Server, k: nat, polls: seq<Polling>)
    requires AllClean(s.broadcasts) && k <= |s.peers|
    ensures AllClean(EchoFirst(s, k, polls).broadcasts)
  {
    hide EchoOne, AllClean;
    if k > 0 {
      EchoKeepsClean(s, k - 1, polls);
      if k <= |polls| {
        EchoOneKeepsClean(EchoFirst(s, k - 1, polls), k - 1, polls[k - 1]);
      }
    }
  }

  lemma TurnKeepsClean(s: Server, t: Turn)
    requires AllClean(s.broadcasts) && CleanLine(t)
    ensures AllClean(AfterTurn(s, t).broadcasts)
  {
    hide Clean, Connected, EchoFirst, CString, SentFirst, TextOf;
    if t.line.Some? {
      TextOfClean(t.line.value);
    }
    var dropped := Listed(s, t);
    EchoKeepsClean(dropped, |dropped.peers|, t.polls);
  }

  lemma {:induction false} TurnsKeepClean(s: Server, turns: seq<Turn>)
    requires AllClean(s.broadcasts) && forall k :: 0 <= k < |turns| ==> CleanLine(turns[k])
    ensures AllClean(AfterTurns(s, turns).broadcasts)
  {
    hide AllClean, CleanLine, AfterTurn;
    if turns != [] {
      TurnsKeepClean(s, turns[..|turns| - 1]);
      TurnKeepsClean(AfterTurns(s, turns[..|turns| - 1]), turns[|turns| - 1]);
    }
  }

  /** In every run whose console lines are clean, whatever the clients send and however much of its
      stream each has received, the users of two listed clients without cut frames have been shown
      the same text at every position of the common order that both have reached. */
  lemma EveryoneSeesOneOrder(turns: seq<Turn>, i: nat, j: nat, receivedI: seq<byte>, receivedJ: seq<byte>, k: nat)
    requires forall k :: 0 <= k < |turns| ==> CleanLine(turns[k])
    requires var s := AfterTurns(EMPTY, turns);
      && i < |s.peers| && j < |s.peers| && s.peers[i].joined <= s.peers[j].joined
      && s.peers[i].lossless && receivedI <= s.peers[i].conn.accepted
      && s.peers[j].lossless && receivedJ <= s.peers[j].conn.accepted
      && s.peers[j].joined - s.peers[i].joined + k < |Dispatch(receivedI).messages|
      && k < |Dispatch(receivedJ).messages|
    ensures var s := AfterTurns(EMPTY, turns);
      Dispatch(receivedJ).messages[k] == Dispatch(receivedI).messages[s.peers[j].joined - s.peers[i].joined + k]
  {
    hide AfterTurns, Dispatch, Clean, CleanLine, PeerInv;
    var s := AfterTurns(EMPTY, turns);
    TurnsKeepInv(EMPTY, turns);
    TurnsKeepClean(EMPTY, turns);
    Shown(s.broadcasts, s.peers[i], receivedI);
    Shown(s.broadcasts, s.peers[j], receivedJ);
  }

  /** What one client's user is shown is a prefix of the broadcasts since it joined. */
  lemma Shown(broadcasts: seq<Text>, p: Peer, received: seq<byte>)
    requires AllClean(broadcasts) && PeerInv(p, broadcasts) && p.lossless
    requires received <= p.conn.accepted
    ensures p.joined <= |broadcasts| && Dispatch(received).messages <= p.log == broadcasts[p.joined..]
  {
    hide Clean, Dispatch, EncodeAll;
    DispatchEncoded(p.log);
    assert p.conn.accepted <= p.conn.enqueued;
    PrefixMessages(received, EncodeAll(p.log));
  }

  lemma {:induction false} ConnectedErase(peers: seq<Peer>, i: nat)
    requires i < |peers| && peers[i].conn.ready == CLOSED
    ensures Connected(peers[..i] + peers[i + 1..]) == Connected(peers)
  {
    var rest := peers[..i] + peers[i + 1..];
    if i == 0 {
      assert rest == peers[1..];
    } else {
      ConnectedErase(peers[1..], i - 1);
      assert rest[1..] == peers[1..][..i - 1] + peers[1..][i..];
    }
  }

  lemma {:induction false} ConnectedAll(peers: seq<Peer>)
    requires forall i :: 0 <= i < |peers| ==> peers[i].conn.ready != CLOSED
    ensures Connected(peers) == peers
  {
    if peers != [] {
      ConnectedAll(peers[1..]);
    }
  }

  // The program.

  /** A new connection, as its owner sees it. */
  method OpenClient(socket: Wsocket) returns (client: SocketChat)
    requires socket.Valid() && socket.received == [] && socket.accepted == [] && socket.calls == []
    ensures client.Valid() && client.socket == socket && client.Abs() == S.NEW
    ensures {client, client.receiveBuffer, client.transmitBuffer, socket, socket.reader, socket.writer} <= client.Footprint()
    ensures client.Footprint() == client.Own() + {socket} + socket.Rings() && fresh(client.Own())
  {
    hide SocketChat.Valid, SocketChat.Abs, Wsocket.View, Wsocket.Valid;
    client := new SocketChat(socket);
  }

  /** A poll, as its owner sees it. */
  method PollClient(client: SocketChat, inbox: Callback) returns (newMessage: Option<Text>, ghost poll: Polling)
    requires client.Valid() && !client.socket.shared
    modifies client.Footprint(), inbox
    ensures client.Valid() && fresh(client.Footprint() - old(client.Footprint()))
    ensures client.socket.Rings() == old(client.socket.Rings())
    ensures HonestPoll(old(client.Abs()), old(client.socket.Pending()), poll) && client.socket.Pending() == poll.left
    ensures client.Abs() == Polled(old(client.Abs()), poll.io)
    ensures newMessage == News(old(client.Abs()), client.Abs())
  {
    hide SocketChat.Valid, SocketChat.Abs, S.AfterPoll, S.Possible, SharedPoll, Narrowed, Wsocket.View, Wsocket.Valid;
    hide S.SystemPoll;
    ghost var before := client.Abs();
    inbox.Forget();
    ghost var io := client.Poll(inbox, 1);
    poll := Polling(io, client.socket.Pending());
    S.PollOnlyAdds(before, io, true, 1);
    newMessage := if inbox.haveMessage then Some(inbox.message) else None;
  }

  method SendToClient(client: SocketChat, str: seq<byte>)
    requires client.Valid() && |TextOf(str)| <= MAX_BUFFER_SIZE
    modifies client.Footprint()
    ensures client.Valid() && fresh(client.Footprint() - old(client.Footprint()))
    ensures client.socket.Rings() == old(client.socket.Rings())
    ensures client.Abs() == S.AfterSendText(old(client.Abs()), TextOf(str))
    ensures client.socket.Pending() == old(client.socket.Pending())
  {
    hide S.AfterSendText, TextSent, Wsocket.View, Wsocket.Valid, GrowExact;
    SmallIsExact(client.transmitBuffer.Win(), MAX_BUFFER_SIZE, |TextOf(str)|);
    hide SocketChat.Valid, Exact;
    client.SendText(Some(str));
  }

  class ClientConnection {
    const id: nat
    const client: SocketChat
    const inbox: Callback          // this object in its role as the callback of its polls
    ghost const joined: nat
    ghost var log: seq<Text>       // every text passed to sendText
    ghost var lossless: bool       // every frame found room
    ghost var Repr: set<object>    // everything this client depends on

    ghost predicate Valid()
      reads this, Repr
      ensures Valid() ==> this in Repr
    {
      && this in Repr && inbox in Repr && client in Repr
      && client.receiveBuffer in Repr && client.transmitBuffer in Repr
      && client.socket in Repr && client.socket.reader in Repr && client.socket.writer in Repr
      && client.socket.Rings() <= Repr && client.Footprint() <= Repr
      && this !in client.socket.Rings() && inbox !in client.socket.Rings()
      && this !in client.Footprint() && inbox !in client.Footprint() && client.Valid() && !client.socket.shared
    }

    ghost function View(): Peer
      requires Valid()
      reads this, Repr
    {
      Peer(id, joined, client.Abs(), client.socket.Pending(), log, lossless)
    }

    constructor (id: nat, client: SocketChat, inbox: Callback, ghost joined: nat, ghost footprint: set<object>)
      requires footprint == client.Footprint() && client.Valid() && client.Abs() == S.NEW && inbox !in client.Footprint()
      requires !client.socket.shared && client.socket.Rings() <= client.Footprint()
      requires {client, client.receiveBuffer, client.transmitBuffer, client.socket,
                client.socket.reader, client.socket.writer} <= client.Footprint()
      ensures Valid() && View() == NewPeer(id, joined, client.socket.Pending())
      ensures Repr == {this, inbox} + footprint
    {
      hide SocketChat.Valid, SocketChat.Abs, SocketChat.Footprint, Wsocket.Rings;
      this.id, this.joined, this.client, this.inbox := id, joined, client, inbox;
      log, lossless := [], true;
      Repr := {this, inbox} + footprint;
      new;
      assert this !in footprint;
    }

    /** Polls the connection and hands out the last message that poll delivered. */
    method GetMessage() returns (newMessage: Option<Text>, ghost poll: Polling)
      requires Valid()
      modifies Repr
      ensures Valid() && fresh(Repr - old(Repr))
      ensures Honest(old(View()), poll) && View() == PolledPeer(old(View()), poll)
      ensures newMessage == News(old(View()).conn, View().conn)
    {
      hide SocketChat.Valid, SocketChat.Abs, SocketChat.Footprint, Wsocket.Rings, Polled, News, HonestPoll;
      newMessage, poll := PollClient(client, inbox);
      Repr := Repr + client.Footprint();
    }

    method SendText(str: seq<byte>)
      requires Valid() && |TextOf(str)| <= MAX_BUFFER_SIZE
      modifies Repr
      ensures Valid() && fresh(Repr - old(Repr))
      ensures View() == Sent(old(View()), TextOf(str))
    {
      hide SocketChat.Valid, SocketChat.Abs, SocketChat.Footprint, Wsocket.Rings, S.AfterSendText, TextSent, FrameFits, Exact;
      ghost var fits := FrameFits(client.Abs().tw, |TextOf(str)|);
      SendToClient(client, str);
      log, lossless := log + [TextOf(str)], lossless && fits;
      Repr := Repr + client.Footprint();
    }

    predicate IsConnected()
      reads client
    {
      client.readyState != CLOSED
    }
  }

  class SimpleServer {
    var clients: seq<ClientConnection>
    ghost var broadcasts: seq<Text>
    ghost var Repr: set<object>

    /** The clients share nothing. */
    ghost predicate Valid()
      reads this, Repr
    {
      && this in Repr
      && (forall i :: 0 <= i < |clients| ==>
            clients[i] in Repr && clients[i].Repr <= Repr && this !in clients[i].Repr && clients[i].Valid())
      && (forall i, j :: 0 <= i < j < |clients| ==> clients[i].Repr !! clients[j].Repr)
    }

    ghost function Views(): (peers: seq<Peer>)
      requires Valid()
      reads this, Repr
      ensures |peers| == |clients|
      ensures forall i :: 0 <= i < |peers| ==> peers[i] == clients[i].View()
    {
      seq(|clients|, i requires 0 <= i < |clients| reads this, Repr requires Valid() => clients[i].View())
    }

    ghost function Abs(): Server
      requires Valid()
      reads this, Repr
    {
      Server(Views(), broadcasts)
    }

    constructor ()
      ensures Valid() && Abs() == EMPTY && fresh(Repr)
    {
      clients, broadcasts := [], [];
      Repr := {this};
    }

    /** Sends a text to the `k`-th client. */
    method SendTo(k: nat, str: seq<byte>)
      requires Valid() && k < |clients| && |TextOf(str)| <= MAX_BUFFER_SIZE
      modifies Repr
      ensures Valid() && fresh(Repr - old(Repr)) && clients == old(clients) && broadcasts == old(broadcasts)
      ensures Views() == old(Views())[k := Sent(old(Views())[k], TextOf(str))]
    {
      hide ClientConnection.Valid, ClientConnection.View, Sent, TextOf;
      clients[k].SendText(str);
      Repr := Repr + clients[k].Repr;
    }

    /** Polls the `k`-th client. */
    method PollOne(k: nat) returns (newMessage: Option<Text>, ghost poll: Polling)
      requires Valid() && k < |clients|
      modifies Repr
      ensures Valid() && fresh(Repr - old(Repr)) && clients == old(clients) && broadcasts == old(broadcasts)
      ensures Honest(old(Views())[k], poll)
      ensures Views() == old(Views())[k := PolledPeer(old(Views())[k], poll)]
      ensures newMessage == News(old(Views())[k].conn, Views()[k].conn)
    {
      hide ClientConnection.Valid, ClientConnection.View, PolledPeer, News, Honest;
      newMessage, poll := clients[k].GetMessage();
      Repr := Repr + clients[k].Repr;
    }

    /** A new client goes to the end of the list. */
    method Join(script: Script)
      requires Valid()
      modifies this
      ensures Valid() && fresh(Repr - old(Repr)) && Abs() == Joined(old(Abs()), Some(script))
    {
      hide ClientConnection.Valid, ClientConnection.View, NewPeer;
      var index := |clients| + 1;
      var cc := NewConnection(index, script, |broadcasts|);
      clients := clients + [cc];
      Repr := Repr + cc.Repr;
    }

    /** Sends a text to every client in the list. */
    method SendToAll(str: seq<byte>)
      requires Valid() && |TextOf(str)| <= MAX_BUFFER_SIZE
      modifies Repr
      ensures Valid() && fresh(Repr - old(Repr)) && clients == old(clients)
      ensures Abs() == Broadcast(old(Abs()), str)
      ensures broadcasts == old(broadcasts) + [TextOf(str)]
      ensures forall i :: 0 <= i < |clients| ==>
        && Views()[i].log == old(Views())[i].log + [TextOf(str)]
        && Views()[i].conn.tx == old(Views())[i].conn.tx + Appending(old(Views())[i].conn.tw, TextOf(str))
        && Views()[i].conn.accepted == old(Views())[i].conn.accepted
    {
      hide SimpleServer.Valid, SimpleServer.Views, Sent, TextOf;
      InRepr();
      ghost var peers := Views();
      for k := 0 to |clients|
        invariant Valid() && fresh(Repr - old(Repr)) && clients == old(clients) && broadcasts == old(broadcasts)
        invariant Views() == SentFirst(peers, k, TextOf(str))
      {
        SendTo(k, str);
      }
      Record(TextOf(str));
      forall i | 0 <= i < |clients|
        ensures Sent(peers[i], TextOf(str)).log == peers[i].log + [TextOf(str)]
        ensures Sent(peers[i], TextOf(str)).conn.tx == peers[i].conn.tx + Appending(peers[i].conn.tw, TextOf(str))
        ensures Sent(peers[i], TextOf(str)).conn.accepted == peers[i].conn.accepted
      {
        SentAppends(peers[i], TextOf(str));
      }
    }

    ghost method Record(text: Text)
      requires Valid()
      modifies this`broadcasts
      ensures Valid() && Views() == old(Views()) && broadcasts == old(broadcasts) + [text]
    {
      hide ClientConnection.Valid, ClientConnection.View;
      broadcasts := broadcasts + [text];
    }

    /** Takes dropped clients off the list, one at a time, starting over after each. */
    method DropClosed()
      requires Valid()
      modifies this`clients
      ensures Valid() && Abs() == Dropped(old(Abs()))
    {
      hide Connected, SimpleServer.Valid, SimpleServer.Views;
      var killed := true;
      while killed
        invariant Valid() && Connected(Views()) == Connected(old(Views()))
        invariant !killed ==> forall i :: 0 <= i < |clients| ==> Views()[i].conn.ready != CLOSED
        decreases |clients|, killed
      {
        killed := false;
        var n := |clients|;
        for i := 0 to n
          invariant !killed && Valid() && |clients| == n && Connected(Views()) == Connected(old(Views()))
          invariant forall k :: 0 <= k < i ==> Views()[k].conn.ready != CLOSED
        {
          Ready(i);
          if !clients[i].IsConnected() {
            killed := true;
            Erase(i);
            break;
          }
        }
      }
      ConnectedAll(Views());
    }

    /** A client is connected when its connection is not closed. */
    lemma Ready(i: nat)
      requires Valid() && i < |clients|
      ensures clients[i].IsConnected() <==> Views()[i].conn.ready != CLOSED
    {
      hide ClientConnection.Valid;
    }

    /** Takes the closed client at `i` off the list; the others keep their places. */
    method Erase(i: nat)
      requires Valid() && i < |clients| && Views()[i].conn.ready == CLOSED
      modifies this`clients
      ensures Valid() && |clients| == |old(clients)| - 1
      ensures Connected(Views()) == Connected(old(Views()))
    {
      hide Connected, ClientConnection.Valid, ClientConnection.View;
      ghost var peers := Views();
      ConnectedErase(peers, i);
      clients := clients[..i] + clients[i + 1..];
      assert Views() == peers[..i] + peers[i + 1..];
    }

    /** Polls a client and sends what it said to all. */
    method EchoClient(k: nat) returns (ghost poll: Polling)
      requires Valid() && k < |clients|
      modifies Repr
      ensures Valid() && fresh(Repr - old(Repr)) && clients == old(clients)
      ensures Honest(old(Abs()).peers[k], poll) && Abs() == EchoOne(old(Abs()), k, poll)
    {
      hide SimpleServer.Valid, SimpleServer.Views, Polled, News, Broadcast, TextOf, Honest;
      ghost var before := Views()[k].conn;
      var newMessage;
      newMessage, poll := PollOne(k);
      if newMessage.Some? {
        NewsShort(before, Views()[k].conn, poll.io, newMessage.value);
        SendToAll(newMessage.value);
      }
    }

    /** Polls every client in turn and echoes what it says to all. */
    method Echo() returns (ghost polls: seq<Polling>)
      requires Valid()
      modifies Repr
      ensures Valid() && fresh(Repr - old(Repr)) && clients == old(clients)
      ensures |polls| == |clients| && HonestEcho(old(Abs()), polls)
      ensures Abs() == EchoFirst(old(Abs()), |clients|, polls)
    {
      hide SimpleServer.Valid, SimpleServer.Views, EchoOne, Honest, EchoFirst, HonestEcho;
      NoEcho(Abs());
      polls := [];
      for k := 0 to |clients|
        invariant Valid() && fresh(Repr - old(Repr)) && clients == old(clients)
        invariant |polls| == k && |Abs().peers| == |clients| && Abs() == EchoFirst(old(Abs()), k, polls)
        invariant HonestEcho(old(Abs()), polls)
      {
        ghost var poll := EchoClient(k);
        HonestFurther(old(Abs()), polls, poll);
        polls := polls + [poll];
      }
    }

    /** The first half of a turn: someone may join, and a line typed at the console goes to all. */
    method Accept(e: Event) returns (exit: bool)
      requires Valid() && (e.line.Some? ==> |e.line.value| <= MAX_BUFFER_SIZE)
      modifies Repr
      ensures Valid() && fresh(Repr - old(Repr)) && exit == Exits(e.line)
      ensures Abs() == Typed(Joined(old(Abs()), e.joins), e.line)
    {
      hide SimpleServer.Valid, SimpleServer.Abs, Broadcast, NewPeer, CString;
      InRepr();
      exit := false;
      if e.joins.Some? {
        Join(e.joins.value);
      }
      if e.line.Some? {
        if IsExit(CString(e.line.value)) {
          exit := true;
        } else {
          TextOfShort(e.line.value);
          SendToAll(e.line.value);
        }
      }
    }

    lemma InRepr()
      requires Valid()
      ensures this in Repr
    {
    }

    /** One turn of the loop; the turn it was is known once the clients have been polled. */
    method TakeTurn(e: Event) returns (exit: bool, ghost t: Turn)
      requires Valid() && (e.line.Some? ==> |e.line.value| <= MAX_BUFFER_SIZE)
      modifies Repr
      ensures Valid() && fresh(Repr - old(Repr)) && exit == Exits(e.line)
      ensures t.joins == e.joins && t.line == e.line
      ensures HonestTurn(old(Abs()), t) && Abs() == AfterTurn(old(Abs()), t)
    {
      hide SimpleServer.Valid, EchoFirst, Typed, Joined, Connected, Exits, HonestEcho;
      InRepr();
      exit := Accept(e);
      DropClosed();
      ghost var polls := Echo();
      t := Turn(e.joins, e.line, polls);
    }

    /** The loop, for as long as the outside gives it events, until a line says stop. */
    method Run(events: seq<Event>) returns (ghost turns: seq<Turn>)
      requires Valid() && forall k :: 0 <= k < |events| && events[k].line.Some? ==> |events[k].line.value| <= MAX_BUFFER_SIZE
      modifies Repr
      ensures Valid() && HonestRun(old(Abs()), turns) && Abs() == AfterTurns(old(Abs()), turns)
      ensures |turns| <= |events|
      ensures forall k :: 0 <= k < |turns| ==> turns[k].joins == events[k].joins && turns[k].line == events[k].line
      ensures forall k :: 0 <= k < |turns| - 1 ==> !Exits(turns[k].line)
      ensures |turns| < |events| ==> turns != [] && Exits(turns[|turns| - 1].line)
    {
      hide SimpleServer.Valid, SimpleServer.Abs, AfterTurn, Exits, HonestTurn;
      turns := [];
      var exit := false;
      var k := 0;
      while !exit && k < |events|
        invariant Valid() && fresh(Repr - old(Repr)) && |turns| == k <= |events|
        invariant HonestRun(old(Abs()), turns) && Abs() == AfterTurns(old(Abs()), turns)
        invariant forall j :: 0 <= j < k ==> turns[j].joins == events[j].joins && turns[j].line == events[j].line
        invariant forall j :: 0 <= j < k - 1 ==> !Exits(turns[j].line)
        invariant k > 0 ==> exit == Exits(turns[k - 1].line)
        invariant k == 0 ==> !exit
        decreases |events| - k
      {
        ghost var t;
        exit, t := TakeTurn(events[k]);
        assert (turns + [t])[..k] == turns;
        RunFurther(old(Abs()), turns, t);
        turns := turns + [t];
        k := k + 1;
      }
    }
  }

  /** What the loop is given from outside: a client that connects, and a line typed. */
  datatype Event = Event(joins: Option<Script>, line: Option<seq<byte>>)

  /** A client that has just connected. */
  method NewConnection(id: nat, script: Script, ghost joined: nat) returns (cc: ClientConnection)
    ensures cc.Valid() && cc.View() == NewPeer(id, joined, script) && fresh(cc.Repr)
  {
    hide SocketChat.Valid, SocketChat.Abs, SocketChat.Footprint, Wsocket.Rings, Wsocket.Valid, ClientConnection.Valid;
    var inbox := new Callback();
    var socket := new Wsocket.OfSystem(script.arrivals, script.acceptances);
    ghost var rings := socket.Rings();
    var client := OpenClient(socket);
    ghost var footprint := client.Footprint();
    assert fresh(footprint);
    cc := new ClientConnection(id, client, inbox, joined, footprint);
  }

  lemma TextOfShort(str: seq<byte>)
    ensures |TextOf(str)| <= |str|
  {
    hide CString;
  }

  lemma NewsShort(before: S.Session, after: S.Session, io: S.PollIo, message: Text)
    requires after == Polled(before, io) && News(before, after) == Some(message)
    ensures |TextOf(message)| <= MAX_BUFFER_SIZE
  {
    hide Polled, News, TextOf;
    NewsClean(before, io);
    TextOfShort(message);
  }

  /** Later polls do not change what earlier ones came to. */
  lemma {:induction false} EchoPrefix(s: Server, k: nat, polls: seq<Polling>, poll: Polling)
    requires k <= |s.peers| && k <= |polls|
    ensures EchoFirst(s, k, polls + [poll]) == EchoFirst(s, k, polls)
  {
    hide EchoOne;
    if k > 0 {
      EchoPrefix(s, k - 1, polls, poll);
    }
  }

  lemma NoEcho(s: Server)
    ensures EchoFirst(s, 0, []) == s && HonestEcho(s, [])
  {
  }

  lemma HonestFurther(s: Server, polls: seq<Polling>, poll: Polling)
    requires |polls| < |s.peers| && HonestEcho(s, polls) && Honest(EchoFirst(s, |polls|, polls).peers[|polls|], poll)
    ensures HonestEcho(s, polls + [poll])
    ensures EchoFirst(s, |polls| + 1, polls + [poll]) == EchoOne(EchoFirst(s, |polls|, polls), |polls|, poll)
  {
    hide Honest, EchoOne, EchoFirst;
    var more := polls + [poll];
    forall i | 0 <= i < |more| ensures Honest(EchoFirst(s, i, more).peers[i], more[i]) {
      EchoPrefix(s, i, polls, poll);
    }
    EchoPrefix(s, |polls|, polls, poll);
    EchoNext(s, |polls|, more);
  }

  lemma EchoNext(s: Server, k: nat, polls: seq<Polling>)
    requires k < |s.peers| && k < |polls|
    ensures EchoFirst(s, k + 1, polls) == EchoOne(EchoFirst(s, k, polls), k, polls[k])
  {
    hide EchoOne;
  }

  lemma RunFurther(s: Server, turns: seq<Turn>, t: Turn)
    requires HonestRun(s, turns) && HonestTurn(AfterTurns(s, turns), t)
    ensures HonestRun(s, turns + [t])
  {
    hide HonestTurn, AfterTurns;
    var more := turns + [t];
    forall n | 0 <= n < |more| ensures HonestTurn(AfterTurns(s, more[..n]), more[n]) {
      assert more[..n] == turns[..n];
      assert n == |turns| ==> turns[..n] == turns;
    }
  }
}
