/** Two connections over one pair of rings: how fast polling in turns moves what is outstanding. */
module Drain {
  import opened Words
  import opened RingIndex
  import opened Framing

  /** One direction: what the sender still has to send, what is in its ring, and the receiver's side. */
  datatype Link = Link(c: nat, tx: seq<byte>, queue: seq<byte>, rx: seq<byte>, messages: seq<Text>) {
    function Outstanding(): nat {
      |tx| + |queue|
    }
  }

  /** The sender polls: the ring takes what it has room for. */
  ghost function SenderTurn(l: Link): Link {
    var n := Min(|l.tx|, Room(l.c, |l.queue|));
    l.(tx := l.tx[n..], queue := l.queue + l.tx[..n])
  }

  lemma SenderTurnKeeps(l: Link)
    ensures SenderTurn(l).rx == l.rx && |SenderTurn(l).queue| <= l.Outstanding()
  {
  }

  /** The receiver polls: it takes what is in the ring and dispatches. */
  ghost function ReceiverTurn(l: Link): Link {
    var d := Dispatch(l.rx + l.queue);
    l.(queue := [], rx := d.rest, messages := l.messages + d.messages)
  }

  ghost function Round(l: Link): Link {
    ReceiverTurn(SenderTurn(l))
  }

  ghost function Rounds(l: Link, k: nat): Link {
    if k == 0 then l else Round(Rounds(l, k - 1))
  }

  /** A round moves exactly what is outstanding, or what the ring holds at most, whichever is less. */
  lemma RoundMoves(l: Link)
    requires 3 <= l.c && |l.queue| <= l.c - 2
    ensures Round(l).c == l.c && Round(l).queue == []
    ensures Round(l).Outstanding() == l.Outstanding() - Min(l.Outstanding(), l.c - 2)
  {
    hide Dispatch;
  }

  /** And it only moves: the stream of both sides together dispatches as before. */
  lemma RoundKeepsStream(l: Link)
    ensures var d := Dispatch(l.rx + l.queue + l.tx);
      Dispatched(Round(l).messages + Dispatch(Round(l).rx + Round(l).queue + Round(l).tx).messages,
                 Dispatch(Round(l).rx + Round(l).queue + Round(l).tx).rest)
        == Dispatched(l.messages + d.messages, d.rest)
  {
    hide Dispatch;
    var m, r := SenderTurn(l), Round(l);
    assert l.rx + l.queue + l.tx == (m.rx + m.queue) + m.tx by {
      assert l.tx == l.tx[..Min(|l.tx|, Room(l.c, |l.queue|))] + m.tx;
    }
    DispatchSplit(m.rx + m.queue, m.tx);
    assert r.rx + r.queue + r.tx == r.rx + m.tx;
    var d, e := Dispatch(m.rx + m.queue), Dispatch(r.rx + m.tx);
    assert (l.messages + d.messages) + e.messages == l.messages + (d.messages + e.messages);
  }

  lemma {:induction false} RoundsMove(l: Link, k: nat)
    requires 3 <= l.c && |l.queue| <= l.c - 2
    ensures var r := Rounds(l, k);
      && r.c == l.c && |r.queue| <= r.c - 2
      && r.Outstanding() == l.Outstanding() - Min(l.Outstanding(), k * (l.c - 2))
  {
    hide Round;
    if k > 0 {
      RoundsMove(l, k - 1);
      RoundMoves(Rounds(l, k - 1));
      assert k * (l.c - 2) == (k - 1) * (l.c - 2) + (l.c - 2);
    }
  }

  lemma {:induction false} RoundsKeepStream(l: Link, k: nat)
    ensures var r := Rounds(l, k); var d := Dispatch(l.rx + l.queue + l.tx); var e := Dispatch(r.rx + r.queue + r.tx);
      Dispatched(r.messages + e.messages, e.rest) == Dispatched(l.messages + d.messages, d.rest)
  {
    hide Dispatch, Round;
    if k > 0 {
      RoundsKeepStream(l, k - 1);
      RoundKeepsStream(Rounds(l, k - 1));
    }
  }

  function CeilDiv(a: nat, m: nat): nat
    requires m > 0
  {
    (a + m - 1) / m
  }

  lemma CeilDivIsFirst(a: nat, m: nat, k: nat)
    requires m > 0
    ensures a <= k * m <==> CeilDiv(a, m) <= k
  {
    var q, r := (a + m - 1) / m, (a + m - 1) % m;
    assert a + m - 1 == q * m + r;
    if q <= k {
      assert q * m <= k * m;
    } else {
      assert (k + 1) * m <= q * m;
      assert (k + 1) * m == k * m + m;
    }
  }

  /** Drain bound: without further sends everything outstanding has arrived after exactly
      ceil((T + s) / (C - 2)) rounds, not earlier; and then every complete message is dispatched. */
  lemma DrainBound(l: Link, k: nat)
    requires 3 <= l.c && |l.queue| <= l.c - 2 && NoEnd(l.rx)
    ensures Rounds(l, k).Outstanding() == 0 <==> CeilDiv(l.Outstanding(), l.c - 2) <= k
    ensures Rounds(l, k).Outstanding() == 0 ==>
      var d := Dispatch(l.rx + l.queue + l.tx);
      Rounds(l, k).messages == l.messages + d.messages && Rounds(l, k).rx == d.rest
  {
    hide Dispatch, Round, Rounds, CeilDiv, NoEnd;
    RoundsMove(l, k);
    CeilDivIsFirst(l.Outstanding(), l.c - 2, k);
    RoundsKeepStream(l, k);
    RestIncomplete(l, k);
    var r := Rounds(l, k);
    DispatchNone(r.rx);
    assert r.messages + [] == r.messages;
    if r.Outstanding() == 0 {
      assert r.rx + r.queue + r.tx == r.rx;
    }
  }

  lemma RestIncomplete(l: Link, k: nat)
    requires NoEnd(l.rx)
    ensures NoEnd(Rounds(l, k).rx)
  {
    hide Dispatch, NoEnd;
    if k > 0 {
      var m := SenderTurn(Rounds(l, k - 1));
      DispatchClean(m.rx + m.queue);
    }
  }

  /** What the next round needs to know about the rounds so far. */
  lemma NextRound(l: Link, k: nat)
    requires 3 <= l.c && |l.queue| <= l.c - 2
    ensures var r := Rounds(l, k);
      && Rounds(l, k + 1) == Round(r) && r.c == l.c
      && |r.rx| + r.Outstanding() <= |l.rx| + l.Outstanding()
      && (k > 0 ==> r.queue == [])
      && (r.Outstanding() > 0 ==> Round(r).Outstanding() < r.Outstanding())
  {
    hide Round;
    RoundsMove(l, k);
    RoundMoves(Rounds(l, k));
    RoundsShrink(l, k);
    if k > 0 {
      RoundsMove(l, k - 1);
      RoundMoves(Rounds(l, k - 1));
    }
  }

  lemma {:induction false} RoundsShrink(l: Link, k: nat)
    ensures |Rounds(l, k).rx| + Rounds(l, k).Outstanding() <= |l.rx| + l.Outstanding()
  {
    if k > 0 {
      RoundsShrink(l, k - 1);
      RoundShrinks(Rounds(l, k - 1));
    }
  }

  lemma RoundShrinks(l: Link)
    ensures |Round(l).rx| + Round(l).Outstanding() <= |l.rx| + l.Outstanding()
  {
    hide Dispatch;
    var m := SenderTurn(l);
    DispatchShrinks(m.rx + m.queue);
  }

  lemma {:induction false} DispatchShrinks(s: seq<byte>)
    ensures |Dispatch(s).rest| <= |s|
    decreases |s|
  {
    hide FindEnd, CString, Dispatch;
    DispatchCut(s);
    if FindEnd(s) < |s| {
      DispatchShrinks(s[FindEnd(s) + 2..]);
    }
  }
}
