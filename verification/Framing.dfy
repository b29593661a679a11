/** Message framing: a text travels as its bytes followed by CR LF, and the receiver cuts its stream
    at every CR LF. */
module Framing {
  import opened Words

  const CR: byte := 13
  const LF: byte := 10
  const NUL: byte := 0
  const END: seq<byte> := [CR, LF]

  type Text = seq<byte>

  /** The C string that starts at these bytes: everything before the first NUL. */
  function CString(s: seq<byte>): (t: Text)
    ensures t <= s && NUL !in t
    ensures t == s <==> NUL !in s
  {
    if s == [] || s[0] == NUL then [] else [s[0]] + CString(s[1..])
  }

  /** A C string ends at the latest where a NUL was put. */
  lemma {:induction false} CStringStops(s: seq<byte>, k: nat)
    requires k < |s| && s[k] == NUL
    ensures CString(s) == CString(s[..k])
  {
    if k > 0 && s[0] != NUL {
      CStringStops(s[1..], k - 1);
      assert s[1..][..k - 1] == s[..k][1..];
    }
  }

  ghost predicate EndAt(s: seq<byte>, i: nat) {
    i + 1 < |s| && s[i] == CR && s[i + 1] == LF
  }

  /** No CR is directly followed by an LF. */
  ghost predicate NoEnd(s: seq<byte>) {
    forall i: nat :: !EndAt(s, i)
  }

  /** What a text must satisfy to survive framing unchanged. */
  ghost predicate Clean(t: Text) {
    NoEnd(t) && NUL !in t
  }

  ghost predicate AllClean(texts: seq<Text>) {
    forall i :: 0 <= i < |texts| ==> Clean(texts[i])
  }

  function Encode(text: Text): seq<byte> {
    text + END
  }

  function EncodeAll(texts: seq<Text>): seq<byte> {
    if texts == [] then [] else Encode(texts[0]) + EncodeAll(texts[1..])
  }

  /** The position of the first CR LF, or the length when there is none. */
  function FindEnd(s: seq<byte>): (end: nat)
    ensures end <= |s|
    ensures forall i: nat :: i < end ==> !EndAt(s, i)
    ensures end < |s| ==> EndAt(s, end)
  {
    if |s| < 2 then |s|
    else if s[0] == CR && s[1] == LF then 0
    else
      var end := FindEnd(s[1..]);
      assert forall i: nat :: i > 0 ==> EndAt(s, i) == EndAt(s[1..], i - 1);
      end + 1
  }

  /** What dispatching a stream delivers, and the bytes it leaves in the receive buffer. */
  datatype Dispatched = Dispatched(messages: seq<Text>, rest: seq<byte>)

  function Dispatch(s: seq<byte>): Dispatched {
    var end := FindEnd(s);
    if end == |s| then Dispatched([], s)
    else
      var d := Dispatch(s[end + 2..]);
      Dispatched([CString(s[..end])] + d.messages, d.rest)
  }

  lemma FindEndUnique(s: seq<byte>, end: nat)
    requires EndAt(s, end) && forall i: nat :: i < end ==> !EndAt(s, i)
    ensures FindEnd(s) == end
  {
    var e := FindEnd(s);
    assert e < |s| ==> EndAt(s, e);
  }

  /** Every delivered message is clean, whatever the stream, and the rest holds no complete message. */
  lemma {:induction false} DispatchClean(s: seq<byte>)
    ensures AllClean(Dispatch(s).messages) && NoEnd(Dispatch(s).rest)
    decreases |s|
  {
    var end := FindEnd(s);
    if end < |s| {
      DispatchClean(s[end + 2..]);
      var text := CString(s[..end]);
      forall i: nat ensures !EndAt(text, i) {
        if EndAt(text, i) { assert EndAt(s, i); }
      }
    } else {
      forall i: nat ensures !EndAt(s, i) {
        if i >= end { assert !EndAt(s, i); }
      }
    }
  }

  /** One turn of the dispatch loop. */
  lemma {:induction false} DispatchCut(s: seq<byte>)
    ensures var end := FindEnd(s);
      Dispatch(s) == if end == |s| then Dispatched([], s)
                     else Dispatched([CString(s[..end])] + Dispatch(s[end + 2..]).messages, Dispatch(s[end + 2..]).rest)
  {
    hide FindEnd, CString;
  }

  /** Bytes without a CR LF stay where they are. */
  lemma DispatchNone(s: seq<byte>)
    requires NoEnd(s)
    ensures Dispatch(s) == Dispatched([], s)
  {
    assert FindEnd(s) < |s| ==> EndAt(s, FindEnd(s));
  }

  /** A message is no longer than the stream it comes in. */
  lemma {:induction false} DispatchBounded(s: seq<byte>)
    ensures forall m :: m in Dispatch(s).messages ==> |m| <= |s|
    decreases |s|
  {
    hide CString, FindEnd, Dispatch;
    DispatchCut(s);
    var end := FindEnd(s);
    if end < |s| {
      DispatchBounded(s[end + 2..]);
    }
  }

  /** Bytes with a CR LF deliver a message. */
  lemma DispatchSome(s: seq<byte>)
    requires !NoEnd(s)
    ensures Dispatch(s).messages != []
  {
    var i: nat :| EndAt(s, i);
    assert FindEnd(s) <= i;
  }

  lemma FirstEndStays(a: seq<byte>, b: seq<byte>)
    requires FindEnd(a) < |a|
    ensures FindEnd(a + b) == FindEnd(a)
  {
    var end, s := FindEnd(a), a + b;
    assert EndAt(s, end);
    forall i: nat | i < end ensures !EndAt(s, i) {
      assert !EndAt(a, i);
    }
    FindEndUnique(s, end);
  }

  /** Cutting a stream into two receives with a dispatch after each changes nothing. */
  lemma {:induction false} DispatchSplit(a: seq<byte>, b: seq<byte>)
    ensures var d := Dispatch(a); var e := Dispatch(d.rest + b);
      Dispatch(a + b) == Dispatched(d.messages + e.messages, e.rest)
    decreases |a|
  {
    hide FindEnd, CString, Dispatch;
    var end, s := FindEnd(a), a + b;
    DispatchCut(a);
    if end < |a| {
      FirstEndStays(a, b);
      DispatchCut(s);
      var head, tail := [CString(a[..end])], a[end + 2..];
      assert s[end + 2..] == tail + b && s[..end] == a[..end];
      DispatchSplit(tail, b);
      var d := Dispatch(tail);
      var e := Dispatch(d.rest + b);
      assert head + (d.messages + e.messages) == (head + d.messages) + e.messages;
    } else {
      assert [] + Dispatch(s).messages == Dispatch(s).messages;
    }
  }

  function Flatten(chunks: seq<seq<byte>>): seq<byte> {
    if chunks == [] then [] else chunks[0] + Flatten(chunks[1..])
  }

  /** Receives the chunks one by one behind the bytes already waiting, dispatching after each. */
  function DispatchChunks(waiting: seq<byte>, chunks: seq<seq<byte>>): Dispatched
    decreases |chunks|
  {
    if chunks == [] then Dispatched([], waiting)
    else
      var d := Dispatch(waiting + chunks[0]);
      var e := DispatchChunks(d.rest, chunks[1..]);
      Dispatched(d.messages + e.messages, e.rest)
  }

  /** Chunking independence: every partition of a stream into receives delivers the same messages and
      leaves the same bytes as one dispatch of the whole stream. */
  lemma {:induction false} ChunkingIndependence(waiting: seq<byte>, chunks: seq<seq<byte>>)
    requires NoEnd(waiting)
    ensures DispatchChunks(waiting, chunks) == Dispatch(waiting + Flatten(chunks))
    decreases |chunks|
  {
    if chunks == [] {
      assert waiting + [] == waiting;
      assert FindEnd(waiting) == |waiting|;
    } else {
      var first, later := waiting + chunks[0], Flatten(chunks[1..]);
      assert waiting + Flatten(chunks) == first + later;
      DispatchSplit(first, later);
      DispatchClean(first);
      ChunkingIndependence(Dispatch(first).rest, chunks[1..]);
    }
  }

  /** A clean text, also one that ends in CR or starts with LF, is cut off exactly where it ends. */
  lemma DispatchOne(text: Text, later: seq<byte>)
    requires Clean(text)
    ensures Dispatch(Encode(text) + later) ==
      Dispatched([text] + Dispatch(later).messages, Dispatch(later).rest)
  {
    var s := Encode(text) + later;
    assert EndAt(s, |text|);
    forall i: nat | i < |text| ensures !EndAt(s, i) {
      assert !EndAt(text, i);
    }
    FindEndUnique(s, |text|);
    assert s[..|text|] == text && s[|text| + 2..] == later;
  }

  lemma {:induction false} DispatchEncoded(texts: seq<Text>)
    requires AllClean(texts)
    ensures Dispatch(EncodeAll(texts)) == Dispatched(texts, [])
  {
    if texts != [] {
      assert Clean(texts[0]);
      DispatchOne(texts[0], EncodeAll(texts[1..]));
      DispatchEncoded(texts[1..]);
      assert [texts[0]] + texts[1..] == texts;
    }
  }

  /** Framing round trip: a list of texts arrives as it was sent, with nothing left over, if and only
      if every text is clean. */
  lemma RoundTrip(texts: seq<Text>)
    ensures Dispatch(EncodeAll(texts)) == Dispatched(texts, []) <==> AllClean(texts)
  {
    DispatchClean(EncodeAll(texts));
    if AllClean(texts) {
      DispatchEncoded(texts);
    }
  }

  /** What a relay receives it can send on: re-encoding delivered messages delivers them again. */
  lemma RelayRoundTrip(s: seq<byte>)
    ensures var texts := Dispatch(s).messages; Dispatch(EncodeAll(texts)) == Dispatched(texts, [])
  {
    DispatchClean(s);
    DispatchEncoded(Dispatch(s).messages);
  }

  lemma {:induction false} EncodeAllConcat(a: seq<Text>, b: seq<Text>)
    ensures EncodeAll(a + b) == EncodeAll(a) + EncodeAll(b)
  {
    if a == [] {
      assert a + b == b;
    } else {
      assert (a + b)[1..] == a[1..] + b;
      EncodeAllConcat(a[1..], b);
    }
  }

  /** The messages in a prefix of a stream are a prefix of the messages in the stream. */
  lemma PrefixMessages(s: seq<byte>, whole: seq<byte>)
    requires s <= whole
    ensures Dispatch(s).messages <= Dispatch(whole).messages
  {
    DispatchSplit(s, whole[|s|..]);
    assert s + whole[|s|..] == whole;
  }

  /** The bytes up to and including the first CR LF dispatch to one message and leave nothing. */
  lemma DispatchFirst(s: seq<byte>)
    requires FindEnd(s) < |s|
    ensures var end := FindEnd(s);
      Dispatch(s[..end + 2]) == Dispatched([CString(s[..end])], [])
  {
    hide CString, Dispatch;
    var end := FindEnd(s);
    var cut := s[..end + 2];
    assert EndAt(s, end) && EndAt(cut, end);
    forall i: nat | i < end ensures !EndAt(cut, i) {
      assert !EndAt(s, i);
    }
    FindEndUnique(cut, end);
    assert cut[..end] == s[..end] && cut[end + 2..] == [];
    DispatchCut(cut);
    DispatchNone([]);
  }

  /** Dispatching one more message behind a stream that left nothing. */
  lemma DispatchNext(before: seq<byte>, s: seq<byte>)
    requires Dispatch(before).rest == [] && FindEnd(s) < |s|
    ensures var end := FindEnd(s);
      Dispatch(before + s[..end + 2]) == Dispatched(Dispatch(before).messages + [CString(s[..end])], [])
  {
    hide Dispatch, CString, FindEnd;
    DispatchFirst(s);
    DispatchSplit(before, s[..FindEnd(s) + 2]);
    assert [] + s[..FindEnd(s) + 2] == s[..FindEnd(s) + 2];
  }
}
