/** The console handoff: a worker thread reads lines from the console into a buffer of one line, and
    `getInputLine` takes them out. One flag says whose turn it is. */
module InputLine {
  import opened Words
  import opened Framing

  const MAX_INPUT := 512

  /** What a successful `fgets` stores before its NUL: some bytes, fewer than the buffer holds, and a
      line feed at most at the end. */
  ghost predicate Chunk(c: seq<byte>) {
    0 < |c| < MAX_INPUT && forall i :: 0 <= i < |c| - 1 ==> c[i] != LF
  }

  function Stripped(t: Text): Text {
    if t != [] && t[|t| - 1] == LF then t[..|t| - 1] else t
  }

  /** The line a chunk stands for. A chunk that begins with a NUL is dropped. */
  function LineOf(chunk: seq<byte>): seq<Text> {
    var t := CString(chunk);
    if t == [] then [] else [Stripped(t)]
  }

  /** The lines typed at the console, in order. */
  function Lines(typed: seq<seq<byte>>): seq<Text> {
    if typed == [] then [] else Lines(typed[..|typed| - 1]) + LineOf(typed[|typed| - 1])
  }

  /** The non-empty C strings typed, in order. */
  function Strings(typed: seq<seq<byte>>): seq<Text> {
    if typed == [] then []
    else
      var t := CString(typed[|typed| - 1]);
      Strings(typed[..|typed| - 1]) + if t == [] then [] else [t]
  }

  lemma {:induction false} StringsSplit(a: seq<seq<byte>>, b: seq<seq<byte>>)
    ensures Strings(a + b) == Strings(a) + Strings(b)
    ensures |b| == 1 ==> Strings(b) == if CString(b[0]) == [] then [] else [CString(b[0])]
  {
    hide CString;
    if b == [] {
      assert a + b == a;
    } else {
      var n := |b| - 1;
      StringsSplit(a, b[..n]);
      assert (a + b)[..|a + b| - 1] == a + b[..n];
      assert n == 0 ==> b[..n] == [];
    }
  }

  /** The string without its line feed, if it ends in one; else the string. */
  ghost predicate IsLineOf(line: Text, t: Text) {
    line + [LF] == t || (line == t && (t == [] || t[|t| - 1] != LF))
  }

  lemma StrippedIsLine(t: Text)
    ensures IsLineOf(Stripped(t), t)
    ensures forall line :: IsLineOf(line, t) ==> line == Stripped(t)
  {
    forall line | IsLineOf(line, t) ensures line == Stripped(t) {
      if line + [LF] == t {
        assert t[..|t| - 1] == line;
      }
    }
    if t != [] && t[|t| - 1] == LF {
      assert t[..|t| - 1] + [LF] == t;
    }
  }

  /** A chunk without NUL is one line, as typed but for its line feed. */
  lemma ChunkIsLine(chunk: seq<byte>)
    requires Chunk(chunk) && NUL !in chunk
    ensures |LineOf(chunk)| == 1 && IsLineOf(LineOf(chunk)[0], chunk)
  {
    hide CString;
    StrippedIsLine(chunk);
  }

  lemma {:induction false} LinesAreStrings(typed: seq<seq<byte>>)
    ensures |Lines(typed)| == |Strings(typed)|
    ensures forall k :: 0 <= k < |Lines(typed)| ==> IsLineOf(Lines(typed)[k], Strings(typed)[k])
  {
    hide CString, IsLineOf, Stripped;
    if typed != [] {
      LinesAreStrings(typed[..|typed| - 1]);
      StrippedIsLine(CString(typed[|typed| - 1]));
    }
  }

  /** The buffer holds this string and its NUL. */
  ghost predicate Holds(buf: seq<byte>, t: seq<byte>) {
    |t| < |buf| && buf[..|t|] == t && buf[|t|] == NUL
  }

  lemma HeldString(buf: seq<byte>, t: seq<byte>)
    requires Holds(buf, t)
    ensures CString(buf) == CString(t)
  {
    CStringStops(buf, |t|);
  }

  /** A typed line holds no line feed and no NUL, so it is clean, and it fits the buffer. */
  lemma LineClean(chunk: seq<byte>)
    requires Chunk(chunk)
    ensures forall t :: t in LineOf(chunk) ==> LF !in t && NUL !in t && |t| < MAX_INPUT
  {
    hide CString;
  }

  lemma {:induction false} LinesClean(typed: seq<seq<byte>>)
    requires forall c :: c in typed ==> Chunk(c)
    ensures forall t :: t in Lines(typed) ==> LF !in t && NUL !in t && |t| < MAX_INPUT
  {
    hide LineOf, Chunk;
    if typed != [] {
      LinesClean(typed[..|typed| - 1]);
      LineClean(typed[|typed| - 1]);
    }
  }

  // The two threads, interleaved at every access of the flag and every byte moved.

  /** Where the worker is in its loop. The chunk a later stage carries is history only. */
  datatype Worker =
    | WCheck                                  // about to look at the flag
    | WClear                                  // about to empty the buffer
    | WWait                                   // in `fgets`, nothing read yet
    | WFill(chunk: seq<byte>, done: nat)      // `fgets` storing what was typed
    | WTest(chunk: seq<byte>)                 // about to measure the string
    | WPublish(chunk: seq<byte>)              // about to set the flag

  /** Where the poller is in `getInputLine`. */
  datatype Poller = PIdle | PCopy(done: nat) | PStrip | PClear

  datatype Console = Console(
    input: seq<byte>, result: seq<byte>, haveNewData: bool, worker: Worker, poller: Poller,
    typed: seq<seq<byte>>,      // history: every chunk `fgets` returned
    returned: seq<Text>)        // history: every line `getInputLine` returned, as of clearing the flag

  ghost predicate Init(s: Console) {
    && |s.input| == |s.result| == MAX_INPUT && !s.haveNewData
    && s.worker.WCheck? && s.poller.PIdle? && s.typed == [] && s.returned == []
  }

  datatype Action = StepWorker | Type(chunk: seq<byte>) | ReadFails | StepPoller

  ghost predicate Enabled(s: Console, a: Action) {
    match a
    case StepWorker => !s.worker.WWait?
    case Type(chunk) => s.worker.WWait? && Chunk(chunk)
    case ReadFails => s.worker.WWait? || s.worker.WFill?
    case StepPoller => true
  }

  ghost function WorkerStep(s: Console): Console
    requires !s.worker.WWait?
  {
    match s.worker
    case WCheck => if s.haveNewData then s else s.(worker := WClear)
    case WClear => s.(input := Store(s.input, 0, NUL), worker := WWait)
    case WFill(chunk, done) =>
      if done < |chunk| then
        s.(input := Store(s.input, done, chunk[done]), worker := WFill(chunk, done + 1))
      else
        s.(input := Store(s.input, done, NUL), worker := WTest(chunk), typed := s.typed + [chunk])
    case WTest(chunk) => s.(worker := if CString(s.input) != [] then WPublish(chunk) else WCheck)
    case WPublish(chunk) => s.(haveNewData := true, worker := WCheck)
  }

  ghost function PollerStep(s: Console): Console {
    match s.poller
    case PIdle => if s.haveNewData then s.(poller := PCopy(0)) else s
    case PCopy(done) =>
      var b := Load(s.input, done);
      s.(result := Store(s.result, done, b), poller := if b == NUL then PStrip else PCopy(done + 1))
    case PStrip =>
      var t := CString(s.result);
      s.(result := if Stripped(t) == t then s.result else Store(s.result, |t| - 1, NUL), poller := PClear)
    case PClear =>
      s.(haveNewData := false, poller := PIdle, returned := s.returned + [CString(s.result)])
  }

  ghost function Apply(s: Console, a: Action): Console
    requires Enabled(s, a)
  {
    match a
    case StepWorker => WorkerStep(s)
    case Type(chunk) => s.(worker := WFill(chunk, 0))
    case ReadFails => s.(worker := WCheck)
    case StepPoller => PollerStep(s)
  }

  ghost predicate Next(s: Console, s': Console) {
    exists a :: Enabled(s, a) && s' == Apply(s, a)
  }

  ghost predicate IsRun(run: seq<Console>) {
    && |run| > 0 && Init(run[0])
    && forall i :: 0 <= i < |run| - 1 ==> Next(run[i], run[i + 1])
  }

  // The inductive invariant.

  ghost function Last(s: Console): seq<byte>
    requires s.typed != []
  {
    s.typed[|s.typed| - 1]
  }

  /** The last chunk typed is whole in the input buffer. */
  ghost predicate Whole(s: Console) {
    s.typed != [] && Holds(s.input, Last(s))
  }

  ghost predicate WorkerInv(s: Console) {
    match s.worker
    case WCheck => true
    case WClear => !s.haveNewData
    case WWait => !s.haveNewData
    case WFill(chunk, done) =>
      !s.haveNewData && Chunk(chunk) && done <= |chunk| <= |s.input| && s.input[..done] == chunk[..done]
    case WTest(chunk) => !s.haveNewData && Whole(s) && Last(s) == chunk
    case WPublish(chunk) => !s.haveNewData && Whole(s) && Last(s) == chunk && CString(chunk) != []
  }

  ghost predicate PollerInv(s: Console) {
    match s.poller
    case PIdle => s.returned == [] || CString(s.result) == s.returned[|s.returned| - 1]
    case PCopy(done) =>
      && s.haveNewData && done < |s.input| == |s.result|
      && NUL !in s.input[..done] && s.result[..done] == s.input[..done]
    case PStrip => s.haveNewData && s.typed != [] && Holds(s.result, CString(Last(s)))
    case PClear => s.haveNewData && s.typed != [] && CString(s.result) == Stripped(CString(Last(s)))
  }

  /** The line typed but not yet returned. */
  ghost function InFlight(s: Console): seq<Text> {
    if (s.haveNewData || s.worker.WTest? || s.worker.WPublish?) && s.typed != [] then LineOf(Last(s)) else []
  }

  ghost predicate Inv(s: Console) {
    && |s.input| == |s.result| == MAX_INPUT
    && (forall c :: c in s.typed ==> Chunk(c))
    && (s.haveNewData ==> s.worker.WCheck? && Whole(s) && CString(Last(s)) != [])
    && WorkerInv(s) && PollerInv(s)
    && Lines(s.typed) == s.returned + InFlight(s)
  }

  lemma WorkerKeepsInv(s: Console)
    requires Inv(s) && !s.worker.WWait?
    ensures Inv(WorkerStep(s))
  {
    hide CString, Stripped, Lines;
    var s' := WorkerStep(s);
    match s.worker
    case WFill(chunk, done) =>
      if done == |chunk| {
        assert Whole(s');
        assert Lines(s'.typed) == Lines(s.typed) + LineOf(chunk) by { TypedGrows(s.typed, chunk); }
      }
    case WTest(chunk) => HeldString(s.input, chunk);
    case _ =>
  }

  lemma TypedGrows(typed: seq<seq<byte>>, chunk: seq<byte>)
    ensures Lines(typed + [chunk]) == Lines(typed) + LineOf(chunk)
  {
    assert (typed + [chunk])[..|typed|] == typed;
  }

  lemma PollerKeepsInv(s: Console)
    requires Inv(s)
    ensures Inv(PollerStep(s))
  {
    hide CString, Lines;
    match s.poller
    case PIdle =>
    case PCopy(done) => CopyKeepsInv(s);
    case PStrip => StripKeepsInv(s);
    case PClear =>
  }

  lemma CopyKeepsInv(s: Console)
    requires Inv(s) && s.poller.PCopy?
    ensures Inv(PollerStep(s))
  {
    hide CString, Lines, Stripped;
    var done, c := s.poller.done, Last(s);
    assert done <= |c| by { assert s.input[|c|] == NUL; }
    if s.input[done] == NUL {
      HeldString(s.input, c);
      HeldString(s.input, s.input[..done]);
    }
  }

  lemma StripKeepsInv(s: Console)
    requires Inv(s) && s.poller.PStrip?
    ensures Inv(PollerStep(s))
  {
    hide CString, Lines;
    var t := CString(Last(s));
    HeldString(s.result, t);
    var s' := PollerStep(s);
    if Stripped(t) != t {
      HeldString(s'.result, t[..|t| - 1]);
    }
  }

  lemma InitInv(s: Console)
    requires Init(s)
    ensures Inv(s)
  {
  }

  /** Every state of every run satisfies the invariant. */
  lemma {:induction false} RunInv(run: seq<Console>, i: nat)
    requires IsRun(run) && i < |run|
    ensures Inv(run[i])
  {
    hide WorkerStep, PollerStep, CString, Lines;
    if i == 0 {
      InitInv(run[0]);
    } else {
      RunInv(run, i - 1);
      assert Next(run[i - 1], run[i]);
      var a :| Enabled(run[i - 1], a) && run[i] == Apply(run[i - 1], a);
      match a
      case StepWorker => WorkerKeepsInv(run[i - 1]);
      case StepPoller => PollerKeepsInv(run[i - 1]);
      case _ =>
    }
  }

  // What the invariant means for users of the console.

  ghost predicate Filling(w: Worker) {
    !w.WCheck?
  }

  ghost predicate Copying(p: Poller) {
    !p.PIdle?
  }

  /** In every reachable state at most one side is at work on the input buffer, and the byte either
      moves next lies inside the buffers. */
  lemma NeverFilledWhileCopied(run: seq<Console>, i: nat)
    requires IsRun(run) && i < |run|
    ensures !(Filling(run[i].worker) && Copying(run[i].poller))
    ensures run[i].worker.WFill? ==> run[i].worker.done < |run[i].input|
    ensures run[i].poller.PCopy? ==> run[i].poller.done < |run[i].input| == |run[i].result|
  {
    hide CString, Lines, Stripped;
    RunInv(run, i);
  }

  /** In every run the `k`-th line returned is the `k`-th non-empty string typed, without its line feed if
      it has one; so each is returned exactly once and in order, and at most one is in flight. */
  lemma ExactlyOnce(run: seq<Console>, i: nat)
    requires IsRun(run) && i < |run|
    ensures |run[i].returned| <= |Strings(run[i].typed)| <= |run[i].returned| + 1
    ensures forall k :: 0 <= k < |run[i].returned| ==> IsLineOf(run[i].returned[k], Strings(run[i].typed)[k])
  {
    hide CString, Lines, Stripped, Strings, IsLineOf;
    RunInv(run, i);
    LinesAreStrings(run[i].typed);
    var returned := run[i].returned;
    assert forall k :: 0 <= k < |returned| ==> returned[k] == Lines(run[i].typed)[k];
  }

  /** What the caller was handed stays as it was until its next call. */
  lemma ResultIsStable(run: seq<Console>, i: nat)
    requires IsRun(run) && i < |run| && run[i].poller.PIdle? && run[i].returned != []
    ensures CString(run[i].result) == run[i].returned[|run[i].returned| - 1]
  {
    hide CString, Lines, Stripped;
    RunInv(run, i);
  }

  /** In every run the lines returned hold no line feed, so sent as messages they all arrive as typed. */
  lemma ReturnedLinesSurviveFraming(run: seq<Console>, i: nat)
    requires IsRun(run) && i < |run|
    ensures forall t :: t in run[i].returned ==> LF !in t && NUL !in t && |t| < MAX_INPUT
    ensures AllClean(run[i].returned)
    ensures Dispatch(EncodeAll(run[i].returned)) == Dispatched(run[i].returned, [])
  {
    hide CString, Lines, Chunk, EncodeAll, Dispatch, FindEnd;
    RunInv(run, i);
    LinesClean(run[i].typed);
    var returned := run[i].returned;
    assert forall k :: 0 <= k < |returned| ==> returned[k] == Lines(run[i].typed)[k];
    RoundTrip(returned);
  }

  // Neither side waits for ever: each finishes what it has begun by its own steps.

  ghost function PollerRuns(s: Console, n: nat): Console
    decreases n
  {
    if n == 0 then s else PollerRuns(PollerStep(s), n - 1)
  }

  ghost function WorkerRuns(s: Console, n: nat): Console
    requires s.worker.WFill? || s.worker.WTest? || s.worker.WPublish? || s.worker.WCheck?
    decreases n
  {
    if n == 0 || s.worker.WCheck? then s else WorkerRuns(WorkerStep(s), n - 1)
  }

  ghost function PollerLeft(s: Console): nat {
    match s.poller
    case PIdle => 0
    case PCopy(done) => if done <= MAX_INPUT then MAX_INPUT - done + 3 else 3
    case PStrip => 2
    case PClear => 1
  }

  lemma {:induction false} PollerFinishes(s: Console) returns (n: nat)
    requires Inv(s) && Copying(s.poller)
    ensures n <= PollerLeft(s)
    ensures var s' := PollerRuns(s, n);
      && s'.poller == PIdle && !s'.haveNewData && s'.typed == s.typed && s'.worker == s.worker
      && s'.returned == s.returned + LineOf(Last(s))
    decreases PollerLeft(s)
  {
    hide CString, Lines, LineOf;
    PollerKeepsInv(s);
    var next := PollerStep(s);
    if next.poller.PIdle? {
      n := 1;
      assert PollerRuns(s, 1) == PollerRuns(next, 0);
      LastLine(s);
    } else {
      var later := PollerFinishes(next);
      n := later + 1;
    }
  }

  lemma LastLine(s: Console)
    requires Inv(s) && s.poller.PClear?
    ensures LineOf(Last(s)) == [CString(s.result)]
  {
    hide CString, Lines;
  }

  /** A call of `getInputLine` when a line is waiting returns that line, after at most 516 steps. */
  lemma WaitingLineIsTaken(run: seq<Console>, i: nat) returns (n: nat)
    requires IsRun(run) && i < |run| && run[i].haveNewData && run[i].poller.PIdle?
    ensures n <= MAX_INPUT + 4
    ensures var s, s' := run[i], PollerRuns(run[i], n);
      && s.typed != [] && s'.poller == PIdle && !s'.haveNewData
      && s'.returned == s.returned + LineOf(s.typed[|s.typed| - 1]) && |LineOf(s.typed[|s.typed| - 1])| == 1
  {
    hide CString, Lines, Stripped;
    RunInv(run, i);
    var s := run[i];
    PollerKeepsInv(s);
    var later := PollerFinishes(PollerStep(s));
    n := later + 1;
  }

  /** What the worker has read it stores, and publishes unless the string is empty. */
  lemma {:induction false} WorkerFinishes(s: Console) returns (n: nat)
    requires Inv(s) && s.worker.WFill?
    ensures n <= |s.worker.chunk| - s.worker.done + 3
    ensures var s' := WorkerRuns(s, n);
      && s'.worker == WCheck && s'.typed == s.typed + [s.worker.chunk] && s'.returned == s.returned
      && (s'.haveNewData <==> CString(s.worker.chunk) != [])
    decreases |s.worker.chunk| - s.worker.done
  {
    hide CString, Lines, LineOf, Stripped;
    WorkerKeepsInv(s);
    var next := WorkerStep(s);
    if next.worker.WFill? {
      var later := WorkerFinishes(next);
      n := later + 1;
    } else {
      HeldString(next.input, next.worker.chunk);
      var tested := WorkerStep(next);
      n := if tested.worker.WCheck? then 2 else 3;
      assert WorkerRuns(s, n) == WorkerRuns(next, n - 1) == WorkerRuns(tested, n - 2);
      assert n == 3 ==> WorkerRuns(tested, 1) == WorkerRuns(WorkerStep(tested), 0);
    }
  }

  /** And once the line has been taken it reads the next. */
  lemma WorkerReadsNext(s: Console)
    requires Inv(s) && s.worker.WCheck? && !s.haveNewData
    ensures WorkerStep(s).worker == WClear && WorkerStep(WorkerStep(s)).worker == WWait
  {
  }

  // The program, with one side at a time at work.

  method StrLen(a: array<byte>) returns (len: nat)
    requires NUL in a[..]
    ensures len < a.Length && a[..len] == CString(a[..]) && a[len] == NUL
  {
    len := 0;
    while a[len] != NUL
      invariant len < a.Length && NUL !in a[..len]
      decreases a.Length - len
    {
      assert NUL in a[..];
      len := len + 1;
    }
    CStringStops(a[..], len);
    assert a[..][..len] == a[..len];
  }

  method StrCpy(dst: array<byte>, src: array<byte>)
    requires dst != src && dst.Length == src.Length && NUL in src[..]
    modifies dst
    ensures NUL in dst[..] && CString(dst[..]) == CString(src[..])
  {
    var i := 0;
    while src[i] != NUL
      invariant i < src.Length && NUL !in src[..i] && dst[..i] == src[..i]
      invariant src[..] == old(src[..])
      decreases src.Length - i
    {
      dst[i] := src[i];
      i := i + 1;
    }
    dst[i] := NUL;
    assert dst[..][i] == NUL;
    CStringStops(src[..], i);
    CStringStops(dst[..], i);
    assert dst[..][..i] == dst[..i] == src[..i] == src[..][..i];
  }

  class InputLine {
    const inputBuffer: array<byte>
    const resultBuffer: array<byte>
    var haveNewData: bool

    ghost predicate Valid()
      reads this, inputBuffer
    {
      && inputBuffer != resultBuffer && inputBuffer.Length == resultBuffer.Length == MAX_INPUT
      && (haveNewData ==> NUL in inputBuffer[..])
    }

    /** The string waiting to be taken, if there is one. */
    ghost function Pending(): Option<Text>
      reads this, inputBuffer
    {
      if haveNewData then Some(CString(inputBuffer[..])) else None
    }

    constructor ()
      ensures Valid() && Pending() == None && fresh(inputBuffer) && fresh(resultBuffer)
    {
      inputBuffer, resultBuffer := new byte[MAX_INPUT], new byte[MAX_INPUT];
      haveNewData := false;
    }

    /** One turn of the worker's loop; `read` is what `fgets` brings, or nothing when it fails. */
    method WorkerTurn(read: Option<seq<byte>>)
      requires Valid() && (read.Some? ==> Chunk(read.value))
      modifies this`haveNewData, inputBuffer
      ensures Valid()
      ensures Pending() == if old(haveNewData) then old(Pending())
                           else if read.Some? && CString(read.value) != [] then Some(CString(read.value))
                           else None
    {
      if !haveNewData {
        inputBuffer[0] := NUL;
        if read.Some? {
          var chunk := read.value;
          CopyBytes(inputBuffer, 0, chunk);
          inputBuffer[|chunk|] := NUL;
          assert inputBuffer[..][|chunk|] == NUL;
          HeldString(inputBuffer[..], chunk);
          var len := StrLen(inputBuffer);
          if len > 0 {
            haveNewData := true;
          }
        }
      }
    }

    /** Hands out the waiting line, without its line feed, in the result buffer. */
    method GetInputLine() returns (found: bool)
      requires Valid()
      modifies this`haveNewData, resultBuffer
      ensures Valid() && found == old(Pending()).Some? && Pending() == None
      ensures found ==> IsLineOf(CString(resultBuffer[..]), old(Pending()).value)
      ensures !found ==> resultBuffer[..] == old(resultBuffer[..])
    {
      found := haveNewData;
      if found {
        StrCpy(resultBuffer, inputBuffer);
        var len := StrLen(resultBuffer);
        if len > 0 && resultBuffer[len - 1] == LF {
          ghost var t := resultBuffer[..len];
          resultBuffer[len - 1] := NUL;
          assert resultBuffer[..len - 1] == t[..len - 1];
          HeldString(resultBuffer[..], t[..len - 1]);
        }
        StrippedIsLine(old(CString(inputBuffer[..])));
        haveNewData := false;
      }
    }
  }
}
