/** That the ring makes progress: every call returns after a bounded number of its own steps, whatever
    the other side does meanwhile; and what a call achieves when the other side stands still. */
module RingProgress {
  import opened Words
  import opened RingIndex
  import opened RingProtocol

  /** No more than this many steps are left to a writer before its call returns. */
  ghost function WriterLeft(w: Writer): nat {
    match w
    case WIdle => 0
    case WCalled(data, _) => |data| + 4
    case WSized(data, _, _) => |data| + 3
    case WCounted(data, _, _, _, _) => |data| + 2
    case WCopying(_, _, _, _, count, done) => if done <= count then count - done + 1 else 0
    case WReturned(_) => 0
  }

  ghost function ReaderLeft(r: Reader): nat {
    match r
    case RIdle => 0
    case RCalled(maxLen, _) => maxLen + 4
    case RSized(maxLen, _, _, _) => maxLen + 3
    case RCounted(maxLen, _, _, _, _) => maxLen + 2
    case RCopying(_, _, _, _, count, got) => if |got| <= count then count - |got| + 1 else 0
    case RReturned(_, _) => 0
  }

  ghost predicate Reading(s: Ring) {
    !s.reader.RIdle? && !s.reader.RReturned?
  }

  lemma WriterStepShrinks(s: Ring)
    requires Inv(s) && Writing(s)
    ensures WriterLeft(WriterStep(s).writer) < WriterLeft(s.writer)
  {
    hide MemoryInv, ReaderInv, HistoryInv, Capacity, CopySlot, Advance, Slot, IndexOf, WriteLength;
    if s.writer.WCounted? {
      var avail := Capacity(s.c, s.writer.readIndex, s.writer.writeIndex);
      if avail > 0 {
        WriteLengthExact(avail, |s.writer.data|);
      }
    }
  }

  lemma ReaderStepShrinks(s: Ring)
    requires Inv(s) && Reading(s)
    ensures ReaderLeft(ReaderStep(s).reader) < ReaderLeft(s.reader)
  {
    hide MemoryInv, WriterInv, HistoryInv, CalcSize, CopySlot, Advance, Slot, IndexOf;
  }

  /** What any step does to the steps left on the writer's side. */
  lemma StepOnWriter(s: Ring, a: Action)
    requires Inv(s) && Enabled(s, a) && Writing(s)
    ensures var s' := Apply(s, a);
      s'.writer != s.writer ==> a.StepWriter? && WriterLeft(s'.writer) < WriterLeft(s.writer)
  {
    hide Inv, WriterStep, ReaderStep;
    match a
    case StepWriter => WriterStepShrinks(s);
    case StepReader => ReaderStepEffect(s);
    case _ =>
  }

  lemma StepOnReader(s: Ring, a: Action)
    requires Inv(s) && Enabled(s, a) && Reading(s)
    ensures var s' := Apply(s, a);
      s'.reader != s.reader ==> a.StepReader? && ReaderLeft(s'.reader) < ReaderLeft(s.reader)
  {
    hide Inv, WriterStep, ReaderStep;
    match a
    case StepReader => ReaderStepShrinks(s);
    case StepWriter => WriterStepEffect(s);
    case _ =>
  }

  /** The steps the writer takes between two states of a run. */
  ghost function WriterSteps(run: seq<Ring>, i: nat, j: nat): nat
    requires i <= j < |run|
  {
    if i == j then 0
    else WriterSteps(run, i, j - 1) + if run[j].writer != run[j - 1].writer then 1 else 0
  }

  ghost function ReaderSteps(run: seq<Ring>, i: nat, j: nat): nat
    requires i <= j < |run|
  {
    if i == j then 0
    else ReaderSteps(run, i, j - 1) + if run[j].reader != run[j - 1].reader then 1 else 0
  }

  /** `write` is wait-free: in every run, from the moment it is called with some data until it returns,
      the writer takes at most |data| + 4 steps, however the reader's steps interleave. */
  lemma {:induction false} WriteIsWaitFree(run: seq<Ring>, i: nat, j: nat)
    requires IsRun(run) && i <= j < |run| && forall k :: i <= k < j ==> Writing(run[k])
    ensures WriterSteps(run, i, j) + WriterLeft(run[j].writer) <= WriterLeft(run[i].writer)
    ensures run[i].writer.WCalled? ==> WriterSteps(run, i, j) <= |run[i].writer.data| + 4
  {
    hide Inv, Apply, Enabled, WriterLeft;
    if i < j {
      WriteIsWaitFree(run, i, j - 1);
      RunInv(run, j - 1);
      assert Next(run[j - 1], run[j]);
      var a :| Enabled(run[j - 1], a) && run[j] == Apply(run[j - 1], a);
      StepOnWriter(run[j - 1], a);
    }
    assert run[i].writer.WCalled? ==> WriterLeft(run[i].writer) == |run[i].writer.data| + 4 by { CalledLeft(run[i]); }
  }

  /** `read` is wait-free: it takes at most maxLen + 4 steps. */
  lemma {:induction false} ReadIsWaitFree(run: seq<Ring>, i: nat, j: nat)
    requires IsRun(run) && i <= j < |run| && forall k :: i <= k < j ==> Reading(run[k])
    ensures ReaderSteps(run, i, j) + ReaderLeft(run[j].reader) <= ReaderLeft(run[i].reader)
    ensures run[i].reader.RCalled? ==> ReaderSteps(run, i, j) <= run[i].reader.maxLen + 4
  {
    hide Inv, Apply, Enabled, ReaderLeft;
    if i < j {
      ReadIsWaitFree(run, i, j - 1);
      RunInv(run, j - 1);
      assert Next(run[j - 1], run[j]);
      var a :| Enabled(run[j - 1], a) && run[j] == Apply(run[j - 1], a);
      StepOnReader(run[j - 1], a);
    }
    assert run[i].reader.RCalled? ==> ReaderLeft(run[i].reader) == run[i].reader.maxLen + 4 by { CalledLeft(run[i]); }
  }

  lemma CalledLeft(s: Ring)
    ensures s.writer.WCalled? ==> WriterLeft(s.writer) == |s.writer.data| + 4
    ensures s.reader.RCalled? ==> ReaderLeft(s.reader) == s.reader.maxLen + 4
  {
  }

  lemma CapacityFixed(s: Ring, a: Action)
    requires Enabled(s, a)
    ensures Apply(s, a).c == s.c
  {
    hide Capacity, CalcSize, WriteLength, CopySlot, Advance;
  }

  // One side alone.

  /** A reader during whose call nothing more is published: it sees everything, and comes back empty only
      if there is nothing. */
  ghost predicate ReadsAlone(s: Ring) {
    match s.reader
    case RIdle => true
    case RCalled(_, _) => true
    case RSized(_, _, _, seen) => seen == |s.accepted|
    case RCounted(_, _, _, seen, _) => seen == |s.accepted|
    case RCopying(_, _, _, seen, count, _) => seen == |s.accepted| && count > 0
    case RReturned(maxLen, bytes) => bytes == [] && maxLen > 0 ==> s.delivered == s.accepted
  }

  lemma ReadAloneStep(s: Ring)
    requires Inv(s) && Reading(s) && ReadsAlone(s)
    ensures ReadsAlone(ReaderStep(s))
  {
    hide WriterInv, HistoryInv, CalcSize, CopySlot, Advance, Slot, IndexOf;
    if s.reader.RCounted? {
      CalcSizeExact(s.c, |s.delivered|, s.reader.seen);
      assert CalcSize(s.c, s.reader.readIndex, s.reader.writeIndex) == s.reader.seen - |s.delivered|;
      assert s.delivered == s.accepted[..|s.delivered|];
      assert s.delivered + [] == s.delivered;
    }
  }

  /** A writer during whose call nothing is taken: it fills the room there is, as far as its data goes. */
  ghost predicate WritesAlone(s: Ring, size: nat) {
    match s.writer
    case WIdle => true
    case WCalled(data, _) => |data| == size
    case WSized(data, _, _) => |data| == size
    case WCounted(data, _, _, _, seen) => |data| == size && seen == |s.delivered|
    case WCopying(data, _, _, seen, _, _) => |data| == size && seen == |s.delivered|
    case WReturned(len) =>
      len <= |s.accepted| && len == Min(size, Room(s.c, |s.accepted| - len - |s.delivered|))
  }

  lemma WriteAloneStep(s: Ring, size: nat)
    requires Inv(s) && Writing(s) && WritesAlone(s, size)
    ensures WritesAlone(WriterStep(s), size)
  {
    hide ReaderInv, HistoryInv, Capacity, CopySlot, Advance, Slot, IndexOf, WriteLength;
    if s.writer.WCounted? {
      CapacityExact(s.c, s.writer.seen, |s.accepted|);
      var avail := Capacity(s.c, s.writer.readIndex, s.writer.writeIndex);
      if avail > 0 {
        WriteLengthExact(avail, |s.writer.data|);
      }
    }
  }
}
