# SocketChat: a verified model

SocketChat moves chat messages through a stack of small stateful layers: a lock-free ring in shared
memory, a growable byte queue, a connection that frames texts with CR LF, a server that broadcasts to
its clients, and a console reader that hands typed lines to the program. Each layer is meant to be an
exact FIFO, and the stack is meant to deliver exactly what was sent. This project models every layer in
Dafny and proves that, layer by layer and for the composition.

`dafny verify dfyconfig.toml` checks everything.

| file | what it models |
|---|---|
| `Words.dfy` | bytes, wrapping 32-bit arithmetic, the forward byte copy that stands for `memcpy` |
| `RingIndex.dfy` | the index arithmetic of the ring, on wrapping words, related to unbounded totals |
| `Spsc.dfy` | the ring as a class over an array: one process between two steps of its peer |
| `RingProtocol.dfy` | the ring as a transition system: index loads, single-byte copies and index stores of both sides interleave |
| `RingProgress.dfy` | that every call of the ring returns after a bounded number of its own steps, and what it achieves while the other side stands still |
| `SimpleBuffer.dfy` | the growable byte queue: a class over an array, and the geometry of its window |
| `Framing.dfy` | texts, CR LF framing, dispatch of a stream |
| `Frames.dfy` | what the two appends of `sendText` do to the transmit buffer, and its sizes |
| `Transport.dfy` | the transport contract, with the shared-memory rings and an operating-system socket, whose answers are a script given in advance; what that script holds |
| `Session.dfy` | a connection as a value, and the facts about every run of `sendText`, `close` and `poll` over any transport |
| `SocketChat.dfy` | the connection as a class, loop by loop, proved to do what `Session` says |
| `EndToEnd.dfy` | two connections over two byte-granular rings, every micro-step of both polls interleaved; each end is proved to be a session |
| `Polls.dfy` | what one poll of an endpoint achieves over the rings, that it always comes to its end, and why its two loops stop |
| `Drain.dfy`, `Pair.dfy` | how many rounds of polling move what is outstanding: the bound, and two real connections that meet it |
| `ChatServer.dfy` | the server loop: join, drop, broadcast, echo; as a value over sessions, and as classes over real connections |
| `InputLine.dfy` | the console handoff: a byte-granular two-thread transition system, and the class |

How the pieces fit: `Spsc.SPSC` and `RingProtocol` share the arithmetic proved in `RingIndex`.
`SocketChat` uses `SimpleBuffer`, `Transport` and `Framing`, and its methods equate the new state with
the functions of `Session`; a session carries the window of its transmit buffer, so whether an append
finds room is computed and not assumed. `EndToEnd` composes two endpoints with two `RingProtocol` rings,
and every endpoint of every run is a run of `Session`; `Polls` says what each of its polls must move, and
that it ends. Over a socket of the operating system a poll is determined by the script of that socket
(`Session.SystemPoll`). The server's classes own `SocketChat` objects and
are proved to do what the server machine over sessions does. The lines `InputLine` returns satisfy the
precondition of the framing round trip, and so does every message that dispatch delivers, which is what
the server echoes; so the server's common order reaches the screens of its clients
(`ChatServer.EveryoneSeesOneOrder`).

Ghost histories (`accepted`, `received`, `messages`, `log`, ...) record what has passed a point; the
program has no such fields.

## What turned out not to hold

- `sendText` ignores the results of its two appends (ext/socketchat/socketchat.cpp:211-216). A frame
  reaches the transmit buffer whole if and only if both appends find room (`Frames.WholeFrameIffFits`).
  CR LF is sent without its text if and only if the text finds no room and two bytes do
  (`Frames.EndAloneIff`); the first text of a new connection being as long as the growth limit is an
  input (`Session.TextCanBeLost`), and the peer is then delivered an empty message. The opposite happens
  too: a text that fills the block exactly loses its CR LF and runs together with the next text
  (`Session.TextsCanRunTogether`). `Frames.FrameHeadroom` gives a simple sufficient bound.
- A message that arrives in the same poll as the end of the stream, or as an error, is never delivered:
  the poll closes the connection and returns before it dispatches
  (ext/socketchat/socketchat.cpp:125-141). `Session.LastMessageCanBeLost` is an input;
  `Session.DeliveredAllIff` and `Session.ClosedLosesRest` say exactly when messages are lost: if and
  only if a complete message waits in the receive buffer of a closed connection.
- A true result of `growBuffer` does not always mean room (ext/socketchat/SimpleBuffer.cpp:117-128): the
  new size is computed on 32-bit words that can wrap around. For every block below 2 GiB the promise is
  kept if and only if the request is exact (`SimpleBuffer.PromiseKeptIffExact`);
  `SimpleBuffer.PromiseCanBreak` is an input that breaks it.
- `calcSize` (ext/socketchat/SPSC.h:155-160) is exact if and only if fewer than C bytes are queued or
  the first lap is exactly full; `RingIndex.CalcSizeExact` states this, and the ring keeps the condition
  because the writer gives up two bytes, one in `capacity` and one more in `write`. For the same reason a
  ring of one or two bytes never carries anything (`RingProtocol.TinyRingStaysEmpty`).
- Framing returns a list of texts unchanged if and only if no text contains CR LF or NUL
  (`Framing.RoundTrip`).
- The comment at ext/socketchat/socketchat.cpp:20 speaks of 64 MB; the constant is 512 MB, and the model
  follows the constant. The comment at ext/socketchat/SimpleBuffer.cpp:163 says that
  `confirmCapacity` returns the read location; it returns the location behind the live bytes, and the
  model follows the code.

## Model

| member | source | states |
|---|---|---|
| RingIndex.CalcSizeUnbounded | ext/socketchat/SPSC.h:155-160 | for every 32-bit capacity and every index pair in 0..C, the wrapping size equals the unbounded one, even where writeIndex + C overflows |
| RingIndex.CalcSizeExact | ext/socketchat/SPSC.h:155-167 | calcSize of the stored indices is the number of bytes written and not yet read, if and only if fewer than C are queued or the first lap is exactly full |
| RingIndex.CapacityExact | ext/socketchat/SPSC.h:169-178 | what capacity returns, in terms of the bytes queued: zero exactly when no room is left beyond the reserved byte |
| RingIndex.WriteLengthExact | ext/socketchat/SPSC.h:113-123 | a write with room copies the lesser of the data and the room behind the second reserved byte |
| RingIndex.AdvanceExact | ext/socketchat/SPSC.h:126-150 | the index stored after a copy of at most a lap is again the index of the new total |
| RingIndex.CopySlotExact | ext/socketchat/SPSC.h:82-101 | byte j of a split copy lies in slot (total + j) mod C |
| RingIndex.LandingExact | ext/socketchat/SPSC.h:126-147 | a copy hits the slots of its own bytes and none of the bytes that are less than a lap older |
| RingIndex.SlotsApart | ext/socketchat/SPSC.h:113-147 | different bytes less than a lap apart never share a slot |
| RingIndex.TopIsBottom | ext/socketchat/SPSC.h:82-102 | index C behaves like index 0 for every non-empty copy |
| RingIndex.NeverAmbiguous | ext/socketchat/SPSC.h:169-178 | read index 0 with write index C never arises, and equal positions mean an empty ring |
| Spsc.SPSC.Init | ext/socketchat/SPSC.h:33-68 | when initialisation succeeds and fails, that a server starts an empty ring, and that a client attaches to a valid ring without touching it |
| Spsc.SPSC.Size | ext/socketchat/SPSC.h:155-167 | the exact length of the queue |
| Spsc.SPSC.SpaceLeft | ext/socketchat/SPSC.h:169-178 | the room of the queue plus the one byte that write keeps back, or zero |
| Spsc.SPSC.Read | ext/socketchat/SPSC.h:70-105 | takes exactly the oldest min(maxLen, queued) bytes off the queue, in order, into the destination and nowhere else; a writer takes nothing |
| Spsc.SPSC.Write | ext/socketchat/SPSC.h:109-152 | appends exactly the first min(dataLen, room) bytes to the queue, and no unread byte changes; a reader writes nothing |
| Spsc.SPSC.CopyOut | ext/socketchat/SPSC.h:82-102 | the one or two copies of a read fetch every byte from its slot |
| Spsc.SPSC.CopyIn | ext/socketchat/SPSC.h:126-150 | the one or two copies of a write put every byte in its slot and change no other |
| Spsc.ReachTopIndex | ext/socketchat/SPSC.h:126-132 | index value C is reached at every capacity of at least three |
| RingProtocol.TinyRingStaysEmpty | ext/socketchat/SPSC.h:113-123 | at capacities one and two no run accepts a byte or moves an index, so index C is not reached |
| RingProtocol.WriterCopyKeepsInv | ext/socketchat/SPSC.h:130-147 | a single-byte copy overwrites no unread byte and no byte copied before it |
| RingProtocol.WriterStoreKeepsInv | ext/socketchat/SPSC.h:131-149 | the index store publishes exactly the bytes copied, whatever the reader does meanwhile |
| RingProtocol.ReaderCountKeepsInv | ext/socketchat/SPSC.h:73-81 | a size computed from a stale writer index never counts a byte that is not published |
| RingProtocol.ReaderCopyKeepsInv | ext/socketchat/SPSC.h:86-101 | each byte copied is the next byte ever accepted |
| RingProtocol.StepKeepsInv | ext/socketchat/SPSC.h:70-152 | every load, byte copy and store of either side keeps the invariant |
| RingProtocol.RunInv | ext/socketchat/SPSC.h:70-152 | the invariant holds in every state of every interleaving |
| RingProtocol.Safety | ext/socketchat/SPSC.h:70-152 | in every reachable state the slots still to be filled are apart from the slots of all unread bytes, every unread byte holds what was accepted, and every slot accessed exists |
| RingProtocol.NoRace | ext/socketchat/SPSC.h:86-147 | the byte written next is never the byte read next |
| RingProtocol.Linearizable | ext/socketchat/SPSC.h:70-178 | in every run all reads together are a prefix of all accepted writes together, and each call moves at least what was possible when it began |
| RingProtocol.IndexInvariant | ext/socketchat/SPSC.h:82-160 | in every reachable state both indices lie in 0..C, are not the ambiguous pair, and calcSize is exact |
| RingProtocol.WriterStepEffect | ext/socketchat/SPSC.h:109-152 | a writer's step is invisible to the reader until it publishes a prefix of the data offered |
| RingProtocol.ReaderStepEffect | ext/socketchat/SPSC.h:70-105 | a reader's step is invisible to the writer until it takes the bytes it returns |
| RingProgress.WriteIsWaitFree | ext/socketchat/SPSC.h:109-152 | in every run a write of n bytes returns after at most n + 4 steps of the writer, however the reader's steps interleave |
| RingProgress.ReadIsWaitFree | ext/socketchat/SPSC.h:70-105 | in every run a read of at most n bytes returns after at most n + 4 steps of the reader, however the writer's steps interleave |
| RingProgress.ReadAloneStep | ext/socketchat/SPSC.h:70-105 | a reader during whose call nothing is published sees everything there is, and comes back empty only from an empty ring |
| RingProgress.WriteAloneStep | ext/socketchat/SPSC.h:109-152 | a writer during whose call nothing is taken fills exactly the room there is, as far as its data goes |
| Words.CopyForward | ext/socketchat/SimpleBuffer.cpp:103-109 | a forward copy is right even when source and destination overlap, as long as bytes move down |
| SimpleBuffer.ReservedMakesRoom | ext/socketchat/SimpleBuffer.cpp:95-144 | seeking room makes it exactly when the request fits, keeps the number of live bytes and never passes the limit |
| SimpleBuffer.GrowthBound | ext/socketchat/SimpleBuffer.cpp:114-136 | a block that grew for d bytes with n live ones is at least twice as large as before and smaller than 4d + 2n |
| SimpleBuffer.HeadroomSuffices | ext/socketchat/SimpleBuffer.cpp:95-144 | a request for d bytes succeeds whenever 4d + 2n is within the growth limit |
| SimpleBuffer.ReserveThenCommit | ext/socketchat/SimpleBuffer.cpp:43-64 | after a successful reservation any commit up to its size succeeds without growing |
| SimpleBuffer.ExactTarget | ext/socketchat/SimpleBuffer.cpp:117-128 | for an exact request the size computed on wrapping words leads to the same decision and the same block as the unbounded one |
| SimpleBuffer.PromiseKeptIffExact | ext/socketchat/SimpleBuffer.cpp:95-144 | below 2 GiB a true result of growBuffer means room if and only if the request is exact |
| SimpleBuffer.PromiseCanBreak | ext/socketchat/SimpleBuffer.cpp:95-144 | a request for which growBuffer says yes without making room |
| SimpleBuffer.SimpleBuffer.constructor | ext/socketchat/SimpleBuffer.cpp:12-19 | an empty buffer whose growth limit is at least its size |
| SimpleBuffer.SimpleBuffer.Reset | ext/socketchat/SimpleBuffer.cpp:67-82 | an empty buffer of the given size, which respects the limit only if that size does |
| SimpleBuffer.SimpleBuffer.GetSize | ext/socketchat/SimpleBuffer.cpp:90-93 | the number of live bytes |
| SimpleBuffer.SimpleBuffer.GetData | ext/socketchat/SimpleBuffer.cpp:29-33 | where the live bytes are |
| SimpleBuffer.SimpleBuffer.Clear | ext/socketchat/SimpleBuffer.cpp:36-39 | the queue becomes empty and keeps its block |
| SimpleBuffer.SimpleBuffer.Compact | ext/socketchat/SimpleBuffer.cpp:103-113 | moving the live bytes down in place leaves the contents unchanged |
| SimpleBuffer.SimpleBuffer.Enlarge | ext/socketchat/SimpleBuffer.cpp:128-140 | moving to a larger block leaves the contents unchanged |
| SimpleBuffer.SimpleBuffer.GrowBuffer | ext/socketchat/SimpleBuffer.cpp:95-144 | true exactly when it can grow, then with room for the request; contents never change, and a refusal changes nothing at all |
| SimpleBuffer.SimpleBuffer.AddBuffer | ext/socketchat/SimpleBuffer.cpp:43-64 | succeeds exactly when the bytes fit; then the contents gain exactly those bytes, or the ones already written behind; a failed append changes nothing |
| SimpleBuffer.SimpleBuffer.Consume | ext/socketchat/SimpleBuffer.cpp:147-161 | removes the oldest bytes, at most all of them |
| SimpleBuffer.SimpleBuffer.ConfirmCapacity | ext/socketchat/SimpleBuffer.cpp:164-180 | succeeds exactly when the request fits, then with that much room at the place returned; contents never change |
| SimpleBuffer.PerformKeepsFifo | ext/socketchat/SimpleBuffer.cpp:36-180 | every queue operation keeps first-in first-out order: accepted bytes are the removed ones followed by the contents; the block grows only, and within the limit |
| SimpleBuffer.PerformAll | ext/socketchat/SimpleBuffer.cpp:36-180 | the same over every sequence of operations |
| SimpleBuffer.FillBuffer | ext/socketchat/SimpleBuffer.cpp:43-64 | reserving, writing in place and committing with no data is one append of what was written |
| SimpleBuffer.ApplyAll | ext/socketchat/SimpleBuffer.cpp:36-180 | over every sequence of appends, reserve-and-commits, consumes and clears the buffer has the contents and the window of the queue, and returns the same result for every operation |
| Framing.CStringStops | ext/socketchat/socketchat.cpp:205-206 | a NUL put over the CR ends the string the callback reads |
| Framing.FindEndUnique | ext/socketchat/socketchat.cpp:189-200 | the search finds the first CR LF and no other |
| Framing.DispatchClean | ext/socketchat/socketchat.cpp:179-209 | every message delivered, from any stream, contains neither CR LF nor NUL, and what is left holds no complete message |
| Framing.DispatchSplit | ext/socketchat/socketchat.cpp:179-209 | a dispatch between two receives changes neither the messages nor what is left |
| Framing.ChunkingIndependence | ext/socketchat/socketchat.cpp:110-209 | every partition of a stream into receives, with a dispatch after each, delivers what one dispatch of the whole stream delivers |
| Framing.DispatchOne | ext/socketchat/socketchat.cpp:211-216 | a clean text, also one that ends in CR or begins with LF, is cut off exactly at its end |
| Framing.RoundTrip | ext/socketchat/socketchat.cpp:179-216 | a list of texts is delivered as sent with nothing left over, if and only if no text contains CR LF or NUL |
| Framing.RelayRoundTrip | app/TestServer/TestServer.cpp:178-188 | messages delivered from any stream arrive unchanged when they are sent on |
| Framing.PrefixMessages | ext/socketchat/socketchat.cpp:179-209 | the messages in a prefix of a stream are a prefix of its messages |
| Transport.Wsocket.OfSharedMemory | ext/socketchat/socketsharedmemory.cpp:19-45 | a server writes the server block and reads the client block and clears both; a client is wired the other way and touches neither |
| Transport.Wsocket.Receive | ext/socketchat/socketsharedmemory.cpp:97-108 | takes at most maxLen bytes, in order; over rings exactly min(maxLen, waiting), and -1 when none; from a socket of the operating system what the head of its script answers, with the rest of a chunk left |
| Transport.Wsocket.Send | ext/socketchat/socketsharedmemory.cpp:111-122 | accepts a prefix; over rings exactly min(dataLen, room), and -1 when none; to a socket of the operating system as many bytes as the head of its script takes, and every answer is used once |
| Transport.Wsocket.Close | ext/socketchat/socketsharedmemory.cpp:125-128 | closing leaves the rings alone |
| Transport.Wsocket.NullSelect | ext/socketchat/socketsharedmemory.cpp:89-92 | waiting leaves the rings alone |
| Transport.StopAt | ext/socketchat/socketchat.cpp:119-137 | the first answer of a script that ends the receive loop: every answer before it brings bytes, and it does not |
| Transport.TakeOfChunk | ext/socketchat/wsocket.cpp:155-172 | a receive that takes a part of what has arrived leaves the rest of the script as it was |
| Transport.NothingWaits | ext/socketchat/socketchat.cpp:121-131 | which answers end the receive loop as a failure: end of stream, no bytes, or an error other than having to wait |
| Frames.TextSent | ext/socketchat/socketchat.cpp:213-214 | what is appended for a C string: nothing for null, the string itself below 4 GiB, never a NUL |
| Frames.FrameKeepsWindow | ext/socketchat/socketchat.cpp:211-216 | whatever fits, the transmit buffer stays within its limit and holds exactly the bytes appended |
| Frames.WholeFrameIffFits | ext/socketchat/socketchat.cpp:211-216 | a frame is appended whole if and only if both appends find room |
| Frames.EndAloneIff | ext/socketchat/socketchat.cpp:211-216 | CR LF is appended without its text if and only if the text finds no room and two bytes do |
| Frames.FrameHeadroom | ext/socketchat/socketchat.cpp:211-216 | no frame is cut while 4 len + 2 n + 8 is within the growth limit |
| Frames.ShortTextIsExact | ext/socketchat/socketchat.cpp:213-214 | for texts below 3 GiB no size of a connection's buffer wraps around |
| SocketChat.AppendFrame | ext/socketchat/socketchat.cpp:211-216 | exactly the bytes whose append finds room are appended: the text, its CR LF, both or neither, each by its own condition |
| SocketChat.ReserveRoom | ext/socketchat/socketchat.cpp:113-117 | room for one receive, refused only when the receive buffer is nearly at its limit |
| SocketChat.ReceiveInPlace | ext/socketchat/socketchat.cpp:119-119 | bytes received behind the live ones leave the contents alone until committed |
| SocketChat.Commit | ext/socketchat/socketchat.cpp:135-135 | committing what was received never grows the buffer, always succeeds, and appends exactly those bytes |
| SocketChat.ReceiveOnce | ext/socketchat/socketchat.cpp:110-137 | one turn of the receive loop: which of its exits it takes, what it adds, and what it leaves of a script |
| SocketChat.AnswersGive | ext/socketchat/socketchat.cpp:119-137 | what one answer of a script makes of the receive loop: it brings the next bytes, or stops it, as a failure exactly when the first stop of the script is one |
| SocketChat.AcceptsGive | ext/socketchat/socketchat.cpp:146-161 | what one answer of a script makes of the transmit loop: bytes taken, a wait, or a failure |
| SocketChat.ReceiveAll | ext/socketchat/socketchat.cpp:110-137 | the receive loop ends against any transport and appends everything received; unless the buffer is full that is, over rings, everything published, and from a script everything up to its first stop, failing exactly when that stop is a failure |
| SocketChat.SendOnce | ext/socketchat/socketchat.cpp:142-162 | one turn of the transmit loop: accepted bytes followed by waiting ones stay the same stream |
| SocketChat.SendAll | ext/socketchat/socketchat.cpp:142-162 | the transmit loop ends against any transport; what was accepted leaves the buffer and nothing else does; over rings it is all there is room for, and over a script what its acceptances sum up to before the first that stops, failing exactly when that one breaks |
| SocketChat.FindMessage | ext/socketchat/socketchat.cpp:189-200 | finds the first CR LF, and reports none exactly when there is none |
| SocketChat.DispatchOnce | ext/socketchat/socketchat.cpp:181-208 | delivers the first message; the NUL put in place alters no byte that stays |
| SocketChat.DispatchBinary | ext/socketchat/socketchat.cpp:179-209 | delivers exactly the complete messages of the buffer, in order, leaves the rest, and ends |
| SocketChat.Callback.ReceiveMessage | app/TestServer/TestServer.cpp:63-67 | a later message overwrites an earlier one, and there is a message exactly when one was handed over |
| SocketChat.SocketChat.constructor | ext/socketchat/socketchat.cpp:33-40 | a new connection is a new session: open, with empty buffers of 16 KiB |
| SocketChat.SocketChat.SendText | ext/socketchat/socketchat.cpp:211-216 | exactly the session's sendText: what is enqueued behind everything waiting is decided by the window of the buffer |
| SocketChat.SocketChat.Close | ext/socketchat/socketchat.cpp:268-278 | an open connection starts closing; a closing or closed one does not change |
| SocketChat.SocketChat.ReceivePhase | ext/socketchat/socketchat.cpp:110-141 | the receive loop and the state it leaves, as the session machine says |
| SocketChat.SocketChat.TransmitPhase | ext/socketchat/socketchat.cpp:142-166 | the transmit loop and the state it leaves |
| SocketChat.SocketChat.Transfer | ext/socketchat/socketchat.cpp:110-166 | both loops are the transfer of the session machine; over rings they never fail, and over a script they do what the script says |
| SocketChat.SocketChat.SettlePhase | ext/socketchat/socketchat.cpp:167-171 | a closing connection with nothing left to send closes and closes its transport; in every other case neither happens |
| SocketChat.SocketChat.DispatchPhase | ext/socketchat/socketchat.cpp:172-175 | the callback receives exactly the complete messages waiting |
| SocketChat.SocketChat.Poll | ext/socketchat/socketchat.cpp:99-176 | a poll ends against any transport and is exactly one poll of the session machine; over rings it never fails, fills the outgoing ring and empties the incoming one; over a script it receives and sends what the script holds |
| SocketChat.PollFirst | ext/socketchat/socketchat.cpp:99-176 | for every script with headroom the first poll of a connection receives everything up to the first stop; it closes exactly when that stop is a failure, and otherwise the callback is handed every message that came |
| SocketChat.FirstPoll | ext/socketchat/socketchat.cpp:99-176 | the same of the session machine |
| Session.ReceiveExit | ext/socketchat/socketchat.cpp:125-141 | a failed receive ends the poll before anything is sent or dispatched |
| Session.BothPhases | ext/socketchat/socketchat.cpp:110-166 | the two loops, each with the calls it made, are the transfer of the session machine |
| Session.FullPoll | ext/socketchat/socketchat.cpp:110-176 | transfer, settle and dispatch together are one poll of the session machine |
| Session.RunInv | ext/socketchat/socketchat.cpp:99-278 | over every run and every transport: enqueued bytes are the accepted ones followed by the waiting ones, and messages are those of the bytes received |
| Session.StateMoves | ext/socketchat/socketchat.cpp:99-278 | which state changes a command can make, and why a connection closes |
| Session.PollMoves | ext/socketchat/socketchat.cpp:99-176 | a poll receives and sends exactly what its transport moved, and ends closed if and only if a loop failed, or the connection was closing and everything has been sent; the transport is closed exactly when the connection is |
| Session.SystemPollMoves | ext/socketchat/socketchat.cpp:99-176 | over a script with headroom a poll receives everything waiting; unless that fails it sends everything the acceptances take, and with a callback delivers every complete message |
| Session.ClosedPollWaits | ext/socketchat/socketchat.cpp:101-109 | a poll of a closed connection changes nothing, and waits only if it is given time |
| Session.CloseCompletes | ext/socketchat/socketchat.cpp:167-171 | over every run an open connection that is asked to close is closed if and only if one of its polls since has failed or sent everything that waited, and then its transport has been closed |
| Session.ClosedIsFinal | ext/socketchat/socketchat.cpp:99-109 | a closed connection stays closed, moves no byte, delivers no message and makes no call to the transport but nullSelect |
| Session.GracefulClose | ext/socketchat/socketchat.cpp:167-171 | OPEN is never re-entered, and closing without a transport failure happens only with every enqueued byte accepted |
| Session.Delivery | ext/socketchat/socketchat.cpp:99-209 | messages are a prefix of those in the bytes received, and all of them after a poll that reaches dispatch |
| Session.HeadroomFits | ext/socketchat/socketchat.cpp:211-216 | in every run with headroom at each sendText no frame is cut |
| Session.Lossless | ext/socketchat/socketchat.cpp:211-216 | in every run without cut frames what was enqueued is the encoding of the texts sent |
| Session.DeliveredAllIff | ext/socketchat/socketchat.cpp:99-209 | in every run all messages received have been delivered if and only if no complete message waits in the receive buffer |
| Session.ClosedLosesRest | ext/socketchat/socketchat.cpp:125-141 | in every run a closed connection stays short of the messages it received if and only if it closed with a complete one waiting |
| Session.LastMessageCanBeLost | ext/socketchat/socketchat.cpp:125-141 | a message that comes with the end of the stream is received and never delivered |
| Session.TextCanBeLost | ext/socketchat/socketchat.cpp:211-216 | on a new connection a text as long as the growth limit is lost while its CR LF is enqueued, and whoever receives it is delivered an empty message |
| Session.TextsCanRunTogether | ext/socketchat/socketchat.cpp:211-216 | a second text that fills the block is enqueued without its CR LF, and the peer is delivered it and the third text as one message |
| Session.OverAnyStream | ext/socketchat/wsocket.h:42-47 | over any transport that keeps order, a peer is delivered a prefix of the clean texts sent without cut frames |
| EndToEnd.WriteStepKeepsLink | ext/socketchat/socketchat.cpp:142-162 | bytes the ring has accepted and the buffer has not yet dropped are counted once |
| EndToEnd.StepKeepsEndpointInv | ext/socketchat/socketchat.cpp:99-216 | every micro-step of an endpoint keeps what it has done so far equal to a part of one poll of its session |
| EndToEnd.DispatchMoreKeepsInv | ext/socketchat/socketchat.cpp:179-209 | a turn of the dispatch loop moves one message out of the receive buffer and leaves the rest of the dispatch as it was |
| EndToEnd.EndpointsAreSessions | ext/socketchat/socketchat.cpp:99-278 | in every run of the two-ring system the completed commands of each endpoint are a run of the session machine |
| EndToEnd.ActionsAreCommands | ext/socketchat/socketchat.cpp:99-278 | sendText, close and a completed poll of an endpoint are those commands of its session, and nothing else is |
| EndToEnd.CloseCompletes | ext/socketchat/socketchat.cpp:167-171 | over every run of the two-ring system an endpoint that is asked to close is closed if and only if one of its polls since has handed everything that waited to the ring |
| EndToEnd.ActorKeepsInv | ext/socketchat/socketsharedmemory.cpp:97-122 | a step of one endpoint keeps the invariant of both directions |
| EndToEnd.RunInv | ext/socketchat/socketchat.cpp:110-216 | the invariant holds in every state of every interleaving of two polls over two rings |
| EndToEnd.Conservation | ext/socketchat/socketchat.cpp:110-216 | at every step, in both directions, bytes enqueued are bytes dispatched, in the receive buffer, in the ring and still to be sent, in this order; without cut frames they are the encoding of all texts sent |
| EndToEnd.Delivery | ext/socketchat/socketchat.cpp:110-216 | at every step, in both directions, the messages delivered are a prefix of the clean texts sent, and all of them when nothing is under way |
| EndToEnd.DeliveryWithHeadroom | ext/socketchat/socketchat.cpp:110-216 | with headroom at every sendText clean texts arrive as sent: always a prefix, and all of them when nothing is under way |
| EndToEnd.SwappedIsRun | ext/socketchat/socketsharedmemory.cpp:29-44 | the two ends are alike: a run seen from the other side is a run |
| EndToEnd.ClosedIsFinal | ext/socketchat/socketchat.cpp:101-109 | a closed endpoint stays closed and leaves both rings alone, whatever its peer does |
| EndToEnd.GracefulClose | ext/socketchat/socketchat.cpp:167-171 | an endpoint over rings closes only with every enqueued byte accepted |
| Polls.PollAchieves | ext/socketchat/socketchat.cpp:99-176 | every poll during which the peer stands still receives, with headroom, everything published, hands over all there is room for, delivers with a callback every complete message, and closes a closing endpoint exactly when everything has been handed over |
| Polls.PollCompletes | ext/socketchat/socketchat.cpp:99-176 | an endpoint that is not closed can always poll, and the poll ends |
| Polls.NextIsCloser | ext/socketchat/socketchat.cpp:110-209 | every step inside a poll leads to a later stage or leaves less to do in this one |
| Polls.PollFetchesEverything | ext/socketchat/socketchat.cpp:99-176 | over any stretch of any run in which only one end acts and completes a poll, that poll achieves all this, stated in the two states of the run |
| Polls.PollCanComplete | ext/socketchat/socketchat.cpp:99-176 | any run can go on with one end alone until it has completed a poll |
| Polls.LeavesReceiveLoop | ext/socketchat/socketchat.cpp:110-137 | an endpoint leaves its receive loop only when its buffer is nearly full, or after a read that found the ring empty when it began; whatever the peer does |
| Polls.LeavesTransmitLoop | ext/socketchat/socketchat.cpp:142-162 | an endpoint leaves its transmit loop only when nothing waits, or after a write of everything waiting that found no room when it began; whatever the peer does |
| Polls.LoopsRunDry | ext/socketchat/socketchat.cpp:110-162 | both, at every step of every interleaving, with the loops entered in the order of the source |
| Drain.RoundMoves | ext/socketchat/socketchat.cpp:110-174 | a round of sender poll and receiver poll moves exactly min(T + s, C - 2) bytes |
| Drain.RoundKeepsStream | ext/socketchat/socketchat.cpp:110-174 | a round only moves: delivered messages followed by those outstanding stay the same |
| Drain.CeilDivIsFirst | ext/socketchat/SPSC.h:109-178 | k rounds of m bytes suffice for a exactly when k is at least ceil(a / m) |
| Drain.DrainBound | ext/socketchat/socketchat.cpp:110-174 | all T + s bytes have arrived after exactly ceil((T + s) / (C - 2)) rounds and no earlier, and then every complete message is dispatched |
| Pair.Connect | ext/socketchat/socketsharedmemory.cpp:19-45 | a server and a client made on two blocks are wired to each other and share nothing else |
| Pair.Wiring | ext/socketchat/socketsharedmemory.cpp:29-44 | what one end reads is what the other had accepted, and the room one end sees is what the other left |
| Pair.PollBeside | ext/socketchat/socketchat.cpp:99-176 | a poll of one end leaves the other end's connection as it was |
| Pair.Round | ext/socketchat/socketchat.cpp:110-174 | a round on two real connections is a round of the drain model |
| Pair.DrainAll | ext/socketchat/socketchat.cpp:110-174 | two real connections polled in turns deliver everything outstanding in exactly the number of rounds of the bound |
| ChatServer.PollClient | app/TestServer/TestServer.cpp:42-50 | a poll of a connection object with the callback that keeps the last message: what its script makes of it, and the last message it delivered |
| ChatServer.ClientConnection.constructor | app/TestServer/TestServer.cpp:22-26 | a new client owns its connection and everything that depends on |
| ChatServer.ClientConnection.GetMessage | app/TestServer/TestServer.cpp:38-53 | one poll of the client's connection, and the last message it delivered, or none when it delivered none; it touches nothing but this client |
| ChatServer.ClientConnection.SendText | app/TestServer/TestServer.cpp:55-61 | the text goes to the connection of this client and of no other, cut or not as its buffer decides |
| ChatServer.NewConnection | app/TestServer/TestServer.cpp:125-131 | a client that has just connected shares nothing with the others |
| ChatServer.SimpleServer.Join | app/TestServer/TestServer.cpp:123-133 | a new client comes last and has been sent nothing |
| ChatServer.SimpleServer.SendToAll | app/TestServer/TestServer.cpp:147-150 | the log of every listed client gains the text, what its connection has still to send gains the frame of it, as far as it fits, and the broadcasts gain it once |
| ChatServer.SimpleServer.Accept | app/TestServer/TestServer.cpp:123-153 | joining and the console: a stop word is not broadcast, any other line goes to all |
| ChatServer.SimpleServer.SendTo | app/TestServer/TestServer.cpp:147-150 | sending to one client leaves every other client as it was |
| ChatServer.SimpleServer.PollOne | app/TestServer/TestServer.cpp:178-180 | one client is polled as its connection and its script have it; every other client stays as it was |
| ChatServer.SimpleServer.DropClosed | app/TestServer/TestServer.cpp:155-172 | the restart-after-erase loop ends and leaves exactly the connected clients in their order |
| ChatServer.ConnectedErase | app/TestServer/TestServer.cpp:160-171 | erasing one closed client does not change which clients the loop will leave |
| ChatServer.SimpleServer.Echo | app/TestServer/TestServer.cpp:178-189 | every client is polled once, as its connection and its script have it, and its last message is sent to all, in list order |
| ChatServer.SimpleServer.TakeTurn | app/TestServer/TestServer.cpp:121-190 | one turn of the loop, as the server machine says, with every listed client polled honestly |
| ChatServer.SimpleServer.Run | app/TestServer/TestServer.cpp:117-191 | the loop over any events, up to and including the turn with a stop word, is a run of the server machine in which every poll is what the client's connection and script make of it |
| ChatServer.SentKeepsInv | app/TestServer/TestServer.cpp:147-150 | sending keeps what a connection has enqueued equal to the encoding of its log, as long as no frame is cut |
| ChatServer.EchoKeepsInv | app/TestServer/TestServer.cpp:178-189 | polling and echoing any number of clients keeps the invariant of all of them |
| ChatServer.TurnKeepsInv | app/TestServer/TestServer.cpp:121-189 | every turn keeps, for each listed client, its log equal to the broadcasts since it joined, and its enqueued bytes equal to their encoding when no frame was cut |
| ChatServer.TurnsKeepInv | app/TestServer/TestServer.cpp:117-191 | the same over every run of the loop |
| ChatServer.CommonOrder | app/TestServer/TestServer.cpp:121-189 | in every run any two listed clients have been sent the same texts in the same order since the later joined |
| ChatServer.LineSaidOrExits | app/TestServer/TestServer.cpp:136-152 | a typed line goes to all or, if it is one of the three stop words, ends the loop |
| ChatServer.PollOnce | app/TestServer/TestServer.cpp:38-53 | a client that is polled has received what its script held, and unless that failed has delivered every complete message |
| ChatServer.ListedSays | app/TestServer/TestServer.cpp:123-172 | when the polls of a turn begin, every client still listed has been sent the console line unless there is none or it is a stop word |
| ChatServer.TurnSays | app/TestServer/TestServer.cpp:121-190 | the broadcasts of a turn are the console line, if it is no stop word, then for each client still listed, in list order, the last message its poll delivered, if any; and every listed client is sent exactly these |
| ChatServer.RunSays | app/TestServer/TestServer.cpp:117-191 | the same of every turn of every run |
| ChatServer.NewsClean | app/TestServer/TestServer.cpp:180-187 | the message a poll hands to the echo is clean and fits a buffer, whatever the client sent |
| ChatServer.TurnsKeepClean | app/TestServer/TestServer.cpp:136-188 | with clean console lines every text ever broadcast is clean, whatever the clients send |
| ChatServer.Shown | app/TestServer/TestServer.cpp:184-187 | what a client is shown of any prefix of the bytes its transport accepted is a prefix of the broadcasts since it joined |
| ChatServer.EveryoneSeesOneOrder | app/TestServer/TestServer.cpp:121-189 | in every run with clean console lines, whatever the clients send and whatever their transports do, two clients without cut frames are shown the same text at every position of the common order both have reached |
| InputLine.WorkerKeepsInv | src/InputLine.cpp:23-39 | every step of the worker, down to single bytes stored, keeps the invariant |
| InputLine.PollerKeepsInv | src/InputLine.cpp:53-71 | every step of getInputLine, down to single bytes copied, keeps the invariant |
| InputLine.RunInv | src/InputLine.cpp:21-71 | the invariant holds in every state of every interleaving |
| InputLine.NeverFilledWhileCopied | src/InputLine.cpp:21-71 | the buffer is never filled while it is copied, and no access leaves the buffers |
| InputLine.ExactlyOnce | src/InputLine.cpp:21-71 | in every run the k-th line returned is the k-th non-empty string typed, without its line feed where one was typed; at most one is in flight |
| InputLine.ChunkIsLine | src/InputLine.cpp:59-64 | what was typed without a NUL is one line, which is what was typed but for a line feed at its end |
| InputLine.StringsSplit | src/InputLine.cpp:29-33 | the strings typed are those of its parts in order, and a chunk that begins with a NUL is none |
| InputLine.LinesAreStrings | src/InputLine.cpp:59-64 | lines and non-empty strings correspond one to one |
| InputLine.WaitingLineIsTaken | src/InputLine.cpp:53-71 | in every reachable state a call that finds a line waiting returns it within 516 of its own steps and clears the flag |
| InputLine.WorkerFinishes | src/InputLine.cpp:28-34 | what the worker has read it stores, and sets the flag exactly when the string is not empty, in a bounded number of its own steps |
| InputLine.ResultIsStable | src/InputLine.cpp:59-67 | the line handed out does not change before the next call |
| InputLine.LinesClean | src/InputLine.cpp:59-64 | a typed line without its end contains no line feed and no NUL and fits the buffer |
| InputLine.ReturnedLinesSurviveFraming | src/InputLine.cpp:53-71 | in every run the returned lines, sent as messages, all arrive as typed |
| InputLine.StrLen | src/InputLine.cpp:60-60 | the length of the C string in a buffer |
| InputLine.StrCpy | src/InputLine.cpp:59-59 | the copy holds the same C string |
| InputLine.InputLine.WorkerTurn | src/InputLine.cpp:23-39 | a waiting line is left alone; otherwise a non-empty string read waits to be taken |
| InputLine.InputLine.GetInputLine | src/InputLine.cpp:53-71 | hands out the waiting string, without its line feed if it ends in one and otherwise as it is, once; and nothing when none waits |

## Left out

- Real sockets: connect, accept, select, fcntl and the mapping of errno are calls into the operating system; `Transport.Wsocket.OfSystem` takes the answers as given, so every theorem holds for any answers.
- `WsocketPlayback`: recording and playback are file I/O.
- `MemoryMap` and file naming: both peers are assumed to see the same memory, with the server's `init` before the client's and both successful; sizes are equal.
- Weak memory: the index stores of SPSC.h are relaxed. Steps here are sequentially consistent, so a data byte is visible before the index that publishes it.
- `shrinkBuffer` (ext/socketchat/SimpleBuffer.cpp:188-205): it copies into a block that it never installs, and nothing shown calls it.
- The destructor of a connection with its time-out loop, and `Timer`: wall clock.
- `pollServer` of the shared-memory transport, sequence numbers, release and deletion of objects, and client numbers, which are not unique after drops.
- CONNECTING is never entered and not modelled. A connection without a transport is not modelled either.
- Logging, `printf` and the reading of the terminal behind `fgets`; what `fgets` brings is a parameter, and so is its failure.
- The mutex of `getInputLine` is taken by one thread only and not modelled, and neither is the exit flag of the worker.
- SimpleBuffer.SimpleBuffer.GrowBuffer: requests whose size wraps around and is granted all the same are excluded, because the true result then does not mean room (`PromiseKeptIffExact`).
- SimpleBuffer.SimpleBuffer.AddBuffer: the same requests are excluded.
- SimpleBuffer.SimpleBuffer.ConfirmCapacity: the same requests are excluded.
- SocketChat.SocketChat.SendText: the same requests are excluded; they need a text of at least 3 GiB (`Frames.ShortTextIsExact`).
- SimpleBuffer.SimpleBuffer.Consume: the assertion that no more is consumed than there is, which debug builds check, is not a precondition here; the clamp behind it is modelled.
- SocketChat.SocketChat.Poll: callbacks that call back into their connection are not modelled.
- Transport.Wsocket.Receive: the conversion of counts to `int32_t` is not modelled; counts are at most the ring's capacity.
- ChatServer.SimpleServer.Join: a new client's transport is a socket of the operating system; a server over shared memory, whose one transport is also its one client, is not modelled. Console lines are at most 512 MiB; the console returns fewer than 512 bytes.
- Lossless relay by the server: earlier messages of the same poll are overwritten, as in the program.
- Draining under concurrency: the rounds of `Drain` and `Pair` are sequential, the sender's poll and then the receiver's, with no further sends, and what is outstanding leaves the receive buffer headroom for a read.
