# Proofs about the Bosch eBike BLE toolkit

This project models the hand-written protocol stack of the toolkit and proves what its sessions,
codecs, readers and BlueZ sequences do. `dafny verify dfyconfig.toml` checks all of it.

| file | what it models |
|---|---|
| `Bits.dfy` | Python's `&`, `\|`, `<<`, `>>` on unbounded naturals, and what masks and disjoint shifts mean arithmetically |
| `Mcsp.dfy`, `Commands.dfy` | frames and commands of `bosch_ble/mcsp.py` |
| `Handshake.dfy` | `is_bike_handshake`, the one-shot future and the handshake response of `bosch_ble/live.py` |
| `MessageBus.dfy`, `Responder.dfy` | `bosch_ble/messagebus.py` and the startup responder of `bosch_ble/handshake.py` |
| `Session.dfy` | `McspLiveSession` as a transition system |
| `SessionSafety.dfy`, `SessionProgress.dfy`, `SessionHandshake.dfy` | theorems about all its runs |
| `LiveSession.dfy` | the `McspLiveSession` object, each method proved to be the corresponding step |
| `Drivers.dfy` | the callbacks that `bosch_ble/handshake.py` and `bosch_ble/dashboard.py` install in a session |
| `Mgmt.dfy` | the incremental reader of management events |
| `Varint.dfy`, `Dashboard.dfy` | the protobuf readers and the dashboard state |
| `Pairing.dfy`, `Advertisement.dfy`, `Processes.dfy` | the pair/trust/connect sequence, the advertisement scan and the busy-process list of `bosch_ble/bluez.py` |

## How to read the model

**Bytes and integers.** A byte is an integer in 0..255, other integers are unbounded as in Python.
Where the code masks and shifts, a method does the same with the bit operations of `Bits.dfy` and is
proved equal to an arithmetic layout (`Mcsp.Wire`, `MessageBus.ResponseBytes`, `Varint.Read`). An
exception is an `Err`, and an error value names the `raise` it stands for. The layouts, tables,
addresses and conditions themselves are fixed by theorems about literal bytes and values
(`FrameLayout`, `CommandLayout`, `RequestRoundTrip`, `RequestToReplyBytes`, `AnswersExactly`,
`HandshakeExactly`, `StartupTable` and others).

**The session.** asyncio runs one task at a time, so a step is the code between two awaits:
a notification callback, the driver queueing something, the writer taking a packet or its write
ending, one of the four waits inside `stop()` ending, the join task running, and the handshake wait
being cancelled by its timeout. `stop()`, `Queue.join()` and the writer are coroutines; where they
are suspended is part of the state (`Phase`, `Join`, `Writer`). `History` is ghost: every packet ever
put, taken and written. A run is any sequence of enabled steps, so the theorems speak about every
interleaving. What a driver installs is a parameter of the session, `Callbacks`: the responder, and
which messages make `on_message` or the responder raise. Such an exception leaves the notification
callback: later frames of that notification are not looked at and the check for a handshake is
skipped, while what earlier frames added stays (`Handled`, `Completes`). A write that raises for any reason, `on_send` included, is the step `WriteFails`.
`join()` follows `asyncio.Queue`: `task_done()` reaching zero wakes it, and once woken it
returns even if more packets have been put since.

**The environment.** BlueZ, sudo and the scanner are one function from the commands and
answers so far to the next answer; nothing is assumed about it. The trace of commands and answers
is a value that grows. `Pairing.Next` says which command may come next, `Pairing.Follows` that a
trace obeys it; `AssistConnection` is proved to follow it to the end and the safety theorems are
proved of every trace that does. `recv` on the management socket is a list of arbitrary chunks.

## Where the code differs from what is said about it

- `docs/current-design.md:104` says that fragmented command frames are accumulated across
  notifications. The code accumulates decoded commands, and splits each notification by itself: a
  frame cut over two notifications is lost. `FragmentedFrameIsLost` gives an instance and
  `DeliveredExactly` the exact condition, together with that of the next point.
- The dashboard installs as `on_message` a method that raises on a watched notify whose payload does
  not parse (`bosch_ble/dashboard.py:234`), so one such message costs the rest of its notification:
  later commands, later replies and the check for a handshake. `DashboardMissesExactly` says when,
  `UnreadableNotifyCutsShort` gives an instance, and `DeliveredExactly` says that everything sent is
  handled if and only if every notification is a whole number of frames and no message raises. The
  handshake driver, whose callback only prints, misses nothing (`HandshakeDriverMissesNothing`).
- Handshake detection depends on how commands are grouped into notifications in one case, a
  window advance on channel 0 arriving when a complete handshake has already been seen.
  `GroupingIndependentExactly` shows that this is the only case, `GroupingMatters` what happens and
  `GroupingMattersHere` an instance.
- Re-encoding a decoded response gives its bytes back except for an explicit success status or an
  unknown status byte (`ResponseCanonicalExactly`, instance `ExplicitSuccessIsDropped`).
- A varint may be padded with zero groups; `CanonicalExactly` says when its bytes are canonical
  (instance `PaddedZero`).

The four invariants of `docs/current-design.md:108-113` are `FutureOfRun` with `DetectedInStream`,
`ResponseThenReplies`, `NoDeadlock` with `StopAlwaysFinishes`, and `QueuedBeforeStopIsWritten` with
`StopCanFlush`.

## Model

| member | source | states |
|---|---|---|
| SessionSafety.StepKeepsInv | bosch_ble/live.py:210-314 | every step keeps: unfinished count = queued items + item in flight and `task_done` never over-counts; taken ++ queued = enqueued; written = taken up to the packet in flight; the sentinel stands behind exactly what was put before it; each phase of `stop()` agrees with writer and join |
| SessionSafety.RunKeepsInv | bosch_ble/live.py:174-314 | all of that holds after every run of a new session, whatever the interleaving |
| SessionSafety.RunExtends | bosch_ble/live.py:206-265 | along every run enqueued and written only grow, the sentinel is put at most once and a dead writer stays dead |
| SessionSafety.WriterExactly | bosch_ble/live.py:206-208 | in every run the session has a writer if and only if it was started |
| SessionSafety.StopOutcome | bosch_ble/live.py:210-238 | a finished `stop()` raises the writer's error if and only if the writer died, even if `stop_notify` failed too; otherwise exactly the packets put before the sentinel were written, once and in order, and `stop()` returns or raises the `stop_notify` error |
| SessionSafety.FailedWriteIsRaised | bosch_ble/live.py:221-238 | in every run that contains a failed write and in which `stop()` ends, `stop()` raises that write's error |
| SessionSafety.StopNotifyFailureIsRaised | bosch_ble/live.py:211-238 | in every run in which `stop()` ends with a writer that did not die, it raises exactly what `stop_notify` raised in that run, and returns if that returned |
| SessionSafety.SentinelOrigin | bosch_ble/live.py:227-230 | the sentinel comes from a wake-up of `stop()` whose join had returned while the writer lived, and marks everything enqueued up to that moment |
| SessionSafety.NormalStopFlushes | bosch_ble/live.py:210-238 | when `stop()` ends a started session without a writer error, the bytes written are exactly what was enqueued at the wake-up that sent the sentinel, the one whose join had returned while the writer lived |
| SessionSafety.QueuedBeforeStopIsWritten | bosch_ble/live.py:206-238 | in a started session that `stop()` ends without a writer error, everything enqueued when `stop()` was called is the beginning of what was written |
| SessionSafety.JoinWaitsForTheQueue | bosch_ble/live.py:220-228 | `join()` lets go only after a moment, since its task was made, with an empty queue and no write in flight |
| SessionSafety.RunRoutesReplies | bosch_ble/live.py:250-311 | over any run without a handshake response, what is queued is the caller's own packets and, once the handshake is answered, the replies to what is received, all in arrival order; until then exactly those replies wait in the buffer |
| SessionSafety.NothingBeforeTheResponse | bosch_ble/live.py:303-311 | before the handshake is answered nothing but the caller's own packets is queued, and the buffer holds exactly the replies so far |
| SessionSafety.ResponseThenReplies | bosch_ble/live.py:243-252 | in every run with one handshake response, taken ++ still queued = the caller's earlier packets ++ the nine response packets ++ replies to all messages handled earlier ++ everything later as it came, and the buffer stays empty |
| SessionSafety.OneResponseDelivered | bosch_ble/live.py:210-265 | what a whole such session that stops without writer error has written: exactly that sequence up to the wake-up that sent the sentinel, or only the caller's own packets if the response came after it |
| SessionSafety.DriversSendResponseThenReplies | bosch_ble/handshake.py:162-169 | in every run of a driver that queues nothing but one response, taken ++ still queued is the nine response packets and then the replies to all messages handled, in arrival order |
| SessionProgress.NoDeadlock | bosch_ble/live.py:217-235 | in every state satisfying the invariant with `stop()` under way some internal step is enabled |
| SessionProgress.DeadWriterBlocksJoin | bosch_ble/live.py:220-235 | when the writer has died with packets queued, `join()` never returns again in any run, so waiting for it alone would hang |
| SessionProgress.InternalStepWorks | bosch_ble/live.py:210-265 | every internal step strictly decreases a measure over queue length, writer, join and phase |
| SessionProgress.StopAlwaysFinishes | bosch_ble/live.py:210-238 | from every reachable state in which `stop()` has begun, runs without new traffic are bounded, and where they can go no further `stop()` has finished |
| SessionProgress.StopCanFlush | bosch_ble/live.py:206-238 | from every moment of a started session whose writer lives, `stop()` can be called, and with nothing going wrong it returns having written everything enqueued |
| SessionProgress.FreshSessionFlushes | bosch_ble/live.py:206-265 | start, queue any packets, stop: a continuation without failures writes exactly those packets and `stop()` returns |
| SessionProgress.AnythingMayArrive | bosch_ble/live.py:240-267 | notifications, packets, responses and the timeout can come at any moment of any run |
| SessionProgress.StartableOnce | bosch_ble/live.py:206-208 | a session not stopped can be started if and only if it has not been |
| SessionHandshake.FutureOfRun | bosch_ble/live.py:278-314 | after every run without a timeout, accumulated commands and future are those of the notifications received; one that is refused counts for nothing, one cut short leaves its commands to the next that is handled to its end |
| SessionHandshake.SettledFutureStays | bosch_ble/live.py:313-314 | once resolved or cancelled, the future never changes |
| SessionHandshake.TimeoutCancels | bosch_ble/live.py:240-241 | a timeout cancels a pending future for the rest of the run and leaves any other alone |
| SessionHandshake.DetectedExactly | bosch_ble/live.py:278-314 | without a late channel-0 advance, the future is resolved after a run if and only if the commands up to the last notification handled to its end form a handshake |
| SessionHandshake.ResolvedIsAnswerable | bosch_ble/live.py:240-244 | in every run, the commands handed to a waiting driver are a handshake and the response to them can be encoded |
| SessionHandshake.RefusedResponseExactly | bosch_ble/live.py:243-248 | the response cannot be built if and only if some command has a negative size, and then nothing changes |
| SessionHandshake.HandledBytes | bosch_ble/live.py:267-311 | the frames handled carry exactly the bytes sent if and only if every notification was handled to its end |
| SessionHandshake.DeliveredExactly | bosch_ble/live.py:267-311 | a stream of frames delivered in pieces is handled whole if and only if every piece splits by itself and no message in it raises |
| SessionHandshake.FragmentedFrameIsLost | bosch_ble/live.py:267-276 | a version command cut over two notifications contributes no command |
| SessionHandshake.OfFramesHandled | bosch_ble/live.py:278-311 | the commands accumulated and the replies given in any run are those of the frames handled, in order |
| SessionHandshake.FrameGroupingIsInvisible | bosch_ble/live.py:278-311 | however a frame stream is cut between frames, if no message raises, the same commands accumulate and the same replies are given |
| SessionHandshake.MessageIsAnswered | bosch_ble/live.py:295-311 | a message that does not raise, received in any state, makes all the responder's packets and nothing else be queued, or be held back before the handshake is answered |
| SessionHandshake.CommandIsCounted | bosch_ble/live.py:282-294 | a frame on the command channel that starts with a command's encoding accumulates exactly that command, settles the future if that completes a handshake, and queues nothing |
| SessionHandshake.DetectedInStream | bosch_ble/live.py:267-314 | so such a frame stream is detected as a handshake, or not, independently of how it is cut into notifications |
| Session.CompletesExactly | bosch_ble/live.py:267-314 | a notification contributes all its frames, and is checked for a handshake, if and only if it splits and none of its messages raises |
| Session.HandledIsMaximal | bosch_ble/live.py:279-303 | what a notification contributes ends right before the first message that raises |
| LiveSession.McspLiveSession.constructor | bosch_ble/live.py:188-204 | a new session is in the initial state |
| LiveSession.McspLiveSession.StartSession | bosch_ble/live.py:206-208 | whole new state: the writer exists and waits |
| LiveSession.McspLiveSession.Enqueue | bosch_ble/live.py:250-252 | the loop of `put_nowait` appends all packets in order and counts each as unfinished |
| LiveSession.McspLiveSession.AnswerHandshake | bosch_ble/live.py:243-248 | response packets, then the pending ones, are queued and later replies go straight to the queue; if the response cannot be built nothing changes |
| LiveSession.McspLiveSession.NotifyHandler | bosch_ble/live.py:267-314 | the whole new state: commands accumulated, replies queued or held back, the future settled once at the end; a notification that does not split changes nothing; a message that raises ends it there, without settling, and the method says so |
| LiveSession.McspLiveSession.HandleFrames | bosch_ble/live.py:279-311 | the loop over a notification's frames adds the commands and replies of all frames before the first that raises, in order, and raises exactly when there is one |
| LiveSession.McspLiveSession.HandleFrame | bosch_ble/live.py:279-311 | what one frame adds: a decodable command, or the replies to a decodable message; nothing when its message raises |
| LiveSession.McspLiveSession.SettleFuture | bosch_ble/live.py:313-314 | the future is set only while pending and only with a complete handshake |
| LiveSession.McspLiveSession.WriterGet | bosch_ble/live.py:255-259 | takes the oldest item; the sentinel is marked done and ends the writer |
| LiveSession.McspLiveSession.WriteEnds | bosch_ble/live.py:260-265 | a write that ends either way is marked done; a failed one kills the writer |
| LiveSession.McspLiveSession.RunWriter | bosch_ble/live.py:254-265 | the writer loop is a run of writer steps and stops only on an empty queue, on the sentinel or on a failed write |
| LiveSession.McspLiveSession.StopNotifyEnds | bosch_ble/live.py:211-220 | the `stop_notify` error is kept; without a writer `stop()` ends here |
| LiveSession.McspLiveSession.StopResumes | bosch_ble/live.py:221-238 | the wake-up of `stop()`: the writer's end decides the outcome, otherwise the sentinel is put; a join still running is cancelled first |
| LiveSession.McspLiveSession.CancellationEnds | bosch_ble/live.py:232-238 | the outcome survives the cancellation of the join |
| Drivers.StartupResponderNeverRaises | bosch_ble/handshake.py:147-150 | the responder both drivers install returns packets for every frame and message |
| Drivers.OwnRepliesAreIgnored | bosch_ble/live.py:295-311 | a session that receives one of its own replies as a notification queues nothing and accumulates no command |
| Drivers.HandshakeDriverMissesNothing | bosch_ble/handshake.py:156-158 | with the handshake driver's callbacks every notification that splits is handled to its end |
| Drivers.DriverAnswersStream | bosch_ble/handshake.py:143-150 | however a stream of frames arrives, cut between frames, the handshake driver's replies are exactly the packets the startup responder returns for each of them, in order |
| Drivers.DashboardMissesExactly | bosch_ble/dashboard.py:230-234 | with the dashboard's, a notification that splits is cut short if and only if it holds a watched message that does not parse |
| Drivers.UnreadableNotifyCutsShort | bosch_ble/dashboard.py:230-234 | a charging notify with a truncated varint before a read request: the handshake driver answers the request, the dashboard does not |
| Mcsp.PackFrame | bosch_ble/mcsp.py:103-110 | the masked and shifted header is the arithmetic layout; payloads over 4095 bytes are refused |
| Mcsp.UnpackFrame | bosch_ble/mcsp.py:69-83 | the unmasked header fields are the arithmetic ones; short frames and length mismatches are refused |
| Mcsp.SplitFrames | bosch_ble/mcsp.py:86-100 | the offset loop computes the recursive split, and its inner frame decode never fails |
| Mcsp.DecodeEncodeFrame | bosch_ble/mcsp.py:69-110 | decoding an encoded frame gives it back |
| Mcsp.FrameLayout | bosch_ble/mcsp.py:86-110 | the exact bytes of a frame, which exist exactly for payloads of up to 4095 bytes, and that they split back into it |
| Mcsp.SplitOfEncoded | bosch_ble/mcsp.py:86-110 | splitting the concatenated encodings of any frames gives those frames |
| Mcsp.EncodeOfSplit | bosch_ble/mcsp.py:86-110 | re-encoding an accepted byte string gives exactly its bytes |
| Mcsp.SplitAcceptsExactlyEncodings | bosch_ble/mcsp.py:86-110 | a byte string is accepted if and only if it is a concatenation of encoded frames |
| Mcsp.EncodeAllInjective | bosch_ble/mcsp.py:86-110 | different frame lists have different encodings |
| Mcsp.RefusedHasCutFrame | bosch_ble/mcsp.py:90-97 | a refused byte string is whole frames followed by a cut one, and the error says whether its header or its payload is cut |
| Commands.ToBigEndianFits | bosch_ble/mcsp.py:158-166 | `to_bytes` succeeds exactly in range and `from_bytes` undoes it |
| Commands.CommandRoundTrip | bosch_ble/mcsp.py:113-167 | exactly the in-range commands encode, and decode back whatever follows them |
| Commands.CommandCanonical | bosch_ble/mcsp.py:113-167 | an accepted payload starts with the encoding of the command it decodes to |
| Commands.DecodesExactly | bosch_ble/mcsp.py:113-167 | a payload decodes to a command if and only if the command is in range and its encoding is a prefix of the payload |
| Commands.CommandLayout | bosch_ble/mcsp.py:113-167 | the exact bytes of each command, and that they decode to it whatever follows |
| Commands.PacketsRoundTrip | bosch_ble/mcsp.py:144-177 | packets of in-range commands, concatenated, decode to those commands; one command out of range and encoding fails |
| Commands.CommandFramesExactly | bosch_ble/mcsp.py:144-151 | frames decode to a list of commands if and only if each is on the command channel and decodes to its command |
| Handshake.HandshakeIsASetProperty | bosch_ble/live.py:55-68 | order and duplicates of commands do not matter |
| Handshake.HandshakeExactly | bosch_ble/live.py:55-68 | a handshake is version 3, some maximum packet size, and an advance on each of the channels 1 to 7 and none on 0 |
| Handshake.MoreCommandsKeepHandshake | bosch_ble/live.py:55-68 | only a channel-0 advance can undo a handshake |
| Handshake.FutureIsSetOnce | bosch_ble/live.py:313-314 | the future is set at the first notification boundary at which the accumulated commands form a handshake, with those commands, and never again |
| Handshake.GroupingDoesNotMatter | bosch_ble/live.py:278-314 | without a late channel-0 advance every grouping detects the same |
| Handshake.GroupingMatters | bosch_ble/live.py:278-314 | with one, two groupings of the same commands disagree |
| Handshake.GroupingMattersHere | bosch_ble/live.py:278-314 | ten concrete commands that are detected in two notifications and not in one |
| Handshake.GroupingIndependentExactly | bosch_ble/live.py:278-314 | detection is independent of grouping if and only if there is no late channel-0 advance |
| Handshake.NegotiatedIsGreatestLowerBound | bosch_ble/live.py:96-103 | the negotiated size is the greatest lower bound of the local size and all advertised ones |
| Handshake.HandshakeResponse | bosch_ble/live.py:92-112 | the response exists exactly when that size fits two bytes; the bike then decodes version 3, that size and one disable-flow-control per channel 1..7 from the nine packets |
| Handshake.OfferedSize | bosch_ble/live.py:92-112 | the nine packets offer 244 bytes, or the least size the bike advertised if that is less |
| Handshake.DecodedCommandsAreAnswered | bosch_ble/live.py:92-112 | commands that came off the wire can always be answered |
| MessageBus.DecodeDirectedFrame | bosch_ble/messagebus.py:173-199 | the masks and shifts read the arithmetic layout, with the status byte present exactly on a non-success response |
| MessageBus.DecodeMessageFrame | bosch_ble/messagebus.py:202-211 | the top bit of the first byte decides between notify and directed frame |
| MessageBus.EncodeResponse | bosch_ble/messagebus.py:214-234 | the bytes appended are the arithmetic layout; only response types are accepted |
| MessageBus.EncodeNotify | bosch_ble/messagebus.py:302-303 | the address carries the notify bit |
| MessageBus.RequestRoundTrip | bosch_ble/messagebus.py:173-211 | the exact bytes of any non-response message with any source, destination, sequence and payload decode to it, with success as status |
| MessageBus.RequestIsCanonical | bosch_ble/messagebus.py:173-211 | whatever decodes to a non-response message consists of exactly those bytes |
| MessageBus.ResponseIsRead | bosch_ble/messagebus.py:186-199 | the exact bytes of a response, marked or with a status byte, decode to it; an unknown status reads as 0xFF |
| MessageBus.ResponseIsWritten | bosch_ble/messagebus.py:214-234 | the exact bytes a response is encoded to |
| MessageBus.NotifyIsWritten | bosch_ble/messagebus.py:202-303 | the exact bytes of a notify, and that they decode to it |
| MessageBus.RefusedExactly | bosch_ble/messagebus.py:173-211 | the decoder raises if and only if the bytes are too short for an address, a header or a status byte, or the type is unknown |
| MessageBus.ResponseRoundTrip | bosch_ble/messagebus.py:173-234 | any response decodes to its type, sequence, status and payload with addresses swapped (all reduced to their field widths), and never as a notify |
| MessageBus.NotifyRoundTrip | bosch_ble/messagebus.py:202-303 | an encoded notify always decodes as that notify |
| MessageBus.ParsedFits | bosch_ble/messagebus.py:146-211 | decoded addresses are below 0x8000 and sequences below 16 |
| MessageBus.ResponseCanonicalExactly | bosch_ble/messagebus.py:173-234 | re-encoding a decoded response gives its bytes back if and only if its status byte is absent or a known non-success status |
| MessageBus.ExplicitSuccessIsDropped | bosch_ble/messagebus.py:186-231 | a concrete response with an explicit success status re-encodes to other bytes |
| Responder.BuildStartupResponsePackets | bosch_ble/handshake.py:24-104 | the branches that append responses compute the specified replies |
| Responder.ResponderSaysWhatIsExpected | bosch_ble/handshake.py:24-104 | for every message on a message channel the responder does not raise, and each packet reads back as one end-of-channel frame on that channel carrying exactly the expected reply: a response for each request, plus the current value for a supported subscriber |
| Responder.AnswerToWireRequest | bosch_ble/handshake.py:29-104 | from a request's bytes to the first packet: it reads back, on the same channel, as the response of type one above from the request's destination to its source, same sequence, success if and only if the tables support the request, with the provider's payload for a read |
| Responder.RequestToReplyBytes | bosch_ble/handshake.py:29-104 | from a request's bytes to the exact bytes of all its replies, the notify of a supported subscription included |
| Responder.SupportedExactly | bosch_ble/handshake.py:37-93 | which request types are supported at which addresses |
| Responder.OnlyRequestsAreAnswered | bosch_ble/handshake.py:29-35 | command frames, notifies and responses are not answered |
| Responder.StartupTable | bosch_ble/messagebus.py:82-111 | the addresses that have a startup value, and the values |
| Responder.ReadOfStartupValue | bosch_ble/handshake.py:39-50 | the bytes 01 00 40 81 00 are answered with 40 81 81 00 10 08 24 |
| Responder.RaisesExactly | bosch_ble/handshake.py:29-35 | without a decoded message the responder raises exactly on undecodable frames of message channels |
| Responder.NoReplyStorm | bosch_ble/handshake.py:34-104 | a packet the responder produced, fed back, yields no packets |
| Responder.RepliesKeepTheirChannel | bosch_ble/handshake.py:95-104 | every reply is one frame on the channel of the request |
| Responder.StartupPayloadsAreShort | bosch_ble/messagebus.py:82-111 | every provider payload of the real table fits a frame |
| Mgmt.ReceiveMgmtResponse | bosch_ble/mgmt.py:96-120 | for every chunking, empty chunks included, the reader returns the first answering event of a one-shot parse of the whole stream; its retained buffer is the unparsed suffix, at most 65540 bytes |
| Mgmt.FirstAnswerIsFirst | bosch_ble/mgmt.py:110-117 | that event answers and no earlier one does |
| Mgmt.AnswersExactly | bosch_ble/mgmt.py:110-117 | an event answers if and only if its code is 1 or 2 and its payload begins with 35 00 and a status |
| Mgmt.AnswerIsReturned | bosch_ble/mgmt.py:103-117 | a stream beginning with the exact bytes of such an event, any index, status and rest, gives its code and status |
| Mgmt.OthersAreSkipped | bosch_ble/mgmt.py:103-118 | the exact bytes of an event with another code, another opcode or a shorter payload change nothing |
| Mgmt.FirstOfStream | bosch_ble/mgmt.py:103-120 | for any list of events written out, followed by an incomplete piece, the answer is that of the first such event, if any |
| Mgmt.PermissionDenied | bosch_ble/mgmt.py:114-117 | a concrete Command Status event is returned |
| Mgmt.EventsConcat | bosch_ble/mgmt.py:102-120 | parsing more bytes is parsing from the unparsed suffix on |
| Mgmt.UnparsedIsIncomplete | bosch_ble/mgmt.py:104-120 | the unparsed suffix holds no complete event and is at most 65540 bytes |
| Mgmt.StreamOfEvents | bosch_ble/mgmt.py:104-109 | every stream is its events written out, then the unparsed suffix |
| Mgmt.EventsOfStream | bosch_ble/mgmt.py:104-109 | and every list of events written out is parsed back |
| Varint.ParseVarint | bosch_ble/dashboard.py:18-29 | the shift-and-or loop computes the varint at the offset and where it ends, and fails exactly when there is none |
| Varint.ReadMeaning | bosch_ble/dashboard.py:18-29 | a varint ends with its first byte below 128, is the little-endian sum of its 7-bit groups and is below 2^(7 * length); there is none if and only if no byte is below 128 |
| Varint.ReadEncoded | bosch_ble/dashboard.py:18-29 | the base-128 encoding of every natural, followed by anything, reads back |
| Varint.CanonicalExactly | bosch_ble/dashboard.py:18-29 | a varint's bytes are its value's encoding if and only if its last byte is not a redundant zero |
| Varint.PaddedZero | bosch_ble/dashboard.py:18-29 | a two-byte spelling of zero is accepted |
| Varint.ParseVarintFields | bosch_ble/dashboard.py:32-43 | the field loop computes the recursive reading, with its errors |
| Varint.FieldsMerge | bosch_ble/dashboard.py:32-43 | if a parses, a ++ b parses exactly when b does, to a's map overridden by b's, and with b's error otherwise |
| Varint.FieldsRoundTrip | bosch_ble/dashboard.py:32-43 | any list of encoded fields reads back as the map in which the last value wins |
| Varint.FieldLayout | bosch_ble/dashboard.py:36-42 | a key is a field number times eight plus the wire type, only wire type 0 is accepted, and 08 24 says that field 1 is 36 |
| Varint.ThreeHundred | bosch_ble/dashboard.py:18-29 | 300 is AC 02 |
| Dashboard.DashboardState.ApplyMessage | bosch_ble/dashboard.py:90-137 | after any message, also one whose payload raises, every field is its meaning for the whole history; it raises exactly when a payload it needs does not parse |
| Dashboard.DashboardState.RecordDecodeFailure | bosch_ble/dashboard.py:235-237 | a decoding failure only adds its text to the recent lines |
| Dashboard.ChargerMeaning | bosch_ble/dashboard.py:119-150 | for every history the charger flag is unknown exactly when no charging reading was ever known, and otherwise says whether either reading was true at the last moment one was known |
| Dashboard.LatestReadingIsLatest | bosch_ble/dashboard.py:109-137 | the meaning of a reading is the last parseable notify from its address, with nothing parseable after it |
| Dashboard.ReadingIsFieldOne | bosch_ble/dashboard.py:46-59 | the latest reading of an address becomes field 1 of each notify from it that parses, zero included, and nothing else changes it |
| Dashboard.BatteryReadings | bosch_ble/dashboard.py:111-142 | battery after a reading of 0x00BC or 0x0088: the system's value first, else the pack's |
| Dashboard.ChargerReadings | bosch_ble/dashboard.py:119-150 | charger flag after a reading of 0x008A or 0x00C4 |
| Dashboard.AssistReadings | bosch_ble/dashboard.py:127-131 | assist mode after a reading of 0x181E |
| Dashboard.SpeedReadings | bosch_ble/dashboard.py:132-137 | speed after a reading of 0x182D, by its validity field |
| Dashboard.StageReadings | bosch_ble/dashboard.py:102-107 | startup stage after any directed message, which matters only to 0x40A9 |
| Dashboard.UnreadableExactly | bosch_ble/dashboard.py:102-137 | the seven addresses whose unparseable payload raises |
| Dashboard.NothingKnownYet | bosch_ble/dashboard.py:73-85 | before the first message every value is unknown |
| Dashboard.ChargerIgnoresOthers | bosch_ble/dashboard.py:144-150 | nothing but the two charging readings moves the charger flag |
| Dashboard.RecentSnoc | bosch_ble/dashboard.py:88-93 | a bounded deque holds the last `recent_limit` summaries of the history |
| Pairing.AssistConnection | bosch_ble/bluez.py:994-1062 | against any environment the sequence follows the protocol to its end, which has one of the reasons of `IsOver`, and returns its verdict |
| Pairing.PairDevice | bosch_ble/bluez.py:1013-1039 | at most three pair commands; ends with at least one, going on to trust or connect by the state of the successful attempt's scan, or with the failure that ends the run, and gives up on pairing only after a failure that was not transient or the third |
| Pairing.PairOnce | bosch_ble/bluez.py:1016-1036 | one attempt issues one pair command and is retried only below the third |
| Pairing.PrepareConnectAttempt | bosch_ble/bluez.py:964-991 | on success exactly the eight setup steps were added, in order and all successful; any other outcome of one ends the run |
| Pairing.RunIsUnique | bosch_ble/bluez.py:994-1062 | against a given environment the protocol has one finished run, so following it determines trace and result |
| Pairing.RunEndsOnlyFor | bosch_ble/bluez.py:905-1062 | a run is over only because a command raised, a setup command failed, the scan did not find the bike ready, or a last look settled the matter, after a pair command only if it was not transient or the third |
| Pairing.GivesUpRightly | bosch_ble/bluez.py:1030-1034 | a run that fails to pair had a failure that was not transient, or three pair commands |
| Pairing.RetriesAfterTransientFailure | bosch_ble/bluez.py:1030-1036 | after a transient failure that left the device unpaired, with fewer than three pair commands so far, every finished run pauses and starts another attempt |
| Pairing.VerdictExactly | bosch_ble/bluez.py:1033-1062 | what is returned or raised at each end |
| Pairing.Predecessor | bosch_ble/bluez.py:905-1057 | every run begins with the lookup, and each later command comes right after an event that calls for it |
| Pairing.KnownStateDecides | bosch_ble/bluez.py:1011-1050 | between preparing, trusting and connecting the last known state decides |
| Pairing.WorkingIsLastReport | bosch_ble/bluez.py:1001-1017 | that state is the one of the last scan, or of the first lookup if it knew the device |
| Pairing.PairsArePrepared | bosch_ble/bluez.py:905-1036 | in every run each pair command uses the chosen backend and comes right after a complete successful preparation of that attempt; fewer than three precede it, and if any does, the attempt follows a transient failure that left the device unpaired |
| Pairing.AtMostThreePairs | bosch_ble/bluez.py:1014-1036 | no run has pair commands at more than three positions |
| Pairing.TrustsPaired | bosch_ble/bluez.py:1041-1048 | trust is issued only right after the device was reported paired or a pair command worked |
| Pairing.ConnectsOncePairedAndTrusted | bosch_ble/bluez.py:1041-1050 | connect is issued at most once, only after paired and trusted were each reported or successfully set, and only one look follows it |
| Pairing.SucceedsExactly | bosch_ble/bluez.py:1050-1062 | a run succeeds if and only if its connect command worked or the device is connected anyway, and the last look does not deny it |
| Advertisement.AdvertisementScan.DetectionCallback | bosch_ble/bluez.py:361-371 | after any detections the callback keeps the latest one of the device up to the first in pairing mode |
| Advertisement.KeptExactly | bosch_ble/bluez.py:340-383 | something is kept exactly when the device was seen, and it is in pairing mode exactly when the device ever was |
| Advertisement.KeptIsFirstPairingOrLast | bosch_ble/bluez.py:361-371 | what is kept is the first detection of the device in pairing mode, or else the last one |
| Advertisement.PairingExactly | bosch_ble/bluez.py:340-349 | pairing mode is exactly six bytes of Bosch data ending in 1 |
| Advertisement.ReadyExactly | bosch_ble/bluez.py:386-392 | an attempt may go on after its scan if and only if the bike was seen and is either paired already or was seen in pairing mode |
| Processes.IgnoredPids | bosch_ble/bluez.py:681-685 | for every parent table, cyclic ones included, the walk ends and what is ignored is exactly the current process and its ancestors above 1, which is the least set closed under parents |
| Processes.ParentExactly | bosch_ble/bluez.py:682-685 | the parent of a listed process is the listed one, and an unlisted one has none unless it is the current process |
| Processes.ListBusyProcesses | bosch_ble/bluez.py:687-695 | the list shows exactly the matching rows that are not ssh and not ignored, in table order |
| Processes.BusyExactly | bosch_ble/bluez.py:687-695 | which argument strings make a process busy |
| Processes.ContainsExactly | bosch_ble/bluez.py:693 | a pattern occurs exactly when the string is something, the pattern and something |
| Processes.BusyRowsUnique | bosch_ble/bluez.py:687-695 | that description fixes the list |

## Left out

- Bluetooth, D-Bus, subprocesses, sockets, sudo and files: their results are the steps' parameters, the environment function or the list of chunks.
- `find_mcsp_transport`, `connected_client`, `wait_for_handshake` as a call and the clock: of timeouts only the cancellation of the handshake wait is modelled, as a step that may come at any time.
- Of the callbacks, `on_message` and the responder may raise, and whether a message makes them raise depends on the message alone; `on_notify`, `on_frame`, `on_command` and `on_decode_error`, which print or append a line of text, are absent and assumed not to raise. A session without a responder is one whose responder returns nothing.
- Calling `start()` twice or after `stop()`, calling `stop()` twice, and cancelling a caller while it is inside `stop()`: the drivers in `bosch_ble/handshake.py` and `bosch_ble/dashboard.py` call each once.
- The coroutines' program counters: suspension points are fields of the model's class (`writerTask`, `joinTask`, `stopPhase`, `stopError`), not a stack.
- Answering the handshake twice: the ordering theorems speak of runs with one response, which is what the drivers send; the invariant, `StopOutcome` and `NormalStopFlushes` hold in any case.
- Scheduling: that an awaited Bluetooth call eventually ends, and that an enabled step is eventually taken, is the premise under which `StopAlwaysFinishes` means termination.
- Blocking for ever in `recv` is modelled by running out of chunks, which returns nothing; encoding the management command, Bluetooth address text and status names are absent.
- Of `assist_connection`: the reasons in error texts, the verbose printing, the removal of the agent, and the text patterns that classify an answer as transient or unavailable; an answer carries those two classifications.
- Parsing the output of `ps`: the busy list starts from the parsed table, with what the kernel reports as parent of a current process missing from it.
- Of the dashboard state: assist mode and startup stage are kept as numbers instead of the texts made from them, the one-line summary of a frame is a parameter and `updated_at` is absent.
- Hexadecimal text as input of the message decoders, the other entries of the address-name table, and the five one-line wrappers around `_encode_response`.
- Scan and dashboard rendering, command lines, log formatting and `validate_live`, `bosch_ble/esphome_proxy.py`, `probe.py`, `log_chars.py`, `trace_connect.py`: printing, text scraping and library glue.
