/** `McspLiveSession` of `bosch_ble/live.py` as a transition system: one step per stretch of
    code that runs between two awaits, plus the environment's moves. */
module Session {
  import opened Bits
  import opened Wrappers
  import opened Mcsp
  import opened Commands
  import opened Handshake
  import MessageBus

  /** What a driver installs: the startup responder, and which messages make `on_message` or the
      responder raise. */
  datatype Callbacks = Callbacks(
    respond: (Frame, MessageBus.MessageFrame) -> seq<Bytes>,
    raises: (Frame, MessageBus.MessageFrame) -> bool)

  /** The writer task. `Idle` is suspended in `get()`, `Writing` in `write_gatt_char`. */
  datatype Writer = NotStarted | Idle | Writing(packet: Bytes) | Returned | Failed(error: string)

  /** The task wrapping `Queue.join()`. `Blocked` waits for the unfinished count to reach zero,
      `Released` has been woken by that, `Joined` has returned. */
  datatype Join = NotCreated | Fresh | Blocked | Released | Joined | JoinCancelled

  datatype Outcome = Normal | WriterError(error: string) | StopNotifyError(error: string)

  /** Where `stop()` is. */
  datatype Phase =
    | Live
    | StoppingNotify
    | Waiting
    | AwaitingWriter
    | CancellingJoin(pending: Outcome)
    | Finished(outcome: Outcome)

  datatype State = State(
    sendQueue: seq<Option<Bytes>>,
    unfinished: int,
    writer: Writer,
    startupPacketsPending: seq<Bytes>,
    startupReady: bool,
    handshakeCommands: seq<Command>,
    handshakeFuture: Future,
    join: Join,
    phase: Phase,
    stopError: Option<string>,
    history: History)

  /** What no code reads: every packet ever put, taken and written, how many puts preceded the
      sentinel, and whether `task_done()` was ever called too often. */
  datatype History = History(
    enqueued: seq<Bytes>,
    taken: seq<Bytes>,
    written: seq<Bytes>,
    sentinelAt: Option<nat>,
    overcounted: bool)

  const INITIAL := State([], 0, NotStarted, [], false, [], Pending, NotCreated, Live, None,
                         History([], [], [], None, false))

  datatype Step =
    | Start
    | NotifyReceived(payload: Bytes)
    | QueuePackets(packets: seq<Bytes>)
    | QueueHandshakeResponse(commands: seq<Command>)
    | HandshakeTimeout
    | WriterTakes
    | WriteSucceeds
    | WriteFails(error: string)
    | StopCalled
    | StopNotifyReturns(failure: Option<string>)
    | JoinRuns
    | StopWakes
    | JoinCancellationEnds

  // ---------- what a notification contains ----------

  function CommandIn(f: Frame): seq<Command> {
    if f.channel != COMMAND then []
    else match DecodeCommandFrame(f)
         case Ok(c) => [c]
         case Err(_) => []
  }

  function RepliesTo(callbacks: Callbacks, f: Frame): seq<Bytes> {
    if f.channel == COMMAND then []
    else match MessageBus.ParseMessage(f.payload)
         case Ok(message) => callbacks.respond(f, message)
         case Err(_) => []
  }

  predicate Raises(callbacks: Callbacks, f: Frame) {
    f.channel != COMMAND && MessageBus.ParseMessage(f.payload).Ok?
    && callbacks.raises(f, MessageBus.ParseMessage(f.payload).value)
  }

  /** The frames before the first one whose message raises: an exception leaves the callback. */
  function Handled(callbacks: Callbacks, fs: seq<Frame>): (handled: seq<Frame>)
    ensures handled <= fs
  {
    if fs == [] then []
    else
      var front := fs[..|fs| - 1];
      if Handled(callbacks, front) == front && !Raises(callbacks, fs[|fs| - 1]) then fs
      else Handled(callbacks, front)
  }

  function CommandsOf(fs: seq<Frame>): seq<Command> {
    if fs == [] then [] else CommandsOf(fs[..|fs| - 1]) + CommandIn(fs[|fs| - 1])
  }

  function RepliesOf(callbacks: Callbacks, fs: seq<Frame>): seq<Bytes> {
    if fs == [] then [] else RepliesOf(callbacks, fs[..|fs| - 1]) + RepliesTo(callbacks, fs[|fs| - 1])
  }

  /** The frames of a notification that are handled: none when it does not split. */
  function FramesIn(callbacks: Callbacks, payload: Bytes): seq<Frame> {
    if Split(payload).Ok? then Handled(callbacks, Split(payload).value) else []
  }

  /** Whether the notification callback reaches its end. */
  predicate Completes(callbacks: Callbacks, payload: Bytes) {
    Split(payload).Ok? && FramesIn(callbacks, payload) == Split(payload).value
  }

  function CommandsIn(callbacks: Callbacks, payload: Bytes): seq<Command> {
    CommandsOf(FramesIn(callbacks, payload))
  }

  function RepliesIn(callbacks: Callbacks, payload: Bytes): seq<Bytes> {
    RepliesOf(callbacks, FramesIn(callbacks, payload))
  }

  /** A notification is handled to the end exactly when it splits and none of its messages raises. */
  lemma CompletesExactly(callbacks: Callbacks, payload: Bytes)
    ensures Completes(callbacks, payload) <==>
            && Split(payload).Ok?
            && forall i | 0 <= i < |Split(payload).value| :: !Raises(callbacks, Split(payload).value[i])
  {
    if Split(payload).Ok? {
      var _ := HandledIsMaximal(callbacks, Split(payload).value);
    }
  }

  lemma HandledStops(callbacks: Callbacks, fs: seq<Frame>, n: nat)
    requires n <= |fs| && forall i | 0 <= i < n :: !Raises(callbacks, fs[i])
    requires n < |fs| ==> Raises(callbacks, fs[n])
    ensures Handled(callbacks, fs) == fs[..n]
  {
    var m := HandledIsMaximal(callbacks, fs);
  }

  lemma HandledNext(callbacks: Callbacks, fs: seq<Frame>, i: nat)
    requires i < |fs| && Handled(callbacks, fs[..i]) == fs[..i]
    ensures if Raises(callbacks, fs[i]) then Handled(callbacks, fs) == fs[..i]
            else Handled(callbacks, fs[..i + 1]) == fs[..i + 1]
  {
    if Raises(callbacks, fs[i]) {
      var n := HandledIsMaximal(callbacks, fs[..i]);
      forall j | 0 <= j < i
        ensures !Raises(callbacks, fs[j])
      {
        assert n == i && fs[..i][j] == fs[j];
      }
      HandledStops(callbacks, fs, i);
    } else {
      assert fs[..i + 1][..i] == fs[..i];
    }
  }

  /** Otherwise what is handled ends right before the first message that raises. */
  lemma {:induction false} HandledIsMaximal(callbacks: Callbacks, fs: seq<Frame>) returns (n: nat)
    ensures n <= |fs| && Handled(callbacks, fs) == fs[..n]
    ensures forall i | 0 <= i < n :: !Raises(callbacks, fs[i])
    ensures n < |fs| ==> Raises(callbacks, fs[n])
  {
    if fs == [] {
      n := 0;
    } else {
      var front := fs[..|fs| - 1];
      n := HandledIsMaximal(callbacks, front);
      if n == |front| && !Raises(callbacks, fs[|front|]) {
        n := |fs|;
      } else {
        assert front[..n] == fs[..n];
      }
    }
  }

  // ---------- the queue ----------

  function Entries(packets: seq<Bytes>): (es: seq<Option<Bytes>>)
    ensures |es| == |packets|
  {
    if packets == [] then [] else [Some(packets[0])] + Entries(packets[1..])
  }

  function Packets(es: seq<Option<Bytes>>): seq<Bytes> {
    if es == [] then []
    else (if es[0].Some? then [es[0].value] else []) + Packets(es[1..])
  }

  function Put(s: State, packets: seq<Bytes>): State {
    s.(sendQueue := s.sendQueue + Entries(packets),
       unfinished := s.unfinished + |packets|,
       history := s.history.(enqueued := s.history.enqueued + packets))
  }

  function PutSentinel(s: State): State {
    s.(sendQueue := s.sendQueue + [None],
       unfinished := s.unfinished + 1,
       history := s.history.(sentinelAt := Some(|s.history.enqueued|)))
  }

  function TaskDone(s: State): State {
    if s.unfinished <= 0 then s.(history := s.history.(overcounted := true))
    else s.(unfinished := s.unfinished - 1,
            join := if s.unfinished == 1 && s.join == Blocked then Released else s.join)
  }

  // ---------- steps ----------

  predicate WriterDone(s: State) {
    s.writer.Returned? || s.writer.Failed?
  }

  predicate Enabled(s: State, step: Step) {
    match step
    case Start => s.writer.NotStarted? && s.phase.Live?
    case NotifyReceived(_) => true
    case QueuePackets(_) => true
    case QueueHandshakeResponse(_) => true
    case HandshakeTimeout => true
    case WriterTakes => s.writer.Idle? && s.sendQueue != []
    case WriteSucceeds => s.writer.Writing?
    case WriteFails(_) => s.writer.Writing?
    case StopCalled => s.phase.Live?
    case StopNotifyReturns(_) => s.phase.StoppingNotify?
    case JoinRuns => s.join.Fresh? || s.join.Released?
    case StopWakes =>
      || (s.phase.Waiting? && (s.join.Joined? || WriterDone(s)))
      || (s.phase.AwaitingWriter? && WriterDone(s))
    case JoinCancellationEnds => s.phase.CancellingJoin?
  }

  function Received(callbacks: Callbacks, s: State, payload: Bytes): State {
    if Split(payload).Err? then s else
    var replies := RepliesIn(callbacks, payload);
    var s1 := if s.startupReady then Put(s, replies)
              else s.(startupPacketsPending := s.startupPacketsPending + replies);
    var commands := s.handshakeCommands + CommandsIn(callbacks, payload);
    s1.(handshakeCommands := commands,
        handshakeFuture :=
          if Completes(callbacks, payload) then Settle(s.handshakeFuture, commands) else s.handshakeFuture)
  }

  /** If the response cannot be built the coroutine raises before touching anything. */
  function Answered(s: State, commands: seq<Command>): State {
    var response := BuildHandshakeResponse(commands);
    if response.Err? then s else
    var s1 := Put(s, response.value).(startupReady := true);
    Put(s1, s1.startupPacketsPending).(startupPacketsPending := [])
  }

  function Taken(s: State): State
    requires s.sendQueue != []
  {
    var s1 := s.(sendQueue := s.sendQueue[1..]);
    match s.sendQueue[0]
    case None => TaskDone(s1).(writer := Returned)
    case Some(packet) =>
      s1.(writer := Writing(packet), history := s.history.(taken := s.history.taken + [packet]))
  }

  function StopResult(s: State): Outcome {
    match s.stopError
    case None => Normal
    case Some(e) => StopNotifyError(e)
  }

  function Woken(s: State): State
    requires Enabled(s, StopWakes)
  {
    if WriterDone(s) then
      var outcome := if s.writer.Failed? then WriterError(s.writer.error) else StopResult(s);
      s.(phase := if s.phase.Waiting? && !s.join.Joined? then CancellingJoin(outcome) else Finished(outcome))
    else
      PutSentinel(s).(phase := AwaitingWriter)
  }

  function Apply(callbacks: Callbacks, s: State, step: Step): State
    requires Enabled(s, step)
  {
    match step
    case Start => s.(writer := Idle)
    case NotifyReceived(payload) => Received(callbacks, s, payload)
    case QueuePackets(packets) => Put(s, packets)
    case QueueHandshakeResponse(commands) => Answered(s, commands)
    case HandshakeTimeout => if s.handshakeFuture.Pending? then s.(handshakeFuture := Cancelled) else s
    case WriterTakes => Taken(s)
    case WriteSucceeds =>
      var s1 := TaskDone(s);
      s1.(writer := Idle, history := s1.history.(written := s.history.written + [s.writer.packet]))
    case WriteFails(error) => TaskDone(s).(writer := Failed(error))
    case StopCalled => s.(phase := StoppingNotify)
    case StopNotifyReturns(failure) =>
      var s1 := s.(stopError := failure);
      if s.writer.NotStarted? then s1.(phase := Finished(StopResult(s1)))
      else s1.(phase := Waiting, join := Fresh)
    case JoinRuns => s.(join := if s.join.Fresh? && s.unfinished > 0 then Blocked else Joined)
    case StopWakes => Woken(s)
    case JoinCancellationEnds => s.(join := JoinCancelled, phase := Finished(s.phase.pending))
  }

  // ---------- runs ----------

  predicate IsRunFrom(callbacks: Callbacks, s: State, steps: seq<Step>)
    decreases |steps|, 0
  {
    steps == [] ||
    (var front := steps[..|steps| - 1];
     IsRunFrom(callbacks, s, front) && Enabled(After(callbacks, s, front), steps[|steps| - 1]))
  }

  function After(callbacks: Callbacks, s: State, steps: seq<Step>): State
    requires IsRunFrom(callbacks, s, steps)
    decreases |steps|, 1
  {
    if steps == [] then s
    else Apply(callbacks, After(callbacks, s, steps[..|steps| - 1]), steps[|steps| - 1])
  }

  predicate IsRun(callbacks: Callbacks, steps: seq<Step>) {
    IsRunFrom(callbacks, INITIAL, steps)
  }

  lemma RunEnds(callbacks: Callbacks, s: State, front: seq<Step>, step: Step)
    requires IsRunFrom(callbacks, s, front + [step])
    ensures IsRunFrom(callbacks, s, front) && Enabled(After(callbacks, s, front), step)
    ensures After(callbacks, s, front + [step]) == Apply(callbacks, After(callbacks, s, front), step)
  {
  }

  lemma {:induction false} RunsCompose(callbacks: Callbacks, s: State, a: seq<Step>, b: seq<Step>)
    requires IsRunFrom(callbacks, s, a + b)
    ensures IsRunFrom(callbacks, s, a)
    ensures IsRunFrom(callbacks, After(callbacks, s, a), b)
    ensures After(callbacks, s, a + b) == After(callbacks, After(callbacks, s, a), b)
  {
    if b == [] {
      assert a + b == a;
    } else {
      var front := b[..|b| - 1];
      assert (a + b)[..|a + b| - 1] == a + front;
      RunsCompose(callbacks, s, a, front);
    }
  }

  lemma {:induction false} RunsJoin(callbacks: Callbacks, s: State, a: seq<Step>, b: seq<Step>)
    requires IsRunFrom(callbacks, s, a) && IsRunFrom(callbacks, After(callbacks, s, a), b)
    ensures IsRunFrom(callbacks, s, a + b)
    ensures After(callbacks, s, a + b) == After(callbacks, After(callbacks, s, a), b)
  {
    if b == [] {
      assert a + b == a;
    } else {
      var front := b[..|b| - 1];
      RunsJoin(callbacks, s, a, front);
      assert (a + b)[..|a + b| - 1] == a + front;
    }
  }
}
