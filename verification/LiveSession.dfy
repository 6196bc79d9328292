/** The `McspLiveSession` object. Each method is the code between two awaits of one task and is
    proved to be the corresponding step of `Session`. */
module LiveSession {
  import opened Bits
  import opened Wrappers
  import opened Sequences
  import opened Mcsp
  import opened Commands
  import opened Handshake
  import opened Session
  import MessageBus

  class McspLiveSession {
    const callbacks: Callbacks
    var sendQueue: seq<Option<Bytes>>
    var unfinishedTasks: int
    var writerTask: Writer
    var startupPacketsPending: seq<Bytes>
    var handshakeCommands: seq<Command>
    var startupReady: bool
    var handshakeFuture: Future
    var joinTask: Join
    var stopPhase: Phase
    var stopError: Option<string>
    ghost var history: History

    ghost function View(): State
      reads this
    {
      State(sendQueue, unfinishedTasks, writerTask, startupPacketsPending, startupReady, handshakeCommands,
            handshakeFuture, joinTask, stopPhase, stopError, history)
    }

    constructor (installed: Callbacks)
      ensures callbacks == installed
      ensures View() == INITIAL
    {
      callbacks := installed;
      sendQueue, unfinishedTasks := [], 0;
      writerTask := NotStarted;
      startupPacketsPending, handshakeCommands, startupReady := [], [], false;
      handshakeFuture := Pending;
      joinTask, stopPhase, stopError := NotCreated, Live, None;
      history := INITIAL.history;
    }

    // ---------- asyncio.Queue ----------

    method PutNowait(item: Option<Bytes>)
      modifies this
      ensures View() == old(if item.Some? then Put(View(), [item.value]) else PutSentinel(View()))
    {
      sendQueue := sendQueue + [item];
      unfinishedTasks := unfinishedTasks + 1;
      history := if item.Some? then history.(enqueued := history.enqueued + [item.value])
                 else history.(sentinelAt := Some(|history.enqueued|));
      assert item.Some? ==> Entries([item.value]) == [item];
    }

    method MarkTaskDone()
      modifies this
      ensures View() == old(TaskDone(View()))
    {
      if unfinishedTasks <= 0 {
        history := history.(overcounted := true);
        return;
      }
      unfinishedTasks := unfinishedTasks - 1;
      if unfinishedTasks == 0 && joinTask.Blocked? {
        joinTask := Released;
      }
    }

    method Enqueue(packets: seq<Bytes>)
      modifies this
      ensures View() == old(Put(View(), packets))
    {
      ghost var before := View();
      for i := 0 to |packets|
        invariant View() == Put(before, packets[..i])
      {
        PutTwice(before, packets[..i], [packets[i]]);
        assert packets[..i] + [packets[i]] == packets[..i + 1];
        PutNowait(Some(packets[i]));
      }
      assert packets[..|packets|] == packets;
    }

    // ---------- the driver's calls ----------

    method StartSession()
      requires Enabled(View(), Start)
      modifies this
      ensures View() == Apply(callbacks, old(View()), Start)
    {
      writerTask := Idle;
    }

    method AnswerHandshake(commands: seq<Command>) returns (r: Result<(), Mcsp.Error>)
      modifies this
      ensures View() == Apply(callbacks, old(View()), QueueHandshakeResponse(commands))
      ensures r.Ok? <==> BuildHandshakeResponse(commands).Ok?
    {
      var response := BuildHandshakeResponse(commands);
      if response.Err? {
        return Err(response.error);
      }
      Enqueue(response.value);
      startupReady := true;
      PutNothing(View());
      if startupPacketsPending != [] {
        Enqueue(startupPacketsPending);
        startupPacketsPending := [];
      }
      return Ok(());
    }

    // ---------- the notification callback ----------

    method NotifyHandler(payload: Bytes) returns (raised: bool)
      modifies this
      ensures View() == Apply(callbacks, old(View()), NotifyReceived(payload))
      ensures raised <==> Split(payload).Ok? && !Completes(callbacks, payload)
    {
      var split := SplitFrames(payload);
      if split.Err? {
        return false;
      }
      raised := HandleFrames(split.value);
      if raised {
        return;
      }
      SettleFuture();
    }

    /** The callback's loop over the frames of a notification, left by the first exception. */
    method HandleFrames(frames: seq<Frame>) returns (raised: bool)
      modifies this
      ensures View() == Routed(callbacks, old(View()), Handled(callbacks, frames))
      ensures raised <==> Handled(callbacks, frames) != frames
    {
      ghost var before := View();
      RoutedNothing(callbacks, before);
      for i := 0 to |frames|
        invariant View() == Routed(callbacks, before, frames[..i])
        invariant Handled(callbacks, frames[..i]) == frames[..i]
      {
        RoutedNext(callbacks, before, frames, i);
        HandledNext(callbacks, frames, i);
        raised := HandleFrame(frames[i]);
        if raised {
          return;
        }
      }
      assert frames[..|frames|] == frames;
      raised := false;
    }

    method SettleFuture()
      modifies `handshakeFuture
      ensures handshakeFuture == Settle(old(handshakeFuture), handshakeCommands)
    {
      if handshakeFuture.Pending? && IsBikeHandshake(handshakeCommands) {
        handshakeFuture := Resolved(handshakeCommands);
      }
    }

    method HandleFrame(frame: Frame) returns (raised: bool)
      modifies this
      ensures raised <==> Raises(callbacks, frame)
      ensures View() == if raised then old(View())
                        else old(Route(View(), RepliesTo(callbacks, frame), CommandIn(frame)))
    {
      PutNothing(View());
      if frame.channel == COMMAND {
        var command := DecodeCommandFrame(frame);
        if command.Ok? {
          handshakeCommands := handshakeCommands + [command.value];
        }
        return false;
      }
      var decoded := MessageBus.DecodeMessageFrame(frame.payload);
      if decoded.Err? {
        return false;
      }
      if callbacks.raises(frame, decoded.value) {
        return true;
      }
      var packets := callbacks.respond(frame, decoded.value);
      if packets == [] {
        return false;
      }
      if startupReady {
        Enqueue(packets);
      } else {
        startupPacketsPending := startupPacketsPending + packets;
      }
      return false;
    }

    // ---------- the writer task ----------

    method WriterGet()
      requires Enabled(View(), WriterTakes)
      modifies this
      ensures View() == Apply(callbacks, old(View()), WriterTakes)
    {
      var packet := sendQueue[0];
      sendQueue := sendQueue[1..];
      if packet.None? {
        MarkTaskDone();
        writerTask := Returned;
        return;
      }
      writerTask := Writing(packet.value);
      history := history.(taken := history.taken + [packet.value]);
    }

    method WriteEnds(failure: Option<string>)
      requires writerTask.Writing?
      modifies this
      ensures View() == Apply(callbacks, old(View()),
                               match failure case None => WriteSucceeds case Some(e) => WriteFails(e))
    {
      var packet := writerTask.packet;
      MarkTaskDone();
      if failure.None? {
        history := history.(written := history.written + [packet]);
        writerTask := Idle;
      } else {
        writerTask := Failed(failure.value);
      }
    }

    /** One round of the writer's loop, its write ending as told. */
    method WriterRound(failure: Option<string>) returns (ghost steps: seq<Step>)
      requires writerTask.Idle? && sendQueue != []
      modifies this
      ensures WriterRun(callbacks, old(View()), steps, View())
      ensures writerTask.Returned? || writerTask.Failed? || writerTask.Idle?
      ensures |sendQueue| < old(|sendQueue|)
    {
      ghost var before := View();
      WriterGet();
      WriterRunSnoc(callbacks, before, [], before, WriterTakes);
      steps := [WriterTakes];
      if writerTask.Writing? {
        ghost var taken := View();
        ghost var ended := match failure case None => WriteSucceeds case Some(e) => WriteFails(e);
        WriteEnds(failure);
        WriterRunSnoc(callbacks, before, steps, taken, ended);
        steps := steps + [ended];
      }
    }

    /** The writer's loop with nothing interleaved, `outcome(i)` being the result of its i-th
        write: it stops only on an empty queue, on the sentinel or on a failed write. */
    method RunWriter(outcome: nat -> Option<string>) returns (ghost steps: seq<Step>)
      requires writerTask.Idle?
      modifies this
      ensures WriterRun(callbacks, old(View()), steps, View())
      ensures writerTask.Returned? || writerTask.Failed? || (writerTask.Idle? && sendQueue == [])
    {
      ghost var before := View();
      steps := [];
      var writes := 0;
      while writerTask.Idle? && sendQueue != []
        invariant WriterRun(callbacks, before, steps, View())
        invariant writerTask.Returned? || writerTask.Failed? || writerTask.Idle?
        decreases |sendQueue|
      {
        ghost var middle := View();
        ghost var round := WriterRound(outcome(writes));
        WriterRunsJoin(callbacks, before, steps, middle, round, View());
        steps := steps + round;
        writes := writes + 1;
      }
    }

    // ---------- stop() ----------

    method StopBegins()
      requires Enabled(View(), StopCalled)
      modifies this
      ensures View() == Apply(callbacks, old(View()), StopCalled)
    {
      stopPhase := StoppingNotify;
    }

    method StopNotifyEnds(failure: Option<string>)
      requires stopPhase.StoppingNotify?
      modifies this
      ensures View() == Apply(callbacks, old(View()), StopNotifyReturns(failure))
    {
      stopError := failure;
      if writerTask.NotStarted? {
        FinishStop();
        return;
      }
      joinTask := Fresh;
      stopPhase := Waiting;
    }

    /** The end of `stop()`: raise what `stop_notify` raised, if anything. */
    method FinishStop()
      modifies this
      ensures View() == old(View()).(phase := Finished(StopResult(old(View()))))
    {
      if stopError.Some? {
        stopPhase := Finished(StopNotifyError(stopError.value));
      } else {
        stopPhase := Finished(Normal);
      }
    }

    method RunJoin()
      requires Enabled(View(), JoinRuns)
      modifies this
      ensures View() == Apply(callbacks, old(View()), JoinRuns)
    {
      if joinTask.Fresh? && unfinishedTasks > 0 {
        joinTask := Blocked;
        return;
      }
      joinTask := Joined;
    }

    method StopResumes()
      requires Enabled(View(), StopWakes)
      modifies this
      ensures View() == Apply(callbacks, old(View()), StopWakes)
    {
      if !writerTask.Returned? && !writerTask.Failed? {
        PutNowait(None);
        stopPhase := AwaitingWriter;
        return;
      }
      var outcome;
      if writerTask.Failed? {
        outcome := WriterError(writerTask.error);
      } else if stopError.Some? {
        outcome := StopNotifyError(stopError.value);
      } else {
        outcome := Normal;
      }
      // Leaving the try block: a join task that is still running is cancelled and awaited first.
      if stopPhase.Waiting? && !joinTask.Joined? {
        stopPhase := CancellingJoin(outcome);
      } else {
        stopPhase := Finished(outcome);
      }
    }

    method CancellationEnds()
      requires stopPhase.CancellingJoin?
      modifies this
      ensures View() == Apply(callbacks, old(View()), JoinCancellationEnds)
    {
      joinTask := JoinCancelled;
      stopPhase := Finished(stopPhase.pending);
    }
  }

  // ---------- lemmas for the loops ----------

  lemma {:induction false} EntriesConcat(a: seq<Bytes>, b: seq<Bytes>)
    ensures Entries(a + b) == Entries(a) + Entries(b)
  {
    if a == [] {
      assert a + b == b;
    } else {
      EntriesConcat(a[1..], b);
      assert (a + b)[1..] == a[1..] + b;
      ConcatAssociates([Some(a[0])], Entries(a[1..]), Entries(b));
    }
  }

  lemma PutTwice(s: State, a: seq<Bytes>, b: seq<Bytes>)
    ensures Put(Put(s, a), b) == Put(s, a + b)
  {
    EntriesConcat(a, b);
    ConcatAssociates(s.sendQueue, Entries(a), Entries(b));
    ConcatAssociates(s.history.enqueued, a, b);
  }

  lemma PutNothing(s: State)
    ensures Put(s, []) == s
  {
  }

  /** What one more frame adds to the state. */
  function Route(s: State, replies: seq<Bytes>, commands: seq<Command>): State {
    var s1 := if s.startupReady then Put(s, replies)
              else s.(startupPacketsPending := s.startupPacketsPending + replies);
    s1.(handshakeCommands := s.handshakeCommands + commands)
  }

  /** The state while the callback is inside its loop, having handled the frames `seen`. */
  function Routed(callbacks: Callbacks, s: State, seen: seq<Frame>): State {
    Route(s, RepliesOf(callbacks, seen), CommandsOf(seen))
  }

  lemma RoutedNothing(callbacks: Callbacks, s: State)
    ensures Routed(callbacks, s, []) == s
  {
    PutNothing(s);
  }

  lemma RoutedNext(callbacks: Callbacks, s: State, frames: seq<Frame>, i: nat)
    requires i < |frames|
    ensures Routed(callbacks, s, frames[..i + 1]) ==
            Route(Routed(callbacks, s, frames[..i]), RepliesTo(callbacks, frames[i]), CommandIn(frames[i]))
  {
    assert frames[..i + 1][..i] == frames[..i];
    var replies, commands := RepliesOf(callbacks, frames[..i]), CommandsOf(frames[..i]);
    PutTwice(s, replies, RepliesTo(callbacks, frames[i]));
    ConcatAssociates(s.startupPacketsPending, replies, RepliesTo(callbacks, frames[i]));
    ConcatAssociates(s.handshakeCommands, commands, CommandIn(frames[i]));
  }

  /** `steps` is a run of the writer alone from `s` to `s'`. */
  ghost predicate WriterRun(callbacks: Callbacks, s: State, steps: seq<Step>, s': State) {
    && IsRunFrom(callbacks, s, steps)
    && s' == After(callbacks, s, steps)
    && forall i | 0 <= i < |steps| :: steps[i].WriterTakes? || steps[i].WriteSucceeds? || steps[i].WriteFails?
  }

  lemma WriterRunSnoc(callbacks: Callbacks, s: State, steps: seq<Step>, s': State, step: Step)
    requires WriterRun(callbacks, s, steps, s') && Enabled(s', step)
    requires step.WriterTakes? || step.WriteSucceeds? || step.WriteFails?
    ensures WriterRun(callbacks, s, steps + [step], Apply(callbacks, s', step))
  {
  }

  lemma WriterRunsJoin(
    callbacks: Callbacks, s: State, a: seq<Step>, s': State, b: seq<Step>, s'': State)
    requires WriterRun(callbacks, s, a, s') && WriterRun(callbacks, s', b, s'')
    ensures WriterRun(callbacks, s, a + b, s'')
  {
    RunsJoin(callbacks, s, a, b);
  }
}
