/** Handshake detection over whole runs of the session. */
module SessionHandshake {
  import opened Bits
  import opened Wrappers
  import opened Sequences
  import opened Mcsp
  import opened Commands
  import opened Handshake
  import opened Session
  import opened SessionSafety
  import MessageBus

  /** Commands as the future sees them: a group for each notification handled to its end, led by
      what the notifications cut short since the last such one left behind, and what is left now. */
  datatype Observed = Observed(groups: seq<seq<Command>>, unsettled: seq<Command>)

  function ObservedIn(callbacks: Callbacks, steps: seq<Step>): Observed {
    if steps == [] then Observed([], [])
    else
      var seen, last := ObservedIn(callbacks, steps[..|steps| - 1]), steps[|steps| - 1];
      if !last.NotifyReceived? then seen
      else
        var commands := seen.unsettled + CommandsIn(callbacks, last.payload);
        if Completes(callbacks, last.payload) then Observed(seen.groups + [commands], [])
        else Observed(seen.groups, commands)
  }

  /** All commands accumulated in a run. */
  function CommandsSeen(callbacks: Callbacks, steps: seq<Step>): seq<Command> {
    Flatten(ObservedIn(callbacks, steps).groups) + ObservedIn(callbacks, steps).unsettled
  }

  lemma GroupsSnoc(groups: seq<seq<Command>>, group: seq<Command>)
    ensures Flatten(groups + [group]) == Flatten(groups) + group
    ensures FutureAfter(groups + [group]) == Settle(FutureAfter(groups), Flatten(groups) + group)
  {
  }

  lemma StepObserves(callbacks: Callbacks, s: State, step: Step)
    requires Enabled(s, step) && !step.HandshakeTimeout?
    ensures var s' := Apply(callbacks, s, step);
            var more := if step.NotifyReceived? then CommandsIn(callbacks, step.payload) else [];
            && s'.handshakeCommands == s.handshakeCommands + more
            && s'.handshakeFuture ==
               if step.NotifyReceived? && Completes(callbacks, step.payload)
               then Settle(s.handshakeFuture, s.handshakeCommands + more) else s.handshakeFuture
  {
  }

  lemma LastObserved(callbacks: Callbacks, steps: seq<Step>)
    requires steps != []
    ensures var front, last := steps[..|steps| - 1], steps[|steps| - 1];
            var more := if last.NotifyReceived? then CommandsIn(callbacks, last.payload) else [];
            && CommandsSeen(callbacks, steps) == CommandsSeen(callbacks, front) + more
            && FutureAfter(ObservedIn(callbacks, steps).groups) ==
               if last.NotifyReceived? && Completes(callbacks, last.payload)
               then Settle(FutureAfter(ObservedIn(callbacks, front).groups), CommandsSeen(callbacks, front) + more)
               else FutureAfter(ObservedIn(callbacks, front).groups)
  {
    var seen, last := ObservedIn(callbacks, steps[..|steps| - 1]), steps[|steps| - 1];
    if last.NotifyReceived? {
      var more := CommandsIn(callbacks, last.payload);
      GroupsSnoc(seen.groups, seen.unsettled + more);
      ConcatAssociates(Flatten(seen.groups), seen.unsettled, more);
    }
  }

  /** As long as the wait has not timed out, the future of a run is the future of its groups. */
  lemma {:induction false} FutureOfRun(callbacks: Callbacks, steps: seq<Step>)
    requires IsRun(callbacks, steps)
    requires forall i | 0 <= i < |steps| :: !steps[i].HandshakeTimeout?
    ensures var s := After(callbacks, INITIAL, steps);
            && s.handshakeCommands == CommandsSeen(callbacks, steps)
            && s.handshakeFuture == FutureAfter(ObservedIn(callbacks, steps).groups)
  {
    if steps == [] {
    } else {
      FutureOfRun(callbacks, steps[..|steps| - 1]);
      StepObserves(callbacks, After(callbacks, INITIAL, steps[..|steps| - 1]), steps[|steps| - 1]);
      LastObserved(callbacks, steps);
    }
  }

  /** Once resolved or cancelled the future never changes again. */
  lemma {:induction false} SettledFutureStays(callbacks: Callbacks, s: State, steps: seq<Step>)
    requires IsRunFrom(callbacks, s, steps) && !s.handshakeFuture.Pending?
    ensures After(callbacks, s, steps).handshakeFuture == s.handshakeFuture
  {
    if steps == [] {
    } else {
      var front, last := steps[..|steps| - 1], steps[|steps| - 1];
      SettledFutureStays(callbacks, s, front);
      if !last.HandshakeTimeout? {
        StepObserves(callbacks, After(callbacks, s, front), last);
      }
    }
  }

  /** A timeout cancels a wait that is still pending, for good, and does nothing otherwise. */
  lemma TimeoutCancels(callbacks: Callbacks, before: seq<Step>, after: seq<Step>)
    requires IsRun(callbacks, before + [HandshakeTimeout] + after)
    ensures IsRun(callbacks, before)
    ensures var f := After(callbacks, INITIAL, before).handshakeFuture;
            After(callbacks, INITIAL, before + [HandshakeTimeout] + after).handshakeFuture ==
            if f.Pending? then Cancelled else f
  {
    RunsCompose(callbacks, INITIAL, before + [HandshakeTimeout], after);
    RunEnds(callbacks, INITIAL, before, HandshakeTimeout);
    SettledFutureStays(callbacks, After(callbacks, INITIAL, before + [HandshakeTimeout]), after);
  }

  /** In every run without a timeout the handshake is detected exactly when the commands received
      up to the last notification handled to its end make one, provided no control advance came
      late. */
  lemma DetectedExactly(callbacks: Callbacks, steps: seq<Step>)
    requires IsRun(callbacks, steps)
    requires forall i | 0 <= i < |steps| :: !steps[i].HandshakeTimeout?
    requires !LateControlAdvance(Flatten(ObservedIn(callbacks, steps).groups))
    ensures After(callbacks, INITIAL, steps).handshakeFuture.Resolved? <==>
            IsBikeHandshake(Flatten(ObservedIn(callbacks, steps).groups))
  {
    FutureOfRun(callbacks, steps);
    GroupingDoesNotMatter(ObservedIn(callbacks, steps).groups);
  }

  // ---------- what the driver gets can be answered ----------

  lemma {:induction false} ReceivedCommandsInRange(fs: seq<Frame>)
    ensures AllInRange(CommandsOf(fs))
  {
    if fs == [] {
    } else {
      ReceivedCommandsInRange(fs[..|fs| - 1]);
      var last := fs[|fs| - 1];
      if last.channel == COMMAND && DecodeCommandFrame(last).Ok? {
        CommandCanonical(last.payload);
      }
    }
  }

  predicate Answerable(s: State) {
    && AllInRange(s.handshakeCommands)
    && (s.handshakeFuture.Resolved? ==>
          IsBikeHandshake(s.handshakeFuture.commands) && AllInRange(s.handshakeFuture.commands))
  }

  lemma StepKeepsAnswerable(callbacks: Callbacks, s: State, step: Step)
    requires Enabled(s, step) && Answerable(s)
    ensures Answerable(Apply(callbacks, s, step))
  {
    if step.HandshakeTimeout? {
    } else {
      StepObserves(callbacks, s, step);
      if step.NotifyReceived? {
        ReceivedCommandsInRange(FramesIn(callbacks, step.payload));
      }
    }
  }

  /** The commands a waiting driver is given are a handshake, and the response to them can always
      be built, so the session never sticks between detection and answer. */
  lemma {:induction false} ResolvedIsAnswerable(callbacks: Callbacks, steps: seq<Step>)
    requires IsRun(callbacks, steps)
    ensures Answerable(After(callbacks, INITIAL, steps))
    ensures var f := After(callbacks, INITIAL, steps).handshakeFuture;
            f.Resolved? ==> IsBikeHandshake(f.commands) && BuildHandshakeResponse(f.commands).Ok?
  {
    if steps == [] {
    } else {
      var front := steps[..|steps| - 1];
      ResolvedIsAnswerable(callbacks, front);
      StepKeepsAnswerable(callbacks, After(callbacks, INITIAL, front), steps[|steps| - 1]);
    }
    var f := After(callbacks, INITIAL, steps).handshakeFuture;
    if f.Resolved? {
      DecodedCommandsAreAnswered(f.commands);
    }
  }

  lemma {:induction false} CommandsOfConcat(a: seq<Frame>, b: seq<Frame>)
    ensures CommandsOf(a + b) == CommandsOf(a) + CommandsOf(b)
  {
    if b == [] {
      assert a + b == a;
    } else {
      var front := b[..|b| - 1];
      CommandsOfConcat(a, front);
      assert (a + b)[..|a + b| - 1] == a + front;
      ConcatAssociates(CommandsOf(a), CommandsOf(front), CommandIn(b[|b| - 1]));
    }
  }

  lemma {:induction false} RepliesOfConcat(callbacks: Callbacks, a: seq<Frame>, b: seq<Frame>)
    ensures RepliesOf(callbacks, a + b) == RepliesOf(callbacks, a) + RepliesOf(callbacks, b)
  {
    if b == [] {
      assert a + b == a;
    } else {
      var front := b[..|b| - 1];
      RepliesOfConcat(callbacks, a, front);
      assert (a + b)[..|a + b| - 1] == a + front;
      ConcatAssociates(RepliesOf(callbacks, a), RepliesOf(callbacks, front), RepliesTo(callbacks, b[|b| - 1]));
    }
  }

  // ---------- frames cut over several notifications ----------

  /** What the callback handles of successive notifications, each split on its own. */
  function FramesHandled(callbacks: Callbacks, payloads: seq<Bytes>): seq<Frame> {
    if payloads == [] then []
    else FramesHandled(callbacks, payloads[..|payloads| - 1]) + FramesIn(callbacks, payloads[|payloads| - 1])
  }

  lemma {:induction false} EncodeAllConcat(a: seq<Frame>, b: seq<Frame>)
    requires AllEncodable(a) && AllEncodable(b)
    ensures AllEncodable(a + b) && EncodeAll(a + b) == EncodeAll(a) + EncodeAll(b)
  {
    if a == [] {
      assert a + b == b;
    } else {
      EncodeAllConcat(a[1..], b);
      assert (a + b)[1..] == a[1..] + b;
      ConcatAssociates(Wire(a[0]), EncodeAll(a[1..]), EncodeAll(b));
    }
  }

  lemma HandledPart(callbacks: Callbacks, payload: Bytes)
    ensures AllEncodable(FramesIn(callbacks, payload))
    ensures |EncodeAll(FramesIn(callbacks, payload))| <= |payload|
    ensures EncodeAll(FramesIn(callbacks, payload)) == payload <==> Completes(callbacks, payload)
  {
    if Split(payload).Ok? {
      var fs, handled := Split(payload).value, FramesIn(callbacks, payload);
      EncodeOfSplit(payload);
      assert fs == handled + fs[|handled|..];
      EncodeAllConcat(handled, fs[|handled|..]);
      if EncodeAll(handled) == payload {
        EncodeAllInjective(handled, fs);
      }
    }
  }

  lemma ConcatCancels<T>(a: seq<T>, b: seq<T>, c: seq<T>, d: seq<T>)
    requires |a| <= |c| && |b| <= |d|
    ensures a + b == c + d <==> a == c && b == d
  {
    if a + b == c + d {
      assert a == (a + b)[..|a|] && c == (c + d)[..|c|];
      assert b == (a + b)[|a|..] && d == (c + d)[|c|..];
    }
  }

  predicate AllComplete(callbacks: Callbacks, payloads: seq<Bytes>) {
    forall i | 0 <= i < |payloads| :: Completes(callbacks, payloads[i])
  }

  lemma AllCompleteSnoc(callbacks: Callbacks, payloads: seq<Bytes>)
    requires payloads != []
    ensures AllComplete(callbacks, payloads) <==>
            AllComplete(callbacks, payloads[..|payloads| - 1]) && Completes(callbacks, payloads[|payloads| - 1])
  {
  }

  /** The handled frames carry every byte exactly when every notification was handled to its end. */
  lemma {:induction false} HandledBytes(callbacks: Callbacks, payloads: seq<Bytes>)
    ensures AllEncodable(FramesHandled(callbacks, payloads))
    ensures |EncodeAll(FramesHandled(callbacks, payloads))| <= |Flatten(payloads)|
    ensures EncodeAll(FramesHandled(callbacks, payloads)) == Flatten(payloads) <==> AllComplete(callbacks, payloads)
  {
    if payloads == [] {
    } else {
      var front, last := payloads[..|payloads| - 1], payloads[|payloads| - 1];
      HandledBytes(callbacks, front);
      HandledPart(callbacks, last);
      AllCompleteSnoc(callbacks, payloads);
      EncodeAllConcat(FramesHandled(callbacks, front), FramesIn(callbacks, last));
      ConcatCancels(
        EncodeAll(FramesHandled(callbacks, front)), EncodeAll(FramesIn(callbacks, last)), Flatten(front), last);
    }
  }

  /** Frames sent as one byte stream and delivered in pieces are all handled exactly when every
      piece splits on its own, that is, when no frame is cut, and no message in it raises. */
  lemma DeliveredExactly(callbacks: Callbacks, fs: seq<Frame>, payloads: seq<Bytes>)
    requires AllEncodable(fs) && Flatten(payloads) == EncodeAll(fs)
    ensures FramesHandled(callbacks, payloads) == fs <==>
            forall i | 0 <= i < |payloads| ::
              && Split(payloads[i]).Ok?
              && forall j | 0 <= j < |Split(payloads[i]).value| :: !Raises(callbacks, Split(payloads[i]).value[j])
  {
    HandledBytes(callbacks, payloads);
    if EncodeAll(FramesHandled(callbacks, payloads)) == EncodeAll(fs) {
      EncodeAllInjective(FramesHandled(callbacks, payloads), fs);
    }
    forall i | 0 <= i < |payloads|
      ensures Completes(callbacks, payloads[i]) <==>
              && Split(payloads[i]).Ok?
              && forall j | 0 <= j < |Split(payloads[i]).value| :: !Raises(callbacks, Split(payloads[i]).value[j])
    {
      CompletesExactly(callbacks, payloads[i]);
    }
  }

  /** The notifications of a run. */
  function Payloads(steps: seq<Step>): seq<Bytes> {
    if steps == [] then []
    else
      var last := steps[|steps| - 1];
      Payloads(steps[..|steps| - 1]) + (if last.NotifyReceived? then [last.payload] else [])
  }

  lemma LastHandled(callbacks: Callbacks, steps: seq<Step>)
    requires steps != []
    ensures var front, last := steps[..|steps| - 1], steps[|steps| - 1];
            FramesHandled(callbacks, Payloads(steps)) ==
            FramesHandled(callbacks, Payloads(front))
            + (if last.NotifyReceived? then FramesIn(callbacks, last.payload) else [])
  {
    var before, last := Payloads(steps[..|steps| - 1]), steps[|steps| - 1];
    if last.NotifyReceived? {
      assert (before + [last.payload])[..|before|] == before;
    } else {
      assert Payloads(steps) == before;
    }
  }

  /** The commands accumulated and the replies given in a run are those of the frames handled. */
  lemma {:induction false} OfFramesHandled(callbacks: Callbacks, steps: seq<Step>)
    ensures CommandsSeen(callbacks, steps) == CommandsOf(FramesHandled(callbacks, Payloads(steps)))
    ensures Notified(callbacks, steps) == RepliesOf(callbacks, FramesHandled(callbacks, Payloads(steps)))
  {
    if steps == [] {
    } else {
      var front, last := steps[..|steps| - 1], steps[|steps| - 1];
      var before := FramesHandled(callbacks, Payloads(front));
      var more := if last.NotifyReceived? then FramesIn(callbacks, last.payload) else [];
      OfFramesHandled(callbacks, front);
      LastObserved(callbacks, steps);
      LastHandled(callbacks, steps);
      CommandsOfConcat(before, more);
      RepliesOfConcat(callbacks, before, more);
    }
  }

  lemma {:induction false} NothingUnsettled(callbacks: Callbacks, steps: seq<Step>)
    requires AllComplete(callbacks, Payloads(steps))
    ensures ObservedIn(callbacks, steps).unsettled == []
  {
    if steps == [] {
    } else {
      var front, last := steps[..|steps| - 1], steps[|steps| - 1];
      if last.NotifyReceived? {
        AllCompleteSnoc(callbacks, Payloads(steps));
        assert Payloads(steps)[..|Payloads(front)|] == Payloads(front);
      } else {
        assert Payloads(steps) == Payloads(front);
      }
      NothingUnsettled(callbacks, front);
    }
  }

  /** However a stream of frames is grouped into notifications that are all handled to their end,
      the same commands accumulate and the same replies are given. */
  lemma FrameGroupingIsInvisible(callbacks: Callbacks, steps: seq<Step>, fs: seq<Frame>)
    requires AllEncodable(fs) && Flatten(Payloads(steps)) == EncodeAll(fs)
    requires AllComplete(callbacks, Payloads(steps))
    ensures CommandsSeen(callbacks, steps) == CommandsOf(fs)
    ensures Notified(callbacks, steps) == RepliesOf(callbacks, fs)
  {
    OfFramesHandled(callbacks, steps);
    HandledBytes(callbacks, Payloads(steps));
    EncodeAllInjective(FramesHandled(callbacks, Payloads(steps)), fs);
  }

  /** So a stream of frames is recognised as a handshake, or not, however it arrives. */
  lemma DetectedInStream(callbacks: Callbacks, steps: seq<Step>, fs: seq<Frame>)
    requires IsRun(callbacks, steps)
    requires forall i | 0 <= i < |steps| :: !steps[i].HandshakeTimeout?
    requires AllEncodable(fs) && Flatten(Payloads(steps)) == EncodeAll(fs)
    requires AllComplete(callbacks, Payloads(steps))
    requires !LateControlAdvance(CommandsOf(fs))
    ensures After(callbacks, INITIAL, steps).handshakeFuture.Resolved? <==> IsBikeHandshake(CommandsOf(fs))
  {
    FrameGroupingIsInvisible(callbacks, steps, fs);
    NothingUnsettled(callbacks, steps);
    var groups := ObservedIn(callbacks, steps).groups;
    assert Flatten(groups) + [] == Flatten(groups);
    DetectedExactly(callbacks, steps);
  }

  /** For instance, a version command split over two notifications is in neither. */
  lemma FragmentedFrameIsLost(callbacks: Callbacks)
    ensures Split([0x10, 0x02, 0x01, 0x03]) == Ok([Frame(true, COMMAND, [0x01, 0x03])])
    ensures CommandsIn(callbacks, [0x10, 0x02, 0x01, 0x03]) == [Version(3)]
    ensures CommandsIn(callbacks, [0x10, 0x02]) == [] && CommandsIn(callbacks, [0x01, 0x03]) == []
  {
    var f := Frame(true, COMMAND, [0x01, 0x03]);
    SplitOneFrame(f);
    assert Wire(f) == [0x10, 0x02, 0x01, 0x03];
    HandledStops(callbacks, [f], 1);
    assert CommandsOf([f]) == CommandsOf([]) + CommandIn(f);
  }

  // ---------- one frame ----------

  lemma OneFrameIn(callbacks: Callbacks, f: Frame)
    requires Encodable(f) && !Raises(callbacks, f)
    ensures Completes(callbacks, Wire(f))
    ensures CommandsIn(callbacks, Wire(f)) == CommandIn(f) && RepliesIn(callbacks, Wire(f)) == RepliesTo(callbacks, f)
  {
    SplitOneFrame(f);
    HandledStops(callbacks, [f], 1);
    assert [f][..0] == [] && [f][..1] == [f];
    assert CommandsOf([f]) == [] + CommandIn(f);
    assert RepliesOf(callbacks, [f]) == [] + RepliesTo(callbacks, f);
  }

  /** A message that does not raise makes the responder's packets, all of them and nothing else,
      go to the queue, or wait if the handshake has not been answered. */
  lemma MessageIsAnswered(callbacks: Callbacks, s: State, f: Frame, message: MessageBus.MessageFrame)
    requires Encodable(f) && f.channel != COMMAND
    requires MessageBus.ParseMessage(f.payload) == Ok(message) && !callbacks.raises(f, message)
    ensures Enabled(s, NotifyReceived(Wire(f)))
    ensures var s' := Apply(callbacks, s, NotifyReceived(Wire(f)));
            && s'.history.enqueued ==
               s.history.enqueued + (if s.startupReady then callbacks.respond(f, message) else [])
            && s'.startupPacketsPending ==
               s.startupPacketsPending + (if s.startupReady then [] else callbacks.respond(f, message))
            && s'.handshakeCommands == s.handshakeCommands
  {
    OneFrameIn(callbacks, f);
  }

  /** A frame on the command channel whose payload starts with a command's encoding adds that
      command, and nothing is queued or held back. */
  lemma CommandIsCounted(
    callbacks: Callbacks, s: State, endOfChannel: bool, c: Command, encoding: Bytes, trailing: Bytes)
    requires EncodeCommand(c) == Ok(encoding) && |encoding + trailing| <= 4095
    ensures var payload := Wire(Frame(endOfChannel, COMMAND, encoding + trailing));
            && Enabled(s, NotifyReceived(payload))
            && var s', commands := Apply(callbacks, s, NotifyReceived(payload)), s.handshakeCommands + [c];
               && s'.handshakeCommands == commands
               && s'.handshakeFuture ==
                  (if s.handshakeFuture.Pending? && IsBikeHandshake(commands) then Resolved(commands)
                   else s.handshakeFuture)
               && s'.history.enqueued == s.history.enqueued
               && s'.startupPacketsPending == s.startupPacketsPending
  {
    CommandRoundTrip(c, trailing);
    OneFrameIn(callbacks, Frame(endOfChannel, COMMAND, encoding + trailing));
  }

  // ---------- a response that cannot be built ----------

  lemma NegativeSizeLowers(commands: seq<Command>)
    ensures (exists n :: n < 0 && MaxSegmentationPacket(n) in commands) <==>
            NegotiatedSize(commands, DEFAULT_MAX_PACKET_SIZE) < 0
  {
    NegotiatedIsGreatestLowerBound(commands, DEFAULT_MAX_PACKET_SIZE);
    var size := NegotiatedSize(commands, DEFAULT_MAX_PACKET_SIZE);
    if size < 0 {
      assert MaxSegmentationPacket(size) in commands;
    }
    if n :| n < 0 && MaxSegmentationPacket(n) in commands {
      assert MaxSegmentationPacket(n).maxPacketSize == n;
    }
  }

  /** The response fails only for a negative size, which the wire cannot carry, and then nothing in
      the session changes. */
  lemma RefusedResponseExactly(callbacks: Callbacks, s: State, commands: seq<Command>)
    ensures BuildHandshakeResponse(commands).Err? <==> exists n :: n < 0 && MaxSegmentationPacket(n) in commands
    ensures BuildHandshakeResponse(commands).Err? ==> Apply(callbacks, s, QueueHandshakeResponse(commands)) == s
  {
    NegativeSizeLowers(commands);
    NegotiatedIsGreatestLowerBound(commands, DEFAULT_MAX_PACKET_SIZE);
    HandshakeResponse(commands, DEFAULT_MAX_PACKET_SIZE);
  }
}
