/** What the two drivers install in a session: the callbacks of `bosch_ble/handshake.py` and of
    `bosch_ble/dashboard.py`. */
module Drivers {
  import opened Bits
  import opened Wrappers
  import opened Mcsp
  import opened Sequences
  import opened Session
  import opened SessionHandshake
  import opened SessionSafety
  import Dashboard
  import MessageBus
  import Startup = Responder
  import Varint

  /** The responder of both drivers; see `StartupResponderNeverRaises`. */
  function StartupResponder(frame: Frame, decoded: MessageBus.MessageFrame): seq<Bytes> {
    var packets := Startup.StartupPackets(Startup.STARTUP_PROVIDER_PAYLOADS, frame, Some(decoded));
    if packets.Ok? then packets.value else []
  }

  /** The handshake driver only prints messages. */
  function HandshakeCallbacks(): Callbacks {
    Callbacks(StartupResponder, (frame, decoded) => false)
  }

  /** The dashboard applies them to its state, which raises on those it needs and cannot read. */
  function DashboardCallbacks(): Callbacks {
    Callbacks(StartupResponder, (frame, decoded) => Dashboard.Unreadable(decoded))
  }

  /** The installed responder is total: on any frame and any message it returns its packets. */
  lemma StartupResponderNeverRaises(frame: Frame, decoded: MessageBus.MessageFrame)
    ensures Startup.StartupPackets(Startup.STARTUP_PROVIDER_PAYLOADS, frame, Some(decoded)) ==
            Ok(StartupResponder(frame, decoded))
  {
    Startup.StartupPayloadsAreShort();
    if frame.channel != COMMAND {
      Startup.ResponderSaysWhatIsExpected(Startup.STARTUP_PROVIDER_PAYLOADS, frame, decoded);
    }
  }

  /** A session with that responder stays silent when its own replies come back as notifications. */
  lemma OwnRepliesAreIgnored(callbacks: Callbacks, frame: Frame, decoded: MessageBus.MessageFrame, i: nat)
    requires callbacks.respond == StartupResponder
    requires i < |StartupResponder(frame, decoded)|
    ensures RepliesIn(callbacks, StartupResponder(frame, decoded)[i]) == []
    ensures CommandsIn(callbacks, StartupResponder(frame, decoded)[i]) == []
  {
    Startup.StartupPayloadsAreShort();
    StartupResponderNeverRaises(frame, decoded);
    Startup.NoReplyStorm(Startup.STARTUP_PROVIDER_PAYLOADS, frame, Some(decoded), i);
    Startup.RepliesKeepTheirChannel(Startup.STARTUP_PROVIDER_PAYLOADS, frame, decoded, i);
    var reply := Split(StartupResponder(frame, decoded)[i]).value[0];
    assert Split(StartupResponder(frame, decoded)[i]).value == [reply];
    HandledStops(callbacks, [reply], if Raises(callbacks, reply) then 0 else 1);
    assert CommandsOf([reply]) == CommandsOf([]) + CommandIn(reply);
    assert RepliesOf(callbacks, [reply]) == RepliesOf(callbacks, []) + RepliesTo(callbacks, reply);
  }

  /** Everything the startup responder has to say about some frames. */
  function AllReplies(fs: seq<Frame>): seq<Bytes> {
    if fs == [] then []
    else
      var packets := Startup.StartupPackets(Startup.STARTUP_PROVIDER_PAYLOADS, fs[|fs| - 1], None);
      AllReplies(fs[..|fs| - 1]) + (if packets.Ok? then packets.value else [])
  }

  lemma {:induction false} RepliesAreAllReplies(callbacks: Callbacks, fs: seq<Frame>)
    requires callbacks.respond == StartupResponder
    ensures RepliesOf(callbacks, fs) == AllReplies(fs)
  {
    if fs == [] {
    } else {
      var last := fs[|fs| - 1];
      RepliesAreAllReplies(callbacks, fs[..|fs| - 1]);
      if last.channel != COMMAND && MessageBus.ParseMessage(last.payload).Ok? {
        StartupResponderNeverRaises(last, MessageBus.ParseMessage(last.payload).value);
      }
    }
  }

  /** However the bike's frames arrive, cut between frames, a handshake driver's replies are exactly
      what the responder says about each of them, in order. */
  lemma DriverAnswersStream(steps: seq<Step>, fs: seq<Frame>)
    requires AllEncodable(fs) && Flatten(Payloads(steps)) == EncodeAll(fs)
    requires forall i | 0 <= i < |Payloads(steps)| :: Split(Payloads(steps)[i]).Ok?
    ensures Notified(HandshakeCallbacks(), steps) == AllReplies(fs)
  {
    forall i | 0 <= i < |Payloads(steps)|
      ensures Completes(HandshakeCallbacks(), Payloads(steps)[i])
    {
      HandshakeDriverMissesNothing(Payloads(steps)[i]);
    }
    FrameGroupingIsInvisible(HandshakeCallbacks(), steps, fs);
    RepliesAreAllReplies(HandshakeCallbacks(), fs);
  }

  /** The handshake driver handles every notification that splits to its end. */
  lemma HandshakeDriverMissesNothing(payload: Bytes)
    ensures Completes(HandshakeCallbacks(), payload) <==> Split(payload).Ok?
  {
    CompletesExactly(HandshakeCallbacks(), payload);
  }

  /** The dashboard misses the end of a notification, the check for a handshake included, exactly
      when one of its messages is a watched one that does not parse. */
  lemma DashboardMissesExactly(payload: Bytes)
    requires Split(payload).Ok?
    ensures var fs := Split(payload).value;
            !Completes(DashboardCallbacks(), payload) <==>
            exists i | 0 <= i < |fs| ::
              && fs[i].channel != COMMAND && MessageBus.ParseMessage(fs[i].payload).Ok?
              && Dashboard.Unreadable(MessageBus.ParseMessage(fs[i].payload).value)
  {
    CompletesExactly(DashboardCallbacks(), payload);
    var fs := Split(payload).value;
    assert forall i | 0 <= i < |fs| ::
        Raises(DashboardCallbacks(), fs[i]) <==>
        && fs[i].channel != COMMAND && MessageBus.ParseMessage(fs[i].payload).Ok?
        && Dashboard.Unreadable(MessageBus.ParseMessage(fs[i].payload).value);
  }

  const CUT_VARINT := Frame(true, 1, [0x80, 0x8A, 0x80])
  const READ_REQUEST := Frame(true, 1, [0x01, 0x00, 0x40, 0x81, 0x00])

  lemma CutVarintIsUnreadable()
    ensures MessageBus.ParseMessage(CUT_VARINT.payload) == Ok(MessageBus.Notify(Dashboard.CHARGING_ACTIVE, [0x80]))
    ensures Raises(DashboardCallbacks(), CUT_VARINT) && !Raises(HandshakeCallbacks(), CUT_VARINT)
    ensures RepliesTo(HandshakeCallbacks(), CUT_VARINT) == []
  {
    assert CUT_VARINT.payload[2..] == [0x80];
    Varint.ReadMeaning([0x80]);
  }

  lemma ReadRequestIsAnswered()
    ensures |RepliesTo(HandshakeCallbacks(), READ_REQUEST)| == 1
  {
    var request := MessageBus.DirectedFrame(0x0100, 0x4081, MessageBus.READ, 0, [], MessageBus.SUCCESS);
    assert READ_REQUEST.payload[5..] == [];
    assert MessageBus.ParseMessage(READ_REQUEST.payload) == Ok(MessageBus.Directed(request));
    StartupResponderNeverRaises(READ_REQUEST, MessageBus.Directed(request));
    Startup.StartupPayloadsAreShort();
    Startup.ResponderSaysWhatIsExpected(
      Startup.STARTUP_PROVIDER_PAYLOADS, READ_REQUEST, MessageBus.Directed(request));
  }

  /** A message the dashboard cannot read silences it for the rest of the notification. */
  lemma CutShort(f: Frame, g: Frame)
    requires AllEncodable([f, g]) && Raises(DashboardCallbacks(), f)
    ensures var payload := EncodeAll([f, g]);
            && RepliesIn(DashboardCallbacks(), payload) == [] && !Completes(DashboardCallbacks(), payload)
            && RepliesIn(HandshakeCallbacks(), payload) ==
               RepliesTo(HandshakeCallbacks(), f) + RepliesTo(HandshakeCallbacks(), g)
  {
    SplitOfEncoded([f, g]);
    HandledStops(DashboardCallbacks(), [f, g], 0);
    HandledStops(HandshakeCallbacks(), [f, g], 2);
    RepliesToTwo(HandshakeCallbacks(), f, g);
  }

  lemma RepliesToTwo(callbacks: Callbacks, f: Frame, g: Frame)
    ensures [f, g][..0] == [] && [f, g][..2] == [f, g]
    ensures RepliesOf(callbacks, [f, g]) == RepliesTo(callbacks, f) + RepliesTo(callbacks, g)
  {
    assert [f, g][..1] == [f] && [f][..0] == [];
    assert RepliesOf(callbacks, [f]) == [] + RepliesTo(callbacks, f);
  }

  /** For instance, a charging notify with a truncated varint, followed by a read request: the
      handshake driver answers the request, the dashboard does not. */
  lemma UnreadableNotifyCutsShort()
    ensures var payload := EncodeAll([CUT_VARINT, READ_REQUEST]);
            && RepliesIn(DashboardCallbacks(), payload) == [] && !Completes(DashboardCallbacks(), payload)
            && |RepliesIn(HandshakeCallbacks(), payload)| == 1
  {
    CutVarintIsUnreadable();
    ReadRequestIsAnswered();
    CutShort(CUT_VARINT, READ_REQUEST);
  }
}
