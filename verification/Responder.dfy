/** The startup responder of `bosch_ble/handshake.py`. */
module Responder {
  import opened Bits
  import opened Wrappers
  import opened MessageBus
  import Mcsp

  const STARTUP_WRITE_ADDRESSES: set<nat> := {0x40A9}
  const STARTUP_RPC_ADDRESSES: set<nat> := {0x409B, 0x409C}

  type Providers = map<nat, Bytes>

  const STARTUP_PROVIDER_PAYLOADS: Providers := map[
    0x4081 := [0x08, 0x24], 0x4082 := [], 0x4085 := [], 0x4086 := [], 0x4087 := [], 0x4088 := [],
    0x4089 := [], 0x408A := [], 0x408B := [], 0x4091 := [], 0x4092 := [], 0x4093 := [], 0x4094 := [],
    0x4095 := [], 0x4096 := [], 0x4097 := [], 0x4098 := [], 0x4099 := [], 0x409A := [],
    0x409D := [0x08, 0x00, 0x08, 0x01, 0x08, 0x02, 0x08, 0x03], 0x409F := [0x08, 0x01],
    0x40A0 := [], 0x40A1 := [], 0x40A2 := [], 0x40A3 := [], 0x40A4 := [], 0x40A8 := [], 0x40AA := []]

  datatype Error = Message(error: MessageBus.Error) | Framing(cause: Mcsp.Error)

  /** Payloads that leave room for the message header inside one frame. */
  predicate Short(providers: Providers) {
    forall a | a in providers :: |providers[a]| <= 0x0FFF - 6
  }

  lemma StartupPayloadsAreShort()
    ensures Short(STARTUP_PROVIDER_PAYLOADS)
  {
  }

  // ---------- what the responder should say ----------

  predicate IsRequest(t: MessageType) {
    t in {READ, WRITE, RPC, SUBSCRIBE, UNSUBSCRIBE}
  }

  predicate Supported(providers: Providers, t: MessageType, destination: nat) {
    if t == RPC then destination in STARTUP_RPC_ADDRESSES
    else if t == WRITE then destination in STARTUP_WRITE_ADDRESSES || destination in providers
    else destination in providers
  }

  /** The direct answer to a request, before its fields are cut to their widths. */
  function WireAnswer(providers: Providers, d: DirectedFrame): DirectedFrame
    requires IsRequest(d.messageType)
  {
    var supported := Supported(providers, d.messageType, d.destination);
    DirectedFrame(
      d.destination, d.source, d.messageType + 1, d.sequence,
      if d.messageType == READ && supported then providers[d.destination] else [],
      if supported then SUCCESS else UNSUPPORTED)
  }

  /** The direct answer to a request, as its sender should read it. */
  function Answer(providers: Providers, d: DirectedFrame): DirectedFrame
    requires IsRequest(d.messageType)
  {
    var a := WireAnswer(providers, d);
    a.(source := a.source % ADDRESS_SPACE, destination := a.destination % ADDRESS_SPACE, sequence := a.sequence % 16)
  }

  /** All replies: an answer to every request, and the current value for a supported subscriber. */
  function ExpectedReplies(providers: Providers, decoded: MessageFrame): seq<MessageFrame> {
    if decoded.Notify? || !IsRequest(decoded.frame.messageType) then []
    else
      var d := decoded.frame;
      [Directed(Answer(providers, d))]
      + (if d.messageType == SUBSCRIBE && d.destination in providers
         then [Notify(d.destination % ADDRESS_SPACE, providers[d.destination])] else [])
  }

  // ---------- what the code builds ----------

  function Replies(providers: Providers, d: DirectedFrame): seq<Bytes> {
    var known := d.destination in providers;
    if d.messageType == READ then
      [if known then ResponseBytes(d, READ_RESPONSE, providers[d.destination], SUCCESS)
       else ResponseBytes(d, READ_RESPONSE, [], UNSUPPORTED)]
    else if d.messageType == SUBSCRIBE then
      if known
      then [ResponseBytes(d, SUBSCRIBE_RESPONSE, [], SUCCESS), NotifyBytes(d.destination, providers[d.destination])]
      else [ResponseBytes(d, SUBSCRIBE_RESPONSE, [], UNSUPPORTED)]
    else if d.messageType == UNSUBSCRIBE then
      [ResponseBytes(d, UNSUBSCRIBE_RESPONSE, [], if known then SUCCESS else UNSUPPORTED)]
    else if d.messageType == WRITE then
      [ResponseBytes(d, WRITE_RESPONSE, [],
                     if d.destination in STARTUP_WRITE_ADDRESSES || known then SUCCESS else UNSUPPORTED)]
    else if d.messageType == RPC then
      [ResponseBytes(d, RPC_RESPONSE, [], if d.destination in STARTUP_RPC_ADDRESSES then SUCCESS else UNSUPPORTED)]
    else []
  }

  function EncodeEach(channel: Mcsp.Channel, payloads: seq<Bytes>): Result<seq<Bytes>, Error> {
    if payloads == [] then Ok([]) else
    var packet := Mcsp.EncodeFrame(Mcsp.Frame(true, channel, payloads[0]));
    if packet.Err? then Err(Framing(packet.error)) else
    var rest :- EncodeEach(channel, payloads[1..]);
    Ok([packet.value] + rest)
  }

  /** The packets for a frame; `decoded` is what the caller already parsed out of it, if anything. */
  function StartupPackets(providers: Providers, frame: Mcsp.Frame, decoded: Option<MessageFrame>)
    : Result<seq<Bytes>, Error>
  {
    if frame.channel == Mcsp.COMMAND then Ok([]) else
    var message := if decoded.Some? then Ok(decoded.value) else ParseMessage(frame.payload);
    if message.Err? then Err(Message(message.error))
    else if message.value.Notify? then Ok([])
    else EncodeEach(frame.channel, Replies(providers, message.value.frame))
  }

  method BuildStartupResponsePackets(providers: Providers, frame: Mcsp.Frame, decoded: Option<MessageFrame>)
    returns (r: Result<seq<Bytes>, Error>)
    ensures r == StartupPackets(providers, frame, decoded)
  {
    if frame.channel == Mcsp.COMMAND {
      return Ok([]);
    }
    var message;
    if decoded.None? {
      message := DecodeMessageFrame(frame.payload);
    } else {
      message := Ok(decoded.value);
    }
    if message.Err? {
      return Err(Message(message.error));
    }
    if message.value.Notify? {
      return Ok([]);
    }
    var d := message.value.frame;
    var responses: seq<Bytes> := [];
    var payload := if d.destination in providers then Some(providers[d.destination]) else None;
    var response: Result<Bytes, MessageBus.Error>;
    if d.messageType == READ {
      if payload.None? {
        response := EncodeResponse(d, READ_RESPONSE, [], UNSUPPORTED);
      } else {
        response := EncodeResponse(d, READ_RESPONSE, payload.value, SUCCESS);
      }
      responses := responses + [response.value];
    } else if d.messageType == SUBSCRIBE {
      if payload.None? {
        response := EncodeResponse(d, SUBSCRIBE_RESPONSE, [], UNSUPPORTED);
        responses := responses + [response.value];
      } else {
        response := EncodeResponse(d, SUBSCRIBE_RESPONSE, [], SUCCESS);
        responses := responses + [response.value];
        var notify := EncodeNotify(d.destination, payload.value);
        responses := responses + [notify];
      }
    } else if d.messageType == UNSUBSCRIBE {
      if payload.None? {
        response := EncodeResponse(d, UNSUBSCRIBE_RESPONSE, [], UNSUPPORTED);
      } else {
        response := EncodeResponse(d, UNSUBSCRIBE_RESPONSE, [], SUCCESS);
      }
      responses := responses + [response.value];
    } else if d.messageType == WRITE {
      if d.destination in STARTUP_WRITE_ADDRESSES || d.destination in providers {
        response := EncodeResponse(d, WRITE_RESPONSE, [], SUCCESS);
      } else {
        response := EncodeResponse(d, WRITE_RESPONSE, [], UNSUPPORTED);
      }
      responses := responses + [response.value];
    } else if d.messageType == RPC {
      if d.destination in STARTUP_RPC_ADDRESSES {
        response := EncodeResponse(d, RPC_RESPONSE, [], SUCCESS);
      } else {
        response := EncodeResponse(d, RPC_RESPONSE, [], UNSUPPORTED);
      }
      responses := responses + [response.value];
    }
    assert responses == Replies(providers, d);
    r := EncodeEach(frame.channel, responses);
  }

  // ---------- reading replies back ----------

  /** A packet that is exactly one end-of-channel frame on `channel`, parsed as a message. */
  function ReadBack(packet: Bytes, channel: Mcsp.Channel): Option<MessageFrame> {
    var frames := Mcsp.Split(packet);
    if frames.Err? || |frames.value| != 1 || !frames.value[0].endOfChannel || frames.value[0].channel != channel
    then None
    else
      var message := ParseMessage(frames.value[0].payload);
      if message.Err? then None else Some(message.value)
  }

  lemma ReadBackEncoded(payload: Bytes, channel: Mcsp.Channel)
    requires |payload| <= 0x0FFF && ParseMessage(payload).Ok?
    ensures Mcsp.Split(Mcsp.Wire(Mcsp.Frame(true, channel, payload))) == Ok([Mcsp.Frame(true, channel, payload)])
    ensures ReadBack(Mcsp.Wire(Mcsp.Frame(true, channel, payload)), channel) == Some(ParseMessage(payload).value)
  {
    Mcsp.SplitOneFrame(Mcsp.Frame(true, channel, payload));
  }

  lemma {:induction false} EncodeEachReadsBack(channel: Mcsp.Channel, payloads: seq<Bytes>)
    requires forall i | 0 <= i < |payloads| :: |payloads[i]| <= 0x0FFF && ParseMessage(payloads[i]).Ok?
    ensures EncodeEach(channel, payloads).Ok? && |EncodeEach(channel, payloads).value| == |payloads|
    ensures forall i | 0 <= i < |payloads| ::
              && EncodeEach(channel, payloads).value[i] == Mcsp.Wire(Mcsp.Frame(true, channel, payloads[i]))
              && ReadBack(EncodeEach(channel, payloads).value[i], channel) == Some(ParseMessage(payloads[i]).value)
  {
    if payloads == [] {
    } else {
      EncodeEachReadsBack(channel, payloads[1..]);
      ReadBackEncoded(payloads[0], channel);
      forall i | 1 <= i < |payloads|
        ensures EncodeEach(channel, payloads).value[i] == EncodeEach(channel, payloads[1..]).value[i - 1]
        ensures payloads[i] == payloads[1..][i - 1]
      {
      }
    }
  }

  lemma RepliesAreExpected(providers: Providers, d: DirectedFrame)
    requires Short(providers)
    ensures |Replies(providers, d)| == |ExpectedReplies(providers, Directed(d))|
    ensures forall i | 0 <= i < |Replies(providers, d)| ::
              && |Replies(providers, d)[i]| <= 0x0FFF
              && ParseMessage(Replies(providers, d)[i]) == Ok(ExpectedReplies(providers, Directed(d))[i])
  {
    if IsRequest(d.messageType) {
      var a := Answer(providers, d);
      assert Replies(providers, d)[0] == ResponseBytes(d, a.messageType, a.payload, a.status);
      ResponseRoundTrip(d, a.messageType, a.payload, a.status);
      if d.destination in providers {
        NotifyRoundTrip(d.destination, providers[d.destination]);
      }
    }
  }

  /** End to end: for any frame on a message channel and any decoded message, the responder does
      not raise, and its packets read back, one frame each on the same channel, as exactly the
      expected replies. */
  lemma ResponderSaysWhatIsExpected(providers: Providers, frame: Mcsp.Frame, decoded: MessageFrame)
    requires Short(providers) && frame.channel != Mcsp.COMMAND
    ensures var r := StartupPackets(providers, frame, Some(decoded));
            && r.Ok?
            && |r.value| == |ExpectedReplies(providers, decoded)|
            && forall i | 0 <= i < |r.value| ::
                 ReadBack(r.value[i], frame.channel) == Some(ExpectedReplies(providers, decoded)[i])
  {
    if decoded.Directed? {
      RepliesAreExpected(providers, decoded.frame);
      EncodeEachReadsBack(frame.channel, Replies(providers, decoded.frame));
    }
  }

  lemma NothingIsTruncated(providers: Providers, d: DirectedFrame)
    requires IsRequest(d.messageType)
    requires d.source < ADDRESS_SPACE && d.destination < ADDRESS_SPACE && d.sequence < 16
    ensures Answer(providers, d) == WireAnswer(providers, d) && IsResponseType(d.messageType + 1)
  {
  }

  /** From a request's bytes to the first packet: it reads back, on the same channel, as a response
      of the type one above the request's, addresses swapped, same sequence, and success exactly
      when the tables support the request, with the provider's payload for a read. */
  lemma AnswerToWireRequest(
    providers: Providers, endOfChannel: bool, channel: Mcsp.Channel, source: nat, destination: nat, mark: bool,
    t: MessageType, sequence: nat, payload: Bytes)
    requires Short(providers) && channel != 0
    requires source < 0x8000 && destination < 0x8000 && sequence < 16 && t in {0, 2, 4, 6, 8}
    ensures var raw := DirectedHeader(source, destination, mark, t, sequence) + payload;
            var r := StartupPackets(providers, Mcsp.Frame(endOfChannel, channel, raw), None);
            var supported := Supported(providers, t, destination);
            && r.Ok? && |r.value| >= 1
            && ReadBack(r.value[0], channel) == Some(Directed(DirectedFrame(
                 destination, source, t + 1, sequence,
                 if t == READ && supported then providers[destination] else [], if supported then 0 else 4)))
  {
    var raw := DirectedHeader(source, destination, mark, t, sequence) + payload;
    var d := DirectedFrame(source, destination, t, sequence, payload, SUCCESS);
    RequestRoundTrip(source, destination, mark, t, sequence, payload);
    NothingIsTruncated(providers, d);
    ResponderSaysWhatIsExpected(providers, Mcsp.Frame(endOfChannel, channel, raw), Directed(d));
    assert ExpectedReplies(providers, Directed(d))[0] == Directed(Answer(providers, d));
  }

  /** Reads, subscriptions and their ends are for provider addresses, writes also for the startup
      stage, and calls only for two addresses. */
  lemma SupportedExactly(providers: Providers, t: MessageType, destination: nat)
    requires t in {0, 2, 4, 6, 8}
    ensures Supported(providers, t, destination) <==>
            if t == 4 then destination == 0x409B || destination == 0x409C
            else destination in providers || (t == 2 && destination == 0x40A9)
  {
  }

  /** The bytes a reply consists of. */
  function ReplyBytes(
    providers: Providers, source: nat, destination: nat, t: MessageType, sequence: nat): seq<Bytes>
    requires source < 0x8000 && destination < 0x8000 && sequence < 16 && t in {0, 2, 4, 6, 8}
  {
    var supported := Supported(providers, t, destination);
    [DirectedHeader(destination, source, supported, t + 1, sequence)
     + (if supported then [] else [4])
     + (if t == 0 && supported then providers[destination] else [])]
    + (if t == 6 && supported then [[destination / 256 + 128, destination % 256] + providers[destination]] else [])
  }

  lemma RepliesAreWritten(providers: Providers, d: DirectedFrame)
    requires d.source < 0x8000 && d.destination < 0x8000 && d.sequence < 16 && d.messageType in {0, 2, 4, 6, 8}
    ensures Replies(providers, d) == ReplyBytes(providers, d.source, d.destination, d.messageType, d.sequence)
  {
    var supported := Supported(providers, d.messageType, d.destination);
    var value := if d.messageType == 0 && supported then providers[d.destination] else [];
    ResponseIsWritten(d, d.messageType + 1, value, if supported then SUCCESS else UNSUPPORTED);
    if d.destination in providers {
      NotifyIsWritten(d.destination, providers[d.destination]);
    }
  }

  /** From a request's bytes to the replies' bytes, each one end-of-channel frame. */
  lemma RequestToReplyBytes(
    providers: Providers, endOfChannel: bool, channel: Mcsp.Channel, source: nat, destination: nat, mark: bool,
    t: MessageType, sequence: nat, payload: Bytes)
    requires Short(providers) && channel != 0
    requires source < 0x8000 && destination < 0x8000 && sequence < 16 && t in {0, 2, 4, 6, 8}
    ensures var raw := DirectedHeader(source, destination, mark, t, sequence) + payload;
            var r := StartupPackets(providers, Mcsp.Frame(endOfChannel, channel, raw), None);
            var replies := ReplyBytes(providers, source, destination, t, sequence);
            && r.Ok? && |r.value| == |replies|
            && forall i | 0 <= i < |replies| ::
                 |replies[i]| <= 4095 && r.value[i] == Mcsp.Wire(Mcsp.Frame(true, channel, replies[i]))
  {
    var d := DirectedFrame(source, destination, t, sequence, payload, SUCCESS);
    RequestRoundTrip(source, destination, mark, t, sequence, payload);
    RepliesAreWritten(providers, d);
    RepliesAreExpected(providers, d);
    EncodeEachReadsBack(channel, Replies(providers, d));
  }

  /** Nothing but a request on a message channel is answered. */
  lemma OnlyRequestsAreAnswered(providers: Providers, frame: Mcsp.Frame, decoded: MessageFrame)
    requires frame.channel == 0 || decoded.Notify? || decoded.frame.messageType !in {0, 2, 4, 6, 8}
    ensures StartupPackets(providers, frame, Some(decoded)) == Ok([])
  {
  }

  /** The addresses with a startup value, and the three values that are not empty. */
  lemma StartupTable(address: nat)
    ensures address in STARTUP_PROVIDER_PAYLOADS <==>
            || 0x4081 <= address <= 0x4082 || 0x4085 <= address <= 0x408B || 0x4091 <= address <= 0x409A
            || address == 0x409D || 0x409F <= address <= 0x40A4 || address == 0x40A8 || address == 0x40AA
    ensures address in STARTUP_PROVIDER_PAYLOADS ==>
              STARTUP_PROVIDER_PAYLOADS[address] ==
              if address == 0x4081 then [8, 36]
              else if address == 0x409D then [8, 0, 8, 1, 8, 2, 8, 3]
              else if address == 0x409F then [8, 1]
              else []
  {
  }

  /** For instance, the bike reading 0x4081 from 0x0100 gets the bytes 08 24. */
  lemma ReadOfStartupValue(channel: Mcsp.Channel)
    requires channel != 0
    ensures StartupPackets(
              STARTUP_PROVIDER_PAYLOADS, Mcsp.Frame(true, channel, [0x01, 0x00, 0x40, 0x81, 0x00]), None) ==
            Ok([Mcsp.Wire(Mcsp.Frame(true, channel, [0x40, 0x81, 0x81, 0x00, 0x10, 0x08, 0x24]))])
  {
    ReadReplyBytes();
    StartupPayloadsAreShort();
    RequestToReplyBytes(STARTUP_PROVIDER_PAYLOADS, true, channel, 0x0100, 0x4081, false, READ, 0, []);
    var replies := ReplyBytes(STARTUP_PROVIDER_PAYLOADS, 0x0100, 0x4081, READ, 0);
    var frame := Mcsp.Frame(true, channel, [0x01, 0x00, 0x40, 0x81, 0x00]);
    var packets := StartupPackets(STARTUP_PROVIDER_PAYLOADS, frame, None).value;
    assert packets == [packets[0]] && replies[0] == [0x40, 0x81, 0x81, 0x00, 0x10, 0x08, 0x24];
  }

  lemma ReadReplyBytes()
    ensures DirectedHeader(0x0100, 0x4081, false, READ, 0) + [] == [0x01, 0x00, 0x40, 0x81, 0x00]
    ensures ReplyBytes(STARTUP_PROVIDER_PAYLOADS, 0x0100, 0x4081, READ, 0) ==
            [[0x40, 0x81, 0x81, 0x00, 0x10, 0x08, 0x24]]
  {
    StartupTable(0x4081);
    var header := DirectedHeader(0x4081, 0x0100, true, 1, 0);
    assert header + [] + [8, 36] == [0x40, 0x81, 0x81, 0x00, 0x10, 0x08, 0x24];
  }

  /** Without a decoded message the responder raises exactly on undecodable message frames. */
  lemma RaisesExactly(providers: Providers, frame: Mcsp.Frame)
    requires Short(providers)
    ensures StartupPackets(providers, frame, None).Err? <==>
            frame.channel != Mcsp.COMMAND && ParseMessage(frame.payload).Err?
  {
    if frame.channel != Mcsp.COMMAND && ParseMessage(frame.payload).Ok? {
      ResponderSaysWhatIsExpected(providers, frame, ParseMessage(frame.payload).value);
    }
  }

  /** No reply storms: a packet the responder produced, received as a notification, splits into
      one frame for which the responder stays silent. */
  lemma NoReplyStorm(providers: Providers, frame: Mcsp.Frame, decoded: Option<MessageFrame>, i: nat)
    requires Short(providers)
    requires var r := StartupPackets(providers, frame, decoded); r.Ok? && i < |r.value|
    ensures var packet := StartupPackets(providers, frame, decoded).value[i];
            && Mcsp.Split(packet).Ok?
            && |Mcsp.Split(packet).value| == 1
            && StartupPackets(providers, Mcsp.Split(packet).value[0], None) == Ok([])
  {
    var message := if decoded.Some? then decoded.value else ParseMessage(frame.payload).value;
    var replies := Replies(providers, message.frame);
    RepliesAreExpected(providers, message.frame);
    EncodeEachReadsBack(frame.channel, replies);
    ReadBackEncoded(replies[i], frame.channel);
    SilentOnReply(providers, message.frame, i, Mcsp.Frame(true, frame.channel, replies[i]));
  }

  lemma RepliesKeepTheirChannel(providers: Providers, frame: Mcsp.Frame, decoded: MessageFrame, i: nat)
    requires Short(providers)
    requires var r := StartupPackets(providers, frame, Some(decoded)); r.Ok? && i < |r.value|
    ensures var packet := StartupPackets(providers, frame, Some(decoded)).value[i];
            && frame.channel != Mcsp.COMMAND
            && Mcsp.Split(packet).Ok? && |Mcsp.Split(packet).value| == 1
            && Mcsp.Split(packet).value[0].channel == frame.channel
  {
    ResponderSaysWhatIsExpected(providers, frame, decoded);
  }

  lemma SilentOnReply(providers: Providers, d: DirectedFrame, i: nat, reply: Mcsp.Frame)
    requires i < |ExpectedReplies(providers, Directed(d))|
    requires ParseMessage(reply.payload) == Ok(ExpectedReplies(providers, Directed(d))[i])
    ensures StartupPackets(providers, reply, None) == Ok([])
  {
  }
}
