/** The MCSP command codec of `bosch_ble/mcsp.py`. */
module Commands {
  import opened Bits
  import opened Wrappers
  import opened Sequences
  import opened Mcsp

  /** The dataclasses put no bounds on their integers; encoding does. */
  datatype Command =
    | Version(version: int)
    | AdvanceTransmitWindow(channel: Channel, advance: int)
    | DisableFlowControl(channel: Channel)
    | MaxSegmentationPacket(maxPacketSize: int)

  const VERSION: Byte := 0x01
  const ADVANCED_TRANSMIT_WINDOW: Byte := 0x02
  const DISABLE_FLOW_CONTROL: Byte := 0x03
  const MAX_SEGMENTATION_PACKET: Byte := 0x04

  // ---------- big-endian integers ----------

  function FromBigEndian(bs: Bytes): nat {
    if bs == [] then 0 else FromBigEndian(bs[..|bs| - 1]) * 256 + bs[|bs| - 1]
  }

  /** `int.to_bytes(length, "big")`, which refuses what does not fit. */
  function ToBigEndian(n: int, length: nat): Result<Bytes, Error> {
    if n < 0 then Err(OutOfRange)
    else if length == 0 then (if n == 0 then Ok([]) else Err(OutOfRange))
    else
      var high := ToBigEndian(n / 256, length - 1);
      if high.Err? then high else Ok(high.value + [n % 256])
  }

  lemma {:induction false} ToBigEndianFits(n: int, length: nat)
    ensures ToBigEndian(n, length).Ok? <==> 0 <= n < Shl(1, 8 * length)
    ensures ToBigEndian(n, length).Ok? ==> |ToBigEndian(n, length).value| == length
    ensures ToBigEndian(n, length).Ok? ==> FromBigEndian(ToBigEndian(n, length).value) == n
  {
    if n < 0 || length == 0 {
    } else {
      ToBigEndianFits(n / 256, length - 1);
      ShlShl(1, 8 * (length - 1), 8);
      ShiftedLeft(Shl(1, 8 * (length - 1)));
      var high := ToBigEndian(n / 256, length - 1);
      if high.Ok? {
        assert (high.value + [n % 256])[..length - 1] == high.value;
      }
    }
  }

  lemma {:induction false} FromBigEndianFits(bs: Bytes)
    ensures ToBigEndian(FromBigEndian(bs), |bs|) == Ok(bs)
  {
    if bs == [] {
    } else {
      var high := bs[..|bs| - 1];
      FromBigEndianFits(high);
      assert FromBigEndian(bs) / 256 == FromBigEndian(high);
      assert high + [bs[|bs| - 1]] == bs;
    }
  }

  // ---------- one command ----------

  function ParseChannel(b: Byte): Result<Channel, Error> {
    if b < 8 then Ok(b) else Err(BadChannel)
  }

  function DecodeCommand(payload: Bytes): Result<Command, Error> {
    if payload == [] then Err(EmptyCommand)
    else if payload[0] == VERSION then
      if |payload| < 2 then Err(TruncatedCommand) else Ok(Version(payload[1]))
    else if payload[0] == ADVANCED_TRANSMIT_WINDOW then
      if |payload| < 6 then Err(TruncatedCommand) else
      var channel :- ParseChannel(payload[1]);
      Ok(AdvanceTransmitWindow(channel, FromBigEndian(payload[2..6])))
    else if payload[0] == DISABLE_FLOW_CONTROL then
      if |payload| < 2 then Err(TruncatedCommand) else
      var channel :- ParseChannel(payload[1]);
      Ok(DisableFlowControl(channel))
    else if payload[0] == MAX_SEGMENTATION_PACKET then
      if |payload| < 3 then Err(TruncatedCommand) else Ok(MaxSegmentationPacket(FromBigEndian(payload[1..3])))
    else Err(UnsupportedCommand)
  }

  function EncodeCommand(c: Command): Result<Bytes, Error> {
    match c
    case Version(version) =>
      if 0 <= version < 256 then Ok([VERSION, version]) else Err(OutOfRange)
    case AdvanceTransmitWindow(channel, advance) =>
      var amount :- ToBigEndian(advance, 4);
      Ok([ADVANCED_TRANSMIT_WINDOW, channel] + amount)
    case DisableFlowControl(channel) =>
      Ok([DISABLE_FLOW_CONTROL, channel])
    case MaxSegmentationPacket(size) =>
      var amount :- ToBigEndian(size, 2);
      Ok([MAX_SEGMENTATION_PACKET] + amount)
  }

  predicate InRange(c: Command) {
    match c
    case Version(version) => 0 <= version < 0x100
    case AdvanceTransmitWindow(_, advance) => 0 <= advance < 0x1_0000_0000
    case DisableFlowControl(_) => true
    case MaxSegmentationPacket(size) => 0 <= size < 0x1_0000
  }

  lemma WordSizes()
    ensures Shl(1, 16) == 0x1_0000 && Shl(1, 32) == 0x1_0000_0000
  {
    ShiftedLeft(1);
    ShlShl(1, 8, 8);
    ShiftedLeft(256);
    ShlShl(1, 16, 8);
    ShiftedLeft(0x1_0000);
    ShlShl(1, 24, 8);
    ShiftedLeft(0x100_0000);
  }

  /** Exactly the in-range commands can be encoded, and each survives the trip, whatever bytes
      follow it in the payload. */
  lemma CommandRoundTrip(c: Command, trailing: Bytes)
    ensures EncodeCommand(c).Ok? <==> InRange(c)
    ensures InRange(c) ==> DecodeCommand(EncodeCommand(c).value + trailing) == Ok(c)
  {
    WordSizes();
    match c
    case Version(_) =>
    case AdvanceTransmitWindow(_, advance) =>
      ToBigEndianFits(advance, 4);
      if InRange(c) {
        assert (EncodeCommand(c).value + trailing)[2..6] == ToBigEndian(advance, 4).value;
      }
    case DisableFlowControl(_) =>
    case MaxSegmentationPacket(size) =>
      ToBigEndianFits(size, 2);
      if InRange(c) {
        assert (EncodeCommand(c).value + trailing)[1..3] == ToBigEndian(size, 2).value;
      }
  }

  /** The four commands on the wire: a type byte, a channel where there is one, and big-endian
      numbers. */
  lemma CommandLayout(c: Command, trailing: Bytes)
    requires InRange(c)
    ensures var payload := match c
                           case Version(v) => [0x01, v]
                           case AdvanceTransmitWindow(channel, n) =>
                             [0x02, channel, n / 0x100_0000, n / 0x1_0000 % 256, n / 256 % 256, n % 256]
                           case DisableFlowControl(channel) => [0x03, channel]
                           case MaxSegmentationPacket(n) => [0x04, n / 256, n % 256];
            EncodeCommand(c) == Ok(payload) && DecodeCommand(payload + trailing) == Ok(c)
  {
    CommandRoundTrip(c, trailing);
    match c
    case Version(_) =>
    case AdvanceTransmitWindow(channel, n) =>
      FourBytes(n);
      assert [ADVANCED_TRANSMIT_WINDOW, channel] + ToBigEndian(n, 4).value ==
             [0x02, channel, n / 0x100_0000, n / 0x1_0000 % 256, n / 256 % 256, n % 256];
    case DisableFlowControl(_) =>
    case MaxSegmentationPacket(n) =>
      TwoBytes(n);
      assert [MAX_SEGMENTATION_PACKET] + ToBigEndian(n, 2).value == [0x04, n / 256, n % 256];
  }

  lemma OneMoreByte(n: nat, length: nat, high: Bytes)
    requires ToBigEndian(n / 256, length) == Ok(high)
    ensures ToBigEndian(n, length + 1) == Ok(high + [n % 256])
  {
  }

  lemma TwoBytes(n: nat)
    requires n < 0x1_0000
    ensures ToBigEndian(n, 2) == Ok([n / 256, n % 256])
  {
    OneMoreByte(n / 256, 0, []);
    assert [] + [n / 256 % 256] == [n / 256];
    OneMoreByte(n, 1, [n / 256]);
    assert [n / 256] + [n % 256] == [n / 256, n % 256];
  }

  lemma FourBytes(n: nat)
    requires n < 0x1_0000_0000
    ensures ToBigEndian(n, 4) == Ok([n / 0x100_0000, n / 0x1_0000 % 256, n / 256 % 256, n % 256])
  {
    var high := n / 0x1_0000;
    TwoBytes(high);
    assert n / 256 / 256 == high && high / 256 == n / 0x100_0000;
    OneMoreByte(n / 256, 2, [high / 256, high % 256]);
    assert [high / 256, high % 256] + [n / 256 % 256] == [high / 256, high % 256, n / 256 % 256];
    OneMoreByte(n, 3, [high / 256, high % 256, n / 256 % 256]);
    assert [high / 256, high % 256, n / 256 % 256] + [n % 256] ==
           [n / 0x100_0000, n / 0x1_0000 % 256, n / 256 % 256, n % 256];
  }

  /** An accepted payload is the encoding of the command it decodes to, then ignored bytes. */
  lemma CommandCanonical(payload: Bytes)
    requires DecodeCommand(payload).Ok?
    ensures InRange(DecodeCommand(payload).value)
    ensures EncodeCommand(DecodeCommand(payload).value).Ok?
    ensures EncodeCommand(DecodeCommand(payload).value).value <= payload
  {
    match DecodeCommand(payload).value
    case Version(_) =>
    case AdvanceTransmitWindow(_, advance) =>
      FromBigEndianFits(payload[2..6]);
      CommandRoundTrip(DecodeCommand(payload).value, []);
    case DisableFlowControl(_) =>
    case MaxSegmentationPacket(size) =>
      FromBigEndianFits(payload[1..3]);
      CommandRoundTrip(DecodeCommand(payload).value, []);
  }

  /** A payload decodes to `c` exactly when it starts with the encoding of `c`. */
  lemma DecodesExactly(payload: Bytes, c: Command)
    ensures DecodeCommand(payload) == Ok(c) <==> InRange(c) && EncodeCommand(c).Ok? && EncodeCommand(c).value <= payload
  {
    if DecodeCommand(payload) == Ok(c) {
      CommandCanonical(payload);
      CommandRoundTrip(c, []);
    }
    if InRange(c) && EncodeCommand(c).Ok? && EncodeCommand(c).value <= payload {
      var n := |EncodeCommand(c).value|;
      assert payload == EncodeCommand(c).value + payload[n..];
      CommandRoundTrip(c, payload[n..]);
    }
  }

  // ---------- command frames ----------

  function DecodeCommandFrame(f: Frame): Result<Command, Error> {
    if f.channel != COMMAND then Err(NotCommandChannel) else DecodeCommand(f.payload)
  }

  function DecodeEach(fs: seq<Frame>): Result<seq<Command>, Error> {
    if fs == [] then Ok([]) else
    var c :- DecodeCommandFrame(fs[0]);
    Prepend([c], DecodeEach(fs[1..]))
  }

  function DecodeCommandFrames(data: Bytes): Result<seq<Command>, Error> {
    var fs :- Split(data);
    DecodeEach(fs)
  }

  function CommandFrame(payload: Bytes): Frame {
    Frame(true, COMMAND, payload)
  }

  function EncodeCommandFrame(c: Command): Result<Bytes, Error> {
    var payload :- EncodeCommand(c);
    EncodeFrame(CommandFrame(payload))
  }

  /** `[encode_command_frame(c) for c in commands]` */
  function EncodePackets(commands: seq<Command>): Result<seq<Bytes>, Error> {
    if commands == [] then Ok([]) else
    var packet :- EncodeCommandFrame(commands[0]);
    Prepend([packet], EncodePackets(commands[1..]))
  }

  predicate AllInRange(commands: seq<Command>) {
    forall i | 0 <= i < |commands| :: InRange(commands[i])
  }

  lemma CommandFrameEncodes(c: Command)
    ensures EncodeCommandFrame(c).Ok? <==> InRange(c)
    ensures InRange(c) ==> Encodable(CommandFrame(EncodeCommand(c).value))
    ensures InRange(c) ==> EncodeCommandFrame(c) == Ok(Wire(CommandFrame(EncodeCommand(c).value)))
    ensures InRange(c) ==> DecodeCommandFrame(CommandFrame(EncodeCommand(c).value)) == Ok(c)
  {
    CommandRoundTrip(c, []);
    WordSizes();
    if InRange(c) {
      ToBigEndianFits(if c.AdvanceTransmitWindow? then c.advance else 0, 4);
      ToBigEndianFits(if c.MaxSegmentationPacket? then c.maxPacketSize else 0, 2);
      assert EncodeCommand(c).value + [] == EncodeCommand(c).value;
    }
  }

  /** Packets for in-range commands, sent back to back, decode to those commands. */
  lemma {:induction false} PacketsRoundTrip(commands: seq<Command>)
    ensures EncodePackets(commands).Ok? <==> AllInRange(commands)
    ensures AllInRange(commands) ==>
              && |EncodePackets(commands).value| == |commands|
              && DecodeCommandFrames(Flatten(EncodePackets(commands).value)) == Ok(commands)
  {
    if commands == [] {
    } else {
      var c, rest := commands[0], commands[1..];
      assert AllInRange(commands) <==> InRange(c) && AllInRange(rest);
      CommandFrameEncodes(c);
      PacketsRoundTrip(rest);
      if AllInRange(commands) {
        var packets := EncodePackets(rest).value;
        var f := CommandFrame(EncodeCommand(c).value);
        SplitWire(f, Flatten(packets));
        FlattenConcat([Wire(f)], packets);
        FlattenOne(Wire(f));
        var fs := Split(Flatten(packets)).value;
        assert ([f] + fs)[1..] == fs;
        assert [c] + rest == commands;
      }
    }
  }

  /** A notification is decoded as commands exactly when every frame of it is on the command channel
      and starts with a command's encoding. */
  lemma {:induction false} CommandFramesExactly(fs: seq<Frame>, commands: seq<Command>)
    requires |fs| == |commands|
    ensures DecodeEach(fs) == Ok(commands) <==>
            forall i | 0 <= i < |fs| :: fs[i].channel == 0 && DecodeCommand(fs[i].payload) == Ok(commands[i])
  {
    if fs == [] {
    } else {
      CommandFramesExactly(fs[1..], commands[1..]);
      FirstAndRest(fs, commands);
      assert commands == [commands[0]] + commands[1..];
      if DecodeEach(fs) == Ok(commands) {
        var tail := DecodeEach(fs[1..]).value;
        assert ([DecodeCommandFrame(fs[0]).value] + tail)[1..] == tail;
      }
    }
  }

  lemma FirstAndRest(fs: seq<Frame>, commands: seq<Command>)
    requires |fs| == |commands| > 0
    ensures (forall i | 0 <= i < |fs| :: fs[i].channel == 0 && DecodeCommand(fs[i].payload) == Ok(commands[i])) <==>
            && fs[0].channel == 0 && DecodeCommand(fs[0].payload) == Ok(commands[0])
            && forall i | 0 <= i < |fs[1..]| ::
                 fs[1..][i].channel == 0 && DecodeCommand(fs[1..][i].payload) == Ok(commands[1..][i])
  {
    assert forall i | 0 < i < |fs| :: fs[i] == fs[1..][i - 1] && commands[i] == commands[1..][i - 1];
  }
}
