/** Recognising the bike's handshake and answering it (`bosch_ble/live.py`). */
module Handshake {
  import opened Bits
  import opened Wrappers
  import opened Sequences
  import opened Mcsp
  import opened Commands

  const NON_COMMAND_CHANNELS: seq<Channel> := [1, 2, 3, 4, 5, 6, 7]

  function AdvancedChannels(commands: seq<Command>): set<Channel> {
    set c | c in commands && c.AdvanceTransmitWindow? :: c.channel
  }

  predicate IsBikeHandshake(commands: seq<Command>) {
    && (exists c | c in commands :: c.Version? && c.version == 3)
    && (exists c | c in commands :: c.MaxSegmentationPacket?)
    && AdvancedChannels(commands) == (set c | c in NON_COMMAND_CHANNELS)
  }

  predicate IsControlAdvance(c: Command) {
    c.AdvanceTransmitWindow? && c.channel == COMMAND
  }

  ghost predicate Advances(commands: seq<Command>, channel: Channel) {
    exists n :: AdvanceTransmitWindow(channel, n) in commands
  }

  /** A handshake is version 3, some maximum packet size, and a window advance on each of the
      channels 1 to 7 and on no other. */
  lemma HandshakeExactly(commands: seq<Command>)
    ensures IsBikeHandshake(commands) <==>
            && Version(3) in commands
            && (exists n :: MaxSegmentationPacket(n) in commands)
            && Advances(commands, 1) && Advances(commands, 2) && Advances(commands, 3) && Advances(commands, 4)
            && Advances(commands, 5) && Advances(commands, 6) && Advances(commands, 7) && !Advances(commands, 0)
  {
    assert (exists c | c in commands :: c.MaxSegmentationPacket?) ==>
        exists n :: MaxSegmentationPacket(n) in commands by {
      if c :| c in commands && c.MaxSegmentationPacket? {
        assert MaxSegmentationPacket(c.maxPacketSize) in commands;
      }
    }
    forall channel: Channel
      ensures Advances(commands, channel) <==> channel in AdvancedChannels(commands)
      ensures channel in NON_COMMAND_CHANNELS <==> channel != 0
    {
      if channel in AdvancedChannels(commands) {
        var c :| c in commands && c.AdvanceTransmitWindow? && c.channel == channel;
        assert AdvanceTransmitWindow(channel, c.advance) in commands;
      }
      assert channel != 0 ==> NON_COMMAND_CHANNELS[channel - 1] == channel;
    }
    var wanted := set c | c in NON_COMMAND_CHANNELS;
    if AdvancedChannels(commands) == wanted {
      assert forall channel: Channel | channel != 0 :: channel in AdvancedChannels(commands);
    }
  }

  /** Only which commands occur matters: not their order, not how often. */
  lemma HandshakeIsASetProperty(a: seq<Command>, b: seq<Command>)
    requires forall c :: c in a <==> c in b
    ensures IsBikeHandshake(a) <==> IsBikeHandshake(b)
  {
  }

  lemma MoreCommandsKeepHandshake(a: seq<Command>, b: seq<Command>)
    requires IsBikeHandshake(a)
    requires forall c | c in b :: !IsControlAdvance(c)
    ensures IsBikeHandshake(a + b)
  {
  }

  // ---------- the one-shot future and the grouping of notifications ----------

  datatype Future = Pending | Resolved(commands: seq<Command>) | Cancelled

  /** What the callback does to the future once a notification's commands are accumulated. */
  function Settle(f: Future, accumulated: seq<Command>): Future {
    if f.Pending? && IsBikeHandshake(accumulated) then Resolved(accumulated) else f
  }

  /** The future after notifications carrying these groups of commands, never cancelled. */
  function FutureAfter(groups: seq<seq<Command>>): Future {
    if groups == [] then Pending else Settle(FutureAfter(groups[..|groups| - 1]), Flatten(groups))
  }

  /** The future is set at the first notification boundary that completes a handshake, with the
      commands accumulated up to there, and never again. */
  lemma {:induction false} FutureIsSetOnce(groups: seq<seq<Command>>) returns (k: nat)
    ensures FutureAfter(groups) ==
            if k <= |groups| then Resolved(Flatten(groups[..k])) else Pending
    ensures k <= |groups| ==> IsBikeHandshake(Flatten(groups[..k]))
    ensures forall j | 0 <= j <= |groups| && j < k :: !IsBikeHandshake(Flatten(groups[..j]))
  {
    if groups == [] {
      k := 1;
      assert Flatten(groups[..0]) == [];
    } else {
      var front := groups[..|groups| - 1];
      k := FutureIsSetOnce(front);
      forall j | 0 <= j <= |front|
        ensures front[..j] == groups[..j]
      {
      }
      assert groups[..|groups|] == groups;
      if k > |front| {
        k := if IsBikeHandshake(Flatten(groups)) then |groups| else |groups| + 1;
      }
    }
  }

  /** A window advance on the command channel arriving after a complete handshake. */
  predicate LateControlAdvance(commands: seq<Command>) {
    exists i | 0 <= i < |commands| :: IsControlAdvance(commands[i]) && IsBikeHandshake(commands[..i])
  }

  /** Without one, the grouping into notifications does not matter. */
  lemma GroupingDoesNotMatter(groups: seq<seq<Command>>)
    requires !LateControlAdvance(Flatten(groups))
    ensures FutureAfter(groups).Resolved? <==> IsBikeHandshake(Flatten(groups))
  {
    var commands := Flatten(groups);
    var k := FutureIsSetOnce(groups);
    assert groups[..|groups|] == groups;
    if k <= |groups| {
      FlattenPrefix(groups, k);
      var seen := Flatten(groups[..k]);
      HandshakeSurvives(commands, |seen|);
    }
  }

  lemma HandshakeSurvives(commands: seq<Command>, n: nat)
    requires n <= |commands| && IsBikeHandshake(commands[..n]) && !LateControlAdvance(commands)
    ensures IsBikeHandshake(commands)
    decreases |commands| - n
  {
    if n == |commands| {
      assert commands[..n] == commands;
    } else {
      assert !IsControlAdvance(commands[n]);
      MoreCommandsKeepHandshake(commands[..n], [commands[n]]);
      assert commands[..n] + [commands[n]] == commands[..n + 1];
      HandshakeSurvives(commands, n + 1);
    }
  }

  /** With one, it does: notifying just before it resolves the future, notifying once does not. */
  lemma GroupingMatters(seen: seq<Command>, late: seq<Command>)
    returns (twice: seq<seq<Command>>, once: seq<seq<Command>>)
    requires IsBikeHandshake(seen) && !IsBikeHandshake(seen + late)
    ensures Flatten(twice) == Flatten(once) == seen + late
    ensures FutureAfter(twice) == Resolved(seen) && FutureAfter(once) == Pending
  {
    twice, once := [seen, late], [seen + late];
    OneGroup(seen);
    OneGroup(seen + late);
    assert [seen, late][..1] == [seen];
  }

  lemma OneGroup(a: seq<Command>)
    ensures Flatten([a]) == a && FutureAfter([a]) == Settle(Pending, a)
  {
  }

  lemma ControlAdvanceBreaksHandshake(commands: seq<Command>, c: Command)
    requires c in commands && IsControlAdvance(c)
    ensures !IsBikeHandshake(commands)
  {
    assert c.channel in AdvancedChannels(commands);
    assert COMMAND !in NON_COMMAND_CHANNELS;
  }

  ghost predicate GroupingIndependent(commands: seq<Command>) {
    forall groups | Flatten(groups) == commands ::
      FutureAfter(groups).Resolved? <==> IsBikeHandshake(commands)
  }

  /** Detection is independent of grouping exactly when there is no late control advance. */
  lemma GroupingIndependentExactly(commands: seq<Command>)
    ensures GroupingIndependent(commands) <==> !LateControlAdvance(commands)
  {
    if LateControlAdvance(commands) {
      LateAdvanceSeparates(commands);
    } else {
      forall groups | Flatten(groups) == commands
        ensures FutureAfter(groups).Resolved? <==> IsBikeHandshake(commands)
      {
        GroupingDoesNotMatter(groups);
      }
    }
  }

  lemma LateAdvanceSeparates(commands: seq<Command>)
    requires LateControlAdvance(commands)
    ensures !GroupingIndependent(commands)
  {
    var i :| 0 <= i < |commands| && IsControlAdvance(commands[i]) && IsBikeHandshake(commands[..i]);
    var seen, late := commands[..i], commands[i..];
    ControlAdvanceBreaksHandshake(commands, commands[i]);
    assert commands == seen + late;
    var twice, _ := GroupingMatters(seen, late);
  }

  /** A bike's handshake followed by an advance on the command channel. */
  const LATE: seq<Command> := [
    Version(3), MaxSegmentationPacket(244),
    AdvanceTransmitWindow(1, 1), AdvanceTransmitWindow(2, 1), AdvanceTransmitWindow(3, 1),
    AdvanceTransmitWindow(4, 1), AdvanceTransmitWindow(5, 1), AdvanceTransmitWindow(6, 1),
    AdvanceTransmitWindow(7, 1), AdvanceTransmitWindow(COMMAND, 1)]

  lemma FirstNineAreAHandshake()
    ensures IsBikeHandshake(LATE[..9])
  {
    var commands := LATE[..9];
    assert commands[0] == Version(3) && commands[1] == MaxSegmentationPacket(244);
    forall channel | channel in NON_COMMAND_CHANNELS
      ensures channel in AdvancedChannels(commands)
    {
      assert commands[channel + 1] == AdvanceTransmitWindow(channel, 1);
    }
    forall channel | channel in AdvancedChannels(commands)
      ensures channel in NON_COMMAND_CHANNELS
    {
      assert channel > 0 && NON_COMMAND_CHANNELS[channel - 1] == channel;
    }
  }

  /** For instance, these commands are detected when notified in two parts and not in one. */
  lemma GroupingMattersHere()
    ensures LateControlAdvance(LATE)
    ensures FutureAfter([LATE[..9], LATE[9..]]) == Resolved(LATE[..9]) && FutureAfter([LATE]) == Pending
  {
    FirstNineAreAHandshake();
    assert IsControlAdvance(LATE[9]);
    ControlAdvanceBreaksHandshake(LATE, LATE[9]);
    OneGroup(LATE[..9]);
    OneGroup(LATE);
    assert [LATE[..9], LATE[9..]][..1] == [LATE[..9]];
  }

  // ---------- the response ----------

  function Min(a: int, b: int): int {
    if a < b then a else b
  }

  /** The local size lowered to every size the bike advertised. */
  function NegotiatedSize(commands: seq<Command>, localSize: int): int {
    if commands == [] then localSize
    else
      var rest := NegotiatedSize(commands[1..], localSize);
      if commands[0].MaxSegmentationPacket? then Min(commands[0].maxPacketSize, rest) else rest
  }

  function DisableAll(channels: seq<Channel>): seq<Command> {
    if channels == [] then [] else [DisableFlowControl(channels[0])] + DisableAll(channels[1..])
  }

  function ResponseCommands(commands: seq<Command>, localSize: int): seq<Command> {
    [Version(3), MaxSegmentationPacket(NegotiatedSize(commands, localSize))] + DisableAll(NON_COMMAND_CHANNELS)
  }

  function BuildHandshakeResponse(commands: seq<Command>, localSize: int := DEFAULT_MAX_PACKET_SIZE)
    : Result<seq<Bytes>, Error>
  {
    EncodePackets(ResponseCommands(commands, localSize))
  }

  lemma {:induction false} NegotiatedIsGreatestLowerBound(commands: seq<Command>, localSize: int)
    ensures NegotiatedSize(commands, localSize) <= localSize
    ensures forall c | c in commands && c.MaxSegmentationPacket? ::
              NegotiatedSize(commands, localSize) <= c.maxPacketSize
    ensures NegotiatedSize(commands, localSize) == localSize ||
            MaxSegmentationPacket(NegotiatedSize(commands, localSize)) in commands
  {
    if commands == [] {
    } else {
      NegotiatedIsGreatestLowerBound(commands[1..], localSize);
    }
  }

  /** What the bike reads back from the nine response packets. */
  lemma HandshakeResponse(commands: seq<Command>, localSize: int)
    ensures BuildHandshakeResponse(commands, localSize).Ok? <==> 0 <= NegotiatedSize(commands, localSize) < 0x1_0000
    ensures BuildHandshakeResponse(commands, localSize).Ok? ==>
              var packets := BuildHandshakeResponse(commands, localSize).value;
              && |packets| == 9
              && DecodeCommandFrames(Flatten(packets)) ==
                 Ok([Version(3), MaxSegmentationPacket(NegotiatedSize(commands, localSize)),
                     DisableFlowControl(1), DisableFlowControl(2), DisableFlowControl(3), DisableFlowControl(4),
                     DisableFlowControl(5), DisableFlowControl(6), DisableFlowControl(7)])
  {
    var size := NegotiatedSize(commands, localSize);
    var response := ResponseCommands(commands, localSize);
    DisableAllSeven();
    PacketsRoundTrip(response);
    assert response == [Version(3), MaxSegmentationPacket(size),
                        DisableFlowControl(1), DisableFlowControl(2), DisableFlowControl(3), DisableFlowControl(4),
                        DisableFlowControl(5), DisableFlowControl(6), DisableFlowControl(7)];
    assert InRange(response[1]) <==> 0 <= size < 0x1_0000;
  }

  lemma DisableAllSeven()
    ensures DisableAll(NON_COMMAND_CHANNELS) ==
            [DisableFlowControl(1), DisableFlowControl(2), DisableFlowControl(3), DisableFlowControl(4),
             DisableFlowControl(5), DisableFlowControl(6), DisableFlowControl(7)]
  {
  }

  /** The size the session offers is 244 bytes, less if the bike advertised less. */
  lemma OfferedSize(commands: seq<Command>)
    requires AllInRange(commands)
    ensures BuildHandshakeResponse(commands).Ok?
    ensures exists size :: DecodeCommandFrames(Flatten(BuildHandshakeResponse(commands).value)) ==
                           Ok([Version(3), MaxSegmentationPacket(size),
                               DisableFlowControl(1), DisableFlowControl(2), DisableFlowControl(3),
                               DisableFlowControl(4), DisableFlowControl(5), DisableFlowControl(6),
                               DisableFlowControl(7)])
                           && size <= 244 && (size == 244 || MaxSegmentationPacket(size) in commands)
                           && forall n | MaxSegmentationPacket(n) in commands :: size <= n
  {
    var size := NegotiatedSize(commands, DEFAULT_MAX_PACKET_SIZE);
    NegotiatedIsGreatestLowerBound(commands, DEFAULT_MAX_PACKET_SIZE);
    DecodedCommandsAreAnswered(commands);
    HandshakeResponse(commands, DEFAULT_MAX_PACKET_SIZE);
  }

  /** Commands that came off the wire can always be answered. */
  lemma DecodedCommandsAreAnswered(commands: seq<Command>)
    requires AllInRange(commands)
    ensures BuildHandshakeResponse(commands).Ok?
  {
    NegotiatedIsGreatestLowerBound(commands, DEFAULT_MAX_PACKET_SIZE);
    HandshakeResponse(commands, DEFAULT_MAX_PACKET_SIZE);
  }
}
