/** The dashboard's state (`bosch_ble/dashboard.py`), updated message by message, and what it says
    about the whole history of messages. */
module Dashboard {
  import opened Bits
  import opened Wrappers
  import opened MessageBus
  import V = Varint

  const BATTERY_PACK := 0x0088
  const CHARGING_ACTIVE := 0x008A
  const BATTERY_SYSTEM := 0x00BC
  const INSTANCE_CHARGING_ACTIVE := 0x00C4
  const ASSIST_FACTOR := 0x181E
  const BIKE_SPEED := 0x182D
  const STARTUP_STAGE := 0x40A9

  const WATCHED: set<nat> :=
    {BATTERY_PACK, CHARGING_ACTIVE, BATTERY_SYSTEM, INSTANCE_CHARGING_ACTIVE, ASSIST_FACTOR, BIKE_SPEED}

  /** What reaches the dashboard: decoded messages, and the text of decoding failures. */
  datatype Entry = Message(frame: MessageFrame) | DecodeFailure(text: string)

  function Get(fields: V.Fields, number: nat): Option<nat> {
    if number in fields then Some(fields[number]) else None
  }

  function Flag(value: Option<nat>): Option<bool> {
    match value
    case None => None
    case Some(v) => Some(v != 0)
  }

  // ---------- the meaning of a history ----------

  predicate IsReading(e: Entry, address: nat) {
    e.Message? && e.frame.Notify? && e.frame.source == address && V.ReadFields(e.frame.payload).Ok?
  }

  /** The value carried by the latest parseable notify from `address`, if it carries one. */
  function LatestReading(h: seq<Entry>, address: nat): Option<nat> {
    if h == [] then None
    else
      var last := h[|h| - 1];
      if IsReading(last, address) then Get(V.ReadFields(last.frame.payload).value, 1)
      else LatestReading(h[..|h| - 1], address)
  }

  function Battery(h: seq<Entry>): Option<nat> {
    var system := LatestReading(h, BATTERY_SYSTEM);
    if system.Some? then system else LatestReading(h, BATTERY_PACK)
  }

  /** Charging if either latest reading says so, unplugged if none does but one is known, and
      otherwise what it was. */
  function Charger(h: seq<Entry>): Option<bool> {
    if h == [] then None
    else
      var active := Flag(LatestReading(h, CHARGING_ACTIVE));
      var instance := Flag(LatestReading(h, INSTANCE_CHARGING_ACTIVE));
      if active == Some(true) || instance == Some(true) then Some(true)
      else if active.Some? || instance.Some? then Some(false)
      else Charger(h[..|h| - 1])
  }

  function AssistMode(h: seq<Entry>): Option<nat> {
    if h == [] then None
    else
      var last := h[|h| - 1];
      var reading := if IsReading(last, ASSIST_FACTOR) then Get(V.ReadFields(last.frame.payload).value, 1) else None;
      if reading.Some? then reading else AssistMode(h[..|h| - 1])
  }

  /** The latest valid speed, forgotten when the bike declares its speed invalid. */
  function Speed(h: seq<Entry>): Option<nat> {
    if h == [] then None
    else
      var last := h[|h| - 1];
      var fields := if IsReading(last, BIKE_SPEED) then V.ReadFields(last.frame.payload).value else map[];
      var valid := Flag(Get(fields, 2));
      if valid == Some(true) && Get(fields, 1).Some? then Get(fields, 1)
      else if valid == Some(false) then None
      else Speed(h[..|h| - 1])
  }

  function StartupStage(h: seq<Entry>): Option<nat> {
    if h == [] then None
    else
      var last := h[|h| - 1];
      var stage :=
        if last.Message? && last.frame.Directed? && last.frame.frame.destination == STARTUP_STAGE
           && V.ReadFields(last.frame.frame.payload).Ok?
        then Get(V.ReadFields(last.frame.frame.payload).value, 1) else None;
      if stage.Some? then stage else StartupStage(h[..|h| - 1])
  }

  function Summaries(h: seq<Entry>, summarize: MessageFrame -> string): (s: seq<string>)
    ensures |s| == |h|
  {
    if h == [] then []
    else
      var last := h[|h| - 1];
      Summaries(h[..|h| - 1], summarize) + [if last.Message? then summarize(last.frame) else last.text]
  }

  /** The last `limit` summaries. */
  function Recent(h: seq<Entry>, summarize: MessageFrame -> string, limit: nat): seq<string> {
    var all := Summaries(h, summarize);
    if |all| <= limit then all else all[|all| - limit..]
  }

  /** Where the latest reading comes from: nothing after index `k` is a reading. */
  lemma {:induction false} LatestReadingIsLatest(h: seq<Entry>, address: nat) returns (k: int)
    ensures -1 <= k < |h| && forall i | k < i < |h| :: !IsReading(h[i], address)
    ensures k >= 0 ==> IsReading(h[k], address)
    ensures LatestReading(h, address) == if k < 0 then None else Get(V.ReadFields(h[k].frame.payload).value, 1)
  {
    if h == [] || IsReading(h[|h| - 1], address) {
      k := |h| - 1;
    } else {
      k := LatestReadingIsLatest(h[..|h| - 1], address);
    }
  }

  predicate ChargingKnown(h: seq<Entry>) {
    LatestReading(h, CHARGING_ACTIVE).Some? || LatestReading(h, INSTANCE_CHARGING_ACTIVE).Some?
  }

  /** Whether either latest charging reading is a nonzero number. */
  predicate EitherCharging(h: seq<Entry>) {
    || (LatestReading(h, CHARGING_ACTIVE).Some? && LatestReading(h, CHARGING_ACTIVE).value != 0)
    || (LatestReading(h, INSTANCE_CHARGING_ACTIVE).Some? && LatestReading(h, INSTANCE_CHARGING_ACTIVE).value != 0)
  }

  /** The charger flag speaks of the last moment at which a charging reading was known, and is
      unknown exactly when there never was one. */
  lemma {:induction false} ChargerMeaning(h: seq<Entry>) returns (k: nat)
    ensures k <= |h| && forall j | k < j <= |h| :: !ChargingKnown(h[..j])
    ensures Charger(h) == if k == 0 then None else Some(EitherCharging(h[..k]))
    ensures k > 0 ==> ChargingKnown(h[..k])
  {
    if h == [] {
      k := 0;
    } else {
      var front := h[..|h| - 1];
      assert h[..|h|] == h;
      if ChargingKnown(h) {
        k := |h|;
      } else {
        k := ChargerMeaning(front);
        assert forall j | 0 <= j <= |front| :: front[..j] == h[..j];
      }
    }
  }

  /** Messages that are not charging readings do not disturb the charger flag. */
  lemma ChargerIgnoresOthers(h: seq<Entry>, e: Entry)
    requires !IsReading(e, CHARGING_ACTIVE) && !IsReading(e, INSTANCE_CHARGING_ACTIVE)
    ensures Charger(h + [e]) == Charger(h)
  {
    assert (h + [e])[..|h|] == h;
    assert LatestReading(h + [e], CHARGING_ACTIVE) == LatestReading(h, CHARGING_ACTIVE);
    assert LatestReading(h + [e], INSTANCE_CHARGING_ACTIVE) == LatestReading(h, INSTANCE_CHARGING_ACTIVE);
    if h == [] {
      assert Charger(h + [e]) == Charger((h + [e])[..|h|]);
    } else {
      assert Charger(h) == Charger(h[..|h| - 1] + [h[|h| - 1]]);
    }
  }

  /** Whether applying a message raises: its payload is needed and does not parse. */
  predicate Unreadable(f: MessageFrame) {
    match f
    case Directed(d) => d.destination == STARTUP_STAGE && V.ReadFields(d.payload).Err?
    case Notify(source, payload) =>
      source in WATCHED && V.ReadFields(payload).Err?
  }

  // ---------- the mutable state ----------

  class DashboardState {
    const recentLimit: nat
    const summarizeFrame: MessageFrame -> string
    var connectionStatus: string
    var startupStage: Option<nat>
    var assistMode: Option<nat>
    var batteryPercent: Option<nat>
    var speedRaw: Option<nat>
    var chargerConnected: Option<bool>
    var recentFrames: seq<string>
    var batterySystemPercent: Option<nat>
    var batteryPackPercent: Option<nat>
    var chargingActive: Option<bool>
    var instanceChargingActive: Option<bool>
    ghost var applied: seq<Entry>

    /** Every field is its meaning for the history applied so far. */
    ghost predicate Valid()
      reads this
    {
      && Meaning(applied)
      && recentFrames == Recent(applied, summarizeFrame, recentLimit)
    }

    constructor (limit: nat, summarize: MessageFrame -> string, status: string)
      ensures Valid() && applied == [] && recentLimit == limit && summarizeFrame == summarize
      ensures connectionStatus == status
    {
      recentLimit, summarizeFrame, connectionStatus := limit, summarize, status;
      startupStage, assistMode, batteryPercent, speedRaw, chargerConnected := None, None, None, None, None;
      batterySystemPercent, batteryPackPercent, chargingActive, instanceChargingActive := None, None, None, None;
      recentFrames := [];
      applied := [];
    }

    /** `deque.append` with `maxlen`. */
    method AppendRecent(summary: string)
      requires |recentFrames| <= recentLimit
      modifies `recentFrames
      ensures recentFrames == var all := old(recentFrames) + [summary];
                              if |all| <= recentLimit then all else all[1..]
    {
      recentFrames := recentFrames + [summary];
      if |recentFrames| > recentLimit {
        recentFrames := recentFrames[1..];
      }
    }

    method Record(e: Entry, summary: string)
      requires recentFrames == Recent(applied, summarizeFrame, recentLimit)
      requires summary == if e.Message? then summarizeFrame(e.frame) else e.text
      modifies `recentFrames, `applied
      ensures applied == old(applied) + [e]
      ensures recentFrames == Recent(applied, summarizeFrame, recentLimit)
    {
      RecentSnoc(applied, e, summarizeFrame, recentLimit);
      AppendRecent(summary);
      applied := applied + [e];
    }

    method RecordDecodeFailure(text: string)
      requires Valid()
      modifies `recentFrames, `applied
      ensures Valid() && applied == old(applied) + [DecodeFailure(text)]
    {
      NotAReading(applied, DecodeFailure(text));
      Record(DecodeFailure(text), text);
    }

    /** The state is the meaning of the longer history even when the payload does not parse and
        the call raises. */
    method ApplyMessage(frame: MessageFrame) returns (raised: bool)
      requires Valid()
      modifies this
      ensures Valid() && applied == old(applied) + [Message(frame)]
      ensures connectionStatus == "connected"
      ensures raised <==> Unreadable(frame)
    {
      connectionStatus := "connected";
      ghost var before := applied;
      Record(Message(frame), summarizeFrame(frame));
      if frame.Directed? {
        raised := ApplyDirected(frame.frame, before);
      } else {
        raised := ApplyNotify(frame, before);
      }
    }

    /** The fields other than the recent summaries still speak about `h`. */
    ghost predicate Meaning(h: seq<Entry>)
      reads this
    {
      && startupStage == StartupStage(h)
      && assistMode == AssistMode(h)
      && batterySystemPercent == LatestReading(h, BATTERY_SYSTEM)
      && batteryPackPercent == LatestReading(h, BATTERY_PACK)
      && batteryPercent == Battery(h)
      && speedRaw == Speed(h)
      && chargingActive == Flag(LatestReading(h, CHARGING_ACTIVE))
      && instanceChargingActive == Flag(LatestReading(h, INSTANCE_CHARGING_ACTIVE))
      && chargerConnected == Charger(h)
    }

    method ApplyDirected(d: DirectedFrame, ghost h: seq<Entry>) returns (raised: bool)
      requires Meaning(h)
      modifies `startupStage
      ensures Meaning(h + [Message(Directed(d))])
      ensures raised <==> Unreadable(Directed(d))
    {
      NotAReading(h, Message(Directed(d)));
      if d.destination != STARTUP_STAGE {
        return false;
      }
      var fields := V.ParseVarintFields(d.payload);
      if fields.Err? {
        return true;
      }
      var stage := Get(fields.value, 1);
      if stage.Some? {
        startupStage := stage;
      }
      return false;
    }

    method ApplyNotify(f: MessageFrame, ghost h: seq<Entry>) returns (raised: bool)
      requires f.Notify? && Meaning(h)
      modifies `assistMode, `batteryPercent, `speedRaw, `chargerConnected
      modifies `batterySystemPercent, `batteryPackPercent, `chargingActive, `instanceChargingActive
      ensures Meaning(h + [Message(f)])
      ensures raised <==> Unreadable(f)
    {
      if f.source !in WATCHED {
        NotAReading(h, Message(f));
        return false;
      }
      var parsed := V.ParseVarintFields(f.payload);
      if parsed.Err? {
        NotAReading(h, Message(f));
        return true;
      }
      if f.source == ASSIST_FACTOR || f.source == BIKE_SPEED {
        ApplyDriveUnit(f, parsed.value, h);
      } else {
        ApplyBattery(f, parsed.value, h);
      }
      return false;
    }

    method ApplyBattery(f: MessageFrame, fields: V.Fields, ghost h: seq<Entry>)
      requires f.Notify? && Meaning(h) && V.ReadFields(f.payload) == Ok(fields)
      requires f.source in {BATTERY_SYSTEM, BATTERY_PACK, CHARGING_ACTIVE, INSTANCE_CHARGING_ACTIVE}
      modifies `batteryPercent, `chargerConnected
      modifies `batterySystemPercent, `batteryPackPercent, `chargingActive, `instanceChargingActive
      ensures Meaning(h + [Message(f)])
    {
      ReadingEffects(h, f);
      if f.source == BATTERY_SYSTEM {
        batterySystemPercent := Get(fields, 1);
        RecomputeBatteryPercent();
      } else if f.source == BATTERY_PACK {
        batteryPackPercent := Get(fields, 1);
        RecomputeBatteryPercent();
      } else if f.source == CHARGING_ACTIVE {
        chargingActive := Flag(Get(fields, 1));
        RecomputeChargerConnected();
      } else {
        instanceChargingActive := Flag(Get(fields, 1));
        RecomputeChargerConnected();
      }
    }

    method ApplyDriveUnit(f: MessageFrame, fields: V.Fields, ghost h: seq<Entry>)
      requires f.Notify? && Meaning(h) && V.ReadFields(f.payload) == Ok(fields)
      requires f.source in {ASSIST_FACTOR, BIKE_SPEED}
      modifies `assistMode, `speedRaw
      ensures Meaning(h + [Message(f)])
    {
      ReadingEffects(h, f);
      if f.source == ASSIST_FACTOR {
        var assistFactor := Get(fields, 1);
        if assistFactor.Some? {
          assistMode := assistFactor;
        }
      } else {
        var speed, valid := Get(fields, 1), Flag(Get(fields, 2));
        if valid == Some(true) && speed.Some? {
          speedRaw := speed;
        } else if valid == Some(false) {
          speedRaw := None;
        }
      }
    }

    method RecomputeBatteryPercent()
      modifies `batteryPercent
      ensures batteryPercent == if batterySystemPercent.Some? then batterySystemPercent else batteryPackPercent
    {
      batteryPercent := batterySystemPercent;
      if batteryPercent.None? {
        batteryPercent := batteryPackPercent;
      }
    }

    method RecomputeChargerConnected()
      modifies `chargerConnected
      ensures chargerConnected ==
              if chargingActive == Some(true) || instanceChargingActive == Some(true) then Some(true)
              else if chargingActive.Some? || instanceChargingActive.Some? then Some(false)
              else old(chargerConnected)
    {
      if chargingActive == Some(true) || instanceChargingActive == Some(true) {
        chargerConnected := Some(true);
        return;
      }
      if chargingActive.Some? || instanceChargingActive.Some? {
        chargerConnected := Some(false);
      }
    }
  }

  /** An entry that is a reading of no watched address changes no meaning but possibly the stage. */
  lemma NotAReading(h: seq<Entry>, e: Entry)
    requires forall address | address in WATCHED :: !IsReading(e, address)
    ensures forall address | address in WATCHED :: LatestReading(h + [e], address) == LatestReading(h, address)
    ensures Battery(h + [e]) == Battery(h) && Charger(h + [e]) == Charger(h)
    ensures AssistMode(h + [e]) == AssistMode(h) && Speed(h + [e]) == Speed(h)
    ensures (h + [e])[..|h|] == h
    ensures !(e.Message? && e.frame.Directed?) ==> StartupStage(h + [e]) == StartupStage(h)
  {
    assert (h + [e])[..|h|] == h;
    ChargerIgnoresOthers(h, e);
  }

  // ---------- address by address ----------

  /** The latest reading of an address becomes field 1 of each notify from it that parses, and
      nothing else changes it. */
  lemma ReadingIsFieldOne(h: seq<Entry>, e: Entry, address: nat)
    ensures var h' := h + [e];
            LatestReading(h', address) ==
            if e.Message? && e.frame.Notify? && e.frame.source == address && V.ReadFields(e.frame.payload).Ok?
            then var fields := V.ReadFields(e.frame.payload).value; if 1 in fields then Some(fields[1]) else None
            else LatestReading(h, address)
  {
    assert (h + [e])[..|h|] == h;
  }

  /** Nothing is known before the first message. */
  lemma NothingKnownYet()
    ensures Battery([]) == None && Charger([]) == None && AssistMode([]) == None && Speed([]) == None
    ensures StartupStage([]) == None && forall address :: LatestReading([], address) == None
  {
  }

  /** Battery: the system's value (0x00BC) if its latest reading has one, else the pack's (0x0088). */
  lemma BatteryReadings(h: seq<Entry>, payload: Bytes, fields: V.Fields)
    requires V.ReadFields(payload) == Ok(fields)
    ensures Battery(h + [Message(Notify(0x00BC, payload))]) ==
            if 1 in fields then Some(fields[1]) else LatestReading(h, 0x0088)
    ensures Battery(h + [Message(Notify(0x0088, payload))]) ==
            if LatestReading(h, 0x00BC).Some? then LatestReading(h, 0x00BC)
            else if 1 in fields then Some(fields[1]) else None
  {
    ReadingIsFieldOne(h, Message(Notify(0x00BC, payload)), 0x00BC);
    ReadingIsFieldOne(h, Message(Notify(0x00BC, payload)), 0x0088);
    ReadingIsFieldOne(h, Message(Notify(0x0088, payload)), 0x00BC);
    ReadingIsFieldOne(h, Message(Notify(0x0088, payload)), 0x0088);
  }

  /** Charger: a reading of 0x008A or 0x00C4 that is not zero says connected, a zero one says not,
      unless the other is not zero. */
  lemma ChargerReadings(h: seq<Entry>, address: nat, other: nat, payload: Bytes, fields: V.Fields)
    requires V.ReadFields(payload) == Ok(fields) && 1 in fields
    requires (address, other) == (0x008A, 0x00C4) || (address, other) == (0x00C4, 0x008A)
    ensures Charger(h + [Message(Notify(address, payload))]) ==
            Some(fields[1] != 0 || (LatestReading(h, other).Some? && LatestReading(h, other).value != 0))
  {
    ReadingIsFieldOne(h, Message(Notify(address, payload)), address);
    ReadingIsFieldOne(h, Message(Notify(address, payload)), other);
  }

  /** Assist mode: field 1 of 0x181E. */
  lemma AssistReadings(h: seq<Entry>, payload: Bytes, fields: V.Fields)
    requires V.ReadFields(payload) == Ok(fields)
    ensures AssistMode(h + [Message(Notify(0x181E, payload))]) ==
            if 1 in fields then Some(fields[1]) else AssistMode(h)
  {
    assert (h + [Message(Notify(0x181E, payload))])[..|h|] == h;
  }

  /** Speed: field 1 of 0x182D when field 2 says that it is valid, forgotten when it says that it is
      not, and otherwise what it was. */
  lemma SpeedReadings(h: seq<Entry>, payload: Bytes, fields: V.Fields)
    requires V.ReadFields(payload) == Ok(fields)
    ensures Speed(h + [Message(Notify(0x182D, payload))]) ==
            if 2 !in fields then Speed(h)
            else if fields[2] == 0 then None
            else if 1 in fields then Some(fields[1])
            else Speed(h)
  {
    assert (h + [Message(Notify(0x182D, payload))])[..|h|] == h;
  }

  /** Startup stage: field 1, zero included, of any directed message to 0x40A9. */
  lemma StageReadings(h: seq<Entry>, d: DirectedFrame)
    ensures StartupStage(h + [Message(Directed(d))]) ==
            if d.destination == 0x40A9 && V.ReadFields(d.payload).Ok? && 1 in V.ReadFields(d.payload).value
            then Some(V.ReadFields(d.payload).value[1]) else StartupStage(h)
  {
    assert (h + [Message(Directed(d))])[..|h|] == h;
  }

  /** A message raises exactly when it is a notify from one of six addresses, or a directed message
      to the startup stage, and does not parse. */
  lemma UnreadableExactly(f: MessageFrame)
    ensures Unreadable(f) <==>
            match f
            case Notify(source, payload) =>
              && (source == 0x0088 || source == 0x008A || source == 0x00BC || source == 0x00C4
                  || source == 0x181E || source == 0x182D)
              && V.ReadFields(payload).Err?
            case Directed(d) => d.destination == 0x40A9 && V.ReadFields(d.payload).Err?
  {
  }

  /** What a reading changes: the latest reading of its own address and what depends on it. */
  lemma ReadingEffects(h: seq<Entry>, f: MessageFrame)
    requires f.Notify? && V.ReadFields(f.payload).Ok?
    ensures var h', fields := h + [Message(f)], V.ReadFields(f.payload).value;
            && (forall address | address in WATCHED ::
                  LatestReading(h', address) ==
                  if f.source == address then Get(fields, 1) else LatestReading(h, address))
            && AssistMode(h') ==
               (if f.source == ASSIST_FACTOR && Get(fields, 1).Some? then Get(fields, 1) else AssistMode(h))
            && Speed(h') ==
               (if f.source != BIKE_SPEED then Speed(h)
                else if Flag(Get(fields, 2)) == Some(true) && Get(fields, 1).Some? then Get(fields, 1)
                else if Flag(Get(fields, 2)) == Some(false) then None
                else Speed(h))
            && StartupStage(h') == StartupStage(h)
    ensures f.source !in {CHARGING_ACTIVE, INSTANCE_CHARGING_ACTIVE} ==> Charger(h + [Message(f)]) == Charger(h)
    ensures (h + [Message(f)])[..|h|] == h
  {
    assert (h + [Message(f)])[..|h|] == h;
    if f.source !in {CHARGING_ACTIVE, INSTANCE_CHARGING_ACTIVE} {
      ChargerIgnoresOthers(h, Message(f));
    }
  }

  lemma RecentSnoc(h: seq<Entry>, e: Entry, summarize: MessageFrame -> string, limit: nat)
    ensures |Recent(h, summarize, limit)| <= limit
    ensures Recent(h + [e], summarize, limit) ==
            var all := Recent(h, summarize, limit) + [if e.Message? then summarize(e.frame) else e.text];
            if |all| <= limit then all else all[1..]
  {
  }
}
