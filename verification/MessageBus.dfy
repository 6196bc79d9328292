/** The message-bus codec of `bosch_ble/messagebus.py`: 15-bit addresses whose top bit means
    "notify" on the first address and "success" on the second one of a response. */
module MessageBus {
  import opened Bits
  import opened Wrappers

  type MessageType = t: int | 0 <= t <= 0xA
  const READ: MessageType := 0x0
  const READ_RESPONSE: MessageType := 0x1
  const WRITE: MessageType := 0x2
  const WRITE_RESPONSE: MessageType := 0x3
  const RPC: MessageType := 0x4
  const RPC_RESPONSE: MessageType := 0x5
  const SUBSCRIBE: MessageType := 0x6
  const SUBSCRIBE_RESPONSE: MessageType := 0x7
  const UNSUBSCRIBE: MessageType := 0x8
  const UNSUBSCRIBE_RESPONSE: MessageType := 0x9
  const NOTIFY: MessageType := 0xA

  type Status = s: int | 0 <= s <= 5 || s == 0xFF
  const SUCCESS: Status := 0x00
  const UNSUPPORTED: Status := 0x04
  const UNKNOWN_ERROR: Status := 0xFF

  datatype DirectedFrame = DirectedFrame(
    source: nat, destination: nat, messageType: MessageType, sequence: nat, payload: Bytes, status: Status)

  datatype MessageFrame =
    | Directed(frame: DirectedFrame)
    | Notify(source: nat, payload: Bytes)

  datatype Error = ShortDirected | ShortMessage | UnknownMessageType | MissingStatus | NotAResponseType

  predicate IsResponseType(t: MessageType) {
    t in {READ_RESPONSE, WRITE_RESPONSE, RPC_RESPONSE, SUBSCRIBE_RESPONSE, UNSUBSCRIBE_RESPONSE}
  }

  function StatusFromByte(b: Byte): Status {
    if 0 <= b <= 5 || b == 0xFF then b else UNKNOWN_ERROR
  }

  // ---------- the layout, arithmetically ----------

  const ADDRESS_SPACE := 0x8000

  function AddressBytes(address: nat, msb: bool): Bytes {
    [address / 256 % 128 + (if msb then 128 else 0), address % 256]
  }

  function AddressAt(data: Bytes, i: nat): nat
    requires i + 1 < |data|
  {
    (data[i] as int) % 128 * 256 + data[i + 1]
  }

  function TypeByte(t: MessageType, sequence: nat): Byte {
    t * 16 + sequence % 16
  }

  function ParseDirected(raw: Bytes): Result<DirectedFrame, Error> {
    if |raw| < 5 then Err(ShortDirected)
    else if raw[4] / 16 > NOTIFY then Err(UnknownMessageType)
    else
      var messageType: MessageType := raw[4] / 16;
      var hasStatus := IsResponseType(messageType) && raw[2] < 128;
      if hasStatus && |raw| < 6 then Err(MissingStatus) else
      Ok(DirectedFrame(
        AddressAt(raw, 0), AddressAt(raw, 2), messageType, raw[4] % 16,
        if hasStatus then raw[6..] else raw[5..],
        if hasStatus then StatusFromByte(raw[5]) else SUCCESS))
  }

  function ParseMessage(raw: Bytes): Result<MessageFrame, Error> {
    if |raw| < 2 then Err(ShortMessage)
    else if raw[0] >= 128 then Ok(Notify(AddressAt(raw, 0), raw[2..]))
    else
      var d :- ParseDirected(raw);
      Ok(Directed(d))
  }

  function ResponseBytes(request: DirectedFrame, responseType: MessageType, payload: Bytes, status: Status): Bytes {
    AddressBytes(request.destination, false)
    + AddressBytes(request.source, status == SUCCESS)
    + [TypeByte(responseType, request.sequence)]
    + (if status == SUCCESS then [] else [status])
    + payload
  }

  function NotifyBytes(source: nat, payload: Bytes): Bytes {
    AddressBytes(source, true) + payload
  }

  // ---------- the code, with its masks and shifts ----------

  method DecodeAddress(high: Byte, low: Byte) returns (address: nat)
    ensures address == (high as int) % 128 * 256 + low
  {
    var masked := Mask(high, 0x7F);
    address := ShiftOr(masked, 8, low);
  }

  method EncodeAddress(address: nat, setMsb: bool) returns (bs: Bytes)
    ensures bs == AddressBytes(address, setMsb)
  {
    var high := ShiftRight(address, 8);
    high := Mask(high, 0x7F);
    if setMsb {
      high := SetBit(high, 0x80);
    }
    var low := Mask(address, 0xFF);
    return [high, low];
  }

  method EncodeType(t: MessageType, sequence: nat) returns (b: Byte)
    ensures b == TypeByte(t, sequence)
  {
    var high := Mask(t, 0x0F);
    var low := Mask(sequence, 0x0F);
    b := ShiftOr(high, 4, low);
  }

  method DecodeType(b: Byte) returns (messageType: nat, sequence: nat)
    ensures messageType == b / 16 && sequence == b % 16
  {
    messageType := ShiftRight(b, 4);
    messageType := Mask(messageType, 0x0F);
    sequence := Mask(b, 0x0F);
  }

  method DecodeDirectedFrame(raw: Bytes) returns (r: Result<DirectedFrame, Error>)
    ensures r == ParseDirected(raw)
  {
    if |raw| < 5 {
      return Err(ShortDirected);
    }
    var source := DecodeAddress(raw[0], raw[1]);
    var destination := DecodeAddress(raw[2], raw[3]);
    var messageType, sequence := DecodeType(raw[4]);
    if messageType > NOTIFY {
      return Err(UnknownMessageType);
    }
    var status, payloadOffset := SUCCESS, 5;
    var success := TestBit(raw[2], 0x80);
    if IsResponseType(messageType) && !success {
      if |raw| < 6 {
        return Err(MissingStatus);
      }
      status, payloadOffset := StatusFromByte(raw[5]), 6;
    }
    return Ok(DirectedFrame(source, destination, messageType, sequence, raw[payloadOffset..], status));
  }

  method DecodeMessageFrame(raw: Bytes) returns (r: Result<MessageFrame, Error>)
    ensures r == ParseMessage(raw)
  {
    if |raw| < 2 {
      return Err(ShortMessage);
    }
    var notify := TestBit(raw[0], 0x80);
    if notify {
      var source := DecodeAddress(raw[0], raw[1]);
      return Ok(Notify(source, raw[2..]));
    }
    var directed := DecodeDirectedFrame(raw);
    r := if directed.Ok? then Ok(Directed(directed.value)) else Err(directed.error);
  }

  method EncodeResponse(request: DirectedFrame, responseType: MessageType, payload: Bytes, status: Status)
    returns (r: Result<Bytes, Error>)
    ensures r == if IsResponseType(responseType) then Ok(ResponseBytes(request, responseType, payload, status))
                 else Err(NotAResponseType)
  {
    if !IsResponseType(responseType) {
      return Err(NotAResponseType);
    }
    var destination := EncodeAddress(request.source, status == SUCCESS);
    var source := EncodeAddress(request.destination, false);
    var typeByte := EncodeType(responseType, request.sequence);
    var encoded: Bytes := [];
    encoded := encoded + source;
    encoded := encoded + destination;
    encoded := encoded + [typeByte];
    if status != SUCCESS {
      var statusByte := Mask(status, 0xFF);
      encoded := encoded + [statusByte];
    }
    encoded := encoded + payload;
    assert encoded == ResponseBytes(request, responseType, payload, status);
    return Ok(encoded);
  }

  method EncodeNotify(source: nat, payload: Bytes) returns (bs: Bytes)
    ensures bs == NotifyBytes(source, payload)
  {
    var address := EncodeAddress(source, true);
    return address + payload;
  }

  // ---------- round trips ----------

  lemma AddressRoundTrip(address: nat, msb: bool, rest: Bytes)
    ensures AddressAt(AddressBytes(address, msb) + rest, 0) == address % ADDRESS_SPACE
    ensures (AddressBytes(address, msb) + rest)[0] >= 128 <==> msb
  {
  }

  /** A response is read back whole: addresses swapped and the status recovered, although only
      non-success statuses are on the wire. */
  lemma ResponseRoundTrip(request: DirectedFrame, responseType: MessageType, payload: Bytes, status: Status)
    requires IsResponseType(responseType)
    ensures ParseMessage(ResponseBytes(request, responseType, payload, status)) ==
            Ok(Directed(DirectedFrame(
              request.destination % ADDRESS_SPACE, request.source % ADDRESS_SPACE,
              responseType, request.sequence % 16, payload, status)))
  {
    var raw := ResponseBytes(request, responseType, payload, status);
    AddressRoundTrip(request.destination, false, raw[2..]);
    AddressRoundTrip(request.source, status == SUCCESS, raw[4..]);
    assert raw == AddressBytes(request.destination, false) + raw[2..];
    assert raw[2..] == AddressBytes(request.source, status == SUCCESS) + raw[4..];
    assert AddressAt(raw, 2) == AddressAt(raw[2..], 0);
    assert raw[4] == TypeByte(responseType, request.sequence);
    assert status == SUCCESS ==> raw[5..] == payload;
    assert status != SUCCESS ==> raw[5] == status && raw[6..] == payload;
  }

  /** A notify is always read back as a notify. */
  lemma NotifyRoundTrip(source: nat, payload: Bytes)
    ensures ParseMessage(NotifyBytes(source, payload)) == Ok(Notify(source % ADDRESS_SPACE, payload))
  {
    AddressRoundTrip(source, true, payload);
    assert NotifyBytes(source, payload)[2..] == payload;
  }

  /** What the decoder returns always fits the address and sequence fields. */
  lemma ParsedFits(raw: Bytes)
    requires ParseMessage(raw).Ok?
    ensures match ParseMessage(raw).value
            case Directed(d) => d.source < ADDRESS_SPACE && d.destination < ADDRESS_SPACE && d.sequence < 16
            case Notify(source, _) => source < ADDRESS_SPACE
  {
  }

  /** Re-encoding a decoded response gives its bytes back exactly when the status byte is
      absent or holds a known non-success status. */
  lemma ResponseCanonicalExactly(raw: Bytes, swapped: DirectedFrame)
    requires ParseMessage(raw).Ok? && ParseMessage(raw).value.Directed?
    requires var d := ParseMessage(raw).value.frame;
             IsResponseType(d.messageType) && swapped == d.(source := d.destination, destination := d.source)
    ensures ResponseBytes(swapped, swapped.messageType, swapped.payload, swapped.status) == raw
            <==> raw[2] >= 128 || 1 <= raw[5] <= 5 || raw[5] == 0xFF
  {
    var again := ResponseBytes(swapped, swapped.messageType, swapped.payload, swapped.status);
    AddressReencode(raw, 0);
    AddressReencode(raw, 2);
    assert again[2] >= 128 <==> swapped.status == SUCCESS;
    assert raw[2] >= 128 ==> raw[5..] == swapped.payload;
    assert raw[2] < 128 ==> raw == raw[..5] + [raw[5]] + raw[6..];
    assert raw[2] >= 128 ==> raw == raw[..5] + raw[5..];
    assert again[4] == raw[4];
    assert swapped.status == (if raw[2] >= 128 then SUCCESS else StatusFromByte(raw[5]));
  }

  /** For instance, a response whose success is spelled out in a status byte loses that byte. */
  lemma ExplicitSuccessIsDropped()
    ensures var raw := [0x40, 0x9B, 0x00, 0x01, 0x10, 0x00];
            var d := DirectedFrame(0x409B, 0x0001, READ_RESPONSE, 0, [], SUCCESS);
            && ParseMessage(raw) == Ok(Directed(d))
            && ResponseBytes(d.(source := d.destination, destination := d.source), READ_RESPONSE, [], SUCCESS) ==
               [0x40, 0x9B, 0x80, 0x01, 0x10]
  {
    var raw: Bytes := [0x40, 0x9B, 0x00, 0x01, 0x10, 0x00];
    assert raw[6..] == [];
  }

  lemma AddressReencode(raw: Bytes, i: nat)
    requires i + 1 < |raw|
    ensures AddressBytes(AddressAt(raw, i), raw[i] >= 128) == raw[i..i + 2]
  {
  }

  // ---------- the wire format, byte by byte ----------

  /** The five bytes that begin every directed frame; `mark` is the top bit of the second address. */
  function DirectedHeader(source: nat, destination: nat, mark: bool, t: MessageType, sequence: nat): Bytes
    requires source < 0x8000 && destination < 0x8000 && sequence < 16
  {
    [source / 256, source % 256, destination / 256 + (if mark then 128 else 0), destination % 256, t * 16 + sequence]
  }

  /** A request is read as it was written: the sender first, then the receiver, then type and
      sequence in one byte. The mark means nothing in it. */
  lemma RequestRoundTrip(
    source: nat, destination: nat, mark: bool, t: MessageType, sequence: nat, payload: Bytes)
    requires source < 0x8000 && destination < 0x8000 && sequence < 16 && t in {0, 2, 4, 6, 8, 10}
    ensures ParseMessage(DirectedHeader(source, destination, mark, t, sequence) + payload) ==
            Ok(Directed(DirectedFrame(source, destination, t, sequence, payload, 0)))
  {
    var raw := DirectedHeader(source, destination, mark, t, sequence) + payload;
    HeaderIsRead(source, destination, mark, t, sequence, payload);
    assert raw[5..] == payload;
  }

  /** And whatever is read as a request was written that way. */
  lemma RequestIsCanonical(raw: Bytes)
    requires ParseMessage(raw).Ok? && ParseMessage(raw).value.Directed?
    requires ParseMessage(raw).value.frame.messageType in {0, 2, 4, 6, 8, 10}
    ensures var d := ParseMessage(raw).value.frame;
            && d.source < 0x8000 && d.destination < 0x8000 && d.sequence < 16 && d.status == 0
            && raw == DirectedHeader(d.source, d.destination, raw[2] >= 128, d.messageType, d.sequence) + d.payload
  {
    var d := ParseMessage(raw).value.frame;
    ParsedFits(raw);
    AddressReencode(raw, 0);
    AddressReencode(raw, 2);
    assert raw == raw[..5] + raw[5..];
    assert raw[..5] == DirectedHeader(d.source, d.destination, raw[2] >= 128, d.messageType, d.sequence);
  }

  /** A marked response has succeeded and carries no status byte; in an unmarked one the next byte
      is the status, unknown ones reading as 0xFF. */
  lemma ResponseIsRead(
    source: nat, destination: nat, t: MessageType, sequence: nat, status: Byte, payload: Bytes)
    requires source < 0x8000 && destination < 0x8000 && sequence < 16 && t in {1, 3, 5, 7, 9}
    ensures ParseMessage(DirectedHeader(source, destination, true, t, sequence) + payload) ==
            Ok(Directed(DirectedFrame(source, destination, t, sequence, payload, 0)))
    ensures ParseMessage(DirectedHeader(source, destination, false, t, sequence) + [status] + payload) ==
            Ok(Directed(DirectedFrame(
              source, destination, t, sequence, payload, if status <= 5 || status == 255 then status else 255)))
  {
    var marked := DirectedHeader(source, destination, true, t, sequence) + payload;
    HeaderIsRead(source, destination, true, t, sequence, payload);
    assert marked[5..] == payload;
    var head := DirectedHeader(source, destination, false, t, sequence);
    var plain := head + [status] + payload;
    HeaderIsRead(source, destination, false, t, sequence, [status] + payload);
    assert plain == head + ([status] + payload) && plain[5] == status && plain[6..] == payload;
  }

  lemma HeaderIsRead(
    source: nat, destination: nat, mark: bool, t: MessageType, sequence: nat, rest: Bytes)
    requires source < 0x8000 && destination < 0x8000 && sequence < 16
    ensures var raw := DirectedHeader(source, destination, mark, t, sequence) + rest;
            && raw[0] < 128 && AddressAt(raw, 0) == source && AddressAt(raw, 2) == destination
            && raw[4] / 16 == t && raw[4] % 16 == sequence && (raw[2] >= 128 <==> mark)
  {
  }

  /** A message is refused exactly when it is shorter than an address, or is directed and either
      shorter than its header, of an unknown type, or an unmarked response without status byte. */
  lemma RefusedExactly(raw: Bytes)
    ensures ParseMessage(raw).Err? <==>
            || |raw| < 2
            || (raw[0] < 128 && |raw| < 5)
            || (raw[0] < 128 && raw[4] >= 0xB0)
            || (raw[0] < 128 && raw[4] / 16 in {1, 3, 5, 7, 9} && raw[2] < 128 && |raw| < 6)
  {
  }

  /** A response to a request goes back to its source, marked on success and with a status byte
      otherwise. */
  lemma ResponseIsWritten(request: DirectedFrame, t: MessageType, payload: Bytes, status: Status)
    requires request.source < 0x8000 && request.destination < 0x8000 && request.sequence < 16
    ensures ResponseBytes(request, t, payload, status) ==
            DirectedHeader(request.destination, request.source, status == 0, t, request.sequence)
            + (if status == 0 then [] else [status]) + payload
  {
    assert AddressBytes(request.destination, false) ==
           [request.destination / 256, request.destination % 256];
    assert AddressBytes(request.source, status == 0) ==
           [request.source / 256 + (if status == 0 then 128 else 0), request.source % 256];
    assert AddressBytes(request.destination, false) + AddressBytes(request.source, status == SUCCESS)
           + [TypeByte(t, request.sequence)] ==
           DirectedHeader(request.destination, request.source, status == 0, t, request.sequence);
  }

  /** A notify is its source with the top bit set, then the value. */
  lemma NotifyIsWritten(source: nat, payload: Bytes)
    requires source < 0x8000
    ensures NotifyBytes(source, payload) == [source / 256 + 128, source % 256] + payload
    ensures ParseMessage([source / 256 + 128, source % 256] + payload) == Ok(Notify(source, payload))
  {
    NotifyRoundTrip(source, payload);
  }
}
