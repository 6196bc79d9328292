/** The MCSP frame codec of `bosch_ble/mcsp.py`: a two-byte bit-packed header and up to 4095
    payload bytes per frame, several frames per notification. */
module Mcsp {
  import opened Bits
  import opened Wrappers
  import opened Sequences

  const DEFAULT_MAX_PACKET_SIZE := 244
  const COMMAND: Channel := 0

  type Channel = c: int | 0 <= c < 8

  datatype Frame = Frame(endOfChannel: bool, channel: Channel, payload: Bytes)

  /** The Python code signals all of these as ValueError (or OverflowError from `to_bytes`). */
  datatype Error =
    | ShortFrame | LengthMismatch | PartialHeader | PartialPayload | PayloadTooLarge
    | EmptyCommand | UnsupportedCommand | TruncatedCommand | BadChannel | OutOfRange | NotCommandChannel

  // ---------- the header layout, arithmetically ----------

  function HeaderByte(f: Frame): Byte
    requires Encodable(f)
  {
    f.channel * 32 + (if f.endOfChannel then 16 else 0) + |f.payload| / 256
  }

  function PayloadLength(header: Byte, low: Byte): nat {
    header % 16 * 256 + low
  }

  predicate Encodable(f: Frame) {
    |f.payload| <= 0x0FFF
  }

  /** The bytes of a frame. */
  function Wire(f: Frame): Bytes
    requires Encodable(f)
  {
    [HeaderByte(f), |f.payload| % 256] + f.payload
  }

  /** The frame whose header is the first two bytes of `data` and whose payload is the rest. */
  function Unframe(data: Bytes): Frame
    requires |data| >= 2
  {
    Frame(data[0] / 16 % 2 == 1, data[0] / 32, data[2..])
  }

  function EncodeFrame(f: Frame): Result<Bytes, Error> {
    if Encodable(f) then Ok(Wire(f)) else Err(PayloadTooLarge)
  }

  function DecodeFrame(data: Bytes): Result<Frame, Error> {
    if |data| < 2 then Err(ShortFrame)
    else if |data| != 2 + PayloadLength(data[0], data[1]) then Err(LengthMismatch)
    else Ok(Unframe(data))
  }

  // ---------- the header as the code packs it ----------

  method PackHeader(channel: Channel, endOfChannel: bool, length: nat) returns (header: Byte)
    requires length <= 0x0FFF
    ensures header == channel * 32 + (if endOfChannel then 16 else 0) + length / 256
  {
    var bits := Mask(channel, 0x07);
    var high := ShiftRight(length, 8);
    high := Mask(high, 0x0F);
    var packed := ShiftOr(bits, 5, high);
    if endOfChannel {
      packed := SetBit(packed, 0x10);
    }
    return packed;
  }

  method PackFrame(f: Frame) returns (r: Result<Bytes, Error>)
    ensures r == EncodeFrame(f)
  {
    var length := |f.payload|;
    if length > 0x0FFF {
      return Err(PayloadTooLarge);
    }
    var header := PackHeader(f.channel, f.endOfChannel, length);
    var low := Mask(length, 0xFF);
    return Ok([header, low] + f.payload);
  }

  method UnpackLength(header: Byte, low: Byte) returns (n: nat)
    ensures n == PayloadLength(header, low)
  {
    var high := Mask(header, 0x0F);
    n := ShiftOr(high, 8, low);
  }

  method UnpackFrame(data: Bytes) returns (r: Result<Frame, Error>)
    ensures r == DecodeFrame(data)
  {
    if |data| < 2 {
      return Err(ShortFrame);
    }
    var length := UnpackLength(data[0], data[1]);
    if |data| != 2 + length {
      return Err(LengthMismatch);
    }
    var endOfChannel := TestBit(data[0], 0x10);
    var channel := ShiftRight(data[0], 5);
    channel := Mask(channel, 0x07);
    return Ok(Frame(endOfChannel, channel, data[2..]));
  }

  // ---------- many frames ----------

  predicate AllEncodable(fs: seq<Frame>) {
    forall i | 0 <= i < |fs| :: Encodable(fs[i])
  }

  function EncodeAll(fs: seq<Frame>): Bytes
    requires AllEncodable(fs)
  {
    if fs == [] then [] else Wire(fs[0]) + EncodeAll(fs[1..])
  }

  function Prepend<T>(xs: seq<T>, r: Result<seq<T>, Error>): (p: Result<seq<T>, Error>)
    ensures xs == [] ==> p == r
  {
    if r.Err? then r else
    assert xs == [] ==> xs + r.value == r.value;
    Ok(xs + r.value)
  }

  /** Whether `data` begins with a whole frame. */
  predicate StartsWithFrame(data: Bytes) {
    |data| >= 2 && 2 + PayloadLength(data[0], data[1]) <= |data|
  }

  /** The frames of a notification, or why it is refused. */
  function Split(data: Bytes): Result<seq<Frame>, Error> {
    if |data| == 0 then Ok([])
    else if |data| < 2 then Err(PartialHeader)
    else if !StartsWithFrame(data) then Err(PartialPayload)
    else
      var end := 2 + PayloadLength(data[0], data[1]);
      Prepend([Unframe(data[..end])], Split(data[end..]))
  }

  lemma PrependTwice<T>(xs: seq<T>, ys: seq<T>, r: Result<seq<T>, Error>)
    ensures Prepend(xs, Prepend(ys, r)) == Prepend(xs + ys, r)
  {
    if r.Ok? {
      assert xs + (ys + r.value) == (xs + ys) + r.value;
    }
  }

  lemma SplitAt(data: Bytes, offset: nat, end: nat)
    requires offset + 2 <= end <= |data| && end == offset + 2 + PayloadLength(data[offset], data[offset + 1])
    ensures Split(data[offset..]) == Prepend([Unframe(data[offset..end])], Split(data[end..]))
  {
    var rest := data[offset..];
    assert rest[..end - offset] == data[offset..end] && rest[end - offset..] == data[end..];
  }

  method SplitFrames(data: Bytes) returns (r: Result<seq<Frame>, Error>)
    ensures r == Split(data)
    ensures r.Err? ==> r.error in {PartialHeader, PartialPayload}
  {
    var frames: seq<Frame> := [];
    var offset := 0;
    assert data[0..] == data;
    while offset < |data|
      invariant 0 <= offset <= |data|
      invariant Split(data) == Prepend(frames, Split(data[offset..]))
      decreases |data| - offset
    {
      if |data| - offset < 2 {
        return Err(PartialHeader);
      }
      var length := UnpackLength(data[offset], data[offset + 1]);
      var end := offset + 2 + length;
      if end > |data| {
        return Err(PartialPayload);
      }
      // The slice has exactly the length its header states, so this decode cannot fail.
      var decoded := UnpackFrame(data[offset..end]);
      assert decoded == Ok(Unframe(data[offset..end]));
      SplitAt(data, offset, end);
      PrependTwice(frames, [decoded.value], Split(data[end..]));
      frames := frames + [decoded.value];
      offset := end;
    }
    assert data[offset..] == [] && frames + [] == frames;
    return Ok(frames);
  }

  // ---------- the two-sided inverse ----------

  lemma HeaderFields(channel: nat, end: nat, high: nat)
    requires end < 2 && high < 16
    ensures (channel * 32 + end * 16 + high) / 32 == channel
    ensures (channel * 32 + end * 16 + high) / 16 % 2 == end
    ensures (channel * 32 + end * 16 + high) % 16 == high
  {
  }

  lemma UnframeWire(f: Frame)
    requires Encodable(f)
    ensures Unframe(Wire(f)) == f
    ensures PayloadLength(Wire(f)[0], Wire(f)[1]) == |f.payload|
  {
    HeaderFields(f.channel, if f.endOfChannel then 1 else 0, |f.payload| / 256);
    assert Wire(f)[2..] == f.payload;
  }

  lemma WireUnframe(data: Bytes)
    requires |data| >= 2 && |data| == 2 + PayloadLength(data[0], data[1])
    ensures Encodable(Unframe(data)) && Wire(Unframe(data)) == data
  {
    ByteFields(data[0], data[1]);
  }

  lemma ByteFields(header: Byte, low: Byte)
    ensures header == header / 32 * 32 + header / 16 % 2 * 16 + header % 16
    ensures (header % 16 * 256 + low) / 256 == header % 16 && (header % 16 * 256 + low) % 256 == low
  {
  }

  /** The first frame of `data`, as bytes and as a step of the split. */
  lemma FirstFrame(data: Bytes) returns (f: Frame, rest: Bytes)
    requires StartsWithFrame(data)
    ensures Encodable(f) && Wire(f) + rest == data && |rest| < |data|
    ensures Split(data) == Prepend([f], Split(rest))
  {
    var end := 2 + PayloadLength(data[0], data[1]);
    f, rest := Unframe(data[..end]), data[end..];
    WireUnframe(data[..end]);
  }

  /** Decoding one encoded frame gives the frame back. */
  lemma DecodeEncodeFrame(f: Frame)
    requires Encodable(f)
    ensures EncodeFrame(f).Ok? && DecodeFrame(EncodeFrame(f).value) == Ok(f)
  {
    UnframeWire(f);
  }

  lemma SplitWire(f: Frame, rest: Bytes)
    requires Encodable(f)
    ensures Split(Wire(f) + rest) == Prepend([f], Split(rest))
  {
    UnframeWire(f);
    var data, end := Wire(f) + rest, |Wire(f)|;
    assert data[..end] == Wire(f) && data[end..] == rest;
  }

  lemma {:induction false} SplitEncodeAll(fs: seq<Frame>, rest: Bytes)
    requires AllEncodable(fs)
    ensures Split(EncodeAll(fs) + rest) == Prepend(fs, Split(rest))
  {
    if fs == [] {
      assert EncodeAll(fs) + rest == rest;
    } else {
      assert fs == [fs[0]] + fs[1..];
      SplitEncodeAll(fs[1..], rest);
      SplitWire(fs[0], EncodeAll(fs[1..]) + rest);
      PrependTwice([fs[0]], fs[1..], Split(rest));
      assert EncodeAll(fs) + rest == Wire(fs[0]) + (EncodeAll(fs[1..]) + rest) by {
        ConcatAssociates(Wire(fs[0]), EncodeAll(fs[1..]), rest);
      }
    }
  }

  /** Splitting undoes encoding. */
  lemma SplitOfEncoded(fs: seq<Frame>)
    requires AllEncodable(fs)
    ensures Split(EncodeAll(fs)) == Ok(fs)
  {
    SplitEncodeAll(fs, []);
    assert EncodeAll(fs) + [] == EncodeAll(fs) && fs + [] == fs;
  }

  lemma SplitOneFrame(f: Frame)
    requires Encodable(f)
    ensures Split(Wire(f)) == Ok([f])
  {
    SplitWire(f, []);
    assert Wire(f) + [] == Wire(f);
    assert [f] + [] == [f];
  }

  /** Encoding undoes splitting: no accepted byte string has two spellings. */
  lemma {:induction false} EncodeOfSplit(data: Bytes)
    requires Split(data).Ok?
    ensures AllEncodable(Split(data).value)
    ensures EncodeAll(Split(data).value) == data
    decreases |data|
  {
    if data == [] {
    } else {
      var f, rest := FirstFrame(data);
      EncodeOfSplit(rest);
      EncodeAllCons(f, Split(rest).value);
    }
  }

  lemma EncodeAllCons(f: Frame, fs: seq<Frame>)
    requires Encodable(f) && AllEncodable(fs)
    ensures AllEncodable([f] + fs) && EncodeAll([f] + fs) == Wire(f) + EncodeAll(fs)
  {
  }

  /** A notification is accepted exactly when it is a concatenation of encoded frames. */
  lemma SplitAcceptsExactlyEncodings(data: Bytes)
    ensures Split(data).Ok? <==> exists fs :: AllEncodable(fs) && EncodeAll(fs) == data
  {
    if Split(data).Ok? {
      EncodeOfSplit(data);
    }
    forall fs | AllEncodable(fs) && EncodeAll(fs) == data
      ensures Split(data).Ok?
    {
      SplitOfEncoded(fs);
    }
  }

  /** Distinct frame lists have distinct encodings. */
  lemma EncodeAllInjective(a: seq<Frame>, b: seq<Frame>)
    requires AllEncodable(a) && AllEncodable(b) && EncodeAll(a) == EncodeAll(b)
    ensures a == b
  {
    SplitOfEncoded(a);
    SplitOfEncoded(b);
  }

  /** A refused notification is some whole frames followed by a nonempty piece that does not
      begin with a whole frame; the error says whether even its header is cut. */
  lemma {:induction false} RefusedHasCutFrame(data: Bytes) returns (fs: seq<Frame>, cut: Bytes)
    requires Split(data).Err?
    ensures AllEncodable(fs) && data == EncodeAll(fs) + cut
    ensures cut != [] && !StartsWithFrame(cut)
    ensures Split(data).error == if |cut| < 2 then PartialHeader else PartialPayload
    decreases |data|
  {
    if !StartsWithFrame(data) {
      fs, cut := [], data;
    } else {
      var f, rest := FirstFrame(data);
      fs, cut := RefusedHasCutFrame(rest);
      EncodeAllCons(f, fs);
      ConcatAssociates(Wire(f), EncodeAll(fs), cut);
      fs := [f] + fs;
    }
  }

  // ---------- the wire format, byte by byte ----------

  /** A frame on the wire: channel in the top three bits, the end flag below them, then the length
      in twelve bits; exactly payloads of up to 4095 bytes fit. */
  lemma FrameLayout(endOfChannel: bool, channel: Channel, payload: Bytes)
    ensures EncodeFrame(Frame(endOfChannel, channel, payload)).Ok? <==> |payload| <= 4095
    ensures |payload| <= 4095 ==>
              var n := |payload|;
              var wire := [channel * 32 + (if endOfChannel then 16 else 0) + n / 256, n % 256] + payload;
              && EncodeFrame(Frame(endOfChannel, channel, payload)) == Ok(wire)
              && Split(wire) == Ok([Frame(endOfChannel, channel, payload)])
  {
    if |payload| <= 4095 {
      SplitOneFrame(Frame(endOfChannel, channel, payload));
    }
  }
}
