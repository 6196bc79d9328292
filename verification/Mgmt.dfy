/** The reader of management events in `bosch_ble/mgmt.py`. Events are framed as in the "Packet
    Structures" section of BlueZ's mgmt-api document: code, controller index and payload length,
    two bytes each and little-endian, then the payload. */
module Mgmt {
  import opened Bits
  import opened Wrappers
  import opened Sequences

  const MGMT_OP_LOAD_CONN_PARAM := 0x0035
  const MGMT_EV_CMD_COMPLETE := 0x0001
  const MGMT_EV_CMD_STATUS := 0x0002

  datatype Event = Event(code: int, index: int, payload: Bytes)

  /** What the caller learns from the event that answers its command. */
  datatype Response = Response(eventCode: int, status: int)

  function U16(data: Bytes, i: nat): nat
    requires i + 1 < |data|
  {
    data[i] + 256 * (data[i + 1] as int)
  }

  // ---------- the one-shot parse ----------

  predicate StartsWithEvent(data: Bytes) {
    |data| >= 6 && 6 + U16(data, 4) <= |data|
  }

  function EventEnd(data: Bytes): nat
    requires StartsWithEvent(data)
  {
    6 + U16(data, 4)
  }

  function FirstEvent(data: Bytes): Event
    requires StartsWithEvent(data)
  {
    Event(U16(data, 0), U16(data, 2), data[6..EventEnd(data)])
  }

  /** All complete events of a stream, and what is left behind them. */
  function Events(data: Bytes): seq<Event> {
    if StartsWithEvent(data) then [FirstEvent(data)] + Events(data[EventEnd(data)..]) else []
  }

  function Unparsed(data: Bytes): Bytes {
    if StartsWithEvent(data) then Unparsed(data[EventEnd(data)..]) else data
  }

  predicate Answers(e: Event) {
    && (e.code == MGMT_EV_CMD_COMPLETE || e.code == MGMT_EV_CMD_STATUS)
    && |e.payload| >= 3
    && U16(e.payload, 0) == MGMT_OP_LOAD_CONN_PARAM
  }

  function FirstAnswer(events: seq<Event>): Option<Response> {
    if events == [] then None
    else if Answers(events[0]) then Some(Response(events[0].code, events[0].payload[2]))
    else FirstAnswer(events[1..])
  }

  /** `FirstAnswer` is the first event of the stream that answers, and skips all before it. */
  lemma {:induction false} FirstAnswerIsFirst(events: seq<Event>) returns (k: nat)
    ensures k <= |events| && forall i | 0 <= i < k :: !Answers(events[i])
    ensures k < |events| ==> Answers(events[k])
    ensures FirstAnswer(events) ==
            if k < |events| then Some(Response(events[k].code, events[k].payload[2])) else None
  {
    if events == [] || Answers(events[0]) {
      k := 0;
    } else {
      var rest := FirstAnswerIsFirst(events[1..]);
      k := rest + 1;
    }
  }

  // ---------- the reader ----------

  /** `chunks` are the successive results of `recv`; when they run out the call is still waiting
      (or `recv` has raised), which is `None` here. */
  method ReceiveMgmtResponse(chunks: seq<Bytes>) returns (r: Option<Response>)
    ensures r == FirstAnswer(Events(Flatten(chunks)))
  {
    var buf: Bytes := [];
    var n := 0;
    while n < |chunks|
      invariant 0 <= n <= |chunks|
      invariant buf == Unparsed(Flatten(chunks[..n])) && |buf| <= 65540
      invariant FirstAnswer(Events(Flatten(chunks[..n]))) == None
    {
      var chunk := chunks[n];
      ghost var received := Flatten(chunks[..n]);
      assert chunks[..n + 1][..n] == chunks[..n];
      ParseResumes(received, chunk);
      n := n + 1;
      if chunk == [] {
        assert received + [] == received;
        continue;
      }
      buf := buf + chunk;
      var offset := 0;
      assert buf[0..] == buf;
      while offset + 6 <= |buf|
        invariant 0 <= offset <= |buf|
        invariant FirstAnswer(Events(buf)) == FirstAnswer(Events(buf[offset..]))
        invariant Unparsed(buf) == Unparsed(buf[offset..])
        decreases |buf| - offset
      {
        var eventCode, payloadLength := U16(buf, offset), U16(buf, offset + 4);
        var eventEnd := offset + 6 + payloadLength;
        if eventEnd > |buf| {
          break;
        }
        var payload := buf[offset + 6..eventEnd];
        EventsAt(buf, offset, eventEnd);
        if eventCode == MGMT_EV_CMD_COMPLETE && |payload| >= 3 {
          var opcode, status := U16(payload, 0), payload[2];
          if opcode == MGMT_OP_LOAD_CONN_PARAM {
            AnswerIsFinal(chunks, n, Response(eventCode, status));
            return Some(Response(eventCode, status));
          }
        }
        if eventCode == MGMT_EV_CMD_STATUS && |payload| >= 3 {
          var opcode, status := U16(payload, 0), payload[2];
          if opcode == MGMT_OP_LOAD_CONN_PARAM {
            AnswerIsFinal(chunks, n, Response(eventCode, status));
            return Some(Response(eventCode, status));
          }
        }
        offset := eventEnd;
      }
      assert !StartsWithEvent(buf[offset..]);
      assert Events(buf[offset..]) == [];
      UnparsedIsIncomplete(buf);
      if offset > 0 {
        buf := buf[offset..];
      } else {
        assert buf[offset..] == buf;
      }
    }
    assert chunks[..n] == chunks;
    return None;
  }

  lemma FirstEventAt(buf: Bytes, offset: nat, end: nat)
    requires offset + 6 <= end <= |buf| && end == offset + 6 + U16(buf, offset + 4)
    ensures StartsWithEvent(buf[offset..]) && EventEnd(buf[offset..]) == end - offset
    ensures FirstEvent(buf[offset..]) == Event(U16(buf, offset), U16(buf, offset + 2), buf[offset + 6..end])
    ensures buf[offset..][end - offset..] == buf[end..]
  {
    assert buf[offset..][6..end - offset] == buf[offset + 6..end];
  }

  lemma FirstAnswerCons(e: Event, events: seq<Event>)
    ensures FirstAnswer([e] + events) ==
            if Answers(e) then Some(Response(e.code, e.payload[2])) else FirstAnswer(events)
  {
    assert ([e] + events)[1..] == events;
  }

  /** One step of the parse, `rest` being what follows the first event. */
  lemma EventsCons(data: Bytes, e: Event, rest: Bytes)
    requires StartsWithEvent(data) && e == FirstEvent(data) && rest == data[EventEnd(data)..]
    ensures Events(data) == [e] + Events(rest) && Unparsed(data) == Unparsed(rest)
  {
  }

  lemma EventsAt(buf: Bytes, offset: nat, end: nat)
    requires offset + 6 <= end <= |buf| && end == offset + 6 + U16(buf, offset + 4)
    ensures var e := Event(U16(buf, offset), U16(buf, offset + 2), buf[offset + 6..end]);
            FirstAnswer(Events(buf[offset..])) ==
            if Answers(e) then Some(Response(e.code, e.payload[2])) else FirstAnswer(Events(buf[end..]))
    ensures Unparsed(buf[offset..]) == Unparsed(buf[end..])
  {
    var e, rest := Event(U16(buf, offset), U16(buf, offset + 2), buf[offset + 6..end]), buf[end..];
    FirstEventAt(buf, offset, end);
    EventsCons(buf[offset..], e, rest);
    FirstAnswerCons(e, Events(rest));
  }

  // ---------- chunking does not matter ----------

  lemma {:induction false} FirstAnswerConcat(a: seq<Event>, b: seq<Event>)
    ensures FirstAnswer(a + b) == if FirstAnswer(a).Some? then FirstAnswer(a) else FirstAnswer(b)
  {
    if a == [] {
      assert a + b == b;
    } else {
      FirstAnswerConcat(a[1..], b);
      assert (a + b)[1..] == a[1..] + b;
    }
  }

  lemma FirstEventStays(a: Bytes, b: Bytes)
    requires StartsWithEvent(a)
    ensures StartsWithEvent(a + b) && EventEnd(a + b) == EventEnd(a) && FirstEvent(a + b) == FirstEvent(a)
    ensures (a + b)[EventEnd(a)..] == a[EventEnd(a)..] + b
  {
    assert U16(a + b, 4) == U16(a, 4);
    assert (a + b)[6..EventEnd(a)] == a[6..EventEnd(a)];
  }

  /** More bytes continue the parse from the unparsed suffix. */
  lemma {:induction false} EventsConcat(a: Bytes, b: Bytes)
    ensures Events(a + b) == Events(a) + Events(Unparsed(a) + b)
    ensures Unparsed(a + b) == Unparsed(Unparsed(a) + b)
  {
    if !StartsWithEvent(a) {
    } else {
      var rest := a[EventEnd(a)..];
      FirstEventStays(a, b);
      EventsConcat(rest, b);
      ConcatAssociates([FirstEvent(a)], Events(rest), Events(Unparsed(rest) + b));
    }
  }

  lemma ParseResumes(a: Bytes, b: Bytes)
    ensures FirstAnswer(Events(a)).None? ==> FirstAnswer(Events(a + b)) == FirstAnswer(Events(Unparsed(a) + b))
    ensures Unparsed(a + b) == Unparsed(Unparsed(a) + b)
  {
    EventsConcat(a, b);
    FirstAnswerConcat(Events(a), Events(Unparsed(a) + b));
  }

  lemma AnswerIsFinal(chunks: seq<Bytes>, n: nat, response: Response)
    requires n <= |chunks| && FirstAnswer(Events(Flatten(chunks[..n]))) == Some(response)
    ensures FirstAnswer(Events(Flatten(chunks))) == Some(response)
  {
    var seen, unseen := Flatten(chunks[..n]), Flatten(chunks[n..]);
    FlattenPrefix(chunks, n);
    EventsConcat(seen, unseen);
    FirstAnswerConcat(Events(seen), Events(Unparsed(seen) + unseen));
  }

  // ---------- the framing loses nothing ----------

  predicate EncodableEvent(e: Event) {
    0 <= e.code < 0x1_0000 && 0 <= e.index < 0x1_0000 && |e.payload| < 0x1_0000
  }

  function LittleEndian(n: int): Bytes
    requires 0 <= n < 0x1_0000
  {
    [n % 256, n / 256]
  }

  function EventBytes(e: Event): Bytes
    requires EncodableEvent(e)
  {
    LittleEndian(e.code) + LittleEndian(e.index) + LittleEndian(|e.payload|) + e.payload
  }

  function Stream(events: seq<Event>): Bytes
    requires forall i | 0 <= i < |events| :: EncodableEvent(events[i])
  {
    if events == [] then [] else EventBytes(events[0]) + Stream(events[1..])
  }

  /** What is retained between rounds is never a complete event and never over 65540 bytes. */
  lemma {:induction false} UnparsedIsIncomplete(data: Bytes)
    ensures !StartsWithEvent(Unparsed(data))
    ensures |Unparsed(data)| <= 65540
  {
    if !StartsWithEvent(data) {
    } else {
      UnparsedIsIncomplete(data[EventEnd(data)..]);
    }
  }

  lemma FirstEventBytes(data: Bytes)
    requires StartsWithEvent(data)
    ensures EncodableEvent(FirstEvent(data)) && EventBytes(FirstEvent(data)) == data[..EventEnd(data)]
  {
  }

  lemma EventBytesFirst(e: Event, rest: Bytes)
    requires EncodableEvent(e)
    ensures StartsWithEvent(EventBytes(e) + rest) && FirstEvent(EventBytes(e) + rest) == e
    ensures (EventBytes(e) + rest)[EventEnd(EventBytes(e) + rest)..] == rest
  {
  }

  lemma StreamCons(e: Event, events: seq<Event>)
    requires EncodableEvent(e) && forall i | 0 <= i < |events| :: EncodableEvent(events[i])
    ensures forall i | 0 <= i < |[e] + events| :: EncodableEvent(([e] + events)[i])
    ensures Stream([e] + events) == EventBytes(e) + Stream(events)
  {
    assert ([e] + events)[1..] == events;
  }

  /** Every stream is its events written out again, then the unparsed suffix. */
  lemma {:induction false} StreamOfEvents(data: Bytes)
    ensures forall i | 0 <= i < |Events(data)| :: EncodableEvent(Events(data)[i])
    ensures Stream(Events(data)) + Unparsed(data) == data
  {
    if !StartsWithEvent(data) {
    } else {
      var rest := data[EventEnd(data)..];
      StreamOfEvents(rest);
      EventsCons(data, FirstEvent(data), rest);
      FirstEventBytes(data);
      StreamCons(FirstEvent(data), Events(rest));
      StreamStep(data, rest, Stream(Events(rest)), Unparsed(rest));
    }
  }

  lemma StreamStep(data: Bytes, rest: Bytes, stream: Bytes, unparsed: Bytes)
    requires StartsWithEvent(data) && rest == data[EventEnd(data)..] && stream + unparsed == rest
    ensures EncodableEvent(FirstEvent(data)) && EventBytes(FirstEvent(data)) + stream + unparsed == data
  {
    FirstEventBytes(data);
    ConcatAssociates(EventBytes(FirstEvent(data)), stream, unparsed);
    assert data[..EventEnd(data)] + rest == data;
  }

  /** And every list of events, written out before an incomplete piece, is parsed back. */
  lemma {:induction false} EventsOfStream(events: seq<Event>, rest: Bytes)
    requires forall i | 0 <= i < |events| :: EncodableEvent(events[i])
    requires !StartsWithEvent(rest)
    ensures Events(Stream(events) + rest) == events && Unparsed(Stream(events) + rest) == rest
  {
    if events == [] {
      assert Stream(events) + rest == rest;
    } else {
      var tail := Stream(events[1..]) + rest;
      EventsOfStream(events[1..], rest);
      EventBytesFirst(events[0], tail);
      ConcatAssociates(EventBytes(events[0]), Stream(events[1..]), rest);
    }
  }

  // ---------- which events answer, byte by byte ----------

  /** An answer is a Command Complete (1) or Command Status (2) for opcode 0x0035 with a status. */
  lemma AnswersExactly(e: Event)
    ensures Answers(e) <==>
            (e.code == 1 || e.code == 2) && |e.payload| >= 3 && e.payload[0] == 0x35 && e.payload[1] == 0
  {
  }

  lemma EventLayout(e: Event)
    requires EncodableEvent(e)
    ensures EventBytes(e) ==
            [e.code % 256, e.code / 256, e.index % 256, e.index / 256, |e.payload| % 256, |e.payload| / 256]
            + e.payload
  {
    assert LittleEndian(e.code) + LittleEndian(e.index) + LittleEndian(|e.payload|) ==
           [e.code % 256, e.code / 256, e.index % 256, e.index / 256, |e.payload| % 256, |e.payload| / 256];
  }

  lemma FirstEventDecides(e: Event, tail: Bytes)
    requires EncodableEvent(e)
    ensures FirstAnswer(Events(EventBytes(e) + tail)) ==
            if Answers(e) then Some(Response(e.code, e.payload[2])) else FirstAnswer(Events(tail))
  {
    EventBytesFirst(e, tail);
    EventsCons(EventBytes(e) + tail, e, tail);
    FirstAnswerCons(e, Events(tail));
  }

  /** A stream that begins with an answer makes the reader return its code and status. */
  lemma AnswerIsReturned(code: int, index: int, status: Byte, rest: Bytes, tail: Bytes)
    requires (code == 1 || code == 2) && 0 <= index < 0x1_0000 && |rest| <= 0xFFFC
    ensures var n := |rest| + 3;
            FirstAnswer(Events(
              [code, 0, index % 256, index / 256, n % 256, n / 256] + ([0x35, 0x00, status] + rest) + tail)) ==
            Some(Response(code, status))
  {
    var e := Event(code, index, [0x35, 0x00, status] + rest);
    AnswersExactly(e);
    EventLayout(e);
    FirstEventDecides(e, tail);
  }

  /** Any other event is skipped. */
  lemma OthersAreSkipped(code: int, index: int, payload: Bytes, tail: Bytes)
    requires 0 <= code < 0x1_0000 && 0 <= index < 0x1_0000 && |payload| < 0x1_0000
    requires (code != 1 && code != 2) || |payload| < 3 || payload[0] != 0x35 || payload[1] != 0
    ensures var n := |payload|;
            FirstAnswer(Events(
              [code % 256, code / 256, index % 256, index / 256, n % 256, n / 256] + payload + tail)) ==
            FirstAnswer(Events(tail))
  {
    var e := Event(code, index, payload);
    AnswersExactly(e);
    EventLayout(e);
    FirstEventDecides(e, tail);
  }

  /** The reader's answer to a stream of events and an incomplete piece is the first event of it
      that answers, if any. */
  lemma FirstOfStream(events: seq<Event>, rest: Bytes) returns (k: nat)
    requires forall i | 0 <= i < |events| :: EncodableEvent(events[i])
    requires !StartsWithEvent(rest)
    ensures k <= |events|
    ensures forall i | 0 <= i < k :: var e := events[i];
              (e.code != 1 && e.code != 2) || |e.payload| < 3 || e.payload[0] != 0x35 || e.payload[1] != 0
    ensures k < |events| ==>
              var e := events[k];
              (e.code == 1 || e.code == 2) && |e.payload| >= 3 && e.payload[0] == 0x35 && e.payload[1] == 0
    ensures FirstAnswer(Events(Stream(events) + rest)) ==
            if k < |events| then Some(Response(events[k].code, events[k].payload[2])) else None
  {
    EventsOfStream(events, rest);
    k := FirstAnswerIsFirst(events);
    forall i | 0 <= i < |events|
      ensures Answers(events[i]) <==> (events[i].code == 1 || events[i].code == 2) && |events[i].payload| >= 3
                                      && events[i].payload[0] == 0x35 && events[i].payload[1] == 0
    {
      AnswersExactly(events[i]);
    }
  }

  /** For instance, the status event saying that permission was denied. */
  lemma PermissionDenied()
    ensures FirstAnswer(Events([0x02, 0x00, 0x00, 0x00, 0x03, 0x00, 0x35, 0x00, 0x14])) == Some(Response(2, 0x14))
  {
    AnswerIsReturned(2, 0, 0x14, [], []);
    assert [2, 0, 0, 0, 3, 0] + ([0x35, 0x00, 0x14] + []) + [] ==
           [0x02, 0x00, 0x00, 0x00, 0x03, 0x00, 0x35, 0x00, 0x14];
  }
}
