/** The protobuf readers of `bosch_ble/dashboard.py`; see "Base 128 Varints" and "Last One Wins"
    in the Protocol Buffers Encoding guide. */
module Varint {
  import opened Bits
  import opened Wrappers

  datatype Error = Truncated | UnsupportedWireType(wireType: nat)

  /** A decoded number and the number of bytes it took. */
  datatype Decoded = Decoded(value: nat, length: nat)

  // ---------- one varint ----------

  function Read(data: Bytes): Option<Decoded> {
    if data == [] then None
    else if data[0] < 128 then Some(Decoded(data[0], 1))
    else match Read(data[1..])
         case None => None
         case Some(rest) => Some(Decoded(data[0] - 128 + 128 * rest.value, rest.length + 1))
  }

  /** The 7-bit groups of `data`, least significant first. */
  function GroupSum(data: Bytes): nat {
    if data == [] then 0 else (data[0] as int) % 128 + 128 * GroupSum(data[1..])
  }

  function Advance(r: Option<Decoded>, offset: nat): Result<(nat, nat), Error> {
    match r
    case None => Err(Truncated)
    case Some(d) => Ok((d.value, offset + d.length))
  }

  /** `r` as seen after `value` has been collected from the bytes before it, at bit `shift`. */
  function Continue(r: Option<Decoded>, value: nat, shift: nat, done: nat): Option<Decoded> {
    match r
    case None => None
    case Some(d) => Some(Decoded(value + Shl(d.value, shift), done + d.length))
  }

  method ParseVarint(data: Bytes, offset: nat) returns (r: Result<(nat, nat), Error>)
    ensures r == Advance(if offset <= |data| then Read(data[offset..]) else None, offset)
  {
    var value: nat := 0;
    var shift: nat := 0;
    var index := offset;
    assert offset <= |data| ==> Continue(Read(data[offset..]), 0, 0, 0) == Read(data[offset..]);
    while index < |data|
      invariant offset <= index && (offset <= |data| ==> index <= |data|)
      invariant shift == 7 * (index - offset) && value < Shl(1, shift)
      invariant offset <= |data| ==>
                  Read(data[offset..]) == Continue(Read(data[index..]), value, shift, index - offset)
    {
      var byte := data[index];
      StepRead(data, index, value, shift, index - offset);
      var more;
      value, more := Collect(value, byte, shift);
      index := index + 1;
      if !more {
        return Ok((value, index));
      }
      shift := shift + 7;
    }
    return Err(Truncated);
  }

  /** One byte of the loop: or-ing its shifted group above the bits collected so far adds it. */
  method Collect(value: nat, byte: Byte, shift: nat) returns (sum: nat, more: bool)
    requires value < Shl(1, shift)
    ensures sum == value + Shl(byte % 128, shift) < Shl(1, shift + 7)
    ensures more <==> byte >= 128
  {
    var group := Mask(byte, 0x7F);
    OrDisjoint(group, value, shift);
    GroupFits(value, group, shift);
    sum := Or(value, Shl(group, shift));
    more := TestBit(byte, 0x80);
  }

  lemma GroupFits(value: nat, group: nat, shift: nat)
    requires value < Shl(1, shift) && group < 128
    ensures value + Shl(group, shift) < Shl(1, shift + 7)
  {
    ShlAdd(group, 1, shift);
    ShlMonotone(group + 1, 128, shift);
    assert Shl(1, 7) == 128 by { ShiftedLeft(1); }
    ShlShl(1, 7, shift);
  }

  lemma StepRead(data: Bytes, index: nat, value: nat, shift: nat, done: nat)
    requires index < |data|
    ensures var collected := value + Shl(data[index] % 128, shift);
            Continue(Read(data[index..]), value, shift, done) ==
            if data[index] < 128 then Some(Decoded(collected, done + 1))
            else Continue(Read(data[index + 1..]), collected, shift + 7, done + 1)
  {
    assert data[index..][1..] == data[index + 1..];
    var rest := Read(data[index + 1..]);
    if data[index] >= 128 && rest.Some? {
      var v := rest.value.value;
      assert Shl(v, 7) == 128 * v by { ShiftedLeft(v); }
      ShlShl(v, 7, shift);
      ShlAdd(data[index] - 128, 128 * v, shift);
    }
  }

  /** A varint ends with its first byte below 128, is the sum of its groups and fits in seven
      bits per byte; there is none exactly when no byte is below 128. */
  lemma {:induction false} ReadMeaning(data: Bytes)
    ensures Read(data).None? <==> forall i | 0 <= i < |data| :: data[i] >= 128
    ensures Read(data).Some? ==>
              var d := Read(data).value;
              && 1 <= d.length <= |data| && data[d.length - 1] < 128
              && (forall i | 0 <= i < d.length - 1 :: data[i] >= 128)
              && d.value == GroupSum(data[..d.length])
              && d.value < Shl(1, 7 * d.length)
  {
    if data == [] {
    } else {
      ReadMeaning(data[1..]);
      if data[0] < 128 {
        assert data[..1][1..] == [] && GroupSum([]) == 0;
        assert Shl(1, 7) == 128 by { ShiftedLeft(1); }
      } else {
        assert forall i | 0 <= i < |data[1..]| :: data[1..][i] == data[i + 1];
        if Read(data[1..]).Some? {
          var rest := Read(data[1..]).value;
          assert data[..rest.length + 1][1..] == data[1..][..rest.length];
          GroupGrows(rest.value, rest.length, data[0] - 128);
        }
      }
    }
  }

  lemma GroupGrows(value: nat, length: nat, group: nat)
    requires value < Shl(1, 7 * length) && group < 128
    ensures group + 128 * value < Shl(1, 7 * (length + 1))
  {
    ShlShl(1, 7 * length, 7);
    assert Shl(Shl(1, 7 * length), 7) == 128 * Shl(1, 7 * length) by { ShiftedLeft(Shl(1, 7 * length)); }
  }

  function Encode(n: nat): Bytes {
    if n < 128 then [n] else [n % 128 + 128] + Encode(n / 128)
  }

  /** Every natural number, encoded and followed by anything, is read back. */
  lemma {:induction false} ReadEncoded(n: nat, suffix: Bytes)
    ensures Read(Encode(n) + suffix) == Some(Decoded(n, |Encode(n)|))
  {
    if n < 128 {
    } else {
      ReadEncoded(n / 128, suffix);
      assert (Encode(n) + suffix)[1..] == Encode(n / 128) + suffix;
    }
  }

  /** The bytes of a varint are the encoding of its value exactly when its last byte is not a
      redundant zero. */
  lemma {:induction false} CanonicalExactly(data: Bytes)
    requires Read(data).Some?
    ensures var d := Read(data).value;
            && 1 <= d.length <= |data|
            && (Encode(d.value) == data[..d.length] <==> d.length == 1 || data[d.length - 1] != 0)
  {
    if data[0] < 128 {
      assert data[..1] == [data[0]];
    } else {
      var rest := Read(data[1..]).value;
      CanonicalExactly(data[1..]);
      var tail := data[1..][..rest.length];
      assert data[..rest.length + 1] == [data[0]] + tail;
      CanonicalStep(data[0], rest.value, tail);
    }
  }

  /** For instance, 300 takes two bytes, the low group first. */
  lemma ThreeHundred()
    ensures Read([0xAC, 0x02]) == Some(Decoded(300, 2)) && Encode(300) == [0xAC, 0x02]
  {
    assert [0xAC, 0x02][1..] == [0x02];
    assert Encode(2) == [2];
  }

  /** For instance, zero may be padded by an empty group. */
  lemma PaddedZero()
    ensures Read([0x80, 0x00]) == Some(Decoded(0, 2)) && Encode(0) == [0x00]
  {
    assert [0x80, 0x00][1..] == [0x00];
  }

  lemma CanonicalStep(first: Byte, value: nat, tail: Bytes)
    requires first >= 128 && tail != []
    requires Encode(value) == tail <==> |tail| == 1 || tail[|tail| - 1] != 0
    requires |tail| == 1 ==> tail == [value]
    ensures Encode(first - 128 + 128 * value) == [first] + tail <==> tail[|tail| - 1] != 0
  {
    if value > 0 {
      assert Encode(first - 128 + 128 * value) == [first] + Encode(value);
      assert ([first] + Encode(value))[1..] == Encode(value) && ([first] + tail)[1..] == tail;
    } else {
      assert |Encode(first - 128)| == 1;
    }
  }

  // ---------- fields ----------

  /** Field numbers to values. */
  type Fields = map<nat, nat>

  function FieldNumber(key: nat): nat {
    key / 8
  }

  /** One field and the number of bytes it took. */
  datatype Field = Field(number: nat, value: nat, length: nat)

  function ReadField(data: Bytes): (r: Result<Field, Error>)
    ensures r.Ok? ==> 0 < r.value.length <= |data|
  {
    ReadMeaning(data);
    match Read(data)
    case None => Err(Truncated)
    case Some(key) =>
      if key.value % 8 != 0 then Err(UnsupportedWireType(key.value % 8)) else
      ReadMeaning(data[key.length..]);
      match Read(data[key.length..])
      case None => Err(Truncated)
      case Some(value) => Ok(Field(FieldNumber(key.value), value.value, key.length + value.length))
  }

  function ReadFields(payload: Bytes): Result<Fields, Error>
    decreases |payload|
  {
    if payload == [] then Ok(map[]) else
    var field :- ReadField(payload);
    Override(map[field.number := field.value], ReadFields(payload[field.length..]))
  }

  /** A result as seen after the fields `seen` have been collected before it. */
  function Override(seen: Fields, r: Result<Fields, Error>): Result<Fields, Error> {
    if r.Ok? then Ok(seen + r.value) else r
  }

  /** What the loop returns from `offset` on, having collected `values`. */
  function FieldsFrom(payload: Bytes, offset: nat, values: Fields): Result<Fields, Error> {
    if offset <= |payload| then Override(values, ReadFields(payload[offset..])) else Err(Truncated)
  }

  method ParseVarintFields(payload: Bytes) returns (r: Result<Fields, Error>)
    ensures r == ReadFields(payload)
  {
    FieldsStart(payload);
    var values: Fields := map[];
    var offset := 0;
    while offset < |payload|
      invariant 0 <= offset <= |payload|
      invariant ReadFields(payload) == FieldsFrom(payload, offset, values)
      decreases |payload| - offset
    {
      FieldsAt(payload, offset, values);
      var field := ParseField(payload, offset);
      if field.Err? {
        return Err(field.error);
      }
      values := values[field.value.number := field.value.value];
      offset := offset + field.value.length;
    }
    FieldsEnd(payload, values);
    return Ok(values);
  }

  lemma FieldsStart(payload: Bytes)
    ensures FieldsFrom(payload, 0, map[]) == ReadFields(payload)
  {
    assert payload[0..] == payload;
    OverrideNothing(ReadFields(payload));
  }

  lemma FieldsEnd(payload: Bytes, values: Fields)
    ensures FieldsFrom(payload, |payload|, values) == Ok(values)
  {
    assert payload[|payload|..] == [];
    assert values + map[] == values;
  }

  /** One turn of the loop: a key, its wire type checked, and a value. */
  method ParseField(payload: Bytes, offset: nat) returns (r: Result<Field, Error>)
    requires offset < |payload|
    ensures r == ReadField(payload[offset..])
  {
    FieldAt(payload, offset);
    var key :- ParseVarint(payload, offset);
    var fieldNumber := ShiftRight(key.0, 3);
    var wireType := Mask(key.0, 0x07);
    if wireType != 0 {
      return Err(UnsupportedWireType(wireType));
    }
    var value :- ParseVarint(payload, key.1);
    return Ok(Field(fieldNumber, value.0, value.1 - offset));
  }

  /** The field at `offset`, read as the loop reads it. */
  lemma FieldAt(payload: Bytes, offset: nat)
    requires offset < |payload|
    ensures ReadField(payload[offset..]) ==
            match Read(payload[offset..])
            case None => Err(Truncated)
            case Some(key) =>
              var middle := offset + key.length;
              if key.value % 8 != 0 then Err(UnsupportedWireType(key.value % 8)) else
              match if middle <= |payload| then Read(payload[middle..]) else None
              case None => Err(Truncated)
              case Some(value) => Ok(Field(FieldNumber(key.value), value.value, key.length + value.length))
  {
  }

  /** One turn of the field loop. */
  lemma FieldsAt(payload: Bytes, offset: nat, values: Fields)
    requires offset < |payload|
    ensures FieldsFrom(payload, offset, values) ==
            match ReadField(payload[offset..])
            case Err(e) => Err(e)
            case Ok(field) => FieldsFrom(payload, offset + field.length, values[field.number := field.value])
  {
    var rest := payload[offset..];
    if ReadField(rest).Ok? {
      var field := ReadField(rest).value;
      assert rest[field.length..] == payload[offset + field.length..];
      OverrideTwice(values, map[field.number := field.value], ReadFields(rest[field.length..]));
      assert values + map[field.number := field.value] == values[field.number := field.value];
    }
  }

  lemma OverrideNothing(r: Result<Fields, Error>)
    ensures Override(map[], r) == r
  {
    if r.Ok? {
      assert map[] + r.value == r.value;
    }
  }

  lemma OverrideTwice(a: Fields, b: Fields, r: Result<Fields, Error>)
    ensures Override(a, Override(b, r)) == Override(a + b, r)
  {
    if r.Ok? {
      assert a + (b + r.value) == a + b + r.value;
    }
  }

  lemma {:induction false} ReadConcat(a: Bytes, b: Bytes)
    requires Read(a).Some?
    ensures Read(a + b) == Read(a)
  {
    if a[0] < 128 {
    } else {
      ReadConcat(a[1..], b);
      assert (a + b)[1..] == a[1..] + b;
    }
  }

  lemma ReadFieldConcat(a: Bytes, b: Bytes)
    requires ReadField(a).Ok?
    ensures ReadField(a + b) == ReadField(a)
  {
    var length := Read(a).value.length;
    ReadMeaning(a);
    ReadConcat(a, b);
    assert (a + b)[length..] == a[length..] + b;
    ReadConcat(a[length..], b);
  }

  /** Parsing a concatenation whose first part parses is parsing the second part and letting its
      fields win; errors of the second part come through unchanged. */
  lemma {:induction false} FieldsMerge(a: Bytes, b: Bytes)
    requires ReadFields(a).Ok?
    ensures ReadFields(a + b) == Override(ReadFields(a).value, ReadFields(b))
    decreases |a|
  {
    if a == [] {
      assert a + b == b;
      OverrideNothing(ReadFields(b));
    } else {
      var field := ReadField(a).value;
      var rest := a[field.length..];
      ReadFieldConcat(a, b);
      assert (a + b)[field.length..] == rest + b;
      FieldsMerge(rest, b);
      OverrideTwice(map[field.number := field.value], ReadFields(rest).value, ReadFields(b));
    }
  }

  /** A field written with wire type 0. */
  function EncodeField(number: nat, value: nat): Bytes {
    Encode(number * 8) + Encode(value)
  }

  function EncodeFields(fields: seq<(nat, nat)>): Bytes {
    if fields == [] then []
    else
      var last := fields[|fields| - 1];
      EncodeFields(fields[..|fields| - 1]) + EncodeField(last.0, last.1)
  }

  function LastOneWins(fields: seq<(nat, nat)>): Fields {
    if fields == [] then map[]
    else
      var last := fields[|fields| - 1];
      LastOneWins(fields[..|fields| - 1])[last.0 := last.1]
  }

  lemma ReadOneField(number: nat, value: nat)
    ensures ReadFields(EncodeField(number, value)) == Ok(map[number := value])
  {
    ReadEncoded(number * 8, Encode(value));
    ReadEncoded(value, []);
    assert Encode(value) + [] == Encode(value);
    var bytes := EncodeField(number, value);
    assert bytes[|Encode(number * 8)|..] == Encode(value);
    assert bytes[|Encode(number * 8)| + |Encode(value)|..] == [];
    assert map[number := value] + map[] == map[number := value];
  }

  /** Any list of fields is read back as the map in which the last value of each field wins. */
  lemma {:induction false} FieldsRoundTrip(fields: seq<(nat, nat)>)
    ensures ReadFields(EncodeFields(fields)) == Ok(LastOneWins(fields))
  {
    if fields == [] {
    } else {
      var front, last := fields[..|fields| - 1], fields[|fields| - 1];
      var encoded, seen := EncodeFields(front), LastOneWins(front);
      assert ReadFields(encoded) == Ok(seen) by { FieldsRoundTrip(front); }
      assert ReadFields(encoded + EncodeField(last.0, last.1)) == Override(seen, Ok(map[last.0 := last.1])) by {
        FieldsMerge(encoded, EncodeField(last.0, last.1));
        ReadOneField(last.0, last.1);
      }
      assert seen + map[last.0 := last.1] == seen[last.0 := last.1];
    }
  }

  /** A field is a key and a value: 08 24 says that field 1 is 36, and any key whose low three bits
      are not zero is refused. */
  lemma FieldLayout(key: nat, value: nat)
    ensures ReadFields(Encode(key) + Encode(value)) ==
            if key % 8 == 0 then Ok(map[key / 8 := value]) else Err(UnsupportedWireType(key % 8))
    ensures ReadFields([0x08, 0x24]) == Ok(map[1 := 36])
  {
    var bytes := Encode(key) + Encode(value);
    ReadEncoded(key, Encode(value));
    assert bytes[|Encode(key)|..] == Encode(value);
    if key % 8 == 0 {
      ReadOneField(key / 8, value);
    }
    ReadOneField(1, 36);
    assert EncodeField(1, 36) == [0x08, 0x24];
  }
}
