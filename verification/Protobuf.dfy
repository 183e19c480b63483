/** The protobuf wire coding of the dynamic scan: base-128 varints, fields of wire types 0 and 2, and their decoder. */
module Protobuf {
  import opened Prelude
  import opened LittleEndian

  datatype Value = Number(n: nat) | Data(bytes: seq<Byte>)

  datatype Field = Field(number: nat, value: Value)

  /** A read past the end, and a wire type the decoder does not know. */
  datatype Error = Truncated | UnsupportedWire(wire: nat)

  // ----- Encoding -----

  function EncodeVarint(value: nat): (out: seq<Byte>)
    ensures out != []
  {
    if value < 128 then [value] else [value % 128 + 128] + EncodeVarint(value / 128)
  }

  /** `_varint`, for the numbers on which its loop ends. */
  method Varint(value: nat) returns (out: seq<Byte>)
    ensures out == EncodeVarint(value)
  {
    hide EncodeVarint;
    out := [];
    var rest := value;
    while true
      invariant out + EncodeVarint(rest) == EncodeVarint(value)
      decreases rest
    {
      LowDigit(rest);
      var byte: Byte := rest % 128;
      rest := rest / 128;
      if rest == 0 {
        return out + [byte];
      }
      Regroup(out, byte + 128, EncodeVarint(rest));
      out := out + [byte + 128];
    }
  }

  lemma Regroup(out: seq<Byte>, byte: Byte, rest: seq<Byte>)
    ensures out + ([byte] + rest) == out + [byte] + rest
  {
  }

  lemma LowDigit(value: nat)
    ensures EncodeVarint(value)
            == if value / 128 == 0 then [value % 128] else [value % 128 + 128] + EncodeVarint(value / 128)
  {
  }

  /** `pb_varint`, and `pb_message` and `pb_string` after UTF-8. */
  function Encode(field: Field): seq<Byte> {
    match field.value
    case Number(n) => EncodeVarint(field.number * 8) + EncodeVarint(n)
    case Data(bytes) => EncodeVarint(field.number * 8 + 2) + EncodeVarint(|bytes|) + bytes
  }

  function EncodeAll(fields: seq<Field>): seq<Byte> {
    if fields == [] then [] else Encode(fields[0]) + EncodeAll(fields[1..])
  }

  // ----- Decoding -----

  /** A varint at the start of some bytes, and how many it takes. */
  function ReadVarint(data: seq<Byte>): (r: Result<(nat, nat), Error>)
    ensures r.Success? ==> 1 <= r.value.1 <= |data|
  {
    if data == [] then Failure(Truncated)
    else if data[0] < 128 then Success((data[0], 1))
    else
      match ReadVarint(data[1..])
      case Failure(error) => Failure(error)
      case Success((high, used)) => Success((data[0] - 128 + 128 * high, used + 1))
  }

  /** What is left after some bytes, which may be more than there are. */
  function Skip(data: seq<Byte>, count: nat): seq<Byte> {
    if count <= |data| then data[count..] else []
  }

  /** At most that many bytes, as a Python slice. */
  function Take(data: seq<Byte>, count: nat): seq<Byte> {
    if count <= |data| then data[..count] else data
  }

  /** The field at the start of some bytes, and what follows it. */
  function ReadField(data: seq<Byte>): (r: Result<(Field, seq<Byte>), Error>)
    ensures r.Success? ==> |r.value.1| < |data|
  {
    match ReadVarint(data)
    case Failure(error) => Failure(error)
    case Success((key, used)) =>
      var number, wire, rest := key / 8, key % 8, data[used..];
      if wire != 0 && wire != 2 then Failure(UnsupportedWire(wire))
      else
        match ReadVarint(rest)
        case Failure(error) => Failure(error)
        case Success((n, more)) =>
          if wire == 0 then Success((Field(number, Number(n)), rest[more..]))
          else Success((Field(number, Data(Take(rest[more..], n))), Skip(rest[more..], n)))
  }

  function ReadFields(data: seq<Byte>): Result<seq<Field>, Error>
    decreases |data|
  {
    if data == [] then Success([])
    else
      match ReadField(data)
      case Failure(error) => Failure(error)
      case Success((field, rest)) => Prepend([field], ReadFields(rest))
  }

  function Prepend(first: seq<Field>, r: Result<seq<Field>, Error>): Result<seq<Field>, Error> {
    match r
    case Failure(error) => Failure(error)
    case Success(fields) => Success(first + fields)
  }

  function Put(fields: map<nat, seq<Value>>, number: nat, value: Value): map<nat, seq<Value>> {
    fields[number := (if number in fields then fields[number] else []) + [value]]
  }

  /** The dictionary of the fields by number. */
  function Group(fields: seq<Field>): map<nat, seq<Value>> {
    if fields == [] then map[]
    else Put(Group(fields[..|fields| - 1]), fields[|fields| - 1].number, fields[|fields| - 1].value)
  }

  /** What the varint loop of `pb_fields` still computes: with the value read so far, the weight of the next byte and its
      index. */
  function ReadOn(data: seq<Byte>, value: nat, weight: nat, index: nat): Result<(nat, nat), Error> {
    if data == [] then Failure(Truncated)
    else if data[0] < 128 then Success((value + data[0] % 128 * weight, index + 1))
    else ReadOn(data[1..], value + data[0] % 128 * weight, weight * 128, index + 1)
  }

  /** The varint loop of `pb_fields`, from an index. */
  method VarintAt(data: seq<Byte>, start: nat) returns (r: Result<(nat, nat), Error>)
    requires start <= |data|
    ensures r == match ReadVarint(data[start..])
                 case Failure(error) => Failure(error)
                 case Success((value, used)) => Success((value, start + used))
  {
    hide ReadVarint;
    LoopReadsVarint(data[start..], 0, 1, start);
    var value: nat, weight: nat, index := 0, 1, start;
    while true
      invariant start <= index <= |data|
      invariant ReadOn(data[index..], value, weight, index) == ReadOn(data[start..], 0, 1, start)
      decreases |data| - index
    {
      if index == |data| {
        return Failure(Truncated);
      }
      var byte := data[index];
      assert data[index..][1..] == data[index + 1..];
      index := index + 1;
      value := value + byte % 128 * weight;
      if byte < 128 {
        return Success((value, index));
      }
      weight := weight * 128;
    }
  }

  /** The loop adds the digits by weight, lowest first: that is the recursive value. */
  lemma {:induction false} LoopReadsVarint(data: seq<Byte>, value: nat, weight: nat, index: nat)
    ensures ReadOn(data, value, weight, index) == match ReadVarint(data)
              case Failure(error) => Failure(error)
              case Success((n, used)) => Success((value + weight * n, index + used))
  {
    if data != [] {
      var digit := data[0] % 128;
      Swap(digit, weight);
      LoopReadsVarint(data[1..], value + digit * weight, weight * 128, index + 1);
      if data[0] >= 128 && ReadVarint(data[1..]).Success? {
        AddDigit(value, digit, weight, ReadVarint(data[1..]).value.0);
      }
    }
  }

  lemma Swap(a: nat, b: nat)
    ensures a * b == b * a
  {
  }

  lemma AddDigit(value: nat, digit: nat, weight: nat, high: nat)
    ensures value + digit * weight + weight * 128 * high == value + weight * (digit + 128 * high)
  {
    assert weight * (digit + 128 * high) == weight * digit + weight * (128 * high);
    assert weight * (128 * high) == weight * 128 * high;
  }

  /** One turn of `pb_fields`: the field at an index, and the index after it, which may lie beyond the end. */
  method FieldAt(data: seq<Byte>, index: nat) returns (r: Result<(Field, nat), Error>)
    requires index < |data|
    ensures r.Failure? <==> ReadField(data[index..]).Failure?
    ensures r.Failure? ==> ReadField(data[index..]).error == r.error
    ensures r.Success? ==> ReadField(data[index..]) == Success((r.value.0, Skip(data, r.value.1)))
  {
    hide ReadVarint;
    var rest := data[index..];
    var key := VarintAt(data, index);
    if key.Failure? {
      return Failure(key.error);
    }
    var number, wire, start := key.value.0 / 8, key.value.0 % 8, key.value.1;
    assert data[start..] == rest[start - index..];
    if wire != 0 && wire != 2 {
      return Failure(UnsupportedWire(wire));
    }
    var value := VarintAt(data, start);
    if value.Failure? {
      return Failure(value.error);
    }
    var tail := data[value.value.1..];
    assert tail == data[start..][value.value.1 - start..];
    if wire == 0 {
      return Success((Field(number, Number(value.value.0)), value.value.1));
    }
    SkipTwice(data, value.value.1, value.value.0);
    r := Success((Field(number, Data(Take(tail, value.value.0))), value.value.1 + value.value.0));
  }

  lemma SkipTwice(data: seq<Byte>, start: nat, count: nat)
    requires start <= |data|
    ensures Skip(data[start..], count) == Skip(data, start + count)
  {
    if start + count <= |data| {
      assert data[start..][count..] == data[start + count..];
    }
  }

  /** `pb_fields`. */
  method PbFields(data: seq<Byte>) returns (r: Result<map<nat, seq<Value>>, Error>)
    ensures r == match ReadFields(data)
                 case Failure(error) => Failure(error)
                 case Success(fields) => Success(Group(fields))
  {
    hide ReadField, Group;
    var fields: map<nat, seq<Value>> := map[];
    var index := 0;
    ghost var done: seq<Field> := [];
    GroupOfNothing();
    PrependNothing(ReadFields(data));
    while index < |data|
      invariant fields == Group(done)
      invariant Prepend(done, ReadFields(Skip(data, index))) == ReadFields(data)
      decreases if index < |data| then |data| - index else 0
    {
      var next := FieldAt(data, index);
      if next.Failure? {
        return Failure(next.error);
      }
      var (field, after) := next.value;
      OneMoreField(done, field, ReadFields(Skip(data, after)));
      done := done + [field];
      fields := Put(fields, field.number, field.value);
      index := after;
    }
    assert Skip(data, index) == [];
    assert ReadFields([]) == Success([]) && done + [] == done;
    r := Success(fields);
  }

  lemma PrependNothing(r: Result<seq<Field>, Error>)
    ensures Prepend([], r) == r
  {
    if r.Success? {
      assert [] + r.value == r.value;
    }
  }

  lemma GroupOfNothing()
    ensures Group([]) == map[]
  {
  }

  lemma OneMoreField(done: seq<Field>, field: Field, rest: Result<seq<Field>, Error>)
    ensures Prepend(done, Prepend([field], rest)) == Prepend(done + [field], rest)
    ensures Group(done + [field]) == Put(Group(done), field.number, field.value)
  {
    if rest.Success? {
      assert done + ([field] + rest.value) == done + [field] + rest.value;
    }
    assert (done + [field])[..|done|] == done;
  }

  // ----- The dictionary -----

  /** The values of a field number, in order. */
  function ValuesOf(fields: seq<Field>, number: nat): seq<Value> {
    if fields == [] then []
    else
      var last := fields[|fields| - 1];
      ValuesOf(fields[..|fields| - 1], number) + (if last.number == number then [last.value] else [])
  }

  lemma {:induction false} GroupIsExact(fields: seq<Field>, number: nat)
    ensures number in Group(fields) <==> ValuesOf(fields, number) != []
    ensures number in Group(fields) ==> Group(fields)[number] == ValuesOf(fields, number)
  {
    if fields != [] {
      GroupIsExact(fields[..|fields| - 1], number);
    }
  }

  // ----- Round trip -----

  lemma {:induction false} VarintRoundTrip(value: nat, rest: seq<Byte>)
    ensures ReadVarint(EncodeVarint(value) + rest) == Success((value, |EncodeVarint(value)|))
    decreases value
  {
    var data := EncodeVarint(value) + rest;
    if value >= 128 {
      VarintRoundTrip(value / 128, rest);
      assert data[1..] == EncodeVarint(value / 128) + rest;
    }
  }

  /** A field begins with its number and its wire type: 0 for a number, 2 for data, whose length follows. */
  lemma FieldBegins(field: Field)
    ensures field.value.Number? ==> Encode(field) == EncodeVarint(8 * field.number) + EncodeVarint(field.value.n)
    ensures field.value.Data? ==>
              Encode(field) == EncodeVarint(8 * field.number + 2) + EncodeVarint(|field.value.bytes|) + field.value.bytes
    ensures Encode(Field(1, Number(150))) == [8, 150, 1]
    ensures Encode(Field(2, Data([116, 101, 115, 116]))) == [18, 4, 116, 101, 115, 116]
  {
  }

  /** A varint that stops short is an error. */
  lemma {:induction false} CutVarint(value: nat, k: nat)
    requires k < |EncodeVarint(value)|
    ensures ReadVarint(EncodeVarint(value)[..k]) == Failure(Truncated)
    decreases value
  {
    if value >= 128 && k > 0 {
      CutVarint(value / 128, k - 1);
      assert EncodeVarint(value)[..k][1..] == EncodeVarint(value / 128)[..k - 1];
    }
  }

  function Payload(field: Field): seq<Byte> {
    match field.value
    case Number(_) => []
    case Data(bytes) => bytes
  }

  function Key(field: Field): nat {
    match field.value
    case Number(_) => field.number * 8
    case Data(_) => field.number * 8 + 2
  }

  function Argument(field: Field): nat {
    match field.value
    case Number(n) => n
    case Data(bytes) => |bytes|
  }

  lemma EncodeIsHeader(field: Field)
    ensures Encode(field) == EncodeVarint(Key(field)) + EncodeVarint(Argument(field)) + Payload(field)
  {
    hide EncodeVarint;
  }

  /** A complete header followed by any bytes: the payload is what there is of it, up to the length. */
  lemma ReadHeader(field: Field, rest: seq<Byte>)
    ensures ReadField(EncodeVarint(Key(field)) + EncodeVarint(Argument(field)) + rest)
            == Success(match field.value
                       case Number(_) => (field, rest)
                       case Data(bytes) => (Field(field.number, Data(Take(rest, |bytes|))), Skip(rest, |bytes|)))
  {
    hide ReadVarint, EncodeVarint, Take, Skip;
    var key, argument := EncodeVarint(Key(field)), EncodeVarint(Argument(field));
    var data := key + argument + rest;
    assert data == key + (argument + rest);
    VarintRoundTrip(Key(field), argument + rest);
    assert data[|key|..] == argument + rest;
    VarintRoundTrip(Argument(field), rest);
    assert (argument + rest)[|argument|..] == rest;
    assert Key(field) / 8 == field.number;
  }

  /** A header cut short is an error, wherever the cut. */
  lemma CutHeader(field: Field, k: nat)
    requires k < |EncodeVarint(Key(field)) + EncodeVarint(Argument(field))|
    ensures ReadField((EncodeVarint(Key(field)) + EncodeVarint(Argument(field)))[..k]) == Failure(Truncated)
  {
    hide ReadVarint, EncodeVarint, Take, Skip;
    var key, argument := EncodeVarint(Key(field)), EncodeVarint(Argument(field));
    var data := (key + argument)[..k];
    if k < |key| {
      assert data == key[..k];
      CutVarint(Key(field), k);
    } else {
      var part := argument[..k - |key|];
      assert data == key + part;
      VarintRoundTrip(Key(field), part);
      assert data[|key|..] == part;
      CutVarint(Argument(field), k - |key|);
      assert Key(field) % 8 == 0 || Key(field) % 8 == 2;
    }
  }

  // ----- Truncation -----

  /** What the decoder should make of the first `k` bytes of an encoded message: the fields that are complete, an error
      inside a varint, and the bytes that are there of a payload cut short. */
  function DecodeCut(fields: seq<Field>, k: nat): Result<seq<Field>, Error> {
    if k == 0 || fields == [] then Success([])
    else
      var first := fields[0];
      var header := |EncodeVarint(Key(first)) + EncodeVarint(Argument(first))|;
      if k < header then Failure(Truncated)
      else if k < |Encode(first)| then Success([Field(first.number, Data(Payload(first)[..k - header]))])
      else Prepend([first], DecodeCut(fields[1..], k - |Encode(first)|))
  }

  /** The decoder on any truncation of any message. In particular a cut inside the bytes of a field is not noticed: the
      field decodes shortened, although its length says more. */
  lemma {:induction false} TruncationIsExact(fields: seq<Field>, k: nat)
    requires k <= |EncodeAll(fields)|
    ensures ReadFields(EncodeAll(fields)[..k]) == DecodeCut(fields, k)
  {
    if fields != [] && k > 0 {
      CutStep(fields, k);
      if k >= |Encode(fields[0])| {
        TruncationIsExact(fields[1..], k - |Encode(fields[0])|);
      }
    }
  }

  /** The first field of a truncated message. */
  lemma CutStep(fields: seq<Field>, k: nat)
    requires fields != [] && 0 < k <= |EncodeAll(fields)|
    ensures var first := fields[0];
            var header := |EncodeVarint(Key(first)) + EncodeVarint(Argument(first))|;
            ReadFields(EncodeAll(fields)[..k])
            == if k < header then Failure(Truncated)
               else if k < |Encode(first)| then Success([Field(first.number, Data(Payload(first)[..k - header]))])
               else Prepend([first], ReadFields(EncodeAll(fields[1..])[..k - |Encode(first)|]))
  {
    hide EncodeVarint, ReadField, Encode;
    var first, tail := fields[0], EncodeAll(fields[1..]);
    var front := EncodeVarint(Key(first)) + EncodeVarint(Argument(first));
    EncodeIsHeader(first);
    var data := EncodeAll(fields)[..k];
    assert EncodeAll(fields) == Encode(first) + tail;
    if k < |front| {
      assert data == front[..k];
      CutHeader(first, k);
    } else if k < |Encode(first)| {
      assert data == Encode(first)[..k];
      CutPayload(first, k);
    } else {
      assert data == Encode(first) + tail[..k - |Encode(first)|];
      WholeField(first, tail[..k - |Encode(first)|]);
    }
  }

  lemma WholeField(field: Field, tail: seq<Byte>)
    ensures ReadField(Encode(field) + tail) == Success((field, tail))
  {
    hide EncodeVarint, ReadField, Encode;
    var front := EncodeVarint(Key(field)) + EncodeVarint(Argument(field));
    EncodeIsHeader(field);
    assert Encode(field) + tail == front + (Payload(field) + tail);
    ReadHeader(field, Payload(field) + tail);
    assert Payload(field) == [] ==> Payload(field) + tail == tail;
  }

  lemma CutPayload(field: Field, k: nat)
    requires |EncodeVarint(Key(field)) + EncodeVarint(Argument(field))| <= k < |Encode(field)|
    ensures ReadFields(Encode(field)[..k])
            == Success([Field(field.number, Data(Payload(field)[..k - |EncodeVarint(Key(field)) + EncodeVarint(Argument(field))|]))])
  {
    hide EncodeVarint, ReadField, Encode;
    var front := EncodeVarint(Key(field)) + EncodeVarint(Argument(field));
    EncodeIsHeader(field);
    var rest := Payload(field)[..k - |front|];
    assert Encode(field)[..k] == front + rest;
    ReadHeader(field, rest);
    var cut := Field(field.number, Data(rest));
    assert ReadField(front + rest) == Success((cut, []));
    assert ReadFields([]) == Success([]) && [cut] + [] == [cut];
  }

  /** For every sequence of fields, decoding their encodings gives them back. */
  lemma {:induction false} RoundTrip(fields: seq<Field>)
    ensures ReadFields(EncodeAll(fields)) == Success(fields)
  {
    TruncationIsExact(fields, |EncodeAll(fields)|);
    assert EncodeAll(fields)[..|EncodeAll(fields)|] == EncodeAll(fields);
    NothingCut(fields);
  }

  lemma {:induction false} NothingCut(fields: seq<Field>)
    ensures DecodeCut(fields, |EncodeAll(fields)|) == Success(fields)
  {
    hide EncodeVarint, Encode;
    if fields != [] {
      EncodeIsHeader(fields[0]);
      NothingCut(fields[1..]);
      assert [fields[0]] + fields[1..] == fields;
    }
  }

  /** Different messages have different encodings. */
  lemma EncodingIsInjective(one: seq<Field>, two: seq<Field>)
    requires EncodeAll(one) == EncodeAll(two)
    ensures one == two
  {
    RoundTrip(one);
    RoundTrip(two);
  }

  /** A message inside a field decodes in turn. */
  lemma NestedRoundTrip(before: seq<Field>, number: nat, inner: seq<Field>, after: seq<Field>)
    ensures var outer := before + [Field(number, Data(EncodeAll(inner)))] + after;
            ReadFields(EncodeAll(outer)) == Success(outer)
            && exists i :: 0 <= i < |outer| && outer[i].number == number && outer[i].value.Data?
                           && ReadFields(outer[i].value.bytes) == Success(inner)
  {
    var outer := before + [Field(number, Data(EncodeAll(inner)))] + after;
    RoundTrip(outer);
    RoundTrip(inner);
    assert outer[|before|] == Field(number, Data(EncodeAll(inner)));
  }
}
