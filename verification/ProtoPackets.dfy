/** Building and parsing MeshPacket: `toRadioPacket`, `parseMeshPacket` and `parseData` of `ProtoCodec.java`. */
module ProtoPackets {
  import opened Common
  import opened ProtoWire

  const RETICULUM_PORT := 76
  const ROUTING_PORT := 5
  const PRIORITY_RELIABLE := 70
  const OK_TO_MQTT := 1

  // ---- Parsing ----

  datatype Data = Data(port: int, payload: Option<Bytes>, requestId: nat)

  const NO_DATA := Data(0, None, 0)

  /** One field of a Data message, after its tag. */
  function DataField(input: Bytes, tag: Tag, d: Data): (g: Got<Data>)
    ensures g.Got? ==> |g.rest| <= |input|
  {
    if tag == Tag(1, 0) then
      var g := ReadVarint(input); if g.Bad? then Bad else Got(d.(port := AsInt(g.value)), g.rest)
    else if tag == Tag(2, 2) then
      var g := ReadBytes(input); if g.Bad? then Bad else Got(d.(payload := Some(g.value)), g.rest)
    else if tag == Tag(6, 5) then
      var g := ReadFixed32(input); if g.Bad? then Bad else Got(d.(requestId := g.value), g.rest)
    else
      var g := Skip(input, tag.wire); if g.Bad? then Bad else Got(d, g.rest)
  }

  function ParseDataFrom(input: Bytes, d: Data): Got<Data>
    decreases |input|
  {
    if input == [] then Got(d, [])
    else
      var tag := ReadTag(input);
      if tag.Bad? then Bad
      else
        var g := DataField(tag.rest, tag.value, d);
        if g.Bad? then Bad else ParseDataFrom(g.rest, g.value)
  }

  /** The first error code of a Routing message. */
  function ParseRoutingError(input: Bytes): Got<Option<int>>
    decreases |input|
  {
    if input == [] then Got(None, [])
    else
      var tag := ReadTag(input);
      if tag.Bad? then Bad
      else if tag.value == Tag(3, 0) then
        var g := ReadVarint(tag.rest); if g.Bad? then Bad else Got(Some(AsInt(g.value)), [])
      else
        var g := Skip(tag.rest, tag.value.wire); if g.Bad? then Bad else ParseRoutingError(g.rest)
  }

  /** `rxSnr` is kept as the raw bits of the float. */
  datatype Packet = Packet(
    source: nat, destination: nat, channel: int, port: int, payload: Option<Bytes>, pkiEncrypted: bool,
    packetId: nat, requestId: nat, routingError: Option<int>, rxSnr: Option<nat>, rxRssi: Option<int>,
    hopLimit: int, hopStart: int, viaMqtt: bool, transportMechanism: int)

  const NO_PACKET :=
    Packet(0, 0xffff_ffff, 0, 0, None, false, 0, 0, None, None, None, 0, 0, false, 0)

  function TakeData(p: Packet, encoded: Bytes): Option<Packet> {
    var d := ParseDataFrom(encoded, NO_DATA);
    if d.Bad? then None
    else
      var p1 := p.(port := d.value.port, payload := d.value.payload, requestId := d.value.requestId);
      if d.value.port == ROUTING_PORT && d.value.payload.Some? then
        var e := ParseRoutingError(d.value.payload.value);
        if e.Bad? then None else Some(p1.(routingError := e.value))
      else Some(p1)
  }

  /** The varint fields of a packet that mean something. */
  function SetVarint(p: Packet, field: nat, v: nat): Option<Packet> {
    match field
    case 3 => Some(p.(channel := AsInt(v)))
    case 9 => Some(p.(hopLimit := AsInt(v)))
    case 12 => Some(p.(rxRssi := Some(AsInt(v))))
    case 14 => Some(p.(viaMqtt := v != 0))
    case 15 => Some(p.(hopStart := AsInt(v)))
    case 17 => Some(p.(pkiEncrypted := v != 0))
    case 21 => Some(p.(transportMechanism := AsInt(v)))
    case _ => None
  }

  function SetFixed32(p: Packet, field: nat, v: nat): Option<Packet> {
    match field
    case 1 => Some(p.(source := v))
    case 2 => Some(p.(destination := v))
    case 6 => Some(p.(packetId := v))
    case 8 => Some(p.(rxSnr := Some(v)))
    case _ => None
  }

  predicate KnownTag(tag: Tag) {
    || (tag.wire == 0 && SetVarint(NO_PACKET, tag.field, 0).Some?)
    || (tag.wire == 5 && SetFixed32(NO_PACKET, tag.field, 0).Some?)
    || tag == Tag(4, 2)
  }

  /** One field of a packet, after its tag. */
  function PacketField(input: Bytes, tag: Tag, p: Packet): (g: Got<Packet>)
    ensures g.Got? ==> |g.rest| <= |input|
  {
    if !KnownTag(tag) then
      var g := Skip(input, tag.wire); if g.Bad? then Bad else Got(p, g.rest)
    else if tag.wire == 0 then
      var g := ReadVarint(input); if g.Bad? then Bad else Got(SetVarint(p, tag.field, g.value).value, g.rest)
    else if tag.wire == 5 then
      var g := ReadFixed32(input); if g.Bad? then Bad else Got(SetFixed32(p, tag.field, g.value).value, g.rest)
    else
      var g := ReadBytes(input);
      if g.Bad? || TakeData(p, g.value).None? then Bad else Got(TakeData(p, g.value).value, g.rest)
  }

  function ParsePacketFrom(input: Bytes, p: Packet): Got<Packet>
    decreases |input|
  {
    if input == [] then Got(p, [])
    else
      var tag := ReadTag(input);
      if tag.Bad? then Bad
      else
        var g := PacketField(tag.rest, tag.value, p);
        if g.Bad? then Bad else ParsePacketFrom(g.rest, g.value)
  }

  datatype Parsed = Malformed | NoPayload | Parsed(packet: Packet)

  function ParseMeshPacket(encoded: Bytes): Parsed {
    var g := ParsePacketFrom(encoded, NO_PACKET);
    if g.Bad? then Malformed
    else if g.value.payload.None? then NoPayload
    else Parsed(g.value)
  }

  // ---- Building ----

  function DataFields(okToMqtt: bool, payload: Bytes): seq<Field> {
    [VarintField(1, RETICULUM_PORT), BytesField(2, payload)] + (if okToMqtt then [VarintField(9, OK_TO_MQTT)] else [])
  }

  function HeadFields(source: int, destination: int, packetId: int, channel: int, data: Bytes): seq<Field> {
    [Fixed32Field(1, source % TWO32), Fixed32Field(2, destination % TWO32)] +
    (if channel != 0 then [VarintField(3, AsLong(channel))] else []) +
    [BytesField(4, data), Fixed32Field(6, packetId % TWO32)]
  }

  function TailFields(hops: int, wantAck: bool): seq<Field> {
    (if hops != 0 then [VarintField(9, AsLong(hops))] else []) +
    (if wantAck then [VarintField(10, 1)] else []) +
    [VarintField(11, PRIORITY_RELIABLE)] +
    (if hops != 0 then [VarintField(15, AsLong(hops))] else [])
  }

  function PacketFields(
    source: int, destination: int, packetId: int, channel: int, hops: int, wantAck: bool, data: Bytes): seq<Field>
  {
    HeadFields(source, destination, packetId, channel, data) + TailFields(hops, wantAck)
  }

  /** The nested packet bytes, and the ToRadio message around them. */
  function PacketBytes(
    source: int, destination: int, packetId: int, channel: int, hops: int, wantAck: bool, okToMqtt: bool,
    payload: Bytes): Bytes
  {
    EncodeAll(PacketFields(
      source, destination, packetId, channel, hops, wantAck, EncodeAll(DataFields(okToMqtt, payload))))
  }

  function ToRadio(packet: Bytes): Bytes {
    EncodeAll([BytesField(1, packet)])
  }

  // ---- Parsing is a fold over fields ----

  function DataStep(f: Field, d: Data): Data {
    match f
    case VarintField(1, v) => d.(port := AsInt(v))
    case BytesField(2, data) => d.(payload := Some(data))
    case Fixed32Field(6, v) => d.(requestId := v)
    case _ => d
  }

  function DataFold(fields: seq<Field>, d: Data): Data
    decreases fields
  {
    if fields == [] then d else DataFold(fields[1..], DataStep(fields[0], d))
  }

  function PacketStep(f: Field, p: Packet): Option<Packet> {
    if !KnownTag(Tag(f.number, f.Wire())) then Some(p)
    else
      match f
      case VarintField(n, v) => SetVarint(p, n, v)
      case Fixed32Field(n, v) => SetFixed32(p, n, v)
      case BytesField(_, data) => TakeData(p, data)
      case Fixed64Field(_, _) => Some(p)
  }

  function PacketFold(fields: seq<Field>, p: Packet): Option<Packet>
    decreases fields
  {
    if fields == [] then Some(p)
    else
      var next := PacketStep(fields[0], p);
      if next.None? then None else PacketFold(fields[1..], next.value)
  }

  lemma DataFieldIsStep(f: Field, rest: Bytes, d: Data)
    requires f.WellFormed()
    ensures DataField(f.Body() + rest, Tag(f.number, f.Wire()), d) == Got(DataStep(f, d), rest)
  {
    hide Varint, Fixed32, ReadVarint, ReadFixed32, ReadBytes, Skip, AsInt;
    SkipInverts(f, rest);
    match f
    case VarintField(_, v) => VarintInverts(v, rest);
    case BytesField(_, data) => BytesInvert(data, rest);
    case Fixed32Field(_, v) => Fixed32Inverts(v, rest);
    case Fixed64Field(_, _) =>
  }

  lemma EncodedHead(f: Field, rest: Bytes)
    requires f.WellFormed()
    ensures f.Encode() + rest != []
    ensures ReadTag(f.Encode() + rest) == Got(Tag(f.number, f.Wire()), f.Body() + rest)
  {
    hide Varint, ReadTag;
    assert f.Encode() + rest == Varint(f.number * 8 + f.Wire()) + (f.Body() + rest);
    TagInverts(f.number, f.Wire(), f.Body() + rest);
  }

  lemma {:induction false} ParseDataIsFold(fields: seq<Field>, d: Data)
    requires AllWellFormed(fields)
    ensures ParseDataFrom(EncodeAll(fields), d) == Got(DataFold(fields, d), [])
    decreases fields
  {
    if fields != [] {
      hide Varint, Fixed32, ReadTag, DataField, DataStep;
      var f, rest := fields[0], EncodeAll(fields[1..]);
      EncodedHead(f, rest);
      DataFieldIsStep(f, rest, d);
      ParseDataIsFold(fields[1..], DataStep(f, d));
    }
  }

  lemma PacketFieldIsStep(f: Field, rest: Bytes, p: Packet)
    requires f.WellFormed()
    ensures PacketField(f.Body() + rest, Tag(f.number, f.Wire()), p)
         == if PacketStep(f, p).None? then Bad else Got(PacketStep(f, p).value, rest)
  {
    hide Varint, Fixed32, ReadVarint, ReadFixed32, ReadBytes, Skip, AsInt, TakeData;
    SkipInverts(f, rest);
    match f
    case VarintField(_, v) => VarintInverts(v, rest);
    case BytesField(_, data) => BytesInvert(data, rest);
    case Fixed32Field(_, v) => Fixed32Inverts(v, rest);
    case Fixed64Field(_, _) =>
  }

  lemma {:induction false} ParsePacketIsFold(fields: seq<Field>, p: Packet)
    requires AllWellFormed(fields)
    ensures ParsePacketFrom(EncodeAll(fields), p)
         == if PacketFold(fields, p).None? then Bad else Got(PacketFold(fields, p).value, [])
    decreases fields
  {
    if fields != [] {
      hide Varint, Fixed32, ReadTag, PacketField, PacketStep;
      var f, rest := fields[0], EncodeAll(fields[1..]);
      EncodedHead(f, rest);
      PacketFieldIsStep(f, rest, p);
      if PacketStep(f, p).Some? {
        ParsePacketIsFold(fields[1..], PacketStep(f, p).value);
      }
    }
  }

  // ---- Unknown fields ----

  predicate KnownData(f: Field) {
    || (f.VarintField? && f.number == 1)
    || (f.BytesField? && f.number == 2)
    || (f.Fixed32Field? && f.number == 6)
  }

  predicate KnownPacket(f: Field) {
    KnownTag(Tag(f.number, f.Wire()))
  }

  /** The fields that mean something, in order. */
  function Meaningful(fields: seq<Field>, known: Field -> bool): seq<Field> {
    if fields == [] then []
    else (if known(fields[0]) then [fields[0]] else []) + Meaningful(fields[1..], known)
  }

  lemma {:induction false} DataIgnoresUnknown(fields: seq<Field>, d: Data)
    ensures DataFold(fields, d) == DataFold(Meaningful(fields, KnownData), d)
    decreases fields
  {
    if fields != [] {
      var rest := Meaningful(fields[1..], KnownData);
      assert ([fields[0]] + rest)[1..] == rest && [] + rest == rest;
      DataIgnoresUnknown(fields[1..], DataStep(fields[0], d));
    }
  }

  lemma {:induction false} PacketIgnoresUnknown(fields: seq<Field>, p: Packet)
    ensures PacketFold(fields, p) == PacketFold(Meaningful(fields, KnownPacket), p)
    decreases fields
  {
    hide KnownTag, TakeData, SetVarint, SetFixed32;
    if fields != [] {
      var rest := Meaningful(fields[1..], KnownPacket);
      assert ([fields[0]] + rest)[1..] == rest && [] + rest == rest;
      if PacketStep(fields[0], p).Some? {
        PacketIgnoresUnknown(fields[1..], PacketStep(fields[0], p).value);
      }
    }
  }

  // ---- Round trip ----

  function Expected(
    source: int, destination: int, packetId: int, channel: int, hops: int, payload: Bytes): Packet
  {
    NO_PACKET.(source := source % TWO32, destination := destination % TWO32, channel := channel,
              port := RETICULUM_PORT, payload := Some(payload), packetId := packetId % TWO32,
              hopLimit := hops, hopStart := hops)
  }

  lemma {:induction false} FoldAppend(a: seq<Field>, b: seq<Field>, p: Packet)
    ensures PacketFold(a + b, p)
         == if PacketFold(a, p).None? then None else PacketFold(b, PacketFold(a, p).value)
    decreases a
  {
    hide PacketStep;
    if a == [] {
      assert a + b == b;
    } else {
      assert (a + b)[1..] == a[1..] + b;
      if PacketStep(a[0], p).Some? {
        FoldAppend(a[1..], b, PacketStep(a[0], p).value);
      }
    }
  }

  lemma FoldOne(f: Field, p: Packet)
    ensures PacketFold([f], p) == PacketStep(f, p)
  {
    hide PacketStep;
    assert [f][1..] == [];
  }

  /** An optional varint field sets its value, which is the default when the field is left out. */
  lemma FoldOptional(present: bool, f: Field, p: Packet)
    ensures PacketFold(if present then [f] else [], p) == if present then PacketStep(f, p) else Some(p)
  {
    hide PacketStep;
    if present {
      FoldOne(f, p);
    }
  }

  /** Appending a part that folds. */
  lemma FoldThen(a: seq<Field>, b: seq<Field>, p: Packet, q: Packet, r: Packet)
    requires PacketFold(a, p) == Some(q) && PacketFold(b, q) == Some(r)
    ensures PacketFold(a + b, p) == Some(r)
  {
    hide PacketFold;
    FoldAppend(a, b, p);
  }

  lemma DataParses(dataFields: seq<Field>, payload: Bytes)
    requires AllWellFormed(dataFields)
    requires Meaningful(dataFields, KnownData) == [VarintField(1, RETICULUM_PORT), BytesField(2, payload)]
    ensures ParseDataFrom(EncodeAll(dataFields), NO_DATA) == Got(Data(RETICULUM_PORT, Some(payload), 0), [])
  {
    hide ParseDataFrom, EncodeAll, Meaningful;
    ParseDataIsFold(dataFields, NO_DATA);
    DataIgnoresUnknown(dataFields, NO_DATA);
    var two := [VarintField(1, RETICULUM_PORT), BytesField(2, payload)];
    assert two[1..] == [BytesField(2, payload)] && two[1..][1..] == [];
    assert DataFold([], Data(RETICULUM_PORT, Some(payload), 0)) == Data(RETICULUM_PORT, Some(payload), 0);
    SmallInt(RETICULUM_PORT);
  }

  lemma HeadFolds(
    source: int, destination: int, packetId: int, channel: int, data: Bytes, payload: Bytes)
    requires IsInt(channel)
    requires ParseDataFrom(data, NO_DATA) == Got(Data(RETICULUM_PORT, Some(payload), 0), [])
    ensures PacketFold(HeadFields(source, destination, packetId, channel, data), NO_PACKET)
         == Some(Expected(source, destination, packetId, channel, 0, payload))
  {
    hide PacketFold, ParseDataFrom, AsInt, AsLong;
    IntSurvives(channel);
    var p1 := NO_PACKET.(source := source % TWO32);
    var p2 := p1.(destination := destination % TWO32);
    var p3 := p2.(channel := channel);
    var p4 := p3.(port := RETICULUM_PORT, payload := Some(payload), requestId := 0);
    var p5 := p4.(packetId := packetId % TWO32);
    var f1, f2 := Fixed32Field(1, source % TWO32), Fixed32Field(2, destination % TWO32);
    var f3, f4 := VarintField(3, AsLong(channel)), BytesField(4, data);
    var f5 := Fixed32Field(6, packetId % TWO32);
    FoldOne(f1, NO_PACKET);
    FoldOne(f2, p1);
    FoldOptional(channel != 0, f3, p2);
    FoldOne(f4, p3);
    FoldOne(f5, p4);
    FoldThen([f1], [f2], NO_PACKET, p1, p2);
    assert [f1] + [f2] == [f1, f2];
    FoldThen([f1, f2], if channel != 0 then [f3] else [], NO_PACKET, p2, p3);
    FoldThen([f4], [f5], p3, p4, p5);
    assert [f4] + [f5] == [f4, f5];
    FoldThen([f1, f2] + (if channel != 0 then [f3] else []), [f4, f5], NO_PACKET, p3, p5);
  }

  lemma TailFolds(hops: int, wantAck: bool, p: Packet)
    requires IsInt(hops) && p.hopLimit == 0 && p.hopStart == 0
    ensures PacketFold(TailFields(hops, wantAck), p) == Some(p.(hopLimit := hops, hopStart := hops))
  {
    hide PacketFold, AsInt, AsLong;
    IntSurvives(hops);
    var q := p.(hopLimit := hops);
    var f6, f7 := VarintField(9, AsLong(hops)), VarintField(10, 1);
    var f8, f9 := VarintField(11, PRIORITY_RELIABLE), VarintField(15, AsLong(hops));
    var o6, o7 := if hops != 0 then [f6] else [], if wantAck then [f7] else [];
    FoldOptional(hops != 0, f6, p);
    FoldOptional(wantAck, f7, q);
    FoldOne(f8, q);
    FoldOptional(hops != 0, f9, q);
    FoldThen(o6, o7, p, q, q);
    FoldThen(o6 + o7, [f8], p, q, q);
    FoldThen(o6 + o7 + [f8], if hops != 0 then [f9] else [], p, q, q.(hopStart := hops));
  }

  /** The fields written for a packet fold to the packet. */
  lemma PacketFolds(
    source: int, destination: int, packetId: int, channel: int, hops: int, wantAck: bool, data: Bytes, payload: Bytes)
    requires IsInt(channel) && IsInt(hops)
    requires ParseDataFrom(data, NO_DATA) == Got(Data(RETICULUM_PORT, Some(payload), 0), [])
    ensures PacketFold(PacketFields(source, destination, packetId, channel, hops, wantAck, data), NO_PACKET)
         == Some(Expected(source, destination, packetId, channel, hops, payload))
  {
    hide PacketFold, ParseDataFrom, HeadFields, TailFields;
    HeadFolds(source, destination, packetId, channel, data, payload);
    TailFolds(hops, wantAck, Expected(source, destination, packetId, channel, 0, payload));
    FoldThen(
      HeadFields(source, destination, packetId, channel, data), TailFields(hops, wantAck), NO_PACKET,
      Expected(source, destination, packetId, channel, 0, payload),
      Expected(source, destination, packetId, channel, hops, payload));
  }

  /**
   * Round trip. Take the fields `toRadioPacket` writes, insert any well-formed fields unknown
   * to the parser anywhere in the packet and in the nested Data message, and parse: source,
   * destination, channel, port 76, payload, id and both hop fields come back, zeros omitted on
   * the wire included, and everything else has its default.
   */
  lemma RoundTrip(
    source: int, destination: int, packetId: int, channel: int, hops: int, wantAck: bool, payload: Bytes,
    fields: seq<Field>, dataFields: seq<Field>)
    requires IsInt(channel) && IsInt(hops)
    requires AllWellFormed(fields) && AllWellFormed(dataFields)
    requires Meaningful(dataFields, KnownData) == [VarintField(1, RETICULUM_PORT), BytesField(2, payload)]
    requires Meaningful(fields, KnownPacket) == Meaningful(
      PacketFields(source, destination, packetId, channel, hops, wantAck, EncodeAll(dataFields)), KnownPacket)
    ensures ParseMeshPacket(EncodeAll(fields))
         == Parsed(Expected(source, destination, packetId, channel, hops, payload))
  {
    hide EncodeAll, PacketFold, PacketFields, Meaningful, ParsePacketFrom, ParseDataFrom;
    DataParses(dataFields, payload);
    PacketFolds(
      source, destination, packetId, channel, hops, wantAck, EncodeAll(dataFields), payload);
    PacketIgnoresUnknown(fields, NO_PACKET);
    PacketIgnoresUnknown(
      PacketFields(source, destination, packetId, channel, hops, wantAck, EncodeAll(dataFields)), NO_PACKET);
    ParsePacketIsFold(fields, NO_PACKET);
  }

  lemma WrittenFieldsWellFormed(
    source: int, destination: int, packetId: int, channel: int, hops: int, wantAck: bool, data: Bytes)
    requires IsInt(channel) && IsInt(hops) && |data| <= MAX_INT
    ensures AllWellFormed(PacketFields(source, destination, packetId, channel, hops, wantAck, data))
  {
    hide AsLong;
    IntSurvives(channel);
    IntSurvives(hops);
  }

  lemma DataFieldsMeaning(okToMqtt: bool, payload: Bytes)
    ensures Meaningful(DataFields(okToMqtt, payload), KnownData)
         == [VarintField(1, RETICULUM_PORT), BytesField(2, payload)]
  {
    var f1, f2, f3 := VarintField(1, RETICULUM_PORT), BytesField(2, payload), VarintField(9, OK_TO_MQTT);
    assert [f1, f2][1..] == [f2] && [f2][1..] == [];
    assert [f1, f2, f3][1..] == [f2, f3] && [f2, f3][1..] == [f3] && [f3][1..] == [];
    assert Meaningful([], KnownData) == [];
    assert Meaningful([f3], KnownData) == [];
    assert Meaningful([f2], KnownData) == [f2];
    assert Meaningful([f2, f3], KnownData) == [f2];
  }

  /** The packet bytes of `toRadioPacket` themselves. */
  lemma WrittenPacketParses(
    source: int, destination: int, packetId: int, channel: int, hops: int, wantAck: bool, okToMqtt: bool,
    payload: Bytes)
    requires IsInt(channel) && IsInt(hops)
    requires |payload| <= MAX_INT && |EncodeAll(DataFields(okToMqtt, payload))| <= MAX_INT
    ensures ParseMeshPacket(PacketBytes(source, destination, packetId, channel, hops, wantAck, okToMqtt, payload))
         == Parsed(Expected(source, destination, packetId, channel, hops, payload))
  {
    hide EncodeAll, PacketFields, Meaningful, ParseMeshPacket;
    var dataFields := DataFields(okToMqtt, payload);
    var data := EncodeAll(dataFields);
    DataFieldsMeaning(okToMqtt, payload);
    WrittenFieldsWellFormed(source, destination, packetId, channel, hops, wantAck, data);
    RoundTrip(
      source, destination, packetId, channel, hops, wantAck, payload,
      PacketFields(source, destination, packetId, channel, hops, wantAck, data), dataFields);
  }
}
