/** What a received packet means, field number by field number. */
module ProtoReceived {
  import opened Common
  import opened ProtoWire
  import opened ProtoPackets

  // ---- The last of the fields with a number ----

  /** The last varint field with this number: of several the last one counts. */
  function LastVarint(fields: seq<Field>, number: nat): Option<nat> {
    if fields == [] then None
    else
      var f := fields[|fields| - 1];
      if f.VarintField? && f.number == number then Some(f.v) else LastVarint(fields[..|fields| - 1], number)
  }

  function LastFixed32(fields: seq<Field>, number: nat): Option<nat> {
    if fields == [] then None
    else
      var f := fields[|fields| - 1];
      if f.Fixed32Field? && f.number == number then Some(f.v) else LastFixed32(fields[..|fields| - 1], number)
  }

  function LastBytes(fields: seq<Field>, number: nat): Option<Bytes> {
    if fields == [] then None
    else
      var f := fields[|fields| - 1];
      if f.BytesField? && f.number == number then Some(f.data) else LastBytes(fields[..|fields| - 1], number)
  }

  function FirstVarint(fields: seq<Field>, number: nat): Option<nat>
    decreases |fields|
  {
    if fields == [] then None
    else if fields[0].VarintField? && fields[0].number == number then Some(fields[0].v)
    else FirstVarint(fields[1..], number)
  }

  function Or<T>(o: Option<T>, default: T): T {
    if o.Some? then o.value else default
  }

  function IntOr(o: Option<nat>, default: int): int {
    if o.Some? then AsInt(o.value) else default
  }

  function BoolOf(o: Option<nat>): bool {
    o.Some? && o.value != 0
  }

  // ---- Data messages ----

  lemma {:induction false} DataFoldSnoc(front: seq<Field>, f: Field, d: Data)
    ensures DataFold(front + [f], d) == DataStep(f, DataFold(front, d))
    decreases |front|
  {
    hide DataStep;
    if front == [] {
      assert front + [f] == [f] && [f][1..] == [];
    } else {
      assert (front + [f])[1..] == front[1..] + [f];
      DataFoldSnoc(front[1..], f, DataStep(front[0], d));
    }
  }

  /** The port is field 1, the payload field 2, the request it answers field 6. */
  lemma {:induction false} DataMembers(fields: seq<Field>)
    ensures var d := DataFold(fields, NO_DATA);
      && d.port == IntOr(LastVarint(fields, 1), 0)
      && d.payload == LastBytes(fields, 2)
      && d.requestId == Or(LastFixed32(fields, 6), 0)
  {
    hide AsInt;
    if fields != [] {
      var n := |fields| - 1;
      assert fields == fields[..n] + [fields[n]];
      DataMembers(fields[..n]);
      DataFoldSnoc(fields[..n], fields[n], NO_DATA);
    }
  }

  // ---- Routing messages ----

  /** The error is the first field 3, whatever comes before or after it. */
  lemma {:induction false} RoutingErrorIs(fields: seq<Field>)
    requires AllWellFormed(fields)
    ensures var error := FirstVarint(fields, 3);
      ParseRoutingError(EncodeAll(fields)) == Got(if error.Some? then Some(AsInt(error.value)) else None, [])
    decreases |fields|
  {
    hide Varint, Fixed32, ReadTag, ReadVarint, Skip, AsInt;
    if fields != [] {
      var f, rest := fields[0], EncodeAll(fields[1..]);
      EncodedHead(f, rest);
      SkipInverts(f, rest);
      if f.VarintField? {
        VarintInverts(f.v, rest);
      }
      RoutingErrorIs(fields[1..]);
    }
  }

  // ---- Packets ----

  /** The Data message and, on port 5, the Routing message in it can be read. */
  predicate Readable(data: Bytes) {
    var d := ParseDataFrom(data, NO_DATA);
    d.Got? && (d.value.port == 5 && d.value.payload.Some? ==> ParseRoutingError(d.value.payload.value).Got?)
  }

  /** The error of the last Data message on port 5. */
  function LastError(fields: seq<Field>): Option<int> {
    if fields == [] then None
    else
      var front, f := fields[..|fields| - 1], fields[|fields| - 1];
      if !(f.BytesField? && f.number == 4 && Readable(f.data)) then LastError(front)
      else
        var d := ParseDataFrom(f.data, NO_DATA).value;
        if d.port == 5 && d.payload.Some? then ParseRoutingError(d.payload.value).value else LastError(front)
  }

  ghost predicate AllReadable(fields: seq<Field>) {
    forall i :: 0 <= i < |fields| && fields[i].BytesField? && fields[i].number == 4 ==> Readable(fields[i].data)
  }

  lemma TakeDataIs(p: Packet, data: Bytes)
    ensures TakeData(p, data).Some? <==> Readable(data)
    ensures Readable(data) ==>
              var d := ParseDataFrom(data, NO_DATA).value;
              TakeData(p, data) == Some(p.(
                port := d.port, payload := d.payload, requestId := d.requestId,
                routingError := if d.port == 5 && d.payload.Some? then ParseRoutingError(d.payload.value).value
                                else p.routingError))
  {
    hide ParseDataFrom, ParseRoutingError;
  }

  /** The members that are fields of their own. */
  ghost predicate OwnMembers(fields: seq<Field>, p: Packet) {
    && p.source == Or(LastFixed32(fields, 1), 0)
    && p.destination == Or(LastFixed32(fields, 2), 0xffff_ffff)
    && p.channel == IntOr(LastVarint(fields, 3), 0)
    && p.packetId == Or(LastFixed32(fields, 6), 0)
    && p.rxSnr == LastFixed32(fields, 8)
    && p.hopLimit == IntOr(LastVarint(fields, 9), 0)
    && p.rxRssi == (if LastVarint(fields, 12).Some? then Some(AsInt(LastVarint(fields, 12).value)) else None)
    && p.viaMqtt == BoolOf(LastVarint(fields, 14))
    && p.hopStart == IntOr(LastVarint(fields, 15), 0)
    && p.pkiEncrypted == BoolOf(LastVarint(fields, 17))
    && p.transportMechanism == IntOr(LastVarint(fields, 21), 0)
  }

  /** The members that come from the Data message, field 4. */
  ghost predicate DataMembersOf(fields: seq<Field>, p: Packet) {
    var data := LastBytes(fields, 4);
    && p.routingError == LastError(fields)
    && (data.None? ==> p.port == 0 && p.payload == None && p.requestId == 0)
    && (data.Some? ==>
          && Readable(data.value)
          && var d := ParseDataFrom(data.value, NO_DATA).value;
             p.port == d.port && p.payload == d.payload && p.requestId == d.requestId)
  }

  lemma LastSnoc(front: seq<Field>, f: Field, n: nat)
    ensures LastVarint(front + [f], n)
         == if f.VarintField? && f.number == n then Some(f.v) else LastVarint(front, n)
    ensures LastFixed32(front + [f], n)
         == if f.Fixed32Field? && f.number == n then Some(f.v) else LastFixed32(front, n)
    ensures LastBytes(front + [f], n)
         == if f.BytesField? && f.number == n then Some(f.data) else LastBytes(front, n)
  {
    assert (front + [f])[..|front|] == front;
  }

  /** The numbers that mean something, spelled out. */
  lemma SnocAll(front: seq<Field>, f: Field)
    ensures var all := front + [f];
      && (!f.VarintField? ==>
            && LastVarint(all, 3) == LastVarint(front, 3) && LastVarint(all, 9) == LastVarint(front, 9)
            && LastVarint(all, 12) == LastVarint(front, 12) && LastVarint(all, 14) == LastVarint(front, 14)
            && LastVarint(all, 15) == LastVarint(front, 15) && LastVarint(all, 17) == LastVarint(front, 17)
            && LastVarint(all, 21) == LastVarint(front, 21))
      && (!f.Fixed32Field? ==>
            && LastFixed32(all, 1) == LastFixed32(front, 1) && LastFixed32(all, 2) == LastFixed32(front, 2)
            && LastFixed32(all, 6) == LastFixed32(front, 6) && LastFixed32(all, 8) == LastFixed32(front, 8))
      && (!f.BytesField? ==> LastBytes(all, 4) == LastBytes(front, 4))
  {
    hide LastVarint, LastFixed32, LastBytes;
    LastSnoc(front, f, 1);
    LastSnoc(front, f, 2);
    LastSnoc(front, f, 3);
    LastSnoc(front, f, 4);
    LastSnoc(front, f, 6);
    LastSnoc(front, f, 8);
    LastSnoc(front, f, 9);
    LastSnoc(front, f, 12);
    LastSnoc(front, f, 14);
    LastSnoc(front, f, 15);
    LastSnoc(front, f, 17);
    LastSnoc(front, f, 21);
  }

  lemma ErrorSnoc(front: seq<Field>, f: Field)
    ensures LastError(front + [f])
         == if !(f.BytesField? && f.number == 4 && Readable(f.data)) then LastError(front)
            else
              var d := ParseDataFrom(f.data, NO_DATA).value;
              if d.port == 5 && d.payload.Some? then ParseRoutingError(d.payload.value).value else LastError(front)
  {
    hide Readable, ParseDataFrom, ParseRoutingError;
    assert (front + [f])[..|front|] == front;
  }

  /** One more varint field. */
  lemma VarintStep(front: seq<Field>, f: Field, p: Packet)
    requires f.VarintField? && OwnMembers(front, p) && DataMembersOf(front, p)
    ensures PacketStep(f, p).Some?
    ensures OwnMembers(front + [f], PacketStep(f, p).value) && DataMembersOf(front + [f], PacketStep(f, p).value)
  {
    hide LastVarint, LastFixed32, LastBytes, LastError, AsInt, Readable, ParseDataFrom, TakeData;
    SnocAll(front, f);
    ErrorSnoc(front, f);
    LastSnoc(front, f, 3);
    LastSnoc(front, f, 9);
    LastSnoc(front, f, 12);
    LastSnoc(front, f, 14);
    LastSnoc(front, f, 15);
    LastSnoc(front, f, 17);
    LastSnoc(front, f, 21);
    var q := PacketStep(f, p).value;
    hide PacketStep, KnownTag, SetVarint;
    VarintIs(f, p);
  }

  /** What a varint field sets. */
  lemma VarintIs(f: Field, p: Packet)
    requires f.VarintField?
    ensures PacketStep(f, p)
         == Some(if f.number == 3 then p.(channel := AsInt(f.v))
                 else if f.number == 9 then p.(hopLimit := AsInt(f.v))
                 else if f.number == 12 then p.(rxRssi := Some(AsInt(f.v)))
                 else if f.number == 14 then p.(viaMqtt := f.v != 0)
                 else if f.number == 15 then p.(hopStart := AsInt(f.v))
                 else if f.number == 17 then p.(pkiEncrypted := f.v != 0)
                 else if f.number == 21 then p.(transportMechanism := AsInt(f.v))
                 else p)
  {
    hide AsInt;
  }

  lemma FixedStep(front: seq<Field>, f: Field, p: Packet)
    requires (f.Fixed32Field? || f.Fixed64Field?) && OwnMembers(front, p) && DataMembersOf(front, p)
    ensures PacketStep(f, p).Some?
    ensures OwnMembers(front + [f], PacketStep(f, p).value) && DataMembersOf(front + [f], PacketStep(f, p).value)
  {
    hide LastVarint, LastFixed32, LastBytes, LastError, AsInt, Readable, ParseDataFrom, TakeData;
    SnocAll(front, f);
    ErrorSnoc(front, f);
    LastSnoc(front, f, 1);
    LastSnoc(front, f, 2);
    LastSnoc(front, f, 6);
    LastSnoc(front, f, 8);
  }

  lemma BytesStep(front: seq<Field>, f: Field, p: Packet)
    requires f.BytesField? && OwnMembers(front, p) && DataMembersOf(front, p)
    ensures PacketStep(f, p).Some? <==> (f.number == 4 ==> Readable(f.data))
    ensures PacketStep(f, p).Some? ==>
              OwnMembers(front + [f], PacketStep(f, p).value) && DataMembersOf(front + [f], PacketStep(f, p).value)
  {
    hide LastVarint, LastFixed32, LastBytes, LastError, AsInt, Readable, ParseDataFrom, ParseRoutingError, TakeData;
    SnocAll(front, f);
    LastSnoc(front, f, 4);
    ErrorSnoc(front, f);
    TakeDataIs(p, f.data);
  }

  lemma FoldSnoc(front: seq<Field>, f: Field, p: Packet)
    ensures PacketFold(front + [f], p)
         == if PacketFold(front, p).None? then None else PacketStep(f, PacketFold(front, p).value)
  {
    hide PacketStep;
    FoldAppend(front, [f], p);
    if PacketFold(front, p).Some? {
      FoldOne(f, PacketFold(front, p).value);
    }
  }

  /** Folding over any fields, in any order, unknown and repeated ones included. */
  lemma {:induction false} PacketMembers(fields: seq<Field>)
    ensures PacketFold(fields, NO_PACKET).Some? <==> AllReadable(fields)
    ensures AllReadable(fields) ==>
              var p := PacketFold(fields, NO_PACKET).value; OwnMembers(fields, p) && DataMembersOf(fields, p)
  {
    if fields != [] {
      hide PacketFold, PacketStep, OwnMembers, DataMembersOf, Readable;
      var n := |fields| - 1;
      var front, f := fields[..n], fields[n];
      assert fields == front + [f];
      PacketMembers(front);
      FoldSnoc(front, f, NO_PACKET);
      if AllReadable(front) {
        var p := PacketFold(front, NO_PACKET).value;
        if f.VarintField? {
          VarintStep(front, f, p);
        } else if f.BytesField? {
          BytesStep(front, f, p);
        } else {
          FixedStep(front, f, p);
        }
      }
    }
  }

  /**
   * A received packet, exactly. Take any well-formed fields in any order, unknown and repeated ones
   * included. The packet is malformed if and only if some Data message in it is; it is dropped if
   * and only if the last Data message has no payload; otherwise each member is the last field of its
   * number, or its default.
   */
  lemma ReceivedIs(fields: seq<Field>)
    requires AllWellFormed(fields)
    ensures var parsed := ParseMeshPacket(EncodeAll(fields));
      && (parsed.Malformed? <==> !AllReadable(fields))
      && (AllReadable(fields) ==>
            var data := LastBytes(fields, 4);
            && (parsed.NoPayload? <==>
                  data.None? || (Readable(data.value) && ParseDataFrom(data.value, NO_DATA).value.payload.None?))
            && (parsed.Parsed? ==> OwnMembers(fields, parsed.packet) && DataMembersOf(fields, parsed.packet)))
  {
    hide EncodeAll, PacketFold, ParsePacketFrom, OwnMembers, Readable;
    PacketMembers(fields);
    ParsePacketIsFold(fields, NO_PACKET);
  }

  // ---- Every packet can be received ----

  /** A member of its own field, left out when it is the default and `omit` says so. */
  function Part(omit: set<nat>, default: bool, f: Field): seq<Field> {
    if default && f.number in omit then [] else [f]
  }

  function BoolVarint(b: bool): nat {
    if b then 1 else 0
  }

  /** The ranges of the source's types. */
  predicate InRange(p: Packet) {
    && p.source < TWO32 && p.destination < TWO32 && p.packetId < TWO32 && p.requestId < TWO32
    && (p.rxSnr.Some? ==> p.rxSnr.value < TWO32)
    && IsInt(p.channel) && IsInt(p.port) && IsInt(p.hopLimit) && IsInt(p.hopStart) && IsInt(p.transportMechanism)
    && (p.rxRssi.Some? ==> IsInt(p.rxRssi.value))
    && (p.routingError.Some? ==> IsInt(p.routingError.value))
    && p.payload.Some? && |p.payload.value| <= MAX_INT
  }

  /** On port 5 the payload is a Routing message with the packet's error; elsewhere there is none. */
  ghost predicate ErrorFits(p: Packet, routing: seq<Field>) {
    if p.port != 5 then p.routingError == None
    else
      && AllWellFormed(routing) && p.payload == Some(EncodeAll(routing))
      && p.routingError == (if FirstVarint(routing, 3).Some? then Some(AsInt(FirstVarint(routing, 3).value)) else None)
  }

  function DataParts(p: Packet, omit: set<nat>): seq<Field>
    requires p.payload.Some?
  {
    Part(omit, p.port == 0, VarintField(1, AsLong(p.port))) + [BytesField(2, p.payload.value)] +
    Part(omit, p.requestId == 0, Fixed32Field(6, p.requestId))
  }

  function Optional32(number: nat, o: Option<nat>): seq<Field> {
    if o.Some? then [Fixed32Field(number, o.value)] else []
  }

  function OptionalInt(number: nat, o: Option<int>): seq<Field> {
    if o.Some? then [VarintField(number, AsLong(o.value))] else []
  }

  /** Every member under its field number; those in `omit` are left out when they are the default. */
  function PacketParts(p: Packet, data: Bytes, omit: set<nat>): seq<Field> {
    HeadParts(p, data, omit) + TailParts(p, omit)
  }

  function HeadParts(p: Packet, data: Bytes, omit: set<nat>): seq<Field> {
    FrontParts(p, omit) + [BytesField(4, data)] + MiddleParts(p, omit)
  }

  function FrontParts(p: Packet, omit: set<nat>): seq<Field> {
    Part(omit, p.source == 0, Fixed32Field(1, p.source)) +
    Part(omit, p.destination == 0xffff_ffff, Fixed32Field(2, p.destination)) +
    Part(omit, p.channel == 0, VarintField(3, AsLong(p.channel)))
  }

  function MiddleParts(p: Packet, omit: set<nat>): seq<Field> {
    Part(omit, p.packetId == 0, Fixed32Field(6, p.packetId)) + Optional32(8, p.rxSnr)
  }

  function TailParts(p: Packet, omit: set<nat>): seq<Field> {
    (Part(omit, p.hopLimit == 0, VarintField(9, AsLong(p.hopLimit))) +
     OptionalInt(12, p.rxRssi) +
     Part(omit, !p.viaMqtt, VarintField(14, BoolVarint(p.viaMqtt)))) +
    (Part(omit, p.hopStart == 0, VarintField(15, AsLong(p.hopStart))) +
     Part(omit, !p.pkiEncrypted, VarintField(17, BoolVarint(p.pkiEncrypted))) +
     Part(omit, p.transportMechanism == 0, VarintField(21, AsLong(p.transportMechanism))))
  }

  /** The fields of these numbers, in order. */
  function Only(fields: seq<Field>, numbers: set<nat>): seq<Field> {
    if fields == [] then []
    else
      Only(fields[..|fields| - 1], numbers) +
      (if fields[|fields| - 1].number in numbers then [fields[|fields| - 1]] else [])
  }

  /** Fields of other numbers do not matter. */
  lemma {:induction false} OnlyKeepsLast(fields: seq<Field>, numbers: set<nat>, n: nat)
    requires n in numbers
    ensures LastVarint(fields, n) == LastVarint(Only(fields, numbers), n)
    ensures LastFixed32(fields, n) == LastFixed32(Only(fields, numbers), n)
    ensures LastBytes(fields, n) == LastBytes(Only(fields, numbers), n)
  {
    if fields != [] {
      var k := |fields| - 1;
      OnlyKeepsLast(fields[..k], numbers, n);
      LastSnoc(Only(fields[..k], numbers), fields[k], n);
      assert Only(fields[..k], numbers) + [] == Only(fields[..k], numbers);
    }
  }

  lemma {:induction false} OnlyKeepsError(fields: seq<Field>, numbers: set<nat>)
    requires 4 in numbers
    ensures LastError(fields) == LastError(Only(fields, numbers))
    ensures AllReadable(fields) <==> AllReadable(Only(fields, numbers))
  {
    hide Readable, ParseDataFrom, ParseRoutingError;
    if fields != [] {
      var k := |fields| - 1;
      var front, kept := fields[..k], Only(fields[..k], numbers);
      assert fields == front + [fields[k]];
      OnlyKeepsError(front, numbers);
      ErrorSnoc(front, fields[k]);
      ErrorSnoc(kept, fields[k]);
      assert kept + [] == kept;
      ReadableSnoc(front, fields[k]);
      ReadableSnoc(kept, fields[k]);
    }
  }

  lemma ReadableSnoc(front: seq<Field>, f: Field)
    ensures AllReadable(front + [f]) <==>
              AllReadable(front) && (f.BytesField? && f.number == 4 ==> Readable(f.data))
  {
    hide Readable;
    var all := front + [f];
    assert all[|front|] == f;
    assert forall i :: 0 <= i < |front| ==> all[i] == front[i];
  }

  // ---- The members of the canonical form ----

  function Latest<T>(before: Option<T>, now: Option<T>): Option<T> {
    if now.Some? then now else before
  }

  lemma {:induction false} LastAppend(a: seq<Field>, b: seq<Field>, n: nat)
    ensures LastVarint(a + b, n) == Latest(LastVarint(a, n), LastVarint(b, n))
    ensures LastFixed32(a + b, n) == Latest(LastFixed32(a, n), LastFixed32(b, n))
    ensures LastBytes(a + b, n) == Latest(LastBytes(a, n), LastBytes(b, n))
    decreases |b|
  {
    if b == [] {
      assert a + b == a;
    } else {
      var k := |b| - 1;
      assert a + b == (a + b[..k]) + [b[k]] && b == b[..k] + [b[k]];
      LastAppend(a, b[..k], n);
      LastSnoc(a + b[..k], b[k], n);
      LastSnoc(b[..k], b[k], n);
    }
  }

  /** A part that is there or not. */
  lemma OneLast(present: bool, f: Field, n: nat)
    ensures var part := if present then [f] else [];
      && LastVarint(part, n) == (if present && f.VarintField? && f.number == n then Some(f.v) else None)
      && LastFixed32(part, n) == (if present && f.Fixed32Field? && f.number == n then Some(f.v) else None)
      && LastBytes(part, n) == (if present && f.BytesField? && f.number == n then Some(f.data) else None)
  {
    if present {
      assert [] + [f] == [f];
      LastSnoc([], f, n);
    }
  }

  /** Three parts one after the other. */
  lemma ThreeLast(a: seq<Field>, b: seq<Field>, c: seq<Field>, n: nat)
    ensures LastVarint(a + b + c, n) == Latest(Latest(LastVarint(a, n), LastVarint(b, n)), LastVarint(c, n))
    ensures LastFixed32(a + b + c, n) == Latest(Latest(LastFixed32(a, n), LastFixed32(b, n)), LastFixed32(c, n))
    ensures LastBytes(a + b + c, n) == Latest(Latest(LastBytes(a, n), LastBytes(b, n)), LastBytes(c, n))
  {
    hide LastVarint, LastFixed32, LastBytes, Latest;
    LastAppend(a, b, n);
    LastAppend(a + b, c, n);
  }

  /** Six parts, three and three. */
  lemma SixLast(
    a: seq<Field>, b: seq<Field>, c: seq<Field>, d: seq<Field>, e: seq<Field>, f: seq<Field>, n: nat)
    ensures var all := (a + b + c) + (d + e + f);
      && LastVarint(all, n)
         == Latest(Latest(Latest(LastVarint(a, n), LastVarint(b, n)), LastVarint(c, n)),
                   Latest(Latest(LastVarint(d, n), LastVarint(e, n)), LastVarint(f, n)))
      && LastFixed32(all, n)
         == Latest(Latest(Latest(LastFixed32(a, n), LastFixed32(b, n)), LastFixed32(c, n)),
                   Latest(Latest(LastFixed32(d, n), LastFixed32(e, n)), LastFixed32(f, n)))
      && LastBytes(all, n)
         == Latest(Latest(Latest(LastBytes(a, n), LastBytes(b, n)), LastBytes(c, n)),
                   Latest(Latest(LastBytes(d, n), LastBytes(e, n)), LastBytes(f, n)))
  {
    hide LastVarint, LastFixed32, LastBytes, Latest;
    ThreeLast(a, b, c, n);
    ThreeLast(d, e, f, n);
    LastAppend(a + b + c, d + e + f, n);
  }

  /** What field `n` of the canonical form holds. */
  lemma HeadLast(p: Packet, data: Bytes, omit: set<nat>, n: nat)
    ensures LastVarint(HeadParts(p, data, omit), n)
         == if n == 3 && !(p.channel == 0 && 3 in omit) then Some(AsLong(p.channel)) else None
    ensures LastFixed32(HeadParts(p, data, omit), n)
         == if n == 1 && !(p.source == 0 && 1 in omit) then Some(p.source)
            else if n == 2 && !(p.destination == 0xffff_ffff && 2 in omit) then Some(p.destination)
            else if n == 6 && !(p.packetId == 0 && 6 in omit) then Some(p.packetId)
            else if n == 8 then p.rxSnr else None
    ensures LastBytes(HeadParts(p, data, omit), n) == if n == 4 then Some(data) else None
  {
    hide LastVarint, LastFixed32, LastBytes, AsLong;
    OneLast(!(p.source == 0 && 1 in omit), Fixed32Field(1, p.source), n);
    OneLast(!(p.destination == 0xffff_ffff && 2 in omit), Fixed32Field(2, p.destination), n);
    OneLast(!(p.channel == 0 && 3 in omit), VarintField(3, AsLong(p.channel)), n);
    OneLast(true, BytesField(4, data), n);
    OneLast(!(p.packetId == 0 && 6 in omit), Fixed32Field(6, p.packetId), n);
    OneLast(p.rxSnr.Some?, Fixed32Field(8, Or(p.rxSnr, 0)), n);
    ThreeLast(
      Part(omit, p.source == 0, Fixed32Field(1, p.source)),
      Part(omit, p.destination == 0xffff_ffff, Fixed32Field(2, p.destination)),
      Part(omit, p.channel == 0, VarintField(3, AsLong(p.channel))), n);
    LastAppend(Part(omit, p.packetId == 0, Fixed32Field(6, p.packetId)), Optional32(8, p.rxSnr), n);
    ThreeLast(FrontParts(p, omit), [BytesField(4, data)], MiddleParts(p, omit), n);
  }

  lemma TailLast(p: Packet, omit: set<nat>, n: nat)
    ensures LastVarint(TailParts(p, omit), n)
         == if n == 9 && !(p.hopLimit == 0 && 9 in omit) then Some(AsLong(p.hopLimit))
            else if n == 12 && p.rxRssi.Some? then Some(AsLong(p.rxRssi.value))
            else if n == 14 && !(!p.viaMqtt && 14 in omit) then Some(BoolVarint(p.viaMqtt))
            else if n == 15 && !(p.hopStart == 0 && 15 in omit) then Some(AsLong(p.hopStart))
            else if n == 17 && !(!p.pkiEncrypted && 17 in omit) then Some(BoolVarint(p.pkiEncrypted))
            else if n == 21 && !(p.transportMechanism == 0 && 21 in omit) then Some(AsLong(p.transportMechanism))
            else None
    ensures LastFixed32(TailParts(p, omit), n) == None && LastBytes(TailParts(p, omit), n) == None
  {
    hide LastVarint, LastFixed32, LastBytes, AsLong, BoolVarint;
    OneLast(!(p.hopLimit == 0 && 9 in omit), VarintField(9, AsLong(p.hopLimit)), n);
    OneLast(p.rxRssi.Some?, VarintField(12, AsLong(Or(p.rxRssi, 0))), n);
    OneLast(!(!p.viaMqtt && 14 in omit), VarintField(14, BoolVarint(p.viaMqtt)), n);
    OneLast(!(p.hopStart == 0 && 15 in omit), VarintField(15, AsLong(p.hopStart)), n);
    OneLast(!(!p.pkiEncrypted && 17 in omit), VarintField(17, BoolVarint(p.pkiEncrypted)), n);
    OneLast(!(p.transportMechanism == 0 && 21 in omit), VarintField(21, AsLong(p.transportMechanism)), n);
    SixLast(
      Part(omit, p.hopLimit == 0, VarintField(9, AsLong(p.hopLimit))),
      OptionalInt(12, p.rxRssi),
      Part(omit, !p.viaMqtt, VarintField(14, BoolVarint(p.viaMqtt))),
      Part(omit, p.hopStart == 0, VarintField(15, AsLong(p.hopStart))),
      Part(omit, !p.pkiEncrypted, VarintField(17, BoolVarint(p.pkiEncrypted))),
      Part(omit, p.transportMechanism == 0, VarintField(21, AsLong(p.transportMechanism))), n);
  }

  lemma AllLast(p: Packet, data: Bytes, omit: set<nat>, n: nat)
    ensures var all := PacketParts(p, data, omit); var head, tail := HeadParts(p, data, omit), TailParts(p, omit);
      && LastVarint(all, n) == Latest(LastVarint(head, n), LastVarint(tail, n))
      && LastFixed32(all, n) == LastFixed32(head, n) && LastBytes(all, n) == LastBytes(head, n)
  {
    hide LastVarint, LastFixed32, LastBytes, HeadParts, TailParts;
    LastAppend(HeadParts(p, data, omit), TailParts(p, omit), n);
    TailLast(p, omit, n);
  }

  lemma IntBack(i: int, omitted: bool)
    requires IsInt(i) && (omitted ==> i == 0)
    ensures IntOr(if omitted then None else Some(AsLong(i)), 0) == i
  {
    hide AsInt, AsLong;
    IntSurvives(i);
  }

  /** The canonical form holds the members of its packet. */
  lemma PartsHoldMembers(p: Packet, data: Bytes, omit: set<nat>)
    requires InRange(p)
    ensures OwnMembers(PacketParts(p, data, omit), p) && LastBytes(PacketParts(p, data, omit), 4) == Some(data)
  {
    FixedParts(p, data, omit);
    VarintParts(p, data, omit);
    hide PacketParts, LastVarint, LastFixed32, LastBytes, AsInt, AsLong, IsInt;
    IntBack(p.channel, p.channel == 0 && 3 in omit);
    IntBack(p.hopLimit, p.hopLimit == 0 && 9 in omit);
    IntBack(p.hopStart, p.hopStart == 0 && 15 in omit);
    IntBack(p.transportMechanism, p.transportMechanism == 0 && 21 in omit);
    if p.rxRssi.Some? {
      IntSurvives(p.rxRssi.value);
    }
  }

  lemma FixedParts(p: Packet, data: Bytes, omit: set<nat>)
    ensures var all := PacketParts(p, data, omit);
      && LastFixed32(all, 1) == (if p.source == 0 && 1 in omit then None else Some(p.source))
      && LastFixed32(all, 2) == (if p.destination == 0xffff_ffff && 2 in omit then None else Some(p.destination))
      && LastFixed32(all, 6) == (if p.packetId == 0 && 6 in omit then None else Some(p.packetId))
      && LastFixed32(all, 8) == p.rxSnr
      && LastBytes(all, 4) == Some(data)
  {
    hide PacketParts, HeadParts, TailParts, LastVarint, LastFixed32, LastBytes, AsLong;
    AllLast(p, data, omit, 1);
    AllLast(p, data, omit, 2);
    AllLast(p, data, omit, 4);
    AllLast(p, data, omit, 6);
    AllLast(p, data, omit, 8);
    HeadLast(p, data, omit, 1);
    HeadLast(p, data, omit, 2);
    HeadLast(p, data, omit, 4);
    HeadLast(p, data, omit, 6);
    HeadLast(p, data, omit, 8);
  }

  lemma VarintAt(p: Packet, data: Bytes, omit: set<nat>, n: nat)
    ensures LastVarint(PacketParts(p, data, omit), n)
         == if n == 3 then (if p.channel == 0 && 3 in omit then None else Some(AsLong(p.channel)))
            else LastVarint(TailParts(p, omit), n)
  {
    hide PacketParts, HeadParts, TailParts, LastVarint, LastFixed32, LastBytes, AsLong;
    AllLast(p, data, omit, n);
    HeadLast(p, data, omit, n);
    TailLast(p, omit, n);
  }

  lemma VarintParts(p: Packet, data: Bytes, omit: set<nat>)
    ensures var all := PacketParts(p, data, omit);
      && LastVarint(all, 3) == (if p.channel == 0 && 3 in omit then None else Some(AsLong(p.channel)))
      && LastVarint(all, 9) == (if p.hopLimit == 0 && 9 in omit then None else Some(AsLong(p.hopLimit)))
      && LastVarint(all, 12) == (if p.rxRssi.None? then None else Some(AsLong(p.rxRssi.value)))
      && LastVarint(all, 14) == (if !p.viaMqtt && 14 in omit then None else Some(BoolVarint(p.viaMqtt)))
      && LastVarint(all, 15) == (if p.hopStart == 0 && 15 in omit then None else Some(AsLong(p.hopStart)))
      && LastVarint(all, 17) == (if !p.pkiEncrypted && 17 in omit then None else Some(BoolVarint(p.pkiEncrypted)))
      && LastVarint(all, 21)
         == (if p.transportMechanism == 0 && 21 in omit then None else Some(AsLong(p.transportMechanism)))
  {
    hide PacketParts, TailParts, LastVarint, AsLong, BoolVarint;
    VarintAt(p, data, omit, 3);
    VarintAt(p, data, omit, 9);
    VarintAt(p, data, omit, 12);
    VarintAt(p, data, omit, 14);
    VarintAt(p, data, omit, 15);
    VarintAt(p, data, omit, 17);
    VarintAt(p, data, omit, 21);
    TailLast(p, omit, 9);
    TailLast(p, omit, 12);
    TailLast(p, omit, 14);
    TailLast(p, omit, 15);
    TailLast(p, omit, 17);
    TailLast(p, omit, 21);
  }

  /** The Data message of the packet. */
  lemma DataPartsHold(p: Packet, omit: set<nat>, dataFields: seq<Field>)
    requires InRange(p) && AllWellFormed(dataFields) && Only(dataFields, {1, 2, 6}) == DataParts(p, omit)
    ensures ParseDataFrom(EncodeAll(dataFields), NO_DATA) == Got(Data(p.port, p.payload, p.requestId), [])
  {
    hide EncodeAll, ParseDataFrom, Only, DataFold, LastVarint, LastFixed32, LastBytes, AsInt, AsLong, IsInt;
    ParseDataIsFold(dataFields, NO_DATA);
    DataMembers(dataFields);
    OnlyKeepsLast(dataFields, {1, 2, 6}, 1);
    OnlyKeepsLast(dataFields, {1, 2, 6}, 2);
    OnlyKeepsLast(dataFields, {1, 2, 6}, 6);
    DataLast(p, omit, 1);
    DataLast(p, omit, 2);
    DataLast(p, omit, 6);
    IntBack(p.port, p.port == 0 && 1 in omit);
  }

  lemma DataLast(p: Packet, omit: set<nat>, n: nat)
    requires p.payload.Some?
    ensures LastVarint(DataParts(p, omit), n)
         == if n == 1 && !(p.port == 0 && 1 in omit) then Some(AsLong(p.port)) else None
    ensures LastBytes(DataParts(p, omit), n) == if n == 2 then p.payload else None
    ensures LastFixed32(DataParts(p, omit), n)
         == if n == 6 && !(p.requestId == 0 && 6 in omit) then Some(p.requestId) else None
  {
    hide LastVarint, LastFixed32, LastBytes, AsLong;
    var port := Part(omit, p.port == 0, VarintField(1, AsLong(p.port)));
    var payload := [BytesField(2, p.payload.value)];
    var request := Part(omit, p.requestId == 0, Fixed32Field(6, p.requestId));
    OneLast(!(p.port == 0 && 1 in omit), VarintField(1, AsLong(p.port)), n);
    OneLast(true, BytesField(2, p.payload.value), n);
    OneLast(!(p.requestId == 0 && 6 in omit), Fixed32Field(6, p.requestId), n);
    LastAppend(port, payload, n);
    LastAppend(port + payload, request, n);
  }

  // ---- The error of the canonical form ----

  /** No Data message among these. */
  ghost predicate NoDataAmong(fields: seq<Field>) {
    forall i :: 0 <= i < |fields| ==> !(fields[i].BytesField? && fields[i].number == 4)
  }

  lemma {:induction false} ErrorAppend(a: seq<Field>, b: seq<Field>)
    requires NoDataAmong(b)
    ensures LastError(a + b) == LastError(a)
    ensures AllReadable(a + b) <==> AllReadable(a)
    decreases |b|
  {
    hide Readable, ParseDataFrom, ParseRoutingError;
    if b == [] {
      assert a + b == a;
    } else {
      var k := |b| - 1;
      assert a + b == (a + b[..k]) + [b[k]];
      ErrorAppend(a, b[..k]);
      ErrorSnoc(a + b[..k], b[k]);
      ReadableSnoc(a + b[..k], b[k]);
    }
  }

  /** Whatever stands around the only Data message, the error is that message's. */
  lemma OnlyDataError(front: seq<Field>, data: Bytes, back: seq<Field>)
    requires Readable(data) && NoDataAmong(front) && NoDataAmong(back)
    ensures AllReadable((front + [BytesField(4, data)]) + back)
    ensures LastError((front + [BytesField(4, data)]) + back)
         == var d := ParseDataFrom(data, NO_DATA).value;
            if d.port == 5 && d.payload.Some? then ParseRoutingError(d.payload.value).value else None
  {
    hide Readable, ParseDataFrom, ParseRoutingError, LastError, AllReadable;
    assert [] + front == front;
    ErrorAppend([], front);
    NoErrorYet();
    ErrorSnoc(front, BytesField(4, data));
    ReadableSnoc(front, BytesField(4, data));
    ErrorAppend(front + [BytesField(4, data)], back);
  }

  lemma NoDataParts(p: Packet, omit: set<nat>)
    ensures NoDataAmong(FrontParts(p, omit)) && NoDataAmong(MiddleParts(p, omit) + TailParts(p, omit))
  {
    hide AsLong;
    NoDataTail(p, omit);
    hide TailParts;
  }

  lemma NoDataTail(p: Packet, omit: set<nat>)
    ensures NoDataAmong(TailParts(p, omit))
  {
    hide AsLong;
  }

  lemma PartsError(p: Packet, data: Bytes, omit: set<nat>)
    requires Readable(data)
    ensures AllReadable(PacketParts(p, data, omit))
    ensures LastError(PacketParts(p, data, omit))
         == var d := ParseDataFrom(data, NO_DATA).value;
            if d.port == 5 && d.payload.Some? then ParseRoutingError(d.payload.value).value else None
  {
    hide Readable, ParseDataFrom, ParseRoutingError, LastError, AllReadable, NoDataAmong;
    hide FrontParts, MiddleParts, TailParts;
    NoDataParts(p, omit);
    var front, back := FrontParts(p, omit), MiddleParts(p, omit) + TailParts(p, omit);
    assert PacketParts(p, data, omit) == (front + [BytesField(4, data)]) + back;
    OnlyDataError(front, data, back);
  }

  lemma NoErrorYet()
    ensures LastError([]) == None && AllReadable([])
  {
  }

  /**
   * Every packet with a payload can be received. Write each member under its field number (defaults
   * may be left out), the Data message likewise, on port 5 a Routing message with the error, and
   * insert any well-formed fields of other numbers anywhere in the packet and in its Data message:
   * parsing gives back exactly that packet.
   */
  lemma ReceivedRoundTrip(
    p: Packet, omit: set<nat>, routing: seq<Field>, fields: seq<Field>, dataFields: seq<Field>)
    requires InRange(p) && ErrorFits(p, routing) && AllWellFormed(fields) && AllWellFormed(dataFields)
    requires Only(dataFields, {1, 2, 6}) == DataParts(p, omit)
    requires Only(fields, {1, 2, 3, 4, 6, 8, 9, 12, 14, 15, 17, 21}) == PacketParts(p, EncodeAll(dataFields), omit)
    ensures ParseMeshPacket(EncodeAll(fields)) == Parsed(p)
  {
    hide EncodeAll, Only, PacketParts, DataParts, ParseMeshPacket, LastVarint, LastFixed32, LastBytes, LastError;
    hide IsInt, ParseDataFrom, ParseRoutingError, AllReadable;
    var data := EncodeAll(dataFields);
    DataPartsHold(p, omit, dataFields);
    if p.port == 5 {
      RoutingErrorIs(routing);
    }
    assert Readable(data);
    PartsHoldMembers(p, data, omit);
    PartsError(p, data, omit);
    KeepsAll(fields);
    OnlyKeepsError(fields, {1, 2, 3, 4, 6, 8, 9, 12, 14, 15, 17, 21});
    ReceivedIs(fields);
  }

  /** Leaving out fields of other numbers keeps every member. */
  lemma KeepsAll(fields: seq<Field>)
    ensures var kept := Only(fields, {1, 2, 3, 4, 6, 8, 9, 12, 14, 15, 17, 21});
      && LastBytes(fields, 4) == LastBytes(kept, 4)
      && forall p :: OwnMembers(fields, p) <==> OwnMembers(kept, p)
  {
    hide Only, LastVarint, LastFixed32, LastBytes, AsInt;
    var numbers: set<nat> := {1, 2, 3, 4, 6, 8, 9, 12, 14, 15, 17, 21};
    OnlyKeepsLast(fields, numbers, 1);
    OnlyKeepsLast(fields, numbers, 2);
    OnlyKeepsLast(fields, numbers, 3);
    OnlyKeepsLast(fields, numbers, 4);
    OnlyKeepsLast(fields, numbers, 6);
    OnlyKeepsLast(fields, numbers, 8);
    OnlyKeepsLast(fields, numbers, 9);
    OnlyKeepsLast(fields, numbers, 12);
    OnlyKeepsLast(fields, numbers, 14);
    OnlyKeepsLast(fields, numbers, 15);
    OnlyKeepsLast(fields, numbers, 17);
    OnlyKeepsLast(fields, numbers, 21);
  }

  /** A direct message with `pki_encrypted` set, as it comes over the air. */
  lemma ReceivedExample()
    ensures ParseMeshPacket([0x22, 0x05, 0x08, 0x4c, 0x12, 0x01, 0x41, 0x88, 0x01, 0x01])
         == Parsed(NO_PACKET.(port := 76, payload := Some([0x41]), pkiEncrypted := true))
  {
    var p := NO_PACKET.(port := 76, payload := Some([0x41]), pkiEncrypted := true);
    var data := [VarintField(1, 76), BytesField(2, [0x41])];
    var inner: Bytes := [0x08, 0x4c, 0x12, 0x01, 0x41];
    DataBytes(data);
    var fields := [BytesField(4, inner), VarintField(17, 1)];
    PacketBytesExample(fields, inner);
    DataMembers(data);
    ParseDataIsFold(data, NO_DATA);
    ReceivedIs(fields);
    SmallInt(76);
    hide ParseMeshPacket, ParseDataFrom, EncodeAll, AsInt;
    assert data == [VarintField(1, 76)] + [BytesField(2, [0x41])];
    assert fields == [BytesField(4, inner)] + [VarintField(17, 1)];
    ExampleLast(data, fields, inner);
    TakeReadable(fields, inner);
  }

  lemma DataBytes(data: seq<Field>)
    requires data == [VarintField(1, 76), BytesField(2, [0x41])]
    ensures EncodeAll(data) == [0x08, 0x4c, 0x12, 0x01, 0x41] && AllWellFormed(data)
  {
    assert data[1..] == [BytesField(2, [0x41])] && data[1..][1..] == [];
    assert EncodeAll([BytesField(2, [0x41])]) == [0x12, 0x01, 0x41];
  }

  lemma PacketBytesExample(fields: seq<Field>, inner: Bytes)
    requires inner == [0x08, 0x4c, 0x12, 0x01, 0x41] && fields == [BytesField(4, inner), VarintField(17, 1)]
    ensures EncodeAll(fields) == [0x22, 0x05, 0x08, 0x4c, 0x12, 0x01, 0x41, 0x88, 0x01, 0x01]
    ensures AllWellFormed(fields)
  {
    assert fields[1..] == [VarintField(17, 1)];
    FlagBytes();
    assert BytesField(4, inner).Encode() == [0x22, 0x05] + inner;
    hide Varint;
  }

  lemma FlagBytes()
    ensures EncodeAll([VarintField(17, 1)]) == [0x88, 0x01, 0x01]
  {
    assert [VarintField(17, 1)][1..] == [];
    assert Varint(136) == [0x88] + Varint(1);
  }

  lemma ExampleLast(data: seq<Field>, fields: seq<Field>, inner: Bytes)
    requires data == [VarintField(1, 76)] + [BytesField(2, [0x41])]
    requires fields == [BytesField(4, inner)] + [VarintField(17, 1)]
    ensures LastVarint(data, 1) == Some(76) && LastBytes(data, 2) == Some([0x41]) && LastFixed32(data, 6) == None
    ensures LastBytes(fields, 4) == Some(inner) && LastVarint(fields, 17) == Some(1)
    ensures forall n :: n in {3, 9, 12, 14, 15, 21} ==> LastVarint(fields, n) == None
    ensures forall n :: n in {1, 2, 6, 8} ==> LastFixed32(fields, n) == None
  {
    assert forall n :: LastVarint([], n) == None && LastFixed32([], n) == None && LastBytes([], n) == None;
    forall n ensures LastVarint(data, n) == (if n == 1 then Some(76) else None)
      && LastBytes(data, n) == (if n == 2 then Some([0x41]) else None) && LastFixed32(data, n) == None
      && LastBytes(fields, n) == (if n == 4 then Some(inner) else None)
      && LastVarint(fields, n) == (if n == 17 then Some(1) else None) && LastFixed32(fields, n) == None
    {
      hide LastVarint, LastBytes, LastFixed32;
      OneLast(true, VarintField(1, 76), n);
      OneLast(true, BytesField(4, inner), n);
      LastSnoc([VarintField(1, 76)], BytesField(2, [0x41]), n);
      LastSnoc([BytesField(4, inner)], VarintField(17, 1), n);
    }
  }

  lemma TakeReadable(fields: seq<Field>, inner: Bytes)
    requires fields == [BytesField(4, inner)] + [VarintField(17, 1)]
    requires ParseDataFrom(inner, NO_DATA).Got? && ParseDataFrom(inner, NO_DATA).value.port == 76
    ensures AllReadable(fields) && LastError(fields) == None && Readable(inner)
  {
    hide ParseDataFrom, ParseRoutingError;
    assert [] + [BytesField(4, inner)] == [BytesField(4, inner)];
    ErrorSnoc([], BytesField(4, inner));
    ErrorSnoc([BytesField(4, inner)], VarintField(17, 1));
    NoErrorYet();
  }
}
