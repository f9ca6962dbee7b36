/** The writer, the reader and the packet methods of `ProtoCodec.java`. */
module ProtoCodec {
  import opened Common
  import Wire = ProtoWire
  import Spec = ProtoPackets

  class Writer {
    var written: Bytes

    constructor ()
      ensures written == []
    {
      written := [];
    }

    method PutVarint(value: nat)
      modifies this
      ensures written == old(written) + Wire.Varint(value)
    {
      var v := value;
      while v >= 128
        invariant written + Wire.Varint(v) == old(written) + Wire.Varint(value)
        decreases v
      {
        assert Wire.Varint(v) == [v % 128 + 128] + Wire.Varint(v / 128);
        written := written + [v % 128 + 128];
        v := v / 128;
      }
      written := written + [v];
    }

    method PutVarintField(field: nat, value: nat)
      modifies this
      ensures written == old(written) + Wire.VarintField(field, value).Encode()
    {
      PutVarint(field * 8);
      PutVarint(value);
    }

    method PutFixed32Field(field: nat, value: int)
      modifies this
      ensures written == old(written) + Wire.Fixed32Field(field, value % Wire.TWO32).Encode()
    {
      hide Wire.Varint;
      PutVarint(field * 8 + 5);
      var low := value % Wire.TWO32;
      written := written + [low % 256, low / 0x100 % 256, low / 0x1_0000 % 256, low / 0x100_0000];
    }

    method PutBytesField(field: nat, value: Bytes)
      modifies this
      ensures written == old(written) + Wire.BytesField(field, value).Encode()
    {
      hide Wire.Varint;
      PutVarint(field * 8 + 2);
      PutVarint(|value|);
      written := written + value;
      assert written == old(written) + (Wire.Varint(field * 8 + 2) + (Wire.Varint(|value|) + value));
    }
  }

  class Reader {
    const input: Bytes
    var position: nat

    ghost predicate Valid()
      reads this
    {
      position <= |input|
    }

    function Rest(): Bytes
      requires Valid()
      reads this
    {
      input[position..]
    }

    constructor (input: Bytes)
      ensures this.input == input && Valid() && position == 0 && Rest() == input
    {
      this.input, position := input, 0;
    }

    /** `None` stands for the exception. */
    method ReadVarint() returns (value: Option<nat>)
      requires Valid()
      modifies this`position
      ensures Valid() && position >= old(position)
      ensures var g := Wire.ReadVarint(old(Rest()));
        if value.None? then g.Bad? else g == Wire.Got(value.value, Rest())
    {
      hide Wire.ReadVarint;
      var at: nat;
      value, at := Decode(input, position);
      if value.Some? {
        position := at;
      }
    }

    /** The loop of `ReadVarint` from `start` on. */
    static method Decode(input: Bytes, start: nat) returns (value: Option<nat>, at: nat)
      requires start <= |input|
      ensures start <= at <= |input|
      ensures var g := Wire.ReadVarint(input[start..]);
        if value.None? then g.Bad? else g == Wire.Got(value.value, input[at..])
    {
      var groups: seq<nat> := [];
      at := start;
      ghost var goal := Wire.ReadGroups(input[at..], 0);
      assert Assemble([], goal) == goal;
      hide Wire.ReadGroups, Wire.LowBits, Assemble, Value;
      while |groups| < 10
        invariant start <= at <= |input| && |groups| <= 10
        invariant goal == Assemble(groups, Wire.ReadGroups(input[at..], |groups|))
        decreases 10 - |groups|
      {
        DecodeStep(groups, input[at..]);
        if at >= |input| {
          value := None;
          return;
        }
        var low := Wire.LowBits(input[at], |groups|);
        assert input[at..][1..] == input[at + 1..];
        if input[at] < 128 {
          value, at := Some(Value(groups + [low])), at + 1;
          return;
        }
        groups := groups + [low];
        at := at + 1;
      }
      DecodeStep(groups, input[at..]);
      value := None;
    }

    method ReadTag() returns (tag: Option<Wire.Tag>)
      requires Valid()
      modifies this`position
      ensures Valid() && position >= old(position)
      ensures var g := Wire.ReadTag(old(Rest()));
        if tag.None? then g.Bad? else g == Wire.Got(tag.value, Rest())
    {
      var v := ReadVarint();
      if v.None? || v.value == 0 || (Wire.MAX_INT < v.value && v.value < Wire.TWO63) {
        return None;
      }
      var low := v.value % Wire.TWO32;
      return Some(Wire.Tag(low / 8, low % 8));
    }

    method ReadFixed32() returns (value: Option<nat>)
      requires Valid()
      modifies this`position
      ensures Valid() && position >= old(position)
      ensures var g := Wire.ReadFixed32(old(Rest()));
        if value.None? then g.Bad? else g == Wire.Got(value.value, Rest())
    {
      if position + 4 > |input| {
        return None;
      }
      var v := Wire.FourBytes(input[position], input[position + 1], input[position + 2], input[position + 3]);
      position := position + 4;
      return Some(v);
    }

    method ReadBytes() returns (value: Option<Bytes>)
      requires Valid()
      modifies this`position
      ensures Valid() && position >= old(position)
      ensures var g := Wire.ReadBytes(old(Rest()));
        if value.None? then g.Bad? else g == Wire.Got(value.value, Rest())
    {
      hide Wire.ReadVarint, Wire.AsInt;
      var v := ReadVarint();
      if v.None? || (Wire.MAX_INT < v.value && v.value < Wire.TWO63) {
        return None;
      }
      var length := Wire.AsInt(v.value);
      if length < 0 || position + length > |input| {
        return None;
      }
      var bytes := input[position..position + length];
      assert bytes == Rest()[..length];
      position := position + length;
      return Some(bytes);
    }

    method Skip(wire: nat) returns (ok: bool)
      requires Valid()
      modifies this`position
      ensures Valid() && position >= old(position)
      ensures var g := Wire.Skip(old(Rest()), wire);
        if ok then g == Wire.Got((), Rest()) else g.Bad?
    {
      match wire
      case 0 =>
        var v := ReadVarint();
        return v.Some?;
      case 1 =>
        if position + 8 > |input| { return false; }
        position := position + 8;
        return true;
      case 2 =>
        var v := ReadVarint();
        if v.None? || v.value > Wire.MAX_INT || position + v.value > |input| { return false; }
        position := position + v.value;
        return true;
      case 5 =>
        if position + 4 > |input| { return false; }
        position := position + 4;
        return true;
      case _ =>
        return false;
    }
  }

  // ---- The groups read so far, put in front of what is still to come ----

  function Value(groups: seq<nat>): nat {
    if groups == [] then 0 else groups[0] + 128 * Value(groups[1..])
  }

  function Assemble(groups: seq<nat>, tail: Wire.Got<nat>): Wire.Got<nat> {
    if groups == [] then tail
    else
      var more := Assemble(groups[1..], tail);
      if more.Bad? then Wire.Bad else Wire.Got(groups[0] + 128 * more.value, more.rest)
  }

  lemma GroupStep(input: Bytes, k: nat)
    ensures Wire.ReadGroups(input, k)
         == (if k >= 10 || input == [] then Wire.Bad
             else
               var low := Wire.LowBits(input[0], k);
               if input[0] < 128 then Wire.Got(low, input[1..])
               else
                 var more := Wire.ReadGroups(input[1..], k + 1);
                 if more.Bad? then Wire.Bad else Wire.Got(low + 128 * more.value, more.rest))
  {
  }

  lemma {:induction false} AssembleBad(groups: seq<nat>)
    ensures Assemble(groups, Wire.Bad) == Wire.Bad
  {
    if groups != [] {
      AssembleBad(groups[1..]);
    }
  }

  lemma {:induction false} AssembleSnoc(groups: seq<nat>, low: nat, tail: Wire.Got<nat>)
    ensures Assemble(groups + [low], tail)
         == Assemble(groups, if tail.Bad? then Wire.Bad else Wire.Got(low + 128 * tail.value, tail.rest))
  {
    if groups == [] {
      assert groups + [low] == [low] && [low][1..] == [];
    } else {
      assert (groups + [low])[1..] == groups[1..] + [low];
      AssembleSnoc(groups[1..], low, tail);
    }
  }

  lemma {:induction false} AssembleGot(groups: seq<nat>, low: nat, rest: Bytes)
    ensures Assemble(groups, Wire.Got(low, rest)) == Wire.Got(Value(groups + [low]), rest)
  {
    if groups == [] {
      assert groups + [low] == [low] && [low][1..] == [];
      assert Value([low]) == low + 128 * Value([]);
    } else {
      assert (groups + [low])[1..] == groups[1..] + [low];
      AssembleGot(groups[1..], low, rest);
    }
  }

  /** What the next octet means for the groups read so far. */
  lemma DecodeStep(groups: seq<nat>, rest: Bytes)
    ensures rest == [] || |groups| >= 10 ==> Assemble(groups, Wire.ReadGroups(rest, |groups|)).Bad?
    ensures rest != [] && |groups| < 10 && rest[0] < 128 ==>
              Assemble(groups, Wire.ReadGroups(rest, |groups|))
              == Wire.Got(Value(groups + [Wire.LowBits(rest[0], |groups|)]), rest[1..])
    ensures rest != [] && |groups| < 10 && rest[0] >= 128 ==>
              Assemble(groups, Wire.ReadGroups(rest, |groups|))
              == Assemble(groups + [Wire.LowBits(rest[0], |groups|)], Wire.ReadGroups(rest[1..], |groups| + 1))
  {
    hide Wire.ReadGroups, Wire.LowBits, Assemble, Value;
    GroupStep(rest, |groups|);
    AssembleBad(groups);
    if rest != [] {
      var low := Wire.LowBits(rest[0], |groups|);
      AssembleGot(groups, low, rest[1..]);
      AssembleSnoc(groups, low, Wire.ReadGroups(rest[1..], |groups| + 1));
    }
  }

  // ---- Packets ----

  method EncodeData(okToMqtt: bool, payload: Bytes) returns (encoded: Bytes)
    ensures encoded == Wire.EncodeAll(Spec.DataFields(okToMqtt, payload))
  {
    assert Wire.EncodeAll([]) == [];
    hide Wire.EncodeAll;
    var data := new Writer();
    ghost var fields: seq<Wire.Field> := [];
    fields := AddVarint(data, fields, 1, Spec.RETICULUM_PORT);
    fields := AddBytes(data, fields, 2, payload);
    if okToMqtt {
      fields := AddVarint(data, fields, 9, Spec.OK_TO_MQTT);
    }
    assert fields == Spec.DataFields(okToMqtt, payload);
    return data.written;
  }

  lemma EncodeOne(f: Wire.Field)
    ensures Wire.EncodeAll([f]) == f.Encode()
  {
    assert [f][1..] == [];
  }

  lemma {:induction false} EncodeAppend(a: seq<Wire.Field>, b: seq<Wire.Field>)
    ensures Wire.EncodeAll(a + b) == Wire.EncodeAll(a) + Wire.EncodeAll(b)
  {
    if a == [] {
      assert a + b == b;
    } else {
      assert (a + b)[1..] == a[1..] + b;
      EncodeAppend(a[1..], b);
    }
  }

  lemma EncodeSnoc(a: seq<Wire.Field>, f: Wire.Field)
    ensures Wire.EncodeAll(a + [f]) == Wire.EncodeAll(a) + f.Encode()
  {
    EncodeAppend(a, [f]);
    EncodeOne(f);
  }

  method ToRadioPacket(
    source: int, destination: int, packetId: int, channel: int, hops: int, wantAck: bool, okToMqtt: bool,
    payload: Bytes)
    returns (encoded: Bytes)
    ensures encoded == Spec.ToRadio(
      Spec.PacketBytes(source, destination, packetId, channel, hops, wantAck, okToMqtt, payload))
  {
    var data := EncodeData(okToMqtt, payload);
    var packet := EncodePacket(source, destination, packetId, channel, hops, wantAck, data);
    var out := new Writer();
    out.PutBytesField(1, packet);
    EncodeOne(Wire.BytesField(1, packet));
    return out.written;
  }

  method EncodePacket(
    source: int, destination: int, packetId: int, channel: int, hops: int, wantAck: bool, data: Bytes)
    returns (encoded: Bytes)
    ensures encoded == Wire.EncodeAll(
      Spec.PacketFields(source, destination, packetId, channel, hops, wantAck, data))
  {
    var packet := new Writer();
    EncodeHead(packet, source, destination, packetId, channel, data);
    EncodeTail(packet, Spec.HeadFields(source, destination, packetId, channel, data), hops, wantAck);
    return packet.written;
  }

  method EncodeHead(packet: Writer, source: int, destination: int, packetId: int, channel: int, data: Bytes)
    requires packet.written == []
    modifies packet
    ensures packet.written == Wire.EncodeAll(Spec.HeadFields(source, destination, packetId, channel, data))
  {
    ghost var fields: seq<Wire.Field> := [];
    assert Wire.EncodeAll([]) == [];
    hide Wire.EncodeAll, Wire.AsLong;
    fields := AddFixed32(packet, fields, 1, source);
    fields := AddFixed32(packet, fields, 2, destination);
    if channel != 0 {
      fields := AddVarint(packet, fields, 3, Wire.AsLong(channel));
    }
    fields := AddBytes(packet, fields, 4, data);
    fields := AddFixed32(packet, fields, 6, packetId);
    assert fields == Spec.HeadFields(source, destination, packetId, channel, data);
  }

  method EncodeTail(packet: Writer, ghost head: seq<Wire.Field>, hops: int, wantAck: bool)
    requires packet.written == Wire.EncodeAll(head)
    modifies packet
    ensures packet.written == Wire.EncodeAll(head + Spec.TailFields(hops, wantAck))
  {
    hide Wire.EncodeAll, Wire.AsLong;
    ghost var fields := head;
    if hops != 0 {
      fields := AddVarint(packet, fields, 9, Wire.AsLong(hops));
    }
    if wantAck {
      fields := AddVarint(packet, fields, 10, 1);
    }
    fields := AddVarint(packet, fields, 11, Spec.PRIORITY_RELIABLE);
    if hops != 0 {
      fields := AddVarint(packet, fields, 15, Wire.AsLong(hops));
    }
    assert fields == head + Spec.TailFields(hops, wantAck);
  }

  /** One more field, with the list of fields written so far. */
  method AddVarint(out: Writer, ghost fields: seq<Wire.Field>, field: nat, value: nat)
    returns (ghost more: seq<Wire.Field>)
    requires out.written == Wire.EncodeAll(fields)
    modifies out
    ensures more == fields + [Wire.VarintField(field, value)] && out.written == Wire.EncodeAll(more)
  {
    out.PutVarintField(field, value);
    more := fields + [Wire.VarintField(field, value)];
    EncodeSnoc(fields, Wire.VarintField(field, value));
  }

  method AddFixed32(out: Writer, ghost fields: seq<Wire.Field>, field: nat, value: int)
    returns (ghost more: seq<Wire.Field>)
    requires out.written == Wire.EncodeAll(fields)
    modifies out
    ensures more == fields + [Wire.Fixed32Field(field, value % Wire.TWO32)] && out.written == Wire.EncodeAll(more)
  {
    out.PutFixed32Field(field, value);
    more := fields + [Wire.Fixed32Field(field, value % Wire.TWO32)];
    EncodeSnoc(fields, Wire.Fixed32Field(field, value % Wire.TWO32));
  }

  method AddBytes(out: Writer, ghost fields: seq<Wire.Field>, field: nat, value: Bytes)
    returns (ghost more: seq<Wire.Field>)
    requires out.written == Wire.EncodeAll(fields)
    modifies out
    ensures more == fields + [Wire.BytesField(field, value)] && out.written == Wire.EncodeAll(more)
  {
    out.PutBytesField(field, value);
    more := fields + [Wire.BytesField(field, value)];
    EncodeSnoc(fields, Wire.BytesField(field, value));
  }

  method ParseData(encoded: Bytes) returns (data: Option<Spec.Data>)
    ensures var g := Spec.ParseDataFrom(encoded, Spec.NO_DATA);
      if data.None? then g.Bad? else g.Got? && g.value == data.value
  {
    var reader := new Reader(encoded);
    var d := Spec.NO_DATA;
    while reader.position < |reader.input|
      invariant reader.Valid() && reader.input == encoded
      invariant Spec.ParseDataFrom(reader.Rest(), d) == Spec.ParseDataFrom(encoded, Spec.NO_DATA)
      decreases |encoded| - reader.position
    {
      ghost var before := reader.Rest();
      var tag := reader.ReadTag();
      if tag.None? {
        return None;
      }
      ghost var tagged := reader.Rest();
      assert |tagged| < |before|;
      var next := DataField(reader, tag.value, d);
      if next.None? {
        return None;
      }
      d := next.value;
    }
    return Some(d);
  }

  method DataField(reader: Reader, tag: Wire.Tag, d: Spec.Data) returns (next: Option<Spec.Data>)
    requires reader.Valid()
    modifies reader`position
    ensures reader.Valid() && reader.position >= old(reader.position)
    ensures var g := Spec.DataField(old(reader.Rest()), tag, d);
      if next.None? then g.Bad? else g == Wire.Got(next.value, reader.Rest())
  {
    if tag == Wire.Tag(1, 0) {
      var v := reader.ReadVarint();
      return if v.None? then None else Some(d.(port := Wire.AsInt(v.value)));
    } else if tag == Wire.Tag(2, 2) {
      var v := reader.ReadBytes();
      return if v.None? then None else Some(d.(payload := Some(v.value)));
    } else if tag == Wire.Tag(6, 5) {
      var v := reader.ReadFixed32();
      return if v.None? then None else Some(d.(requestId := v.value));
    } else {
      var ok := reader.Skip(tag.wire);
      return if ok then Some(d) else None;
    }
  }

  method ParseRoutingError(encoded: Bytes) returns (error: Option<Option<int>>)
    ensures var g := Spec.ParseRoutingError(encoded);
      if error.None? then g.Bad? else g.Got? && g.value == error.value
  {
    var reader := new Reader(encoded);
    while reader.position < |reader.input|
      invariant reader.Valid() && reader.input == encoded
      invariant var now, all := Spec.ParseRoutingError(reader.Rest()), Spec.ParseRoutingError(encoded);
        (now.Bad? <==> all.Bad?) && (now.Got? ==> now.value == all.value)
      decreases |encoded| - reader.position
    {
      ghost var before := reader.Rest();
      var tag := reader.ReadTag();
      if tag.None? {
        return None;
      }
      ghost var tagged := reader.Rest();
      assert |tagged| < |before|;
      if tag.value == Wire.Tag(3, 0) {
        var v := reader.ReadVarint();
        return if v.None? then None else Some(Some(Wire.AsInt(v.value)));
      }
      var ok := reader.Skip(tag.value.wire);
      if !ok {
        return None;
      }
    }
    return Some(None);
  }

  method TakeData(p: Spec.Packet, encoded: Bytes) returns (next: Option<Spec.Packet>)
    ensures next == Spec.TakeData(p, encoded)
  {
    var d := ParseData(encoded);
    if d.None? {
      return None;
    }
    var p1 := p.(port := d.value.port, payload := d.value.payload, requestId := d.value.requestId);
    if d.value.port == Spec.ROUTING_PORT && d.value.payload.Some? {
      var e := ParseRoutingError(d.value.payload.value);
      return if e.None? then None else Some(p1.(routingError := e.value));
    }
    return Some(p1);
  }

  method PacketField(reader: Reader, tag: Wire.Tag, p: Spec.Packet) returns (next: Option<Spec.Packet>)
    requires reader.Valid()
    modifies reader`position
    ensures reader.Valid() && reader.position >= old(reader.position)
    ensures var g := Spec.PacketField(old(reader.Rest()), tag, p);
      if next.None? then g.Bad? else g == Wire.Got(next.value, reader.Rest())
  {
    if !Spec.KnownTag(tag) {
      var ok := reader.Skip(tag.wire);
      return if ok then Some(p) else None;
    } else if tag.wire == 0 {
      var v := reader.ReadVarint();
      return if v.None? then None else Spec.SetVarint(p, tag.field, v.value);
    } else if tag.wire == 5 {
      var v := reader.ReadFixed32();
      return if v.None? then None else Spec.SetFixed32(p, tag.field, v.value);
    } else {
      var v := reader.ReadBytes();
      if v.None? {
        return None;
      }
      next := TakeData(p, v.value);
    }
  }

  method ParseMeshPacket(encoded: Bytes) returns (parsed: Spec.Parsed)
    ensures parsed == Spec.ParseMeshPacket(encoded)
  {
    var reader := new Reader(encoded);
    var p := Spec.NO_PACKET;
    while reader.position < |reader.input|
      invariant reader.Valid() && reader.input == encoded
      invariant Spec.ParsePacketFrom(reader.Rest(), p) == Spec.ParsePacketFrom(encoded, Spec.NO_PACKET)
      decreases |encoded| - reader.position
    {
      ghost var before := reader.Rest();
      var tag := reader.ReadTag();
      if tag.None? {
        return Spec.Malformed;
      }
      ghost var tagged := reader.Rest();
      assert |tagged| < |before|;
      var next := PacketField(reader, tag.value, p);
      if next.None? {
        return Spec.Malformed;
      }
      p := next.value;
    }
    return if p.payload.None? then Spec.NoPayload else Spec.Parsed(p);
  }
}
