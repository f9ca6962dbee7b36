/** What a reader that knows only the wire format finds in the bytes `ProtoCodec.java` writes and reads. */
module ProtoSent {
  import opened Common
  import opened ProtoWire
  import opened ProtoPackets

  // ---- The bytes of numbers ----

  /** Groups of seven bits, the least significant first. */
  function Base128(groups: Bytes): nat {
    if groups == [] then 0 else groups[0] % 128 + 128 * Base128(groups[1..])
  }

  /** Every group but the last announces another one. */
  ghost predicate Continued(groups: Bytes) {
    && groups != [] && groups[|groups| - 1] < 128
    && forall i :: 0 <= i < |groups| - 1 ==> groups[i] >= 128
  }

  /** The varint of a number is its base 128 form, without superfluous groups. */
  lemma {:induction false} VarintForm(v: nat)
    ensures Continued(Varint(v)) && Base128(Varint(v)) == v
    ensures |Varint(v)| > 1 ==> Varint(v)[|Varint(v)| - 1] > 0
    decreases v
  {
    if v < 128 {
      assert Base128([]) == 0;
      assert [v][1..] == [];
    } else {
      VarintForm(v / 128);
      var more := Varint(v / 128);
      assert Varint(v)[1..] == more;
      assert forall i :: 1 <= i < |Varint(v)| ==> Varint(v)[i] == more[i - 1];
    }
  }

  lemma ModSplit(low: nat, x: nat, c: nat)
    requires low < 128 && c > 0
    ensures (low + 128 * x) % (128 * c) == low + 128 * (x % c)
  {
    DivUnique(x, c, x / c);
    var q := x / c;
    assert x == q * c + x % c;
    assert low + 128 * x == q * (128 * c) + (low + 128 * (x % c));
    var r := low + 128 * (x % c);
    assert r < 128 * c;
    ModPlus(r, q, 128 * c);
    DivUnique(r, 128 * c, 0);
  }

  lemma {:induction false} GroupsAre(groups: Bytes, rest: Bytes, k: nat)
    requires k <= 9 && Continued(groups) && |groups| <= 10 - k
    ensures Capacity(k) > 0 && ReadGroups(groups + rest, k) == Got(Base128(groups) % Capacity(k), rest)
    decreases |groups|
  {
    hide Base128, Capacity, LowBits;
    var input := groups + rest;
    CapacityBound(k);
    if |groups| == 1 {
      assert input[1..] == rest;
      LastGroup(groups, k);
    } else {
      assert input[1..] == groups[1..] + rest;
      GroupsAre(groups[1..], rest, k + 1);
      MoreGroups(groups, k);
    }
  }

  lemma LastGroup(groups: Bytes, k: nat)
    requires k <= 9 && |groups| == 1 && groups[0] < 128
    ensures Capacity(k) > 0 && Base128(groups) % Capacity(k) == LowBits(groups[0], k)
  {
    CapacityBound(k);
    assert Base128(groups) == groups[0] by { assert groups[1..] == []; }
    if k < 9 {
      DivUnique(groups[0], Capacity(k), 0);
    }
  }

  /** The first of several groups is kept whole; cutting to what fits concerns the others. */
  lemma MoreGroups(groups: Bytes, k: nat)
    requires k < 9 && groups != []
    ensures Capacity(k) > 0 && Capacity(k + 1) > 0
    ensures Base128(groups) % Capacity(k) == LowBits(groups[0], k) + 128 * (Base128(groups[1..]) % Capacity(k + 1))
  {
    CapacityBound(k);
    CapacityBound(k + 1);
    ModSplit(groups[0] % 128, Base128(groups[1..]), Capacity(k + 1));
  }

  lemma CapacityBound(k: nat)
    requires k <= 9
    ensures Capacity(k) >= 2 && (k < 9 ==> Capacity(k) >= 128)
    decreases 9 - k
  {
    if k < 9 {
      CapacityBound(k + 1);
    }
  }

  lemma {:induction false} GroupsTooLong(input: Bytes, k: nat)
    requires k <= 10 && forall i :: 0 <= i < |input| && i < 10 - k ==> input[i] >= 128
    ensures ReadGroups(input, k).Bad?
    decreases 10 - k
  {
    if k < 10 && input != [] {
      GroupsTooLong(input[1..], k + 1);
    }
  }

  /**
   * Reading a varint from any input: the groups up to the first one below 128, if that is among the
   * first ten, give their base 128 value, cut to 64 bits; otherwise the input is malformed.
   */
  lemma ReadVarintIs(groups: Bytes, rest: Bytes)
    ensures Continued(groups) && |groups| <= 10 ==> ReadVarint(groups + rest) == Got(Base128(groups) % TWO64, rest)
    ensures (forall i :: 0 <= i < |groups| && i < 10 ==> groups[i] >= 128) ==> ReadVarint(groups).Bad?
  {
    CapacityIsLong();
    if Continued(groups) && |groups| <= 10 {
      GroupsAre(groups, rest, 0);
    }
    if forall i :: 0 <= i < |groups| && i < 10 ==> groups[i] >= 128 {
      GroupsTooLong(groups, 0);
    }
  }

  /** Four bytes, the least significant first, of a number cut to 32 bits. */
  lemma Fixed32Form(v: int)
    ensures var b := Fixed32(v);
      |b| == 4 && b[0] as int + 256 * b[1] as int + 65536 * b[2] as int + 16777216 * b[3] as int == v % 4294967296
  {
    SplitBytes(v % TWO32);
  }

  /** `(int)` keeps the low 32 bits and reads them as a signed number. */
  lemma AsIntIs(v: nat)
    ensures -0x8000_0000 <= AsInt(v) < 0x8000_0000 && (v - AsInt(v)) % 0x1_0000_0000 == 0
  {
    var q := v / TWO32;
    DivUnique(v, TWO32, q);
    assert v - v % TWO32 == q * TWO32 + 0;
    ModPlus(0, q, TWO32);
    ModPlus(0, q + 1, TWO32);
  }

  /**
   * A tag is any varint but zero and those of 2^31 up to 2^63 - 1; its low 32 bits are eight times the
   * field number plus the wire type.
   */
  lemma ReadTagIs(input: Bytes)
    ensures var g, tag := ReadVarint(input), ReadTag(input);
      && (tag.Bad? <==> g.Bad? || g.value == 0 || 0x8000_0000 <= g.value < 0x8000_0000_0000_0000)
      && (tag.Got? ==>
            && tag.rest == g.rest && tag.value.wire < 8
            && 8 * tag.value.field + tag.value.wire == g.value % 0x1_0000_0000)
  {
    hide ReadVarint;
  }

  /**
   * Length-delimited data. Reading takes lengths below 2^31 and, because only then the length is cut
   * to an `int`, also those of 2^63 and above whose low 32 bits are such a number.
   */
  lemma ReadBytesIs(input: Bytes)
    ensures var g, data := ReadVarint(input), ReadBytes(input);
      (if g.Bad? || 0x8000_0000 <= g.value < 0x8000_0000_0000_0000 then data.Bad?
       else
         var n := g.value % 0x1_0000_0000;
         if n >= 0x8000_0000 || n > |g.rest| then data.Bad?
         else data == Got(g.rest[..n], g.rest[n..]))
  {
    hide ReadVarint;
  }

  /** Skipping, by wire type; of length-delimited data exactly the length, which must be below 2^31. */
  lemma SkipIs(input: Bytes, wire: nat)
    ensures wire == 0 ==>
              (Skip(input, 0).Got? <==> ReadVarint(input).Got?) &&
              (Skip(input, 0).Got? ==> Skip(input, 0).rest == ReadVarint(input).rest)
    ensures wire == 1 ==> Skip(input, 1) == if |input| < 8 then Bad else Got((), input[8..])
    ensures wire == 5 ==> Skip(input, 5) == if |input| < 4 then Bad else Got((), input[4..])
    ensures wire == 2 ==>
              var g := ReadVarint(input);
              Skip(input, 2)
              == if g.Bad? || g.value >= 0x8000_0000 || g.value > |g.rest| then Bad else Got((), g.rest[g.value..])
    ensures wire !in {0, 1, 2, 5} ==> Skip(input, wire).Bad?
  {
    hide ReadVarint;
  }

  /** So data is read and skipped alike, except for lengths of 2^63 and above, which are only read. */
  lemma SkipReadsAlikeIff(input: Bytes)
    ensures var data, skipped := ReadBytes(input), Skip(input, 2);
      (data.Got? <==> skipped.Got?) && (data.Got? ==> data.rest == skipped.rest)
      <==> !(data.Got? && ReadVarint(input).value >= 0x8000_0000_0000_0000)
  {
    hide ReadVarint, ReadBytes, Skip;
    ReadBytesIs(input);
    SkipIs(input, 2);
  }

  // ---- A reader that knows no messages ----

  /** Reads every field, whatever it means. */
  function ReadFields(input: Bytes): Option<seq<Field>>
    decreases |input|
  {
    if input == [] then Some([])
    else
      var tag := ReadTag(input);
      if tag.Bad? then None
      else
        var f := ReadField(tag.rest, tag.value);
        if f.Bad? then None
        else
          var more := ReadFields(f.rest);
          if more.None? then None else Some([f.value] + more.value)
  }

  function ReadField(input: Bytes, tag: Tag): (g: Got<Field>)
    ensures g.Got? ==> |g.rest| <= |input|
  {
    match tag.wire
    case 0 => (var g := ReadVarint(input); if g.Bad? then Bad else Got(VarintField(tag.field, g.value), g.rest))
    case 1 => if |input| < 8 then Bad else Got(Fixed64Field(tag.field, input[..8]), input[8..])
    case 2 => (var g := ReadBytes(input); if g.Bad? then Bad else Got(BytesField(tag.field, g.value), g.rest))
    case 5 => (var g := ReadFixed32(input); if g.Bad? then Bad else Got(Fixed32Field(tag.field, g.value), g.rest))
    case _ => Bad
  }

  lemma ReadFieldInverts(f: Field, rest: Bytes)
    requires f.WellFormed()
    ensures ReadField(f.Body() + rest, Tag(f.number, f.Wire())) == Got(f, rest)
  {
    hide Varint, Fixed32, ReadVarint, ReadFixed32, ReadBytes;
    match f
    case VarintField(_, v) => VarintInverts(v, rest);
    case Fixed64Field(_, raw) => assert (raw + rest)[..8] == raw && (raw + rest)[8..] == rest;
    case BytesField(_, data) => BytesInvert(data, rest);
    case Fixed32Field(_, v) => Fixed32Inverts(v, rest);
  }

  /** It gets back the fields written, in order. */
  lemma {:induction false} ReadFieldsInverts(fields: seq<Field>)
    requires AllWellFormed(fields)
    ensures ReadFields(EncodeAll(fields)) == Some(fields)
    decreases |fields|
  {
    if fields != [] {
      hide Varint, ReadTag, ReadField;
      var f, rest := fields[0], EncodeAll(fields[1..]);
      EncodedHead(f, rest);
      ReadFieldInverts(f, rest);
      ReadFieldsInverts(fields[1..]);
      assert [f] + fields[1..] == fields;
    }
  }

  // ---- The packet sent ----

  /** A Java `int` as an unsigned 64-bit number. */
  function Unsigned64(i: int): int {
    if i < 0 then i + 0x1_0000_0000_0000_0000 else i
  }

  lemma Unsigned64Is(i: int)
    requires IsInt(i)
    ensures AsLong(i) == Unsigned64(i)
  {
  }

  /** The fields of the Data message. */
  lemma SentData(okToMqtt: bool, payload: Bytes)
    requires |payload| <= MAX_INT
    ensures ReadFields(EncodeAll(DataFields(okToMqtt, payload))) == Some(
      [VarintField(1, 76), BytesField(2, payload)] + (if okToMqtt then [VarintField(9, 1)] else []))
  {
    ReadFieldsInverts(DataFields(okToMqtt, payload));
    hide EncodeAll, ReadFields;
  }

  /** The fields of the packet, in ascending order. */
  lemma SentPacket(
    source: int, destination: int, packetId: int, channel: int, hops: int, wantAck: bool, data: Bytes)
    requires IsInt(channel) && IsInt(hops) && |data| <= MAX_INT
    ensures ReadFields(EncodeAll(PacketFields(source, destination, packetId, channel, hops, wantAck, data))) == Some(
      [Fixed32Field(1, source % 0x1_0000_0000), Fixed32Field(2, destination % 0x1_0000_0000)] +
      (if channel != 0 then [VarintField(3, Unsigned64(channel))] else []) +
      [BytesField(4, data), Fixed32Field(6, packetId % 0x1_0000_0000)] + (
      (if hops != 0 then [VarintField(9, Unsigned64(hops))] else []) +
      (if wantAck then [VarintField(10, 1)] else []) +
      [VarintField(11, 70)] +
      (if hops != 0 then [VarintField(15, Unsigned64(hops))] else [])))
  {
    WrittenFieldsWellFormed(source, destination, packetId, channel, hops, wantAck, data);
    ReadFieldsInverts(PacketFields(source, destination, packetId, channel, hops, wantAck, data));
    hide EncodeAll, ReadFields, AsLong, Unsigned64;
    Unsigned64Is(channel);
    Unsigned64Is(hops);
  }

  /**
   * What a message to the radio holds: one packet and nothing else; in that packet addresses, id and
   * priority 70 always, channel and hop fields exactly when they are not zero, the wish for an
   * acknowledgement exactly when it is wanted; and in field 4 the Data message with port 76, the
   * payload, and the MQTT permission exactly when it is given.
   */
  lemma SentFields(
    source: int, destination: int, packetId: int, channel: int, hops: int, wantAck: bool, okToMqtt: bool,
    payload: Bytes)
    requires IsInt(channel) && IsInt(hops) && |payload| <= MAX_INT
    requires |EncodeAll(DataFields(okToMqtt, payload))| <= MAX_INT
    requires |PacketBytes(source, destination, packetId, channel, hops, wantAck, okToMqtt, payload)| <= MAX_INT
    ensures var data := EncodeAll(DataFields(okToMqtt, payload));
      var packet := PacketBytes(source, destination, packetId, channel, hops, wantAck, okToMqtt, payload);
      && ReadFields(ToRadio(packet)) == Some([BytesField(1, packet)])
      && ReadFields(packet) == Some(
           [Fixed32Field(1, source % 0x1_0000_0000), Fixed32Field(2, destination % 0x1_0000_0000)] +
           (if channel != 0 then [VarintField(3, Unsigned64(channel))] else []) +
           [BytesField(4, data), Fixed32Field(6, packetId % 0x1_0000_0000)] + (
           (if hops != 0 then [VarintField(9, Unsigned64(hops))] else []) +
           (if wantAck then [VarintField(10, 1)] else []) +
           [VarintField(11, 70)] +
           (if hops != 0 then [VarintField(15, Unsigned64(hops))] else [])))
      && ReadFields(data) == Some(
           [VarintField(1, 76), BytesField(2, payload)] + (if okToMqtt then [VarintField(9, 1)] else []))
  {
    hide EncodeAll, ReadFields, AsLong, Unsigned64, PacketFields, DataFields;
    SentData(okToMqtt, payload);
    SentPacket(
      source, destination, packetId, channel, hops, wantAck, EncodeAll(DataFields(okToMqtt, payload)));
    ReadFieldsInverts(
      [BytesField(1, PacketBytes(source, destination, packetId, channel, hops, wantAck, okToMqtt, payload))]);
  }
}
