/**
 * The protobuf subset of `ProtoCodec.java`: wire primitives and packet parsing. A Java `long`
 * is its unsigned 64-bit value; readers work on the bytes not yet read.
 */
module ProtoWire {
  import opened Common

  const TWO31 := 0x8000_0000
  const TWO32 := 0x1_0000_0000
  const TWO63 := 0x8000_0000_0000_0000
  const TWO64 := 0x1_0000_0000_0000_0000
  const MAX_INT := 0x7fff_ffff

  /** `(int) value` */
  function AsInt(v: nat): int {
    var low := v % TWO32;
    if low >= TWO31 then low - TWO32 else low
  }

  /** `(long) value`, sign extended. */
  function AsLong(i: int): nat {
    i % TWO64
  }

  predicate IsInt(i: int) {
    -TWO31 <= i < TWO31
  }

  lemma IntSurvives(i: int)
    requires IsInt(i)
    ensures AsLong(i) < TWO64 && AsInt(AsLong(i)) == i
  {
    if i < 0 {
      assert i % TWO64 == i + TWO64;
      assert (i + TWO64) % TWO32 == (i + TWO32) % TWO32 by {
        assert i + TWO64 == (i + TWO32) + (TWO32 - 1) * TWO32;
        ModPlus(i + TWO32, TWO32 - 1, TWO32);
      }
    }
  }

  lemma ModPlus(a: nat, k: nat, d: nat)
    requires d > 0
    ensures (a + k * d) % d == a % d
  {
    DivUnique(a, d, a / d);
    var q := a / d + k;
    assert q * d == a / d * d + k * d;
    DivUnique(a + k * d, d, q);
  }

  // ---- Writing ----

  function Varint(v: nat): (b: Bytes)
    ensures b != []
  {
    if v < 128 then [v] else [v % 128 + 128] + Varint(v / 128)
  }

  /** The low 32 bits, little end first. */
  function Fixed32(v: int): Bytes {
    var low := v % TWO32;
    [low % 256, low / 0x100 % 256, low / 0x1_0000 % 256, low / 0x100_0000]
  }

  /** A field as the wire format knows it. */
  datatype Field =
    | VarintField(number: nat, v: nat)
    | Fixed64Field(number: nat, raw: Bytes)
    | BytesField(number: nat, data: Bytes)
    | Fixed32Field(number: nat, v: nat)
  {
    function Wire(): nat {
      match this
      case VarintField(_, _) => 0
      case Fixed64Field(_, _) => 1
      case BytesField(_, _) => 2
      case Fixed32Field(_, _) => 5
    }

    predicate WellFormed() {
      && 1 <= number < 0x1000_0000
      && match this
         case VarintField(_, v) => v < TWO64
         case Fixed64Field(_, raw) => |raw| == 8
         case BytesField(_, data) => |data| <= MAX_INT
         case Fixed32Field(_, v) => v < TWO32
    }

    function Body(): Bytes {
      match this
      case VarintField(_, v) => Varint(v)
      case Fixed64Field(_, raw) => raw
      case BytesField(_, data) => Varint(|data|) + data
      case Fixed32Field(_, v) => Fixed32(v)
    }

    function Encode(): Bytes {
      Varint(number * 8 + Wire()) + Body()
    }
  }

  function EncodeAll(fields: seq<Field>): Bytes {
    if fields == [] then [] else fields[0].Encode() + EncodeAll(fields[1..])
  }

  ghost predicate AllWellFormed(fields: seq<Field>) {
    forall i :: 0 <= i < |fields| ==> fields[i].WellFormed()
  }

  // ---- Reading ----

  datatype Got<+T> = Got(value: T, rest: Bytes) | Bad

  /** What group number `k` of a varint adds; of the tenth only one bit fits a long. */
  function LowBits(value: Byte, k: nat): nat {
    if k == 9 then value % 2 else value % 128
  }

  /** Group number `k` and those after it. */
  function ReadGroups(input: Bytes, k: nat): (g: Got<nat>)
    ensures g.Got? ==> |g.rest| < |input|
    decreases 10 - k
  {
    if k >= 10 || input == [] then Bad
    else
      var low := LowBits(input[0], k);
      if input[0] < 128 then Got(low, input[1..])
      else
        var more := ReadGroups(input[1..], k + 1);
        if more.Bad? then Bad else Got(low + 128 * more.value, more.rest)
  }

  function ReadVarint(input: Bytes): (g: Got<nat>)
    ensures g.Got? ==> |g.rest| < |input|
  {
    ReadGroups(input, 0)
  }

  datatype Tag = Tag(field: nat, wire: nat)

  /** Too big as a positive `long`; a negative one passes the comparison and is truncated. */
  predicate AboveInt(v: nat) {
    MAX_INT < v < TWO63
  }

  function ReadTag(input: Bytes): (g: Got<Tag>)
    ensures g.Got? ==> |g.rest| < |input|
  {
    var g := ReadVarint(input);
    if g.Bad? || g.value == 0 || AboveInt(g.value) then Bad
    else
      var low := g.value % TWO32;
      Got(Tag(low / 8, low % 8), g.rest)
  }

  function FourBytes(a: int, b: int, c: int, d: int): int {
    a + 0x100 * b + 0x1_0000 * c + 0x100_0000 * d
  }

  function ReadFixed32(input: Bytes): (g: Got<nat>)
    ensures g.Got? ==> |g.rest| < |input|
  {
    if |input| < 4 then Bad
    else Got(FourBytes(input[0], input[1], input[2], input[3]), input[4..])
  }

  function ReadBytes(input: Bytes): (g: Got<Bytes>)
    ensures g.Got? ==> |g.rest| < |input|
  {
    var g := ReadVarint(input);
    if g.Bad? || AboveInt(g.value) then Bad
    else
      var length := AsInt(g.value);
      if length < 0 || length > |g.rest| then Bad else Got(g.rest[..length], g.rest[length..])
  }

  function SkipBytes(input: Bytes, count: nat): (g: Got<()>)
    ensures g.Got? ==> |g.rest| <= |input|
  {
    if count > |input| then Bad else Got((), input[count..])
  }

  function Skip(input: Bytes, wire: nat): (g: Got<()>)
    ensures g.Got? ==> |g.rest| <= |input|
  {
    match wire
    case 0 => (var g := ReadVarint(input); if g.Bad? then Bad else Got((), g.rest))
    case 1 => SkipBytes(input, 8)
    case 2 => (var g := ReadVarint(input); if g.Bad? || g.value > MAX_INT then Bad else SkipBytes(g.rest, g.value))
    case 5 => SkipBytes(input, 4)
    case _ => Bad
  }

  // ---- The primitives invert each other ----

  /** What a varint may still hold from group `k` on. */
  function Capacity(k: nat): nat
    requires k <= 9
    decreases 9 - k
  {
    if k == 9 then 2 else 128 * Capacity(k + 1)
  }

  lemma CapacityIsLong()
    ensures Capacity(0) == TWO64
  {
    assert Capacity(7) == 2 * 128 * 128;
    assert Capacity(5) == 128 * 128 * Capacity(7);
    assert Capacity(3) == 128 * 128 * Capacity(5);
    assert Capacity(1) == 128 * 128 * Capacity(3);
  }

  lemma {:induction false} GroupsInvert(v: nat, rest: Bytes, k: nat)
    requires k <= 9 && v < Capacity(k)
    ensures ReadGroups(Varint(v) + rest, k) == Got(v, rest)
    decreases v
  {
    var input := Varint(v) + rest;
    if v < 128 {
      assert input[1..] == rest;
    } else {
      assert k < 9;
      assert input[1..] == Varint(v / 128) + rest;
      GroupsInvert(v / 128, rest, k + 1);
    }
  }

  lemma VarintInverts(v: nat, rest: Bytes)
    requires v < TWO64
    ensures ReadVarint(Varint(v) + rest) == Got(v, rest)
  {
    CapacityIsLong();
    GroupsInvert(v, rest, 0);
  }

  lemma TagInverts(field: nat, wire: nat, rest: Bytes)
    requires 1 <= field < 0x1000_0000 && wire < 8
    ensures ReadTag(Varint(field * 8 + wire) + rest) == Got(Tag(field, wire), rest)
  {
    hide Varint, ReadVarint;
    var tag := field * 8 + wire;
    SmallInt(tag);
    VarintInverts(tag, rest);
    assert tag / 8 == field && tag % 8 == wire;
  }

  lemma SmallInt(v: nat)
    requires v <= MAX_INT
    ensures v % TWO32 == v && AsInt(v) == v && !AboveInt(v) && v < TWO64
  {
  }

  lemma Fixed32Inverts(v: int, rest: Bytes)
    ensures ReadFixed32(Fixed32(v) + rest) == Got(v % TWO32, rest)
  {
    var input := Fixed32(v) + rest;
    assert input[4..] == rest;
    var low := v % TWO32;
    SplitBytes(low);
    assert ReadFixed32(input).value == FourBytes(low % 256, low / 0x100 % 256, low / 0x1_0000 % 256, low / 0x100_0000);
  }

  lemma SplitBytes(low: nat)
    requires low < TWO32
    ensures FourBytes(low % 256, low / 0x100 % 256, low / 0x1_0000 % 256, low / 0x100_0000) == low
  {
    var q := low / 0x100;
    DivTwice(low, 0x100, 0x100);
    DivTwice(low, 0x1_0000, 0x100);
    assert low == q * 0x100 + low % 256;
    assert q == q / 0x100 * 0x100 + q % 256;
  }

  lemma DivTwice(x: nat, a: nat, b: nat)
    requires a > 0 && b > 0 && a * b > 0
    ensures x / (a * b) == x / a / b
  {
    var q := x / a;
    DivUnique(x, a, q);
    DivUnique(q, b, q / b);
    var k := q / b;
    assert k * (a * b) == (k * b) * a;
    MulMonotone(k * b, q, a);
    MulMonotone(q + 1, k * b + b, a);
    assert (k * b + b) * a == k * (a * b) + a * b;
    assert (q + 1) * a == q * a + a;
    DivUnique(x, a * b, k);
  }

  lemma BytesInvert(data: Bytes, rest: Bytes)
    requires |data| <= MAX_INT
    ensures ReadBytes(Varint(|data|) + data + rest) == Got(data, rest)
  {
    hide Varint, ReadVarint, AsInt, AboveInt;
    SmallInt(|data|);
    assert Varint(|data|) + data + rest == Varint(|data|) + (data + rest);
    VarintInverts(|data|, data + rest);
    assert (data + rest)[..|data|] == data && (data + rest)[|data|..] == rest;
  }

  /** Skipping a field's body by its wire type ends exactly behind it. */
  lemma SkipInverts(f: Field, rest: Bytes)
    requires f.WellFormed()
    ensures Skip(f.Body() + rest, f.Wire()) == Got((), rest)
  {
    hide Varint, ReadVarint;
    match f
    case VarintField(_, v) => VarintInverts(v, rest);
    case Fixed64Field(_, raw) => assert (raw + rest)[8..] == rest;
    case BytesField(_, data) =>
      assert Varint(|data|) + data + rest == Varint(|data|) + (data + rest);
      VarintInverts(|data|, data + rest);
      assert (data + rest)[|data|..] == rest;
    case Fixed32Field(_, v) => assert (Fixed32(v) + rest)[4..] == rest;
  }
}
