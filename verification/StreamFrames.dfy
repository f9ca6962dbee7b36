/** PhoneAPI serial/TCP framing, 0x94 0xc3 and a big-endian length: `StreamFrameCodec.java`. */
module StreamFrames {
  import opened Common
  import opened ByteMachines

  const START1: Byte := 0x94
  const START2: Byte := 0xc3
  const MAX_PAYLOAD := 512

  /** The wire form of one payload; the encoder refuses anything above 512 bytes. */
  function Encoding(payload: Bytes): Option<Bytes> {
    if |payload| > MAX_PAYLOAD then None
    else Some(Header(|payload|) + payload)
  }

  function Header(n: nat): Bytes
    requires n <= MAX_PAYLOAD
  {
    [START1, START2, n / 256, n % 256]
  }

  datatype State = State(state: nat, length: nat, payload: Bytes)

  const INITIAL := State(0, 0, [])

  function Step(s: State, value: Byte): Fed<State, Bytes> {
    match s.state
    case 0 => Fed(if value == START1 then s.(state := 1) else s, [])
    case 1 =>
      Fed(if value == START2 then s.(state := 2) else if value != START1 then s.(state := 0) else s, [])
    case 2 => Fed(s.(length := value * 256, state := 3), [])
    case 3 =>
      var length := s.length + value;
      if length > MAX_PAYLOAD then Fed(State(0, length, []), [])
      else if length == 0 then Fed(State(0, length, []), [[]])
      else Fed(State(4, length, []), [])
    case _ =>
      var payload := s.payload + [value];
      if |payload| == s.length then Fed(State(0, s.length, []), [payload])
      else Fed(s.(payload := payload), [])
  }

  /** No place in `noise` looks like the start of a packet. */
  ghost predicate NoSync(noise: Bytes) {
    forall i :: 0 <= i < |noise| - 1 ==> !(noise[i] == START1 && noise[i + 1] == START2)
  }

  lemma {:induction false} FeedNoise(s: State, noise: Bytes)
    requires s.state == 0 && NoSync(noise)
    ensures Feed(Step, s, noise).emitted == []
    ensures Feed(Step, s, noise).state.state == (if noise != [] && noise[|noise| - 1] == START1 then 1 else 0)
  {
    if noise != [] {
      FeedNoise(s, noise[..|noise| - 1]);
    }
  }

  /** The wire form: two start bytes, the length with its high byte first, then the payload. */
  lemma EncodingIs(payload: Bytes)
    ensures |payload| > 512 <==> Encoding(payload).None?
    ensures |payload| <= 512 ==>
              var b := Encoding(payload).value;
              && |b| == 4 + |payload| && b[0] == 0x94 && b[1] == 0xc3
              && 256 * b[2] as int + b[3] as int == |payload| && b[4..] == payload
  {
    if |payload| <= 512 {
      assert (Header(|payload|) + payload)[4..] == payload;
    }
  }

  /** A header that announces more than 512 bytes is dropped and the hunt for a start goes on. */
  lemma OversizedHeader(s: State, high: Byte, low: Byte)
    requires s.state <= 1 && 256 * high as int + low as int > 512
    ensures Feed(Step, s, [0x94, 0xc3, high, low]) == Fed(State(0, 256 * high as int + low as int, []), [])
  {
    hide Feed;
    var s1, s2, s3 := s.(state := 1), s.(state := 2), s.(state := 3, length := high as int * 256);
    assert [0x94, 0xc3, high, low] == [START1] + ([START2] + ([high] + [low]));
    FeedAppend(Step, s, [START1], [START2] + ([high] + [low]));
    FeedAppend(Step, s1, [START2], [high] + [low]);
    FeedAppend(Step, s2, [high], [low]);
    FeedOne(Step, s, START1);
    FeedOne(Step, s1, START2);
    FeedOne(Step, s2, high);
    FeedOne(Step, s3, low);
  }

  lemma FeedHeader(s: State, n: nat)
    requires s.state <= 1 && n <= MAX_PAYLOAD
    ensures Feed(Step, s, Header(n)) == (if n == 0 then Fed(State(0, 0, []), [[]]) else Fed(State(4, n, []), []))
  {
    hide Feed;
    var s1 := s.(state := 1);
    var s2 := s.(state := 2);
    var s3 := s.(state := 3, length := n / 256 * 256);
    assert Header(n) == [START1] + ([START2] + ([n / 256] + [n % 256]));
    FeedAppend(Step, s, [START1], [START2] + ([n / 256] + [n % 256]));
    FeedAppend(Step, s1, [START2], [n / 256] + [n % 256]);
    FeedAppend(Step, s2, [n / 256], [n % 256]);
    FeedOne(Step, s, START1);
    FeedOne(Step, s1, START2);
    FeedOne(Step, s2, n / 256);
    FeedOne(Step, s3, n % 256);
  }

  lemma {:induction false} FeedBody(n: nat, part: Bytes)
    requires |part| < n
    ensures Feed(Step, State(4, n, []), part) == Fed(State(4, n, part), [])
  {
    if part != [] {
      FeedBody(n, part[..|part| - 1]);
      assert part[..|part| - 1] + [part[|part| - 1]] == part;
    }
  }

  lemma FeedWholeBody(payload: Bytes)
    requires payload != []
    ensures Feed(Step, State(4, |payload|, []), payload) == Fed(State(0, |payload|, []), [payload])
  {
    hide Feed;
    var n := |payload|;
    var part, last := payload[..n - 1], payload[n - 1];
    FeedBody(n, part);
    FeedOne(Step, State(4, n, part), last);
    assert part + [last] == payload;
    FeedSilently(Step, State(4, n, []), part, [last]);
  }

  /** One encoded payload, met while the decoder is hunting for a start, yields exactly that payload. */
  lemma FeedEncoding(s: State, payload: Bytes)
    requires s.state <= 1 && |payload| <= MAX_PAYLOAD
    ensures Feed(Step, s, Encoding(payload).value) == Fed(State(0, |payload|, []), [payload])
  {
    hide Feed, Header;
    var n := |payload|;
    FeedHeader(s, n);
    if n == 0 {
      assert Header(n) + payload == Header(n);
    } else {
      FeedWholeBody(payload);
      FeedSilently(Step, s, Header(n), payload);
    }
  }

  /** A payload with the noise that precedes it on the line. */
  datatype Item = Item(noise: Bytes, payload: Bytes)

  ghost predicate Clean(items: seq<Item>) {
    forall i :: 0 <= i < |items| ==> NoSync(items[i].noise) && |items[i].payload| <= MAX_PAYLOAD
  }

  ghost function Line(items: seq<Item>): Bytes
    requires Clean(items)
  {
    if items == [] then []
    else items[0].noise + Encoding(items[0].payload).value + Line(items[1..])
  }

  function Payloads(items: seq<Item>): seq<Bytes> {
    if items == [] then [] else [items[0].payload] + Payloads(items[1..])
  }

  /** Noise, then one encoded payload, then whatever follows. */
  lemma FeedItem(s: State, item: Item, rest: Bytes)
    requires s.state == 0 && NoSync(item.noise) && |item.payload| <= MAX_PAYLOAD
    ensures var after := State(0, |item.payload|, []);
      Feed(Step, s, item.noise + Encoding(item.payload).value + rest)
      == Fed(Feed(Step, after, rest).state, [item.payload] + Feed(Step, after, rest).emitted)
  {
    hide Feed, NoSync, Header;
    var code := Encoding(item.payload).value;
    FeedNoise(s, item.noise);
    FeedEncoding(Feed(Step, s, item.noise).state, item.payload);
    FeedSilently(Step, s, item.noise, code);
    FeedAppend(Step, s, item.noise + code, rest);
  }

  lemma {:induction false} FeedLine(s: State, items: seq<Item>)
    requires Clean(items) && s.state == 0
    ensures Feed(Step, s, Line(items)).emitted == Payloads(items)
    ensures Feed(Step, s, Line(items)).state.state == 0
    decreases items
  {
    hide Feed, Encoding, NoSync;
    FeedNone(Step, s);
    if items != [] {
      FeedItem(s, items[0], Line(items[1..]));
      FeedLine(State(0, |items[0].payload|, []), items[1..]);
    }
  }

  /**
   * Any run of encoded payloads, each preceded by noise in which 0x94 is never followed by
   * 0xc3, cut into reads anywhere, decodes to exactly those payloads in order.
   */
  lemma RoundTrip(items: seq<Item>, chunks: seq<Bytes>)
    requires Clean(items)
    requires Flatten(chunks) == Line(items)
    ensures FeedChunks(Step, INITIAL, chunks).emitted == Payloads(items)
  {
    FeedChunksIsFeed(Step, INITIAL, chunks);
    FeedLine(INITIAL, items);
  }

  class StreamFrameCodec {
    var state: nat
    var length: nat
    var payload: Bytes

    function View(): State
      reads this
    {
      State(state, length, payload)
    }

    constructor ()
      ensures View() == INITIAL
    {
      state, length, payload := 0, 0, [];
    }

    static method Encode(protobuf: Bytes) returns (framed: Option<Bytes>)
      ensures framed == Encoding(protobuf)
    {
      if |protobuf| > MAX_PAYLOAD {
        return None;
      }
      var buffer := new Byte[|protobuf| + 4](_ => 0);
      buffer[0] := START1;
      buffer[1] := START2;
      buffer[2] := |protobuf| / 256;
      buffer[3] := |protobuf| % 256;
      ghost var header := Header(|protobuf|);
      assert buffer[..4] == header;
      hide Header;
      for i := 0 to |protobuf|
        invariant buffer[..4] == header
        invariant buffer[4..4 + i] == protobuf[..i]
      {
        buffer[4 + i] := protobuf[i];
      }
      assert buffer[4..4 + |protobuf|] == protobuf by {
        assert protobuf[..|protobuf|] == protobuf;
      }
      assert buffer[..] == buffer[..4] + buffer[4..4 + |protobuf|];
      return Some(buffer[..]);
    }

    method FeedBytes(input: Bytes) returns (packets: seq<Bytes>)
      modifies this
      ensures View() == Feed(Step, old(View()), input).state
      ensures packets == Feed(Step, old(View()), input).emitted
    {
      packets := [];
      for i := 0 to |input|
        invariant Fed(View(), packets) == Feed(Step, old(View()), input[..i])
      {
        var value := input[i];
        assert input[..i + 1][..i] == input[..i];
        match state {
          case 0 =>
            if value == START1 { state := 1; }
          case 1 =>
            if value == START2 { state := 2; } else if value != START1 { state := 0; }
          case 2 =>
            length := (value as int) * 256;
            state := 3;
          case 3 =>
            length := length + value;
            payload := [];
            if length > MAX_PAYLOAD {
              state := 0;
            } else if length == 0 {
              packets := packets + [[]];
              state := 0;
            } else {
              state := 4;
            }
          case _ =>
            payload := payload + [value];
            if |payload| == length {
              packets := packets + [payload];
              payload := [];
              state := 0;
            }
        }
      }
      assert input[..|input|] == input;
    }
  }
}
