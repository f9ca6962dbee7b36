/** The two-byte fragment header, the cutting of frames and the `REQ` message: `framing.py`. */
module Fragments {
  import opened Common

  /** `REQ` */
  const REQUEST_PREFIX: Bytes := [82, 69, 81]

  const MAX_FRAGMENTS := 127

  datatype Reason = Data | Repair | Retransmit

  datatype Transmission = Transmission(destination: string, payload: Bytes, reason: Reason)

  function SignedByte(b: Byte): int {
    if b < 128 then b else b - 256
  }

  function PackSigned(position: int): Byte {
    position % 256
  }

  function Abs(x: int): nat {
    if x < 0 then -x else x
  }

  /** A frame cut every `body` bytes. */
  function Chunks(frame: Bytes, body: nat): (chunks: seq<Bytes>)
    requires frame != [] && body >= 1
    ensures chunks != []
    ensures forall i :: 0 <= i < |chunks| ==> 1 <= |chunks[i]| <= body
    decreases |frame|
  {
    if |frame| <= body then [frame]
    else [frame[..body]] + Chunks(frame[body..], body)
  }

  lemma {:induction false} ChunksRejoin(frame: Bytes, body: nat)
    requires frame != [] && body >= 1
    ensures Flatten(Chunks(frame, body)) == frame
    decreases |frame|
  {
    if |frame| <= body {
      FlattenOne(frame);
    } else {
      ChunksRejoin(frame[body..], body);
      assert frame[..body] + frame[body..] == frame;
    }
  }

  lemma DivUp(n: nat, body: nat)
    requires 1 <= body
    ensures n >= body ==> (n + body - 1) / body == 1 + (n - body + body - 1) / body
    ensures 1 <= n <= body ==> (n + body - 1) / body == 1
  {
    if n >= 1 {
      DivUnique(n - 1, body, (n - 1) / body);
      DivUnique(n - 1 + body, body, (n - 1) / body + 1);
      if n <= body {
        DivUnique(n - 1, body, 0);
      }
    }
  }

  /** Number of fragments: the length divided by the body size, rounded up. */
  lemma {:induction false} ChunkCount(frame: Bytes, body: nat)
    requires frame != [] && body >= 1
    ensures |Chunks(frame, body)| == (|frame| + body - 1) / body
    decreases |frame|
  {
    DivUp(|frame|, body);
    if |frame| > body {
      ChunkCount(frame[body..], body);
    }
  }

  /** Chunk `i` is what stands at offset `i * body`. */
  lemma {:induction false} ChunkAt(frame: Bytes, body: nat, i: nat, offset: int)
    requires frame != [] && body >= 1 && i < |Chunks(frame, body)| && offset == i * body
    ensures 0 <= offset < |frame|
    ensures Chunks(frame, body)[i] == frame[offset..offset + Min(body, |frame| - offset)]
    decreases i
  {
    if i > 0 {
      var rest, before := frame[body..], offset - body;
      assert before == (i - 1) * body;
      ChunkAt(rest, body, i - 1, before);
      var size := Min(body, |rest| - before);
      assert rest[before..before + size] == frame[body + before..body + before + size];
    }
  }

  function WirePosition(position: nat, count: nat): int {
    if position == count then -(position as int) else position
  }

  /** Fragment `position` (counted from 1) of a frame sent under `index`. */
  function Fragment(frame: Bytes, body: nat, index: Byte, position: nat): Bytes
    requires frame != [] && body >= 1 && 1 <= position <= |Chunks(frame, body)|
  {
    var chunks := Chunks(frame, body);
    [index, PackSigned(WirePosition(position, |chunks|))] + chunks[position - 1]
  }

  function AllFragments(frame: Bytes, body: nat, index: Byte): (all: seq<Bytes>)
    requires frame != [] && body >= 1
    ensures |all| == |Chunks(frame, body)|
    ensures forall p :: 1 <= p <= |all| ==> all[p - 1] == Fragment(frame, body, index, p)
  {
    seq(|Chunks(frame, body)|, i requires 0 <= i < |Chunks(frame, body)| => Fragment(frame, body, index, i + 1))
  }

  function Request(index: Byte, position: int): Bytes {
    REQUEST_PREFIX + [index, PackSigned(position)]
  }

  predicate IsRequest(payload: Bytes) {
    |payload| >= 3 && payload[..3] == REQUEST_PREFIX
  }

  /** A fragment's header tells its index, its position and whether it is the last one. */
  lemma HeaderReadsBack(frame: Bytes, body: nat, index: Byte, position: nat)
    requires frame != [] && body >= 1
    requires 1 <= position <= |Chunks(frame, body)| <= MAX_FRAGMENTS
    ensures var f := Fragment(frame, body, index, position);
      && |f| >= 3
      && f[0] == index
      && SignedByte(f[1]) == WirePosition(position, |Chunks(frame, body)|)
      && f[2..] == Chunks(frame, body)[position - 1]
  {
  }

  /** Exactly when a data fragment is taken for a request: `R`, `E` as non-final position 69, then `Q`. */
  lemma LooksLikeRequestIff(frame: Bytes, body: nat, index: Byte, position: nat)
    requires frame != [] && body >= 1
    requires 1 <= position <= |Chunks(frame, body)| <= MAX_FRAGMENTS
    ensures IsRequest(Fragment(frame, body, index, position))
       <==> index == 82 && position == 69 && |Chunks(frame, body)| >= 70
            && Chunks(frame, body)[position - 1][0] == 81
  {
    var f := Fragment(frame, body, index, position);
    HeaderReadsBack(frame, body, index, position);
    assert f[..3] == [f[0], f[1], f[2]];
    assert f[2] == Chunks(frame, body)[position - 1][0];
  }

  /** Such a fragment exists: 70 bytes `Q` cut into single bytes under index 82. */
  lemma LookalikeExists()
    ensures var frame: Bytes := seq(70, i => 81);
      && |Chunks(frame, 1)| == 70
      && IsRequest(Fragment(frame, 1, 82, 69))
  {
    var frame: Bytes := seq(70, i => 81);
    ChunkCount(frame, 1);
    ChunkAt(frame, 1, 68, 68);
    LooksLikeRequestIff(frame, 1, 82, 69);
  }
}
