/** The admission limits computed by the constructor of `BridgeEngine.java`. */
module Admission {
  import opened Common
  import opened Fragments
  import opened SchedulerSpec
  import F = FragmentSpec

  const MAX_QUEUED_FRAMES := 8
  const MAX_QUEUE_HORIZON_MILLIS := 8_000
  const MAX_SERIALIZED_DRAIN_MILLIS := 90_000
  const MAX_SERIALIZED_RNS_BYTES := 8192

  function FragmentQueueLimit(intervalMillis: int): (n: nat)
    ensures 4 <= n <= 256
  {
    if intervalMillis <= 0 then 256
    else Max(4, Min(256, MAX_QUEUE_HORIZON_MILLIS / intervalMillis))
  }

  /** Fragments of a frame of this many bytes. */
  function FragmentCount(bytes: nat, body: nat): nat
    requires body >= 1
  {
    Max(1, (bytes + body - 1) / body)
  }

  predicate Fits(bytes: nat, body: nat, maxFragments: nat, maxBytes: int)
    requires body >= 1
  {
    FragmentCount(bytes, body) <= maxFragments && bytes + 2 * FragmentCount(bytes, body) <= maxBytes
  }

  /** The largest length that fits, or zero. */
  ghost predicate IsLimit(limit: nat, body: nat, maxFragments: nat, maxBytes: int)
    requires body >= 1
  {
    && limit <= maxFragments * body
    && (limit > 0 ==> Fits(limit, body, maxFragments, maxBytes))
    && forall b :: limit < b <= maxFragments * body ==> !Fits(b, body, maxFragments, maxBytes)
  }

  /** The downward search. */
  method CompleteFrameByteLimit(body: nat, maxFragments: nat, maxBytes: int) returns (limit: nat)
    requires body >= 1
    ensures IsLimit(limit, body, maxFragments, maxBytes)
  {
    var bytes: int := maxFragments * body;
    while bytes >= 0
      invariant -1 <= bytes <= maxFragments * body
      invariant forall b :: bytes < b <= maxFragments * body && b >= 0 ==> !Fits(b, body, maxFragments, maxBytes)
    {
      if Fits(bytes, body, maxFragments, maxBytes) {
        return bytes;
      }
      bytes := bytes - 1;
    }
    return 0;
  }

  datatype Engine = Engine(
    body: nat, maxQueuedFragments: nat, reserved: nat, maxDataFragments: nat,
    maxSerializedFragments: nat, scheduler: Limits)
  {
    function MaxDataBytes(): int { scheduler.max.bytes - scheduler.reserve.bytes }
    function MaxSerializedBytes(): int { maxSerializedFragments * (body + 2) }
  }

  predicate Configured(body: nat, intervalMillis: int) {
    1 <= body <= 230 && 0 <= intervalMillis <= 60_000
  }

  /** The constructor's formulas. */
  function EngineLimits(body: nat, intervalMillis: int): (l: Engine)
    requires Configured(body, intervalMillis)
    ensures l.scheduler.Valid()
    ensures l.body == body && 1 <= l.maxDataFragments <= l.maxQueuedFragments - l.reserved
  {
    var queued := FragmentQueueLimit(intervalMillis);
    var reserved := Max(1, Min(2, queued / 4));
    var dataFragments := Min(127, queued - reserved);
    var durationFragments :=
      if intervalMillis <= 0 then 127 else Max(dataFragments, MAX_SERIALIZED_DRAIN_MILLIS / intervalMillis);
    var sizeFragments := Max(1, (MAX_SERIALIZED_RNS_BYTES + body - 1) / body);
    MulStrict(reserved, queued, body + 2);
    Engine(
      body, queued, reserved, dataFragments,
      Max(0, Min(127, Min(durationFragments, sizeFragments))),
      Limits(
        Use(MAX_QUEUED_FRAMES, queued, queued * (body + 2)),
        Use(2, reserved, reserved * (body + 2)),
        intervalMillis * MILLI, 0))
  }

  lemma MulStrict(a: nat, b: nat, d: nat)
    requires a < b && d >= 1
    ensures 0 <= a * d < b * d
  {
    assert b * d == a * d + (b - a) * d;
    assert (b - a) * d >= 1 * d by { MulMonotone(1, b - a, d); }
  }

  /**
   * The queue is the largest of 4 to 256 fragments that is sent within eight seconds, and four
   * fragments when not even those are.
   */
  lemma QueueHorizon(intervalMillis: int)
    ensures var n := FragmentQueueLimit(intervalMillis);
      && 4 <= n <= 256
      && (n > 4 ==> n * intervalMillis <= 8000)
      && (n < 256 ==> (n + 1) * intervalMillis > 8000)
  {
    if intervalMillis > 0 {
      var q := MAX_QUEUE_HORIZON_MILLIS / intervalMillis;
      DivUnique(MAX_QUEUE_HORIZON_MILLIS, intervalMillis, q);
      var n := FragmentQueueLimit(intervalMillis);
      if n > 4 {
        MulMonotone(n, q, intervalMillis);
      }
      if n < 256 {
        MulMonotone(q + 1, n + 1, intervalMillis);
      }
      assert (q + 1) * intervalMillis == q * intervalMillis + intervalMillis;
    } else {
      assert 256 * intervalMillis <= 0;
    }
  }

  /** A number of fragments that may be sent as one serialized frame. */
  predicate Serializable(n: nat, body: nat, intervalMillis: int, dataFragments: nat) {
    n <= 127 && (n - 1) * body < 8192 && (n <= dataFragments || n * intervalMillis <= 90_000)
  }

  /**
   * What the scheduler of the engine is given: eight frames and the fragments of the queue, of which
   * two frames and one or two fragments are kept for repairs; every fragment with two bytes of header;
   * and for serialized frames the largest number of fragments that the wire index, the 8192 bytes and
   * the ninety seconds allow.
   */
  lemma EngineLimitsAre(body: nat, intervalMillis: int)
    requires Configured(body, intervalMillis)
    ensures var l := EngineLimits(body, intervalMillis);
      var n := FragmentQueueLimit(intervalMillis); var kept := if n < 8 then 1 else 2;
      && l.scheduler.max == Use(8, n, n * (body + 2))
      && l.scheduler.reserve == Use(2, kept, kept * (body + 2))
      && l.scheduler.intervalNanos == 1_000_000 * intervalMillis && l.scheduler.announceNanos == 0
      && l.maxDataFragments == (if n - kept < 127 then n - kept else 127)
      && Serializable(l.maxSerializedFragments, body, intervalMillis, l.maxDataFragments)
      && forall m: nat :: m > l.maxSerializedFragments ==> !Serializable(m, body, intervalMillis, l.maxDataFragments)
  {
    var l := EngineLimits(body, intervalMillis);
    forall m: nat
      ensures m <= l.maxSerializedFragments <==> Serializable(m, body, intervalMillis, l.maxDataFragments)
    {
      SerializableIff(m, body, intervalMillis);
    }
  }

  lemma SerializableIff(m: nat, body: nat, intervalMillis: int)
    requires Configured(body, intervalMillis)
    ensures var l := EngineLimits(body, intervalMillis);
      m <= l.maxSerializedFragments <==> Serializable(m, body, intervalMillis, l.maxDataFragments)
  {
    var size := (MAX_SERIALIZED_RNS_BYTES + body - 1) / body;
    WithinSize(m, body);
    WithinDrain(m, intervalMillis);
    DivUnique(MAX_SERIALIZED_RNS_BYTES + body - 1, body, size);
  }

  /** The last of the fragments still begins within the byte limit. */
  lemma WithinSize(m: nat, body: nat)
    requires body >= 1
    ensures m <= (MAX_SERIALIZED_RNS_BYTES + body - 1) / body <==> (m - 1) * body < MAX_SERIALIZED_RNS_BYTES
    ensures (MAX_SERIALIZED_RNS_BYTES + body - 1) / body >= 1
  {
    var size := (MAX_SERIALIZED_RNS_BYTES + body - 1) / body;
    DivUnique(MAX_SERIALIZED_RNS_BYTES + body - 1, body, size);
    assert (m - 1) * body == m * body - body;
    if m <= size {
      MulMonotone(m, size, body);
    } else {
      MulMonotone(size + 1, m, body);
      assert (size + 1) * body == size * body + body;
    }
    if size == 0 {
      assert false;
    }
  }

  lemma WithinDrain(m: nat, intervalMillis: int)
    requires intervalMillis >= 0
    ensures intervalMillis == 0 ==> m * intervalMillis == 0
    ensures intervalMillis > 0 ==>
              (m <= MAX_SERIALIZED_DRAIN_MILLIS / intervalMillis <==> m * intervalMillis <= MAX_SERIALIZED_DRAIN_MILLIS)
  {
    if intervalMillis > 0 {
      var q := MAX_SERIALIZED_DRAIN_MILLIS / intervalMillis;
      DivUnique(MAX_SERIALIZED_DRAIN_MILLIS, intervalMillis, q);
      if m <= q {
        MulMonotone(m, q, intervalMillis);
      } else {
        MulMonotone(q + 1, m, intervalMillis);
        assert (q + 1) * intervalMillis == q * intervalMillis + intervalMillis;
      }
    }
  }

  // ---- Counting fragments ----

  /** The last of the counted fragments is needed, and they are enough. */
  lemma CountBounds(bytes: nat, body: nat)
    requires body >= 1
    ensures var q := FragmentCount(bytes, body); q >= 1 && bytes <= q * body
    ensures bytes >= 1 ==> (FragmentCount(bytes, body) - 1) * body < bytes
    ensures bytes == 0 ==> FragmentCount(bytes, body) == 1
  {
    if bytes >= 1 {
      var q := (bytes - 1) / body;
      DivUnique(bytes - 1, body, q);
      var below, above := q * body, (q + 1) * body;
      assert above == below + body;
      DivUnique(bytes - 1 + body, body, q + 1);
      assert FragmentCount(bytes, body) == q + 1;
    } else {
      DivUnique(body - 1, body, 0);
    }
  }

  /** A frame needs at most `n` fragments exactly when it is at most `n` bodies long. */
  lemma CountWithin(bytes: nat, body: nat, n: nat)
    requires body >= 1 && n >= 1
    ensures FragmentCount(bytes, body) <= n <==> bytes <= n * body
  {
    hide FragmentCount;
    CountBounds(bytes, body);
    var q := FragmentCount(bytes, body);
    MulMonotone(0, n, body);
    if q <= n {
      MulMonotone(q, n, body);
    } else {
      MulMonotone(n, q - 1, body);
    }
  }

  /** With room for `n` full fragments, headers included, the byte limit never decides. */
  lemma BytesFollow(bytes: nat, body: nat, n: nat, maxBytes: int)
    requires body >= 1 && n >= 1 && maxBytes >= n * (body + 2)
    ensures Fits(bytes, body, n, maxBytes) <==> bytes <= n * body
  {
    CountWithin(bytes, body, n);
    assert n * (body + 2) == n * body + 2 * n;
  }

  /** So the search answers with the product. */
  lemma LimitIsProduct(limit: nat, body: nat, n: nat, maxBytes: int)
    requires body >= 1 && n >= 1 && maxBytes >= n * (body + 2)
    requires IsLimit(limit, body, n, maxBytes)
    ensures limit == n * body
  {
    MulMonotone(0, n, body);
    BytesFollow(n * body, body, n, maxBytes);
  }

  // ---- What the encoder hands to the scheduler ----

  function Lengths(chunks: seq<Bytes>): nat {
    if chunks == [] then 0 else |chunks[0]| + Lengths(chunks[1..])
  }

  lemma {:induction false} ChunkLengths(frame: Bytes, body: nat)
    requires frame != [] && body >= 1
    ensures Lengths(Chunks(frame, body)) == |frame|
    decreases |frame|
  {
    if |frame| <= body {
      assert [frame][1..] == [];
    } else {
      ChunkLengths(frame[body..], body);
      assert ([frame[..body]] + Chunks(frame[body..], body))[1..] == Chunks(frame[body..], body);
    }
  }

  lemma {:induction false} PayloadLengths(txs: seq<Transmission>, chunks: seq<Bytes>)
    requires |txs| == |chunks|
    requires forall i :: 0 <= i < |txs| ==> |txs[i].payload| == 2 + |chunks[i]|
    ensures PayloadBytes(txs) == Lengths(chunks) + 2 * |chunks|
    decreases |txs|
  {
    if txs != [] {
      PayloadLengths(txs[1..], chunks[1..]);
    }
  }

  function OfferFor(l: Engine, frame: Bytes, index: Byte, destination: string): Offer
    requires frame != [] && l.body >= 1
  {
    Offer(F.DataTransmissions(destination, AllFragments(frame, l.body, index)), NormalPriority,
          l.maxSerializedFragments, l.MaxSerializedBytes())
  }

  /** Size of the offer for a frame, and that it is data. */
  lemma OfferSize(l: Engine, frame: Bytes, index: Byte, destination: string)
    requires frame != [] && l.body >= 1
    ensures var offer := OfferFor(l, frame, index, destination);
      && offer.transmissions != [] && !offer.Control()
      && offer.Size().fragments == FragmentCount(|frame|, l.body) == |Chunks(frame, l.body)|
      && offer.Size().bytes == |frame| + 2 * FragmentCount(|frame|, l.body)
  {
    var chunks, offer := Chunks(frame, l.body), OfferFor(l, frame, index, destination);
    ChunkCount(frame, l.body);
    ChunkLengths(frame, l.body);
    hide Chunks, PayloadBytes, Lengths;
    PayloadLengths(offer.transmissions, chunks);
    assert !IsControl(offer.transmissions[0]);
  }

  /**
   * The advertised limit for complete frames is exact: with the limit the search computes, a
   * frame passes the encoder and normal admission if and only if it is no longer than that.
   */
  lemma CompleteLimitIff(body: nat, intervalMillis: int, limit: nat, frame: Bytes, index: Byte, destination: string)
    requires Configured(body, intervalMillis) && frame != []
    requires var l := EngineLimits(body, intervalMillis); IsLimit(limit, body, l.maxDataFragments, l.MaxDataBytes())
    ensures var l := EngineLimits(body, intervalMillis); var size := OfferFor(l, frame, index, destination).Size();
      && limit == l.maxDataFragments * body
      && (|Chunks(frame, body)| <= MAX_FRAGMENTS && CanEverFit(l.scheduler, size.fragments, size.bytes, false)
          <==> |frame| <= limit)
  {
    var l := EngineLimits(body, intervalMillis);
    OfferSize(l, frame, index, destination);
    RoomBytes(l.maxQueuedFragments, l.reserved, body);
    DataFragments(body, intervalMillis);
    DataFits(body, intervalMillis, |frame|);
    hide EngineLimits, Chunks, FragmentCount, CanEverFit;
    MulMonotone(l.maxDataFragments, l.maxQueuedFragments - l.reserved, body + 2);
    LimitIsProduct(limit, body, l.maxDataFragments, l.MaxDataBytes());
  }

  lemma RoomBytes(queued: nat, reserved: nat, body: nat)
    requires reserved <= queued
    ensures queued * (body + 2) - reserved * (body + 2) == (queued - reserved) * (body + 2)
  {
  }

  lemma DataFragments(body: nat, intervalMillis: int)
    requires Configured(body, intervalMillis)
    ensures var l := EngineLimits(body, intervalMillis);
      && l.maxDataFragments == Min(127, l.maxQueuedFragments - l.reserved)
      && l.scheduler.max.fragments == l.maxQueuedFragments && l.scheduler.reserve.fragments == l.reserved
      && l.scheduler.max.bytes == l.maxQueuedFragments * (body + 2)
      && l.scheduler.reserve.bytes == l.reserved * (body + 2)
  {
  }

  /** The limit reported for serialized frames. */
  function ReportedSerializedLimit(limit: nat): nat {
    Min(MAX_SERIALIZED_RNS_BYTES, limit)
  }

  lemma SerializedFragments(body: nat, intervalMillis: int)
    requires Configured(body, intervalMillis)
    ensures var n := EngineLimits(body, intervalMillis).maxSerializedFragments;
      && 1 <= n <= 127 && n * body < MAX_SERIALIZED_RNS_BYTES + body
  {
    var l := EngineLimits(body, intervalMillis);
    var size := (MAX_SERIALIZED_RNS_BYTES + body - 1) / body;
    DivUnique(MAX_SERIALIZED_RNS_BYTES + body - 1, body, size);
    assert size >= 1 by {
      if size == 0 {
        assert false;
      }
    }
    assert l.maxSerializedFragments <= size;
    MulMonotone(l.maxSerializedFragments, size, body);
  }

  /**
   * Exactly which frames the scheduler ever takes, normally or serialized: those of at most
   * the larger of the two fragment limits in full bodies. Every frame within the reported
   * serialized limit is among them, and serialized admission goes beyond the reported limit by
   * less than one fragment body.
   */
  lemma SerializedLimitIff(
    body: nat, intervalMillis: int, limit: nat, s: State, frame: Bytes, index: Byte, destination: string)
    requires Configured(body, intervalMillis) && frame != []
    requires var l := EngineLimits(body, intervalMillis);
      IsLimit(limit, body, l.maxSerializedFragments, l.MaxSerializedBytes())
    ensures var l := EngineLimits(body, intervalMillis); var offer := OfferFor(l, frame, index, destination);
      && limit == l.maxSerializedFragments * body < MAX_SERIALIZED_RNS_BYTES + body
      && ReportedSerializedLimit(limit) == (if limit <= 8192 then limit else 8192)
      && (|Chunks(frame, body)| <= MAX_FRAGMENTS && Judge(l.scheduler, s, offer) != Impossible
          <==> |frame| <= Max(l.maxDataFragments, l.maxSerializedFragments) * body)
      && (|frame| <= ReportedSerializedLimit(limit) ==> Judge(l.scheduler, s, offer) != Impossible)
      && (offer.Serialized(l.scheduler) ==> |frame| < MAX_SERIALIZED_RNS_BYTES + body)
  {
    var l := EngineLimits(body, intervalMillis);
    var n, m := l.maxSerializedFragments, l.maxDataFragments;
    var offer := OfferFor(l, frame, index, destination);
    OfferSize(l, frame, index, destination);
    SerializedFragments(body, intervalMillis);
    hide EngineLimits, Chunks, FragmentCount, OfferFor, HasCapacity, HasSerializedCapacity, CanEverFit;
    LimitIsProduct(limit, body, n, l.MaxSerializedBytes());
    DataFits(body, intervalMillis, |frame|);
    BytesFollow(|frame|, body, n, l.MaxSerializedBytes());
    CountWithin(|frame|, body, n);
    MulMonotone(Min(m, n), Max(m, n), body);
  }

  /** Which lengths pass normal admission within the encoder's limit. */
  lemma DataFits(body: nat, intervalMillis: int, length: nat)
    requires Configured(body, intervalMillis)
    ensures var l := EngineLimits(body, intervalMillis); var q := FragmentCount(length, body);
      q <= MAX_FRAGMENTS && CanEverFit(l.scheduler, q, length + 2 * q, false) <==> length <= l.maxDataFragments * body
  {
    var l := EngineLimits(body, intervalMillis);
    var m, room := l.maxDataFragments, l.maxQueuedFragments - l.reserved;
    DataFragments(body, intervalMillis);
    RoomBytes(l.maxQueuedFragments, l.reserved, body);
    hide EngineLimits, FragmentCount;
    MulMonotone(m, room, body + 2);
    BytesFollow(length, body, m, l.MaxDataBytes());
    BytesFollow(length, body, room, l.MaxDataBytes());
    CountWithin(length, body, m);
  }
}
