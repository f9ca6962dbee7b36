/** What sending a frame puts on the air, and that this is what a receiver needs. */
module Sending {
  import opened Common
  import opened OrderedMaps
  import opened Fragments
  import opened FragmentSpec
  import opened Reassembly
  import R = Retransmission
  import J = AndroidFragmentSpec
  import Admission

  /** A frame needs at most 127 fragments exactly when it is at most 127 bodies long. */
  lemma FitsIff(frame: Bytes, body: nat)
    requires frame != [] && body >= 1
    ensures |Chunks(frame, body)| <= 127 <==> |frame| <= 127 * body
  {
    hide Chunks;
    ChunkCount(frame, body);
    Admission.CountWithin(|frame|, body, 127);
    Admission.CountBounds(|frame|, body);
  }

  /**
   * Sending, in any state: a frame is refused, and nothing changes, if and only if it is empty or
   * longer than 127 bodies. Otherwise one data transmission for each of its fragments, in order and
   * under the next index, goes to the given destination and to no one else.
   */
  lemma EncodeIs(c: Config, s: State, frame: Bytes, destination: string, swept: int, now: int)
    requires c.Valid()
    ensures var reply := Encode(c, s, frame, destination, swept, now);
      && (reply.outcome.Raised? <==> frame == [] || |frame| > 127 * c.fragmentBody)
      && (reply.outcome.Raised? ==> reply.state == s)
      && (reply.outcome.Done? ==>
            && reply.outcome.frames == []
            && |reply.outcome.transmissions| == |Chunks(frame, c.fragmentBody)|
            && (forall i :: 0 <= i < |reply.outcome.transmissions| ==>
                  reply.outcome.transmissions[i]
                  == Transmission(destination, Fragment(frame, c.fragmentBody, s.nextIndex, i + 1), Data))
            && reply.state.nextIndex == (s.nextIndex + 1) % 256)
  {
    hide Chunks, Fragment, TrimFront, Select;
    if frame != [] {
      FitsIff(frame, c.fragmentBody);
    }
  }

  /** The Android side sends the same. */
  lemma TwinEncodeIs(c: Config, t: J.Twin, frame: Bytes, destination: string, swept: int, now: int)
    requires J.Configured(c)
    ensures var answer := J.Encode(c, t, frame, destination, swept, now);
      && (answer.result.Refused? <==> frame == [] || |frame| > 127 * c.fragmentBody)
      && (answer.result.Refused? ==> answer.twin == t)
      && (answer.result.Result? ==>
            && answer.result.frames == [] && !answer.result.deferred
            && |answer.result.transmissions| == |Chunks(frame, c.fragmentBody)|
            && (forall i :: 0 <= i < |answer.result.transmissions| ==>
                  answer.result.transmissions[i]
                  == Transmission(destination, Fragment(frame, c.fragmentBody, t.nextIndex, i + 1), Data))
            && answer.twin.nextIndex == (t.nextIndex + 1) % 256)
  {
    hide Chunks, Fragment, TrimFront, Select;
    if frame != [] {
      FitsIff(frame, c.fragmentBody);
    }
  }

  /** In any run accepted frame number `n` goes out under index `n % 256`. */
  lemma SentUnder(
    c: Config, digest: Bytes -> Bytes, calls: seq<Call>, frame: Bytes, destination: string, swept: int, now: int)
    requires c.Valid() && frame != [] && |frame| <= 127 * c.fragmentBody
    ensures var out := OutcomeOf(c, digest, INITIAL, calls + [Send(frame, destination, swept, now)], |calls|);
            var index := |R.Encodes(c, digest, INITIAL, calls)| % 256;
      && out.Done? && |out.transmissions| == |Chunks(frame, c.fragmentBody)|
      && forall i :: 0 <= i < |out.transmissions| ==>
           out.transmissions[i] == Transmission(destination, Fragment(frame, c.fragmentBody, index, i + 1), Data)
  {
    hide Run, R.Encodes, Chunks, Fragment, Encode, R.Backs;
    var send := Send(frame, destination, swept, now);
    assert (calls + [send])[..|calls|] == calls;
    R.RunBacked(c, digest, calls);
    EncodeIs(c, Run(c, digest, INITIAL, calls), frame, destination, swept, now);
  }

  /** Some of the sent transmissions, heard in the given order. */
  function HeardFrom(source: string, sent: seq<Transmission>, order: seq<nat>, at: int): (calls: seq<Call>)
    requires forall i :: i in order ==> i < |sent|
    ensures |calls| == |order|
  {
    seq(|order|, k requires 0 <= k < |order| => Hear(source, sent[Picked(order, k)].payload, true, at, at))
  }

  function Picked(order: seq<nat>, k: nat): (i: nat)
    requires k < |order|
    ensures i in order && i == order[k]
  {
    order[k]
  }

  function Shifted(order: seq<nat>): seq<nat> {
    seq(|order|, k requires 0 <= k < |order| => order[k] + 1)
  }

  lemma ShiftedElements(order: seq<nat>)
    ensures forall p :: p in Shifted(order) <==> p >= 1 && p - 1 in order
  {
    forall p ensures p in Shifted(order) <==> p >= 1 && p - 1 in order {
      if p >= 1 && p - 1 in order {
        var k :| 0 <= k < |order| && order[k] == p - 1;
        assert Shifted(order)[k] == p;
      }
      if p in Shifted(order) {
        var k :| 0 <= k < |order| && Shifted(order)[k] == p;
        assert order[k] == p - 1;
      }
    }
  }

  /**
   * End to end: what any sender in any state emits for a frame, heard by a fresh receiver in any
   * order and with repetitions, delivers exactly the frame when the last of the transmissions
   * arrives, unless one of them looks like a request.
   */
  lemma SentIsDelivered(
    cs: Config, cr: Config, digest: Bytes -> Bytes, s: State, frame: Bytes, destination: string, source: string,
    sentAt: int, order: seq<nat>, last: nat, at: int)
    requires cs.Valid() && cr.Valid() && source != "" && frame != [] && |frame| <= 127 * cs.fragmentBody
    requires var sent := Encode(cs, s, frame, destination, sentAt, sentAt).outcome;
      && sent.Done?
      && (forall i :: 0 <= i < |sent.transmissions| ==> !IsRequest(sent.transmissions[i].payload))
      && (forall i: nat :: i in order + [last] <==> i < |sent.transmissions|)
      && last !in order
    ensures var sent := Encode(cs, s, frame, destination, sentAt, sentAt).outcome.transmissions;
      OutcomeOf(cr, digest, INITIAL, HeardFrom(source, sent, order + [last], at), |order|) == Done([frame], [])
  {
    hide Chunks, Fragment, Encode, All, OutcomeOf;
    var f, key := Sent(frame, cs.fragmentBody), Key(source, s.nextIndex);
    EncodeIs(cs, s, frame, destination, sentAt, sentAt);
    FitsIff(frame, cs.fragmentBody);
    var sent := Encode(cs, s, frame, destination, sentAt, sentAt).outcome.transmissions;
    assert NoLookalike(key, f) by {
      forall p: nat | 1 <= p <= f.Count() ensures !IsRequest(Fragment(f.frame, f.body, key.index, p)) {
        assert sent[p - 1].payload == Fragment(f.frame, f.body, key.index, p);
      }
    }
    ShiftedElements(order);
    ShiftedElements(order + [last]);
    forall p | p in Shifted(order) ensures IsPosition(f, p) {
      assert p - 1 in order + [last];
    }
    AllShifted(f, order, last);
    AnyOrder(cr, digest, key, f, Shifted(order), last + 1, at);
    assert Shifted(order + [last]) == Shifted(order) + [last + 1];
    SameHearings(key, f, sent, order + [last], at);
  }

  lemma AllShifted(f: Sent, order: seq<nat>, last: nat)
    requires f.Valid() && last !in order
    requires forall i: nat :: i in order + [last] <==> i < f.Count()
    ensures last + 1 !in Shifted(order) && Elements(Shifted(order)) + {last + 1} == All(f)
  {
    hide Chunks;
    ShiftedElements(order);
    forall p: nat ensures p in Elements(Shifted(order)) + {last + 1} <==> p in All(f) {
      if p >= 1 {
        assert p - 1 in order + [last] <==> p - 1 in order || p - 1 == last;
        assert IsPosition(f, p) <==> 1 <= p <= f.Count();
      }
    }
  }

  lemma SameHearings(key: Key, f: Sent, sent: seq<Transmission>, order: seq<nat>, at: int)
    requires f.Valid() && |sent| == f.Count()
    requires forall i :: 0 <= i < |sent| ==> sent[i].payload == Fragment(f.frame, f.body, key.index, i + 1)
    requires forall i :: i in order ==> i < |sent|
    requires forall p :: p in Shifted(order) ==> IsPosition(f, p)
    ensures HeardFrom(key.source, sent, order, at) == Hearings(key, f, Shifted(order), at)
  {
    hide Chunks, Fragment;
    var a, b := HeardFrom(key.source, sent, order, at), Hearings(key, f, Shifted(order), at);
    forall k | 0 <= k < |order| ensures a[k] == b[k] {
      assert Shifted(order)[k] in Shifted(order);
      assert Picked(order, k) == order[k];
    }
  }
}
