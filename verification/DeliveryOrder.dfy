/** Delivery order across reconnects and failed writes. */
module DeliveryOrder {
  import opened Common
  import opened OrderedMaps
  import opened SpoolSpec
  import opened ServerSpec

  lemma FramesSplit(entries: seq<Entry>, k: nat)
    requires k <= |entries|
    ensures Frames(entries) == Frames(entries[..k]) + Frames(entries[k..])
  {
  }

  /** Dropping expired entries keeps the rest in order. */
  lemma CleanupInOrder(
    l: Limits, digest: Bytes -> Bytes, s: Spool, now: int, delivered: seq<Bytes>, arrivals: seq<Bytes>)
    requires Balanced(l, digest, s)
    requires Subsequence(delivered + Frames(s.entries), arrivals)
    ensures Subsequence(delivered + Frames(Cleanup(l, s, now).entries), arrivals)
  {
    hide Balanced, Cleanup, Subsequence;
    CleanupBalanced(l, digest, s, now);
    var k := |s.entries| - |Cleanup(l, s, now).entries|;
    FramesSplit(s.entries, k);
    var gone, kept := Frames(s.entries[..k]), Frames(s.entries[k..]);
    assert delivered + (gone + kept) == delivered + gone + kept;
    SubsequenceDelete(delivered, gone, kept, arrivals);
  }

  lemma HeadDelivered(entries: seq<Entry>, delivered: seq<Bytes>)
    requires entries != []
    ensures delivered + Frames(entries) == (delivered + [entries[0].frame]) + Frames(entries[1..])
  {
    FramesSplit(entries, 1);
    assert Frames(entries[..1]) == [entries[0].frame];
  }

  lemma RemoveSuffix(l: Limits, digest: Bytes -> Bytes, s: Spool, now: int)
    requires Balanced(l, digest, s) && s.entries != []
    ensures var t := RemoveReplayed(l, s, now);
      |t.entries| < |s.entries| && t.entries == s.entries[|s.entries| - |t.entries|..]
  {
    hide Balanced, Cleanup;
    CleanupBalanced(l, digest, s, now);
  }

  /** Once the head is written, taking entries off keeps the rest in order, whichever they are. */
  lemma RemoveInOrder(
    l: Limits, digest: Bytes -> Bytes, s: Spool, now: int, delivered: seq<Bytes>, arrivals: seq<Bytes>)
    requires Balanced(l, digest, s) && s.entries != []
    requires Subsequence(delivered + Frames(s.entries), arrivals)
    ensures Subsequence(delivered + [s.entries[0].frame] + Frames(RemoveReplayed(l, s, now).entries), arrivals)
  {
    hide Balanced, RemoveReplayed, Subsequence;
    RemoveSuffix(l, digest, s, now);
    var rest := s.entries[1..];
    var k := |rest| - |RemoveReplayed(l, s, now).entries|;
    HeadDelivered(s.entries, delivered);
    FramesSplit(rest, k);
    assert rest[k..] == s.entries[k + 1..];
    var gone, kept := Frames(rest[..k]), Frames(rest[k..]);
    assert delivered + [s.entries[0].frame] + (gone + kept) == delivered + [s.entries[0].frame] + gone + kept;
    SubsequenceDelete(delivered + [s.entries[0].frame], gone, kept, arrivals);
  }

  lemma {:induction false} FlushInOrder(
    l: Limits, digest: Bytes -> Bytes, s: State, turns: nat -> Write, i: nat,
    delivered: seq<Bytes>, arrivals: seq<Bytes>)
    requires Balanced(l, digest, s.spool)
    requires Subsequence(delivered + Frames(s.spool.entries), arrivals)
    ensures var f := Flush(l, s, turns, i);
      && Balanced(l, digest, f.state.spool)
      && (f.state.output.Some? ==> f.state.spool.entries == [])
      && Subsequence(delivered + f.written + Frames(f.state.spool.entries), arrivals)
    decreases |s.spool.entries|
  {
    hide Balanced, Cleanup, RemoveReplayed, Removed, Subsequence;
    CleanupShrinks(l, s.spool, turns(i).peekAt);
    CleanupBalanced(l, digest, s.spool, turns(i).peekAt);
    CleanupInOrder(l, digest, s.spool, turns(i).peekAt, delivered, arrivals);
    var peeked := Cleanup(l, s.spool, turns(i).peekAt);
    assert delivered + [] == delivered;
    if peeked.entries != [] && turns(i).ok {
      var frame := peeked.entries[0].frame;
      RemoveShrinks(l, peeked, turns(i).removeAt);
      RemoveBalanced(l, digest, peeked, turns(i).removeAt);
      RemoveInOrder(l, digest, peeked, turns(i).removeAt, delivered, arrivals);
      var next := s.(spool := RemoveReplayed(l, peeked, turns(i).removeAt));
      FlushInOrder(l, digest, next, turns, i + 1, delivered + [frame], arrivals);
      var rest := Flush(l, next, turns, i + 1);
      assert delivered + [frame] + rest.written == delivered + ([frame] + rest.written);
    }
  }

  lemma OfferInOrder(
    l: Limits, digest: Bytes -> Bytes, s: Spool, frame: Bytes, swept: int, now: int,
    delivered: seq<Bytes>, arrivals: seq<Bytes>)
    requires Balanced(l, digest, s)
    requires Subsequence(delivered + Frames(s.entries), arrivals)
    ensures Subsequence(
      delivered + Frames(SpoolSpec.Offer(l, digest, s, frame, swept, now).spool.entries), arrivals + [frame])
  {
    hide Balanced, Cleanup, Subsequence;
    if frame == [] {
      SubsequenceExtend(delivered + Frames(s.entries), arrivals, frame);
    } else {
      CleanupInOrder(l, digest, s, swept, delivered, arrivals);
      var s1 := Cleanup(l, s, swept);
      SubsequenceExtend(delivered + Frames(s1.entries), arrivals, frame);
      var e := Entry(frame, digest(frame), now);
      assert Frames(s1.entries + [e]) == Frames(s1.entries) + [frame];
      assert delivered + (Frames(s1.entries) + [frame]) == delivered + Frames(s1.entries) + [frame];
    }
  }

  /** What holds whenever the write lock is free. */
  ghost predicate Good(l: Limits, digest: Bytes -> Bytes, s: State, delivered: seq<Bytes>, arrivals: seq<Bytes>) {
    && Balanced(l, digest, s.spool)
    && (s.output.Some? ==> s.spool.entries == [])
    && Subsequence(delivered + Frames(s.spool.entries), arrivals)
  }

  lemma StepGood(
    l: Limits, digest: Bytes -> Bytes, s: State, step: Step, delivered: seq<Bytes>, arrivals: seq<Bytes>)
    requires Good(l, digest, s, delivered, arrivals)
    ensures var reply := Apply(l, digest, s, step);
      Good(l, digest, reply.state, delivered + reply.delivered,
           arrivals + (if step.Deliver? then [step.frame] else []))
  {
    hide Balanced, Subsequence, Offer, Flush;
    assert delivered + [] == delivered && arrivals + [] == arrivals;
    match step
    case Connect(socket, streamOk, turns) =>
      if streamOk {
        FlushInOrder(
          l, digest, s.(client := Some(socket), output := Some(socket)), turns, 0, delivered, arrivals);
      }
    case Disconnect(_) =>
    case Deliver(frame, ok, swept, now) =>
      if s.output.Some? && ok {
        assert delivered + Frames(s.spool.entries) == delivered;
        SubsequenceExtend(delivered, arrivals, frame);
        assert delivered + [frame] + Frames(s.spool.entries) == delivered + [frame];
      } else {
        OfferBalanced(l, digest, s.spool, frame, swept, now);
        OfferInOrder(l, digest, s.spool, frame, swept, now, delivered, arrivals);
      }
  }

  lemma {:induction false} RunGood(l: Limits, digest: Bytes -> Bytes, steps: seq<Step>)
    requires l.Valid()
    ensures Good(l, digest, Run(l, digest, steps), Deliveries(l, digest, steps), Arrivals(steps))
  {
    if steps == [] {
      assert Digests([]) == [] && Frames([]) == [];
    } else {
      hide Apply, Good;
      var n := |steps| - 1;
      RunGood(l, digest, steps[..n]);
      StepGood(
        l, digest, Run(l, digest, steps[..n]), steps[n], Deliveries(l, digest, steps[..n]), Arrivals(steps[..n]));
    }
  }

  /**
   * Whenever the write lock is free: a connected output means an empty spool; the frames
   * delivered so far, directly or by replay over any number of connections, are a subsequence
   * of the arrivals in the same order, and the spooled frames continue it; and the spool's
   * bytes, digests and counters agree with its entries.
   */
  lemma InOrder(l: Limits, digest: Bytes -> Bytes, steps: seq<Step>)
    requires l.Valid()
    ensures var s := Run(l, digest, steps);
      && (s.output.Some? ==> s.spool.entries == [])
      && Subsequence(Deliveries(l, digest, steps), Arrivals(steps))
      && Subsequence(Deliveries(l, digest, steps) + Frames(s.spool.entries), Arrivals(steps))
      && Balanced(l, digest, s.spool)
  {
    hide Run, Deliveries, Arrivals, Subsequence, Balanced;
    RunGood(l, digest, steps);
    var d, spooled := Deliveries(l, digest, steps), Frames(Run(l, digest, steps).spool.entries);
    assert d + spooled + [] == d + spooled && d + [] == d;
    SubsequenceDelete(d, spooled, [], Arrivals(steps));
  }

  // ---- What "replayed" means ----

  /** In no turn does the written frame expire between the peek and the removal. */
  ghost predicate Prompt(l: Limits, s: State, turns: nat -> Write, i: nat)
    decreases |s.spool.entries|
  {
    CleanupShrinks(l, s.spool, turns(i).peekAt);
    var peeked := Cleanup(l, s.spool, turns(i).peekAt);
    peeked.entries != [] && turns(i).ok ==>
      && peeked.entries[0].createdAt >= turns(i).removeAt - l.ttl
      && (RemoveShrinks(l, peeked, turns(i).removeAt);
          Prompt(l, s.(spool := RemoveReplayed(l, peeked, turns(i).removeAt)), turns, i + 1))
  }

  /** Frames removed in a replay come from the spool. */
  lemma {:induction false} RemovedResident(
    l: Limits, digest: Bytes -> Bytes, s: State, turns: nat -> Write, i: nat)
    requires Balanced(l, digest, s.spool)
    ensures forall f :: f in Flush(l, s, turns, i).removed ==> f in Frames(s.spool.entries)
    decreases |s.spool.entries|
  {
    hide Balanced, Cleanup, RemoveReplayed, Removed;
    CleanupShrinks(l, s.spool, turns(i).peekAt);
    CleanupBalanced(l, digest, s.spool, turns(i).peekAt);
    var peeked := Cleanup(l, s.spool, turns(i).peekAt);
    if peeked.entries != [] && turns(i).ok {
      RemoveShrinks(l, peeked, turns(i).removeAt);
      RemoveBalanced(l, digest, peeked, turns(i).removeAt);
      RemoveSuffix(l, digest, peeked, turns(i).removeAt);
      RemovedOne(l, digest, peeked, turns(i).removeAt);
      var next := RemoveReplayed(l, peeked, turns(i).removeAt);
      RemovedResident(l, digest, s.(spool := next), turns, i + 1);
      FramesSuffix(next.entries, peeked.entries);
      FramesSuffix(peeked.entries, s.spool.entries);
    }
  }

  lemma FramesSuffix(a: seq<Entry>, b: seq<Entry>)
    requires |a| <= |b| && a == b[|b| - |a|..]
    ensures forall f :: f in Frames(a) ==> f in Frames(b)
  {
    FramesSplit(b, |b| - |a|);
  }

  lemma RemovedOne(l: Limits, digest: Bytes -> Bytes, s: Spool, now: int)
    requires Balanced(l, digest, s)
    ensures forall f :: f in Removed(l, s, now) ==> f in Frames(s.entries)
  {
    hide Balanced, Cleanup;
    CleanupBalanced(l, digest, s, now);
    var t := Cleanup(l, s, now);
    FramesSuffix(t.entries, s.entries);
    if t.entries != [] {
      assert Frames(t.entries)[0] == t.entries[0].frame;
    }
  }

  lemma HeadNotBehind(l: Limits, digest: Bytes -> Bytes, s: Spool)
    requires Balanced(l, digest, s) && s.entries != []
    ensures s.entries[0].frame !in Frames(s.entries[1..])
  {
    forall i | 0 <= i < |s.entries| - 1 ensures Frames(s.entries[1..])[i] != s.entries[0].frame {
      DifferentFrames(l, digest, s, i + 1);
    }
  }

  /** After a late removal the written frame is gone and is not removed as replayed any more. */
  lemma LateRemoval(l: Limits, digest: Bytes -> Bytes, s: State, peeked: Spool, turns: nat -> Write, i: nat)
    requires Balanced(l, digest, peeked) && peeked.entries != []
    requires peeked.entries[0].createdAt < turns(i).removeAt - l.ttl
    ensures var next := s.(spool := RemoveReplayed(l, peeked, turns(i).removeAt));
      peeked.entries[0].frame !in Removed(l, peeked, turns(i).removeAt) + Flush(l, next, turns, i + 1).removed
  {
    hide Balanced, Flush, Frames;
    var now := turns(i).removeAt;
    var s1 := DropFirst(peeked).(expired := peeked.expired + 1);
    DropBalanced(l, digest, peeked);
    assert RemoveReplayed(l, peeked, now) == RemoveReplayed(l, s1, now);
    assert Removed(l, peeked, now) == Removed(l, s1, now);
    RemovedOne(l, digest, s1, now);
    RemoveBalanced(l, digest, s1, now);
    var next := RemoveReplayed(l, s1, now);
    RemovedResident(l, digest, s.(spool := next), turns, i + 1);
    if s1.entries == [] {
      assert next.entries == [];
    } else {
      RemoveSuffix(l, digest, s1, now);
    }
    FramesSuffix(next.entries, s1.entries);
    HeadNotBehind(l, digest, peeked);
  }

  /**
   * In a replay the frames booked as replayed are exactly the frames written, in order, if and
   * only if none of them expires between the peek and the removal.
   */
  lemma {:induction false} ReplayHonestIff(
    l: Limits, digest: Bytes -> Bytes, s: State, turns: nat -> Write, i: nat)
    requires Balanced(l, digest, s.spool)
    ensures var f := Flush(l, s, turns, i); f.written == f.removed <==> Prompt(l, s, turns, i)
    decreases |s.spool.entries|
  {
    hide Balanced, Cleanup, RemoveReplayed, Removed;
    CleanupShrinks(l, s.spool, turns(i).peekAt);
    CleanupBalanced(l, digest, s.spool, turns(i).peekAt);
    var peeked := Cleanup(l, s.spool, turns(i).peekAt);
    if peeked.entries != [] && turns(i).ok {
      RemoveShrinks(l, peeked, turns(i).removeAt);
      RemoveBalanced(l, digest, peeked, turns(i).removeAt);
      var next := s.(spool := RemoveReplayed(l, peeked, turns(i).removeAt));
      var frame, rest := peeked.entries[0].frame, Flush(l, next, turns, i + 1);
      ReplayHonestIff(l, digest, next, turns, i + 1);
      ReplayedIsWrittenIff(l, digest, peeked, turns(i).removeAt);
      if peeked.entries[0].createdAt < turns(i).removeAt - l.ttl {
        LateRemoval(l, digest, s, peeked, turns, i);
        assert frame in [frame] + rest.written;
      } else {
        SameTail(frame, rest.written, rest.removed);
      }
    }
  }

  lemma SameTail(frame: Bytes, a: seq<Bytes>, b: seq<Bytes>)
    ensures [frame] + a == [frame] + b <==> a == b
  {
    assert ([frame] + a)[1..] == a && ([frame] + b)[1..] == b;
  }

  /**
   * The books can lie: with two frames spooled, the first expiring between its write and its
   * removal, the second leaves as replayed although it was never written.
   */
  lemma ReplayLies()
    ensures var l := Limits(8, 100, 10);
            var digest: Bytes -> Bytes := frame => frame;
            var entries := [Entry([1], [1], 0), Entry([2], [2], 5)];
            var s := INITIAL.(spool := Spool(entries, {[1], [2]}, 2, 2, 0, 0, 0, 0));
            var turns: nat -> Write := i => Write(10 + i, true, 11 + i);
      && Balanced(l, digest, s.spool)
      && Flush(l, s, turns, 0).written == [[1]]
      && Flush(l, s, turns, 0).removed == [[2]]
  {
    var l := Limits(8, 100, 10);
    var digest: Bytes -> Bytes := frame => frame;
    var e1, e2 := Entry([1], [1], 0), Entry([2], [2], 5);
    var spool := Spool([e1, e2], {[1], [2]}, 2, 2, 0, 0, 0, 0);
    assert Digests(spool.entries) == [[1], [2]] && Elements([[1], [2]]) == {[1], [2]};
    assert spool.entries[1..] == [e2] && [e2][1..] == [];
    assert TotalBytes([e2]) == 1;
    var s := INITIAL.(spool := spool);
    var turns: nat -> Write := i => Write(10 + i, true, 11 + i);
    assert Cleanup(l, spool, 10) == spool;
    var late := DropFirst(spool).(expired := 1);
    assert late.entries == [e2] && Cleanup(l, late, 11) == late;
    var next := RemoveReplayed(l, spool, 11);
    assert next.entries == [] && Removed(l, spool, 11) == [[2]];
    assert Flush(l, s.(spool := next), turns, 1).written == [];
    assert [[1]] + [] == [[1]];
  }
}
