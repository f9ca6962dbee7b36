/** What becomes of every frame handed to the server. */
module DeliveryFates {
  import opened Common
  import opened SpoolSpec
  import opened ServerSpec
  import opened DeliveryOrder

  // ---- One frame ----

  /** There is room for the frame among these entries. */
  predicate RoomAmong(l: Limits, entries: seq<Entry>, frame: Bytes) {
    |entries| < l.maxFrames && TotalBytes(entries) + |frame| <= l.maxBytes
  }

  predicate ResidentDigest(entries: seq<Entry>, digest: Bytes) {
    exists i :: 0 <= i < |entries| && entries[i].digest == digest
  }

  lemma DigestsAre(l: Limits, digest: Bytes -> Bytes, s: Spool, d: Bytes)
    requires Balanced(l, digest, s)
    ensures d in s.digests <==> ResidentDigest(s.entries, d)
  {
    if d in s.digests {
      assert d in Digests(s.entries);
    }
    if ResidentDigest(s.entries, d) {
      var i :| 0 <= i < |s.entries| && s.entries[i].digest == d;
      assert Digests(s.entries)[i] == d;
    }
  }

  /**
   * Offering, exactly. With `kept` the entries that have not expired: the frame is queued, and is
   * then the last entry, if and only if it is not empty, its digest is not among them, and frames
   * and bytes leave room; it is a duplicate if and only if its digest is among them; and it is
   * rejected only for want of room.
   */
  lemma OfferIff(l: Limits, digest: Bytes -> Bytes, s: Spool, frame: Bytes, swept: int, now: int)
    requires Balanced(l, digest, s)
    ensures var kept := Cleanup(l, s, swept).entries; var offered := Offer(l, digest, s, frame, swept, now);
            var resident := ResidentDigest(kept, digest(frame));
      && (offered.verdict == Raised <==> frame == [])
      && (offered.verdict == Duplicate <==> frame != [] && resident)
      && (offered.verdict == Queued <==> frame != [] && !resident && RoomAmong(l, kept, frame))
      && (offered.verdict == Rejected <==> frame != [] && !resident && !RoomAmong(l, kept, frame))
      && offered.spool.entries
         == (if frame == [] then s.entries
             else if offered.verdict == Queued then kept + [Entry(frame, digest(frame), now)] else kept)
  {
    hide Cleanup, ResidentDigest;
    CleanupBalanced(l, digest, s, swept);
    DigestsAre(l, digest, Cleanup(l, s, swept), digest(frame));
  }

  /**
   * Handing over a frame. With an output and a write that succeeds it is delivered, the next of all
   * deliveries, and nothing else changes. Otherwise nothing is written, the output is gone, and the
   * spool decides, as `OfferIff` says.
   */
  lemma SendIff(
    l: Limits, digest: Bytes -> Bytes, steps: seq<Step>, frame: Bytes, ok: bool, swept: int, now: int)
    requires l.Valid()
    ensures var s := Run(l, digest, steps); var step := Deliver(frame, ok, swept, now);
            var reply := Apply(l, digest, s, step);
            var offered := Offer(l, digest, s.spool, frame, swept, now);
      && Deliveries(l, digest, steps + [step])
         == Deliveries(l, digest, steps) + (if s.output.Some? && ok then [frame] else [])
      && (reply.delivery == Delivered <==> s.output.Some? && ok)
      && (if s.output.Some? && ok
          then reply.state == s.(deliveredDirect := s.deliveredDirect + 1)
          else
            && reply.state.output == None && reply.state.spool == offered.spool
            && reply.state.client == (if s.output.None? then s.client else None)
            && (reply.delivery == Spooled <==> offered.verdict == Queued)
            && (reply.delivery == DuplicateFrame <==> offered.verdict == Duplicate)
            && (reply.delivery == RejectedFrame <==> offered.verdict == Rejected)
            && (reply.delivery == RaisedError <==> offered.verdict == Raised))
  {
    hide Run, Offer, Deliveries;
    var step := Deliver(frame, ok, swept, now);
    DeliveriesSnoc(l, digest, steps, step);
    assert (steps + [step])[..|steps|] == steps;
  }

  lemma DeliveriesSnoc(l: Limits, digest: Bytes -> Bytes, steps: seq<Step>, step: Step)
    ensures Deliveries(l, digest, steps + [step])
         == Deliveries(l, digest, steps) + Apply(l, digest, Run(l, digest, steps), step).delivered
  {
    hide Apply, Run;
    assert (steps + [step])[..|steps|] == steps;
  }

  /** The end of a reader disconnects its own client and no other. */
  lemma ReaderEndsOwnClient(l: Limits, digest: Bytes -> Bytes, s: State, socket: nat)
    ensures var t := Apply(l, digest, s, Disconnect(socket)).state;
      if s.client == Some(socket) then t == s.(client := None, output := None) else t == s
  {
  }

  /** A client that replaced another stays connected when the reader of the old one ends. */
  lemma ReplacedReaderIsHarmless(
    l: Limits, digest: Bytes -> Bytes, s: State, newer: nat, older: nat, turns: nat -> Write, frame: Bytes,
    swept: int, now: int)
    requires newer != older && forall i: nat :: turns(i).ok
    ensures var connected := Apply(l, digest, s, Connect(newer, true, turns)).state;
            var ended := Apply(l, digest, connected, Disconnect(older)).state;
      ended == connected && Apply(l, digest, ended, Deliver(frame, true, swept, now)).delivered == [frame]
  {
    hide Flush, Offer;
    FlushCompletes(l, s.(client := Some(newer), output := Some(newer)), turns, 0);
  }

  // ---- Replay ----

  /** While writes succeed a replay goes on until the spool is empty, and keeps the client. */
  lemma {:induction false} FlushCompletes(l: Limits, s: State, turns: nat -> Write, i: nat)
    requires forall j: nat :: j >= i ==> turns(j).ok
    ensures var f := Flush(l, s, turns, i);
      f.state.client == s.client && f.state.output == s.output && f.state.spool.entries == []
    decreases |s.spool.entries|
  {
    hide Cleanup, RemoveReplayed, Removed;
    CleanupShrinks(l, s.spool, turns(i).peekAt);
    var peeked := Cleanup(l, s.spool, turns(i).peekAt);
    if peeked.entries != [] {
      RemoveShrinks(l, peeked, turns(i).removeAt);
      FlushCompletes(l, s.(spool := RemoveReplayed(l, peeked, turns(i).removeAt)), turns, i + 1);
    }
  }

  /** Nothing expires during the replay. */
  ghost predicate NothingExpires(l: Limits, entries: seq<Entry>, turns: nat -> Write) {
    forall k, j: nat :: 0 <= k < |entries| ==>
      entries[k].createdAt >= turns(j).peekAt - l.ttl && entries[k].createdAt >= turns(j).removeAt - l.ttl
  }

  /** How many writes succeed before the first that fails, of at most `n`. */
  function Successes(turns: nat -> Write, i: nat, n: nat): (k: nat)
    ensures k <= n
    decreases n
  {
    if n == 0 || !turns(i).ok then 0 else 1 + Successes(turns, i + 1, n - 1)
  }

  lemma YoungStay(l: Limits, s: Spool, now: int)
    requires forall k :: 0 <= k < |s.entries| ==> s.entries[k].createdAt >= now - l.ttl
    ensures Cleanup(l, s, now) == s
    ensures s.entries != [] ==>
              RemoveReplayed(l, s, now).entries == s.entries[1..] && Removed(l, s, now) == [s.entries[0].frame]
  {
  }

  /**
   * A replay writes the spooled frames in order up to the first write that fails. The rest stays,
   * in order, and the client is dropped if and only if a write failed.
   */
  lemma {:induction false} FlushWrites(l: Limits, s: State, turns: nat -> Write, i: nat)
    requires NothingExpires(l, s.spool.entries, turns)
    ensures var n := Successes(turns, i, |s.spool.entries|); var f := Flush(l, s, turns, i);
      && f.written == Frames(s.spool.entries[..n])
      && f.state.spool.entries == s.spool.entries[n..]
      && (if n == |s.spool.entries| then f.state.client == s.client && f.state.output == s.output
          else f.state.client == None && f.state.output == None)
    decreases |s.spool.entries|
  {
    hide Cleanup, RemoveReplayed, Removed;
    var entries := s.spool.entries;
    YoungStay(l, s.spool, turns(i).peekAt);
    if entries != [] && turns(i).ok {
      RemoveShrinks(l, s.spool, turns(i).removeAt);
      YoungStay(l, s.spool, turns(i).removeAt);
      var next := s.(spool := RemoveReplayed(l, s.spool, turns(i).removeAt));
      assert forall k :: 0 <= k < |entries| - 1 ==> entries[1..][k] == entries[k + 1];
      FlushWrites(l, next, turns, i + 1);
      var m := Successes(turns, i + 1, |entries| - 1);
      assert entries[..m + 1] == [entries[0]] + entries[1..][..m];
      assert Frames(entries[..m + 1]) == [entries[0].frame] + Frames(entries[1..][..m]);
    } else {
      assert Frames(entries[..0]) == [];
    }
  }

  // ---- Every frame ----

  /** What a clean-up throws away. */
  function Dropped(l: Limits, s: Spool, now: int): seq<Bytes>
    decreases |s.entries|
  {
    if s.entries != [] && s.entries[0].createdAt < now - l.ttl then
      [s.entries[0].frame] + Dropped(l, DropFirst(s).(expired := s.expired + 1), now)
    else []
  }

  /** What expires during a replay, from turn `i` on. */
  function FlushDropped(l: Limits, s: State, turns: nat -> Write, i: nat): seq<Bytes>
    decreases |s.spool.entries|
  {
    CleanupShrinks(l, s.spool, turns(i).peekAt);
    var peeked := Cleanup(l, s.spool, turns(i).peekAt);
    Dropped(l, s.spool, turns(i).peekAt) +
    if peeked.entries == [] || !turns(i).ok then []
    else
      RemoveShrinks(l, peeked, turns(i).removeAt);
      Dropped(l, peeked, turns(i).removeAt) +
      FlushDropped(l, s.(spool := RemoveReplayed(l, peeked, turns(i).removeAt)), turns, i + 1)
  }

  /** What one step does with frames: taken out of the spool as replayed, expired, refused. */
  datatype Fates = Fates(booked: seq<Bytes>, expired: seq<Bytes>, refused: seq<Bytes>) {
    function Plus(f: Fates): Fates {
      Fates(booked + f.booked, expired + f.expired, refused + f.refused)
    }
  }

  /** Frames written to a client as they came are booked too. */
  function FatesOf(l: Limits, digest: Bytes -> Bytes, s: State, step: Step): Fates {
    match step
    case Connect(socket, streamOk, turns) =>
      if !streamOk then Fates([], [], [])
      else
        var s1 := s.(client := Some(socket), output := Some(socket));
        Fates(Flush(l, s1, turns, 0).removed, FlushDropped(l, s1, turns, 0), [])
    case Disconnect(_) => Fates([], [], [])
    case Deliver(frame, ok, swept, now) =>
      if s.output.Some? && ok then Fates([frame], [], [])
      else
        Fates([], if frame == [] then [] else Dropped(l, s.spool, swept),
              if Apply(l, digest, s, step).delivery == Spooled then [] else [frame])
  }

  function AllFates(l: Limits, digest: Bytes -> Bytes, steps: seq<Step>): Fates {
    if steps == [] then Fates([], [], [])
    else
      var before := steps[..|steps| - 1];
      AllFates(l, digest, before).Plus(FatesOf(l, digest, Run(l, digest, before), steps[|steps| - 1]))
  }

  lemma FramesHead(entries: seq<Entry>)
    requires entries != []
    ensures multiset(Frames(entries)) == multiset([entries[0].frame]) + multiset(Frames(entries[1..]))
  {
    assert Frames(entries) == [entries[0].frame] + Frames(entries[1..]);
  }

  lemma {:induction false} CleanupConserves(l: Limits, s: Spool, now: int)
    ensures multiset(Frames(s.entries))
         == multiset(Dropped(l, s, now)) + multiset(Frames(Cleanup(l, s, now).entries))
    decreases |s.entries|
  {
    hide Frames;
    if s.entries != [] && s.entries[0].createdAt < now - l.ttl {
      var next := DropFirst(s).(expired := s.expired + 1);
      FramesHead(s.entries);
      CleanupConserves(l, next, now);
      HeadThenRest(s.entries[0].frame, Dropped(l, next, now));
    }
  }

  lemma HeadThenRest(head: Bytes, rest: seq<Bytes>)
    ensures multiset([head] + rest) == multiset([head]) + multiset(rest)
  {
  }

  lemma RemoveConserves(l: Limits, s: Spool, now: int)
    ensures multiset(Frames(s.entries))
         == multiset(Dropped(l, s, now)) + multiset(Removed(l, s, now))
          + multiset(Frames(RemoveReplayed(l, s, now).entries))
  {
    hide Cleanup, Dropped;
    CleanupConserves(l, s, now);
    var s1 := Cleanup(l, s, now);
    if s1.entries != [] {
      FramesHead(s1.entries);
    }
  }

  lemma {:induction false} FlushConserves(l: Limits, s: State, turns: nat -> Write, i: nat)
    ensures var f := Flush(l, s, turns, i);
      multiset(Frames(s.spool.entries))
      == multiset(FlushDropped(l, s, turns, i)) + multiset(f.removed) + multiset(Frames(f.state.spool.entries))
    decreases |s.spool.entries|
  {
    hide Cleanup, RemoveReplayed, Removed, Dropped, Frames;
    CleanupShrinks(l, s.spool, turns(i).peekAt);
    CleanupConserves(l, s.spool, turns(i).peekAt);
    var peeked := Cleanup(l, s.spool, turns(i).peekAt);
    if peeked.entries != [] && turns(i).ok {
      RemoveShrinks(l, peeked, turns(i).removeAt);
      RemoveConserves(l, peeked, turns(i).removeAt);
      FlushConserves(l, s.(spool := RemoveReplayed(l, peeked, turns(i).removeAt)), turns, i + 1);
    }
  }

  lemma OfferConserves(l: Limits, digest: Bytes -> Bytes, s: Spool, frame: Bytes, swept: int, now: int)
    ensures var offered := Offer(l, digest, s, frame, swept, now);
      multiset(Frames(s.entries)) + multiset([frame])
      == multiset(if frame == [] then [] else Dropped(l, s, swept)) + multiset(Frames(offered.spool.entries))
       + multiset(if offered.verdict == Queued then [] else [frame])
  {
    hide Cleanup, Dropped;
    CleanupConserves(l, s, swept);
    var kept := Cleanup(l, s, swept).entries;
    var e := Entry(frame, digest(frame), now);
    assert Frames(kept + [e]) == Frames(kept) + [frame];
  }

  /** What a step adds to the arrivals. */
  function ArrivedIn(step: Step): seq<Bytes> {
    if step.Deliver? then [step.frame] else []
  }

  lemma StepConserves(l: Limits, digest: Bytes -> Bytes, s: State, step: Step)
    ensures var fates := FatesOf(l, digest, s, step); var t := Apply(l, digest, s, step).state;
      multiset(Frames(s.spool.entries)) + multiset(ArrivedIn(step))
      == multiset(fates.booked) + multiset(fates.expired) + multiset(fates.refused)
       + multiset(Frames(t.spool.entries))
  {
    hide Flush, FlushDropped, Frames, Offer, Dropped;
    match step
    case Connect(socket, streamOk, turns) =>
      FlushConserves(l, s.(client := Some(socket), output := Some(socket)), turns, 0);
    case Disconnect(_) =>
    case Deliver(_, _, _, _) =>
      DeliverConserves(l, digest, s, step);
  }

  lemma DeliverConserves(l: Limits, digest: Bytes -> Bytes, s: State, step: Step)
    requires step.Deliver?
    ensures var fates := FatesOf(l, digest, s, step); var t := Apply(l, digest, s, step).state;
      multiset(Frames(s.spool.entries)) + multiset([step.frame])
      == multiset(fates.booked) + multiset(fates.expired) + multiset(fates.refused)
       + multiset(Frames(t.spool.entries))
  {
    hide Frames, Dropped, Cleanup;
    OfferConserves(l, digest, s.spool, step.frame, step.swept, step.now);
    if s.output.Some? && step.ok {
      assert Apply(l, digest, s, step).state.spool == s.spool;
      hide Offer;
    } else {
      assert Apply(l, digest, s, step).state.spool == Offer(l, digest, s.spool, step.frame, step.swept, step.now).spool;
    }
  }

  /**
   * Conservation: in every run the arrivals, each as often as it came, are the frames booked as
   * delivered, the expired, the refused and the resident ones. Nothing else becomes of a frame.
   */
  lemma {:induction false} EveryFrame(l: Limits, digest: Bytes -> Bytes, steps: seq<Step>)
    ensures var fates := AllFates(l, digest, steps);
      multiset(Arrivals(steps))
      == multiset(fates.booked) + multiset(fates.expired) + multiset(fates.refused)
       + multiset(Frames(Run(l, digest, steps).spool.entries))
  {
    if steps == [] {
      assert Frames([]) == [];
    } else {
      hide Apply, FatesOf, Frames, ArrivedIn;
      var n := |steps| - 1;
      EveryFrame(l, digest, steps[..n]);
      StepConserves(l, digest, Run(l, digest, steps[..n]), steps[n]);
      ArrivalsSnoc(steps);
      var before, now := AllFates(l, digest, steps[..n]), FatesOf(l, digest, Run(l, digest, steps[..n]), steps[n]);
      hide Run, AllFates, Arrivals;
      BooksAdd(Arrivals(steps[..n]), before, Frames(Run(l, digest, steps[..n]).spool.entries),
               ArrivedIn(steps[n]), now, Frames(Run(l, digest, steps).spool.entries));
      FatesSnoc(l, digest, steps);
    }
  }

  lemma ArrivalsSnoc(steps: seq<Step>)
    requires steps != []
    ensures Arrivals(steps) == Arrivals(steps[..|steps| - 1]) + ArrivedIn(steps[|steps| - 1])
    ensures forall l: Limits, digest: Bytes -> Bytes ::
              Run(l, digest, steps) == Apply(l, digest, Run(l, digest, steps[..|steps| - 1]), steps[|steps| - 1]).state
  {
    hide Apply;
  }

  lemma FatesSnoc(l: Limits, digest: Bytes -> Bytes, steps: seq<Step>)
    requires steps != []
    ensures var n := |steps| - 1;
      AllFates(l, digest, steps)
      == AllFates(l, digest, steps[..n]).Plus(FatesOf(l, digest, Run(l, digest, steps[..n]), steps[n]))
  {
    hide FatesOf, Run;
  }

  /** Two balanced accounts, one after the other. */
  lemma BooksAdd(
    arrived: seq<Bytes>, f: Fates, resident: seq<Bytes>, more: seq<Bytes>, g: Fates, left: seq<Bytes>)
    requires multiset(arrived)
          == multiset(f.booked) + multiset(f.expired) + multiset(f.refused) + multiset(resident)
    requires multiset(resident) + multiset(more)
          == multiset(g.booked) + multiset(g.expired) + multiset(g.refused) + multiset(left)
    ensures var all := f.Plus(g);
      multiset(arrived + more)
      == multiset(all.booked) + multiset(all.expired) + multiset(all.refused) + multiset(left)
  {
    var all := f.Plus(g);
    assert multiset(all.booked) == multiset(f.booked) + multiset(g.booked);
    assert multiset(all.expired) == multiset(f.expired) + multiset(g.expired);
    assert multiset(all.refused) == multiset(f.refused) + multiset(g.refused);
    Rearranged(
      multiset(arrived), multiset(f.booked), multiset(f.expired), multiset(f.refused), multiset(resident),
      multiset(more), multiset(g.booked), multiset(g.expired), multiset(g.refused), multiset(left));
  }

  lemma Rearranged(
    a: multiset<Bytes>, b: multiset<Bytes>, e: multiset<Bytes>, r: multiset<Bytes>, s: multiset<Bytes>,
    m: multiset<Bytes>, b': multiset<Bytes>, e': multiset<Bytes>, r': multiset<Bytes>, t: multiset<Bytes>)
    requires a == b + e + r + s && s + m == b' + e' + r' + t
    ensures a + m == (b + b') + (e + e') + (r + r') + t
  {
    forall x ensures (a + m)[x] == ((b + b') + (e + e') + (r + r') + t)[x] {
      assert (s + m)[x] == (b' + e' + r' + t)[x];
    }
  }

  /** In every replay of the run no frame expires between its write and its removal. */
  ghost predicate AllPrompt(l: Limits, digest: Bytes -> Bytes, steps: seq<Step>) {
    forall k :: 0 <= k < |steps| && steps[k].Connect? && steps[k].streamOk ==>
      PromptAt(l, Run(l, digest, steps[..k]), steps[k])
  }

  ghost predicate PromptAt(l: Limits, s: State, step: Step)
    requires step.Connect?
  {
    Prompt(l, s.(client := Some(step.socket), output := Some(step.socket)), step.turns, 0)
  }

  lemma StepBooks(l: Limits, digest: Bytes -> Bytes, s: State, step: Step)
    requires Balanced(l, digest, s.spool)
    requires step.Connect? && step.streamOk ==> PromptAt(l, s, step)
    ensures FatesOf(l, digest, s, step).booked == Apply(l, digest, s, step).delivered
  {
    hide Flush, FlushDropped, Prompt, Offer, Dropped, Balanced;
    if step.Connect? && step.streamOk {
      ReplayHonestIff(
        l, digest, s.(client := Some(step.socket), output := Some(step.socket)), step.turns, 0);
    }
  }

  /** And where no frame expires in between, booked as delivered means written, in order. */
  lemma {:induction false} BookedIsWritten(l: Limits, digest: Bytes -> Bytes, steps: seq<Step>)
    requires l.Valid() && AllPrompt(l, digest, steps)
    ensures AllFates(l, digest, steps).booked == Deliveries(l, digest, steps)
  {
    if steps != [] {
      hide Apply, FatesOf, PromptAt, Good;
      var n := |steps| - 1;
      assert forall k :: 0 <= k <= n ==> steps[..n][..k] == steps[..k];
      assert AllPrompt(l, digest, steps[..n]);
      BookedIsWritten(l, digest, steps[..n]);
      RunGood(l, digest, steps[..n]);
      GoodBalanced(l, digest, Run(l, digest, steps[..n]), Deliveries(l, digest, steps[..n]), Arrivals(steps[..n]));
      StepBooks(l, digest, Run(l, digest, steps[..n]), steps[n]);
    }
  }

  lemma GoodBalanced(
    l: Limits, digest: Bytes -> Bytes, s: State, delivered: seq<Bytes>, arrivals: seq<Bytes>)
    requires Good(l, digest, s, delivered, arrivals)
    ensures Balanced(l, digest, s.spool)
  {
  }

  /** So then every arrival is delivered, expired, refused or resident. */
  lemma NoneIsLost(l: Limits, digest: Bytes -> Bytes, steps: seq<Step>)
    requires l.Valid() && AllPrompt(l, digest, steps)
    ensures var fates := AllFates(l, digest, steps);
      multiset(Arrivals(steps))
      == multiset(Deliveries(l, digest, steps)) + multiset(fates.expired) + multiset(fates.refused)
       + multiset(Frames(Run(l, digest, steps).spool.entries))
  {
    hide Run, Deliveries, Arrivals, AllFates, AllPrompt;
    EveryFrame(l, digest, steps);
    BookedIsWritten(l, digest, steps);
  }

  // ---- The counters ----

  /** How many frames of a run were answered with this verdict. */
  function Answered(l: Limits, digest: Bytes -> Bytes, steps: seq<Step>, verdict: Delivery): nat {
    if steps == [] then 0
    else
      var before, last := steps[..|steps| - 1], steps[|steps| - 1];
      Answered(l, digest, before, verdict) +
      if last.Deliver? && Apply(l, digest, Run(l, digest, before), last).delivery == verdict then 1 else 0
  }

  lemma {:induction false} CleanupCounts(l: Limits, s: Spool, now: int)
    ensures var t := Cleanup(l, s, now);
      && t.expired == s.expired + |Dropped(l, s, now)|
      && t.queued == s.queued && t.replayed == s.replayed && t.duplicates == s.duplicates && t.rejected == s.rejected
    decreases |s.entries|
  {
    if s.entries != [] && s.entries[0].createdAt < now - l.ttl {
      CleanupCounts(l, DropFirst(s).(expired := s.expired + 1), now);
    }
  }

  lemma {:induction false} FlushCounts(l: Limits, s: State, turns: nat -> Write, i: nat)
    ensures var f := Flush(l, s, turns, i); var t := f.state.spool;
      && t.expired == s.spool.expired + |FlushDropped(l, s, turns, i)|
      && t.replayed == s.spool.replayed + |f.removed|
      && t.queued == s.spool.queued && t.duplicates == s.spool.duplicates && t.rejected == s.spool.rejected
      && f.state.deliveredDirect == s.deliveredDirect
    decreases |s.spool.entries|
  {
    hide Cleanup, Dropped;
    CleanupShrinks(l, s.spool, turns(i).peekAt);
    CleanupCounts(l, s.spool, turns(i).peekAt);
    var peeked := Cleanup(l, s.spool, turns(i).peekAt);
    if peeked.entries != [] && turns(i).ok {
      RemoveShrinks(l, peeked, turns(i).removeAt);
      CleanupCounts(l, peeked, turns(i).removeAt);
      FlushCounts(l, s.(spool := RemoveReplayed(l, peeked, turns(i).removeAt)), turns, i + 1);
    }
  }

  lemma StepCounts(l: Limits, digest: Bytes -> Bytes, s: State, step: Step)
    ensures var reply := Apply(l, digest, s, step); var t := reply.state; var fates := FatesOf(l, digest, s, step);
      && t.spool.expired == s.spool.expired + |fates.expired|
      && t.spool.replayed + t.deliveredDirect == s.spool.replayed + s.deliveredDirect + |fates.booked|
      && t.deliveredDirect == s.deliveredDirect + (if step.Deliver? && reply.delivery == Delivered then 1 else 0)
      && t.spool.queued == s.spool.queued + (if step.Deliver? && reply.delivery == Spooled then 1 else 0)
      && t.spool.duplicates == s.spool.duplicates + (if step.Deliver? && reply.delivery == DuplicateFrame then 1 else 0)
      && t.spool.rejected == s.spool.rejected + (if step.Deliver? && reply.delivery == RejectedFrame then 1 else 0)
  {
    hide Flush, FlushDropped, Cleanup, Dropped;
    match step
    case Connect(socket, streamOk, turns) =>
      FlushCounts(l, s.(client := Some(socket), output := Some(socket)), turns, 0);
    case Disconnect(_) =>
    case Deliver(_, _, swept, _) =>
      CleanupCounts(l, s.spool, swept);
  }

  /**
   * The counters tell the run: how many frames were answered with each verdict, how many expired, and
   * how many were booked as delivered.
   */
  lemma {:induction false} CountersTell(l: Limits, digest: Bytes -> Bytes, steps: seq<Step>)
    ensures var t := Run(l, digest, steps); var fates := AllFates(l, digest, steps);
      && t.deliveredDirect == Answered(l, digest, steps, Delivered)
      && t.spool.queued == Answered(l, digest, steps, Spooled)
      && t.spool.duplicates == Answered(l, digest, steps, DuplicateFrame)
      && t.spool.rejected == Answered(l, digest, steps, RejectedFrame)
      && t.spool.expired == |fates.expired| && t.spool.replayed + t.deliveredDirect == |fates.booked|
  {
    hide Apply, FatesOf;
    if steps != [] {
      var n := |steps| - 1;
      CountersTell(l, digest, steps[..n]);
      StepCounts(l, digest, Run(l, digest, steps[..n]), steps[n]);
    }
  }

  // ---- Connections ----

  /**
   * A new client is the client at once. With an output stream it is served from the spool, and in the
   * end either connected to an empty spool or gone again; without one nothing is written, the spool
   * stays as it is, and frames go on to the stream of the client before.
   */
  lemma ConnectIs(
    l: Limits, digest: Bytes -> Bytes, s: State, socket: nat, streamOk: bool, turns: nat -> Write)
    ensures var reply := Apply(l, digest, s, Connect(socket, streamOk, turns)); var t := reply.state;
      && (reply.delivery == RaisedError <==> !streamOk)
      && t.deliveredDirect == s.deliveredDirect
      && (!streamOk ==> reply.delivered == [] && t == s.(client := Some(socket)))
      && (streamOk ==>
            && (t.client == t.output == Some(socket) || t.client == t.output == None)
            && (t.client.Some? ==> t.spool.entries == []))
  {
    hide Flush;
    FlushEnds(l, s.(client := Some(socket), output := Some(socket)), turns, 0);
    FlushCounts(l, s.(client := Some(socket), output := Some(socket)), turns, 0);
  }

  lemma {:induction false} FlushEnds(l: Limits, s: State, turns: nat -> Write, i: nat)
    requires s.client.Some? && s.output.Some?
    ensures var t := Flush(l, s, turns, i).state;
      || (t.client == s.client && t.output == s.output && t.spool.entries == [])
      || (t.client.None? && t.output.None?)
    decreases |s.spool.entries|
  {
    hide Cleanup, RemoveReplayed;
    CleanupShrinks(l, s.spool, turns(i).peekAt);
    var peeked := Cleanup(l, s.spool, turns(i).peekAt);
    if peeked.entries != [] && turns(i).ok {
      RemoveShrinks(l, peeked, turns(i).removeAt);
      FlushEnds(l, s.(spool := RemoveReplayed(l, peeked, turns(i).removeAt)), turns, i + 1);
    }
  }
}
