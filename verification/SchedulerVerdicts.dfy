/** Every verdict of admission, told from the offer and from what is really pending. */
module SchedulerVerdicts {
  import opened SchedulerSpec
  import opened SchedulerAccounting
  import opened SchedulerOrder
  import opened SchedulerProgress

  /** The frame fits an empty scheduler: repair traffic all of it, data what the reserve leaves. */
  predicate FitsWhenEmpty(l: Limits, r: Offer) {
    var kept := if r.Control() then Use(0, 0, 0) else l.reserve;
    |r.transmissions| + kept.fragments <= l.max.fragments && PayloadBytes(r.transmissions) + kept.bytes <= l.max.bytes
  }

  /** The frame is too big for that, and within the limits its caller allows for one sent on its own. */
  predicate SentAlone(l: Limits, r: Offer) {
    && !r.Control() && !FitsWhenEmpty(l, r)
    && 0 < r.maxSerializedFragments && 0 < r.maxSerializedBytes
    && |r.transmissions| <= r.maxSerializedFragments && PayloadBytes(r.transmissions) <= r.maxSerializedBytes
  }

  /** What is queued and in flight leaves room for the frame. */
  ghost predicate HasRoom(l: Limits, s: State, r: Offer) {
    if SentAlone(l, r) then DataSum(s, Frames) == 0
    else
      && RoomIn(l, s, r, Frames, 1)
      && RoomIn(l, s, r, Fragments, |r.transmissions|)
      && RoomIn(l, s, r, PayloadOctets, PayloadBytes(r.transmissions))
  }

  ghost predicate RoomIn(l: Limits, s: State, r: Offer, m: Measure, size: nat) {
    if SerializedCount(s) > 0 then r.Control() && ControlSum(s, m) + size <= Of(l.reserve, m)
    else if r.Control() then ControlSum(s, m) + DataSum(s, m) + size <= Of(l.max, m)
    else ControlSum(s, m) + DataSum(s, m) + size + Of(l.reserve, m) <= Of(l.max, m)
  }

  lemma SameNotions(l: Limits, r: Offer)
    ensures FitsWhenEmpty(l, r) <==> CanEverFit(l, r.Size().fragments, r.Size().bytes, r.Control())
    ensures SentAlone(l, r) <==> r.Serialized(l)
  {
    hide PayloadBytes;
  }

  lemma SameRoom(l: Limits, s: State, r: Offer)
    ensures (RoomIn(l, s, r, Frames, 1) && RoomIn(l, s, r, Fragments, |r.transmissions|)
             && RoomIn(l, s, r, PayloadOctets, PayloadBytes(r.transmissions)))
       <==> forall m :: RoomFor(l, s, r, m)
  {
    hide PayloadBytes, ControlSum, DataSum, SerializedCount;
    assert RoomIn(l, s, r, Frames, 1) <==> RoomFor(l, s, r, Frames);
    assert RoomIn(l, s, r, Fragments, |r.transmissions|) <==> RoomFor(l, s, r, Fragments);
    assert RoomIn(l, s, r, PayloadOctets, PayloadBytes(r.transmissions)) <==> RoomFor(l, s, r, PayloadOctets);
    hide RoomIn, RoomFor;
    forall m | RoomFor(l, s, r, Frames) && RoomFor(l, s, r, Fragments) && RoomFor(l, s, r, PayloadOctets)
      ensures RoomFor(l, s, r, m)
    {
      match m
      case Frames =>
      case Fragments =>
      case PayloadOctets =>
    }
  }

  /**
   * The verdict in every reachable open state. `Empty`: nothing was offered. `Impossible`: it can
   * never be taken. `Accepted` and `Full`: it can, and there is or there is not room for it beside
   * what is queued and in flight.
   */
  lemma VerdictIff(l: Limits, steps: seq<Step>, r: Offer)
    requires l.Valid()
    ensures var s := Run(l, steps); var verdict := Judge(l, s, r);
            var possible := FitsWhenEmpty(l, r) || SentAlone(l, r);
      && (verdict == Empty <==> r.transmissions == [])
      && (verdict == Impossible <==> r.transmissions != [] && !possible)
      && (verdict == Accepted <==> r.transmissions != [] && possible && HasRoom(l, s, r))
      && (verdict == Full <==> r.transmissions != [] && possible && !HasRoom(l, s, r))
      && verdict != Closed
  {
    hide Run, PayloadBytes, FitsWhenEmpty, SentAlone, CanEverFit, RoomIn, RoomFor, HasCapacity, HasSerializedCapacity;
    var s := Run(l, steps);
    SameNotions(l, r);
    SameRoom(l, s, r);
    if r.transmissions != [] {
      AdmitsIff(l, steps, r);
    }
    RunSane(l, steps);
    SaneOpen(s);
  }

  /** After `close` nothing is taken any more and no caller waits. */
  lemma ClosedVerdict(l: Limits, s: State, r: Offer)
    requires s.closed
    ensures var verdict := Judge(l, s, r); var possible := FitsWhenEmpty(l, r) || SentAlone(l, r);
      && (verdict == Empty <==> r.transmissions == [])
      && (verdict == Impossible <==> r.transmissions != [] && !possible)
      && (verdict == Closed <==> r.transmissions != [] && possible)
      && Admit(l, s, r) == s
  {
    hide PayloadBytes, FitsWhenEmpty, SentAlone, CanEverFit, HasCapacity, HasSerializedCapacity;
    SameNotions(l, r);
  }

  function After(l: Limits, s: State, steps: seq<Step>): State {
    if steps == [] then s else Apply(l, After(l, s, steps[..|steps| - 1]), steps[|steps| - 1])
  }

  /** A closed scheduler ends the attempt in flight; one that fails leaves nothing to try again. */
  lemma ClosedStep(l: Limits, s: State, step: Step)
    requires s.closed
    ensures var t := Apply(l, s, step);
      && t.closed && (t == s || (s.inFlight.Some? && t.inFlight.None?))
      && (step.DoAdmit? || step.DoTake? ==> t == s)
      && (step.DoFailed? ==> forall lane :: Queue(t, lane) == Queue(s, lane))
  {
    hide Choice, BatchUse, PayloadBytes;
    if step.DoAdmit? {
      ClosedVerdict(l, s, step.request);
    }
  }

  /**
   * Whatever follows `close`, at most one attempt ends, the one that was in flight; with its end
   * everything stops, and if it failed the queues are as `close` left them.
   */
  lemma {:induction false} OneMoreAttempt(l: Limits, s: State, steps: seq<Step>)
    requires s.closed
    ensures var t := After(l, s, steps);
      && t.closed
      && (|| t == s
          || (s.inFlight.Some? && t.inFlight.None? && exists i :: 0 <= i < |steps| && t == Apply(l, s, steps[i])))
      && ((forall i :: 0 <= i < |steps| ==> !steps[i].DoSent?) ==> forall lane :: Queue(t, lane) == Queue(s, lane))
  {
    hide Apply, Queue;
    if steps != [] {
      var n := |steps| - 1;
      var before := After(l, s, steps[..n]);
      OneMoreAttempt(l, s, steps[..n]);
      ClosedStep(l, before, steps[n]);
      if before != s && After(l, s, steps) == before {
        var i :| 0 <= i < n && before == Apply(l, s, steps[..n][i]);
        assert steps[i] == steps[..n][i];
      }
    }
  }

  /** A caller that waits after `Full` is served: once the queues have drained the offer is accepted. */
  lemma FullIsServed(l: Limits, steps: seq<Step>, results: seq<Result>, r: Offer)
    requires l.Valid() && Judge(l, Run(l, steps), r) == Full
    requires |results| >= Effort(Run(l, steps))
    ensures Judge(l, Drain(l, Run(l, steps), results), r) == Accepted
  {
    hide Run, Drain, Effort, PayloadBytes, CanEverFit, HasCapacity, HasSerializedCapacity;
    VerdictIff(l, steps, r);
    SameNotions(l, r);
    DrainsAndAdmits(l, steps, results, r);
  }

  // ---- What becomes of an accepted offer ----

  /**
   * An accepted offer is one new batch behind everything else of its kind, with its transmissions,
   * its priority, no failure and nothing sent; repair traffic has no priority of its own.
   */
  lemma AcceptedBatch(l: Limits, s: State, r: Offer)
    requires Judge(l, s, r) == Accepted
    ensures var t := Admit(l, s, r);
            var b := Batch(r.transmissions, r.Control(), if r.Control() then HighPriority else r.priority,
                           SentAlone(l, r), 0, false);
      && (if r.Control() then t.control == s.control + [b] else t.control == s.control)
      && (if !r.Control() && r.priority == HighPriority then t.high == s.high + [b] else t.high == s.high)
      && (if !r.Control() && r.priority == NormalPriority then t.normal == s.normal + [b] else t.normal == s.normal)
      && (if !r.Control() && r.priority == AnnouncePriority then t.announce == s.announce + [b]
          else t.announce == s.announce)
  {
    hide PayloadBytes, FitsWhenEmpty, SentAlone, CanEverFit, HasCapacity, HasSerializedCapacity, BatchUse;
    SameNotions(l, r);
  }

  // ---- Who goes first, by priority ----

  /** A data batch of this priority is queued. */
  ghost predicate Queued(s: State, priority: Priority) {
    exists lane, i :: 0 <= i < |Queue(s, lane)| && OfPriority(Queue(s, lane)[i], priority)
  }

  predicate OfPriority(b: Batch, priority: Priority) {
    !b.control && b.priority == priority
  }

  function LaneFor(priority: Priority): Lane {
    match priority
    case HighPriority => HighLane
    case NormalPriority => NormalLane
    case AnnouncePriority => AnnounceLane
  }

  lemma QueuedIff(s: State, priority: Priority)
    requires Sane(s)
    ensures Queued(s, priority) <==> Queue(s, LaneFor(priority)) != []
  {
    hide Sane, Queue;
    var own := LaneFor(priority);
    if Queue(s, own) != [] {
      InQueueSane(s, own, 0);
      assert OfPriority(Queue(s, own)[0], priority);
    }
    if Queued(s, priority) {
      var lane, i :| 0 <= i < |Queue(s, lane)| && OfPriority(Queue(s, lane)[i], priority);
      InQueueSane(s, lane, i);
    }
  }

  lemma InQueueSane(s: State, lane: Lane, i: nat)
    requires Sane(s) && i < |Queue(s, lane)|
    ensures LaneOf(Queue(s, lane)[i]) == lane
  {
    hide Queue;
    var before := |Pending(s, lane)| - |Queue(s, lane)|;
    assert Pending(s, lane)[before + i] == Queue(s, lane)[i];
    assert SaneIn(Pending(s, lane)[before + i], lane);
  }

  lemma LaneIs(b: Batch)
    requires !b.control
    ensures LaneOf(b) == LaneFor(b.priority)
  {
  }

  /**
   * Who goes first, by the priorities the callers gave: a normal frame only with no high one
   * queued; an announcement only with no other data queued, or after four other data frames were
   * finished since the last one, and then before any of them.
   */
  lemma PriorityOrder(l: Limits, steps: seq<Step>, at: int)
    requires l.Valid() && Run(l, steps).inFlight.None?
    ensures var s, t := Run(l, steps), Apply(l, Run(l, steps), DoTake(at));
            var overdue := AnnounceReady(l, s, at) && SinceAnnouncement(l, steps) >= 4;
      t.inFlight.Some? && !t.inFlight.value.control ==>
        match t.inFlight.value.priority
        case HighPriority => !overdue
        case NormalPriority => !Queued(s, HighPriority) && !overdue
        case AnnouncePriority =>
          AnnounceReady(l, s, at)
          && ((!Queued(s, HighPriority) && !Queued(s, NormalPriority)) || overdue)
  {
    hide Run, Apply, Sane, Queued, LaneOf, AnnounceReady, SinceAnnouncement;
    var s, t := Run(l, steps), Apply(l, Run(l, steps), DoTake(at));
    RunSane(l, steps);
    TakesByPriority(l, steps, at);
    QueuedIff(s, HighPriority);
    QueuedIff(s, NormalPriority);
    if t.inFlight.Some? && !t.inFlight.value.control {
      LaneIs(t.inFlight.value);
    }
  }

  // ---- Started ----

  /** What is marked as started in a lane is exactly what some fragment of was sent. */
  ghost predicate StartedAgree(rs: seq<Record>, q: seq<Batch>) {
    |q| <= |rs| && forall j :: 0 <= j < |q| ==> (q[j].started <==> rs[|rs| - |q| + j].sent > 0)
  }

  lemma StepStarted(l: Limits, s: State, step: Step, lane: Lane, rs: seq<Record>)
    requires Sane(s) && Explains(rs, Pending(s, lane)) && StartedAgree(rs, Pending(s, lane))
    ensures StartedAgree(Charge(l, s, step, lane, rs), Pending(Apply(l, s, step), lane))
  {
    hide Explains, Apply, Judge, Sane, Pending;
    StepLanes(l, s, step, lane);
    var q := Pending(s, lane);
    if s.inFlight.Some? && !step.DoTake? && !step.DoAdmit? {
      InFlightHead(s);
      if LaneOf(s.inFlight.value) == lane {
        ServedShape(q);
        RetriedShape(q);
      }
    }
  }

  lemma {:induction false} StartedIff(l: Limits, steps: seq<Step>, lane: Lane)
    requires l.Valid()
    ensures StartedAgree(Records(l, steps, lane), Pending(Run(l, steps), lane))
  {
    if steps != [] {
      hide Apply, Explains, Sane, Pending, Charge, Run, Records, Log, Sends, StartedAgree;
      var before, step := steps[..|steps| - 1], steps[|steps| - 1];
      StartedIff(l, before, lane);
      RunSane(l, before);
      RunExplains(l, before, lane);
      Snoc(l, steps, lane);
      StepStarted(l, Run(l, before), step, lane, Records(l, before, lane));
    }
  }

  // ---- Three attempts ----

  /** A frame is given up exactly at its third failed attempt, with what was sent of it, and never before. */
  lemma GivenUpAtThree(l: Limits, steps: seq<Step>, lane: Lane)
    requires l.Valid()
    ensures var rs := Records(l, steps, lane); var waiting := |Pending(Run(l, steps), lane)|;
      && waiting <= |rs|
      && (forall i :: 0 <= i < |rs| - waiting ==>
            if rs[i].failures == 3 then rs[i].sent < |rs[i].fragments|
            else rs[i].failures < 3 && rs[i].sent == |rs[i].fragments|)
      && (forall i :: |rs| - waiting <= i < |rs| ==> rs[i].failures < 3 && rs[i].sent < |rs[i].fragments|)
  {
    hide Run, Records, Pending, Sends, Log;
    RunExplains(l, steps, lane);
    var rs, q := Records(l, steps, lane), Pending(Run(l, steps), lane);
    forall i | |rs| - |q| <= i < |rs| ensures rs[i].failures < 3 && rs[i].sent < |rs[i].fragments| {
      assert Tells(rs[|rs| - |q| + (i - (|rs| - |q|))], q[i - (|rs| - |q|)]);
    }
  }
}
