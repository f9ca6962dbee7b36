/** Draining, pacing and alternation. */
module SchedulerProgress {
  import opened Common
  import opened SchedulerSpec
  import opened SchedulerAccounting

  // ---- Draining ----

  /** Sender calls a lane can still cause: its fragments and the failures it has left. */
  function Load(q: seq<Batch>): int {
    if q == [] then 0 else |q[0].transmissions| + (MAX_FAILURES - q[0].failures) + Load(q[1..])
  }

  function Effort(s: State): int {
    Load(Pending(s, ControlLane)) + Load(Pending(s, HighLane)) +
    Load(Pending(s, NormalLane)) + Load(Pending(s, AnnounceLane))
  }

  predicate Idle(s: State) {
    AllEmpty(s) && s.inFlight.None?
  }

  /** A turn of the worker that begins at `at` or later, and whether its sender call succeeds. */
  datatype Result = Ok(at: int, advisedMillis: int) | Fail(at: int)

  /** When the turn takes its batch: after the sleep, and after the wait for a paced announcement. */
  function TakeTime(l: Limits, s: State, at: int): int {
    var awake := Max(at, s.wakeAt);
    if Choice(l, s, awake).None? then Max(awake, s.nextAnnounceStart) else awake
  }

  /** The sender call, once the pacing is waited out. */
  function CallStep(taken: State, r: Result, takenAt: int): Step {
    var startedAt := Max(takenAt, taken.nextSend);
    match r
    case Ok(_, advised) => DoSent(startedAt, startedAt, advised, startedAt)
    case Fail(_) => DoFailed(startedAt, startedAt)
  }

  /** The worker takes a batch if it has none and calls the sender once. */
  function Attempt(l: Limits, s: State, r: Result): State {
    var takenAt := TakeTime(l, s, r.at);
    var taken := Apply(l, s, DoTake(takenAt));
    Apply(l, taken, CallStep(taken, r, takenAt))
  }

  function Drain(l: Limits, s: State, results: seq<Result>): State
    decreases results
  {
    if results == [] then s else Drain(l, Attempt(l, s, results[0]), results[1..])
  }

  lemma {:induction false} LoadPositive(q: seq<Batch>)
    requires forall i :: 0 <= i < |q| ==> q[i].failures < MAX_FAILURES
    ensures Load(q) >= |q|
  {
    if q != [] {
      LoadPositive(q[1..]);
    }
  }

  lemma LaneLoad(s: State, lane: Lane)
    requires Sane(s)
    ensures Load(Pending(s, lane)) >= |Pending(s, lane)|
  {
    hide Load, Pending;
    forall i | 0 <= i < |Pending(s, lane)| ensures Pending(s, lane)[i].failures < MAX_FAILURES {
      assert SaneIn(Pending(s, lane)[i], lane);
    }
    LoadPositive(Pending(s, lane));
  }

  lemma LaneQueue(s: State, lane: Lane)
    ensures |Queue(s, lane)| <= |Pending(s, lane)|
    ensures s.inFlight.Some? && LaneOf(s.inFlight.value) == lane ==> |Pending(s, lane)| >= 1
  {
  }

  /** No effort left means nothing left. */
  lemma EffortBound(s: State)
    requires Sane(s)
    ensures Effort(s) >= 0
    ensures Effort(s) == 0 ==> Idle(s)
  {
    hide Load, Pending, Sane;
    LaneLoad(s, ControlLane);
    LaneLoad(s, HighLane);
    LaneLoad(s, NormalLane);
    LaneLoad(s, AnnounceLane);
    LaneQueue(s, ControlLane);
    LaneQueue(s, HighLane);
    LaneQueue(s, NormalLane);
    LaneQueue(s, AnnounceLane);
  }

  lemma AttemptLoad(q: seq<Batch>)
    requires q != [] && q[0].transmissions != [] && q[0].failures < MAX_FAILURES
    ensures Load(Served(q)) < Load(q) && Load(Retried(q)) < Load(q)
  {
    var b := q[0];
    var rest := b.(started := true, transmissions := b.transmissions[1..]);
    var again := b.(failures := b.failures + 1);
    assert ([rest] + q[1..])[1..] == q[1..];
    assert ([again] + q[1..])[1..] == q[1..];
  }

  /** An attempt on the batch in flight costs effort. */
  lemma ServeEffort(l: Limits, s: State, step: Step)
    requires Sane(s) && s.inFlight.Some? && (step.DoSent? || step.DoFailed?)
    ensures Effort(Apply(l, s, step)) < Effort(s)
  {
    hide Sane, Apply, Pending, Load, Served, Retried;
    InFlightHead(s);
    var lane := LaneOf(s.inFlight.value);
    AttemptLoad(Pending(s, lane));
    StepLanes(l, s, step, ControlLane);
    StepLanes(l, s, step, HighLane);
    StepLanes(l, s, step, NormalLane);
    StepLanes(l, s, step, AnnounceLane);
  }

  lemma TakeEffort(l: Limits, s: State, at: int)
    requires Sane(s)
    ensures Effort(Apply(l, s, DoTake(at))) == Effort(s)
  {
    hide Sane, Apply, Pending, Load;
    StepLanes(l, s, DoTake(at), ControlLane);
    StepLanes(l, s, DoTake(at), HighLane);
    StepLanes(l, s, DoTake(at), NormalLane);
    StepLanes(l, s, DoTake(at), AnnounceLane);
  }

  /** After its waits a worker with something queued always takes a batch. */
  lemma TakeWorks(l: Limits, s: State, at: int)
    requires Sane(s) && !Idle(s)
    ensures Apply(l, s, DoTake(TakeTime(l, s, at))).inFlight.Some?
  {
    hide Sane;
    SaneOpen(s);
  }

  /** Such turns are what the worker's waits allow. */
  lemma TurnIsLegal(l: Limits, s: State, r: Result)
    requires Sane(s) && s.inFlight.None? && !Idle(s)
    ensures var takenAt := TakeTime(l, s, r.at); var taken := Apply(l, s, DoTake(takenAt));
      Enabled(s, DoTake(takenAt)) && Enabled(taken, CallStep(taken, r, takenAt))
  {
    hide Apply, Choice, Sane;
    TakeWorks(l, s, r.at);
  }

  lemma IdleStays(l: Limits, s: State, r: Result)
    requires Sane(s) && Idle(s)
    ensures Idle(Attempt(l, s, r))
  {
  }

  lemma AttemptStep(l: Limits, s: State, r: Result)
    requires l.Valid() && Good(l, s)
    ensures Good(l, Attempt(l, s, r))
    ensures !Idle(s) ==> Effort(Attempt(l, s, r)) < Effort(s)
    ensures Idle(s) ==> Idle(Attempt(l, s, r))
  {
    hide Apply, Sane, Accounts, Bounded, Effort, Idle, TakeTime;
    var takenAt := TakeTime(l, s, r.at);
    var taken := Apply(l, s, DoTake(takenAt));
    StepGood(l, s, DoTake(takenAt));
    TakeEffort(l, s, takenAt);
    var step := CallStep(taken, r, takenAt);
    StepGood(l, taken, step);
    if Idle(s) {
      IdleStays(l, s, r);
    } else {
      TakeWorks(l, s, r.at);
      ServeEffort(l, taken, step);
    }
  }

  lemma StepGood(l: Limits, s: State, step: Step)
    requires l.Valid() && Good(l, s)
    ensures Good(l, Apply(l, s, step))
  {
    hide Apply, Sane, Accounts, Bounded;
    StepSane(l, s, step);
    StepAccounts(l, s, step);
    StepBounded(l, s, step);
  }

  lemma {:induction false} DrainEmpties(l: Limits, s: State, results: seq<Result>)
    requires l.Valid() && Good(l, s)
    requires |results| >= Effort(s) || Idle(s)
    ensures Good(l, Drain(l, s, results)) && Idle(Drain(l, s, results))
    decreases |results|
  {
    hide Attempt, Sane, Accounts, Bounded, Effort, Idle;
    assert Effort(s) >= 0 by { EffortBound(s); }
    if results == [] {
      EffortBound(s);
    } else {
      AttemptStep(l, s, results[0]);
      DrainEmpties(l, Attempt(l, s, results[0]), results[1..]);
    }
  }

  lemma IdleCounters(l: Limits, s: State, m: Measure)
    requires Good(l, s) && Idle(s)
    ensures Of(s.pending, m) == 0 && Of(s.pendingControl, m) == 0 && s.serializedFrames == 0
  {
    hide ControlSum, DataSum, SerializedCount, Sane, AllEmpty;
    assert AccountsFor(s, m);
    EmptySums(s, m);
  }

  /**
   * From every reachable open state, without further admissions, at most `Effort` sender
   * calls - whichever of them fail, whatever the announcement spacing - empty the scheduler, and
   * an empty scheduler accepts every frame that can ever fit, normally or serialized.
   */
  lemma DrainsAndAdmits(l: Limits, steps: seq<Step>, results: seq<Result>, r: Offer)
    requires l.Valid()
    requires |results| >= Effort(Run(l, steps))
    requires r.transmissions != []
    ensures var s := Drain(l, Run(l, steps), results);
      && Idle(s)
      && (Judge(l, s, r) == Accepted <==>
            CanEverFit(l, r.Size().fragments, r.Size().bytes, r.Control()) || r.Serialized(l))
  {
    hide Run, Drain, Sane, Accounts, Bounded, Effort, Idle, PayloadBytes;
    RunGood(l, steps);
    DrainEmpties(l, Run(l, steps), results);
    var s := Drain(l, Run(l, steps), results);
    assert !s.closed by { SaneOpen(s); }
    IdleCounters(l, s, Frames);
    IdleCounters(l, s, Fragments);
    IdleCounters(l, s, PayloadOctets);
  }

  // ---- Pacing ----

  /** When the next attempt may start after a send. */
  function Release(l: Limits, step: Step): int
    requires step.DoSent?
  {
    step.at + l.intervalNanos + Max(0, step.advisedMillis) * MILLI
  }

  lemma NextSend(l: Limits, s: State, step: Step)
    requires Sane(s) && l.Valid() && Enabled(s, step)
    ensures Apply(l, s, step).nextSend >= s.nextSend
    ensures step.DoSent? ==> Apply(l, s, step).nextSend == Release(l, step)
  {
    hide Sane, Choice, Judge, BatchUse;
    if s.inFlight.Some? {
      InFlightSane(s);
    }
  }

  lemma {:induction false} NextSendHeld(l: Limits, steps: seq<Step>, i: nat, k: nat)
    requires l.Valid() && Legal(l, steps) && i < k <= |steps| && steps[i].DoSent?
    ensures Run(l, steps[..k]).nextSend >= Release(l, steps[i])
    decreases k
  {
    hide Apply, Sane, Enabled, Release;
    var before := steps[..k - 1];
    assert steps[..k][..k - 1] == before;
    assert Enabled(Run(l, before), steps[k - 1]);
    assert Sane(Run(l, before)) by {
      hide Accounts, Bounded;
      RunGood(l, before);
    }
    NextSend(l, Run(l, before), steps[k - 1]);
    if i < k - 1 {
      NextSendHeld(l, steps, i, k - 1);
    }
  }

  /** Every attempt starts no earlier than any previous success plus the interval plus the advised delay. */
  lemma Paced(l: Limits, steps: seq<Step>, i: nat, j: nat)
    requires l.Valid() && Legal(l, steps) && i < j < |steps|
    requires steps[i].DoSent? && (steps[j].DoSent? || steps[j].DoFailed?)
    ensures steps[j].startedAt >= steps[i].at + l.intervalNanos + Max(0, steps[i].advisedMillis) * 1_000_000
  {
    hide Run;
    NextSendHeld(l, steps, i, j);
    assert Enabled(Run(l, steps[..j]), steps[j]);
  }

  /** The worker's own readings never run backwards; admissions come from other threads. */
  ghost predicate WorkerTimed(steps: seq<Step>) {
    forall i, j :: 0 <= i < j < |steps| && !steps[i].DoAdmit? && !steps[j].DoAdmit?
      ==> End(steps[i]) <= Start(steps[j])
  }

  /** The last reading a step takes. */
  function End(step: Step): int {
    if step.DoSent? then step.doneAt else step.at
  }

  function Start(step: Step): int {
    if step.DoSent? || step.DoFailed? then step.startedAt else step.at
  }

  /** Since the retry was scheduled nothing was taken before `wake`. */
  ghost predicate Slept(l: Limits, steps: seq<Step>, i: nat, k: nat, wake: int)
    requires k <= |steps|
  {
    && Run(l, steps[..k]).wakeAt >= wake
    && (Run(l, steps[..k]).inFlight.Some? ==> exists m :: i < m < k && steps[m].DoTake? && steps[m].at >= wake)
  }

  lemma StepSlept(l: Limits, s: State, step: Step, wake: int)
    requires Enabled(s, step) && s.wakeAt >= wake && (step.DoFailed? ==> step.at + RETRY_SLEEP >= wake)
    ensures Apply(l, s, step).wakeAt >= wake
    ensures Apply(l, s, step).inFlight.Some? ==>
              (s.inFlight.Some? && !step.DoTake?) || (step.DoTake? && step.at >= wake)
  {
    hide Choice, Judge, BatchUse;
  }

  lemma {:induction false} RunSlept(l: Limits, steps: seq<Step>, i: nat, k: nat)
    requires Legal(l, steps) && WorkerTimed(steps) && i < k <= |steps| && steps[i].DoFailed?
    requires Run(l, steps[..i + 1]).wakeAt == steps[i].at + RETRY_SLEEP && Run(l, steps[..i + 1]).inFlight.None?
    ensures Slept(l, steps, i, k, steps[i].at + RETRY_SLEEP)
    decreases k
  {
    hide Apply, Enabled;
    if k > i + 1 {
      RunSlept(l, steps, i, k - 1);
      var before := steps[..k - 1];
      assert steps[..k][..k - 1] == before;
      assert Enabled(Run(l, before), steps[k - 1]);
      EnabledTimes(Run(l, before), steps[k - 1]);
      StepSlept(l, Run(l, before), steps[k - 1], steps[i].at + RETRY_SLEEP);
    }
  }

  lemma EnabledTimes(s: State, step: Step)
    requires Enabled(s, step)
    ensures Start(step) <= step.at <= End(step)
  {
  }

  /** After a failed attempt that will be retried no attempt starts for a second. */
  lemma RetriesSleep(l: Limits, steps: seq<Step>, i: nat, j: nat)
    requires Legal(l, steps) && WorkerTimed(steps) && i < j < |steps|
    requires steps[i].DoFailed? && (steps[j].DoSent? || steps[j].DoFailed?)
    requires !Run(l, steps[..i]).closed && Run(l, steps[..i]).inFlight.Some?
    requires Run(l, steps[..i]).inFlight.value.failures + 1 < 3
    ensures steps[j].startedAt >= steps[i].at + 1_000_000_000
  {
    hide BatchUse;
    assert steps[..i + 1][..i] == steps[..i];
    RunSlept(l, steps, i, j);
    assert Enabled(Run(l, steps[..j]), steps[j]);
  }

  // ---- Alternation ----

  /** Which successful sends were repair traffic. */
  function Kinds(l: Limits, steps: seq<Step>): seq<bool> {
    if steps == [] then []
    else
      var before, step := steps[..|steps| - 1], steps[|steps| - 1];
      var s := Run(l, before);
      Kinds(l, before) +
      if step.DoSent? && s.inFlight.Some? && s.inFlight.value.transmissions != []
      then [s.inFlight.value.control] else []
  }

  predicate Contested(s: State) {
    s.control != [] && !DataEmpty(s)
  }

  ghost predicate LastWasControl(kinds: seq<bool>) {
    kinds != [] && kinds[|kinds| - 1]
  }

  lemma StepCounter(l: Limits, s: State, step: Step, kinds: seq<bool>)
    requires Sane(s)
    requires s.consecutiveControl >= 0 && (s.consecutiveControl >= 1 <==> LastWasControl(kinds))
    ensures var t := Apply(l, s, step);
            var kinds' := kinds + (if step.DoSent? && s.inFlight.Some? && s.inFlight.value.transmissions != []
                                   then [s.inFlight.value.control] else []);
      t.consecutiveControl >= 0 && (t.consecutiveControl >= 1 <==> LastWasControl(kinds'))
  {
    hide Sane, Choice, Judge, BatchUse;
    assert kinds + [] == kinds;
  }

  lemma {:induction false} RunCounter(l: Limits, steps: seq<Step>)
    requires l.Valid()
    ensures var s := Run(l, steps);
      Sane(s) && s.consecutiveControl >= 0 && (s.consecutiveControl >= 1 <==> LastWasControl(Kinds(l, steps)))
  {
    hide Apply, Sane, Accounts, Bounded, LastWasControl;
    RunGood(l, steps);
    if steps != [] {
      var n := |steps| - 1;
      RunCounter(l, steps[..n]);
      StepCounter(l, Run(l, steps[..n]), steps[n], Kinds(l, steps[..n]));
    } else {
      assert !LastWasControl([]) by { NoLast(); }
    }
  }

  lemma NoLast()
    ensures !LastWasControl([])
  {
  }

  lemma TakeContested(l: Limits, s: State, at: int)
    requires Sane(s) && s.inFlight.None? && Contested(s)
    ensures var t := Apply(l, s, DoTake(at));
      && (t.inFlight.Some?
          <==> s.consecutiveControl < 1 || s.high != [] || s.normal != [] || AnnounceReady(l, s, at))
      && (t.inFlight.Some? ==> t.inFlight.value.control == (s.consecutiveControl < 1))
  {
    hide Sane, SaneIn;
    SaneOpen(s);
    if Choice(l, s, at).Some? {
      TakeLaneOf(l, s, at);
    }
  }

  lemma TakeLaneOf(l: Limits, s: State, at: int)
    requires Sane(s) && s.inFlight.None? && Choice(l, s, at).Some? && Queue(s, Choice(l, s, at).value) != []
    ensures LaneOf(Queue(s, Choice(l, s, at).value)[0]) == Choice(l, s, at).value
  {
    hide Choice, Queue;
    HeadOfQueueSane(s, Choice(l, s, at).value);
  }

  /**
   * When both kinds of traffic are queued the worker takes repair traffic exactly if the last
   * successful send was not repair traffic. It takes nothing, and repair traffic waits too, exactly
   * if the last one was and the only data queued is announcements none of which may begin yet.
   */
  lemma ContestedChoice(l: Limits, steps: seq<Step>, at: int)
    requires l.Valid()
    requires Run(l, steps).inFlight.None? && Contested(Run(l, steps))
    ensures var s, t := Run(l, steps), Apply(l, Run(l, steps), DoTake(at));
      && (t.inFlight.None?
          <==> LastWasControl(Kinds(l, steps)) && s.high == [] && s.normal == [] && !AnnounceReady(l, s, at))
      && (t.inFlight.Some? ==> (t.inFlight.value.control <==> !LastWasControl(Kinds(l, steps))))
  {
    hide Run, Apply, Sane, Contested, LastWasControl, AnnounceReady;
    RunCounter(l, steps);
    TakeContested(l, Run(l, steps), at);
  }

  /** What is in flight, in terms of what was sent last. */
  ghost predicate Turn(s: State, kinds: seq<bool>) {
    && (s.inFlight.Some? ==> (s.inFlight.value.control <==> !LastWasControl(kinds)))
    && (forall i :: 0 <= i < |kinds| ==> kinds[i] == (i % 2 == 0))
  }

  lemma StepTurn(l: Limits, s: State, step: Step, kinds: seq<bool>)
    requires Sane(s) && Turn(s, kinds)
    requires s.consecutiveControl >= 0 && (s.consecutiveControl >= 1 <==> LastWasControl(kinds))
    requires step.DoTake? && s.inFlight.None? ==> Contested(s)
    ensures var t := Apply(l, s, step);
            var kinds' := kinds + (if step.DoSent? && s.inFlight.Some? && s.inFlight.value.transmissions != []
                                   then [s.inFlight.value.control] else []);
      Turn(t, kinds')
  {
    assert kinds + [] == kinds;
    if step.DoTake? && s.inFlight.None? {
      hide Apply, Sane, Contested;
      TakeContested(l, s, step.at);
    } else {
      hide Sane, Choice, Judge, BatchUse;
    }
  }

  lemma {:induction false} RunTurn(l: Limits, steps: seq<Step>)
    requires l.Valid()
    requires forall i :: 0 <= i < |steps| && steps[i].DoTake? && Run(l, steps[..i]).inFlight.None?
               ==> Contested(Run(l, steps[..i]))
    ensures Turn(Run(l, steps), Kinds(l, steps))
  {
    if steps != [] {
      hide Apply, Sane, Contested, Turn, LastWasControl;
      var n := |steps| - 1;
      assert forall i :: 0 <= i < n ==> steps[..n][..i] == steps[..i];
      RunTurn(l, steps[..n]);
      RunCounter(l, steps[..n]);
      StepTurn(l, Run(l, steps[..n]), steps[n], Kinds(l, steps[..n]));
    }
  }

  /** With both kinds always queued, successful sends alternate, repair traffic first, whatever fails. */
  lemma Alternates(l: Limits, steps: seq<Step>)
    requires l.Valid()
    requires forall i :: 0 <= i < |steps| && steps[i].DoTake? && Run(l, steps[..i]).inFlight.None?
               ==> Contested(Run(l, steps[..i]))
    ensures forall i :: 0 <= i < |Kinds(l, steps)| ==> Kinds(l, steps)[i] == (i % 2 == 0)
  {
    hide Run, Kinds;
    RunTurn(l, steps);
  }

  // ---- Announcements ----

  /** The step sends the last fragment of a data frame that is no announcement. */
  predicate FinishesOther(s: State, step: Step) {
    && step.DoSent? && s.inFlight.Some? && |s.inFlight.value.transmissions| == 1
    && LaneOf(s.inFlight.value) in {HighLane, NormalLane}
  }

  /** How many data frames other than announcements a run has finished. */
  function OthersFinished(l: Limits, steps: seq<Step>): nat {
    if steps == [] then 0
    else
      var before := steps[..|steps| - 1];
      OthersFinished(l, before) + (if FinishesOther(Run(l, before), steps[|steps| - 1]) then 1 else 0)
  }

  /** An announcement is queued and none is being sent. */
  predicate AnnounceWaits(s: State) {
    s.announce != [] && (s.inFlight.Some? ==> LaneOf(s.inFlight.value) != AnnounceLane)
  }

  /** After `n` other frames have finished in front of a waiting announcement. */
  ghost predicate Bypassed(s: State, n: int) {
    && n <= ANNOUNCE_BYPASS
    && 0 <= s.consecutiveNonAnnounce && n <= s.consecutiveNonAnnounce
    && (n >= 1 && s.inFlight.Some? && !s.inFlight.value.control ==> s.consecutiveNonAnnounce < ANNOUNCE_BYPASS)
  }

  lemma StepBypassed(l: Limits, s: State, step: Step, n: int)
    requires Sane(s) && Bypassed(s, n) && (step.DoTake? ==> AnnounceReady(l, s, step.at))
    requires AnnounceWaits(s) && AnnounceWaits(Apply(l, s, step))
    ensures Bypassed(Apply(l, s, step), n + (if FinishesOther(s, step) then 1 else 0))
  {
    if step.DoTake? && s.inFlight.None? {
      TakeBypassed(l, s, step.at, n);
    } else {
      hide Sane, Choice, Judge, BatchUse;
      if s.inFlight.Some? {
        InFlightSane(s);
      }
    }
  }

  /** With an announcement waiting another data frame is taken only while fewer than four have finished. */
  lemma TakeBypassed(l: Limits, s: State, at: int, n: int)
    requires Sane(s) && Bypassed(s, n) && s.inFlight.None? && AnnounceReady(l, s, at)
    requires AnnounceWaits(s) && AnnounceWaits(Apply(l, s, DoTake(at)))
    ensures Bypassed(Apply(l, s, DoTake(at)), n)
  {
    hide Sane, SaneIn;
    SaneOpen(s);
    TakeLaneOf(l, s, at);
  }

  /** From `start` on the waiting announcement may begin whenever the worker takes a batch. */
  ghost predicate ReadyThroughout(l: Limits, steps: seq<Step>, start: nat) {
    forall k :: start <= k < |steps| && steps[k].DoTake? ==> AnnounceReady(l, Run(l, steps[..k]), steps[k].at)
  }

  lemma {:induction false} RunBypassed(l: Limits, steps: seq<Step>, start: nat)
    requires l.Valid() && start <= |steps| && ReadyThroughout(l, steps, start)
    requires forall k :: start <= k <= |steps| ==> AnnounceWaits(Run(l, steps[..k]))
    ensures Bypassed(Run(l, steps), OthersFinished(l, steps) - OthersFinished(l, steps[..start]))
  {
    hide Apply, Sane, AnnounceWaits, FinishesOther, AnnounceReady;
    assert steps[..|steps|] == steps;
    if start == |steps| {
      CounterIsHistory(l, steps);
    } else {
      var n := |steps| - 1;
      assert forall k :: 0 <= k <= n ==> steps[..n][..k] == steps[..k];
      assert ReadyThroughout(l, steps[..n], start);
      assert AnnounceWaits(Run(l, steps[..n])) && AnnounceWaits(Run(l, steps[..|steps|]));
      RunBypassed(l, steps[..n], start);
      RunCounter(l, steps[..n]);
      StepBypassed(
        l, Run(l, steps[..n]), steps[n], OthersFinished(l, steps[..n]) - OthersFinished(l, steps[..start]));
    }
  }

  /** While an announcement that may begin waits, at most four other data frames finish before one is taken up. */
  lemma BoundedBypass(l: Limits, steps: seq<Step>, start: nat)
    requires l.Valid() && start <= |steps| && ReadyThroughout(l, steps, start)
    requires forall k :: start <= k <= |steps| ==> AnnounceWaits(Run(l, steps[..k]))
    ensures OthersFinished(l, steps) <= OthersFinished(l, steps[..start]) + 4
  {
    hide Run, OthersFinished;
    RunBypassed(l, steps, start);
  }

  // ---- Priorities ----

  /** Data frames other than announcements finished since the last announcement finished. */
  function SinceAnnouncement(l: Limits, steps: seq<Step>): nat {
    if steps == [] then 0
    else
      var before, step := steps[..|steps| - 1], steps[|steps| - 1];
      var s := Run(l, before);
      if FinishesAnnouncement(s, step) then 0
      else SinceAnnouncement(l, before) + (if FinishesOther(s, step) then 1 else 0)
  }

  /** The step sends the last fragment of an announcement. */
  predicate FinishesAnnouncement(s: State, step: Step) {
    && step.DoSent? && s.inFlight.Some? && |s.inFlight.value.transmissions| == 1
    && LaneOf(s.inFlight.value) == AnnounceLane
  }

  lemma {:induction false} CounterIsHistory(l: Limits, steps: seq<Step>)
    ensures Run(l, steps).consecutiveNonAnnounce == SinceAnnouncement(l, steps)
  {
    if steps != [] {
      hide Apply, FinishesAnnouncement, FinishesOther;
      var n := |steps| - 1;
      CounterIsHistory(l, steps[..n]);
      CounterStep(l, Run(l, steps[..n]), steps[n]);
    }
  }

  lemma CounterStep(l: Limits, s: State, step: Step)
    ensures Apply(l, s, step).consecutiveNonAnnounce
         == if FinishesAnnouncement(s, step) then 0
            else s.consecutiveNonAnnounce + (if FinishesOther(s, step) then 1 else 0)
  {
    hide Choice, Judge, BatchUse, PayloadBytes;
  }

  /**
   * Which data goes first, in terms of what was finished before: a normal frame only when no
   * high one is queued; an announcement only when no other data is queued or four other data
   * frames finished since the last announcement; and other data not while an announcement that
   * may begin is overdue in that sense.
   */
  lemma TakesByPriority(l: Limits, steps: seq<Step>, at: int)
    requires l.Valid() && Run(l, steps).inFlight.None?
    ensures var s, t := Run(l, steps), Apply(l, Run(l, steps), DoTake(at));
            var ready, overdue := AnnounceReady(l, s, at), SinceAnnouncement(l, steps) >= 4;
      t.inFlight.Some? ==>
        match LaneOf(t.inFlight.value)
        case ControlLane => true
        case HighLane => !ready || !overdue
        case NormalLane => s.high == [] && (!ready || !overdue)
        case AnnounceLane => ready && ((s.high == [] && s.normal == []) || overdue)
  {
    hide Run, Sane, SaneIn, Accounts, Bounded;
    CounterIsHistory(l, steps);
    RunGood(l, steps);
    var s := Run(l, steps);
    SaneOpen(s);
    if Choice(l, s, at).Some? && Queue(s, Choice(l, s, at).value) != [] {
      TakeLaneOf(l, s, at);
    }
  }

  /** Finishing an announcement, and nothing else, moves the start of the next one. */
  lemma NextAnnounce(l: Limits, s: State, step: Step)
    ensures Apply(l, s, step).nextAnnounceStart
         == if FinishesAnnouncement(s, step) then step.doneAt + l.announceNanos else s.nextAnnounceStart
  {
    hide Choice, Judge, BatchUse, PayloadBytes;
  }

  lemma {:induction false} AnnounceHeld(l: Limits, steps: seq<Step>, i: nat, k: nat)
    requires Legal(l, steps) && WorkerTimed(steps) && i < k <= |steps|
    requires FinishesAnnouncement(Run(l, steps[..i]), steps[i])
    ensures Run(l, steps[..k]).nextAnnounceStart >= steps[i].doneAt + l.announceNanos
    decreases k
  {
    hide Apply, Enabled;
    var before := steps[..k - 1];
    assert steps[..k][..k - 1] == before;
    NextAnnounce(l, Run(l, before), steps[k - 1]);
    assert Enabled(Run(l, before), steps[k - 1]);
    EnabledTimes(Run(l, before), steps[k - 1]);
    if i < k - 1 {
      AnnounceHeld(l, steps, i, k - 1);
    }
  }

  /** A new announcement is taken up no earlier than the spacing after any earlier one was finished. */
  lemma AnnouncementsSpaced(l: Limits, steps: seq<Step>, i: nat, j: nat)
    requires l.Valid() && Legal(l, steps) && WorkerTimed(steps) && i < j < |steps|
    requires FinishesAnnouncement(Run(l, steps[..i]), steps[i])
    requires steps[j].DoTake? && Run(l, steps[..j]).inFlight.None?
    requires var t := Apply(l, Run(l, steps[..j]), steps[j]);
      t.inFlight.Some? && LaneOf(t.inFlight.value) == AnnounceLane && !t.inFlight.value.started
    ensures steps[j].at >= steps[i].doneAt + l.announceNanos
  {
    hide Run, Sane, SaneIn, Accounts, Bounded, Enabled;
    AnnounceHeld(l, steps, i, j);
    RunGood(l, steps[..j]);
    var s := Run(l, steps[..j]);
    SaneOpen(s);
    if Choice(l, s, steps[j].at).Some? && Queue(s, Choice(l, s, steps[j].at).value) != [] {
      TakeLaneOf(l, s, steps[j].at);
    }
    if l.announceNanos == 0 {
      assert i < j && !steps[i].DoAdmit? && !steps[j].DoAdmit?;
    }
  }
}
