/** Counters, limits and the repair reserve in every reachable open state. */
module SchedulerAccounting {
  import opened Common
  import opened SchedulerSpec

  /** What a lane still has to send: the batch in flight, if it came from there, then the queue. */
  function Pending(s: State, lane: Lane): seq<Batch> {
    (if s.inFlight.Some? && LaneOf(s.inFlight.value) == lane then [s.inFlight.value] else []) + Queue(s, lane)
  }

  /** A lane after its first batch has sent one fragment. */
  function Served(q: seq<Batch>): seq<Batch>
    requires q != [] && q[0].transmissions != []
  {
    var rest := q[0].(started := true, transmissions := q[0].transmissions[1..]);
    if rest.transmissions == [] then q[1..] else [rest] + q[1..]
  }

  /** A lane after an attempt on its first batch has failed. */
  function Retried(q: seq<Batch>): seq<Batch>
    requires q != []
  {
    var b := q[0].(failures := q[0].failures + 1);
    if b.failures < MAX_FAILURES then [b] + q[1..] else q[1..]
  }

  function LaneAfter(l: Limits, s: State, step: Step, lane: Lane): seq<Batch>
    requires s.inFlight.Some? ==> s.inFlight.value.transmissions != []
  {
    match step
    case DoAdmit(r, _) =>
      if Judge(l, s, r) == Accepted && LaneOf(r.ToBatch(l)) == lane then Pending(s, lane) + [r.ToBatch(l)]
      else Pending(s, lane)
    case DoTake(_) => Pending(s, lane)
    case DoSent(_, _, _, _) =>
      if s.inFlight.Some? && LaneOf(s.inFlight.value) == lane then Served(Pending(s, lane)) else Pending(s, lane)
    case DoFailed(_, _) =>
      if s.inFlight.Some? && LaneOf(s.inFlight.value) == lane then Retried(Pending(s, lane)) else Pending(s, lane)
  }

  ghost predicate Sane(s: State) {
    && !s.closed
    && forall lane, i :: 0 <= i < |Pending(s, lane)| ==> SaneIn(Pending(s, lane)[i], lane)
  }

  predicate SaneIn(b: Batch, lane: Lane) {
    && LaneOf(b) == lane
    && b.transmissions != []
    && b.failures < MAX_FAILURES
    && (b.control ==> !b.serialized)
  }

  lemma InFlightSane(s: State)
    requires Sane(s) && s.inFlight.Some?
    ensures SaneIn(s.inFlight.value, LaneOf(s.inFlight.value))
  {
    assert Pending(s, LaneOf(s.inFlight.value))[0] == s.inFlight.value;
  }

  lemma HeadOfQueueSane(s: State, lane: Lane)
    requires Sane(s) && s.inFlight.None? && Queue(s, lane) != []
    ensures SaneIn(Queue(s, lane)[0], lane)
  {
    assert Pending(s, lane)[0] == Queue(s, lane)[0];
  }

  /** Each step changes the lanes as `LaneAfter` says; taking a batch and putting it back change nothing. */
  lemma StepLanes(l: Limits, s: State, step: Step, lane: Lane)
    requires Sane(s)
    ensures s.inFlight.Some? ==> s.inFlight.value.transmissions != []
    ensures Pending(Apply(l, s, step), lane) == LaneAfter(l, s, step, lane)
  {
    hide Sane, Choice, Judge, Take, Sent, Failed, Admit, Pending;
    SaneOpen(s);
    if s.inFlight.Some? {
      InFlightSane(s);
    }
    match step
    case DoAdmit(r, _) => AdmitLanes(l, s, r, lane);
    case DoTake(at) => TakeLanes(l, s, at, lane);
    case DoSent(_, at, advised, doneAt) =>
      if s.inFlight.Some? {
        SentLanes(l, s, at, advised, doneAt, lane);
      }
    case DoFailed(_, at) =>
      if s.inFlight.Some? {
        FailedLanes(s, at, lane);
      }
  }

  lemma AdmitLanes(l: Limits, s: State, r: Offer, lane: Lane)
    ensures Pending(Admit(l, s, r), lane)
         == if Judge(l, s, r) == Accepted && LaneOf(r.ToBatch(l)) == lane then Pending(s, lane) + [r.ToBatch(l)]
            else Pending(s, lane)
  {
    hide Judge, BatchUse, Queue, WithQueue, LaneOf;
    if Judge(l, s, r) == Accepted {
      var b := r.ToBatch(l);
      var q := Queue(s, LaneOf(b)) + [b];
      QueueWith(s, LaneOf(b), q, lane);
      SameQueues(WithQueue(s, LaneOf(b), q), Admit(l, s, r), lane);
    }
  }

  lemma TakeLanes(l: Limits, s: State, at: int, lane: Lane)
    requires Sane(s)
    ensures Pending(Take(l, s, at), lane) == Pending(s, lane)
  {
    hide Choice, Sane, SaneIn;
    var choice := Choice(l, s, at);
    if s.inFlight.None? && choice.Some? && Queue(s, choice.value) != [] {
      HeadOfQueueSane(s, choice.value);
      assert LaneOf(Queue(s, choice.value)[0]) == choice.value by {
        SaneLane(Queue(s, choice.value)[0], choice.value);
      }
    }
  }

  lemma SaneLane(b: Batch, lane: Lane)
    requires SaneIn(b, lane)
    ensures LaneOf(b) == lane
  {
  }

  lemma SentLanes(l: Limits, s: State, at: int, advised: int, doneAt: int, lane: Lane)
    requires s.inFlight.Some? && s.inFlight.value.transmissions != []
    ensures Pending(Sent(l, s, at, advised, doneAt), lane)
         == if LaneOf(s.inFlight.value) == lane then Served(Pending(s, lane)) else Pending(s, lane)
  {
  }

  lemma FailedLanes(s: State, at: int, lane: Lane)
    requires s.inFlight.Some? && !s.closed
    ensures Pending(Failed(s, at), lane)
         == if LaneOf(s.inFlight.value) == lane then Retried(Pending(s, lane)) else Pending(s, lane)
  {
    hide BatchUse, LaneOf, Queue, WithQueue, Retried;
    var b := s.inFlight.value.(failures := s.inFlight.value.failures + 1);
    SameLane(s.inFlight.value, b);
    var s1 := s.(inFlight := None);
    var q := [b] + Queue(s1, LaneOf(b));
    QueueWith(s1, LaneOf(b), q, lane);
    SameQueues(s, s1, lane);
    SameQueues(s, Failed(s, at).(wakeAt := s.wakeAt), lane);
    SameQueues(WithQueue(s1, LaneOf(b), q), Failed(s, at), lane);
    RetriedHead(s.inFlight.value, Queue(s, lane));
  }

  lemma QueueWith(s: State, lane: Lane, q: seq<Batch>, other: Lane)
    ensures Queue(WithQueue(s, lane, q), other) == if other == lane then q else Queue(s, other)
    ensures WithQueue(s, lane, q).inFlight == s.inFlight
  {
  }

  lemma SameQueues(s: State, t: State, lane: Lane)
    ensures s.control == t.control && s.high == t.high && s.normal == t.normal && s.announce == t.announce
      ==> Queue(s, lane) == Queue(t, lane)
  {
  }

  lemma RetriedHead(head: Batch, rest: seq<Batch>)
    ensures var b := head.(failures := head.failures + 1);
      Retried([head] + rest) == if b.failures < MAX_FAILURES then [b] + rest else rest
  {
    assert ([head] + rest)[1..] == rest;
  }

  lemma SameLane(a: Batch, b: Batch)
    requires a.control == b.control && a.priority == b.priority
    ensures LaneOf(a) == LaneOf(b)
  {
  }

  lemma SaneOpen(s: State)
    requires Sane(s)
    ensures !s.closed
  {
  }

  lemma OfferSane(l: Limits, r: Offer)
    requires r.transmissions != []
    ensures SaneIn(r.ToBatch(l), LaneOf(r.ToBatch(l)))
  {
  }

  lemma StepSane(l: Limits, s: State, step: Step)
    requires Sane(s)
    ensures Sane(Apply(l, s, step))
  {
    var t := Apply(l, s, step);
    assert !t.closed by {
      hide Choice, Judge;
    }
    forall lane, i | 0 <= i < |Pending(t, lane)| ensures SaneIn(Pending(t, lane)[i], lane) {
      StepLaneSane(l, s, step, lane, i);
    }
  }

  lemma StepLaneSane(l: Limits, s: State, step: Step, lane: Lane, i: nat)
    requires Sane(s) && i < |Pending(Apply(l, s, step), lane)|
    ensures SaneIn(Pending(Apply(l, s, step), lane)[i], lane)
  {
    hide Apply, Choice, Judge, Pending, SaneIn;
    StepLanes(l, s, step, lane);
    assert forall j :: 0 <= j < |Pending(s, lane)| ==> SaneIn(Pending(s, lane)[j], lane);
    if step.DoAdmit? && Judge(l, s, step.request) == Accepted {
      AcceptedNonEmpty(l, s, step.request);
      OfferSane(l, step.request);
    }
    if s.inFlight.Some? {
      InFlightHead(s);
      HeadSane(s.inFlight.value, LaneOf(s.inFlight.value));
    }
  }

  lemma AcceptedNonEmpty(l: Limits, s: State, r: Offer)
    requires Judge(l, s, r) == Accepted
    ensures r.transmissions != []
  {
  }

  lemma InFlightHead(s: State)
    requires Sane(s) && s.inFlight.Some?
    ensures var q := Pending(s, LaneOf(s.inFlight.value)); q != [] && q[0] == s.inFlight.value
    ensures SaneIn(s.inFlight.value, LaneOf(s.inFlight.value))
  {
    InFlightSane(s);
  }

  /** A batch that stays after an attempt is still sane. */
  lemma HeadSane(b: Batch, lane: Lane)
    requires SaneIn(b, lane)
    ensures |b.transmissions| > 1 ==> SaneIn(b.(started := true, transmissions := b.transmissions[1..]), lane)
    ensures b.failures + 1 < MAX_FAILURES ==> SaneIn(b.(failures := b.failures + 1), lane)
  {
  }

  // ---- Sums ----

  /** The three things that are counted. */
  datatype Measure = Frames | Fragments | PayloadOctets

  function Of(u: Use, m: Measure): int {
    match m
    case Frames => u.frames
    case Fragments => u.fragments
    case PayloadOctets => u.bytes
  }

  function Part(b: Batch, m: Measure): nat {
    match m
    case Frames => 1
    case Fragments => |b.transmissions|
    case PayloadOctets => PayloadBytes(b.transmissions)
  }

  function Sum(q: seq<Batch>, m: Measure): nat {
    if q == [] then 0 else Part(q[0], m) + Sum(q[1..], m)
  }

  function SerializedIn(q: seq<Batch>): nat {
    if q == [] then 0 else (if q[0].serialized then 1 else 0) + SerializedIn(q[1..])
  }

  lemma {:induction false} SumsAppend(q: seq<Batch>, b: Batch, m: Measure)
    ensures Sum(q + [b], m) == Sum(q, m) + Part(b, m)
    ensures SerializedIn(q + [b]) == SerializedIn(q) + (if b.serialized then 1 else 0)
  {
    if q == [] {
      assert q + [b] == [b] && [b][1..] == [];
    } else {
      assert (q + [b])[1..] == q[1..] + [b];
      SumsAppend(q[1..], b, m);
    }
  }

  lemma {:induction false} SumsBound(q: seq<Batch>)
    ensures Sum(q, Frames) == |q|
    ensures SerializedIn(q) <= |q|
  {
    if q != [] {
      SumsBound(q[1..]);
    }
  }

  /** Pending data. */
  function DataSum(s: State, m: Measure): nat {
    Sum(Pending(s, HighLane), m) + Sum(Pending(s, NormalLane), m) + Sum(Pending(s, AnnounceLane), m)
  }

  /** Pending repair traffic. */
  function ControlSum(s: State, m: Measure): nat {
    Sum(Pending(s, ControlLane), m)
  }

  function SerializedCount(s: State): nat {
    SerializedIn(Pending(s, HighLane)) + SerializedIn(Pending(s, NormalLane)) + SerializedIn(Pending(s, AnnounceLane))
  }

  ghost predicate AccountsFor(s: State, m: Measure) {
    Of(s.pendingControl, m) == ControlSum(s, m) && Of(s.pending, m) == ControlSum(s, m) + DataSum(s, m)
  }

  /** The counters agree with the queues and the batch in flight. */
  ghost predicate Accounts(s: State) {
    && (forall m :: AccountsFor(s, m))
    && s.serializedFrames == SerializedCount(s)
  }

  ghost predicate BoundedIn(l: Limits, s: State, m: Measure) {
    && ControlSum(s, m) <= Of(l.max, m)
    && (SerializedCount(s) == 0 ==>
          && ControlSum(s, m) + DataSum(s, m) <= Of(l.max, m)
          && DataSum(s, m) <= Of(l.max, m) - Of(l.reserve, m))
  }

  /** The limits. */
  ghost predicate Bounded(l: Limits, s: State) {
    && (forall m :: BoundedIn(l, s, m))
    && SerializedCount(s) <= 1
    && (SerializedCount(s) == 1 ==> DataSum(s, Frames) == 1)
  }

  /** The batch in flight leaves the scheduler in this step. */
  predicate Leaves(s: State, step: Step)
    requires s.inFlight.Some?
  {
    || (step.DoSent? && |s.inFlight.value.transmissions| == 1)
    || (step.DoFailed? && s.inFlight.value.failures + 1 >= MAX_FAILURES)
  }

  /** How the sums move in a step. */
  function Change(l: Limits, s: State, step: Step, m: Measure): int
    requires s.inFlight.Some? ==> s.inFlight.value.transmissions != []
  {
    match step
    case DoAdmit(r, _) => if Judge(l, s, r) != Accepted then 0 else Part(r.ToBatch(l), m)
    case DoTake(_) => 0
    case DoSent(_, _, _, _) =>
      if s.inFlight.None? then 0
      else
        (match m
         case Frames => if Leaves(s, step) then -1 else 0
         case Fragments => -1
         case PayloadOctets => -(|s.inFlight.value.transmissions[0].payload| as int))
    case DoFailed(_, _) =>
      if s.inFlight.Some? && Leaves(s, step) then -(Part(s.inFlight.value, m) as int) else 0
  }

  function SerializedChange(l: Limits, s: State, step: Step): int {
    match step
    case DoAdmit(r, _) => if Judge(l, s, r) == Accepted && r.Serialized(l) then 1 else 0
    case DoTake(_) => 0
    case _ => if s.inFlight.Some? && Leaves(s, step) && s.inFlight.value.serialized then -1 else 0
  }

  /** The lane a step works on. */
  function LaneTouched(l: Limits, s: State, step: Step): Lane {
    match step
    case DoAdmit(r, _) => LaneOf(r.ToBatch(l))
    case DoTake(_) => ControlLane
    case _ => if s.inFlight.Some? then LaneOf(s.inFlight.value) else ControlLane
  }

  lemma ServedSums(q: seq<Batch>, m: Measure)
    requires q != [] && q[0].transmissions != []
    ensures var b := q[0]; var last := |b.transmissions| == 1;
      && Sum(Served(q), m) == Sum(q, m) +
           (match m
            case Frames => if last then -1 else 0
            case Fragments => -1
            case PayloadOctets => -(|b.transmissions[0].payload| as int))
      && SerializedIn(Served(q)) == SerializedIn(q) - (if last && b.serialized then 1 else 0)
  {
    var b := q[0];
    var rest := b.(started := true, transmissions := b.transmissions[1..]);
    assert PayloadBytes(b.transmissions) == |b.transmissions[0].payload| + PayloadBytes(b.transmissions[1..]);
    if rest.transmissions != [] {
      assert ([rest] + q[1..])[1..] == q[1..];
    }
  }

  lemma RetriedSums(q: seq<Batch>, m: Measure)
    requires q != []
    ensures var b := q[0]; var gone := b.failures + 1 >= MAX_FAILURES;
      && Sum(Retried(q), m) == Sum(q, m) - (if gone then Part(b, m) else 0)
      && SerializedIn(Retried(q)) == SerializedIn(q) - (if gone && b.serialized then 1 else 0)
  {
    hide PayloadBytes;
    var b := q[0].(failures := q[0].failures + 1);
    if b.failures < MAX_FAILURES {
      assert ([b] + q[1..])[1..] == q[1..];
    }
  }

  lemma LaneSums(l: Limits, s: State, step: Step, lane: Lane, m: Measure)
    requires Sane(s)
    ensures s.inFlight.Some? ==> s.inFlight.value.transmissions != []
    ensures var t := Apply(l, s, step); var here := lane == LaneTouched(l, s, step);
      && Sum(Pending(t, lane), m) == Sum(Pending(s, lane), m) + (if here then Change(l, s, step, m) else 0)
      && SerializedIn(Pending(t, lane))
         == SerializedIn(Pending(s, lane)) + (if here then SerializedChange(l, s, step) else 0)
  {
    hide Sane, Apply, Sum, SerializedIn, Judge, Part;
    StepLanes(l, s, step, lane);
    var q := Pending(s, lane);
    match step
    case DoAdmit(r, _) => SumsAppend(q, r.ToBatch(l), m);
    case DoTake(_) =>
    case DoSent(_, _, _, _) =>
      if s.inFlight.Some? && LaneOf(s.inFlight.value) == lane {
        ServedSums(q, m);
      }
    case DoFailed(_, _) =>
      if s.inFlight.Some? && LaneOf(s.inFlight.value) == lane {
        RetriedSums(q, m);
      }
  }

  /** The counters move by the same amounts. */
  lemma CounterSums(l: Limits, s: State, step: Step, m: Measure)
    requires Sane(s)
    ensures s.inFlight.Some? ==> s.inFlight.value.transmissions != []
    ensures var t := Apply(l, s, step); var d := Change(l, s, step, m);
      && Of(t.pending, m) == Of(s.pending, m) + d
      && Of(t.pendingControl, m)
         == Of(s.pendingControl, m) + (if LaneTouched(l, s, step) == ControlLane then d else 0)
      && t.serializedFrames == s.serializedFrames + SerializedChange(l, s, step)
  {
    hide Sane, Choice, Judge, PayloadBytes;
    SaneOpen(s);
    if s.inFlight.Some? {
      InFlightSane(s);
    }
  }

  lemma ControlNeverSerialized(l: Limits, s: State, step: Step)
    requires Sane(s)
    ensures LaneTouched(l, s, step) == ControlLane ==> SerializedChange(l, s, step) == 0
  {
    hide Sane, Judge;
    if s.inFlight.Some? {
      InFlightSane(s);
    }
  }

  /** Where the change of a step lands. */
  lemma StepSums(l: Limits, s: State, step: Step, m: Measure)
    requires Sane(s)
    ensures s.inFlight.Some? ==> s.inFlight.value.transmissions != []
    ensures var t := Apply(l, s, step); var d := Change(l, s, step, m);
            var control := LaneTouched(l, s, step) == ControlLane;
      && ControlSum(t, m) == ControlSum(s, m) + (if control then d else 0)
      && DataSum(t, m) == DataSum(s, m) + (if control then 0 else d)
      && SerializedCount(t) == SerializedCount(s) + SerializedChange(l, s, step)
  {
    hide Sane, Apply, Change, SerializedChange, LaneTouched, Pending, Sum, SerializedIn;
    ControlNeverSerialized(l, s, step);
    LaneSums(l, s, step, ControlLane, m);
    LaneSums(l, s, step, HighLane, m);
    LaneSums(l, s, step, NormalLane, m);
    LaneSums(l, s, step, AnnounceLane, m);
  }

  lemma StepAccounts(l: Limits, s: State, step: Step)
    requires Sane(s) && Accounts(s)
    ensures Accounts(Apply(l, s, step))
  {
    hide Sane, Apply, Change, SerializedChange, LaneTouched, ControlSum, DataSum, SerializedCount, Of;
    forall m ensures AccountsFor(Apply(l, s, step), m) {
      assert AccountsFor(s, m);
      StepSums(l, s, step, m);
      CounterSums(l, s, step, m);
    }
    StepSums(l, s, step, Frames);
    CounterSums(l, s, step, Frames);
  }

  lemma LaneFacts(q: seq<Batch>, m: Measure)
    ensures SerializedIn(q) <= Sum(q, Frames)
    ensures Sum(q, Frames) == 0 ==> Sum(q, m) == 0
  {
    SumsBound(q);
  }

  lemma DataFacts(s: State, m: Measure)
    ensures SerializedCount(s) <= DataSum(s, Frames)
    ensures DataSum(s, Frames) == 0 ==> DataSum(s, m) == 0
  {
    hide Sum, SerializedIn, Pending;
    LaneFacts(Pending(s, HighLane), m);
    LaneFacts(Pending(s, NormalLane), m);
    LaneFacts(Pending(s, AnnounceLane), m);
  }

  /** An admission respects the limits. */
  lemma AdmitBounded(l: Limits, s: State, r: Offer, m: Measure)
    requires l.Valid() && Judge(l, s, r) == Accepted && Accounts(s) && BoundedIn(l, s, m)
    ensures var size := Part(r.ToBatch(l), m);
      if r.Control() then
        && ControlSum(s, m) + size <= Of(l.max, m)
        && (SerializedCount(s) == 0 ==> ControlSum(s, m) + size + DataSum(s, m) <= Of(l.max, m))
      else if r.Serialized(l) then SerializedCount(s) == 0 && DataSum(s, Frames) == 0
      else
        && SerializedCount(s) == 0
        && ControlSum(s, m) + DataSum(s, m) + size <= Of(l.max, m) - Of(l.reserve, m)
  {
    hide PayloadBytes, ControlSum, DataSum, SerializedCount;
    assert AccountsFor(s, m) && AccountsFor(s, Frames);
  }

  lemma StepBoundedIn(l: Limits, s: State, step: Step, m: Measure)
    requires l.Valid() && Sane(s) && Accounts(s) && Bounded(l, s)
    ensures BoundedIn(l, Apply(l, s, step), m)
  {
    hide Sane, Apply, ControlSum, DataSum, SerializedCount, Judge, PayloadBytes, Accounts;
    var t := Apply(l, s, step);
    assert BoundedIn(l, s, m) && BoundedIn(l, s, Frames);
    ReserveSmall(l, m);
    StepSums(l, s, step, m);
    StepSums(l, s, step, Frames);
    DataFacts(t, m);
    ControlNeverSerialized(l, s, step);
    if step.DoAdmit? && Judge(l, s, step.request) == Accepted {
      AdmitBounded(l, s, step.request, m);
    }
  }

  lemma ReserveSmall(l: Limits, m: Measure)
    requires l.Valid()
    ensures 0 <= Of(l.reserve, m) < Of(l.max, m)
  {
  }

  lemma StepBounded(l: Limits, s: State, step: Step)
    requires l.Valid() && Sane(s) && Accounts(s) && Bounded(l, s)
    ensures Bounded(l, Apply(l, s, step))
  {
    hide Sane, Apply, ControlSum, DataSum, SerializedCount, Judge, PayloadBytes, Accounts, BoundedIn;
    var t := Apply(l, s, step);
    forall m ensures BoundedIn(l, t, m) {
      StepBoundedIn(l, s, step, m);
    }
    StepSums(l, s, step, Frames);
    DataFacts(s, Frames);
    DataFacts(t, Frames);
    if step.DoAdmit? && Judge(l, s, step.request) == Accepted {
      assert BoundedIn(l, s, Frames);
      AdmitBounded(l, s, step.request, Frames);
    }
  }

  ghost predicate Good(l: Limits, s: State) {
    Sane(s) && Accounts(s) && Bounded(l, s)
  }

  lemma EmptyLane(s: State, lane: Lane, m: Measure)
    requires AllEmpty(s) && s.inFlight.None?
    ensures Sum(Pending(s, lane), m) == 0 && SerializedIn(Pending(s, lane)) == 0
  {
  }

  lemma EmptySums(s: State, m: Measure)
    requires AllEmpty(s) && s.inFlight.None?
    ensures ControlSum(s, m) == 0 && DataSum(s, m) == 0 && SerializedCount(s) == 0
  {
    hide Pending, Sum, SerializedIn, AllEmpty;
    EmptyLane(s, ControlLane, m);
    EmptyLane(s, HighLane, m);
    EmptyLane(s, NormalLane, m);
    EmptyLane(s, AnnounceLane, m);
  }

  lemma InitialGood(l: Limits)
    requires l.Valid()
    ensures Good(l, INITIAL)
  {
    assert Sane(INITIAL);
    hide Sane, Accounts, Bounded;
    EmptyGood(l, INITIAL);
  }

  lemma EmptyGood(l: Limits, s: State)
    requires l.Valid() && AllEmpty(s) && s.inFlight.None?
    requires forall m :: Of(s.pending, m) == 0 && Of(s.pendingControl, m) == 0
    requires s.serializedFrames == 0
    ensures Accounts(s) && Bounded(l, s)
  {
    hide ControlSum, DataSum, SerializedCount, AllEmpty;
    EmptySums(s, Frames);
    forall m ensures AccountsFor(s, m) {
      EmptySums(s, m);
    }
    forall m ensures BoundedIn(l, s, m) {
      EmptySums(s, m);
      ReserveSmall(l, m);
    }
  }

  lemma {:induction false} RunGood(l: Limits, steps: seq<Step>)
    requires l.Valid()
    ensures Good(l, Run(l, steps))
  {
    if steps == [] {
      InitialGood(l);
    } else {
      hide Apply, Sane, Accounts, Bounded;
      var n := |steps| - 1;
      RunGood(l, steps[..n]);
      var s := Run(l, steps[..n]);
      StepSane(l, s, steps[n]);
      StepAccounts(l, s, steps[n]);
      StepBounded(l, s, steps[n]);
    }
  }

  /**
   * In every reachable open state the counters equal the sums over queued and in-flight
   * batches, at most one serialized frame is pending and then it is the only data frame, and
   * with none pending all use is within the limits and data use within the limits less the
   * reserve, in frames, fragments and bytes.
   */
  lemma AccountingHolds(l: Limits, steps: seq<Step>)
    requires l.Valid()
    ensures var s := Run(l, steps); Accounts(s) && Bounded(l, s)
  {
    hide Run, Accounts, Bounded, Sane;
    RunGood(l, steps);
  }

  /**
   * The repair reserve is real: in every reachable open state, with or without a serialized
   * frame, a control frame that fits the reserve next to the pending control is accepted,
   * whatever data was admitted before.
   */
  lemma ReserveIsReal(l: Limits, steps: seq<Step>, r: Offer)
    requires l.Valid() && r.transmissions != [] && r.Control()
    requires forall m :: ControlSum(Run(l, steps), m) + Of(r.Size(), m) <= Of(l.reserve, m)
    ensures Judge(l, Run(l, steps), r) == Accepted
    ensures CanAcceptControl(l, Run(l, steps), r.Size().fragments, r.Size().bytes)
  {
    hide Run, ControlSum, DataSum, SerializedCount, PayloadBytes;
    var s := Run(l, steps);
    RunGood(l, steps);
    assert !s.closed by { SaneOpen(s); }
    ReserveFits(l, s, r, Frames);
    ReserveFits(l, s, r, Fragments);
    ReserveFits(l, s, r, PayloadOctets);
  }

  lemma ReserveFits(l: Limits, s: State, r: Offer, m: Measure)
    requires l.Valid() && Accounts(s) && Bounded(l, s)
    requires ControlSum(s, m) + Of(r.Size(), m) <= Of(l.reserve, m)
    ensures Of(s.pendingControl, m) + Of(r.Size(), m) <= Of(l.reserve, m) < Of(l.max, m)
    ensures Of(r.Size(), m) <= Of(l.max, m)
    ensures s.serializedFrames == 0 ==> Of(s.pending, m) + Of(r.Size(), m) <= Of(l.max, m)
  {
    hide ControlSum, DataSum, SerializedCount, PayloadBytes;
    assert AccountsFor(s, m) && BoundedIn(l, s, m);
    ReserveSmall(l, m);
  }

  /** What is left for a frame of one measure: beside a serialized frame only the reserve, for control. */
  ghost predicate RoomFor(l: Limits, s: State, r: Offer, m: Measure) {
    if SerializedCount(s) > 0 then r.Control() && ControlSum(s, m) + Of(r.Size(), m) <= Of(l.reserve, m)
    else
      ControlSum(s, m) + DataSum(s, m) + Of(r.Size(), m)
      <= Of(l.max, m) - (if r.Control() then 0 else Of(l.reserve, m))
  }

  /**
   * Admission looks at counters only, but decides by what is really queued and in flight: in
   * every reachable open state a serialized frame is accepted if and only if no data is
   * pending, and any other frame if and only if it can ever fit and there is room for it in
   * frames, fragments and bytes.
   */
  lemma AdmitsIff(l: Limits, steps: seq<Step>, r: Offer)
    requires l.Valid() && r.transmissions != []
    ensures var s := Run(l, steps);
      Judge(l, s, r) == Accepted
      <==> if r.Serialized(l) then DataSum(s, Frames) == 0
           else CanEverFit(l, r.Size().fragments, r.Size().bytes, r.Control()) && forall m :: RoomFor(l, s, r, m)
  {
    hide Run, ControlSum, DataSum, SerializedCount, PayloadBytes, Sane, Bounded;
    var s := Run(l, steps);
    RunGood(l, steps);
    SaneOpen(s);
    DataFacts(s, Frames);
    assert AccountsFor(s, Frames) && AccountsFor(s, Fragments) && AccountsFor(s, PayloadOctets);
    assert RoomFor(l, s, r, Frames) && RoomFor(l, s, r, Fragments) && RoomFor(l, s, r, PayloadOctets)
      <==> forall m :: RoomFor(l, s, r, m) by {
      hide RoomFor;
      forall m | RoomFor(l, s, r, Frames) && RoomFor(l, s, r, Fragments) && RoomFor(l, s, r, PayloadOctets)
        ensures RoomFor(l, s, r, m)
      {
        match m
        case Frames =>
        case Fragments =>
        case PayloadOctets =>
      }
    }
  }

  /** What `canAcceptControl` answers is what admission of a control frame of that size would decide. */
  lemma AcceptsControlIff(l: Limits, s: State, r: Offer)
    requires r.transmissions != [] && r.Control()
    ensures Judge(l, s, r) == Accepted <==> CanAcceptControl(l, s, r.Size().fragments, r.Size().bytes)
  {
    hide PayloadBytes;
  }

  /**
   * Closing drops the batch in flight from the counters without taking it back from the
   * worker: the counters are right after `close` exactly when nothing was in flight.
   */
  lemma CloseAccountsIff(s: State)
    ensures Accounts(Close(s)) <==> s.inFlight.None?
  {
    hide ControlSum, DataSum, SerializedCount;
    var t := Close(s);
    if s.inFlight.None? {
      forall m ensures AccountsFor(t, m) {
        EmptySums(t, m);
      }
      EmptySums(t, Frames);
    } else {
      ClosedFrames(s);
      assert !AccountsFor(t, Frames);
    }
  }

  lemma ClosedFrames(s: State)
    requires s.inFlight.Some?
    ensures ControlSum(Close(s), Frames) + DataSum(Close(s), Frames) >= 1
  {
    hide Sum;
    SumsBound(Pending(Close(s), LaneOf(s.inFlight.value)));
  }

  /** And then the worker counts its fragment a second time: the counters go below zero. */
  lemma ClosedGoesNegative(l: Limits, s: State, at: int, advised: int, doneAt: int)
    requires s.inFlight.Some? && s.inFlight.value.transmissions != []
    ensures Sent(l, Close(s), at, advised, doneAt).pending.fragments == -1
  {
    hide PayloadBytes;
  }
}
