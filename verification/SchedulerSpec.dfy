/**
 * `TransmitScheduler.java` as a state machine. Each synchronized block is one step: an
 * admission, the worker taking a batch, the worker recording a send that succeeded or
 * failed, and closing.
 */
module SchedulerSpec {
  import opened Common
  import opened Fragments

  const MILLI := 1_000_000
  const RETRY_SLEEP := 1_000_000_000
  const MAX_FAILURES := 3
  const ANNOUNCE_BYPASS := 4

  /** Frames, fragments and bytes. */
  datatype Use = Use(frames: int, fragments: int, bytes: int) {
    function Plus(u: Use): Use {
      Use(frames + u.frames, fragments + u.fragments, bytes + u.bytes)
    }

    function Minus(u: Use): Use {
      Use(frames - u.frames, fragments - u.fragments, bytes - u.bytes)
    }

    predicate Within(u: Use) {
      frames <= u.frames && fragments <= u.fragments && bytes <= u.bytes
    }
  }

  const NO_USE := Use(0, 0, 0)

  datatype Limits = Limits(max: Use, reserve: Use, intervalNanos: int, announceNanos: int) {
    /** The checks of the constructor. */
    predicate Valid() {
      && intervalNanos >= 0 && announceNanos >= 0
      && max.frames >= 1 && max.fragments >= 1 && max.bytes >= 1
      && 0 <= reserve.frames < max.frames
      && 0 <= reserve.fragments < max.fragments
      && 0 <= reserve.bytes < max.bytes
    }
  }

  datatype Priority = HighPriority | NormalPriority | AnnouncePriority

  datatype Lane = ControlLane | HighLane | NormalLane | AnnounceLane

  datatype Batch = Batch(
    transmissions: seq<Transmission>, control: bool, priority: Priority, serialized: bool,
    failures: nat, started: bool)

  function LaneOf(b: Batch): Lane {
    if b.control then ControlLane
    else
      match b.priority
      case HighPriority => HighLane
      case AnnouncePriority => AnnounceLane
      case NormalPriority => NormalLane
  }

  datatype State = State(
    control: seq<Batch>, high: seq<Batch>, normal: seq<Batch>, announce: seq<Batch>,
    inFlight: Option<Batch>, closed: bool,
    pending: Use, pendingControl: Use, serializedFrames: int,
    nextSend: int, wakeAt: int,
    consecutiveControl: int, consecutiveNonAnnounce: int, nextAnnounceStart: int)

  const INITIAL := State([], [], [], [], None, false, NO_USE, NO_USE, 0, 0, 0, 0, 0, 0)

  function Queue(s: State, lane: Lane): seq<Batch> {
    match lane
    case ControlLane => s.control
    case HighLane => s.high
    case NormalLane => s.normal
    case AnnounceLane => s.announce
  }

  function WithQueue(s: State, lane: Lane, q: seq<Batch>): State {
    match lane
    case ControlLane => s.(control := q)
    case HighLane => s.(high := q)
    case NormalLane => s.(normal := q)
    case AnnounceLane => s.(announce := q)
  }

  function PayloadBytes(txs: seq<Transmission>): nat {
    if txs == [] then 0 else |txs[0].payload| + PayloadBytes(txs[1..])
  }

  function BatchUse(b: Batch): Use {
    Use(1, |b.transmissions|, PayloadBytes(b.transmissions))
  }

  predicate IsControl(tx: Transmission) {
    tx.reason == Repair || tx.reason == Retransmit
  }

  // ---- Admission ----

  predicate CanEverFit(l: Limits, fragments: int, bytes: int, control: bool) {
    if control then fragments <= l.max.fragments && bytes <= l.max.bytes
    else fragments <= l.max.fragments - l.reserve.fragments && bytes <= l.max.bytes - l.reserve.bytes
  }

  predicate HasCapacity(l: Limits, s: State, fragments: int, bytes: int, control: bool) {
    var more := Use(1, fragments, bytes);
    if !control && s.serializedFrames > 0 then false
    else if control && s.serializedFrames > 0 then s.pendingControl.Plus(more).Within(l.reserve)
    else s.pending.Plus(more).Within(if control then l.max else l.max.Minus(l.reserve))
  }

  predicate HasSerializedCapacity(s: State) {
    s.serializedFrames == 0 && s.pending.frames == s.pendingControl.frames
  }

  datatype Offer = Offer(
    transmissions: seq<Transmission>, priority: Priority, maxSerializedFragments: int, maxSerializedBytes: int)
  {
    predicate Control() {
      forall i :: 0 <= i < |transmissions| ==> IsControl(transmissions[i])
    }

    function Size(): Use {
      Use(1, |transmissions|, PayloadBytes(transmissions))
    }

    predicate Serialized(l: Limits) {
      && !Control()
      && !CanEverFit(l, Size().fragments, Size().bytes, false)
      && maxSerializedFragments > 0 && maxSerializedBytes > 0
      && Size().fragments <= maxSerializedFragments && Size().bytes <= maxSerializedBytes
    }

    function ToBatch(l: Limits): Batch {
      Batch(transmissions, Control(), if Control() then HighPriority else priority, Serialized(l), 0, false)
    }
  }

  /** `Full` is the one answer after which a waiting caller tries again. */
  datatype Verdict = Empty | Accepted | Impossible | Full | Closed

  function Judge(l: Limits, s: State, r: Offer): Verdict {
    var size := r.Size();
    if r.transmissions == [] then Empty
    else if !CanEverFit(l, size.fragments, size.bytes, r.Control()) && !r.Serialized(l) then Impossible
    else if s.closed then Closed
    else if (if r.Serialized(l) then HasSerializedCapacity(s)
             else HasCapacity(l, s, size.fragments, size.bytes, r.Control())) then Accepted
    else Full
  }

  function Admit(l: Limits, s: State, r: Offer): State {
    if Judge(l, s, r) != Accepted then s
    else
      var b := r.ToBatch(l);
      var s1 := WithQueue(s, LaneOf(b), Queue(s, LaneOf(b)) + [b]);
      s1.(serializedFrames := s.serializedFrames + (if b.serialized then 1 else 0),
          pendingControl := if b.control then s.pendingControl.Plus(BatchUse(b)) else s.pendingControl,
          pending := s.pending.Plus(BatchUse(b)))
  }

  predicate CanAcceptControl(l: Limits, s: State, fragments: int, bytes: int) {
    !s.closed && CanEverFit(l, fragments, bytes, true) && HasCapacity(l, s, fragments, bytes, true)
  }

  // ---- The worker ----

  predicate DataEmpty(s: State) {
    s.high == [] && s.normal == [] && s.announce == []
  }

  predicate AllEmpty(s: State) {
    s.control == [] && DataEmpty(s)
  }

  /** The first announcement has begun, or may begin. */
  predicate AnnounceReady(l: Limits, s: State, now: int) {
    s.announce != [] && (s.announce[0].started || l.announceNanos == 0 || now >= s.nextAnnounceStart)
  }

  /** The lane the next batch comes from; none while only a paced announcement waits. */
  function ReadyData(l: Limits, s: State, now: int): Option<Lane> {
    var announceReady := AnnounceReady(l, s, now);
    if announceReady && s.consecutiveNonAnnounce >= ANNOUNCE_BYPASS then Some(AnnounceLane)
    else if s.high != [] then Some(HighLane)
    else if s.normal != [] then Some(NormalLane)
    else if announceReady then Some(AnnounceLane)
    else None
  }

  function Choice(l: Limits, s: State, now: int): Option<Lane> {
    if s.control != [] && (DataEmpty(s) || s.consecutiveControl < 1) then Some(ControlLane)
    else ReadyData(l, s, now)
  }

  function Take(l: Limits, s: State, now: int): State {
    var lane := Choice(l, s, now);
    if s.closed || s.inFlight.Some? || lane.None? || Queue(s, lane.value) == [] then s
    else
      var q := Queue(s, lane.value);
      WithQueue(s, lane.value, q[1..]).(inFlight := Some(q[0]))
  }

  /** The counters and the pacing once one fragment is out. */
  function Spent(l: Limits, s: State, b: Batch, now: int, advisedMillis: int): State
    requires b.transmissions != []
  {
    var one := Use(0, 1, |b.transmissions[0].payload|);
    s.(inFlight := None,
       nextSend := now + l.intervalNanos + Max(0, advisedMillis) * MILLI,
       consecutiveControl := if b.control then s.consecutiveControl + 1 else 0,
       pending := s.pending.Minus(one),
       pendingControl := if b.control then s.pendingControl.Minus(one) else s.pendingControl)
  }

  /** The counters once the last fragment of a batch is out. */
  function Finished(l: Limits, s: State, b: Batch, now: int): State {
    s.(pending := s.pending.Minus(Use(1, 0, 0)),
       pendingControl := if b.control then s.pendingControl.Minus(Use(1, 0, 0)) else s.pendingControl,
       serializedFrames := if b.serialized then s.serializedFrames - 1 else s.serializedFrames,
       nextAnnounceStart := if LaneOf(b) == AnnounceLane then now + l.announceNanos else s.nextAnnounceStart,
       consecutiveNonAnnounce :=
         if b.control then s.consecutiveNonAnnounce
         else if LaneOf(b) == AnnounceLane then 0
         else s.consecutiveNonAnnounce + 1)
  }

  /** `now` is read when the send has returned, `doneAt` once more if that finished an announcement. */
  function Sent(l: Limits, s: State, now: int, advisedMillis: int, doneAt: int): State
    requires s.inFlight.Some? && s.inFlight.value.transmissions != []
  {
    var b := s.inFlight.value;
    var rest := b.(started := true, transmissions := b.transmissions[1..]);
    var s1 := Spent(l, s, b, now, advisedMillis);
    if rest.transmissions != [] then
      WithQueue(s1, LaneOf(b), [rest] + Queue(s1, LaneOf(b)))
    else Finished(l, s1, b, doneAt)
  }

  function Failed(s: State, now: int): State
    requires s.inFlight.Some?
  {
    var b := s.inFlight.value.(failures := s.inFlight.value.failures + 1);
    var s1 := s.(inFlight := None);
    if !s.closed && b.failures < MAX_FAILURES then
      WithQueue(s1, LaneOf(b), [b] + Queue(s1, LaneOf(b))).(wakeAt := now + RETRY_SLEEP)
    else
      s1.(pending := s.pending.Minus(BatchUse(b)),
          pendingControl := if b.control then s.pendingControl.Minus(BatchUse(b)) else s.pendingControl,
          serializedFrames := if b.serialized then s.serializedFrames - 1 else s.serializedFrames)
  }

  function Close(s: State): State {
    s.(closed := true, control := [], high := [], normal := [], announce := [],
       pending := NO_USE, pendingControl := NO_USE, serializedFrames := 0)
  }

  // ---- Runs ----

  /** `startedAt` is when the worker got past the pacing wait and called the sender. */
  datatype Step =
    | DoAdmit(request: Offer, at: int)
    | DoTake(at: int)
    | DoSent(startedAt: int, at: int, advisedMillis: int, doneAt: int)
    | DoFailed(startedAt: int, at: int)

  function Apply(l: Limits, s: State, step: Step): State {
    match step
    case DoAdmit(r, _) => Admit(l, s, r)
    case DoTake(at) => Take(l, s, at)
    case DoSent(_, at, advised, doneAt) =>
      if s.inFlight.Some? && s.inFlight.value.transmissions != [] then Sent(l, s, at, advised, doneAt) else s
    case DoFailed(_, at) => if s.inFlight.Some? then Failed(s, at) else s
  }

  function Run(l: Limits, steps: seq<Step>): State {
    if steps == [] then INITIAL
    else Apply(l, Run(l, steps[..|steps| - 1]), steps[|steps| - 1])
  }

  /** What the worker's waits guarantee about a step taken in state `s`. */
  predicate Enabled(s: State, step: Step) {
    match step
    case DoAdmit(_, _) => true
    case DoTake(at) => s.inFlight.None? && !AllEmpty(s) && at >= s.wakeAt
    case DoSent(startedAt, at, _, doneAt) => s.inFlight.Some? && s.nextSend <= startedAt <= at <= doneAt
    case DoFailed(startedAt, at) => s.inFlight.Some? && s.nextSend <= startedAt <= at
  }

  ghost predicate Legal(l: Limits, steps: seq<Step>) {
    forall i :: 0 <= i < |steps| ==> Enabled(Run(l, steps[..i]), steps[i])
  }
}
