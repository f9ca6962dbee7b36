/** The scheduler object of `TransmitScheduler.java` against `SchedulerSpec`. */
module TransmitSchedulers {
  import opened Common
  import opened Fragments
  import Spec = SchedulerSpec
  import Accounting = SchedulerAccounting

  /** What is taken has something to send. */
  lemma TakenSane(l: Spec.Limits, s: Spec.State, at: int)
    requires Accounting.Sane(s)
    ensures var t := Spec.Take(l, s, at); !t.closed && (t.inFlight.Some? ==> t.inFlight.value.transmissions != [])
    ensures Spec.Take(l, s, at).nextSend == s.nextSend
  {
    hide Spec.Take, Spec.Choice, Accounting.Sane;
    assert Spec.Apply(l, s, Spec.DoTake(at)) == Spec.Take(l, s, at);
    Accounting.StepSane(l, s, Spec.DoTake(at));
    Accounting.SaneOpen(Spec.Take(l, s, at));
    if Spec.Take(l, s, at).inFlight.Some? {
      Accounting.InFlightSane(Spec.Take(l, s, at));
    }
    TakeKeepsPacing(l, s, at);
  }

  lemma TakeKeepsPacing(l: Spec.Limits, s: Spec.State, at: int)
    ensures Spec.Take(l, s, at).nextSend == s.nextSend
  {
    hide Spec.Choice;
  }

  class TransmitScheduler {
    const limits: Spec.Limits
    var controlQueue: seq<Spec.Batch>
    var highQueue: seq<Spec.Batch>
    var normalQueue: seq<Spec.Batch>
    var announceQueue: seq<Spec.Batch>
    /** The batch the worker holds outside the lock. */
    var inFlight: Option<Spec.Batch>
    var closed: bool
    /** `pendingFrames`, `pendingFragments` and `pendingBytes`, which always move together. */
    var pending: Spec.Use
    var pendingControl: Spec.Use
    var serializedFrames: int
    var nextSendNanos: int
    /** End of the worker's sleep after a failed attempt. */
    var wakeAt: int
    var consecutiveControlSends: int
    var consecutiveNonAnnounceFrames: int
    var nextAnnounceStartNanos: int

    function View(): Spec.State
      reads this
    {
      Spec.State(
        controlQueue, highQueue, normalQueue, announceQueue, inFlight, closed,
        pending, pendingControl, serializedFrames, nextSendNanos, wakeAt,
        consecutiveControlSends, consecutiveNonAnnounceFrames, nextAnnounceStartNanos)
    }

    constructor (limits: Spec.Limits)
      requires limits.Valid()
      ensures this.limits == limits && View() == Spec.INITIAL
    {
      this.limits := limits;
      controlQueue, highQueue, normalQueue, announceQueue := [], [], [], [];
      inFlight, closed := None, false;
      pending, pendingControl := Spec.NO_USE, Spec.NO_USE;
      serializedFrames, nextSendNanos, wakeAt := 0, 0, 0;
      consecutiveControlSends, consecutiveNonAnnounceFrames, nextAnnounceStartNanos := 0, 0, 0;
    }

    static method SumBytes(transmissions: seq<Transmission>) returns (total: int)
      ensures total == Spec.PayloadBytes(transmissions)
    {
      total := 0;
      var i := |transmissions|;
      while i > 0
        invariant 0 <= i <= |transmissions|
        invariant total == Spec.PayloadBytes(transmissions[i..])
      {
        i := i - 1;
        assert transmissions[i..][1..] == transmissions[i + 1..];
        total := total + |transmissions[i].payload|;
      }
    }

    static method AllControl(transmissions: seq<Transmission>) returns (control: bool)
      ensures control <==> forall i :: 0 <= i < |transmissions| ==> Spec.IsControl(transmissions[i])
    {
      for i := 0 to |transmissions|
        invariant forall j :: 0 <= j < i ==> Spec.IsControl(transmissions[j])
      {
        if !Spec.IsControl(transmissions[i]) {
          return false;
        }
      }
      return true;
    }

    method AddLast(lane: Spec.Lane, b: Spec.Batch)
      modifies this`controlQueue, this`highQueue, this`normalQueue, this`announceQueue
      ensures View() == Spec.WithQueue(old(View()), lane, Spec.Queue(old(View()), lane) + [b])
    {
      match lane
      case ControlLane => controlQueue := controlQueue + [b];
      case HighLane => highQueue := highQueue + [b];
      case NormalLane => normalQueue := normalQueue + [b];
      case AnnounceLane => announceQueue := announceQueue + [b];
    }

    method AddFirst(lane: Spec.Lane, b: Spec.Batch)
      modifies this`controlQueue, this`highQueue, this`normalQueue, this`announceQueue
      ensures View() == Spec.WithQueue(old(View()), lane, [b] + Spec.Queue(old(View()), lane))
    {
      match lane
      case ControlLane => controlQueue := [b] + controlQueue;
      case HighLane => highQueue := [b] + highQueue;
      case NormalLane => normalQueue := [b] + normalQueue;
      case AnnounceLane => announceQueue := [b] + announceQueue;
    }

    method HasCapacity(fragments: int, bytes: int, control: bool) returns (fits: bool)
      ensures fits == Spec.HasCapacity(limits, View(), fragments, bytes, control)
    {
      if !control && serializedFrames > 0 {
        return false;
      }
      if control && serializedFrames > 0 {
        return pendingControl.frames + 1 <= limits.reserve.frames
            && pendingControl.fragments + fragments <= limits.reserve.fragments
            && pendingControl.bytes + bytes <= limits.reserve.bytes;
      }
      var frameLimit := if control then limits.max.frames else limits.max.frames - limits.reserve.frames;
      var fragmentLimit :=
        if control then limits.max.fragments else limits.max.fragments - limits.reserve.fragments;
      var byteLimit := if control then limits.max.bytes else limits.max.bytes - limits.reserve.bytes;
      return pending.frames + 1 <= frameLimit
          && pending.fragments + fragments <= fragmentLimit
          && pending.bytes + bytes <= byteLimit;
    }

    /** One pass of admission; a waiting caller repeats it after `Full`. */
    method Enqueue(offer: Spec.Offer) returns (verdict: Spec.Verdict)
      modifies this
      ensures verdict == Spec.Judge(limits, old(View()), offer)
      ensures View() == Spec.Admit(limits, old(View()), offer)
    {
      var transmissions := offer.transmissions;
      if transmissions == [] {
        return Spec.Empty;
      }
      var control := AllControl(transmissions);
      var priority := if control then Spec.HighPriority else offer.priority;
      var fragments := |transmissions|;
      var bytes := SumBytes(transmissions);
      var size := Spec.Use(1, fragments, bytes);
      var fits := Spec.CanEverFit(limits, fragments, bytes, control);
      var serialized := !control && !fits
        && offer.maxSerializedFragments > 0 && offer.maxSerializedBytes > 0
        && fragments <= offer.maxSerializedFragments && bytes <= offer.maxSerializedBytes;
      if !fits && !serialized {
        return Spec.Impossible;
      }
      if closed {
        return Spec.Closed;
      }
      var room: bool;
      if serialized {
        room := serializedFrames == 0 && pending.frames == pendingControl.frames;
      } else {
        room := HasCapacity(fragments, bytes, control);
      }
      if !room {
        return Spec.Full;
      }
      var batch := Spec.Batch(transmissions, control, priority, serialized, 0, false);
      assert batch == offer.ToBatch(limits);
      AddLast(Spec.LaneOf(batch), batch);
      if serialized {
        serializedFrames := serializedFrames + 1;
      }
      if control {
        pendingControl := pendingControl.Plus(size);
      }
      pending := pending.Plus(size);
      return Spec.Accepted;
    }

    method CanAcceptControl(fragments: int, bytes: int) returns (yes: bool)
      ensures yes == Spec.CanAcceptControl(limits, View(), fragments, bytes)
    {
      var room := HasCapacity(fragments, bytes, true);
      return !closed && Spec.CanEverFit(limits, fragments, bytes, true) && room;
    }

    /** The worker's choice of the next batch. */
    method Take(now: int)
      modifies this
      ensures View() == Spec.Take(limits, old(View()), now)
    {
      if closed || inFlight.Some? {
        return;
      }
      if controlQueue != []
         && ((highQueue == [] && normalQueue == [] && announceQueue == []) || consecutiveControlSends < 1) {
        inFlight, controlQueue := Some(controlQueue[0]), controlQueue[1..];
        return;
      }
      var announceReady := announceQueue != []
        && (announceQueue[0].started || limits.announceNanos == 0 || now >= nextAnnounceStartNanos);
      if announceReady && consecutiveNonAnnounceFrames >= Spec.ANNOUNCE_BYPASS {
        inFlight, announceQueue := Some(announceQueue[0]), announceQueue[1..];
      } else if highQueue != [] {
        inFlight, highQueue := Some(highQueue[0]), highQueue[1..];
      } else if normalQueue != [] {
        inFlight, normalQueue := Some(normalQueue[0]), normalQueue[1..];
      } else if announceReady {
        inFlight, announceQueue := Some(announceQueue[0]), announceQueue[1..];
      }
    }

    /** One fragment of the batch in flight is out. */
    method SpendFragment(batch: Spec.Batch, now: int, advisedMillis: int)
      requires batch.transmissions != []
      modifies this
      ensures View() == Spec.Spent(limits, old(View()), batch, now, advisedMillis)
    {
      inFlight := None;
      nextSendNanos := now + limits.intervalNanos + Max(0, advisedMillis) * Spec.MILLI;
      consecutiveControlSends := if batch.control then consecutiveControlSends + 1 else 0;
      var one := Spec.Use(0, 1, |batch.transmissions[0].payload|);
      pending := pending.Minus(one);
      if batch.control {
        pendingControl := pendingControl.Minus(one);
      }
    }

    /** The last fragment of a batch is out. */
    method FinishBatch(batch: Spec.Batch, now: int)
      modifies this
      ensures View() == Spec.Finished(limits, old(View()), batch, now)
    {
      pending := pending.Minus(Spec.Use(1, 0, 0));
      if batch.control {
        pendingControl := pendingControl.Minus(Spec.Use(1, 0, 0));
      }
      if batch.serialized {
        serializedFrames := serializedFrames - 1;
      }
      if !batch.control && batch.priority == Spec.AnnouncePriority {
        nextAnnounceStartNanos := now + limits.announceNanos;
        consecutiveNonAnnounceFrames := 0;
      } else if !batch.control {
        consecutiveNonAnnounceFrames := consecutiveNonAnnounceFrames + 1;
      }
    }

    /** The sender returned normally. */
    method OnSent(now: int, advisedMillis: int, doneAt: int)
      requires inFlight.Some? && inFlight.value.transmissions != []
      modifies this
      ensures View() == Spec.Sent(limits, old(View()), now, advisedMillis, doneAt)
    {
      var batch := inFlight.value;
      SpendFragment(batch, now, advisedMillis);
      batch := batch.(started := true, transmissions := batch.transmissions[1..]);
      if batch.transmissions == [] {
        FinishBatch(batch, doneAt);
      } else {
        AddFirst(Spec.LaneOf(batch), batch);
      }
    }

    /** The sender threw. */
    method OnFailed(now: int)
      requires inFlight.Some?
      modifies this
      ensures View() == Spec.Failed(old(View()), now)
    {
      hide Spec.PayloadBytes, Spec.LaneOf, Spec.Queue, Spec.WithQueue;
      var batch := inFlight.value.(failures := inFlight.value.failures + 1);
      inFlight := None;
      var retry := !closed && batch.failures < Spec.MAX_FAILURES;
      if retry {
        AddFirst(Spec.LaneOf(batch), batch);
        wakeAt := now + Spec.RETRY_SLEEP;
      } else {
        var abandonedFragments := |batch.transmissions|;
        var abandonedBytes := SumBytes(batch.transmissions);
        var abandoned := Spec.Use(1, abandonedFragments, abandonedBytes);
        pending := pending.Minus(abandoned);
        if batch.control {
          pendingControl := pendingControl.Minus(abandoned);
        }
        if batch.serialized {
          serializedFrames := serializedFrames - 1;
        }
      }
    }

    /**
     * The wait for work: `clock(i)` is the `i`-th reading of the time source from `first` on, and
     * time passes until a paced announcement may start. Returns how many readings are used up.
     */
    method AwaitWork(clock: nat -> int, first: nat, ghost enough: nat) returns (next: nat)
      requires !closed && inFlight.None? && !Spec.AllEmpty(View())
      requires first <= enough && clock(enough) >= nextAnnounceStartNanos
      modifies this
      ensures first < next <= enough + 1
      ensures View() == Spec.Take(limits, old(View()), clock(next - 1)) && inFlight.Some?
      ensures forall i :: first <= i < next - 1 ==> Spec.Choice(limits, old(View()), clock(i)) == None
    {
      next := first;
      while true
        invariant first <= next <= enough
        invariant View() == old(View())
        invariant forall i :: first <= i < next ==> Spec.Choice(limits, View(), clock(i)) == None
        decreases enough - next
      {
        Take(clock(next));
        next := next + 1;
        if inFlight.Some? {
          return;
        }
      }
    }

    /** The pacing wait: the first reading at which the interval and the advised delay have passed. */
    method AwaitGlobalPacing(clock: nat -> int, first: nat, ghost enough: nat) returns (next: nat)
      requires !closed && first <= enough && clock(enough) >= nextSendNanos
      ensures first < next <= enough + 1 && clock(next - 1) >= nextSendNanos
      ensures forall i :: first <= i < next - 1 ==> clock(i) < nextSendNanos
    {
      next := first;
      while true
        invariant first <= next <= enough
        invariant forall i :: first <= i < next ==> clock(i) < nextSendNanos
        decreases enough - next
      {
        var wait := nextSendNanos - clock(next);
        next := next + 1;
        if wait <= 0 {
          return;
        }
      }
    }

    /**
     * One turn of the worker's loop, begun no earlier than the end of the sleep after a failure:
     * it takes a batch, waits out the pacing, calls the sender and records what came of it. The
     * steps it makes are enabled where they are made.
     */
    method RunOnce(clock: nat -> int, first: nat, ghost enough: nat, ok: bool, advisedMillis: int)
      returns (next: nat, takenAt: int, step: Spec.Step)
      requires limits.Valid() && Accounting.Sane(View()) && inFlight.None? && !Spec.AllEmpty(View())
      requires forall i, j :: 0 <= i <= j ==> clock(i) <= clock(j)
      requires clock(first) >= wakeAt && first < enough
      requires clock(enough - 1) >= nextAnnounceStartNanos && clock(enough) >= nextSendNanos
      modifies this
      ensures first < next
      ensures Spec.Enabled(old(View()), Spec.DoTake(takenAt))
      ensures var taken := Spec.Apply(limits, old(View()), Spec.DoTake(takenAt));
        && taken.inFlight.Some? && Spec.Enabled(taken, step)
        && (if ok then step.DoSent? && step.advisedMillis == advisedMillis else step.DoFailed?)
        && View() == Spec.Apply(limits, taken, step)
    {
      Accounting.SaneOpen(View());
      next := AwaitWork(clock, first, enough - 1);
      takenAt := clock(next - 1);
      ghost var taken := View();
      TakenSane(limits, old(View()), takenAt);
      next := AwaitGlobalPacing(clock, next, enough);
      var startedAt := clock(next - 1);
      if ok {
        OnSent(clock(next), advisedMillis, clock(next + 1));
        step := Spec.DoSent(startedAt, clock(next), advisedMillis, clock(next + 1));
        next := next + 2;
      } else {
        OnFailed(clock(next));
        step := Spec.DoFailed(startedAt, clock(next));
        next := next + 1;
      }
    }

    method Close()
      modifies this
      ensures View() == Spec.Close(old(View()))
    {
      closed := true;
      controlQueue, highQueue, normalQueue, announceQueue := [], [], [], [];
      pending, pendingControl := Spec.NO_USE, Spec.NO_USE;
      serializedFrames := 0;
    }
  }
}
