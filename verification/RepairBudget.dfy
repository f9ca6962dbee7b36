/** The rolling repair budget over whole runs. */
module RepairBudget {
  import opened Common
  import opened Fragments
  import opened FragmentSpec

  /** A request as it went on the air. */
  datatype Event = Event(key: Key, position: int, at: int)

  function EventOf(tx: Transmission, at: int): Event
    requires |tx.payload| == 5
  {
    Event(Key(tx.destination, tx.payload[3]), SignedByte(tx.payload[4]), at)
  }

  function Events(sent: seq<Transmission>, at: int): seq<Event> {
    if sent == [] then []
    else
      Events(sent[..|sent| - 1], at) +
      var tx := sent[|sent| - 1];
      if tx.reason == Repair && |tx.payload| == 5 then [EventOf(tx, at)] else []
  }

  function OutcomeEvents(out: Outcome, at: int): seq<Event> {
    if out.Raised? then [] else Events(out.transmissions, at)
  }

  /** Every request emitted in a run, in order. */
  function Log(c: Config, digest: Bytes -> Bytes, s: State, calls: seq<Call>): seq<Event>
    requires c.Valid()
  {
    if calls == [] then []
    else
      var n := |calls| - 1;
      Log(c, digest, s, calls[..n]) +
      OutcomeEvents(Apply(c, digest, Run(c, digest, s, calls[..n]), calls[n]).outcome, calls[n].now)
  }

  lemma EventsSnoc(sent: seq<Transmission>, key: Key, p: nat, at: int)
    ensures Events(sent + [Transmission(key.source, Request(key.index, p), Repair)], at)
         == Events(sent, at) + [Event(key, SignedByte(PackSigned(p)), at)]
  {
    var tx := Transmission(key.source, Request(key.index, p), Repair);
    assert (sent + [tx])[..|sent|] == sent;
    assert tx.payload[3] == key.index && tx.payload[4] == PackSigned(p);
  }

  /** Any `maxRequests + 1` consecutive requests span at least the window. */
  ghost predicate WithinBudget(c: Config, log: seq<Event>) {
    forall i, j :: 0 <= i <= j < |log| && j == i + c.maxRequests ==> log[j].at - log[i].at >= c.window
  }

  /** The window held in the state is the recent end of the log; all before it is old. */
  ghost predicate Accounted(c: Config, log: seq<Event>, times: seq<int>, clock: int) {
    && WithinBudget(c, log)
    && |times| <= c.maxRequests
    && |times| <= |log|
    && (forall i :: 0 <= i < |times| ==> times[i] == log[|log| - |times| + i].at)
    && (forall i :: 0 <= i < |log| - |times| ==> log[i].at <= clock - c.window)
  }

  lemma {:induction false} DropOldAccounted(c: Config, log: seq<Event>, times: seq<int>, clock: int, now: int)
    requires Accounted(c, log, times, clock) && clock <= now
    ensures Accounted(c, log, DropOld(times, now - c.window), now)
    decreases |times|
  {
    if times != [] && times[0] <= now - c.window {
      assert Accounted(c, log, times[1..], now);
      DropOldAccounted(c, log, times[1..], now, now);
    }
  }

  lemma RequestAccounted(c: Config, log: seq<Event>, times: seq<int>, e: Event)
    requires c.maxRequests > 0
    requires Accounted(c, log, times, e.at) && |times| < c.maxRequests
    ensures Accounted(c, log + [e], times + [e.at], e.at)
  {
  }

  lemma {:induction false} AppendAccounted(
    c: Config, log: seq<Event>, r: Repairs, key: Key, missing: seq<nat>, now: int, budget: int, immediate: bool)
    requires c.maxRequests > 0
    requires Accounted(c, log + Events(r.sent, now), r.times, now)
    ensures var r' := AppendRepairs(c, r, key, missing, now, budget, immediate);
      Accounted(c, log + Events(r'.sent, now), r'.times, now)
    decreases |missing|
  {
    hide Accounted, DropOld, Events, RepairDue;
    if missing == [] || budget <= 0 {
    } else {
      var p, rest := missing[0], missing[1..];
      if Lookup0(r.assembly.attempts, p, 0) >= c.maxAttempts || !RepairDue(c, r.assembly, p, now, immediate) {
        AppendAccounted(c, log, r, key, rest, now, budget, immediate);
      } else {
        DropOldAccounted(c, log + Events(r.sent, now), r.times, now, now);
        assert c.maxRequests > 0;
        var trimmed := r.(times := DropOld(r.times, now - c.window));
        if |trimmed.times| < c.maxRequests {
          var e := Event(key, SignedByte(PackSigned(p)), now);
          RequestAccounted(c, log + Events(r.sent, now), trimmed.times, e);
          EventsSnoc(r.sent, key, p, now);
          assert log + Events(r.sent, now) + [e] == log + (Events(r.sent, now) + [e]);
          AppendAccounted(c, log, RequestOne(c, trimmed, key, p, now), key, rest, now, budget - 1, immediate);
        }
      }
    }
  }

  lemma {:induction false} PollAccounted(
    c: Config, log: seq<Event>, s: State, keys: seq<Key>, now: int, maxRequests: int, allowControl: bool,
    sent: seq<Transmission>)
    requires c.Valid()
    requires Accounted(c, log + Events(sent, now), s.requestTimes, now)
    ensures var reply := PollFrom(c, s, keys, now, maxRequests, allowControl, sent);
      && reply.outcome.Done?
      && Accounted(c, log + Events(reply.outcome.transmissions, now), reply.state.requestTimes, now)
    decreases |keys|
  {
    hide Accounted;
    if keys == [] {
    } else if keys[0] !in s.assemblies.at || now - s.assemblies.at[keys[0]].updatedAt < c.cooldown {
      PollAccounted(c, log, s, keys[1..], now, maxRequests, allowControl, sent);
    } else if maxRequests - |sent| <= 0 {
    } else if !allowControl {
      PollAccounted(c, log, s, keys[1..], now, maxRequests, allowControl, sent);
    } else {
      var a := s.assemblies.at[keys[0]];
      var start := Repairs(a, s.requestTimes, sent);
      AppendAccounted(c, log, start, keys[0], Missing(a), now, maxRequests - |sent|, false);
      var r := AppendRepairs(c, start, keys[0], Missing(a), now, maxRequests - |sent|, false);
      PollAccounted(
        c, log, s.(assemblies := s.assemblies.Put(keys[0], r.assembly), requestTimes := r.times),
        keys[1..], now, maxRequests, allowControl, r.sent);
    }
  }

  lemma AccountedLater(c: Config, log: seq<Event>, times: seq<int>, clock: int, now: int)
    requires Accounted(c, log, times, clock) && clock <= now
    ensures Accounted(c, log, times, now)
  {
  }

  lemma SweepAccounted(c: Config, log: seq<Event>, s: State, clock: int, swept: int, now: int)
    requires Accounted(c, log, s.requestTimes, clock) && clock <= swept <= now
    ensures Accounted(c, log, Sweep(c, s, swept).requestTimes, now)
  {
    DropOldAccounted(c, log, s.requestTimes, clock, swept);
  }

  lemma FileAccounted(
    c: Config, digest: Bytes -> Bytes, log: seq<Event>, s: State, key: Key, wire: int, body: Bytes, now: int,
    allowControl: bool)
    requires c.Valid()
    requires Accounted(c, log, s.requestTimes, now)
    ensures var reply := File(c, digest, s, key, wire, body, now, allowControl);
      Accounted(c, log + OutcomeEvents(reply.outcome, now), reply.state.requestTimes, now)
  {
    hide Accounted, AppendRepairs, Absorb, Missing, Join;
    assert log + [] == log;
    var a := Absorb(AssemblyFor(s, key, now), wire, body, now);
    var start := Repairs(a, s.requestTimes, []);
    AppendAccounted(c, log, start, key, Missing(a), now, 1, true);
  }

  lemma DataIsNoEvent(sent: seq<Transmission>, at: int)
    requires forall i :: 0 <= i < |sent| ==> sent[i].reason != Repair
    ensures Events(sent, at) == []
  {
  }

  lemma ApplyAccounted(c: Config, digest: Bytes -> Bytes, log: seq<Event>, s: State, clock: int, call: Call)
    requires c.Valid()
    requires Accounted(c, log, s.requestTimes, clock) && clock <= call.swept <= call.now
    ensures var reply := Apply(c, digest, s, call);
      Accounted(c, log + OutcomeEvents(reply.outcome, call.now), reply.state.requestTimes, call.now)
  {
    hide Accounted, AppendRepairs, File, Chunks, PollFrom;
    assert log + [] == log;
    SweepAccounted(c, log, s, clock, call.swept, call.now);
    assert Accounted(c, log, s.requestTimes, call.now) by {
      AccountedLater(c, log, s.requestTimes, clock, call.now);
    }
    var s1 := Sweep(c, s, call.swept);
    match call
    case Send(frame, destination, swept, now) =>
      var out := Encode(c, s, frame, destination, swept, now).outcome;
      if out.Done? {
        DataIsNoEvent(out.transmissions, now);
      }
    case Hear(source, payload, allow, swept, now) =>
      if source != "" && !IsRequest(payload) && Malformed(payload).None? {
        FileAccounted(c, digest, log, s1, Key(source, payload[0]), SignedByte(payload[1]), payload[2..], now, allow);
      } else if source != "" && IsRequest(payload) {
        var out := HandleRequest(s1, source, payload[3..]);
        if out.Done? {
          DataIsNoEvent(out.transmissions, now);
        }
      }
    case PollRepairs(n, allow, swept, now) =>
      if n > 0 {
        PollAccounted(c, log, s1, s1.assemblies.order, now, n, allow, []);
      }
    case Cleanup(_, _) =>
  }

  lemma {:induction false} RunAccounted(c: Config, digest: Bytes -> Bytes, calls: seq<Call>, start: int)
    requires c.Valid() && Timed(calls)
    requires calls != [] ==> start <= calls[0].swept
    ensures Accounted(
      c, Log(c, digest, INITIAL, calls), Run(c, digest, INITIAL, calls).requestTimes, Clock(calls, start))
  {
    if calls != [] {
      var n := |calls| - 1;
      RunAccounted(c, digest, calls[..n], start);
      ApplyAccounted(
        c, digest, Log(c, digest, INITIAL, calls[..n]), Run(c, digest, INITIAL, calls[..n]),
        Clock(calls[..n], start), calls[n]);
    }
  }

  /**
   * The budget is a true sliding window: in the history of all requests of any run, whatever
   * the mix of sends, receives, polls and clean-ups, any `maxRequests + 1` consecutive
   * requests span at least `window`.
   */
  lemma SlidingWindow(c: Config, digest: Bytes -> Bytes, calls: seq<Call>)
    requires c.Valid() && Timed(calls)
    ensures WithinBudget(c, Log(c, digest, INITIAL, calls))
  {
    RunAccounted(c, digest, calls, if calls == [] then 0 else calls[0].swept);
  }

  lemma {:induction false} EventsAt(sent: seq<Transmission>, at: int)
    ensures forall i :: 0 <= i < |Events(sent, at)| ==> Events(sent, at)[i].at == at
  {
    if sent != [] {
      EventsAt(sent[..|sent| - 1], at);
    }
  }

  ghost predicate Rising(log: seq<Event>) {
    forall i, j :: 0 <= i <= j < |log| ==> log[i].at <= log[j].at
  }

  /** Requests are logged in the order of their times. */
  lemma {:induction false} LogSorted(c: Config, digest: Bytes -> Bytes, s: State, calls: seq<Call>)
    requires c.Valid() && Timed(calls)
    ensures var log := Log(c, digest, s, calls);
      && Rising(log)
      && (forall i :: 0 <= i < |log| ==> |calls| > 0 && log[i].at <= calls[|calls| - 1].now)
  {
    hide Apply;
    if calls != [] {
      var n := |calls| - 1;
      LogSorted(c, digest, s, calls[..n]);
      var out := Apply(c, digest, Run(c, digest, s, calls[..n]), calls[n]).outcome;
      EventsAt(if out.Done? then out.transmissions else [], calls[n].now);
      var before, added := Log(c, digest, s, calls[..n]), OutcomeEvents(out, calls[n].now);
      assert forall i :: 0 <= i < |added| ==> added[i].at == calls[n].now;
      assert forall i :: 0 <= i < |before| ==> before[i].at <= calls[n].now;
      assert Log(c, digest, s, calls) == before + added;
    }
  }

  lemma {:induction false} DropOldExact(times: seq<int>, cutoff: int)
    requires Sorted(times)
    ensures |DropOld(times, cutoff)| <= |times|
    ensures forall i :: 0 <= i < |times| - |DropOld(times, cutoff)| ==> times[i] <= cutoff
    ensures forall i :: |times| - |DropOld(times, cutoff)| <= i < |times| ==> times[i] > cutoff
  {
    if times != [] && times[0] <= cutoff {
      DropOldExact(times[1..], cutoff);
    } else if times != [] {
      assert forall i :: 0 <= i < |times| ==> times[0] <= times[i];
    }
  }

  /**
   * The budget refuses a request exactly when it has to: after any run, at any later time
   * `now`, it is exhausted if and only if `maxRequests` requests fell within the last window.
   */
  lemma ExhaustedIff(c: Config, digest: Bytes -> Bytes, calls: seq<Call>, now: int)
    requires c.Valid() && Timed(calls)
    requires calls != [] ==> calls[|calls| - 1].now <= now
    ensures var log := Log(c, digest, INITIAL, calls);
      |DropOld(Run(c, digest, INITIAL, calls).requestTimes, now - c.window)| >= c.maxRequests
      <==> |log| >= c.maxRequests && log[|log| - c.maxRequests].at > now - c.window
  {
    var start := if calls == [] then now else calls[0].swept;
    RunAccounted(c, digest, calls, start);
    LogSorted(c, digest, INITIAL, calls);
    ExhaustedAccounted(
      c, Log(c, digest, INITIAL, calls), Run(c, digest, INITIAL, calls).requestTimes, Clock(calls, start), now);
  }

  lemma ExhaustedAccounted(c: Config, log: seq<Event>, times: seq<int>, clock: int, now: int)
    requires c.Valid() && clock <= now
    requires Accounted(c, log, times, clock)
    requires Rising(log)
    ensures |DropOld(times, now - c.window)| >= c.maxRequests
       <==> |log| >= c.maxRequests && log[|log| - c.maxRequests].at > now - c.window
  {
    var first := |log| - |times|;
    assert Sorted(times) by {
      assert forall i :: 0 <= i < |times| ==> times[i] == log[first + i].at;
    }
    DropOldExact(times, now - c.window);
    if |log| >= c.maxRequests {
      var i := |log| - c.maxRequests;
      if i >= first {
        assert times[i - first] == log[i].at;
      }
    }
  }
}
