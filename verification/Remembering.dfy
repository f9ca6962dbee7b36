/** Which deliveries are remembered, and for how long. */
module Remembering {
  import opened Common
  import opened OrderedMaps
  import opened Fragments
  import opened FragmentSpec
  import opened FragmentFacts
  import opened Completions
  import T = ProtocolTwins

  /** Every entry is the time of a delivery, and entries stand in the order of time. */
  ghost predicate Logged(indices: OMap<Key, int>, log: seq<Emission>, clock: int) {
    && T.Aged(indices, clock)
    && forall k :: k in indices.at ==> Delivered(log, k, indices.at[k])
  }

  ghost predicate Delivered(log: seq<Emission>, key: Key, at: int) {
    exists i :: 0 <= i < |log| && log[i].key == key && log[i].at == at
  }

  lemma DeliveredMore(log: seq<Emission>, more: seq<Emission>, key: Key, at: int)
    requires Delivered(log, key, at)
    ensures Delivered(log + more, key, at)
  {
    var i :| 0 <= i < |log| && log[i].key == key && log[i].at == at;
    assert (log + more)[i] == log[i];
  }

  lemma SweepLogged(c: Config, s: State, log: seq<Emission>, clock: int, swept: int)
    requires Logged(s.completedIndices, log, clock) && clock <= swept
    ensures var indices := Sweep(c, s, swept).completedIndices;
      && Logged(indices, log, swept)
      && forall k :: k in indices.at <==> k in s.completedIndices.at && s.completedIndices.at[k] >= swept - c.ttl
    ensures forall k :: k in Sweep(c, s, swept).completedIndices.at ==>
              Sweep(c, s, swept).completedIndices.at[k] == s.completedIndices.at[k]
  {
    hide PopExpired, Delivered, T.Aged, DropOld;
    T.AgedLater(s.completedIndices, clock, swept);
    T.PopIsFilter(s.completedIndices, swept, swept - c.ttl);
  }

  lemma LaterLogged(indices: OMap<Key, int>, log: seq<Emission>, clock: int, now: int)
    requires Logged(indices, log, clock) && clock <= now
    ensures Logged(indices, log, now)
  {
    hide T.Aged, Delivered;
    T.AgedLater(indices, clock, now);
  }

  lemma CompleteLogged(s: State, log: seq<Emission>, key: Key, frame: Bytes, digest: Bytes, now: int)
    requires Lockstep(s.completed, s.completedIndices) && key !in s.completedIndices.at
    requires Logged(s.completedIndices, log, now)
    ensures var reply := Complete(s, key, frame, digest, now);
      && reply.outcome == Done([frame], [])
      && Logged(reply.state.completedIndices, log + [Emission(key, frame, now)], now)
  {
    hide T.Aged, Lockstep, Delivered;
    DigestCheckIsDead(s.completed, s.completedIndices, key, digest);
    T.AgedPut(s.completedIndices, now, key, now);
    var log' := log + [Emission(key, frame, now)];
    var indices := Complete(s, key, frame, digest, now).state.completedIndices;
    forall k | k in indices.at ensures Delivered(log', k, indices.at[k]) {
      if k == key {
        LastDelivered(log, Emission(key, frame, now));
      } else {
        DeliveredMore(log, [Emission(key, frame, now)], k, indices.at[k]);
      }
    }
  }

  lemma LastDelivered(log: seq<Emission>, e: Emission)
    ensures Delivered(log + [e], e.key, e.at)
  {
    assert (log + [e])[|log|] == e;
  }

  lemma FileLogged(
    c: Config, digest: Bytes -> Bytes, s: State, log: seq<Emission>, source: string, payload: Bytes, call: Call)
    requires c.Valid() && Lockstep(s.completed, s.completedIndices) && Malformed(payload).None?
    requires call.Hear? && call.source == source && call.payload == payload
    requires Logged(s.completedIndices, log, call.now)
    ensures var reply := File(
              c, digest, s, Key(source, payload[0]), SignedByte(payload[1]), payload[2..], call.now, call.allowControl);
      Logged(reply.state.completedIndices, log + Emitted(call, reply.outcome), call.now)
  {
    hide Logged, Lockstep, AppendRepairs, Missing, Absorb, Join, Emitted;
    assert log + [] == log;
    var key := Key(source, payload[0]);
    if key in s.completedIndices.at {
      NothingEmitted(call, NOTHING);
    } else {
      var a := Absorb(AssemblyFor(s, key, call.now), SignedByte(payload[1]), payload[2..], call.now);
      var s1 := s.(assemblies := s.assemblies.Put(key, a));
      if a.final.Some? && Missing(a) == [] {
        var frame := Join(a.fragments, a.final.value);
        CompleteLogged(s1, log, key, frame, digest(frame), call.now);
        OneEmitted(call, frame);
      } else {
        var reply := File(
          c, digest, s, key, SignedByte(payload[1]), payload[2..], call.now, call.allowControl);
        NothingEmitted(call, reply.outcome);
      }
    }
  }

  lemma ApplyLogged(
    c: Config, digest: Bytes -> Bytes, s: State, log: seq<Emission>, clock: int, call: Call)
    requires c.Valid() && Settled(c, s, log, clock) && Logged(s.completedIndices, log, clock)
    requires clock <= call.swept <= call.now
    ensures var reply := Apply(c, digest, s, call);
      Logged(reply.state.completedIndices, log + Emitted(call, reply.outcome), call.now)
  {
    hide Logged, Remembered, FarApart, Lockstep, File, PollFrom, Chunks, Sweep, Emitted;
    assert log + [] == log;
    var out := Apply(c, digest, s, call).outcome;
    if out.Raised? || out.frames == [] {
      NothingEmitted(call, out);
    }
    SweepLogged(c, s, log, clock, call.swept);
    SweepSettled(c, s, log, clock, call.swept);
    var s1 := Sweep(c, s, call.swept);
    LaterLogged(s.completedIndices, log, clock, call.now);
    LaterLogged(s1.completedIndices, log, call.swept, call.now);
    match call
    case Send(frame, destination, swept, now) =>
    case Hear(source, payload, allow, swept, now) =>
      if source != "" && !IsRequest(payload) && Malformed(payload).None? {
        FileLogged(c, digest, s1, log, source, payload, call);
      }
    case PollRepairs(n, allow, swept, now) =>
      if n > 0 {
        PollKeepsCaches(c, s1, s1.assemblies.order, now, n, allow, []);
      }
    case Cleanup(_, _) =>
  }

  lemma {:induction false} RunLogged(c: Config, digest: Bytes -> Bytes, calls: seq<Call>, start: int)
    requires c.Valid() && Timed(calls)
    requires calls != [] ==> start <= calls[0].swept
    ensures Logged(
      Run(c, digest, INITIAL, calls).completedIndices, Emissions(c, digest, INITIAL, calls), Clock(calls, start))
  {
    if calls != [] {
      hide Logged, Settled, Apply, Emitted;
      var n := |calls| - 1;
      RunLogged(c, digest, calls[..n], start);
      RunSettled(c, digest, calls[..n], start);
      ApplyLogged(
        c, digest, Run(c, digest, INITIAL, calls[..n]), Emissions(c, digest, INITIAL, calls[..n]),
        Clock(calls[..n], start), calls[n]);
    }
  }

  /**
   * After any run, at any later time, fragments of a source and index are dropped as belonging to
   * a finished frame if and only if a frame was delivered under them within the lifetime: never
   * earlier, never longer.
   */
  lemma RememberedIff(c: Config, digest: Bytes -> Bytes, calls: seq<Call>, key: Key, swept: int)
    requires c.Valid() && Timed(calls) && (calls != [] ==> calls[|calls| - 1].now <= swept)
    ensures var log := Emissions(c, digest, INITIAL, calls);
      key in Sweep(c, Run(c, digest, INITIAL, calls), swept).completedIndices.at
      <==> exists i :: 0 <= i < |log| && log[i].key == key && log[i].at >= swept - c.ttl
  {
    hide Run, Emissions, Sweep, Lockstep, FarApart, T.Aged;
    var start := if calls == [] then swept else calls[0].swept;
    var s, log := Run(c, digest, INITIAL, calls), Emissions(c, digest, INITIAL, calls);
    RunLogged(c, digest, calls, start);
    RunSettled(c, digest, calls, start);
    SweepLogged(c, s, log, Clock(calls, start), swept);
    SweepSettled(c, s, log, Clock(calls, start), swept);
    if i :| 0 <= i < |log| && log[i].key == key && log[i].at >= swept - c.ttl {
      assert Remembered(c, Sweep(c, s, swept), log[i], swept);
    }
  }
}
