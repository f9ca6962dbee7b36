/** The two completion caches: at most one delivery per index and lifetime. */
module Completions {
  import opened Common
  import opened OrderedMaps
  import opened Fragments
  import opened FragmentSpec
  import opened FragmentFacts

  /** A completed frame handed up by `receive`. */
  datatype Emission = Emission(key: Key, frame: Bytes, at: int)

  function Emitted(call: Call, out: Outcome): seq<Emission> {
    if call.Hear? && call.payload != [] && out.Done? then
      seq(|out.frames|, i requires 0 <= i < |out.frames| =>
        Emission(Key(call.source, call.payload[0]), out.frames[i], call.now))
    else []
  }

  function Emissions(c: Config, digest: Bytes -> Bytes, s: State, calls: seq<Call>): seq<Emission>
    requires c.Valid()
  {
    if calls == [] then []
    else
      var n := |calls| - 1;
      Emissions(c, digest, s, calls[..n]) +
      Emitted(calls[n], Apply(c, digest, Run(c, digest, s, calls[..n]), calls[n]).outcome)
  }

  // ---- Popping from the front ----

  lemma {:induction false} PopExpiredSpec<K>(m: OMap<K, int>, cutoff: int)
    requires m.Valid()
    ensures var r := PopExpired(m, cutoff);
      && r.Valid()
      && (forall k :: k in r.at ==> k in m.at && r.at[k] == m.at[k])
      && (forall k :: k in m.at && k !in r.at ==> m.at[k] < cutoff)
    decreases |m.at|
  {
    if m.order != [] && m.order[0] in m.at && m.at[m.order[0]] < cutoff {
      RemoveFirst(m);
      var rest := m.Remove(m.order[0]);
      assert rest.at.Keys == m.at.Keys - {m.order[0]};
      PopExpiredSpec(rest, cutoff);
    }
  }

  /** `completedIndices` is `completed` with the digests left out, entry by entry. */
  ghost predicate Lockstep(completed: OMap<Completion, int>, indices: OMap<Key, int>) {
    && completed.Valid() && indices.Valid()
    && |completed.order| == |indices.order|
    && (forall i :: 0 <= i < |indices.order| ==>
          && completed.order[i].key == indices.order[i]
          && completed.order[i] in completed.at && indices.order[i] in indices.at
          && completed.at[completed.order[i]] == indices.at[indices.order[i]])
  }

  lemma RemoveFirstLockstep(completed: OMap<Completion, int>, indices: OMap<Key, int>)
    requires Lockstep(completed, indices) && indices.order != []
    ensures Lockstep(completed.Remove(completed.order[0]), indices.Remove(indices.order[0]))
  {
    RemoveFirst(completed);
    RemoveFirst(indices);
    var cs, ks := completed.Remove(completed.order[0]), indices.Remove(indices.order[0]);
    forall i | 0 <= i < |ks.order|
      ensures
        && cs.order[i].key == ks.order[i]
        && cs.order[i] in cs.at && ks.order[i] in ks.at
        && cs.at[cs.order[i]] == ks.at[ks.order[i]]
    {
      assert cs.order[i] == completed.order[i + 1] && ks.order[i] == indices.order[i + 1];
      assert ks.order[i] in Elements(ks.order) && cs.order[i] in Elements(cs.order);
    }
  }

  lemma LockstepHead(completed: OMap<Completion, int>, indices: OMap<Key, int>)
    requires Lockstep(completed, indices)
    ensures completed.Valid() && indices.Valid() && |completed.order| == |indices.order|
    ensures indices.order != [] ==>
              && completed.order[0] in completed.at && indices.order[0] in indices.at
              && completed.at[completed.order[0]] == indices.at[indices.order[0]]
  {
  }

  lemma {:induction false} PopLockstep(completed: OMap<Completion, int>, indices: OMap<Key, int>, cutoff: int)
    requires Lockstep(completed, indices)
    ensures Lockstep(PopExpired(completed, cutoff), PopExpired(indices, cutoff))
    decreases |indices.order|
  {
    hide Lockstep, Select;
    LockstepHead(completed, indices);
    if indices.order != [] && indices.at[indices.order[0]] < cutoff {
      RemoveFirstLockstep(completed, indices);
      RemoveFirst(indices);
      PopLockstep(completed.Remove(completed.order[0]), indices.Remove(indices.order[0]), cutoff);
    }
  }

  /** The digest check has nothing to find: an index that is not remembered has no remembered digest. */
  lemma DigestCheckIsDead(completed: OMap<Completion, int>, indices: OMap<Key, int>, key: Key, digest: Bytes)
    requires Lockstep(completed, indices)
    requires key !in indices.at
    ensures Completion(key, digest) !in completed.at
  {
    var done := Completion(key, digest);
    forall i | 0 <= i < |completed.order| ensures completed.order[i] != done {
      assert indices.order[i] in Elements(indices.order);
    }
    assert done !in Elements(completed.order);
  }

  lemma CompleteLockstep(completed: OMap<Completion, int>, indices: OMap<Key, int>, key: Key, digest: Bytes, now: int)
    requires Lockstep(completed, indices) && key !in indices.at
    ensures var done := Completion(key, digest);
      Lockstep(completed.Put(done, now).MoveToEnd(done), indices.Put(key, now).MoveToEnd(key))
  {
    hide Select;
    var done := Completion(key, digest);
    DigestCheckIsDead(completed, indices, key, digest);
    MoveNewKey(completed, done, now);
    MoveNewKey(indices, key, now);
    PutValid(completed, done, now);
    PutValid(indices, key, now);
    assert forall i :: 0 <= i < |indices.order| ==> indices.order[i] in Elements(indices.order);
    assert forall i :: 0 <= i < |completed.order| ==> completed.order[i] in Elements(completed.order);
  }

  // ---- One call ----

  /** Every delivery is still remembered, or more than a lifetime ago; repeats are a lifetime apart. */
  ghost predicate Settled(c: Config, s: State, log: seq<Emission>, clock: int) {
    && Lockstep(s.completed, s.completedIndices)
    && (forall i :: 0 <= i < |log| ==> Remembered(c, s, log[i], clock))
    && FarApart(c, log)
  }

  ghost predicate Remembered(c: Config, s: State, e: Emission, clock: int) {
    || (e.key in s.completedIndices.at && s.completedIndices.at[e.key] >= e.at)
    || e.at + c.ttl < clock
  }

  ghost predicate FarApart(c: Config, log: seq<Emission>) {
    forall i, j :: 0 <= i < j < |log| && log[i].key == log[j].key ==> log[j].at - log[i].at > c.ttl
  }

  lemma SweepSettled(c: Config, s: State, log: seq<Emission>, clock: int, swept: int)
    requires Settled(c, s, log, clock) && clock <= swept
    ensures Settled(c, Sweep(c, s, swept), log, swept)
  {
    hide PopExpired, Remembered;
    LockstepHead(s.completed, s.completedIndices);
    var t := Sweep(c, s, swept);
    assert Lockstep(t.completed, t.completedIndices) by {
      PopLockstep(s.completed, s.completedIndices, swept - c.ttl);
    }
    forall i | 0 <= i < |log| ensures Remembered(c, t, log[i], swept) {
      SweepRemembered(c, s, log[i], clock, swept);
    }
  }

  lemma SweepRemembered(c: Config, s: State, e: Emission, clock: int, swept: int)
    requires s.completedIndices.Valid() && Remembered(c, s, e, clock) && clock <= swept
    ensures Remembered(c, Sweep(c, s, swept), e, swept)
  {
    hide PopExpired;
    PopExpiredSpec(s.completedIndices, swept - c.ttl);
  }

  lemma NothingEmitted(call: Call, out: Outcome)
    requires out.Raised? || out.frames == []
    ensures Emitted(call, out) == []
  {
  }

  lemma LaterSettled(c: Config, s: State, t: State, log: seq<Emission>, clock: int, now: int)
    requires Settled(c, s, log, clock) && clock <= now
    requires t.completed == s.completed && t.completedIndices == s.completedIndices
    ensures Settled(c, t, log, now)
  {
    forall i | 0 <= i < |log| ensures Remembered(c, t, log[i], now) {
      assert Remembered(c, s, log[i], clock);
    }
  }

  lemma CompleteSettled(c: Config, s: State, log: seq<Emission>, key: Key, frame: Bytes, digest: Bytes, now: int)
    requires c.Valid() && Settled(c, s, log, now) && key !in s.completedIndices.at
    ensures var reply := Complete(s, key, frame, digest, now);
      && reply.outcome == Done([frame], [])
      && Settled(c, reply.state, log + [Emission(key, frame, now)], now)
  {
    hide Lockstep;
    DigestCheckIsDead(s.completed, s.completedIndices, key, digest);
    CompleteLockstep(s.completed, s.completedIndices, key, digest, now);
    var t := Complete(s, key, frame, digest, now).state;
    var log' := log + [Emission(key, frame, now)];
    forall i | 0 <= i < |log'| ensures Remembered(c, t, log'[i], now) {
      if i < |log| {
        assert Remembered(c, s, log[i], now);
      }
    }
  }

  lemma OneEmitted(call: Call, frame: Bytes)
    requires call.Hear? && call.payload != []
    ensures Emitted(call, Done([frame], [])) == [Emission(Key(call.source, call.payload[0]), frame, call.now)]
  {
  }

  lemma FileSettled(
    c: Config, digest: Bytes -> Bytes, s: State, log: seq<Emission>, source: string, payload: Bytes, now: int,
    allowControl: bool, call: Call)
    requires c.Valid() && Settled(c, s, log, now) && Malformed(payload).None?
    requires call.Hear? && call.source == source && call.payload == payload && call.now == now
    ensures var reply :=
        File(c, digest, s, Key(source, payload[0]), SignedByte(payload[1]), payload[2..], now, allowControl);
      Settled(c, reply.state, log + Emitted(call, reply.outcome), now)
  {
    hide Settled, AppendRepairs, Missing, Absorb, Join, Emitted;
    assert log + [] == log;
    var key := Key(source, payload[0]);
    if key in s.completedIndices.at {
      NothingEmitted(call, NOTHING);
    } else {
      var a := Absorb(AssemblyFor(s, key, now), SignedByte(payload[1]), payload[2..], now);
      var s1 := s.(assemblies := s.assemblies.Put(key, a));
      LaterSettled(c, s, s1, log, now, now);
      if a.final.Some? && Missing(a) == [] {
        var frame := Join(a.fragments, a.final.value);
        CompleteSettled(c, s1, log, key, frame, digest(frame), now);
        OneEmitted(call, frame);
      } else {
        var reply := File(c, digest, s, key, SignedByte(payload[1]), payload[2..], now, allowControl);
        NothingEmitted(call, reply.outcome);
        LaterSettled(c, s, reply.state, log, now, now);
      }
    }
  }

  lemma ApplySettled(c: Config, digest: Bytes -> Bytes, s: State, log: seq<Emission>, clock: int, call: Call)
    requires c.Valid() && Settled(c, s, log, clock) && clock <= call.swept <= call.now
    ensures var reply := Apply(c, digest, s, call);
      Settled(c, reply.state, log + Emitted(call, reply.outcome), call.now)
  {
    hide Settled, File, PollFrom, Chunks, Sweep, Emitted;
    assert log + [] == log;
    var out := Apply(c, digest, s, call).outcome;
    if out.Raised? || out.frames == [] {
      NothingEmitted(call, out);
    }
    SweepSettled(c, s, log, clock, call.swept);
    var s1 := Sweep(c, s, call.swept);
    LaterSettled(c, s, s, log, clock, call.now);
    LaterSettled(c, s1, s1, log, call.swept, call.now);
    match call
    case Send(frame, destination, swept, now) =>
      var t := Encode(c, s, frame, destination, swept, now).state;
      if t != s {
        LaterSettled(c, s1, t, log, call.swept, call.now);
      }
    case Hear(source, payload, allow, swept, now) =>
      if source != "" && !IsRequest(payload) && Malformed(payload).None? {
        FileSettled(c, digest, s1, log, source, payload, now, allow, call);
      }
    case PollRepairs(n, allow, swept, now) =>
      if n > 0 {
        PollKeepsCaches(c, s1, s1.assemblies.order, now, n, allow, []);
        LaterSettled(c, s1, Apply(c, digest, s, call).state, log, call.swept, call.now);
      }
    case Cleanup(_, _) =>
  }

  lemma {:induction false} RunSettled(c: Config, digest: Bytes -> Bytes, calls: seq<Call>, start: int)
    requires c.Valid() && Timed(calls)
    requires calls != [] ==> start <= calls[0].swept
    ensures Settled(
      c, Run(c, digest, INITIAL, calls), Emissions(c, digest, INITIAL, calls), Clock(calls, start))
  {
    if calls != [] {
      hide Settled, Apply, Emitted;
      var n := |calls| - 1;
      RunSettled(c, digest, calls[..n], start);
      ApplySettled(
        c, digest, Run(c, digest, INITIAL, calls[..n]), Emissions(c, digest, INITIAL, calls[..n]),
        Clock(calls[..n], start), calls[n]);
    }
  }

  /** In any run two deliveries under the same source and index are more than a lifetime apart. */
  lemma AtMostOncePerLifetime(c: Config, digest: Bytes -> Bytes, calls: seq<Call>)
    requires c.Valid() && Timed(calls)
    ensures FarApart(c, Emissions(c, digest, INITIAL, calls))
  {
    RunSettled(c, digest, calls, if calls == [] then 0 else calls[0].swept);
  }

  /** In any run the index cache stays the projection of the digest cache. */
  lemma CachesStayInLockstep(c: Config, digest: Bytes -> Bytes, calls: seq<Call>)
    requires c.Valid() && Timed(calls)
    ensures var s := Run(c, digest, INITIAL, calls); Lockstep(s.completed, s.completedIndices)
  {
    hide Run, Emissions;
    RunSettled(c, digest, calls, if calls == [] then 0 else calls[0].swept);
  }

  // ---- The digest never matters ----

  ghost predicate SameButDigests(s: State, t: State) {
    && s.(completed := t.completed) == t
    && Lockstep(s.completed, s.completedIndices)
    && Lockstep(t.completed, t.completedIndices)
  }

  lemma SweepSame(c: Config, s: State, t: State, now: int)
    requires SameButDigests(s, t)
    ensures SameButDigests(Sweep(c, s, now), Sweep(c, t, now))
  {
    hide Lockstep;
    PopLockstep(s.completed, s.completedIndices, now - c.ttl);
    PopLockstep(t.completed, t.completedIndices, now - c.ttl);
  }

  lemma {:induction false} PollSame(
    c: Config, s: State, t: State, keys: seq<Key>, now: int, maxRequests: int, allowControl: bool,
    sent: seq<Transmission>)
    requires SameButDigests(s, t)
    ensures var rs := PollFrom(c, s, keys, now, maxRequests, allowControl, sent);
            var rt := PollFrom(c, t, keys, now, maxRequests, allowControl, sent);
      rs.outcome == rt.outcome && SameButDigests(rs.state, rt.state)
    decreases |keys|
  {
    hide Lockstep, AppendRepairs, Missing;
    if keys == [] {
    } else if keys[0] !in s.assemblies.at || now - s.assemblies.at[keys[0]].updatedAt < c.cooldown {
      PollSame(c, s, t, keys[1..], now, maxRequests, allowControl, sent);
    } else if maxRequests - |sent| <= 0 {
    } else if !allowControl {
      PollSame(c, s, t, keys[1..], now, maxRequests, allowControl, sent);
    } else {
      var a := s.assemblies.at[keys[0]];
      var r := AppendRepairs(
        c, Repairs(a, s.requestTimes, sent), keys[0], Missing(a), now, maxRequests - |sent|, false);
      PollSame(
        c, s.(assemblies := s.assemblies.Put(keys[0], r.assembly), requestTimes := r.times),
        t.(assemblies := t.assemblies.Put(keys[0], r.assembly), requestTimes := r.times),
        keys[1..], now, maxRequests, allowControl, r.sent);
    }
  }

  lemma FileSame(
    c: Config, d1: Bytes -> Bytes, d2: Bytes -> Bytes, s: State, t: State, key: Key, wire: int, body: Bytes,
    now: int, allowControl: bool)
    requires SameButDigests(s, t)
    ensures var rs := File(c, d1, s, key, wire, body, now, allowControl);
            var rt := File(c, d2, t, key, wire, body, now, allowControl);
      rs.outcome == rt.outcome && SameButDigests(rs.state, rt.state)
  {
    hide Lockstep, AppendRepairs, Missing, Absorb, Join;
    if key !in s.completedIndices.at {
      var a := Absorb(AssemblyFor(s, key, now), wire, body, now);
      if a.final.Some? && Missing(a) == [] {
        var frame := Join(a.fragments, a.final.value);
        DigestCheckIsDead(s.completed, s.completedIndices, key, d1(frame));
        DigestCheckIsDead(t.completed, t.completedIndices, key, d2(frame));
        CompleteLockstep(s.completed, s.completedIndices, key, d1(frame), now);
        CompleteLockstep(t.completed, t.completedIndices, key, d2(frame), now);
      }
    }
  }

  lemma ApplySame(c: Config, d1: Bytes -> Bytes, d2: Bytes -> Bytes, s: State, t: State, call: Call)
    requires c.Valid() && SameButDigests(s, t)
    ensures Apply(c, d1, s, call).outcome == Apply(c, d2, t, call).outcome
    ensures SameButDigests(Apply(c, d1, s, call).state, Apply(c, d2, t, call).state)
  {
    hide Lockstep, File, PollFrom, Chunks, Sweep;
    SweepSame(c, s, t, call.swept);
    var s1, t1 := Sweep(c, s, call.swept), Sweep(c, t, call.swept);
    match call
    case Send(frame, destination, swept, now) =>
    case Hear(source, payload, allow, swept, now) =>
      if source != "" && !IsRequest(payload) && Malformed(payload).None? {
        FileSame(c, d1, d2, s1, t1, Key(source, payload[0]), SignedByte(payload[1]), payload[2..], now, allow);
      }
    case PollRepairs(n, allow, swept, now) =>
      if n > 0 {
        PollSame(c, s1, t1, s1.assemblies.order, now, n, allow, []);
      }
    case Cleanup(_, _) =>
  }

  lemma {:induction false} RunSame(c: Config, d1: Bytes -> Bytes, d2: Bytes -> Bytes, calls: seq<Call>)
    requires c.Valid()
    ensures SameButDigests(Run(c, d1, INITIAL, calls), Run(c, d2, INITIAL, calls))
  {
    if calls != [] {
      hide Apply, SameButDigests;
      var n := |calls| - 1;
      RunSame(c, d1, d2, calls[..n]);
      ApplySame(c, d1, d2, Run(c, d1, INITIAL, calls[..n]), Run(c, d2, INITIAL, calls[..n]), calls[n]);
    }
  }

  /**
   * The digest branch is dead: whatever the digest function, colliding or not, every call of
   * every run answers the same, so the digest check never suppresses a frame.
   */
  lemma DigestNeverMatters(c: Config, d1: Bytes -> Bytes, d2: Bytes -> Bytes, calls: seq<Call>, i: nat)
    requires c.Valid() && i < |calls|
    ensures OutcomeOf(c, d1, INITIAL, calls, i) == OutcomeOf(c, d2, INITIAL, calls, i)
  {
    RunSame(c, d1, d2, calls[..i]);
    ApplySame(c, d1, d2, Run(c, d1, INITIAL, calls[..i]), Run(c, d2, INITIAL, calls[..i]), calls[i]);
  }
}
