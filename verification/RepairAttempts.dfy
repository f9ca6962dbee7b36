/** Repair attempts per position over the life of one assembly. */
module RepairAttempts {
  import opened Common
  import opened OrderedMaps
  import opened Fragments
  import opened FragmentSpec
  import opened FragmentFacts
  import opened RepairBudget

  /** When `key` was asked for position `p`. */
  function TimesFor(events: seq<Event>, key: Key, p: nat): seq<int> {
    if events == [] then []
    else
      TimesFor(events[..|events| - 1], key, p) +
      var e := events[|events| - 1];
      if e.key == key && e.position == p then [e.at] else []
  }

  lemma {:induction false} TimesForAppend(a: seq<Event>, b: seq<Event>, key: Key, p: nat)
    ensures TimesFor(a + b, key, p) == TimesFor(a, key, p) + TimesFor(b, key, p)
  {
    if b == [] {
      assert a + b == a;
    } else {
      assert (a + b)[..|a + b| - 1] == a + b[..|b| - 1];
      TimesForAppend(a, b[..|b| - 1], key, p);
    }
  }

  /**
   * The requests for position `p` since the assembly of `key` was created: a call that finds
   * no assembly after its clean-up starts a new life.
   */
  function LifeTimes(c: Config, digest: Bytes -> Bytes, calls: seq<Call>, key: Key, p: nat): seq<int>
    requires c.Valid()
  {
    if calls == [] then []
    else
      var n := |calls| - 1;
      var before := Run(c, digest, INITIAL, calls[..n]);
      (if key in Swept(c, before, calls[n]).assemblies.at then LifeTimes(c, digest, calls[..n], key, p) else []) +
      TimesFor(OutcomeEvents(Apply(c, digest, before, calls[n]).outcome, calls[n].now), key, p)
  }

  /** At most `maxAttempts`, each wait at least twice the previous one. */
  ghost predicate Spaced(c: Config, times: seq<int>) {
    && |times| <= c.maxAttempts
    && forall i, j :: 0 <= i < j < |times| && j == i + 1 ==> times[j] - times[i] >= c.cooldown * Pow2(j)
  }

  predicate Held(a: Assembly, p: nat) {
    if p == 0 then a.final.Some? else p in a.fragments
  }

  /** What the attempt counters of an assembly say about its past. */
  ghost predicate Tracks(c: Config, a: Assembly, p: nat, times: seq<int>) {
    && Spaced(c, times)
    && (!Held(a, p) ==>
          && Lookup0(a.attempts, p, 0) == |times|
          && (times != [] ==> Lookup0(a.requestedAt, p, 0) == times[|times| - 1]))
  }

  /** Positions come from a signed byte, and a known final fragment is always held. */
  ghost predicate WellFormed(a: Assembly) {
    && (forall q :: q in a.fragments ==> 1 <= q <= 128)
    && (a.final.Some? ==> a.final.value in a.fragments)
  }

  ghost predicate Wanted(a: Assembly, missing: seq<nat>) {
    forall m :: m in missing ==> !Held(a, m) && m <= 127
  }

  lemma MissingWanted(a: Assembly)
    requires WellFormed(a)
    ensures Wanted(a, Missing(a))
  {
    if a.final.Some? {
      MissingFromSpec(a.fragments, 1, a.final.value);
    }
  }

  lemma RequestTracks(c: Config, r: Repairs, key: Key, m: nat, now: int, immediate: bool, p: nat, times: seq<int>)
    requires c.maxAttempts > 0
    requires Tracks(c, r.assembly, p, times)
    requires !Held(r.assembly, m)
    requires Lookup0(r.assembly.attempts, m, 0) < c.maxAttempts && RepairDue(c, r.assembly, m, now, immediate)
    ensures Tracks(c, RequestOne(c, r, key, m, now).assembly, p, if m == p then times + [now] else times)
  {
  }

  lemma EventPosition(m: nat)
    requires m <= 127
    ensures SignedByte(PackSigned(m)) == m
  {
  }

  lemma TimesForOne(e: Event, key: Key, p: nat)
    ensures TimesFor([e], key, p) == if e.key == key && e.position == p then [e.at] else []
  {
    assert [e][..0] == [];
    assert TimesFor([e][..0], key, p) == [];
  }

  /** Requests for one assembly keep its own record straight and add nothing to another's. */
  lemma {:induction false} AppendTracks(
    c: Config, r: Repairs, owner: Key, missing: seq<nat>, now: int, budget: int, immediate: bool,
    key: Key, p: nat, past: seq<int>)
    requires c.maxAttempts > 0 && Wanted(r.assembly, missing)
    requires owner == key ==> Tracks(c, r.assembly, p, past + TimesFor(Events(r.sent, now), key, p))
    ensures var r' := AppendRepairs(c, r, owner, missing, now, budget, immediate);
      (if owner == key then Tracks(c, r'.assembly, p, past + TimesFor(Events(r'.sent, now), key, p))
          else TimesFor(Events(r'.sent, now), key, p) == TimesFor(Events(r.sent, now), key, p))
    decreases |missing|
  {
    hide Tracks, DropOld, Events, TimesFor, RepairDue;
    if missing == [] || budget <= 0 {
    } else {
      var m, rest := missing[0], missing[1..];
      assert m in missing;
      assert forall x :: x in rest ==> x in missing;
      if Lookup0(r.assembly.attempts, m, 0) >= c.maxAttempts || !RepairDue(c, r.assembly, m, now, immediate) {
        AppendTracks(c, r, owner, rest, now, budget, immediate, key, p, past);
      } else {
        var trimmed := r.(times := DropOld(r.times, now - c.window));
        if |trimmed.times| < c.maxRequests {
          var next := RequestOne(c, trimmed, owner, m, now);
          var times := TimesFor(Events(r.sent, now), key, p);
          NextTimes(r.sent, owner, m, now, key, p);
          if owner == key {
            RequestTracks(c, trimmed, owner, m, now, immediate, p, past + times);
            assert past + times + [now] == past + (times + [now]) && times + [] == times;
          }
          AppendTracks(c, next, owner, rest, now, budget - 1, immediate, key, p, past);
        }
      }
    }
  }

  lemma NextTimes(sent: seq<Transmission>, owner: Key, m: nat, now: int, key: Key, p: nat)
    requires m <= 127
    ensures TimesFor(Events(sent + [Transmission(owner.source, Request(owner.index, m), Repair)], now), key, p)
         == TimesFor(Events(sent, now), key, p) + (if owner == key && m == p then [now] else [])
  {
    EventPosition(m);
    EventsSnoc(sent, owner, m, now);
    TimesForAppend(Events(sent, now), [Event(owner, m, now)], key, p);
    TimesForOne(Event(owner, m, now), key, p);
  }

  /** The record of one position of one key in a state. */
  ghost predicate Recorded(c: Config, s: State, key: Key, p: nat, times: seq<int>) {
    && Spaced(c, times)
    && (key in s.assemblies.at ==> Tracks(c, s.assemblies.at[key], p, times))
  }

  ghost predicate AllWellFormed(s: State) {
    forall k :: k in s.assemblies.at ==> WellFormed(s.assemblies.at[k])
  }

  lemma {:induction false} PollRecorded(
    c: Config, s: State, keys: seq<Key>, now: int, maxRequests: int, allowControl: bool, sent: seq<Transmission>,
    key: Key, p: nat, past: seq<int>)
    requires c.Valid() && AllWellFormed(s)
    requires Recorded(c, s, key, p, past + TimesFor(Events(sent, now), key, p))
    ensures var reply := PollFrom(c, s, keys, now, maxRequests, allowControl, sent);
      && AllWellFormed(reply.state) && reply.outcome.Done?
      && Recorded(c, reply.state, key, p, past + TimesFor(Events(reply.outcome.transmissions, now), key, p))
    decreases |keys|
  {
    hide Tracks, Spaced, WellFormed, AppendRepairs, Missing, Events, TimesFor;
    if keys == [] {
    } else if keys[0] !in s.assemblies.at || now - s.assemblies.at[keys[0]].updatedAt < c.cooldown {
      PollRecorded(c, s, keys[1..], now, maxRequests, allowControl, sent, key, p, past);
    } else if maxRequests - |sent| <= 0 {
    } else if !allowControl {
      PollRecorded(c, s, keys[1..], now, maxRequests, allowControl, sent, key, p, past);
    } else {
      var a := s.assemblies.at[keys[0]];
      var start := Repairs(a, s.requestTimes, sent);
      MissingWanted(a);
      AppendTracks(c, start, keys[0], Missing(a), now, maxRequests - |sent|, false, key, p, past);
      var r := AppendRepairs(c, start, keys[0], Missing(a), now, maxRequests - |sent|, false);
      var s1 := s.(assemblies := s.assemblies.Put(keys[0], r.assembly), requestTimes := r.times);
      AppendKeepsShape(c, start, keys[0], Missing(a), now, maxRequests - |sent|, false);
      SameShape(a, r.assembly);
      assert Recorded(c, s1, key, p, past + TimesFor(Events(r.sent, now), key, p)) by {
        TracksSpaced(c, r.assembly, p, past + TimesFor(Events(r.sent, now), key, p));
      }
      PollRecorded(c, s1, keys[1..], now, maxRequests, allowControl, r.sent, key, p, past);
    }
  }

  lemma TracksSpaced(c: Config, a: Assembly, p: nat, times: seq<int>)
    ensures Tracks(c, a, p, times) ==> Spaced(c, times)
  {
  }

  /** Filing a fragment never lets a counter forget a request that can still be repeated. */
  lemma AbsorbTracks(c: Config, a: Assembly, wire: int, body: Bytes, now: int, p: nat, times: seq<int>)
    requires Tracks(c, a, p, times) && wire != 0
    ensures Tracks(c, Absorb(a, wire, body, now), p, times)
  {
  }

  lemma AbsorbWellFormed(a: Assembly, wire: int, body: Bytes, now: int)
    requires WellFormed(a) && wire != 0 && -128 <= wire <= 127
    ensures WellFormed(Absorb(a, wire, body, now))
  {
  }

  lemma FreshTracks(c: Config, now: int, p: nat)
    requires c.maxAttempts > 0
    ensures Tracks(c, Fresh(now), p, [])
  {
  }

  lemma FileRecorded(
    c: Config, digest: Bytes -> Bytes, s: State, owner: Key, wire: int, body: Bytes, now: int,
    allowControl: bool, key: Key, p: nat, past: seq<int>)
    requires c.Valid() && AllWellFormed(s) && wire != 0 && -128 <= wire <= 127
    requires Recorded(c, s, key, p, past)
    requires key !in s.assemblies.at ==> past == []
    ensures var reply := File(c, digest, s, owner, wire, body, now, allowControl);
      && AllWellFormed(reply.state)
      && Recorded(c, reply.state, key, p, past + TimesFor(OutcomeEvents(reply.outcome, now), key, p))
  {
    hide Tracks, Spaced, WellFormed, Absorb, Join;
    assert past + [] == past;
    if owner !in s.completedIndices.at {
      var before := AssemblyFor(s, owner, now);
      var a := Absorb(before, wire, body, now);
      assert WellFormed(a) by {
        FreshWellFormed(now);
        AbsorbWellFormed(before, wire, body, now);
      }
      if owner == key {
        FreshTracks(c, now, p);
        AbsorbTracks(c, before, wire, body, now, p, past);
      }
      if a.final.Some? && Missing(a) != [] && allowControl {
        MissingWanted(a);
        var start := Repairs(a, s.requestTimes, []);
        assert past + TimesFor(Events(start.sent, now), key, p) == past;
        AppendTracks(c, start, owner, Missing(a), now, 1, true, key, p, past);
        var r := AppendRepairs(c, start, owner, Missing(a), now, 1, true);
        AppendKeepsShape(c, start, owner, Missing(a), now, 1, true);
        SameShape(a, r.assembly);
        TracksSpaced(c, r.assembly, p, past + TimesFor(Events(r.sent, now), key, p));
      }
    }
  }

  lemma FreshWellFormed(now: int)
    ensures WellFormed(Fresh(now))
  {
  }

  lemma SameShape(a: Assembly, b: Assembly)
    requires a.fragments == b.fragments && a.final == b.final
    ensures WellFormed(a) ==> WellFormed(b)
  {
  }

  lemma NoEvents(sent: seq<Transmission>, at: int, key: Key, p: nat)
    requires forall i :: 0 <= i < |sent| ==> sent[i].reason != Repair
    ensures TimesFor(Events(sent, at), key, p) == []
  {
    DataIsNoEvent(sent, at);
  }

  lemma NoTimes(key: Key, p: nat)
    ensures TimesFor([], key, p) == []
  {
  }

  lemma SweptRecorded(c: Config, s: State, call: Call, key: Key, p: nat, past: seq<int>)
    requires c.Valid() && AllWellFormed(s) && Recorded(c, s, key, p, past)
    ensures var s1 := Swept(c, s, call);
      AllWellFormed(s1) && Recorded(c, s1, key, p, if key in s1.assemblies.at then past else [])
  {
    hide Tracks, WellFormed, Chunks, DropOld, PopExpired, Select;
  }

  lemma ApplyRecorded(
    c: Config, digest: Bytes -> Bytes, s: State, call: Call, key: Key, p: nat, past: seq<int>)
    requires c.Valid() && AllWellFormed(s)
    requires Recorded(c, s, key, p, past)
    ensures var reply := Apply(c, digest, s, call);
      && AllWellFormed(reply.state)
      && Recorded(c, reply.state, key, p,
                  (if key in Swept(c, s, call).assemblies.at then past else []) +
                  TimesFor(OutcomeEvents(reply.outcome, call.now), key, p))
  {
    hide Tracks, WellFormed, Spaced, File, PollFrom, Chunks, Sweep, Events, TimesFor;
    var s1 := Swept(c, s, call);
    var alive := if key in s1.assemblies.at then past else [];
    assert alive + [] == alive;
    SweptRecorded(c, s, call, key, p, past);
    assert TimesFor(Events([], call.now), key, p) == [] && TimesFor([], key, p) == [] by {
      NoEvents([], call.now, key, p);
      NoTimes(key, p);
    }
    match call
    case Send(frame, destination, swept, now) =>
      var out := Encode(c, s, frame, destination, swept, now).outcome;
      if out.Done? {
        NoEvents(out.transmissions, now, key, p);
      }
    case Hear(source, payload, allow, swept, now) =>
      if source != "" && !IsRequest(payload) && Malformed(payload).None? {
        FileRecorded(
          c, digest, s1, Key(source, payload[0]), SignedByte(payload[1]), payload[2..], now, allow, key, p, alive);
      } else if source != "" && IsRequest(payload) {
        var out := HandleRequest(s1, source, payload[3..]);
        if out.Done? {
          NoEvents(out.transmissions, now, key, p);
        }
      }
    case PollRepairs(n, allow, swept, now) =>
      if n > 0 {
        PollRecorded(c, s1, s1.assemblies.order, now, n, allow, [], key, p, alive);
      }
    case Cleanup(_, _) =>
  }

  lemma {:induction false} RunRecorded(c: Config, digest: Bytes -> Bytes, calls: seq<Call>, key: Key, p: nat)
    requires c.Valid()
    ensures AllWellFormed(Run(c, digest, INITIAL, calls))
    ensures Recorded(c, Run(c, digest, INITIAL, calls), key, p, LifeTimes(c, digest, calls, key, p))
  {
    hide Apply, Swept, Tracks, WellFormed;
    if calls != [] {
      var n := |calls| - 1;
      RunRecorded(c, digest, calls[..n], key, p);
      ApplyRecorded(
        c, digest, Run(c, digest, INITIAL, calls[..n]), calls[n], key, p, LifeTimes(c, digest, calls[..n], key, p));
    }
  }

  lemma {:induction false} GapsAdd(c: Config, times: seq<int>, j: nat)
    requires c.maxAttempts > 0 && Spaced(c, times) && j < |times|
    ensures times[j] - times[0] >= c.cooldown * (Pow2(j + 1) - 2)
  {
    if j == 0 {
      assert Pow2(1) == 2 * Pow2(0);
    } else {
      GapsAdd(c, times, j - 1);
      assert times[j] - times[j - 1] >= c.cooldown * Pow2(j);
      assert c.cooldown * (Pow2(j) - 2) + c.cooldown * Pow2(j) == c.cooldown * (2 * Pow2(j) - 2);
    }
  }

  /**
   * Within one assembly's life a position is requested at most `maxAttempts` times, however
   * often its counters are reset, and request number `k` (the `k`-th, counting from 1) comes
   * at least `cooldown * (2^k - 2)` after the first.
   */
  lemma AttemptCap(c: Config, digest: Bytes -> Bytes, calls: seq<Call>, key: Key, p: nat)
    requires c.Valid()
    ensures var times := LifeTimes(c, digest, calls, key, p);
      && |times| <= c.maxAttempts
      && forall k :: 1 <= k <= |times| ==> times[k - 1] - times[0] >= c.cooldown * (Pow2(k) - 2)
  {
    hide Run, LifeTimes;
    RunRecorded(c, digest, calls, key, p);
    var times := LifeTimes(c, digest, calls, key, p);
    forall k | 1 <= k <= |times| ensures times[k - 1] - times[0] >= c.cooldown * (Pow2(k) - 2) {
      GapsAdd(c, times, k - 1);
    }
  }

  // ---- Requested positions fit the wire ----

  ghost predicate Positions(events: seq<Event>) {
    forall i :: 0 <= i < |events| ==> 0 <= events[i].position <= 127
  }

  lemma {:induction false} AppendPositions(
    c: Config, r: Repairs, owner: Key, missing: seq<nat>, now: int, budget: int, immediate: bool)
    requires Wanted(r.assembly, missing) && Positions(Events(r.sent, now))
    ensures Positions(Events(AppendRepairs(c, r, owner, missing, now, budget, immediate).sent, now))
    decreases |missing|
  {
    hide DropOld, Events, RepairDue;
    if missing == [] || budget <= 0 {
    } else {
      var m, rest := missing[0], missing[1..];
      assert m in missing;
      assert forall x :: x in rest ==> x in missing;
      if Lookup0(r.assembly.attempts, m, 0) >= c.maxAttempts || !RepairDue(c, r.assembly, m, now, immediate) {
        AppendPositions(c, r, owner, rest, now, budget, immediate);
      } else {
        var trimmed := r.(times := DropOld(r.times, now - c.window));
        if |trimmed.times| < c.maxRequests {
          EventPosition(m);
          EventsSnoc(r.sent, owner, m, now);
          AppendPositions(c, RequestOne(c, trimmed, owner, m, now), owner, rest, now, budget - 1, immediate);
        }
      }
    }
  }

  lemma {:induction false} PollPositions(
    c: Config, s: State, keys: seq<Key>, now: int, maxRequests: int, allowControl: bool, sent: seq<Transmission>)
    requires c.Valid() && AllWellFormed(s) && Positions(Events(sent, now))
    ensures var reply := PollFrom(c, s, keys, now, maxRequests, allowControl, sent);
      reply.outcome.Done? && Positions(Events(reply.outcome.transmissions, now))
    decreases |keys|
  {
    hide WellFormed, AppendRepairs, Missing, Events, Positions;
    if keys == [] {
    } else if keys[0] !in s.assemblies.at || now - s.assemblies.at[keys[0]].updatedAt < c.cooldown {
      PollPositions(c, s, keys[1..], now, maxRequests, allowControl, sent);
    } else if maxRequests - |sent| <= 0 {
    } else if !allowControl {
      PollPositions(c, s, keys[1..], now, maxRequests, allowControl, sent);
    } else {
      var a := s.assemblies.at[keys[0]];
      var start := Repairs(a, s.requestTimes, sent);
      var r := AppendRepairs(c, start, keys[0], Missing(a), now, maxRequests - |sent|, false);
      MissingWanted(a);
      AppendPositions(c, start, keys[0], Missing(a), now, maxRequests - |sent|, false);
      AppendKeepsShape(c, start, keys[0], Missing(a), now, maxRequests - |sent|, false);
      SameShape(a, r.assembly);
      PollPositions(
        c, s.(assemblies := s.assemblies.Put(keys[0], r.assembly), requestTimes := r.times),
        keys[1..], now, maxRequests, allowControl, r.sent);
    }
  }

  lemma ApplyPositions(c: Config, digest: Bytes -> Bytes, s: State, call: Call)
    requires c.Valid() && AllWellFormed(s)
    ensures Positions(OutcomeEvents(Apply(c, digest, s, call).outcome, call.now))
  {
    hide WellFormed, PollFrom, Chunks, Absorb, AppendRepairs, Events, Missing, Join;
    var s1 := Swept(c, s, call);
    assert AllWellFormed(s1);
    match call
    case Send(frame, destination, swept, now) =>
      var out := Encode(c, s, frame, destination, swept, now).outcome;
      if out.Done? {
        DataIsNoEvent(out.transmissions, now);
      }
    case Hear(source, payload, allow, swept, now) =>
      NoEventsAtAll(now);
      if source != "" && !IsRequest(payload) && Malformed(payload).None? {
        var owner, wire, body := Key(source, payload[0]), SignedByte(payload[1]), payload[2..];
        var before := AssemblyFor(s1, owner, now);
        var a := Absorb(before, wire, body, now);
        FreshWellFormed(now);
        AbsorbWellFormed(before, wire, body, now);
        MissingWanted(a);
        AppendPositions(c, Repairs(a, s1.requestTimes, []), owner, Missing(a), now, 1, true);
      } else if source != "" && IsRequest(payload) {
        var out := HandleRequest(s1, source, payload[3..]);
        if out.Done? {
          DataIsNoEvent(out.transmissions, now);
        }
      }
    case PollRepairs(n, allow, swept, now) =>
      NoEventsAtAll(now);
      if n > 0 {
        PollPositions(c, s1, s1.assemblies.order, now, n, allow, []);
      }
    case Cleanup(_, now) =>
      NoEventsAtAll(now);
  }

  lemma NoEventsAtAll(at: int)
    ensures Events([], at) == []
  {
  }

  /**
   * The positions an assembly has on record as asked for: the numbers handed to the header, before
   * they are packed into a byte.
   */
  ghost predicate AskedFits(a: Assembly) {
    forall p :: p in a.attempts || p in a.requestedAt ==> p <= 127
  }

  ghost predicate AllAskedFit(s: State) {
    forall k :: k in s.assemblies.at ==> AskedFits(s.assemblies.at[k])
  }

  lemma {:induction false} AppendAskedFits(
    c: Config, r: Repairs, owner: Key, missing: seq<nat>, now: int, budget: int, immediate: bool)
    requires Wanted(r.assembly, missing) && AskedFits(r.assembly)
    ensures AskedFits(AppendRepairs(c, r, owner, missing, now, budget, immediate).assembly)
    decreases |missing|
  {
    hide DropOld, RepairDue;
    if missing != [] && budget > 0 {
      var m, rest := missing[0], missing[1..];
      assert m in missing;
      assert forall x :: x in rest ==> x in missing;
      if Lookup0(r.assembly.attempts, m, 0) >= c.maxAttempts || !RepairDue(c, r.assembly, m, now, immediate) {
        AppendAskedFits(c, r, owner, rest, now, budget, immediate);
      } else {
        var trimmed := r.(times := DropOld(r.times, now - c.window));
        if |trimmed.times| < c.maxRequests {
          AppendAskedFits(c, RequestOne(c, trimmed, owner, m, now), owner, rest, now, budget - 1, immediate);
        }
      }
    }
  }

  lemma {:induction false} PollAskedFit(
    c: Config, s: State, keys: seq<Key>, now: int, maxRequests: int, allowControl: bool, sent: seq<Transmission>)
    requires AllWellFormed(s) && AllAskedFit(s)
    ensures AllAskedFit(PollFrom(c, s, keys, now, maxRequests, allowControl, sent).state)
    decreases |keys|
  {
    hide WellFormed, AskedFits, AppendRepairs, Missing;
    if keys == [] {
    } else if keys[0] !in s.assemblies.at || now - s.assemblies.at[keys[0]].updatedAt < c.cooldown {
      PollAskedFit(c, s, keys[1..], now, maxRequests, allowControl, sent);
    } else if maxRequests - |sent| <= 0 {
    } else if !allowControl {
      PollAskedFit(c, s, keys[1..], now, maxRequests, allowControl, sent);
    } else {
      var a := s.assemblies.at[keys[0]];
      var start := Repairs(a, s.requestTimes, sent);
      var r := AppendRepairs(c, start, keys[0], Missing(a), now, maxRequests - |sent|, false);
      MissingWanted(a);
      AppendAskedFits(c, start, keys[0], Missing(a), now, maxRequests - |sent|, false);
      AppendKeepsShape(c, start, keys[0], Missing(a), now, maxRequests - |sent|, false);
      SameShape(a, r.assembly);
      PollAskedFit(
        c, s.(assemblies := s.assemblies.Put(keys[0], r.assembly), requestTimes := r.times),
        keys[1..], now, maxRequests, allowControl, r.sent);
    }
  }

  /** Filing a fragment and asking for the rest. */
  lemma FiledAskedFits(
    c: Config, before: Assembly, key: Key, times: seq<int>, wire: int, body: Bytes, now: int)
    requires WellFormed(before) && AskedFits(before) && wire != 0 && -128 <= wire <= 127
    ensures var a := Absorb(before, wire, body, now);
      && WellFormed(a) && AskedFits(a)
      && AskedFits(AppendRepairs(c, Repairs(a, times, []), key, Missing(a), now, 1, true).assembly)
  {
    var a := Absorb(before, wire, body, now);
    assert AskedFits(a);
    hide Absorb, AppendRepairs, Missing, WellFormed;
    AbsorbWellFormed(before, wire, body, now);
    MissingWanted(a);
    AppendAskedFits(c, Repairs(a, times, []), key, Missing(a), now, 1, true);
  }

  lemma ApplyAskedFit(c: Config, digest: Bytes -> Bytes, s: State, call: Call)
    requires c.Valid() && AllWellFormed(s) && AllAskedFit(s)
    ensures AllAskedFit(Apply(c, digest, s, call).state)
  {
    hide WellFormed, AskedFits, PollFrom, Chunks, Absorb, AppendRepairs, Missing, Join, PopExpired, DropOld;
    var s1 := Swept(c, s, call);
    assert AllWellFormed(s1) && AllAskedFit(s1);
    match call
    case Send(_, _, _, _) =>
    case Hear(source, payload, allow, swept, now) =>
      if source != "" && !IsRequest(payload) && Malformed(payload).None? {
        var owner := Key(source, payload[0]);
        FreshWellFormed(now);
        FreshAskedFits(now);
        FiledAskedFits(
          c, AssemblyFor(s1, owner, now), owner, s1.requestTimes, SignedByte(payload[1]), payload[2..], now);
      }
    case PollRepairs(n, allow, swept, now) =>
      if n > 0 {
        PollAskedFit(c, s1, s1.assemblies.order, now, n, allow, []);
      }
    case Cleanup(_, _) =>
  }

  lemma FreshAskedFits(now: int)
    ensures AskedFits(Fresh(now))
  {
  }

  /**
   * Every position ever asked for lies in 0..127: the number handed to the header, as the assembly
   * records it, and so the one read back from the wire. It always fits the signed byte.
   */
  lemma {:induction false} PositionsFit(c: Config, digest: Bytes -> Bytes, calls: seq<Call>)
    requires c.Valid()
    ensures AllAskedFit(Run(c, digest, INITIAL, calls))
    ensures Positions(Log(c, digest, INITIAL, calls))
  {
    hide Apply, OutcomeEvents, AskedFits, WellFormed;
    if calls != [] {
      var n := |calls| - 1;
      PositionsFit(c, digest, calls[..n]);
      RunRecorded(c, digest, calls[..n], Key("", 0), 0);
      ApplyPositions(c, digest, Run(c, digest, INITIAL, calls[..n]), calls[n]);
      ApplyAskedFit(c, digest, Run(c, digest, INITIAL, calls[..n]), calls[n]);
    }
  }
}
