/**
 * The repair budget and the attempt cap of `FragmentProtocol.java`, over every run and for every
 * way of walking the hash map of assemblies.
 */
module AndroidRepairs {
  import opened Common
  import opened Fragments
  import opened FragmentSpec
  import opened FragmentFacts
  import opened RepairBudget
  import opened RepairAttempts
  import J = AndroidFragmentSpec

  function ResultEvents(r: J.Result, at: int): seq<Event> {
    if r.Refused? then [] else Events(r.transmissions, at)
  }

  /** Every request emitted in a run, in order. */
  function TwinLog(c: Config, digest: Bytes -> Bytes, calls: seq<Call>, walks: seq<seq<Key>>): seq<Event>
    requires J.Configured(c) && |walks| == |calls|
    decreases |calls|
  {
    if calls == [] then []
    else
      var n := |calls| - 1;
      TwinLog(c, digest, calls[..n], walks[..n]) +
      ResultEvents(J.ResultOf(c, digest, calls, walks, n), calls[n].now)
  }

  // ---- The budget ----

  lemma {:induction false} PollAccounts(
    c: Config, log: seq<Event>, t: J.Twin, keys: seq<Key>, now: int, maxRequests: int, allowControl: bool,
    sent: seq<Transmission>)
    requires J.Configured(c) && Accounted(c, log + Events(sent, now), t.repairWindow, now)
    ensures var q := J.PollFrom(c, t, keys, now, maxRequests, allowControl, sent);
      && q.result.Result?
      && Accounted(c, log + Events(q.result.transmissions, now), q.twin.repairWindow, now)
    decreases |keys|
  {
    hide Accounted, AppendRepairs, Missing, HasDueRepair;
    if keys == [] {
    } else if keys[0] !in t.assemblies || now - t.assemblies[keys[0]].updatedAt < c.cooldown || !allowControl {
      PollAccounts(c, log, t, keys[1..], now, maxRequests, allowControl, sent);
    } else {
      var start := Repairs(t.assemblies[keys[0]], t.repairWindow, sent);
      var missing := Missing(start.assembly);
      AppendAccounted(c, log, start, keys[0], missing, now, maxRequests - |sent|, false);
      var r := AppendRepairs(c, start, keys[0], missing, now, maxRequests - |sent|, false);
      PollAccounts(
        c, log, t.(assemblies := t.assemblies[keys[0] := r.assembly], repairWindow := r.times), keys[1..], now,
        maxRequests, allowControl, r.sent);
    }
  }

  lemma FileAccounts(
    c: Config, digest: Bytes -> Bytes, log: seq<Event>, t: J.Twin, key: Key, wire: int, body: Bytes, now: int,
    allowControl: bool)
    requires J.Configured(c) && Accounted(c, log, t.repairWindow, now)
    ensures var q := J.File(c, digest, t, key, wire, body, now, allowControl);
      q.result.Result? && Accounted(c, log + ResultEvents(q.result, now), q.twin.repairWindow, now)
  {
    hide Accounted, AppendRepairs, Absorb, Missing, Join, HasDueRepair;
    assert log + [] == log;
    var a := Absorb(J.AssemblyFor(t, key), wire, body, now);
    AppendAccounted(c, log, Repairs(a, t.repairWindow, []), key, Missing(a), now, 1, true);
  }

  lemma NoRequests(r: J.Result, at: int)
    requires r.Result? ==> forall i :: 0 <= i < |r.transmissions| ==> r.transmissions[i].reason != Repair
    ensures ResultEvents(r, at) == []
  {
    if r.Result? {
      DataIsNoEvent(r.transmissions, at);
    }
  }

  lemma ApplyAccounts(
    c: Config, digest: Bytes -> Bytes, log: seq<Event>, t: J.Twin, clock: int, call: Call, keys: seq<Key>)
    requires J.Configured(c)
    requires Accounted(c, log, t.repairWindow, clock) && clock <= call.swept <= call.now
    ensures var q := J.Apply(c, digest, t, call, keys);
      Accounted(c, log + ResultEvents(q.result, call.now), q.twin.repairWindow, call.now)
  {
    hide Accounted, J.File, Chunks, J.PollFrom, DropOld, J.Recent;
    assert log + [] == log;
    DropOldAccounted(c, log, t.repairWindow, clock, call.swept);
    var t1 := J.Cleanup(c, t, call.swept);
    assert Accounted(c, log, t1.repairWindow, call.now) by {
      AccountedLater(c, log, t1.repairWindow, call.swept, call.now);
    }
    assert Accounted(c, log, t.repairWindow, call.now) by {
      AccountedLater(c, log, t.repairWindow, clock, call.now);
    }
    var q := J.Apply(c, digest, t, call, keys);
    match call
    case Send(_, _, _, now) => NoRequests(q.result, now);
    case Hear(source, payload, allow, _, now) =>
      if IsRequest(payload) || J.Invalid(payload) {
        NoRequests(q.result, now);
      } else {
        FileAccounts(c, digest, log, t1, Key(source, payload[0]), SignedByte(payload[1]), payload[2..], now, allow);
      }
    case PollRepairs(n, allow, _, now) =>
      NoRequests(J.QUIET, now);
      if n > 0 {
        PollAccounts(c, log, t1, keys, now, n, allow, []);
      }
    case Cleanup(_, now) => NoRequests(J.QUIET, now);
  }

  lemma {:induction false} RunAccounts(
    c: Config, digest: Bytes -> Bytes, calls: seq<Call>, walks: seq<seq<Key>>, start: int)
    requires J.Configured(c) && Timed(calls) && |walks| == |calls|
    requires calls != [] ==> start <= calls[0].swept
    ensures Accounted(
      c, TwinLog(c, digest, calls, walks), J.Run(c, digest, calls, walks).repairWindow, Clock(calls, start))
    decreases |calls|
  {
    if calls != [] {
      hide J.Apply, Accounted, ResultEvents;
      var n := |calls| - 1;
      RunAccounts(c, digest, calls[..n], walks[..n], start);
      ApplyAccounts(
        c, digest, TwinLog(c, digest, calls[..n], walks[..n]), J.Run(c, digest, calls[..n], walks[..n]),
        Clock(calls[..n], start), calls[n], walks[n]);
    }
  }

  /** The Android budget is a true sliding window too, however polls walk the hash map. */
  lemma TwinSlidingWindow(c: Config, digest: Bytes -> Bytes, calls: seq<Call>, walks: seq<seq<Key>>)
    requires J.Configured(c) && Timed(calls) && |walks| == |calls|
    ensures WithinBudget(c, TwinLog(c, digest, calls, walks))
  {
    hide J.Run, TwinLog;
    RunAccounts(c, digest, calls, walks, if calls == [] then 0 else calls[0].swept);
  }

  // ---- The attempt cap ----

  /** The state between the clean-up of a call and its own work. */
  function Tidied(c: Config, t: J.Twin, call: Call): J.Twin
    requires J.Configured(c)
  {
    if call.Send? && (call.frame == [] || |Chunks(call.frame, c.fragmentBody)| > MAX_FRAGMENTS) then t
    else J.Cleanup(c, t, call.swept)
  }

  /** The requests for position `p` since the assembly of `key` was created. */
  function TwinLifeTimes(
    c: Config, digest: Bytes -> Bytes, calls: seq<Call>, walks: seq<seq<Key>>, key: Key, p: nat): seq<int>
    requires J.Configured(c) && |walks| == |calls|
    decreases |calls|
  {
    if calls == [] then []
    else
      var n := |calls| - 1;
      var before := J.Run(c, digest, calls[..n], walks[..n]);
      (if key in Tidied(c, before, calls[n]).assemblies
       then TwinLifeTimes(c, digest, calls[..n], walks[..n], key, p) else []) +
      TimesFor(ResultEvents(J.Apply(c, digest, before, calls[n], walks[n]).result, calls[n].now), key, p)
  }

  ghost predicate TwinRecorded(c: Config, t: J.Twin, key: Key, p: nat, times: seq<int>) {
    Spaced(c, times) && (key in t.assemblies ==> Tracks(c, t.assemblies[key], p, times))
  }

  ghost predicate SoundAssemblies(t: J.Twin) {
    forall k :: k in t.assemblies ==> WellFormed(t.assemblies[k]) && AskedFits(t.assemblies[k])
  }

  /** One assembly asks for what it is missing. */
  lemma AskTracks(
    c: Config, a: Assembly, times: seq<int>, sent: seq<Transmission>, owner: Key, now: int, budget: int,
    immediate: bool, key: Key, p: nat, past: seq<int>)
    requires J.Configured(c) && WellFormed(a) && AskedFits(a)
    requires owner == key ==> Tracks(c, a, p, past + TimesFor(Events(sent, now), key, p))
    ensures var r := AppendRepairs(c, Repairs(a, times, sent), owner, Missing(a), now, budget, immediate);
      && WellFormed(r.assembly) && AskedFits(r.assembly)
      && (if owner == key
          then Tracks(c, r.assembly, p, past + TimesFor(Events(r.sent, now), key, p))
               && Spaced(c, past + TimesFor(Events(r.sent, now), key, p))
          else TimesFor(Events(r.sent, now), key, p) == TimesFor(Events(sent, now), key, p))
  {
    hide Tracks, Spaced, WellFormed, AskedFits, AppendRepairs, Missing, Events, TimesFor;
    var start := Repairs(a, times, sent);
    MissingWanted(a);
    AppendTracks(c, start, owner, Missing(a), now, budget, immediate, key, p, past);
    AppendKeepsShape(c, start, owner, Missing(a), now, budget, immediate);
    AppendAskedFits(c, start, owner, Missing(a), now, budget, immediate);
    var r := AppendRepairs(c, start, owner, Missing(a), now, budget, immediate);
    SameShape(a, r.assembly);
    TracksSpaced(c, r.assembly, p, past + TimesFor(Events(r.sent, now), key, p));
  }

  lemma {:induction false} PollRecords(
    c: Config, t: J.Twin, keys: seq<Key>, now: int, maxRequests: int, allowControl: bool, sent: seq<Transmission>,
    key: Key, p: nat, past: seq<int>)
    requires J.Configured(c) && SoundAssemblies(t)
    requires TwinRecorded(c, t, key, p, past + TimesFor(Events(sent, now), key, p))
    ensures var q := J.PollFrom(c, t, keys, now, maxRequests, allowControl, sent);
      && SoundAssemblies(q.twin) && q.result.Result?
      && TwinRecorded(c, q.twin, key, p, past + TimesFor(Events(q.result.transmissions, now), key, p))
    decreases |keys|
  {
    hide Tracks, Spaced, WellFormed, AskedFits, AppendRepairs, Missing, Events, TimesFor, HasDueRepair;
    if keys == [] {
    } else if keys[0] !in t.assemblies || now - t.assemblies[keys[0]].updatedAt < c.cooldown || !allowControl {
      PollRecords(c, t, keys[1..], now, maxRequests, allowControl, sent, key, p, past);
    } else {
      var a := t.assemblies[keys[0]];
      AskTracks(c, a, t.repairWindow, sent, keys[0], now, maxRequests - |sent|, false, key, p, past);
      var r := AppendRepairs(
        c, Repairs(a, t.repairWindow, sent), keys[0], Missing(a), now, maxRequests - |sent|, false);
      PollRecords(
        c, t.(assemblies := t.assemblies[keys[0] := r.assembly], repairWindow := r.times), keys[1..], now,
        maxRequests, allowControl, r.sent, key, p, past);
    }
  }

  lemma NewAssembly(c: Config, p: nat)
    requires J.Configured(c)
    ensures var a := Assembly(0, map[], None, map[], map[]);
      WellFormed(a) && AskedFits(a) && Tracks(c, a, p, [])
  {
  }

  lemma FileRecords(
    c: Config, digest: Bytes -> Bytes, t: J.Twin, owner: Key, wire: int, body: Bytes, now: int,
    allowControl: bool, key: Key, p: nat, past: seq<int>)
    requires J.Configured(c) && SoundAssemblies(t) && wire != 0 && -128 <= wire <= 127
    requires TwinRecorded(c, t, key, p, past) && (key !in t.assemblies ==> past == [])
    ensures var q := J.File(c, digest, t, owner, wire, body, now, allowControl);
      && SoundAssemblies(q.twin)
      && TwinRecorded(c, q.twin, key, p, past + TimesFor(ResultEvents(q.result, now), key, p))
  {
    hide Tracks, Spaced, WellFormed, AskedFits, Absorb, AppendRepairs, Missing, Join, Events, TimesFor, HasDueRepair;
    hide J.Complete;
    assert past + [] == past;
    NoTimes(key, p);
    NoEventsAtAll(now);
    NewAssembly(c, p);
    if owner !in t.completedIndices {
      var before := J.AssemblyFor(t, owner);
      var a := Absorb(before, wire, body, now);
      FiledAskedFits(c, before, owner, t.repairWindow, wire, body, now);
      if owner == key {
        AbsorbTracks(c, before, wire, body, now, p, past);
      }
      AskTracks(c, a, t.repairWindow, [], owner, now, 1, true, key, p, past);
      var t1 := t.(assemblies := t.assemblies[owner := a]);
      var frame := if a.final.Some? then Join(a.fragments, a.final.value) else [];
      CompleteFewer(t1, owner, frame, digest(frame), now);
    }
  }

  /** A completed frame only takes its assembly away. */
  lemma CompleteFewer(t: J.Twin, owner: Key, frame: Bytes, digest: Bytes, now: int)
    ensures var q := J.Complete(t, owner, frame, digest, now);
      && q.twin.assemblies == t.assemblies - {owner}
      && q.result.Result? && q.result.transmissions == []
  {
  }

  lemma TidiedRecords(c: Config, t: J.Twin, call: Call, key: Key, p: nat, past: seq<int>)
    requires J.Configured(c) && SoundAssemblies(t) && TwinRecorded(c, t, key, p, past)
    ensures var t1 := Tidied(c, t, call);
      SoundAssemblies(t1) && TwinRecorded(c, t1, key, p, if key in t1.assemblies then past else [])
  {
    hide Tracks, WellFormed, AskedFits, Chunks, DropOld, J.Recent;
  }

  lemma ApplyRecords(
    c: Config, digest: Bytes -> Bytes, t: J.Twin, call: Call, keys: seq<Key>, key: Key, p: nat, past: seq<int>)
    requires J.Configured(c) && SoundAssemblies(t) && TwinRecorded(c, t, key, p, past)
    ensures var q := J.Apply(c, digest, t, call, keys);
      && SoundAssemblies(q.twin)
      && TwinRecorded(c, q.twin, key, p,
           (if key in Tidied(c, t, call).assemblies then past else []) +
           TimesFor(ResultEvents(q.result, call.now), key, p))
  {
    hide Tracks, Spaced, WellFormed, AskedFits, J.File, J.PollFrom, Chunks, J.Cleanup, Events, TimesFor;
    var t1 := Tidied(c, t, call);
    var alive := if key in t1.assemblies then past else [];
    assert alive + [] == alive;
    TidiedRecords(c, t, call, key, p, past);
    NoTimes(key, p);
    NoEventsAtAll(call.now);
    var q := J.Apply(c, digest, t, call, keys);
    match call
    case Send(_, _, _, now) => NoRequests(q.result, now);
    case Hear(source, payload, allow, _, now) =>
      if IsRequest(payload) || J.Invalid(payload) {
        NoRequests(q.result, now);
      } else {
        FileRecords(
          c, digest, t1, Key(source, payload[0]), SignedByte(payload[1]), payload[2..], now, allow, key, p, alive);
      }
    case PollRepairs(n, allow, _, now) =>
      if n > 0 {
        PollRecords(c, t1, keys, now, n, allow, [], key, p, alive);
      }
    case Cleanup(_, _) =>
  }

  lemma {:induction false} RunRecords(
    c: Config, digest: Bytes -> Bytes, calls: seq<Call>, walks: seq<seq<Key>>, key: Key, p: nat)
    requires J.Configured(c) && |walks| == |calls|
    ensures var t := J.Run(c, digest, calls, walks);
      SoundAssemblies(t) && TwinRecorded(c, t, key, p, TwinLifeTimes(c, digest, calls, walks, key, p))
    decreases |calls|
  {
    if calls != [] {
      hide J.Apply, Tidied, Tracks, Spaced, WellFormed, AskedFits, ResultEvents, TimesFor;
      var n := |calls| - 1;
      RunRecords(c, digest, calls[..n], walks[..n], key, p);
      ApplyRecords(
        c, digest, J.Run(c, digest, calls[..n], walks[..n]), calls[n], walks[n], key, p,
        TwinLifeTimes(c, digest, calls[..n], walks[..n], key, p));
    }
  }

  /**
   * On the Android side too a position is requested at most three times within one assembly's
   * life, request `k` at least `cooldown * (2^k - 2)` after the first, and every position asked
   * for fits the signed byte.
   */
  lemma TwinAttemptCap(
    c: Config, digest: Bytes -> Bytes, calls: seq<Call>, walks: seq<seq<Key>>, key: Key, p: nat)
    requires J.Configured(c) && |walks| == |calls|
    ensures var times := TwinLifeTimes(c, digest, calls, walks, key, p);
      && |times| <= 3
      && forall k :: 1 <= k <= |times| ==> times[k - 1] - times[0] >= c.cooldown * (Pow2(k) - 2)
    ensures forall k :: k in J.Run(c, digest, calls, walks).assemblies ==>
              AskedFits(J.Run(c, digest, calls, walks).assemblies[k])
  {
    hide J.Run, TwinLifeTimes, WellFormed, AskedFits, Tracks;
    RunRecords(c, digest, calls, walks, key, p);
    var times := TwinLifeTimes(c, digest, calls, walks, key, p);
    forall k | 1 <= k <= |times| ensures times[k - 1] - times[0] >= c.cooldown * (Pow2(k) - 2) {
      GapsAdd(c, times, k - 1);
    }
  }
}
