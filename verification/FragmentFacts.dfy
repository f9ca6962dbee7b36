/** Facts about the steps of `FragmentSpec` that several proofs share. */
module FragmentFacts {
  import opened Common
  import opened Fragments
  import opened FragmentSpec

  /** The missing positions are those up to the final one that have not arrived. */
  lemma {:induction false} MissingFromSpec(fragments: map<nat, Bytes>, p: nat, final: nat)
    ensures forall m :: m in MissingFrom(fragments, p, final) <==> p <= m <= final && m !in fragments
    decreases final + 1 - p
  {
    if p <= final {
      MissingFromSpec(fragments, p + 1, final);
    }
  }

  /** Asking for repairs touches only the counters of an assembly. */
  lemma {:induction false} AppendKeepsShape(
    c: Config, r: Repairs, owner: Key, missing: seq<nat>, now: int, budget: int, immediate: bool)
    ensures var r' := AppendRepairs(c, r, owner, missing, now, budget, immediate);
      && r'.assembly.fragments == r.assembly.fragments && r'.assembly.final == r.assembly.final
      && r'.assembly.updatedAt == r.assembly.updatedAt
    decreases |missing|
  {
    hide DropOld, RepairDue;
    if missing == [] || budget <= 0 {
    } else {
      var m, rest := missing[0], missing[1..];
      if Lookup0(r.assembly.attempts, m, 0) >= c.maxAttempts || !RepairDue(c, r.assembly, m, now, immediate) {
        AppendKeepsShape(c, r, owner, rest, now, budget, immediate);
      } else {
        var trimmed := r.(times := DropOld(r.times, now - c.window));
        AppendKeepsShape(c, RequestOne(c, trimmed, owner, m, now), owner, rest, now, budget - 1, immediate);
      }
    }
  }

  /** Polling leaves the completion caches and the sent frames alone. */
  lemma {:induction false} PollKeepsCaches(
    c: Config, s: State, keys: seq<Key>, now: int, maxRequests: int, allowControl: bool, sent: seq<Transmission>)
    ensures var reply := PollFrom(c, s, keys, now, maxRequests, allowControl, sent);
      && reply.state.completed == s.completed && reply.state.completedIndices == s.completedIndices
      && reply.state.txCache == s.txCache && reply.state.nextIndex == s.nextIndex
      && reply.outcome.Done? && reply.outcome.frames == []
    decreases |keys|
  {
    hide AppendRepairs, Missing;
    if keys == [] {
    } else if keys[0] !in s.assemblies.at || now - s.assemblies.at[keys[0]].updatedAt < c.cooldown {
      PollKeepsCaches(c, s, keys[1..], now, maxRequests, allowControl, sent);
    } else if maxRequests - |sent| <= 0 {
    } else if !allowControl {
      PollKeepsCaches(c, s, keys[1..], now, maxRequests, allowControl, sent);
    } else {
      var a := s.assemblies.at[keys[0]];
      var r := AppendRepairs(
        c, Repairs(a, s.requestTimes, sent), keys[0], Missing(a), now, maxRequests - |sent|, false);
      PollKeepsCaches(
        c, s.(assemblies := s.assemblies.Put(keys[0], r.assembly), requestTimes := r.times),
        keys[1..], now, maxRequests, allowControl, r.sent);
    }
  }

  /** What an assembly holds, without its repair counters. */
  ghost predicate SameContent(a: Assembly, b: Assembly) {
    a.fragments == b.fragments && a.final == b.final && a.updatedAt == b.updatedAt
  }

  ghost predicate SameAssemblies(s: State, t: State) {
    && s.assemblies.at.Keys == t.assemblies.at.Keys
    && forall k :: k in s.assemblies.at ==> SameContent(s.assemblies.at[k], t.assemblies.at[k])
  }

  lemma {:induction false} PollKeepsContent(
    c: Config, s: State, keys: seq<Key>, now: int, maxRequests: int, allowControl: bool, sent: seq<Transmission>)
    ensures SameAssemblies(s, PollFrom(c, s, keys, now, maxRequests, allowControl, sent).state)
    decreases |keys|
  {
    hide AppendRepairs, Missing;
    if keys == [] {
    } else if keys[0] !in s.assemblies.at || now - s.assemblies.at[keys[0]].updatedAt < c.cooldown {
      PollKeepsContent(c, s, keys[1..], now, maxRequests, allowControl, sent);
    } else if maxRequests - |sent| <= 0 {
    } else if !allowControl {
      PollKeepsContent(c, s, keys[1..], now, maxRequests, allowControl, sent);
    } else {
      var a := s.assemblies.at[keys[0]];
      var start := Repairs(a, s.requestTimes, sent);
      var r := AppendRepairs(c, start, keys[0], Missing(a), now, maxRequests - |sent|, false);
      AppendKeepsShape(c, start, keys[0], Missing(a), now, maxRequests - |sent|, false);
      PollKeepsContent(
        c, s.(assemblies := s.assemblies.Put(keys[0], r.assembly), requestTimes := r.times),
        keys[1..], now, maxRequests, allowControl, r.sent);
    }
  }

  /** Nothing is missing exactly when every position up to the final one is held. */
  lemma NothingMissing(fragments: map<nat, Bytes>, final: nat)
    ensures MissingFrom(fragments, 1, final) == []
       <==> forall p :: 1 <= p <= final ==> p in fragments
  {
    MissingFromSpec(fragments, 1, final);
    var missing := MissingFrom(fragments, 1, final);
    if missing != [] {
      assert missing[0] in missing;
    } else {
      forall p | 1 <= p <= final ensures p in fragments {
        assert p !in missing;
      }
    }
  }

  /** The attempts at a position are not used up and its back-off has passed. */
  predicate Askable(c: Config, a: Assembly, p: nat, now: int, immediate: bool) {
    Lookup0(a.attempts, p, 0) < c.maxAttempts && RepairDue(c, a, p, now, immediate)
  }

  /** Some missing position may be asked for. */
  predicate HasDueRepair(c: Config, a: Assembly, missing: seq<nat>, now: int, immediate: bool) {
    exists i :: 0 <= i < |missing| && Askable(c, a, missing[i], now, immediate)
  }

  lemma {:induction false} DropOldShrinks(times: seq<int>, cutoff: int)
    ensures |DropOld(times, cutoff)| <= |times|
  {
    if times != [] && times[0] <= cutoff {
      DropOldShrinks(times[1..], cutoff);
    }
  }

  /** Once the allowed requests are written, or when none is allowed, the rest of a poll does nothing. */
  lemma {:induction false} PollDone(
    c: Config, s: State, keys: seq<Key>, now: int, maxRequests: int, allowControl: bool, sent: seq<Transmission>)
    requires maxRequests <= |sent| || !allowControl
    ensures PollFrom(c, s, keys, now, maxRequests, allowControl, sent) == Reply(s, Done([], sent))
    decreases |keys|
  {
    hide AppendRepairs, Missing;
    if keys != [] {
      PollDone(c, s, keys[1..], now, maxRequests, allowControl, sent);
    }
  }

  lemma {:induction false} AppendNeverUnsends(
    c: Config, r: Repairs, key: Key, missing: seq<nat>, now: int, budget: int, immediate: bool)
    ensures |AppendRepairs(c, r, key, missing, now, budget, immediate).sent| >= |r.sent|
    decreases |missing|
  {
    hide DropOld, RepairDue;
    if missing != [] && budget > 0 {
      var p, rest := missing[0], missing[1..];
      var trimmed := r.(times := DropOld(r.times, now - c.window));
      AppendNeverUnsends(c, r, key, rest, now, budget, immediate);
      AppendNeverUnsends(c, RequestOne(c, trimmed, key, p, now), key, rest, now, budget - 1, immediate);
    }
  }

  /** Requests are written exactly when one is due and the budget has room. */
  lemma {:induction false} AppendSendsIff(
    c: Config, r: Repairs, key: Key, missing: seq<nat>, now: int, budget: int, immediate: bool)
    requires budget >= 1
    ensures var r' := AppendRepairs(c, r, key, missing, now, budget, immediate);
      && (|r'.sent| > |r.sent|
          <==> HasDueRepair(c, r.assembly, missing, now, immediate)
               && |DropOld(r.times, now - c.window)| < c.maxRequests)
      && (!HasDueRepair(c, r.assembly, missing, now, immediate) ==> r' == r)
    decreases |missing|
  {
    hide DropOld, RepairDue;
    if missing != [] {
      var p, rest := missing[0], missing[1..];
      if Askable(c, r.assembly, p, now, immediate) {
        var trimmed := r.(times := DropOld(r.times, now - c.window));
        AppendNeverUnsends(c, RequestOne(c, trimmed, key, p, now), key, rest, now, budget - 1, immediate);
        assert Askable(c, r.assembly, missing[0], now, immediate);
      } else {
        AppendSendsIff(c, r, key, rest, now, budget, immediate);
        assert forall i :: 0 <= i < |rest| ==> rest[i] == missing[i + 1];
        if HasDueRepair(c, r.assembly, rest, now, immediate) {
          var i :| 0 <= i < |rest| && Askable(c, r.assembly, rest[i], now, immediate);
          assert Askable(c, r.assembly, missing[i + 1], now, immediate);
        }
      }
    }
  }
}
