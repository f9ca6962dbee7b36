/** What one call of the protocol answers, told without its own loops. */
module ProtocolAnswers {
  import opened Common
  import opened OrderedMaps
  import opened Fragments
  import opened FragmentSpec
  import opened FragmentFacts
  import opened PollChoice
  import J = AndroidFragmentSpec
  import S = SchedulerSpec

  // ---- Which requests are written ----

  /** The missing positions of one assembly that may be asked for, in order. */
  function AskableOf(
    c: Config, a: Assembly, key: Key, missing: seq<nat>, now: int, immediate: bool): seq<Ask>
  {
    if missing == [] then []
    else
      (if Askable(c, a, missing[0], now, immediate) then [Ask(key, missing[0])] else []) +
      AskableOf(c, a, key, missing[1..], now, immediate)
  }

  /** Everything that may be asked for, assembly by assembly. */
  function Askables(c: Config, s: State, keys: seq<Key>, now: int): seq<Ask> {
    if keys == [] then []
    else
      (if keys[0] in s.assemblies.at && now - s.assemblies.at[keys[0]].updatedAt >= c.cooldown
       then AskableOf(c, s.assemblies.at[keys[0]], keys[0], Missing(s.assemblies.at[keys[0]]), now, false) else []) +
      Askables(c, s, keys[1..], now)
  }

  function RequestsFor(asks: seq<Ask>): seq<Transmission> {
    seq(|asks|, i requires 0 <= i < |asks| => RequestFor(Some(asks[i])).value)
  }

  /** How many requests the rolling budget still allows. */
  function Free(c: Config, times: seq<int>, now: int): nat {
    Max(0, c.maxRequests - |DropOld(times, now - c.window)|)
  }

  lemma {:induction false} OthersAskable(
    c: Config, a: Assembly, b: Assembly, key: Key, missing: seq<nat>, now: int, immediate: bool)
    requires a.updatedAt == b.updatedAt
    requires forall m :: m in missing ==>
               && Lookup0(a.attempts, m, 0) == Lookup0(b.attempts, m, 0)
               && Lookup0(a.requestedAt, m, 0) == Lookup0(b.requestedAt, m, 0)
    ensures AskableOf(c, a, key, missing, now, immediate) == AskableOf(c, b, key, missing, now, immediate)
  {
    if missing != [] {
      assert forall m :: m in missing[1..] ==> m in missing;
      OthersAskable(c, a, b, key, missing[1..], now, immediate);
    }
  }

  lemma {:induction false} DropOldYoung(times: seq<int>, now: int, cutoff: int)
    requires now > cutoff
    ensures DropOld(DropOld(times, cutoff) + [now], cutoff) == DropOld(times, cutoff) + [now]
  {
    if times != [] && times[0] <= cutoff {
      DropOldYoung(times[1..], now, cutoff);
    }
  }

  lemma RequestsSplit(a: seq<Ask>, b: seq<Ask>)
    ensures RequestsFor(a + b) == RequestsFor(a) + RequestsFor(b)
  {
  }

  /** The loop writes the first of the askable positions, as many as are allowed. */
  lemma {:induction false} AppendIs(
    c: Config, r: Repairs, key: Key, missing: seq<nat>, now: int, budget: nat, immediate: bool)
    requires c.window > 0 && Distinct(missing)
    ensures var all := AskableOf(c, r.assembly, key, missing, now, immediate);
            var n := Min(|all|, Min(budget, Free(c, r.times, now)));
            var r' := AppendRepairs(c, r, key, missing, now, budget, immediate);
      && r'.sent == r.sent + RequestsFor(all[..n])
      && Free(c, r'.times, now) == Free(c, r.times, now) - n
    decreases |missing|
  {
    hide DropOld, RepairDue, Askable;
    var all := AskableOf(c, r.assembly, key, missing, now, immediate);
    assert r.sent + RequestsFor([]) == r.sent;
    if missing == [] || budget == 0 {
      assert all[..0] == [];
    } else {
      var m, rest := missing[0], missing[1..];
      assert Distinct(rest) by {
        assert forall i :: 0 <= i < |rest| ==> rest[i] == missing[i + 1];
      }
      NextAskable(c, r.assembly, m, now, immediate);
      if !Askable(c, r.assembly, m, now, immediate) {
        assert all == AskableOf(c, r.assembly, key, rest, now, immediate);
        AppendIs(c, r, key, rest, now, budget, immediate);
      } else {
        var later := AskableOf(c, r.assembly, key, rest, now, immediate);
        var trimmed := r.(times := DropOld(r.times, now - c.window));
        FreeTrimmed(c, r.times, now);
        if |trimmed.times| >= c.maxRequests {
          assert all[..0] == [];
        } else {
          var next := RequestOne(c, trimmed, key, m, now);
          NextAsks(c, r.assembly, next.assembly, key, missing, now, immediate);
          hide Free, AskableOf, RequestOne;
          AppendIs(c, next, key, rest, now, budget - 1, immediate);
          FirstThen(r.sent, Ask(key, m), later, Min(|later|, Min(budget - 1, Free(c, next.times, now))));
        }
      }
    }
  }

  /** Trimming changes nothing, and one more request takes one away. */
  lemma FreeTrimmed(c: Config, times: seq<int>, now: int)
    requires c.window > 0
    ensures Free(c, DropOld(times, now - c.window), now) == Free(c, times, now)
    ensures |DropOld(times, now - c.window)| < c.maxRequests ==>
              Free(c, DropOld(times, now - c.window) + [now], now) == Free(c, times, now) - 1
    ensures |DropOld(times, now - c.window)| >= c.maxRequests <==> Free(c, times, now) == 0
  {
    hide DropOld;
    DropOldTwice(times, now - c.window, now - c.window);
    DropOldYoung(times, now, now - c.window);
  }

  /** Asking for the first position leaves what may be asked for behind it. */
  lemma NextAsks(
    c: Config, a: Assembly, b: Assembly, key: Key, missing: seq<nat>, now: int, immediate: bool)
    requires missing != [] && Distinct(missing)
    requires b == RequestOne(c, Repairs(a, [], []), key, missing[0], now).assembly
    ensures AskableOf(c, a, key, missing[1..], now, immediate) == AskableOf(c, b, key, missing[1..], now, immediate)
  {
    NotInRest(missing);
    OthersAskable(c, a, b, key, missing[1..], now, immediate);
  }

  lemma NextAskable(c: Config, a: Assembly, m: nat, now: int, immediate: bool)
    ensures Askable(c, a, m, now, immediate)
       <==> !(Lookup0(a.attempts, m, 0) >= c.maxAttempts || !RepairDue(c, a, m, now, immediate))
  {
  }

  lemma NotInRest(missing: seq<nat>)
    requires missing != [] && Distinct(missing)
    ensures missing[0] !in missing[1..]
  {
  }

  lemma FirstThen(sent: seq<Transmission>, first: Ask, later: seq<Ask>, n: nat)
    requires n <= |later|
    ensures sent + [RequestFor(Some(first)).value] + RequestsFor(later[..n])
         == sent + RequestsFor(([first] + later)[..n + 1])
  {
    assert ([first] + later)[..n + 1] == [first] + later[..n];
    RequestsSplit([first], later[..n]);
    assert RequestsFor([first]) == [RequestFor(Some(first)).value];
  }

  lemma {:induction false} MissingDistinct(fragments: map<nat, Bytes>, p: nat, final: nat)
    ensures Distinct(MissingFrom(fragments, p, final))
    decreases final + 1 - p
  {
    if p <= final {
      MissingDistinct(fragments, p + 1, final);
      MissingFromSpec(fragments, p + 1, final);
      var rest := MissingFrom(fragments, p + 1, final);
      forall j | 0 <= j < |rest| ensures rest[j] != p {
        assert rest[j] in rest;
      }
    }
  }

  lemma OtherAssemblies(c: Config, s: State, t: State, keys: seq<Key>, now: int)
    requires forall k :: k in keys ==>
               && (k in s.assemblies.at <==> k in t.assemblies.at)
               && (k in s.assemblies.at ==> s.assemblies.at[k] == t.assemblies.at[k])
    ensures Askables(c, s, keys, now) == Askables(c, t, keys, now)
  {
    hide AskableOf, Missing;
    if keys != [] {
      assert forall k :: k in keys[1..] ==> k in keys;
      OtherAssemblies(c, s, t, keys[1..], now);
    }
  }

  lemma {:induction false} PollFromIs(
    c: Config, s: State, keys: seq<Key>, now: int, maxRequests: nat, sent: seq<Transmission>)
    requires c.Valid() && Distinct(keys) && |sent| <= maxRequests
    ensures var all := Askables(c, s, keys, now);
            var n := Min(|all|, Min(maxRequests - |sent|, Free(c, s.requestTimes, now)));
      PollFrom(c, s, keys, now, maxRequests, true, sent).outcome == Done([], sent + RequestsFor(all[..n]))
    decreases |keys|
  {
    hide AppendRepairs, AskableOf, Free, Missing;
    var all := Askables(c, s, keys, now);
    assert sent + RequestsFor([]) == sent && all[..0] == [];
    if keys == [] {
    } else if |sent| >= maxRequests {
      PollDone(c, s, keys, now, maxRequests, true, sent);
    } else {
      var k, rest := keys[0], keys[1..];
      assert Distinct(rest) by {
        assert forall i :: 0 <= i < |rest| ==> rest[i] == keys[i + 1];
      }
      if k !in s.assemblies.at || now - s.assemblies.at[k].updatedAt < c.cooldown {
        assert all == Askables(c, s, rest, now);
        PollFromIs(c, s, rest, now, maxRequests, sent);
      } else {
        var a := s.assemblies.at[k];
        var missing, budget := Missing(a), maxRequests - |sent|;
        MissingIsDistinct(a);
        var start := Repairs(a, s.requestTimes, sent);
        AppendIs(c, start, k, missing, now, budget, false);
        var own := AskableOf(c, a, k, missing, now, false);
        var n := Min(|own|, Min(budget, Free(c, s.requestTimes, now)));
        var r := AppendRepairs(c, start, k, missing, now, budget, false);
        var t := s.(assemblies := s.assemblies.Put(k, r.assembly), requestTimes := r.times);
        assert k !in rest;
        OtherAssemblies(c, s, t, rest, now);
        var others := Askables(c, s, rest, now);
        PollFromIs(c, t, rest, now, maxRequests, r.sent);
        Continue(sent, own, others, n, Min(budget, Free(c, s.requestTimes, now)));
      }
    }
  }

  lemma MissingIsDistinct(a: Assembly)
    ensures Distinct(Missing(a))
  {
    if a.final.Some? {
      MissingDistinct(a.fragments, 1, a.final.value);
    }
  }

  lemma Continue(sent: seq<Transmission>, own: seq<Ask>, others: seq<Ask>, n: nat, allowed: nat)
    requires n == Min(|own|, allowed)
    ensures var rest := Min(|others|, allowed - n); var all := Min(|own + others|, allowed);
      sent + RequestsFor(own[..n]) + RequestsFor(others[..rest]) == sent + RequestsFor((own + others)[..all])
  {
    var rest := Min(|others|, allowed - n);
    var all := Min(|own + others|, allowed);
    assert (own + others)[..all] == own[..n] + others[..rest];
    RequestsSplit(own[..n], others[..rest]);
  }

  /**
   * A poll asks for exactly the first of all that may be asked for - the assemblies in the order
   * in which they were begun, the positions of each in order - as many as the caller allows and
   * the rolling budget leaves.
   */
  lemma PollIs(c: Config, s: State, maxRequests: int, swept: int, now: int)
    requires c.Valid() && s.assemblies.Valid()
    ensures var out := Poll(c, s, maxRequests, true, swept, now).outcome;
            var s1 := Sweep(c, s, swept);
            var all := Askables(c, s1, s1.assemblies.order, now);
            var n := Min(|all|, Min(Max(0, maxRequests), Free(c, s1.requestTimes, now)));
      out == Done([], RequestsFor(all[..n]))
  {
    hide Askables, PollFrom, Free;
    var s1 := Sweep(c, s, swept);
    KeepOnlyValid(s.assemblies, set k | k in s.assemblies.at && s.assemblies.at[k].updatedAt >= swept - c.ttl);
    assert Askables(c, s1, s1.assemblies.order, now)[..0] == [];
    hide Sweep;
    if maxRequests > 0 {
      PollFromIs(c, s1, s1.assemblies.order, now, maxRequests, []);
      assert forall asks: seq<Ask> :: [] + RequestsFor(asks) == RequestsFor(asks);
    }
  }

  /**
   * Filing a fragment of a frame that stays incomplete: nothing while the final fragment is
   * unknown, otherwise at once a request for the first position that may be asked for, if any and
   * if the budget leaves one.
   */
  lemma FileAsks(
    c: Config, digest: Bytes -> Bytes, s: State, key: Key, wire: int, body: Bytes, now: int)
    requires c.Valid() && key !in s.completedIndices.at
    ensures var a := Absorb(AssemblyFor(s, key, now), wire, body, now);
            var all := AskableOf(c, a, key, Missing(a), now, true);
            var n := Min(|all|, Min(1, Free(c, s.requestTimes, now)));
      a.final.None? || Missing(a) != [] ==>
        File(c, digest, s, key, wire, body, now, true).outcome
        == Done([], if a.final.None? then [] else RequestsFor(all[..n]))
  {
    hide AppendRepairs, AskableOf, Absorb, Missing, Free, Complete;
    var a := Absorb(AssemblyFor(s, key, now), wire, body, now);
    MissingIsDistinct(a);
    AppendIs(c, Repairs(a, s.requestTimes, []), key, Missing(a), now, 1, true);
    assert forall asks: seq<Ask> :: [] + RequestsFor(asks) == RequestsFor(asks);
  }

  // ---- What is refused ----

  /** Exactly which payloads `receive` refuses; without a source nothing happens, otherwise only the clean-up. */
  lemma RefusedIff(
    c: Config, digest: Bytes -> Bytes, s: State, source: string, payload: Bytes, allowControl: bool, swept: int,
    now: int)
    ensures var reply := Receive(c, digest, s, source, payload, allowControl, swept, now);
      && (reply.outcome.Raised? <==>
            || source == ""
            || (IsRequest(payload) && allowControl && |payload| < 5)
            || (!IsRequest(payload) && (|payload| < 3 || payload[1] == 0)))
      && (reply.outcome.Raised? ==> reply.state == if source == "" then s else Sweep(c, s, swept))
  {
    hide Sweep, Absorb, AppendRepairs, Missing, Join;
  }

  /** And on the Android side. */
  lemma TwinRefusedIff(
    c: Config, digest: Bytes -> Bytes, t: J.Twin, source: string, payload: Bytes, allowControl: bool, swept: int,
    now: int)
    ensures var answer := J.Receive(c, digest, t, source, payload, allowControl, swept, now);
      && (answer.result.Refused?
          <==> !IsRequest(payload) && (|payload| < 3 || payload[1] == 0 || payload[1] == 128))
      && (answer.result.Refused? ==> answer.twin == J.Cleanup(c, t, swept))
  {
    hide J.Cleanup, Absorb, AppendRepairs, Missing, Join, HasDueRepair;
  }

  // ---- Without control traffic ----

  /** Without permission for control traffic nothing is sent, and the same frames are delivered. */
  lemma QuietDeliversTheSame(
    c: Config, digest: Bytes -> Bytes, s: State, source: string, payload: Bytes, swept: int, now: int)
    requires source != "" && (IsRequest(payload) ==> |payload| >= 5)
    ensures var quiet := Receive(c, digest, s, source, payload, false, swept, now).outcome;
            var loud := Receive(c, digest, s, source, payload, true, swept, now).outcome;
      && (quiet.Raised? <==> loud.Raised?)
      && (quiet.Done? ==> quiet.transmissions == [] && quiet.frames == loud.frames)
  {
    hide Sweep, Absorb, AppendRepairs, Missing, Join;
  }

  /** And a poll only cleans up. */
  lemma QuietPoll(c: Config, s: State, maxRequests: int, swept: int, now: int)
    ensures Poll(c, s, maxRequests, false, swept, now)
         == Reply(if maxRequests > 0 then Sweep(c, s, swept) else s, NOTHING)
  {
    hide Sweep, PollFrom;
    var s1 := Sweep(c, s, swept);
    QuietWalk(c, s1, s1.assemblies.order, now, maxRequests, []);
  }

  lemma {:induction false} QuietWalk(
    c: Config, s: State, keys: seq<Key>, now: int, maxRequests: int, sent: seq<Transmission>)
    ensures PollFrom(c, s, keys, now, maxRequests, false, sent) == Reply(s, Done([], sent))
    decreases |keys|
  {
    if keys != [] {
      QuietWalk(c, s, keys[1..], now, maxRequests, sent);
    }
  }

  // ---- Which class of traffic ----

  ghost predicate AllRepairs(sent: seq<Transmission>) {
    forall i :: 0 <= i < |sent| ==> sent[i].reason == Repair
  }

  lemma {:induction false} PollAsksOnly(
    c: Config, s: State, keys: seq<Key>, now: int, maxRequests: int, allowControl: bool, sent: seq<Transmission>)
    requires AllRepairs(sent)
    ensures var out := PollFrom(c, s, keys, now, maxRequests, allowControl, sent).outcome;
      out.Done? && AllRepairs(out.transmissions)
    decreases |keys|
  {
    hide AppendRepairs, Missing, AllRepairs;
    if keys == [] {
    } else if keys[0] !in s.assemblies.at || now - s.assemblies.at[keys[0]].updatedAt < c.cooldown {
      PollAsksOnly(c, s, keys[1..], now, maxRequests, allowControl, sent);
    } else if maxRequests - |sent| <= 0 {
    } else if !allowControl {
      PollAsksOnly(c, s, keys[1..], now, maxRequests, allowControl, sent);
    } else {
      var a := s.assemblies.at[keys[0]];
      var start := Repairs(a, s.requestTimes, sent);
      AppendAsksOnly(c, start, keys[0], Missing(a), now, maxRequests - |sent|, false);
      var r := AppendRepairs(c, start, keys[0], Missing(a), now, maxRequests - |sent|, false);
      PollAsksOnly(
        c, s.(assemblies := s.assemblies.Put(keys[0], r.assembly), requestTimes := r.times), keys[1..], now,
        maxRequests, allowControl, r.sent);
    }
  }

  lemma {:induction false} AppendAsksOnly(
    c: Config, r: Repairs, key: Key, missing: seq<nat>, now: int, budget: int, immediate: bool)
    requires AllRepairs(r.sent)
    ensures AllRepairs(AppendRepairs(c, r, key, missing, now, budget, immediate).sent)
    decreases |missing|
  {
    hide DropOld, RepairDue;
    if missing != [] && budget > 0 {
      var m, rest := missing[0], missing[1..];
      var trimmed := r.(times := DropOld(r.times, now - c.window));
      var next := RequestOne(c, trimmed, key, m, now);
      assert AllRepairs(next.sent);
      hide AllRepairs;
      AppendAsksOnly(c, r, key, rest, now, budget, immediate);
      AppendAsksOnly(c, next, key, rest, now, budget - 1, immediate);
    }
  }

  /**
   * What `encode` returns is data to the scheduler, and what `receive` and `poll_repairs` return is
   * control traffic.
   */
  lemma TrafficClass(
    c: Config, digest: Bytes -> Bytes, s: State, call: Call, priority: S.Priority, fragments: int, bytes: int)
    requires c.Valid()
    ensures var out := Apply(c, digest, s, call).outcome;
      out.Done? && out.transmissions != [] ==>
        (S.Offer(out.transmissions, priority, fragments, bytes).Control() <==> !call.Send?)
  {
    hide Sweep, File, PollFrom, Chunks, AllFragments;
    var out := Apply(c, digest, s, call).outcome;
    match call
    case Send(frame, _, _, _) =>
      if out.Done? {
        assert out.transmissions != [] ==> out.transmissions[0].reason == Data;
      }
    case Hear(source, payload, allow, swept, now) =>
      if source != "" && !IsRequest(payload) && Malformed(payload).None? {
        FileAsksOnly(
          c, digest, Sweep(c, s, swept), Key(source, payload[0]), SignedByte(payload[1]), payload[2..], now, allow);
      }
    case PollRepairs(n, allow, swept, now) =>
      var s1 := Sweep(c, s, swept);
      PollAsksOnly(c, s1, s1.assemblies.order, now, n, allow, []);
    case Cleanup(_, _) =>
  }

  lemma FileAsksOnly(
    c: Config, digest: Bytes -> Bytes, s: State, key: Key, wire: int, body: Bytes, now: int, allowControl: bool)
    ensures var out := File(c, digest, s, key, wire, body, now, allowControl).outcome;
      out.Done? && AllRepairs(out.transmissions)
  {
    hide AppendRepairs, Absorb, Missing, Join;
    var a := Absorb(AssemblyFor(s, key, now), wire, body, now);
    AppendAsksOnly(c, Repairs(a, s.requestTimes, []), key, Missing(a), now, 1, true);
  }
}
