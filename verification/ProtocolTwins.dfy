/**
 * The two implementations of the protocol side by side: where `framing.py` and
 * `FragmentProtocol.java` agree, where they part, and what "deferred" means.
 */
module ProtocolTwins {
  import opened Common
  import opened OrderedMaps
  import opened Fragments
  import opened FragmentSpec
  import opened FragmentFacts
  import opened PollChoice
  import R = Retransmission
  import J = AndroidFragmentSpec

  // ---- Forgetting ----

  /** Entries stand in the order of their times, none later than the clock. */
  ghost predicate Aged<K(!new)>(m: OMap<K, int>, clock: int) {
    && m.Valid()
    && (forall i, j :: 0 <= i <= j < |m.order| && m.order[i] in m.at && m.order[j] in m.at
          ==> m.at[m.order[i]] <= m.at[m.order[j]])
    && (forall k :: k in m.at ==> m.at[k] <= clock)
  }

  lemma AgedHead<K(!new)>(m: OMap<K, int>, clock: int)
    requires Aged(m, clock) && m.order != []
    ensures m.order[0] in m.at
    ensures forall k :: k in m.at ==> m.at[m.order[0]] <= m.at[k]
  {
    assert m.order[0] in Elements(m.order);
    forall k | k in m.at ensures m.at[m.order[0]] <= m.at[k] {
      assert k in Elements(m.order);
      var j :| 0 <= j < |m.order| && m.order[j] == k;
    }
  }

  lemma AgedTail<K(!new)>(m: OMap<K, int>, clock: int)
    requires Aged(m, clock) && m.order != []
    ensures Aged(m.Remove(m.order[0]), clock)
  {
    RemoveFirst(m);
  }

  /**
   * Forgetting from the front until an entry is young enough forgets exactly the entries that
   * are too old, wherever they stand, because completions are stored in the order of time.
   */
  lemma {:induction false} PopIsFilter<K(!new)>(m: OMap<K, int>, clock: int, cutoff: int)
    requires Aged(m, clock)
    ensures PopExpired(m, cutoff).at == J.Recent(m.at, cutoff)
    ensures Aged(PopExpired(m, cutoff), clock)
    decreases |m.at|
  {
    hide Aged, Select;
    if m.order == [] {
      NothingHeld(m, clock);
    } else {
      AgedHead(m, clock);
      if m.at[m.order[0]] < cutoff {
        var rest := m.Remove(m.order[0]);
        assert rest.at.Keys == m.at.Keys - {m.order[0]};
        AgedTail(m, clock);
        PopIsFilter(rest, clock, cutoff);
      }
    }
  }

  lemma NothingHeld<K(!new)>(m: OMap<K, int>, clock: int)
    requires Aged(m, clock) && m.order == []
    ensures m.at == map[]
  {
    assert Elements(m.order) == {};
  }

  lemma AgedPut<K(!new)>(m: OMap<K, int>, clock: int, k: K, now: int)
    requires Aged(m, clock) && clock <= now && k !in m.at
    ensures Aged(m.Put(k, now).MoveToEnd(k), now)
    ensures m.Put(k, now).MoveToEnd(k).at == m.at[k := now]
  {
    hide Select;
    PutValid(m, k, now);
    MoveNewKey(m, k, now);
    var r := m.Put(k, now);
    forall i, j | 0 <= i <= j < |r.order| && r.order[i] in r.at && r.order[j] in r.at
      ensures r.at[r.order[i]] <= r.at[r.order[j]]
    {
      assert r.order == m.order + [k];
    }
  }

  lemma AgedLater<K(!new)>(m: OMap<K, int>, clock: int, now: int)
    requires Aged(m, clock) && clock <= now
    ensures Aged(m, now)
  {
  }

  // ---- The relation ----

  /** The same contents; only the orders of the dictionaries may differ. */
  ghost predicate Same(s: State, t: J.Twin) {
    && s.nextIndex == t.nextIndex
    && s.assemblies.at == t.assemblies
    && s.txCache.at == t.txCache.at && s.txCache.Valid() && t.txCache.Valid()
    && s.completed.at == t.completed
    && s.completedIndices.at == t.completedIndices
    && s.requestTimes == t.repairWindow
  }

  ghost predicate Twins(s: State, t: J.Twin, clock: int) {
    && Same(s, t) && Aged(s.completed, clock) && Aged(s.completedIndices, clock)
    && |s.txCache.order| <= MAX_CACHED
  }

  /** The same frames and transmissions, or a refusal on both sides. */
  predicate Agree(out: Outcome, r: J.Result) {
    match out
    case Raised(_) => r.Refused?
    case Done(frames, transmissions) => r.Result? && r.frames == frames && r.transmissions == transmissions
  }

  lemma SweepTwins(c: Config, s: State, t: J.Twin, clock: int, swept: int)
    requires Twins(s, t, clock) && clock <= swept
    ensures Twins(Sweep(c, s, swept), J.Cleanup(c, t, swept), swept)
  {
    hide Aged, PopExpired, Select, J.Recent;
    AgedLater(s.completed, clock, swept);
    AgedLater(s.completedIndices, clock, swept);
    PopIsFilter(s.completed, swept, swept - c.ttl);
    PopIsFilter(s.completedIndices, swept, swept - c.ttl);
    KeepOnlyValid(s.txCache, set k | k in s.txCache.at && s.txCache.at[k].createdAt >= swept - c.ttl);
    KeepOnlyValid(t.txCache, set k | k in t.txCache.at && t.txCache.at[k].createdAt >= swept - c.ttl);
    SelectMembers(s.txCache.order, set k | k in s.txCache.at && s.txCache.at[k].createdAt >= swept - c.ttl);
  }

  lemma LaterTwins(s: State, t: J.Twin, clock: int, now: int)
    requires Twins(s, t, clock) && clock <= now
    ensures Twins(s, t, now)
  {
    hide Aged;
    AgedLater(s.completed, clock, now);
    AgedLater(s.completedIndices, clock, now);
  }

  // ---- Receiving ----

  /** The source is known, a request is complete if it may be answered, and no position is -128. */
  predicate Shared(call: Call) {
    call.Hear? ==>
      && call.source != ""
      && (IsRequest(call.payload) ==> call.allowControl ==> |call.payload| >= 5)
      && (!IsRequest(call.payload) && |call.payload| >= 3 ==> SignedByte(call.payload[1]) != -128)
  }

  lemma RequestTwins(s: State, t: J.Twin, source: string, payload: Bytes)
    requires Same(s, t) && |payload| >= 5
    ensures Agree(HandleRequest(s, source, payload[3..]), J.HandleRequest(t, source, payload, true))
  {
    assert payload[3..][0] == payload[3] && payload[3..][1] == payload[4];
  }

  /** A new assembly is stamped by its first fragment, whatever it is stamped with before. */
  lemma AbsorbFresh(s: State, t: J.Twin, key: Key, wire: int, body: Bytes, now: int)
    requires Same(s, t)
    ensures Absorb(AssemblyFor(s, key, now), wire, body, now) == Absorb(J.AssemblyFor(t, key), wire, body, now)
  {
  }

  lemma FileTwins(
    c: Config, digest: Bytes -> Bytes, s: State, t: J.Twin, key: Key, wire: int, body: Bytes, now: int,
    allowControl: bool)
    requires Twins(s, t, now)
    ensures var p := File(c, digest, s, key, wire, body, now, allowControl);
            var q := J.File(c, digest, t, key, wire, body, now, allowControl);
      Agree(p.outcome, q.result) && Twins(p.state, q.twin, now)
  {
    hide Aged, Absorb, AppendRepairs, Missing, Join, HasDueRepair, Complete, J.Complete;
    AbsorbFresh(s, t, key, wire, body, now);
    var a := Absorb(AssemblyFor(s, key, now), wire, body, now);
    if key !in s.completedIndices.at && a.final.Some? && Missing(a) == [] {
      var frame := Join(a.fragments, a.final.value);
      CompleteTwins(
        s.(assemblies := s.assemblies.Put(key, a)), t.(assemblies := t.assemblies[key := a]), key, frame,
        digest(frame), now);
    }
  }

  lemma CompleteTwins(s: State, t: J.Twin, key: Key, frame: Bytes, digest: Bytes, now: int)
    requires Twins(s, t, now) && key !in s.completedIndices.at
    ensures var p, q := Complete(s, key, frame, digest, now), J.Complete(t, key, frame, digest, now);
      Agree(p.outcome, q.result) && Twins(p.state, q.twin, now)
  {
    hide Aged, Select;
    var done := Completion(key, digest);
    assert s.assemblies.Remove(key).at == t.assemblies - {key};
    if done !in s.completed.at {
      AgedPut(s.completed, now, done, now);
      AgedPut(s.completedIndices, now, key, now);
    }
  }

  /**
   * One call of `receive` on twin states leaves twin states, and the answers agree exactly on
   * the common ground: they part on a position of -128, which only `framing.py` files, and on
   * a truncated request, which only `framing.py` refuses. Without a source `framing.py` always
   * refuses, and they agree exactly where the other side does.
   */
  lemma HearAgreesIff(c: Config, digest: Bytes -> Bytes, s: State, t: J.Twin, clock: int, call: Call)
    requires c.Valid() && J.Configured(c) && Twins(s, t, clock) && clock <= call.swept <= call.now
    requires call.Hear?
    ensures var p, q := Apply(c, digest, s, call), J.Apply(c, digest, t, call, []);
      && (Agree(p.outcome, q.result)
          <==> if call.source == "" then !IsRequest(call.payload) && J.Invalid(call.payload) else Shared(call))
      && (Shared(call) ==> Twins(p.state, q.twin, call.now))
  {
    hide Twins, Sweep, J.Cleanup, File, J.File, HandleRequest, J.HandleRequest;
    SweepTwins(c, s, t, clock, call.swept);
    var s1, t1 := Sweep(c, s, call.swept), J.Cleanup(c, t, call.swept);
    LaterTwins(s1, t1, call.swept, call.now);
    var payload := call.payload;
    if call.source == "" {
      FileAnswers(
        c, digest, t1, Key(call.source, if payload == [] then 0 else payload[0]),
        if |payload| < 2 then 0 else SignedByte(payload[1]), if |payload| < 2 then [] else payload[2..], call.now,
        call.allowControl);
      RequestAnswers(t1, call.source, payload, call.allowControl);
    } else if IsRequest(payload) {
      HearRequest(s1, t1, call);
    } else if !J.Invalid(payload) {
      FileTwins(
        c, digest, s1, t1, Key(call.source, payload[0]), SignedByte(payload[1]), payload[2..], call.now,
        call.allowControl);
    } else if |payload| >= 3 && SignedByte(payload[1]) == -128 {
      FilesNotRaises(
        c, digest, s1, Key(call.source, payload[0]), SignedByte(payload[1]), payload[2..], call.now,
        call.allowControl);
    }
  }

  lemma FileAnswers(
    c: Config, digest: Bytes -> Bytes, t: J.Twin, key: Key, wire: int, body: Bytes, now: int, allowControl: bool)
    ensures J.File(c, digest, t, key, wire, body, now, allowControl).result.Result?
  {
    hide Absorb, AppendRepairs, Missing, Join, HasDueRepair;
  }

  lemma RequestAnswers(t: J.Twin, source: string, payload: Bytes, allowControl: bool)
    ensures J.HandleRequest(t, source, payload, allowControl).Result?
  {
  }

  lemma HearRequest(s: State, t: J.Twin, call: Call)
    requires Twins(s, t, call.now) && call.Hear? && call.source != "" && IsRequest(call.payload)
    ensures var out := if call.allowControl then HandleRequest(s, call.source, call.payload[3..]) else NOTHING;
      Agree(out, J.HandleRequest(t, call.source, call.payload, call.allowControl)) <==> Shared(call)
  {
    hide Aged;
    if call.allowControl && |call.payload| >= 5 {
      RequestTwins(s, t, call.source, call.payload);
    }
  }

  lemma FilesNotRaises(
    c: Config, digest: Bytes -> Bytes, s: State, key: Key, wire: int, body: Bytes, now: int, allowControl: bool)
    ensures File(c, digest, s, key, wire, body, now, allowControl).outcome.Done?
  {
    hide Absorb, AppendRepairs, Missing, Join;
  }

  // ---- Polling ----

  lemma {:induction false} PollTwins(
    c: Config, s: State, t: J.Twin, keys: seq<Key>, now: int, maxRequests: int, allowControl: bool,
    sent: seq<Transmission>)
    requires Twins(s, t, now) && |sent| < maxRequests
    ensures var p := PollFrom(c, s, keys, now, maxRequests, allowControl, sent);
            var q := J.PollFrom(c, t, keys, now, maxRequests, allowControl, sent);
      Agree(p.outcome, q.result) && Twins(p.state, q.twin, now)
    decreases |keys|
  {
    hide Aged, AppendRepairs, Missing, HasDueRepair;
    if keys == [] {
    } else if keys[0] !in s.assemblies.at || now - s.assemblies.at[keys[0]].updatedAt < c.cooldown {
      PollTwins(c, s, t, keys[1..], now, maxRequests, allowControl, sent);
    } else if !allowControl {
      PollDone(c, s, keys[1..], now, maxRequests, allowControl, sent);
      PollTwins(c, s, t, keys[1..], now, maxRequests, allowControl, sent);
    } else {
      var a := s.assemblies.at[keys[0]];
      var r := AppendRepairs(
        c, Repairs(a, s.requestTimes, sent), keys[0], Missing(a), now, maxRequests - |sent|, false);
      var s1 := s.(assemblies := s.assemblies.Put(keys[0], r.assembly), requestTimes := r.times);
      var t1 := t.(assemblies := t.assemblies[keys[0] := r.assembly], repairWindow := r.times);
      if |r.sent| >= maxRequests {
        PollDone(c, s1, keys[1..], now, maxRequests, allowControl, r.sent);
      } else {
        PollTwins(c, s1, t1, keys[1..], now, maxRequests, allowControl, r.sent);
      }
    }
  }

  /** Keys that are not due make no difference to a poll. */
  lemma {:induction false} OnlyDueMatter(
    c: Config, s: State, keys: seq<Key>, due: set<Key>, now: int, maxRequests: int, allowControl: bool,
    sent: seq<Transmission>)
    requires forall k :: k in keys && k !in due ==> !Due(c, s, k, now)
    ensures PollFrom(c, s, keys, now, maxRequests, allowControl, sent)
         == PollFrom(c, s, Select(keys, due), now, maxRequests, allowControl, sent)
    decreases |keys|
  {
    hide AppendRepairs, Missing, HasDueRepair;
    if keys == [] {
    } else if !allowControl || maxRequests <= |sent| {
      PollDone(c, s, keys, now, maxRequests, allowControl, sent);
      PollDone(c, s, Select(keys, due), now, maxRequests, allowControl, sent);
    } else {
      var k, rest := keys[0], keys[1..];
      assert forall x :: x in rest ==> x in keys;
      HeadSelected(keys, due);
      if k in s.assemblies.at && now - s.assemblies.at[k].updatedAt >= c.cooldown {
        var a := s.assemblies.at[k];
        var start := Repairs(a, s.requestTimes, sent);
        AppendSendsIff(c, start, k, Missing(a), now, maxRequests - |sent|, false);
        var r := AppendRepairs(c, start, k, Missing(a), now, maxRequests - |sent|, false);
        var s1 := s.(assemblies := s.assemblies.Put(k, r.assembly), requestTimes := r.times);
        if k in due {
          OnlyDueMatter(c, s1, rest, due, now, maxRequests, allowControl, r.sent);
        } else {
          assert s1 == s;
          OnlyDueMatter(c, s, rest, due, now, maxRequests, allowControl, sent);
        }
      } else {
        OnlyDueMatter(c, s, rest, due, now, maxRequests, allowControl, sent);
      }
    }
  }

  lemma HeadSelected(keys: seq<Key>, due: set<Key>)
    requires keys != []
    ensures keys[0] in due ==>
              Select(keys, due) != [] && Select(keys, due)[0] == keys[0]
              && Select(keys, due)[1..] == Select(keys[1..], due)
    ensures keys[0] !in due ==> Select(keys, due) == Select(keys[1..], due)
  {
    assert ([keys[0]] + Select(keys[1..], due))[1..] == Select(keys[1..], due);
  }

  /** The assembly under `k` is due on the Android side. */
  predicate TwinDue(c: Config, t: J.Twin, k: Key, now: int) {
    && k in t.assemblies && now - t.assemblies[k].updatedAt >= c.cooldown
    && HasDueRepair(c, t.assemblies[k], Missing(t.assemblies[k]), now, false)
  }

  lemma {:induction false} OnlyDueMatterHere(
    c: Config, t: J.Twin, keys: seq<Key>, due: set<Key>, now: int, maxRequests: int, allowControl: bool,
    sent: seq<Transmission>)
    requires forall k :: k in keys && k !in due ==> !TwinDue(c, t, k, now)
    requires |sent| < maxRequests
    ensures J.PollFrom(c, t, keys, now, maxRequests, allowControl, sent)
         == J.PollFrom(c, t, Select(keys, due), now, maxRequests, allowControl, sent)
    decreases |keys|
  {
    hide AppendRepairs, Missing, HasDueRepair, Select;
    if keys == [] {
      assert Select(keys, due) == [] by { SelectMembers(keys, due); }
    } else {
      var k, rest := keys[0], keys[1..];
      assert forall x :: x in rest ==> x in keys;
      HeadSelected(keys, due);
      if k !in t.assemblies || now - t.assemblies[k].updatedAt < c.cooldown {
        OnlyDueMatterHere(c, t, rest, due, now, maxRequests, allowControl, sent);
      } else if !allowControl {
        assert k !in due ==> !HasDueRepair(c, t.assemblies[k], Missing(t.assemblies[k]), now, false);
        OnlyDueMatterHere(c, t, rest, due, now, maxRequests, allowControl, sent);
      } else {
        var a := t.assemblies[k];
        var start := Repairs(a, t.repairWindow, sent);
        AppendSendsIff(c, start, k, Missing(a), now, maxRequests - |sent|, false);
        var r := AppendRepairs(c, start, k, Missing(a), now, maxRequests - |sent|, false);
        var t1 := t.(assemblies := t.assemblies[k := r.assembly], repairWindow := r.times);
        if k in due {
          if |r.sent| < maxRequests {
            OnlyDueMatterHere(c, t1, rest, due, now, maxRequests, allowControl, r.sent);
          }
        } else {
          assert t1 == t;
          OnlyDueMatterHere(c, t, rest, due, now, maxRequests, allowControl, sent);
        }
      }
    }
  }

  ghost function DueKeys(c: Config, s: State, now: int): set<Key> {
    set k | k in s.assemblies.at && Due(c, s, k, now)
  }

  /** `keys` visits the assemblies that are due in the order in which they were begun. */
  ghost predicate DueInOrder(c: Config, s: State, keys: seq<Key>, now: int) {
    Select(keys, DueKeys(c, s, now)) == Select(s.assemblies.order, DueKeys(c, s, now))
  }

  lemma PollAgrees(
    c: Config, s: State, t: J.Twin, keys: seq<Key>, now: int, maxRequests: int, allowControl: bool)
    requires Twins(s, t, now) && maxRequests > 0 && DueInOrder(c, s, keys, now)
    ensures var p := PollFrom(c, s, s.assemblies.order, now, maxRequests, allowControl, []);
            var q := J.PollFrom(c, t, keys, now, maxRequests, allowControl, []);
      Agree(p.outcome, q.result) && Twins(p.state, q.twin, now)
  {
    hide Aged, PollFrom, J.PollFrom, Missing, HasDueRepair, Select;
    var due := DueKeys(c, s, now);
    OnlyDueMatter(c, s, s.assemblies.order, due, now, maxRequests, allowControl, []);
    OnlyDueMatterHere(c, t, keys, due, now, maxRequests, allowControl, []);
    PollTwins(c, s, t, Select(keys, due), now, maxRequests, allowControl, []);
  }

  /** With at most one assembly due any walk through all of them will do. */
  lemma AnyWalk(c: Config, s: State, keys: seq<Key>, now: int)
    requires s.assemblies.Valid() && Distinct(keys) && Elements(keys) == s.assemblies.at.Keys
    requires |DueKeys(c, s, now)| <= 1
    ensures DueInOrder(c, s, keys, now)
  {
    hide Due, Select;
    var due := DueKeys(c, s, now);
    SelectMembers(keys, due);
    SelectMembers(s.assemblies.order, due);
    DistinctCardinality(Select(keys, due));
    DistinctCardinality(Select(s.assemblies.order, due));
    assert Elements(keys) * due == due && Elements(s.assemblies.order) * due == due;
    if due != {} {
      var k :| k in due;
      OnlyMember(due, k);
      assert Select(keys, due)[0] in Elements(Select(keys, due));
      assert Select(s.assemblies.order, due)[0] in Elements(Select(s.assemblies.order, due));
    }
  }

  lemma OnlyMember<K>(s: set<K>, k: K)
    requires k in s && |s| <= 1
    ensures forall x :: x in s ==> x == k
  {
    forall x | x in s ensures x == k {
      if x != k {
        SubsetCardinality({k, x}, s);
      }
    }
  }

  /** A poll for one request on the Android side, with room for it. */
  lemma {:induction false} TwinPollOneIs(c: Config, s: State, t: J.Twin, keys: seq<Key>, now: int)
    requires Same(s, t) && Room(c, s, now)
    ensures var k := FirstDue(c, s, keys, now); var q := J.PollFrom(c, t, keys, now, 1, true, []).result;
      && q.Result?
      && (if k.None? then q.transmissions == []
          else
            && k.value in s.assemblies.at
            && var a := s.assemblies.at[k.value]; var m := FirstAskable(c, a, Missing(a), now, false);
            && m.Some? && q.transmissions == AskedFor(c, s, k.value, m.value, now).outcome.transmissions)
    decreases |keys|
  {
    hide AppendRepairs, Missing, FirstAskable, HasDueRepair, DropOld;
    if keys != [] {
      var k := keys[0];
      if k in s.assemblies.at && now - s.assemblies.at[k].updatedAt >= c.cooldown {
        var a := s.assemblies.at[k];
        FirstAskableIff(c, a, Missing(a), now, false);
        AppendOneIs(c, Repairs(a, s.requestTimes, []), k, Missing(a), now, false);
        if !Due(c, s, k, now) {
          assert t.(assemblies := t.assemblies[k := a], repairWindow := t.repairWindow) == t;
          TwinPollOneIs(c, s, t, keys[1..], now);
        }
      } else {
        TwinPollOneIs(c, s, t, keys[1..], now);
      }
    }
  }

  /**
   * A poll for one request with room for it, on twin states: the two sides ask for the same if and
   * only if the walk through the hash map meets the same due assembly first.
   */
  lemma PollOneAgreesIff(c: Config, s: State, t: J.Twin, keys: seq<Key>, now: int)
    requires Same(s, t) && Room(c, s, now)
    ensures Agree(PollFrom(c, s, s.assemblies.order, now, 1, true, []).outcome,
                  J.PollFrom(c, t, keys, now, 1, true, []).result)
       <==> FirstDue(c, s, keys, now) == FirstDue(c, s, s.assemblies.order, now)
  {
    hide PollFrom, J.PollFrom, FirstDue, FirstAskable, Missing, DropOld, Same;
    PollOneIs(c, s, s.assemblies.order, now);
    TwinPollOneIs(c, s, t, keys, now);
    PollKeepsCaches(c, s, s.assemblies.order, now, 1, true, []);
    TwinPollNoFrames(c, t, keys, now, 1, true, []);
    var x, y := FirstDue(c, s, s.assemblies.order, now), FirstDue(c, s, keys, now);
    if x.Some? && y.Some? {
      var a, b := s.assemblies.at[x.value], s.assemblies.at[y.value];
      SameRequest(
        c, s, x.value, FirstAskable(c, a, Missing(a), now, false).value, y.value,
        FirstAskable(c, b, Missing(b), now, false).value, now);
    } else if x.Some? {
      var a := s.assemblies.at[x.value];
      AskedSends(c, s, x.value, FirstAskable(c, a, Missing(a), now, false).value, now);
    } else if y.Some? {
      var b := s.assemblies.at[y.value];
      AskedSends(c, s, y.value, FirstAskable(c, b, Missing(b), now, false).value, now);
    }
  }

  lemma AskedSends(c: Config, s: State, key: Key, m: nat, now: int)
    requires key in s.assemblies.at
    ensures AskedFor(c, s, key, m, now).outcome
         == Done([], [Transmission(key.source, Request(key.index, m), Repair)])
  {
    hide DropOld;
  }

  /** A request tells on whose behalf it is made. */
  lemma SameRequest(c: Config, s: State, x: Key, m: nat, y: Key, n: nat, now: int)
    requires x in s.assemblies.at && y in s.assemblies.at
    ensures AskedFor(c, s, x, m, now).outcome == AskedFor(c, s, y, n, now).outcome ==> x == y
    ensures AskedFor(c, s, x, m, now).outcome.Done? && AskedFor(c, s, y, n, now).outcome.Done?
  {
    hide AskedFor;
    AskedSends(c, s, x, m, now);
    AskedSends(c, s, y, n, now);
    assert Request(x.index, m)[3] == x.index && Request(y.index, n)[3] == y.index;
    var p := Transmission(x.source, Request(x.index, m), Repair);
    var q := Transmission(y.source, Request(y.index, n), Repair);
    assert [p] == [q] ==> [p][0] == [q][0];
  }

  lemma {:induction false} TwinPollNoFrames(
    c: Config, t: J.Twin, keys: seq<Key>, now: int, maxRequests: int, allowControl: bool, sent: seq<Transmission>)
    ensures var q := J.PollFrom(c, t, keys, now, maxRequests, allowControl, sent).result; q.Result? && q.frames == []
    decreases |keys|
  {
    hide AppendRepairs, Missing, HasDueRepair;
    if keys == [] {
    } else if keys[0] !in t.assemblies || now - t.assemblies[keys[0]].updatedAt < c.cooldown || !allowControl {
      TwinPollNoFrames(c, t, keys[1..], now, maxRequests, allowControl, sent);
    } else {
      var a := t.assemblies[keys[0]];
      var r := AppendRepairs(
        c, Repairs(a, t.repairWindow, sent), keys[0], Missing(a), now, maxRequests - |sent|, false);
      TwinPollNoFrames(
        c, t.(assemblies := t.assemblies[keys[0] := r.assembly], repairWindow := r.times), keys[1..], now,
        maxRequests, allowControl, r.sent);
    }
  }

  // ---- Sending ----

  lemma SameSize(m: OMap<CacheKey, Cached>, n: OMap<CacheKey, Cached>)
    requires m.Valid() && n.Valid() && m.at == n.at
    ensures |m.order| == |n.order|
  {
    DistinctCardinality(m.order);
    DistinctCardinality(n.order);
  }

  /**
   * The two ways of storing leave the same eviction queue if and only if the key is new or
   * already last in it.
   */
  lemma MoveMattersIff<K, V>(m: OMap<K, V>, k: K, v: V)
    requires m.Valid()
    ensures m.Put(k, v).MoveToEnd(k).order == m.Put(k, v).order
       <==> k !in m.at || m.order[|m.order| - 1] == k
  {
    hide Select;
    if k !in m.at {
      MoveNewKey(m, k, v);
    } else {
      assert k in Elements(m.order);
      var moved := Select(m.order, Elements(m.order) - {k}) + [k];
      if m.order[|m.order| - 1] == k {
        var front := m.order[..|m.order| - 1];
        assert m.order == front + [k];
        assert k !in Elements(front);
        SelectOthers(front, k);
      } else {
        assert moved[|moved| - 1] == k;
      }
    }
  }

  /** Storing, then evicting what is too much: at most the one at the front, and only for a new key. */
  lemma StoreAndEvict(m: OMap<CacheKey, Cached>, k: CacheKey, v: Cached)
    requires m.Valid() && |m.order| <= MAX_CACHED
    ensures var moved := TrimFront(m.Put(k, v).MoveToEnd(k), MAX_CACHED);
            var kept := TrimFront(m.Put(k, v), MAX_CACHED);
      && moved.Valid() && kept.Valid() && |moved.order| <= MAX_CACHED
      && moved.at == kept.at
      && kept.at == (if k in m.at || |m.order| < MAX_CACHED then m.at[k := v] else m.at[k := v] - {m.order[0]})
      && (k !in m.at ==> moved.order == kept.order)
      && (k in m.at ==> moved.order == m.Put(k, v).MoveToEnd(k).order && kept.order == m.order)
  {
    hide Select;
    var put := m.Put(k, v);
    PutValid(m, k, v);
    MoveToEndValid(put, k);
    SameSize(put, put.MoveToEnd(k));
    if k !in m.at {
      MoveNewKey(m, k, v);
      if |m.order| == MAX_CACHED {
        assert put.order[0] == m.order[0];
        RemoveFirst(put);
        assert put.Remove(put.order[0]).at == m.at[k := v] - {m.order[0]};
      }
    }
  }

  /** Where the entry of a sent frame goes. */
  function StoreKey(s: State, destination: string): CacheKey {
    CacheKey(s.nextIndex, destination)
  }

  /** Storing the entry throws out another one. */
  predicate Evicts(s: State, destination: string) {
    StoreKey(s, destination) !in s.txCache.at && |s.txCache.order| >= MAX_CACHED
  }

  /** The caches after one accepted frame. */
  lemma EncodeCaches(
    c: Config, s: State, t: J.Twin, frame: Bytes, destination: string, clock: int, swept: int, now: int)
    requires c.Valid() && J.Configured(c) && Twins(s, t, clock) && clock <= swept <= now
    requires R.Sendable(c, frame)
    ensures var p, q := Encode(c, s, frame, destination, swept, now), J.Encode(c, t, frame, destination, swept, now);
            var s1, t1 := Sweep(c, s, swept), J.Cleanup(c, t, swept);
            var cached := Cached(destination, now, AllFragments(frame, c.fragmentBody, s1.nextIndex));
            var key := StoreKey(s1, destination);
      && Agree(p.outcome, q.result)
      && Twins(s1, t1, swept)
      && p.state == s1.(nextIndex := Wrap(s1.nextIndex),
                        txCache := TrimFront(s1.txCache.Put(key, cached).MoveToEnd(key), MAX_CACHED))
      && q.twin == t1.(nextIndex := Wrap(s1.nextIndex), txCache := TrimFront(t1.txCache.Put(key, cached), MAX_CACHED))
  {
    hide Chunks, AllFragments, Aged, Sweep, J.Cleanup, TrimFront, Select, DataTransmissions;
    SweepTwins(c, s, t, clock, swept);
  }

  /**
   * One accepted frame, on twin states: the transmissions agree, and the caches hold the same
   * afterwards if and only if nothing is evicted or both sides evict the same entry.
   */
  lemma SendAgreesIff(
    c: Config, s: State, t: J.Twin, frame: Bytes, destination: string, clock: int, swept: int, now: int)
    requires c.Valid() && J.Configured(c) && Twins(s, t, clock) && clock <= swept <= now
    requires R.Sendable(c, frame)
    ensures var p, q := Encode(c, s, frame, destination, swept, now), J.Encode(c, t, frame, destination, swept, now);
            var s1, t1 := Sweep(c, s, swept), J.Cleanup(c, t, swept);
            var same := !Evicts(s1, destination)
              || (t1.txCache.order != [] && s1.txCache.order[0] == t1.txCache.order[0]);
      && Agree(p.outcome, q.result)
      && (Same(p.state, q.twin) <==> same)
      && (same ==> Twins(p.state, q.twin, now))
  {
    hide Chunks, AllFragments, Aged, Sweep, J.Cleanup, TrimFront, Select, Encode, J.Encode;
    EncodeCaches(c, s, t, frame, destination, clock, swept, now);
    var s1, t1 := Sweep(c, s, swept), J.Cleanup(c, t, swept);
    LaterTwins(s1, t1, swept, now);
    SameSize(s1.txCache, t1.txCache);
    var key := StoreKey(s1, destination);
    var cached := Cached(destination, now, AllFragments(frame, c.fragmentBody, s1.nextIndex));
    StoreAndEvict(s1.txCache, key, cached);
    StoreAndEvict(t1.txCache, key, cached);
    if Evicts(s1, destination) {
      var x, y := s1.txCache.order[0], t1.txCache.order[0];
      assert x in Elements(s1.txCache.order) && y in Elements(t1.txCache.order);
      assert x != y ==> y in s1.txCache.at[key := cached] - {x} && y !in s1.txCache.at[key := cached] - {y};
    }
  }

  /**
   * And if both caches also stand in the same order, they do so afterwards if and only if the key
   * is new or already last.
   */
  lemma SendOrderIff(
    c: Config, s: State, t: J.Twin, frame: Bytes, destination: string, clock: int, swept: int, now: int)
    requires c.Valid() && J.Configured(c) && Twins(s, t, clock) && clock <= swept <= now
    requires R.Sendable(c, frame)
    requires Sweep(c, s, swept).txCache.order == J.Cleanup(c, t, swept).txCache.order
    ensures var p, q := Encode(c, s, frame, destination, swept, now), J.Encode(c, t, frame, destination, swept, now);
            var s1 := Sweep(c, s, swept); var key := StoreKey(s1, destination);
      && Twins(p.state, q.twin, now)
      && (p.state.txCache.order == q.twin.txCache.order
          <==> key !in s1.txCache.at || (s1.txCache.order != [] && s1.txCache.order[|s1.txCache.order| - 1] == key))
  {
    hide Chunks, AllFragments, Aged, Sweep, J.Cleanup, TrimFront, Select, Encode, J.Encode;
    EncodeCaches(c, s, t, frame, destination, clock, swept, now);
    SendAgreesIff(c, s, t, frame, destination, clock, swept, now);
    var s1 := Sweep(c, s, swept);
    var cached := Cached(destination, now, AllFragments(frame, c.fragmentBody, s1.nextIndex));
    StoreAndEvict(s1.txCache, StoreKey(s1, destination), cached);
    StoreAndEvict(J.Cleanup(c, t, swept).txCache, StoreKey(s1, destination), cached);
    MoveMattersIff(s1.txCache, StoreKey(s1, destination), cached);
  }

  // ---- Runs ----

  /**
   * Calls on which the two sides do the same work: the common ground of `receive`; an accepted
   * frame evicts nothing; a poll is for at least one request and visits the assemblies that are
   * due in the order in which they were begun.
   */
  ghost predicate Comparable(c: Config, s: State, call: Call, keys: seq<Key>)
    requires c.Valid()
  {
    && Shared(call)
    && (call.Send? && R.Sendable(c, call.frame) ==> !Evicts(Sweep(c, s, call.swept), call.destination))
    && (call.PollRepairs? ==> call.maxRequests > 0 && DueInOrder(c, Sweep(c, s, call.swept), keys, call.now))
  }

  lemma ApplyTwins(
    c: Config, digest: Bytes -> Bytes, s: State, t: J.Twin, clock: int, call: Call, keys: seq<Key>)
    requires c.Valid() && J.Configured(c) && Twins(s, t, clock) && clock <= call.swept <= call.now
    requires Comparable(c, s, call, keys)
    ensures var p, q := Apply(c, digest, s, call), J.Apply(c, digest, t, call, keys);
      Agree(p.outcome, q.result) && Twins(p.state, q.twin, call.now)
  {
    hide Twins, Sweep, J.Cleanup, PollFrom, J.PollFrom, Receive, J.Receive, Chunks, AllFragments, DueInOrder, Evicts;
    SweepTwins(c, s, t, clock, call.swept);
    var s1, t1 := Sweep(c, s, call.swept), J.Cleanup(c, t, call.swept);
    LaterTwins(s1, t1, call.swept, call.now);
    LaterTwins(s, t, clock, call.now);
    match call
    case Send(frame, destination, swept, now) =>
      if R.Sendable(c, frame) {
        SendAgreesIff(c, s, t, frame, destination, clock, swept, now);
      }
    case Hear(_, _, _, _, _) =>
      HearAgreesIff(c, digest, s, t, clock, call);
    case PollRepairs(n, allow, swept, now) =>
      PollAgrees(c, s1, t1, keys, now, n, allow);
    case Cleanup(_, _) =>
  }

  /** Every call of a run is comparable. */
  ghost predicate AllComparable(c: Config, digest: Bytes -> Bytes, calls: seq<Call>, walks: seq<seq<Key>>)
    requires c.Valid() && |walks| == |calls|
  {
    forall i :: 0 <= i < |calls| ==> Comparable(c, Run(c, digest, INITIAL, calls[..i]), calls[i], walks[i])
  }

  lemma ComparablePrefix(c: Config, digest: Bytes -> Bytes, calls: seq<Call>, walks: seq<seq<Key>>, n: nat)
    requires c.Valid() && |walks| == |calls| && n <= |calls| && AllComparable(c, digest, calls, walks)
    ensures AllComparable(c, digest, calls[..n], walks[..n])
    ensures n < |calls| ==> Comparable(c, Run(c, digest, INITIAL, calls[..n]), calls[n], walks[n])
  {
    hide Run, Comparable;
    forall i | 0 <= i < n
      ensures Comparable(c, Run(c, digest, INITIAL, calls[..n][..i]), calls[..n][i], walks[..n][i])
    {
      assert calls[..n][..i] == calls[..i];
    }
  }

  /** The last call of a run, given twin states before it. */
  lemma LastTwins(c: Config, digest: Bytes -> Bytes, calls: seq<Call>, walks: seq<seq<Key>>, start: int)
    requires c.Valid() && J.Configured(c) && Timed(calls) && |walks| == |calls| && calls != []
    requires start <= calls[0].swept && AllComparable(c, digest, calls, walks)
    requires var n := |calls| - 1;
      Twins(Run(c, digest, INITIAL, calls[..n]), J.Run(c, digest, calls[..n], walks[..n]), Clock(calls[..n], start))
    ensures var n := |calls| - 1;
      && Agree(OutcomeOf(c, digest, INITIAL, calls, n), J.ResultOf(c, digest, calls, walks, n))
      && Twins(Run(c, digest, INITIAL, calls), J.Run(c, digest, calls, walks), calls[n].now)
  {
    hide Apply, J.Apply, Twins, Agree, Comparable, AllComparable;
    var n := |calls| - 1;
    var before := calls[..n];
    ComparablePrefix(c, digest, calls, walks, n);
    ApplyTwins(
      c, digest, Run(c, digest, INITIAL, before), J.Run(c, digest, before, walks[..n]), Clock(before, start),
      calls[n], walks[n]);
  }

  lemma {:induction false} RunTwins(
    c: Config, digest: Bytes -> Bytes, calls: seq<Call>, walks: seq<seq<Key>>, start: int)
    requires c.Valid() && J.Configured(c) && Timed(calls) && |walks| == |calls|
    requires calls != [] ==> start <= calls[0].swept
    requires AllComparable(c, digest, calls, walks)
    ensures Twins(Run(c, digest, INITIAL, calls), J.Run(c, digest, calls, walks), Clock(calls, start))
    decreases |calls|
  {
    if calls != [] {
      hide Run, J.Run, Twins, Agree, AllComparable, Aged, Same;
      var n := |calls| - 1;
      ComparablePrefix(c, digest, calls, walks, n);
      RunTwins(c, digest, calls[..n], walks[..n], start);
      LastTwins(c, digest, calls, walks, start);
    } else {
      EmptyTwins(start);
    }
  }

  lemma EmptyTwins(start: int)
    ensures Twins(INITIAL, J.FRESH, start)
  {
  }

  /**
   * The two implementations answer every run alike - the same frames, the same transmissions,
   * the same refusals, call by call - as long as every call lies on the common ground, no frame
   * is evicted from the cache of sent frames, and polls visit the assemblies that are due in the
   * order in which they were begun, in whatever order the others come.
   */
  lemma {:induction false} TwinsAgree(
    c: Config, digest: Bytes -> Bytes, calls: seq<Call>, walks: seq<seq<Key>>, i: nat)
    requires c.Valid() && J.Configured(c) && Timed(calls) && |walks| == |calls| && i < |calls|
    requires AllComparable(c, digest, calls, walks)
    ensures Agree(OutcomeOf(c, digest, INITIAL, calls, i), J.ResultOf(c, digest, calls, walks, i))
    decreases |calls|
  {
    hide Run, J.Run, Apply, J.Apply, Twins, Agree, AllComparable;
    var n := |calls| - 1;
    ComparablePrefix(c, digest, calls, walks, n);
    if i == n {
      var start := calls[0].swept;
      RunTwins(c, digest, calls[..n], walks[..n], start);
      LastTwins(c, digest, calls, walks, start);
    } else {
      TwinsAgree(c, digest, calls[..n], walks[..n], i);
      assert calls[..n][..i] == calls[..i] && walks[..n][..i] == walks[..i];
    }
  }

  /** While no index is reused within a lifetime nothing is ever evicted. */
  lemma SparseNeverEvicts(c: Config, digest: Bytes -> Bytes, calls: seq<Call>, destination: string, swept: int)
    requires c.Valid() && Timed(calls) && (calls != [] ==> calls[|calls| - 1].now <= swept)
    requires R.Sparse(c, R.Encodes(c, digest, INITIAL, calls))
    ensures !Evicts(Sweep(c, Run(c, digest, INITIAL, calls), swept), destination)
  {
    hide Run, Apply, Sweep, R.Encodes, R.Sparse, R.TimesRise, R.Backed;
    var start := if calls == [] then swept else calls[0].swept;
    var s, log := Run(c, digest, INITIAL, calls), R.Encodes(c, digest, INITIAL, calls);
    R.RunBacked(c, digest, calls);
    R.RunTimes(c, digest, calls, start);
    RiseLater(log, Clock(calls, start), swept);
    R.SweepBacked(c, s, log, swept);
    R.SweptCacheSmall(c, Sweep(c, s, swept), log, swept);
  }

  lemma RiseLater(log: seq<R.Encoded>, clock: int, now: int)
    requires R.TimesRise(log, clock) && clock <= now
    ensures R.TimesRise(log, now)
  {
  }

  // ---- Deferred ----

  /**
   * "Deferred" on a received payload is the promise that the same call with repair traffic
   * allowed would have sent something - exactly, for requests; for fragments exactly unless
   * the budget looked full at clean-up.
   */
  lemma ReceiveDeferredIff(
    c: Config, digest: Bytes -> Bytes, t: J.Twin, source: string, payload: Bytes, swept: int, now: int)
    ensures var quiet := J.Receive(c, digest, t, source, payload, false, swept, now).result;
            var loud := J.Receive(c, digest, t, source, payload, true, swept, now).result;
      && (quiet.Refused? <==> loud.Refused?)
      && (quiet.Result? ==>
            && quiet.frames == loud.frames && quiet.transmissions == [] && !loud.deferred
            && (quiet.deferred <==>
                  && loud.transmissions != []
                  && (IsRequest(payload) || |J.Cleanup(c, t, swept).repairWindow| < c.maxRequests)))
  {
    hide Absorb, AppendRepairs, Missing, Join, HasDueRepair, J.Cleanup, J.Complete, DropOld;
    var t1 := J.Cleanup(c, t, swept);
    if !IsRequest(payload) && !J.Invalid(payload) {
      FileDeferredIff(c, digest, t1, Key(source, payload[0]), SignedByte(payload[1]), payload[2..], now);
    }
  }

  lemma FileDeferredIff(
    c: Config, digest: Bytes -> Bytes, t: J.Twin, key: Key, wire: int, body: Bytes, now: int)
    ensures var quiet := J.File(c, digest, t, key, wire, body, now, false).result;
            var loud := J.File(c, digest, t, key, wire, body, now, true).result;
      && quiet.Result? && loud.Result?
      && quiet.frames == loud.frames && quiet.transmissions == [] && !loud.deferred
      && (quiet.deferred <==> loud.transmissions != [] && |t.repairWindow| < c.maxRequests)
  {
    hide Absorb, AppendRepairs, Missing, Join, HasDueRepair, DropOld;
    var a := Absorb(J.AssemblyFor(t, key), wire, body, now);
    DropOldShrinks(t.repairWindow, now - c.window);
    AppendSendsIff(c, Repairs(a, t.repairWindow, []), key, Missing(a), now, 1, true);
  }

  /** With repair traffic allowed a poll never takes a request back and never defers. */
  lemma {:induction false} PollLoud(
    c: Config, t: J.Twin, keys: seq<Key>, now: int, maxRequests: int, sent: seq<Transmission>)
    ensures var q := J.PollFrom(c, t, keys, now, maxRequests, true, sent).result;
      q.Result? && |q.transmissions| >= |sent| && !q.deferred
    decreases |keys|
  {
    hide AppendRepairs, Missing, HasDueRepair;
    if keys == [] {
    } else if keys[0] !in t.assemblies || now - t.assemblies[keys[0]].updatedAt < c.cooldown {
      PollLoud(c, t, keys[1..], now, maxRequests, sent);
    } else {
      var a := t.assemblies[keys[0]];
      var start := Repairs(a, t.repairWindow, sent);
      var r := AppendRepairs(c, start, keys[0], Missing(a), now, maxRequests - |sent|, false);
      AppendNeverUnsends(c, start, keys[0], Missing(a), now, maxRequests - |sent|, false);
      PollLoud(
        c, t.(assemblies := t.assemblies[keys[0] := r.assembly], repairWindow := r.times), keys[1..], now,
        maxRequests, r.sent);
    }
  }

  lemma {:induction false} PollDeferred(
    c: Config, t: J.Twin, keys: seq<Key>, now: int, maxRequests: int)
    requires maxRequests >= 1
    ensures var quiet := J.PollFrom(c, t, keys, now, maxRequests, false, []).result;
            var loud := J.PollFrom(c, t, keys, now, maxRequests, true, []).result;
      && quiet.Result? && quiet.transmissions == [] && loud.Result? && !loud.deferred
      && (quiet.deferred <==> loud.transmissions != [] && |t.repairWindow| < c.maxRequests)
    decreases |keys|
  {
    hide AppendRepairs, Missing, HasDueRepair, DropOld;
    if keys == [] {
    } else if keys[0] !in t.assemblies || now - t.assemblies[keys[0]].updatedAt < c.cooldown {
      PollDeferred(c, t, keys[1..], now, maxRequests);
    } else {
      var a := t.assemblies[keys[0]];
      var start := Repairs(a, t.repairWindow, []);
      var r := AppendRepairs(c, start, keys[0], Missing(a), now, maxRequests, false);
      var t1 := t.(assemblies := t.assemblies[keys[0] := r.assembly], repairWindow := r.times);
      AppendSendsIff(c, start, keys[0], Missing(a), now, maxRequests, false);
      AppendNeverUnsends(c, start, keys[0], Missing(a), now, maxRequests, false);
      DropOldShrinks(t.repairWindow, now - c.window);
      if !HasDueRepair(c, a, Missing(a), now, false) {
        assert t1 == t;
        PollDeferred(c, t, keys[1..], now, maxRequests);
      } else {
        PollLoud(c, t1, keys[1..], now, maxRequests, r.sent);
      }
    }
  }

  /** The same promise for polls. */
  lemma PollDeferredIff(c: Config, t: J.Twin, keys: seq<Key>, maxRequests: int, swept: int, now: int)
    requires maxRequests >= 1
    ensures var quiet := J.Poll(c, t, keys, maxRequests, false, swept, now).result;
            var loud := J.Poll(c, t, keys, maxRequests, true, swept, now).result;
      && quiet.Result? && quiet.transmissions == [] && loud.Result? && !loud.deferred
      && (quiet.deferred <==>
            loud.transmissions != [] && |J.Cleanup(c, t, swept).repairWindow| < c.maxRequests)
  {
    hide J.PollFrom, J.Cleanup;
    PollDeferred(c, J.Cleanup(c, t, swept), keys, now, maxRequests);
  }

  /**
   * The exception occurs: a budget that looks full at clean-up has room again at the second
   * clock reading, so the call would have sent a request but does not report one as deferred.
   */
  lemma DeferredTooLate()
    ensures var c := Config(200, 1000, 5, 3, 1, 10);
            var key := Key("a", 7);
            var waiting := Assembly(0, map[3 := [1]], Some(3), map[], map[]);
            var t := J.FRESH.(assemblies := map[key := waiting], repairWindow := [0]);
            var digest: Bytes -> Bytes := frame => frame;
      && J.Configured(c)
      && !J.Receive(c, digest, t, "a", [7, 1, 9], false, 9, 10).result.deferred
      && J.Receive(c, digest, t, "a", [7, 1, 9], true, 9, 10).result.transmissions
         == [Transmission("a", Request(7, 2), Repair)]
  {
    var c := Config(200, 1000, 5, 3, 1, 10);
    var key := Key("a", 7);
    var waiting := Assembly(0, map[3 := [1]], Some(3), map[], map[]);
    var t := J.FRESH.(assemblies := map[key := waiting], repairWindow := [0]);
    var digest: Bytes -> Bytes := frame => frame;
    var t1 := J.Cleanup(c, t, 9);
    assert t1.repairWindow == [0] && t1.assemblies == t.assemblies && t1.completedIndices == map[];
    var a := Absorb(J.AssemblyFor(t1, key), 1, [9], 10);
    assert a.fragments == map[3 := [1], 1 := [9]] && a.final == Some(3) && a.attempts == map[];
    assert Missing(a) == [2] by {
      OneMissing(a.fragments);
    }
    OneRequest(c, a, key);
  }

  lemma OneMissing(fragments: map<nat, Bytes>)
    requires fragments.Keys == {1, 3}
    ensures MissingFrom(fragments, 1, 3) == [2]
  {
    assert MissingFrom(fragments, 4, 3) == [];
    assert MissingFrom(fragments, 3, 3) == [];
    assert MissingFrom(fragments, 2, 3) == [2];
  }

  lemma OneRequest(c: Config, a: Assembly, key: Key)
    requires c.window == 10 && c.maxRequests == 1 && c.maxAttempts == 3 && a.attempts == map[]
    ensures AppendRepairs(c, Repairs(a, [0], []), key, [2], 10, 1, true).sent
         == [Transmission(key.source, Request(key.index, 2), Repair)]
  {
    assert DropOld([0], 0) == [] by {
      assert [0][1..] == [];
    }
    assert [2][1..] == [];
  }
}
