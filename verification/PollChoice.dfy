/** On whose behalf a poll for one request asks, and for what. */
module PollChoice {
  import opened Common
  import opened OrderedMaps
  import opened Fragments
  import opened FragmentSpec
  import opened FragmentFacts

  /** One position of one frame. */
  datatype Ask = Ask(key: Key, position: nat)

  function RequestFor(ask: Option<Ask>): Option<Transmission> {
    if ask.None? then None
    else Some(Transmission(ask.value.key.source, Request(ask.value.key.index, ask.value.position), Repair))
  }

  /** A poll at `now` would ask for something on behalf of `key`, given budget. */
  predicate Due(c: Config, s: State, key: Key, now: int) {
    && key in s.assemblies.at
    && var a := s.assemblies.at[key];
    && now - a.updatedAt >= c.cooldown
    && HasDueRepair(c, a, Missing(a), now, false)
  }

  /** There is room for one more request. */
  predicate Room(c: Config, s: State, now: int) {
    |DropOld(s.requestTimes, now - c.window)| < c.maxRequests
  }

  function FirstDue(c: Config, s: State, keys: seq<Key>, now: int): Option<Key> {
    if keys == [] then None
    else if Due(c, s, keys[0], now) then Some(keys[0])
    else FirstDue(c, s, keys[1..], now)
  }

  function FirstAskable(c: Config, a: Assembly, missing: seq<nat>, now: int, immediate: bool): (p: Option<nat>)
    ensures p.Some? ==> p.value in missing && Askable(c, a, p.value, now, immediate)
  {
    if missing == [] then None
    else if Askable(c, a, missing[0], now, immediate) then Some(missing[0])
    else FirstAskable(c, a, missing[1..], now, immediate)
  }

  lemma {:induction false} FirstAskableIff(c: Config, a: Assembly, missing: seq<nat>, now: int, immediate: bool)
    ensures FirstAskable(c, a, missing, now, immediate).Some? <==> HasDueRepair(c, a, missing, now, immediate)
  {
    hide Askable;
    if missing != [] && !Askable(c, a, missing[0], now, immediate) {
      var rest := missing[1..];
      FirstAskableIff(c, a, rest, now, immediate);
      if HasDueRepair(c, a, missing, now, immediate) {
        var i :| 0 <= i < |missing| && Askable(c, a, missing[i], now, immediate);
        assert Askable(c, a, rest[i - 1], now, immediate);
      }
      if HasDueRepair(c, a, rest, now, immediate) {
        var i :| 0 <= i < |rest| && Askable(c, a, rest[i], now, immediate);
        assert Askable(c, a, missing[i + 1], now, immediate);
      }
    } else if missing != [] {
      assert Askable(c, a, missing[0], now, immediate);
    }
  }

  /** With budget for one request, the first position that may be asked for is asked for. */
  lemma {:induction false} AppendOneIs(
    c: Config, r: Repairs, key: Key, missing: seq<nat>, now: int, immediate: bool)
    requires |DropOld(r.times, now - c.window)| < c.maxRequests
    ensures var m := FirstAskable(c, r.assembly, missing, now, immediate);
      AppendRepairs(c, r, key, missing, now, 1, immediate)
      == if m.None? then r
         else RequestOne(c, r.(times := DropOld(r.times, now - c.window)), key, m.value, now)
    decreases |missing|
  {
    hide DropOld, RepairDue;
    if missing != [] && !Askable(c, r.assembly, missing[0], now, immediate) {
      AppendOneIs(c, r, key, missing[1..], now, immediate);
    }
  }

  /** The state after a poll for one request has asked for position `m` on behalf of `key`. */
  function AskedFor(c: Config, s: State, key: Key, m: nat, now: int): Reply
    requires key in s.assemblies.at
  {
    var r := RequestOne(
      c, Repairs(s.assemblies.at[key], DropOld(s.requestTimes, now - c.window), []), key, m, now);
    Reply(s.(assemblies := s.assemblies.Put(key, r.assembly), requestTimes := r.times), Done([], r.sent))
  }

  /** A poll for one request, with room for it, asks for the first position due of the first assembly due. */
  lemma {:induction false} PollOneIs(c: Config, s: State, keys: seq<Key>, now: int)
    requires Room(c, s, now)
    ensures var k := FirstDue(c, s, keys, now);
      if k.None? then PollFrom(c, s, keys, now, 1, true, []) == Reply(s, Done([], []))
      else
        && k.value in s.assemblies.at
        && var a := s.assemblies.at[k.value]; var m := FirstAskable(c, a, Missing(a), now, false);
        && m.Some?
        && PollFrom(c, s, keys, now, 1, true, []) == AskedFor(c, s, k.value, m.value, now)
    decreases |keys|
  {
    hide AppendRepairs, Missing, FirstAskable, HasDueRepair, DropOld;
    if keys != [] {
      var k := keys[0];
      if k in s.assemblies.at && now - s.assemblies.at[k].updatedAt >= c.cooldown {
        var a := s.assemblies.at[k];
        FirstAskableIff(c, a, Missing(a), now, false);
        AppendOneIs(c, Repairs(a, s.requestTimes, []), k, Missing(a), now, false);
        if Due(c, s, k, now) {
          var next := AskedFor(c, s, k, FirstAskable(c, a, Missing(a), now, false).value, now);
          PollDone(c, next.state, keys[1..], now, 1, true, next.outcome.transmissions);
        } else {
          assert s.(assemblies := s.assemblies.Put(k, a), requestTimes := s.requestTimes) == s;
          PollOneIs(c, s, keys[1..], now);
        }
      } else {
        PollOneIs(c, s, keys[1..], now);
      }
    }
  }

  /** Without room it asks for nothing. */
  lemma {:induction false} PollNone(c: Config, s: State, keys: seq<Key>, now: int)
    requires c.Valid() && !Room(c, s, now)
    ensures PollFrom(c, s, keys, now, 1, true, []).outcome == Done([], [])
    decreases |keys|
  {
    hide AppendRepairs, Missing, HasDueRepair, DropOld;
    if keys != [] {
      var k := keys[0];
      if k in s.assemblies.at && now - s.assemblies.at[k].updatedAt >= c.cooldown {
        var a := s.assemblies.at[k];
        var start := Repairs(a, s.requestTimes, []);
        AppendSendsIff(c, start, k, Missing(a), now, 1, false);
        AppendNeverUnsends(c, start, k, Missing(a), now, 1, false);
        var r := AppendRepairs(c, start, k, Missing(a), now, 1, false);
        AppendKeepsFull(c, start, k, Missing(a), now, 1, false);
        PollNone(
          c, s.(assemblies := s.assemblies.Put(k, r.assembly), requestTimes := r.times), keys[1..], now);
      } else {
        PollNone(c, s, keys[1..], now);
      }
    }
  }

  lemma {:induction false} DropOldTwice(times: seq<int>, early: int, late: int)
    requires early <= late
    ensures DropOld(DropOld(times, early), late) == DropOld(times, late)
  {
    if times != [] && times[0] <= early {
      DropOldTwice(times[1..], early, late);
    }
  }

  /** A full window stays full while nothing can be written. */
  lemma {:induction false} AppendKeepsFull(
    c: Config, r: Repairs, key: Key, missing: seq<nat>, now: int, budget: int, immediate: bool)
    requires |DropOld(r.times, now - c.window)| >= c.maxRequests
    ensures var r' := AppendRepairs(c, r, key, missing, now, budget, immediate);
      DropOld(r'.times, now - c.window) == DropOld(r.times, now - c.window)
    decreases |missing|
  {
    hide RepairDue, DropOld;
    DropOldTwice(r.times, now - c.window, now - c.window);
    if missing != [] && budget > 0 && !Askable(c, r.assembly, missing[0], now, immediate) {
      AppendKeepsFull(c, r, key, missing[1..], now, budget, immediate);
    }
  }

  // ---- Whose turn it is ----

  /** `x` stands before `y`. */
  ghost predicate Precedes<K>(order: seq<K>, x: K, y: K) {
    exists i, j :: 0 <= i < j < |order| && order[i] == x && order[j] == y
  }

  /** Every assembly that is due but not wanted was begun after one that is wanted. */
  ghost predicate Clear(c: Config, s: State, wanted: set<Key>, now: int) {
    forall x :: x in s.assemblies.order && x !in wanted && Due(c, s, x, now)
      ==> exists y :: y in wanted && Precedes(s.assemblies.order, y, x)
  }

  lemma {:induction false} FirstDueSpec(c: Config, s: State, keys: seq<Key>, now: int) returns (i: nat)
    ensures FirstDue(c, s, keys, now).None? ==> forall j :: 0 <= j < |keys| ==> !Due(c, s, keys[j], now)
    ensures FirstDue(c, s, keys, now).Some? ==>
              && i < |keys| && FirstDue(c, s, keys, now) == Some(keys[i]) && Due(c, s, keys[i], now)
              && forall j :: 0 <= j < i ==> !Due(c, s, keys[j], now)
  {
    hide Due;
    i := 0;
    if keys != [] && !Due(c, s, keys[0], now) {
      i := FirstDueSpec(c, s, keys[1..], now);
      i := i + 1;
      assert forall j :: 1 <= j < |keys| ==> keys[j] == keys[1..][j - 1];
    }
  }

  /**
   * When several assemblies are wanted and all of them are due, a poll asks on behalf of one of
   * them if and only if nothing unwanted that is due was begun before them all; otherwise it
   * asks on behalf of the unwanted one.
   */
  lemma WantedFirstIff(c: Config, s: State, wanted: set<Key>, now: int)
    requires s.assemblies.Valid() && wanted != {}
    requires forall k :: k in wanted ==> Due(c, s, k, now)
    ensures var k := FirstDue(c, s, s.assemblies.order, now);
      && k.Some? && Due(c, s, k.value, now)
      && (k.value in wanted <==> Clear(c, s, wanted, now))
  {
    hide Due, FirstDue;
    var order := s.assemblies.order;
    var i := FirstDueSpec(c, s, order, now);
    forall k | Due(c, s, k, now) ensures k in order {
      DueHeld(c, s, k, now);
      assert k in Elements(order);
    }
    var w :| w in wanted;
    var at :| 0 <= at < |order| && order[at] == w;
    assert FirstDue(c, s, order, now).Some?;
    if order[i] in wanted {
      forall x | x in order && x !in wanted && Due(c, s, x, now)
        ensures exists y :: y in wanted && Precedes(order, y, x)
      {
        var j :| 0 <= j < |order| && order[j] == x;
        assert i < j;
        assert Precedes(order, order[i], x);
      }
    }
  }

  lemma DueHeld(c: Config, s: State, k: Key, now: int)
    requires Due(c, s, k, now)
    ensures k in s.assemblies.at
  {
  }
}
