/** The bounded route cache against everything that was ever taught. */
module RouterHistory {
  import opened Common
  import opened OrderedMaps
  import opened PeerRouterSpec

  // ---- Histories ----

  lemma LastIndexSnoc(touches: seq<Touch>, t: Touch, key: string)
    ensures LastIndex(touches + [t], key) == if t.key == key then |touches| else LastIndex(touches, key)
    ensures LastTeacher(touches + [t], key)
         == if t.key == key && t.teacher.Some? then t.teacher else LastTeacher(touches, key)
  {
    assert (touches + [t])[..|touches|] == touches;
  }

  lemma SinceSnoc(touches: seq<Touch>, t: Touch, key: string)
    ensures Since(touches + [t], key) == if t.key == key then {} else Since(touches, key) + {t.key}
  {
    LastIndexSnoc(touches, t, key);
    var all := touches + [t];
    if t.key != key {
      forall k ensures k in Since(all, key) <==> k in Since(touches, key) + {t.key} {
        if k in Since(touches, key) {
          var i :| LastIndex(touches, key) < i < |touches| && touches[i].key == k;
          assert all[i].key == k;
        }
        if k == t.key {
          assert all[|touches|].key == k;
        }
      }
    }
  }

  lemma {:induction false} LastIndexIsLast(touches: seq<Touch>, key: string, i: nat)
    requires i < |touches| && touches[i].key == key
    ensures LastIndex(touches, key) >= i
  {
    if touches[|touches| - 1].key != key {
      LastIndexIsLast(touches[..|touches| - 1], key, i);
    }
  }

  /** The keys touched since are those whose own last touch is later. */
  lemma SinceByIndex(touches: seq<Touch>, key: string, k: string)
    ensures k in Since(touches, key) <==> LastIndex(touches, k) > LastIndex(touches, key)
  {
    if k in Since(touches, key) {
      var i :| LastIndex(touches, key) < i < |touches| && touches[i].key == k;
      LastIndexIsLast(touches, k, i);
    }
    var last := LastIndex(touches, k);
    if last > LastIndex(touches, key) {
      assert touches[last].key in Since(touches, key);
    }
  }

  // ---- The invariant ----

  ghost predicate Rising(touches: seq<Touch>, clock: int) {
    && (forall i, j :: 0 <= i <= j < |touches| ==> touches[i].at <= touches[j].at)
    && (forall i :: 0 <= i < |touches| ==> touches[i].at <= clock)
  }

  /** A resident route names the last teacher and carries the time of the last touch. */
  ghost predicate Faithful(route: Route, touches: seq<Touch>, key: string) {
    var i := LastIndex(touches, key);
    i >= 0 && route.seenAt == touches[i].at && LastTeacher(touches, key) == Some(route.node)
  }

  /** Map order is the order of the last touches. */
  ghost predicate Ranked(order: seq<string>, touches: seq<Touch>) {
    forall i, j :: 0 <= i < j < |order| ==> LastIndex(touches, order[i]) < LastIndex(touches, order[j])
  }

  /** A forgotten key has expired or has been overtaken by 512 others. */
  ghost predicate Forgotten(touches: seq<Touch>, key: string, clock: int) {
    var i := LastIndex(touches, key);
    i >= 0 ==> clock - touches[i].at > ROUTE_TTL || |Since(touches, key)| >= MAX_ROUTES
  }

  /** Nothing touched later than a resident key is missing. */
  ghost predicate Closed(routes: OMap<string, Route>, touches: seq<Touch>) {
    forall k, x :: k in routes.at && LastIndex(touches, x) > LastIndex(touches, k) ==> x in routes.at
  }

  ghost predicate Mirrors(routes: OMap<string, Route>, touches: seq<Touch>, clock: int) {
    && routes.Valid()
    && Ranked(routes.order, touches)
    && Closed(routes, touches)
    && (forall k :: k in routes.at ==> Faithful(routes.at[k], touches, k))
    && (forall k :: k !in routes.at ==> Forgotten(touches, k, clock))
  }

  // ---- Forgetting old routes ----

  lemma {:induction false} SelectRanked(order: seq<string>, keep: set<string>, touches: seq<Touch>)
    requires Ranked(order, touches)
    ensures Ranked(Select(order, keep), touches)
  {
    if order != [] {
      var rest := order[1..];
      assert Ranked(rest, touches) by {
        assert forall i :: 0 <= i < |rest| ==> rest[i] == order[i + 1];
      }
      SelectRanked(rest, keep, touches);
      SelectMembers(rest, keep);
      var tail := Select(rest, keep);
      forall j | 0 <= j < |tail| ensures LastIndex(touches, order[0]) < LastIndex(touches, tail[j]) {
        assert tail[j] in Elements(tail);
        var i :| 0 <= i < |rest| && rest[i] == tail[j];
        assert rest[i] == order[i + 1];
      }
    }
  }

  lemma PruneMirrors(s: State, touches: seq<Touch>, clock: int, now: int)
    requires Mirrors(s.routes, touches, clock) && Rising(touches, clock) && clock <= now
    ensures Mirrors(Prune(s, now).routes, touches, now)
    ensures forall k :: k in Prune(s, now).routes.at ==>
              now - touches[LastIndex(touches, k)].at <= ROUTE_TTL
  {
    hide LastIndex, LastTeacher, Since;
    var keep := set k | k in s.routes.at && now - s.routes.at[k].seenAt <= ROUTE_TTL;
    var t := Prune(s, now).routes;
    KeepOnlyValid(s.routes, keep);
    SelectRanked(s.routes.order, keep, touches);
    assert forall k :: k in t.at ==> k in s.routes.at && Faithful(s.routes.at[k], touches, k);
    forall k, x | k in t.at && LastIndex(touches, x) > LastIndex(touches, k) ensures x in t.at {
      assert x in s.routes.at;
      assert Faithful(s.routes.at[x], touches, x);
    }
    forall k | k !in t.at ensures Forgotten(touches, k, now) {
      if k in s.routes.at {
        assert Faithful(s.routes.at[k], touches, k);
      } else {
        assert Forgotten(touches, k, clock);
      }
    }
  }

  // ---- Touching a key ----

  /** The map just after `key` has been moved or put at the end and stamped. */
  ghost predicate Stamped(routes: OMap<string, Route>, t: OMap<string, Route>, key: string, route: Route) {
    && t.Valid()
    && t.at == routes.at[key := route]
    && exists rest: seq<string> ::
         t.order == rest + [key] && rest == Select(routes.order, Elements(routes.order) - {key})
  }

  lemma TouchRanked(
    routes: OMap<string, Route>, t: OMap<string, Route>, key: string, route: Route, touches: seq<Touch>, e: Touch)
    requires Ranked(routes.order, touches) && Stamped(routes, t, key, route) && e.key == key
    ensures Ranked(t.order, touches + [e])
  {
    hide LastIndex, LastTeacher;
    var rest := t.order[..|t.order| - 1];
    SelectRanked(routes.order, Elements(routes.order) - {key}, touches);
    SelectMembers(routes.order, Elements(routes.order) - {key});
    forall i, j | 0 <= i < j < |t.order|
      ensures LastIndex(touches + [e], t.order[i]) < LastIndex(touches + [e], t.order[j])
    {
      assert t.order[i] == rest[i] && rest[i] in Elements(rest);
      LastIndexSnoc(touches, e, t.order[i]);
      LastIndexSnoc(touches, e, t.order[j]);
      IndexBelow(touches, t.order[i]);
      if j < |rest| {
        assert t.order[j] == rest[j] && rest[j] in Elements(rest);
      }
    }
  }

  lemma IndexBelow(touches: seq<Touch>, key: string)
    ensures LastIndex(touches, key) < |touches|
  {
  }

  /** Touching a key keeps the invariant, whether it was resident or not. */
  lemma TouchMirrors(
    routes: OMap<string, Route>, t: OMap<string, Route>, key: string, route: Route, touches: seq<Touch>,
    e: Touch, now: int)
    requires Mirrors(routes, touches, now) && Stamped(routes, t, key, route)
    requires e.key == key && e.at == now && route.seenAt == now
    requires if e.teacher.Some? then e.teacher.value == route.node
             else key in routes.at && routes.at[key].node == route.node
    ensures Mirrors(t, touches + [e], now)
  {
    hide LastIndex, LastTeacher, Since, Stamped, Ranked, Closed, Forgotten;
    var all := touches + [e];
    TouchRanked(routes, t, key, route, touches, e);
    StampedMeans(routes, t, key, route);
    forall k | k in t.at ensures Faithful(t.at[k], all, k) {
      LastIndexSnoc(touches, e, k);
      if k in routes.at {
        assert Faithful(routes.at[k], touches, k);
      }
    }
    forall k | k !in t.at ensures Forgotten(all, k, now) {
      StillForgotten(touches, e, k, now);
    }
    TouchClosed(routes, t, touches, e);
  }

  lemma StillForgotten(touches: seq<Touch>, e: Touch, key: string, now: int)
    requires Forgotten(touches, key, now) && e.key != key
    ensures Forgotten(touches + [e], key, now)
  {
    hide LastIndex, LastTeacher, Since;
    LastIndexSnoc(touches, e, key);
    SinceSnoc(touches, e, key);
    SubsetCardinality(Since(touches, key), Since(touches + [e], key));
  }

  lemma TouchClosed(routes: OMap<string, Route>, t: OMap<string, Route>, touches: seq<Touch>, e: Touch)
    requires Closed(routes, touches) && t.at.Keys == routes.at.Keys + {e.key}
    ensures Closed(t, touches + [e])
  {
    hide LastIndex, LastTeacher;
    var all := touches + [e];
    forall k, x | k in t.at && LastIndex(all, x) > LastIndex(all, k) ensures x in t.at {
      LastIndexSnoc(touches, e, k);
      LastIndexSnoc(touches, e, x);
      IndexBelow(touches, x);
    }
  }

  lemma StampedMeans(routes: OMap<string, Route>, t: OMap<string, Route>, key: string, route: Route)
    requires Stamped(routes, t, key, route)
    ensures t.Valid() && t.at == routes.at[key := route] && t.at.Keys == routes.at.Keys + {key}
  {
  }

  // ---- Eviction ----

  lemma {:induction false} RankedAfterFirst(order: seq<string>, touches: seq<Touch>)
    requires Ranked(order, touches) && order != []
    ensures Elements(order[1..]) <= Since(touches, order[0])
  {
    hide LastIndex, Since;
    forall k | k in order[1..] ensures k in Since(touches, order[0]) {
      var i :| 0 <= i < |order| - 1 && order[i + 1] == k;
      SinceByIndex(touches, order[0], k);
    }
  }

  /** The evicted route has been overtaken by 512 other keys. */
  lemma EvictOvertaken(order: seq<string>, touches: seq<Touch>)
    requires Ranked(order, touches) && Distinct(order) && |order| > MAX_ROUTES
    ensures |Since(touches, order[0])| >= MAX_ROUTES
  {
    hide LastIndex, Since, Ranked;
    var rest := order[1..];
    RankedAfterFirst(order, touches);
    assert Distinct(rest) by {
      assert forall i :: 0 <= i < |rest| ==> rest[i] == order[i + 1];
    }
    DistinctCardinality(rest);
    SubsetCardinality(Elements(rest), Since(touches, order[0]));
  }

  lemma FirstIsOldest(routes: OMap<string, Route>, touches: seq<Touch>, k: string)
    requires routes.Valid() && routes.order != [] && Ranked(routes.order, touches)
    requires k in routes.at && k != routes.order[0]
    ensures LastIndex(touches, routes.order[0]) < LastIndex(touches, k)
  {
    hide LastIndex;
    assert k in Elements(routes.order);
    var i :| 0 <= i < |routes.order| && routes.order[i] == k;
  }

  lemma EvictClosed(routes: OMap<string, Route>, touches: seq<Touch>)
    requires routes.Valid() && routes.order != [] && Ranked(routes.order, touches) && Closed(routes, touches)
    ensures var t := routes.Remove(routes.order[0]);
      t.Valid() && Ranked(t.order, touches) && Closed(t, touches)
  {
    hide LastIndex, Select;
    RemoveFirst(routes);
    var first, t := routes.order[0], routes.Remove(routes.order[0]);
    assert forall i :: 0 <= i < |t.order| ==> t.order[i] == routes.order[i + 1];
    forall k, x | k in t.at && LastIndex(touches, x) > LastIndex(touches, k) ensures x in t.at {
      FirstIsOldest(routes, touches, k);
    }
  }

  lemma EvictMirrors(routes: OMap<string, Route>, touches: seq<Touch>, now: int)
    requires Mirrors(routes, touches, now) && |routes.order| > MAX_ROUTES
    ensures Mirrors(routes.Remove(routes.order[0]), touches, now)
  {
    hide LastIndex, LastTeacher, Since, Ranked, Closed;
    EvictClosed(routes, touches);
    EvictOvertaken(routes.order, touches);
    var first, t := routes.order[0], routes.Remove(routes.order[0]);
    forall k | k !in t.at ensures Forgotten(touches, k, now) {
      if k != first {
        assert k !in routes.at;
      }
    }
  }

  lemma {:induction false} TrimMirrors(routes: OMap<string, Route>, touches: seq<Touch>, now: int)
    requires Mirrors(routes, touches, now)
    ensures Mirrors(TrimFront(routes, MAX_ROUTES), touches, now)
    ensures |TrimFront(routes, MAX_ROUTES).order| <= MAX_ROUTES
    decreases |routes.order|
  {
    hide Mirrors;
    if |routes.order| > MAX_ROUTES {
      EvictMirrors(routes, touches, now);
      MirrorsValid(routes, touches, now);
      RemoveFirst(routes);
      TrimMirrors(routes.Remove(routes.order[0]), touches, now);
    }
  }

  lemma MirrorsValid(routes: OMap<string, Route>, touches: seq<Touch>, now: int)
    requires Mirrors(routes, touches, now)
    ensures routes.Valid()
  {
  }

  // ---- Learning ----

  lemma StampResident(routes: OMap<string, Route>, key: string, route: Route)
    requires routes.Valid() && key in routes.at
    ensures var got := Touched(routes, key); Stamped(routes, got.(at := got.at[key := route]), key, route)
  {
    MoveToEndValid(routes, key);
    var got := Touched(routes, key);
    var t := got.(at := got.at[key := route]);
    assert t.at.Keys == got.at.Keys;
    assert t.order == Select(routes.order, Elements(routes.order) - {key}) + [key];
  }

  lemma StampPut(routes: OMap<string, Route>, key: string, route: Route)
    requires routes.Valid()
    ensures Stamped(routes, PutTouched(Touched(routes, key), key, route), key, route)
  {
    var got := Touched(routes, key);
    if key in routes.at {
      MoveToEndValid(routes, key);
      MoveTwice(routes.order, key);
    } else {
      assert key !in Elements(routes.order);
      SelectAll(routes.order, Elements(routes.order) - {key});
      SelectOthers(routes.order, key);
    }
    PutTouchedValid(got, key, route);
    var t := PutTouched(got, key, route);
    assert t.order == Select(routes.order, Elements(routes.order) - {key}) + [key];
  }

  lemma MoveTwice(order: seq<string>, key: string)
    ensures var rest := Select(order, Elements(order) - {key});
      Select(rest + [key], Elements(rest + [key]) - {key}) == rest
  {
    SelectMembers(order, Elements(order) - {key});
    var rest := Select(order, Elements(order) - {key});
    assert key !in Elements(rest);
    SelectOthers(rest, key);
  }

  lemma LearnMirrors(routes: OMap<string, Route>, key: string, node: string, touches: seq<Touch>, now: int)
    requires Mirrors(routes, touches, now) && |routes.order| <= MAX_ROUTES
    ensures var t := Learn(routes, key, node, now);
      Mirrors(t, touches + [Touch(key, now, Some(node))], now) && |t.order| <= MAX_ROUTES
  {
    hide Mirrors, Stamped;
    MirrorsValid(routes, touches, now);
    var e, route := Touch(key, now, Some(node)), Route(node, now);
    var got := Touched(routes, key);
    if key in got.at && got.at[key].node == node {
      StampResident(routes, key, route);
      TouchMirrors(routes, got.(at := got.at[key := route]), key, route, touches, e, now);
      MoveLength(routes, key);
    } else {
      StampPut(routes, key, route);
      TouchMirrors(routes, PutTouched(got, key, route), key, route, touches, e, now);
      TrimMirrors(PutTouched(got, key, route), touches + [e], now);
    }
  }

  lemma MoveLength(routes: OMap<string, Route>, key: string)
    requires routes.Valid() && key in routes.at
    ensures |Touched(routes, key).order| == |routes.order|
  {
    MoveToEndValid(routes, key);
    DistinctCardinality(routes.order);
    DistinctCardinality(Touched(routes, key).order);
  }

  lemma {:induction false} LearnAllMirrors(
    routes: OMap<string, Route>, keys: seq<string>, node: string, touches: seq<Touch>, now: int)
    requires Mirrors(routes, touches, now) && |routes.order| <= MAX_ROUTES
    ensures var t := LearnAll(routes, keys, node, now);
      Mirrors(t, touches + Teachings(keys, node, now), now) && |t.order| <= MAX_ROUTES
  {
    hide Mirrors, Learn;
    if keys == [] {
      assert touches + Teachings(keys, node, now) == touches;
    } else {
      var before, key := keys[..|keys| - 1], keys[|keys| - 1];
      LearnAllMirrors(routes, before, node, touches, now);
      LearnMirrors(LearnAll(routes, before, node, now), key, node, touches + Teachings(before, node, now), now);
      assert Teachings(keys, node, now) == Teachings(before, node, now) + [Touch(key, now, Some(node))];
      assert touches + Teachings(before, node, now) + [Touch(key, now, Some(node))]
          == touches + Teachings(keys, node, now);
    }
  }

  // ---- Whole runs ----

  ghost predicate Good(s: State, touches: seq<Touch>, clock: int) {
    && Mirrors(s.routes, touches, clock)
    && Rising(touches, clock)
    && |s.routes.order| <= MAX_ROUTES
    && s.peers.Valid() && |s.peers.order| <= MAX_PEERS
  }

  lemma PruneGood(s: State, touches: seq<Touch>, clock: int, now: int)
    requires Good(s, touches, clock) && clock <= now
    ensures Good(Prune(s, now), touches, now)
    ensures forall k :: k in Prune(s, now).routes.at ==> now - touches[LastIndex(touches, k)].at <= ROUTE_TTL
  {
    hide Mirrors;
    PruneMirrors(s, touches, clock, now);
    SelectMembers(s.routes.order, set k | k in s.routes.at && now - s.routes.at[k].seenAt <= ROUTE_TTL);
    KeepOnlyValid(s.peers, set k | k in s.peers.at && now - s.peers.at[k] <= ROUTE_TTL);
    SelectMembers(s.peers.order, set k | k in s.peers.at && now - s.peers.at[k] <= ROUTE_TTL);
  }

  lemma HeardBounded(peers: OMap<string, int>, node: string, now: int)
    requires peers.Valid() && |peers.order| <= MAX_PEERS
    requires node in peers.at || |peers.order| < MAX_PEERS
    ensures Heard(peers, node, now).Valid() && |Heard(peers, node, now).order| <= MAX_PEERS
  {
    if node in peers.at {
      MoveToEndValid(peers, node);
      DistinctCardinality(peers.order);
      DistinctCardinality(Touched(peers, node).order);
      assert Heard(peers, node, now).at.Keys == Touched(peers, node).at.Keys;
    } else {
      MoveNewKey(peers, node, now);
      PutValid(peers, node, now);
    }
  }

  lemma RisingMore(touches: seq<Touch>, more: seq<Touch>, now: int)
    requires Rising(touches, now) && forall i :: 0 <= i < |more| ==> more[i].at == now
    ensures Rising(touches + more, now)
  {
  }

  lemma ObserveGood(
    s: State, touches: seq<Touch>, clock: int, node: Option<string>, md: Option<Metadata>, now: int)
    requires Good(s, touches, clock) && clock <= now
    ensures Good(Observe(s, node, md, now), touches + TouchesOf(s, Inbound(node, md, now)), now)
  {
    hide Mirrors, Rising, Prune, Heard, Taught, LearnAll;
    PruneGood(s, touches, clock, now);
    var s1 := Prune(s, now);
    assert touches + [] == touches;
    if node.Some? && AcceptsPeer(s1, node.value) {
      HeardBounded(s1.peers, node.value, now);
      if md.Some? {
        var keys := Taught(md.value);
        LearnAllMirrors(s1.routes, keys, node.value, touches, now);
        RisingMore(touches, Teachings(keys, node.value, now), now);
      }
    }
  }

  lemma DestinationGood(
    s: State, touches: seq<Touch>, clock: int, md: Option<Metadata>, opaqueIfac: bool, now: int)
    requires Good(s, touches, clock) && clock <= now
    ensures Good(
      DestinationFor(s, md, opaqueIfac, now).state, touches + TouchesOf(s, Outbound(md, opaqueIfac, now)), now)
  {
    hide Mirrors, Rising, Prune, Touched;
    PruneGood(s, touches, clock, now);
    var s1 := Prune(s, now);
    assert touches + [] == touches;
    if Addressed(md) && md.value.destinationHash in s1.routes.at {
      var key := md.value.destinationHash;
      var route := Route(s1.routes.at[key].node, now);
      MirrorsValid(s1.routes, touches, now);
      StampResident(s1.routes, key, route);
      MoveLength(s1.routes, key);
      var got := Touched(s1.routes, key);
      TouchMirrors(s1.routes, got.(at := got.at[key := route]), key, route, touches, Touch(key, now, None), now);
      RisingMore(touches, [Touch(key, now, None)], now);
    }
  }

  function Clock(steps: seq<Step>, start: int): int {
    if steps == [] then start else steps[|steps| - 1].now
  }

  lemma {:induction false} RunGood(steps: seq<Step>, start: int)
    requires Timed(steps) && (steps != [] ==> start <= steps[0].now)
    ensures Good(Run(steps), History(steps), Clock(steps, start))
  {
    if steps == [] {
      InitialGood(start);
    } else {
      hide Good, TouchesOf, Observe, DestinationFor;
      var n := |steps| - 1;
      RunGood(steps[..n], start);
      match steps[n]
      case Inbound(node, md, now) =>
        ObserveGood(Run(steps[..n]), History(steps[..n]), Clock(steps[..n], start), node, md, now);
      case Outbound(md, opaqueIfac, now) =>
        DestinationGood(Run(steps[..n]), History(steps[..n]), Clock(steps[..n], start), md, opaqueIfac, now);
    }
  }

  lemma InitialGood(clock: int)
    ensures Good(INITIAL, [], clock)
  {
    assert forall k: string :: Forgotten([], k, clock);
  }

  /** Peers stay at most 32 and routes at most 512 in every reachable state. */
  lemma StaysBounded(steps: seq<Step>)
    requires Timed(steps)
    ensures |Run(steps).routes.order| <= 512 && |Run(steps).peers.order| <= 32
    ensures Run(steps).routes.Valid() && Run(steps).peers.Valid()
  {
    hide Run, Mirrors, Rising;
    RunGood(steps, if steps == [] then 0 else steps[0].now);
    MirrorsValid(Run(steps).routes, History(steps), Clock(steps, 0));
  }

  /** Map order agrees with the order of the time stamps. */
  lemma OrderIsAge(steps: seq<Step>, i: nat, j: nat)
    requires Timed(steps) && i <= j < |Run(steps).routes.order|
    ensures var m := Run(steps).routes;
      m.order[i] in m.at && m.order[j] in m.at && m.at[m.order[i]].seenAt <= m.at[m.order[j]].seenAt
  {
    hide Run, History, Mirrors, Rising;
    var start := if steps == [] then 0 else steps[0].now;
    RunGood(steps, start);
    RankedAges(Run(steps).routes, History(steps), Clock(steps, start), i, j);
  }

  lemma RankedAges(m: OMap<string, Route>, touches: seq<Touch>, clock: int, i: nat, j: nat)
    requires Mirrors(m, touches, clock) && Rising(touches, clock) && i <= j < |m.order|
    ensures m.order[i] in m.at && m.order[j] in m.at && m.at[m.order[i]].seenAt <= m.at[m.order[j]].seenAt
  {
    hide LastIndex, LastTeacher, Since, Closed, Forgotten;
    assert m.order[i] in Elements(m.order) && m.order[j] in Elements(m.order);
    assert Faithful(m.at[m.order[i]], touches, m.order[i]) && Faithful(m.at[m.order[j]], touches, m.order[j]);
  }

  /** A resident route lies within 512 of the newest. */
  lemma ResidentRecent(routes: OMap<string, Route>, touches: seq<Touch>, clock: int, key: string)
    requires Mirrors(routes, touches, clock) && |routes.order| <= MAX_ROUTES && key in routes.at
    ensures |Since(touches, key)| < MAX_ROUTES
  {
    hide LastIndex, LastTeacher, Since, Ranked, Forgotten, Faithful;
    var others := Elements(routes.order) - {key};
    forall k | k in Since(touches, key) ensures k in others {
      SinceByIndex(touches, key, k);
    }
    SubsetCardinality(Since(touches, key), others);
    DistinctCardinality(routes.order);
    assert key in Elements(routes.order);
  }

  /** The lookup of an addressed frame. */
  lemma LookupIff(steps: seq<Step>, md: Option<Metadata>, opaqueIfac: bool, now: int)
    requires Timed(steps + [Outbound(md, opaqueIfac, now)]) && Addressed(md)
    ensures var touches, key := History(steps), md.value.destinationHash;
            var decision := DestinationFor(Run(steps), md, opaqueIfac, now).decision;
      if Recent(touches, key, now)
      then LastTeacher(touches, key).Some? && decision == Unicast(LastTeacher(touches, key).value)
      else decision == Broadcast(UnknownDestination)
  {
    hide Run, History, LastIndex, LastTeacher, Since, Prune, Ranked, Closed, Rising;
    var last := Outbound(md, opaqueIfac, now);
    TimedPrefix(steps, last);
    var start := if steps == [] then now else steps[0].now;
    var touches, key := History(steps), md.value.destinationHash;
    RunGood(steps, start);
    PruneGood(Run(steps), touches, Clock(steps, start), now);
    var m := Prune(Run(steps), now).routes;
    if key in m.at {
      assert Faithful(m.at[key], touches, key);
      ResidentRecent(m, touches, now, key);
    } else {
      assert Forgotten(touches, key, now);
    }
  }

  /** Touched within 24 hours, and fewer than 512 other keys touched since. */
  predicate Recent(touches: seq<Touch>, key: string, now: int) {
    var i := LastIndex(touches, key);
    i >= 0 && now - touches[i].at <= 86_400_000 && |Since(touches, key)| < 512
  }

  /** The frames that have a destination of their own. */
  predicate ForOne(md: Metadata) {
    md.packetType in {DataPacket, LinkRequest, Proof} && md.destinationType in {Single, Link}
  }

  /**
   * Every decision, exactly. A frame goes to one node if and only if it is a data packet, a link
   * request or a proof, for a single destination or a link, and that key was touched within the
   * lifetime with fewer than 512 other keys touched since; and then it goes to the last accepted
   * teacher of the key: the bounded cache refines unbounded learning. Every other frame goes to
   * everybody, for the reason named.
   */
  lemma DecisionIff(steps: seq<Step>, md: Option<Metadata>, opaqueIfac: bool, now: int)
    requires Timed(steps + [Outbound(md, opaqueIfac, now)])
    ensures var touches := History(steps); var decision := DestinationFor(Run(steps), md, opaqueIfac, now).decision;
      && (decision.Unicast? <==> md.Some? && ForOne(md.value) && Recent(touches, md.value.destinationHash, now))
      && (decision.Unicast? ==> Some(decision.node) == LastTeacher(touches, md.value.destinationHash))
      && (decision.Broadcast? ==>
            match decision.reason
            case OpaqueIfac => md.None? && opaqueIfac
            case Malformed => md.None? && !opaqueIfac
            case AnnounceDiscovery => md.Some? && md.value.packetType == Announce
            case PlainOrGroup =>
              md.Some? && md.value.packetType != Announce && md.value.destinationType in {Plain, Group}
            case UnknownDestination => md.Some? && ForOne(md.value))
  {
    hide Run, History, Recent, LastTeacher, Prune;
    if Addressed(md) {
      LookupIff(steps, md, opaqueIfac, now);
    }
    assert md.Some? ==> (ForOne(md.value) <==> Addressed(md));
  }

  /** What was just taught is what an unbounded learner would answer, with hardly anything touched since. */
  lemma {:induction false} TaughtLast(touches: seq<Touch>, keys: seq<string>, node: string, now: int, key: string)
    requires key in keys
    ensures var all := touches + Teachings(keys, node, now); var i := LastIndex(all, key);
      && i >= |touches| && all[i].at == now
      && LastTeacher(all, key) == Some(node)
      && |Since(all, key)| < |keys|
  {
    hide LastIndex, LastTeacher, Since;
    var n := |keys| - 1;
    var before, t := touches + Teachings(keys[..n], node, now), Touch(keys[n], now, Some(node));
    assert touches + Teachings(keys, node, now) == before + [t];
    LastIndexSnoc(before, t, key);
    SinceSnoc(before, t, key);
    if keys[n] != key {
      TaughtLast(touches, keys[..n], node, now, key);
      SubsetCardinality(Since(before + [t], key) - {t.key}, Since(before, key));
    }
  }

  /**
   * Replies find their way back: after an accepted peer was heard, a proof for its packet, a
   * packet or link request to the destination it announced, and traffic on the link it asked for
   * or used go to that peer alone, for as long as the lifetime.
   */
  lemma RepliesReturn(
    steps: seq<Step>, node: string, md: Metadata, now: int, reply: Metadata, opaqueIfac: bool, later: int)
    requires Timed(steps + [Inbound(Some(node), Some(md), now)] + [Outbound(Some(reply), opaqueIfac, later)])
    requires AcceptsPeer(Prune(Run(steps), now), node)
    requires reply.packetType != Announce && reply.destinationType in {Single, Link}
    requires later - now <= 86_400_000
    requires
      || reply.destinationHash == md.packetHash
      || (md.packetType == Announce && reply.destinationHash == md.destinationHash)
      || (md.packetType == LinkRequest && md.linkId == Some(reply.destinationHash))
      || (md.destinationType == Link && reply.destinationHash == md.destinationHash)
    ensures DestinationFor(Run(steps + [Inbound(Some(node), Some(md), now)]), Some(reply), opaqueIfac, later).decision
         == Unicast(node)
  {
    hide Run, LastIndex, LastTeacher, Since, Prune, DestinationFor;
    var heard := Inbound(Some(node), Some(md), now);
    assert (steps + [heard])[..|steps|] == steps;
    HistorySnoc(steps, heard);
    TaughtLast(History(steps), Taught(md), node, now, reply.destinationHash);
    DecisionIff(steps + [heard], Some(reply), opaqueIfac, later);
  }

  /** And nothing else is taught by a packet. */
  lemma TaughtIff(md: Metadata, key: string)
    ensures key in Taught(md)
       <==> || key == md.packetHash
            || (md.packetType == Announce && key == md.destinationHash)
            || (md.packetType == LinkRequest && md.linkId == Some(key))
            || (md.destinationType == Link && key == md.destinationHash)
  {
  }

  lemma HistorySnoc(steps: seq<Step>, last: Step)
    ensures History(steps + [last]) == History(steps) + TouchesOf(Run(steps), last)
  {
    hide Run, TouchesOf;
    assert (steps + [last])[..|steps|] == steps;
  }

  lemma TimedPrefix(steps: seq<Step>, last: Step)
    requires Timed(steps + [last])
    ensures Timed(steps)
    ensures steps != [] ==> steps[|steps| - 1].now <= last.now
  {
    var all := steps + [last];
    assert forall i :: 0 <= i < |steps| ==> all[i] == steps[i];
    assert all[|steps|] == last;
  }

  /**
   * In any run a route that was still young when a step began and is gone after it was evicted for
   * capacity, and then at least 512 other keys were touched since it was last touched.
   */
  lemma EvictedOvertaken(steps: seq<Step>, step: Step, key: string)
    requires Timed(steps + [step])
    requires key in Prune(Run(steps), step.now).routes.at && key !in Run(steps + [step]).routes.at
    ensures |Since(History(steps + [step]), key)| >= MAX_ROUTES
  {
    hide Run, History, LastIndex, LastTeacher, Since, Prune, Ranked, Closed;
    var all := steps + [step];
    TimedPrefix(steps, step);
    var start := all[0].now;
    assert steps != [] ==> steps[0] == all[0];
    RunGood(steps, start);
    RunGood(all, start);
    var touches, later := History(steps), History(all);
    HistorySnoc(steps, step);
    PruneGood(Run(steps), touches, Clock(steps, start), step.now);
    assert Faithful(Prune(Run(steps), step.now).routes.at[key], touches, key);
    var i := LastIndex(touches, key);
    assert later[i] == touches[i];
    LastIndexIsLast(later, key, i);
    assert Forgotten(later, key, step.now);
  }

  // ---- Teachers ----

  /** The nodes accepted within the lifetime, out of a table that forgets nobody. */
  function Active(teachers: map<string, int>, now: int): set<string> {
    set n | n in teachers && now - teachers[n] <= 86_400_000
  }

  predicate Admits(teachers: map<string, int>, node: string, now: int) {
    node in Active(teachers, now) || |Active(teachers, now)| < 32
  }

  /** When each node was last heard and accepted, told from the arrivals alone. */
  function Teachers(steps: seq<Step>): map<string, int> {
    if steps == [] then map[]
    else
      var before := Teachers(steps[..|steps| - 1]);
      match steps[|steps| - 1]
      case Inbound(node, _, now) =>
        if node.Some? && Admits(before, node.value, now) then before[node.value := now] else before
      case Outbound(_, _, _) => before
  }

  /** The peer table is what is left of the teachers. */
  ghost predicate Remembers(peers: OMap<string, int>, teachers: map<string, int>, clock: int) {
    && peers.Valid()
    && (forall n :: n in peers.at ==> n in teachers && teachers[n] == peers.at[n])
    && (forall n :: n in teachers && n !in peers.at ==> clock - teachers[n] > ROUTE_TTL)
  }

  /** Once pruned it holds exactly the active ones. */
  lemma PruneRemembers(s: State, teachers: map<string, int>, clock: int, now: int)
    requires Remembers(s.peers, teachers, clock) && clock <= now
    ensures var peers := Prune(s, now).peers;
      && Remembers(peers, teachers, now)
      && peers.at.Keys == Active(teachers, now) && |peers.order| == |Active(teachers, now)|
  {
    hide Select;
    var keep := set k | k in s.peers.at && now - s.peers.at[k] <= ROUTE_TTL;
    KeepOnlyValid(s.peers, keep);
    var peers := Prune(s, now).peers;
    assert peers.at.Keys == Active(teachers, now);
    DistinctCardinality(peers.order);
  }

  lemma HeardRemembers(peers: OMap<string, int>, teachers: map<string, int>, node: string, now: int)
    requires Remembers(peers, teachers, now)
    ensures Remembers(Heard(peers, node, now), teachers[node := now], now)
  {
    hide Select;
    if node in peers.at {
      MoveToEndValid(peers, node);
    } else {
      PutTouchedValid(peers, node, now);
    }
  }

  lemma StepRemembers(steps: seq<Step>, clock: int)
    requires steps != [] && clock <= steps[|steps| - 1].now
    requires var n := |steps| - 1; Remembers(Run(steps[..n]).peers, Teachers(steps[..n]), clock)
    ensures Remembers(Run(steps).peers, Teachers(steps), steps[|steps| - 1].now)
  {
    hide Prune, Heard, LearnAll, Taught, Remembers, Active, Touched;
    var n := |steps| - 1;
    var s, teachers, now := Run(steps[..n]), Teachers(steps[..n]), steps[n].now;
    PruneRemembers(s, teachers, clock, now);
    if steps[n].Inbound? && steps[n].node.Some? && AcceptsPeer(Prune(s, now), steps[n].node.value) {
      HeardRemembers(Prune(s, now).peers, teachers, steps[n].node.value, now);
    }
  }

  lemma {:induction false} RunRemembers(steps: seq<Step>, start: int)
    requires Timed(steps) && (steps != [] ==> start <= steps[0].now)
    ensures Remembers(Run(steps).peers, Teachers(steps), Clock(steps, start))
  {
    if steps == [] {
    } else {
      hide Run, Teachers, Remembers;
      RunRemembers(steps[..|steps| - 1], start);
      StepRemembers(steps, Clock(steps[..|steps| - 1], start));
    }
  }

  /**
   * A node is refused as a teacher if and only if it was not itself heard within the lifetime and
   * 32 other nodes were: the bounded table decides as one that forgets nobody would.
   */
  lemma RefusedIff(steps: seq<Step>, node: string, now: int)
    requires Timed(steps) && (steps != [] ==> steps[|steps| - 1].now <= now)
    ensures var active := Active(Teachers(steps), now);
      && |active| <= 32
      && (!AcceptsPeer(Prune(Run(steps), now), node) <==> node !in active && |active| == 32)
  {
    hide Run, Teachers, Prune, Active, Mirrors, Rising;
    var start := if steps == [] then now else steps[0].now;
    RunRemembers(steps, start);
    PruneRemembers(Run(steps), Teachers(steps), Clock(steps, start), now);
    RunGood(steps, start);
    PruneGood(Run(steps), History(steps), Clock(steps, start), now);
  }
}
