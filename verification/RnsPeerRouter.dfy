/** The router object of `RnsPeerRouter.java` against `PeerRouterSpec`. */
module RnsPeerRouters {
  import opened Common
  import opened OrderedMaps
  import Spec = PeerRouterSpec

  class RnsPeerRouter {
    var routes: OMap<string, Spec.Route>
    var peers: OMap<string, int>

    function View(): Spec.State
      reads this
    {
      Spec.State(routes, peers)
    }

    constructor ()
      ensures View() == Spec.INITIAL
    {
      routes, peers := EmptyMap(), EmptyMap();
    }

    method Prune(now: int)
      modifies this
      ensures View() == Spec.Prune(old(View()), now)
    {
      routes := routes.KeepOnly(set k | k in routes.at && now - routes.at[k].seenAt <= Spec.ROUTE_TTL);
      peers := peers.KeepOnly(set k | k in peers.at && now - peers.at[k] <= Spec.ROUTE_TTL);
    }

    method Learn(key: string, node: string, now: int)
      modifies this`routes
      ensures routes == Spec.Learn(old(routes), key, node, now)
    {
      routes := Touched(routes, key);
      if key in routes.at && routes.at[key].node == node {
        routes := routes.(at := routes.at[key := Spec.Route(node, now)]);
        return;
      }
      routes := PutTouched(routes, key, Spec.Route(node, now));
      ghost var full := routes;
      while |routes.order| > Spec.MAX_ROUTES
        invariant TrimFront(routes, Spec.MAX_ROUTES) == TrimFront(full, Spec.MAX_ROUTES)
        decreases |routes.order|
      {
        SelectMembers(routes.order[1..], routes.at.Keys - {routes.order[0]});
        routes := routes.Remove(routes.order[0]);
      }
    }

    method ObserveInbound(source: Option<string>, metadata: Option<Spec.Metadata>, now: int)
      modifies this
      ensures View() == Spec.Observe(old(View()), source, metadata, now)
    {
      Prune(now);
      if source.None? {
        return;
      }
      var accepted := HearPeer(source.value, now);
      if !accepted || metadata.None? {
        return;
      }
      LearnAll(Spec.Taught(metadata.value), source.value, now);
    }

    method HearPeer(node: string, now: int) returns (accepted: bool)
      modifies this`peers
      ensures accepted == Spec.AcceptsPeer(old(View()), node)
      ensures peers == if accepted then Spec.Heard(old(peers), node, now) else old(peers)
    {
      var known := node in peers.at;
      if !known && |peers.order| >= Spec.MAX_PEERS {
        return false;
      }
      peers := Touched(peers, node);
      if known {
        peers := peers.(at := peers.at[node := now]);
      } else {
        peers := PutTouched(peers, node, now);
      }
      return true;
    }

    method LearnAll(keys: seq<string>, node: string, now: int)
      modifies this`routes
      ensures routes == Spec.LearnAll(old(routes), keys, node, now)
    {
      for i := 0 to |keys|
        invariant routes == Spec.LearnAll(old(routes), keys[..i], node, now)
      {
        assert keys[..i + 1][..i] == keys[..i];
        Learn(keys[i], node, now);
      }
      assert keys[..|keys|] == keys;
    }

    method DestinationFor(metadata: Option<Spec.Metadata>, opaqueIfac: bool, now: int)
      returns (decision: Spec.Decision)
      modifies this
      ensures Spec.Answer(View(), decision) == Spec.DestinationFor(old(View()), metadata, opaqueIfac, now)
    {
      Prune(now);
      if metadata.None? {
        return Spec.Broadcast(if opaqueIfac then Spec.OpaqueIfac else Spec.Malformed);
      }
      if metadata.value.packetType == Spec.Announce {
        return Spec.Broadcast(Spec.AnnounceDiscovery);
      }
      if metadata.value.destinationType == Spec.Plain || metadata.value.destinationType == Spec.Group {
        return Spec.Broadcast(Spec.PlainOrGroup);
      }
      var key := metadata.value.destinationHash;
      if key in routes.at {
        var node := routes.at[key].node;
        routes := Touched(routes, key);
        routes := routes.(at := routes.at[key := Spec.Route(node, now)]);
        return Spec.Unicast(node);
      }
      return Spec.Broadcast(Spec.UnknownDestination);
    }
  }
}
