/**
 * The route cache of `RnsPeerRouter.java`. What `RnsPacketMetadata` extracts from a frame is
 * an input, and so is the canonical form of a node name (none when it is malformed).
 */
module PeerRouterSpec {
  import opened Common
  import opened OrderedMaps

  const MAX_PEERS := 32
  const MAX_ROUTES := 512
  const ROUTE_TTL := 86_400_000

  datatype PacketType = DataPacket | Announce | LinkRequest | Proof

  datatype DestinationType = Single | Group | Plain | Link

  datatype Metadata = Metadata(
    packetHash: string, packetType: PacketType, destinationHash: string, destinationType: DestinationType,
    linkId: Option<string>)

  datatype Route = Route(node: string, seenAt: int)

  datatype State = State(routes: OMap<string, Route>, peers: OMap<string, int>)

  const INITIAL := State(EmptyMap(), EmptyMap())

  datatype Reason = OpaqueIfac | Malformed | AnnounceDiscovery | PlainOrGroup | UnknownDestination

  datatype Decision = Broadcast(reason: Reason) | Unicast(node: string)

  function Prune(s: State, now: int): State {
    State(s.routes.KeepOnly(set k | k in s.routes.at && now - s.routes.at[k].seenAt <= ROUTE_TTL),
          s.peers.KeepOnly(set k | k in s.peers.at && now - s.peers.at[k] <= ROUTE_TTL))
  }

  function Learn(routes: OMap<string, Route>, key: string, node: string, now: int): OMap<string, Route> {
    var got := Touched(routes, key);
    if key in got.at && got.at[key].node == node then got.(at := got.at[key := Route(node, now)])
    else TrimFront(PutTouched(got, key, Route(node, now)), MAX_ROUTES)
  }

  function LearnAll(routes: OMap<string, Route>, keys: seq<string>, node: string, now: int): OMap<string, Route> {
    if keys == [] then routes
    else Learn(LearnAll(routes, keys[..|keys| - 1], node, now), keys[|keys| - 1], node, now)
  }

  /** The keys a received packet teaches, in order. */
  function Taught(md: Metadata): seq<string> {
    [md.packetHash] +
    (if md.packetType == Announce then [md.destinationHash] else []) +
    (if md.packetType == LinkRequest && md.linkId.Some? then [md.linkId.value] else []) +
    (if md.destinationType == Link then [md.destinationHash] else [])
  }

  predicate AcceptsPeer(s: State, node: string) {
    node in s.peers.at || |s.peers.order| < MAX_PEERS
  }

  /** The peer table once an accepted peer has been heard. */
  function Heard(peers: OMap<string, int>, node: string, now: int): OMap<string, int> {
    var got := Touched(peers, node);
    if node in got.at then got.(at := got.at[node := now]) else PutTouched(got, node, now)
  }

  function Observe(s: State, node: Option<string>, md: Option<Metadata>, now: int): State {
    var s1 := Prune(s, now);
    if node.None? || !AcceptsPeer(s1, node.value) then s1
    else
      var s2 := s1.(peers := Heard(s1.peers, node.value, now));
      if md.None? then s2 else s2.(routes := LearnAll(s2.routes, Taught(md.value), node.value, now))
  }

  /** Frames for which a route is looked up at all. */
  predicate Addressed(md: Option<Metadata>) {
    md.Some? && md.value.packetType != Announce
    && md.value.destinationType != Plain && md.value.destinationType != Group
  }

  datatype Answer = Answer(state: State, decision: Decision)

  function DestinationFor(s: State, md: Option<Metadata>, opaqueIfac: bool, now: int): Answer {
    var s1 := Prune(s, now);
    if md.None? then Answer(s1, Broadcast(if opaqueIfac then OpaqueIfac else Malformed))
    else if md.value.packetType == Announce then Answer(s1, Broadcast(AnnounceDiscovery))
    else if !Addressed(md) then Answer(s1, Broadcast(PlainOrGroup))
    else
      var key := md.value.destinationHash;
      if key in s1.routes.at then
        var node := s1.routes.at[key].node;
        var got := Touched(s1.routes, key);
        Answer(s1.(routes := got.(at := got.at[key := Route(node, now)])), Unicast(node))
      else Answer(s1, Broadcast(UnknownDestination))
  }

  // ---- Runs and their history ----

  datatype Step =
    | Inbound(node: Option<string>, md: Option<Metadata>, now: int)
    | Outbound(md: Option<Metadata>, opaqueIfac: bool, now: int)

  function Apply(s: State, step: Step): State {
    match step
    case Inbound(node, md, now) => Observe(s, node, md, now)
    case Outbound(md, opaqueIfac, now) => DestinationFor(s, md, opaqueIfac, now).state
  }

  function Run(steps: seq<Step>): State {
    if steps == [] then INITIAL else Apply(Run(steps[..|steps| - 1]), steps[|steps| - 1])
  }

  ghost predicate Timed(steps: seq<Step>) {
    forall i, j :: 0 <= i <= j < |steps| ==> steps[i].now <= steps[j].now
  }

  /** A use of a key: taught by a node, or looked up with success. */
  datatype Touch = Touch(key: string, at: int, teacher: Option<string>)

  function Teachings(keys: seq<string>, node: string, now: int): seq<Touch> {
    seq(|keys|, i requires 0 <= i < |keys| => Touch(keys[i], now, Some(node)))
  }

  function TouchesOf(s: State, step: Step): seq<Touch> {
    var s1 := Prune(s, step.now);
    match step
    case Inbound(node, md, now) =>
      if node.Some? && AcceptsPeer(s1, node.value) && md.Some? then Teachings(Taught(md.value), node.value, now) else []
    case Outbound(md, _, now) =>
      if Addressed(md) && md.value.destinationHash in s1.routes.at
      then [Touch(md.value.destinationHash, now, None)] else []
  }

  /** Everything that was ever taught by an accepted peer or looked up: nothing is forgotten. */
  function History(steps: seq<Step>): seq<Touch> {
    if steps == [] then []
    else
      var before := steps[..|steps| - 1];
      History(before) + TouchesOf(Run(before), steps[|steps| - 1])
  }

  /** Where `key` was last touched, -1 if never. */
  function LastIndex(touches: seq<Touch>, key: string): (i: int)
    ensures -1 <= i < |touches|
    ensures i >= 0 ==> touches[i].key == key
  {
    if touches == [] then -1
    else if touches[|touches| - 1].key == key then |touches| - 1
    else LastIndex(touches[..|touches| - 1], key)
  }

  /** What an unbounded learner that never forgets answers: the last teacher of the key. */
  function LastTeacher(touches: seq<Touch>, key: string): Option<string> {
    if touches == [] then None
    else
      var last := touches[|touches| - 1];
      if last.key == key && last.teacher.Some? then last.teacher
      else LastTeacher(touches[..|touches| - 1], key)
  }

  /** The other keys touched since `key` was last touched. */
  function Since(touches: seq<Touch>, key: string): set<string> {
    set i | LastIndex(touches, key) < i < |touches| :: touches[i].key
  }
}
