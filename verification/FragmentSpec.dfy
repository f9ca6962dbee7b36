/**
 * What one call of `FragmentProtocol` (`framing.py`) does, as functions on its state.
 * The clock is read twice in a call: `swept` is the reading that drives the clean-up,
 * `now` the later reading that stamps what the call does. The digest of a completed frame
 * is an arbitrary function.
 */
module FragmentSpec {
  import opened Common
  import opened OrderedMaps
  import opened Fragments

  datatype Config = Config(
    fragmentBody: nat, ttl: int, cooldown: int, maxAttempts: int, maxRequests: int, window: int)
  {
    /** The checks of the constructor. */
    predicate Valid() {
      && 1 <= fragmentBody <= 230
      && ttl > 0 && cooldown > 0
      && maxAttempts > 0
      && maxRequests > 0 && window > 0
    }
  }

  const BROADCAST := "^all"
  const MAX_CACHED := 512

  /** Whose frame, and which of the sender's 256 packet indices. */
  datatype Key = Key(source: string, index: Byte)

  datatype Assembly = Assembly(
    updatedAt: int, fragments: map<nat, Bytes>, final: Option<nat>,
    requestedAt: map<nat, int>, attempts: map<nat, nat>)

  datatype CacheKey = CacheKey(index: Byte, destination: string)

  /** The payload of position `p` is at offset `p - 1`. */
  datatype Cached = Cached(destination: string, createdAt: int, fragments: seq<Bytes>)

  datatype Completion = Completion(key: Key, digest: Bytes)

  datatype State = State(
    nextIndex: Byte,
    assemblies: OMap<Key, Assembly>,
    txCache: OMap<CacheKey, Cached>,
    completed: OMap<Completion, int>,
    completedIndices: OMap<Key, int>,
    requestTimes: seq<int>)

  const INITIAL := State(0, EmptyMap(), EmptyMap(), EmptyMap(), EmptyMap(), [])

  datatype Error = EmptyFrame | TooManyFragments | EmptySource | Truncated | PositionZero | NoBody

  datatype Outcome =
    | Raised(error: Error)
    | Done(frames: seq<Bytes>, transmissions: seq<Transmission>)

  const NOTHING := Done([], [])

  datatype Reply = Reply(state: State, outcome: Outcome)

  // ---- Clean-up ----

  /** Oldest entries up to and including the cutoff leave the budget window. */
  function DropOld(times: seq<int>, cutoff: int): seq<int> {
    if times != [] && times[0] <= cutoff then DropOld(times[1..], cutoff) else times
  }

  /** Entries leave from the front while they are older than the cutoff. */
  function PopExpired<K(==)>(m: OMap<K, int>, cutoff: int): OMap<K, int>
    decreases |m.at|
  {
    if m.order != [] && m.order[0] in m.at && m.at[m.order[0]] < cutoff then
      var rest := m.Remove(m.order[0]);
      assert rest.at.Keys == m.at.Keys - {m.order[0]};
      PopExpired(rest, cutoff)
    else m
  }

  function Sweep(c: Config, s: State, now: int): State {
    var cutoff := now - c.ttl;
    s.(requestTimes := DropOld(s.requestTimes, now - c.window),
       assemblies := s.assemblies.KeepOnly(
         set k | k in s.assemblies.at && s.assemblies.at[k].updatedAt >= cutoff),
       txCache := s.txCache.KeepOnly(
         set k | k in s.txCache.at && s.txCache.at[k].createdAt >= cutoff),
       completed := PopExpired(s.completed, cutoff),
       completedIndices := PopExpired(s.completedIndices, cutoff))
  }

  // ---- Sending ----

  function Wrap(index: Byte): Byte {
    (index + 1) % 256
  }

  function DataTransmissions(destination: string, payloads: seq<Bytes>): seq<Transmission> {
    seq(|payloads|, i requires 0 <= i < |payloads| => Transmission(destination, payloads[i], Data))
  }

  function Encode(c: Config, s: State, frame: Bytes, destination: string, swept: int, now: int): Reply
    requires c.Valid()
  {
    if frame == [] then Reply(s, Raised(EmptyFrame))
    else if |Chunks(frame, c.fragmentBody)| > MAX_FRAGMENTS then Reply(s, Raised(TooManyFragments))
    else
      var s1 := Sweep(c, s, swept);
      var payloads := AllFragments(frame, c.fragmentBody, s1.nextIndex);
      var key := CacheKey(s1.nextIndex, destination);
      var cache := s1.txCache.Put(key, Cached(destination, now, payloads)).MoveToEnd(key);
      Reply(s1.(nextIndex := Wrap(s1.nextIndex), txCache := TrimFront(cache, MAX_CACHED)),
            Done([], DataTransmissions(destination, payloads)))
  }

  // ---- Answering requests ----

  function Lookup(s: State, index: Byte, source: string): Option<Cached> {
    if CacheKey(index, source) in s.txCache.at then Some(s.txCache.at[CacheKey(index, source)])
    else if CacheKey(index, BROADCAST) in s.txCache.at then Some(s.txCache.at[CacheKey(index, BROADCAST)])
    else None
  }

  function HandleRequest(s: State, source: string, metadata: Bytes): Outcome {
    if |metadata| < 2 then Raised(Truncated)
    else
      var cached := Lookup(s, metadata[0], source);
      if cached.None? then NOTHING
      else
        var position := SignedByte(metadata[1]);
        var requested := if position == 0 then |cached.value.fragments| else Abs(position);
        if 1 <= requested <= |cached.value.fragments| then
          Done([], [Transmission(source, cached.value.fragments[requested - 1], Retransmit)])
        else NOTHING
  }

  // ---- Repair requests ----

  function Pow2(n: nat): (r: nat)
    ensures r >= 1
  {
    if n == 0 then 1 else 2 * Pow2(n - 1)
  }

  function Lookup0<V>(m: map<nat, V>, p: nat, default: V): V {
    if p in m then m[p] else default
  }

  function RepairDue(c: Config, a: Assembly, p: nat, now: int, immediate: bool): bool {
    var attempts := Lookup0(a.attempts, p, 0);
    if attempts == 0 then immediate || now - a.updatedAt >= c.cooldown
    else now - Lookup0(a.requestedAt, p, 0) >= c.cooldown * Pow2(attempts)
  }

  /** The assembly, the shared budget window and the requests written so far. */
  datatype Repairs = Repairs(assembly: Assembly, times: seq<int>, sent: seq<Transmission>)

  function RequestOne(c: Config, r: Repairs, key: Key, p: nat, now: int): Repairs {
    Repairs(
      r.assembly.(requestedAt := r.assembly.requestedAt[p := now],
                  attempts := r.assembly.attempts[p := Lookup0(r.assembly.attempts, p, 0) + 1]),
      r.times + [now],
      r.sent + [Transmission(key.source, Request(key.index, p), Repair)])
  }

  function AppendRepairs(
    c: Config, r: Repairs, key: Key, missing: seq<nat>, now: int, budget: int, immediate: bool): Repairs
    decreases |missing|
  {
    if missing == [] || budget <= 0 then r
    else
      var p, rest := missing[0], missing[1..];
      if Lookup0(r.assembly.attempts, p, 0) >= c.maxAttempts || !RepairDue(c, r.assembly, p, now, immediate) then
        AppendRepairs(c, r, key, rest, now, budget, immediate)
      else
        var trimmed := r.(times := DropOld(r.times, now - c.window));
        if |trimmed.times| >= c.maxRequests then trimmed
        else AppendRepairs(c, RequestOne(c, trimmed, key, p, now), key, rest, now, budget - 1, immediate)
  }

  /** Positions `p..final` that have not arrived. */
  function MissingFrom(fragments: map<nat, Bytes>, p: nat, final: nat): seq<nat>
    decreases final + 1 - p
  {
    if p > final then []
    else (if p in fragments then [] else [p]) + MissingFrom(fragments, p + 1, final)
  }

  function Missing(a: Assembly): seq<nat> {
    if a.final.None? then [0] else MissingFrom(a.fragments, 1, a.final.value)
  }

  function PollFrom(
    c: Config, s: State, keys: seq<Key>, now: int, maxRequests: int, allowControl: bool,
    sent: seq<Transmission>): Reply
    decreases |keys|
  {
    if keys == [] then Reply(s, Done([], sent))
    else if keys[0] !in s.assemblies.at || now - s.assemblies.at[keys[0]].updatedAt < c.cooldown then
      PollFrom(c, s, keys[1..], now, maxRequests, allowControl, sent)
    else if maxRequests - |sent| <= 0 then Reply(s, Done([], sent))
    else if !allowControl then
      PollFrom(c, s, keys[1..], now, maxRequests, allowControl, sent)
    else
      var a := s.assemblies.at[keys[0]];
      var r := AppendRepairs(
        c, Repairs(a, s.requestTimes, sent), keys[0], Missing(a), now, maxRequests - |sent|, false);
      PollFrom(
        c, s.(assemblies := s.assemblies.Put(keys[0], r.assembly), requestTimes := r.times),
        keys[1..], now, maxRequests, allowControl, r.sent)
  }

  function Poll(c: Config, s: State, maxRequests: int, allowControl: bool, swept: int, now: int): Reply {
    if maxRequests <= 0 then Reply(s, NOTHING)
    else
      var s1 := Sweep(c, s, swept);
      PollFrom(c, s1, s1.assemblies.order, now, maxRequests, allowControl, [])
  }

  // ---- Reassembly ----

  /** The assembly once a fragment with this wire position has been filed. */
  function Absorb(a: Assembly, wire: int, body: Bytes, now: int): Assembly {
    var p := Abs(wire);
    var progress := !(p in a.fragments && a.fragments[p] == body) || (wire < 0 && a.final != Some(p));
    var a1 := if progress
              then a.(updatedAt := now, requestedAt := a.requestedAt - {p}, attempts := a.attempts - {p})
              else a;
    var a2 := a1.(fragments := a1.fragments[p := body]);
    if wire < 0
    then a2.(final := Some(p), requestedAt := a2.requestedAt - {0}, attempts := a2.attempts - {0})
    else a2
  }

  /** Bodies `1..n` joined. */
  function Join(fragments: map<nat, Bytes>, n: nat): Bytes {
    if n == 0 then [] else Join(fragments, n - 1) + (if n in fragments then fragments[n] else [])
  }

  function Fresh(now: int): Assembly {
    Assembly(now, map[], None, map[], map[])
  }

  function AssemblyFor(s: State, key: Key, now: int): Assembly {
    if key in s.assemblies.at then s.assemblies.at[key] else Fresh(now)
  }

  function Complete(s: State, key: Key, frame: Bytes, digest: Bytes, now: int): Reply {
    var s1 := s.(assemblies := s.assemblies.Remove(key));
    var done := Completion(key, digest);
    if done in s.completed.at then Reply(s1, NOTHING)
    else
      Reply(s1.(completed := s.completed.Put(done, now).MoveToEnd(done),
                completedIndices := s.completedIndices.Put(key, now).MoveToEnd(key)),
            Done([frame], []))
  }

  /** Filing a well-formed fragment. */
  function File(
    c: Config, digest: Bytes -> Bytes, s: State, key: Key, wire: int, body: Bytes, now: int,
    allowControl: bool): Reply
  {
    if key in s.completedIndices.at then Reply(s, NOTHING)
    else
      var a := Absorb(AssemblyFor(s, key, now), wire, body, now);
      var s1 := s.(assemblies := s.assemblies.Put(key, a));
      if a.final.None? then Reply(s1, NOTHING)
      else if Missing(a) != [] then
        if !allowControl then Reply(s1, NOTHING)
        else
          var r := AppendRepairs(c, Repairs(a, s.requestTimes, []), key, Missing(a), now, 1, true);
          Reply(s1.(assemblies := s1.assemblies.Put(key, r.assembly), requestTimes := r.times),
                Done([], r.sent))
      else
        var frame := Join(a.fragments, a.final.value);
        Complete(s1, key, frame, digest(frame), now)
  }

  /** Why a payload that is not a request is refused, if it is. */
  function Malformed(payload: Bytes): Option<Error> {
    if |payload| < 2 then Some(Truncated)
    else if payload[1] == 0 then Some(PositionZero)
    else if |payload| == 2 then Some(NoBody)
    else None
  }

  function Receive(
    c: Config, digest: Bytes -> Bytes, s: State, source: string, payload: Bytes, allowControl: bool,
    swept: int, now: int): Reply
  {
    if source == "" then Reply(s, Raised(EmptySource))
    else
      var s1 := Sweep(c, s, swept);
      if IsRequest(payload) then
        Reply(s1, if allowControl then HandleRequest(s1, source, payload[3..]) else NOTHING)
      else if Malformed(payload).Some? then Reply(s1, Raised(Malformed(payload).value))
      else
        File(c, digest, s1, Key(source, payload[0]), SignedByte(payload[1]), payload[2..], now, allowControl)
  }

  // ---- Runs ----

  datatype Call =
    | Send(frame: Bytes, destination: string, swept: int, now: int)
    | Hear(source: string, payload: Bytes, allowControl: bool, swept: int, now: int)
    | PollRepairs(maxRequests: int, allowControl: bool, swept: int, now: int)
    | Cleanup(swept: int, now: int)

  function Apply(c: Config, digest: Bytes -> Bytes, s: State, call: Call): Reply
    requires c.Valid()
  {
    match call
    case Send(frame, destination, swept, now) => Encode(c, s, frame, destination, swept, now)
    case Hear(source, payload, allow, swept, now) => Receive(c, digest, s, source, payload, allow, swept, now)
    case PollRepairs(n, allow, swept, now) => Poll(c, s, n, allow, swept, now)
    case Cleanup(swept, _) => Reply(Sweep(c, s, swept), NOTHING)
  }

  /** The state between the clean-up of a call and its own work. */
  function Swept(c: Config, s: State, call: Call): State
    requires c.Valid()
  {
    match call
    case Send(frame, _, swept, _) =>
      if frame == [] || |Chunks(frame, c.fragmentBody)| > MAX_FRAGMENTS then s else Sweep(c, s, swept)
    case Hear(source, _, _, swept, _) => if source == "" then s else Sweep(c, s, swept)
    case PollRepairs(n, _, swept, _) => if n <= 0 then s else Sweep(c, s, swept)
    case Cleanup(swept, _) => Sweep(c, s, swept)
  }

  function Run(c: Config, digest: Bytes -> Bytes, s: State, calls: seq<Call>): State
    requires c.Valid()
  {
    if calls == [] then s
    else Apply(c, digest, Run(c, digest, s, calls[..|calls| - 1]), calls[|calls| - 1]).state
  }

  /** The clock never runs backwards, within a call or from one call to the next. */
  ghost predicate Timed(calls: seq<Call>) {
    && (forall i :: 0 <= i < |calls| ==> calls[i].swept <= calls[i].now)
    && (forall i, j :: 0 <= i < j < |calls| ==> calls[i].now <= calls[j].swept)
  }

  /** The reading after the last call, `start` before the first. */
  function Clock(calls: seq<Call>, start: int): int {
    if calls == [] then start else calls[|calls| - 1].now
  }

  /** What call number `i` of a run answers. */
  function OutcomeOf(c: Config, digest: Bytes -> Bytes, s: State, calls: seq<Call>, i: nat): Outcome
    requires c.Valid() && i < |calls|
  {
    Apply(c, digest, Run(c, digest, s, calls[..i]), calls[i]).outcome
  }
}
