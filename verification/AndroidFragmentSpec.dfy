/**
 * The Android twin of the protocol, `FragmentProtocol.java`, on the vocabulary of
 * `FragmentSpec`: another way of cutting frames, of forgetting and of refusing, and an answer
 * that says when repair traffic was held back. The order in which the hash map of assemblies
 * is walked is an input.
 */
module AndroidFragmentSpec {
  import opened Common
  import opened OrderedMaps
  import opened Fragments
  import opened FragmentSpec
  import opened FragmentFacts

  /** The checks of the constructor, and the fixed attempt cap. */
  predicate Configured(c: Config) {
    1 <= c.fragmentBody <= 230 && c.maxAttempts == 3 && c.maxRequests >= 1 && c.window >= 1
  }

  datatype Twin = Twin(
    nextIndex: Byte,
    assemblies: map<Key, Assembly>,
    txCache: OMap<CacheKey, Cached>,
    completed: map<Completion, int>,
    completedIndices: map<Key, int>,
    repairWindow: seq<int>)

  const FRESH := Twin(0, map[], EmptyMap(), map[], map[], [])

  /** `deferred`: a repair transmission was due but not allowed. */
  datatype Result = Refused | Result(frames: seq<Bytes>, transmissions: seq<Transmission>, deferred: bool)

  const QUIET := Result([], [], false)

  datatype Answer = Answer(twin: Twin, result: Result)

  /** Entries no older than the cutoff, wherever they are. */
  function Recent<K(==)>(m: map<K, int>, cutoff: int): map<K, int> {
    map k | k in m && m[k] >= cutoff :: m[k]
  }

  function Cleanup(c: Config, t: Twin, now: int): Twin {
    var cutoff := now - c.ttl;
    t.(repairWindow := DropOld(t.repairWindow, now - c.window),
       assemblies := map k | k in t.assemblies && t.assemblies[k].updatedAt >= cutoff :: t.assemblies[k],
       txCache := t.txCache.KeepOnly(set k | k in t.txCache.at && t.txCache.at[k].createdAt >= cutoff),
       completed := Recent(t.completed, cutoff),
       completedIndices := Recent(t.completedIndices, cutoff))
  }

  /** Storing under a key that is still cached keeps its place in the queue for eviction. */
  function Encode(c: Config, t: Twin, frame: Bytes, destination: string, swept: int, now: int): Answer
    requires Configured(c)
  {
    if frame == [] || |Chunks(frame, c.fragmentBody)| > MAX_FRAGMENTS then Answer(t, Refused)
    else
      var t1 := Cleanup(c, t, swept);
      var payloads := AllFragments(frame, c.fragmentBody, t1.nextIndex);
      var cache := t1.txCache.Put(CacheKey(t1.nextIndex, destination), Cached(destination, now, payloads));
      Answer(t1.(nextIndex := Wrap(t1.nextIndex), txCache := TrimFront(cache, MAX_CACHED)),
             Result([], DataTransmissions(destination, payloads), false))
  }

  function Lookup(t: Twin, index: Byte, source: string): Option<Cached> {
    if CacheKey(index, source) in t.txCache.at then Some(t.txCache.at[CacheKey(index, source)])
    else if CacheKey(index, BROADCAST) in t.txCache.at then Some(t.txCache.at[CacheKey(index, BROADCAST)])
    else None
  }

  function HandleRequest(t: Twin, source: string, payload: Bytes, allowControl: bool): Result {
    if |payload| < 5 then QUIET
    else
      var cached := Lookup(t, payload[3], source);
      var named := Abs(SignedByte(payload[4]));
      if cached.None? then QUIET
      else
        var position := if named == 0 then |cached.value.fragments| else named;
        if !(1 <= position <= |cached.value.fragments|) then QUIET
        else if allowControl then
          Result([], [Transmission(source, cached.value.fragments[position - 1], Retransmit)], false)
        else Result([], [], true)
  }

  /** Assemblies start with a time stamp of zero; the first fragment always replaces it. */
  function AssemblyFor(t: Twin, key: Key): Assembly {
    if key in t.assemblies then t.assemblies[key] else Assembly(0, map[], None, map[], map[])
  }

  function File(
    c: Config, digest: Bytes -> Bytes, t: Twin, key: Key, wire: int, body: Bytes, now: int,
    allowControl: bool): Answer
  {
    if key in t.completedIndices then Answer(t, QUIET)
    else
      var a := Absorb(AssemblyFor(t, key), wire, body, now);
      var t1 := t.(assemblies := t.assemblies[key := a]);
      if a.final.None? then Answer(t1, QUIET)
      else if Missing(a) != [] then
        if !allowControl then
          var due := HasDueRepair(c, a, Missing(a), now, true);
          Answer(t1, Result([], [], due && |t.repairWindow| < c.maxRequests))
        else
          var r := AppendRepairs(c, Repairs(a, t.repairWindow, []), key, Missing(a), now, 1, true);
          Answer(t1.(assemblies := t1.assemblies[key := r.assembly], repairWindow := r.times),
                 Result([], r.sent, false))
      else
        var frame := Join(a.fragments, a.final.value);
        Complete(t1, key, frame, digest(frame), now)
  }

  function Complete(t: Twin, key: Key, frame: Bytes, digest: Bytes, now: int): Answer {
    var t1 := t.(assemblies := t.assemblies - {key});
    var done := Completion(key, digest);
    if done in t.completed then Answer(t1, QUIET)
    else
      Answer(t1.(completed := t.completed[done := now], completedIndices := t.completedIndices[key := now]),
             Result([frame], [], false))
  }

  /** Too short, position zero, or -128. */
  predicate Invalid(payload: Bytes) {
    |payload| < 3 || SignedByte(payload[1]) == 0 || SignedByte(payload[1]) == -128
  }

  function Receive(
    c: Config, digest: Bytes -> Bytes, t: Twin, source: string, payload: Bytes, allowControl: bool,
    swept: int, now: int): Answer
  {
    var t1 := Cleanup(c, t, swept);
    if IsRequest(payload) then Answer(t1, HandleRequest(t1, source, payload, allowControl))
    else if Invalid(payload) then Answer(t1, Refused)
    else File(c, digest, t1, Key(source, payload[0]), SignedByte(payload[1]), payload[2..], now, allowControl)
  }

  function PollFrom(
    c: Config, t: Twin, keys: seq<Key>, now: int, maxRequests: int, allowControl: bool,
    sent: seq<Transmission>): Answer
    decreases |keys|
  {
    if keys == [] then Answer(t, Result([], sent, false))
    else if keys[0] !in t.assemblies || now - t.assemblies[keys[0]].updatedAt < c.cooldown then
      PollFrom(c, t, keys[1..], now, maxRequests, allowControl, sent)
    else
      var a := t.assemblies[keys[0]];
      if !allowControl then
        if HasDueRepair(c, a, Missing(a), now, false) then
          Answer(t, Result([], sent, |t.repairWindow| < c.maxRequests))
        else PollFrom(c, t, keys[1..], now, maxRequests, allowControl, sent)
      else
        var r := AppendRepairs(
          c, Repairs(a, t.repairWindow, sent), keys[0], Missing(a), now, maxRequests - |sent|, false);
        var t1 := t.(assemblies := t.assemblies[keys[0] := r.assembly], repairWindow := r.times);
        if |r.sent| >= maxRequests then Answer(t1, Result([], r.sent, false))
        else PollFrom(c, t1, keys[1..], now, maxRequests, allowControl, r.sent)
  }

  /** `keys` is the order in which the hash map is walked. */
  function Poll(
    c: Config, t: Twin, keys: seq<Key>, maxRequests: int, allowControl: bool, swept: int, now: int): Answer
  {
    var t1 := Cleanup(c, t, swept);
    if maxRequests <= 0 then Answer(t1, QUIET)
    else PollFrom(c, t1, keys, now, maxRequests, allowControl, [])
  }

  /** `keys` matters to polls only. */
  function Apply(c: Config, digest: Bytes -> Bytes, t: Twin, call: Call, keys: seq<Key>): Answer
    requires Configured(c)
  {
    match call
    case Send(frame, destination, swept, now) => Encode(c, t, frame, destination, swept, now)
    case Hear(source, payload, allow, swept, now) => Receive(c, digest, t, source, payload, allow, swept, now)
    case PollRepairs(n, allow, swept, now) => Poll(c, t, keys, n, allow, swept, now)
    case Cleanup(swept, _) => Answer(Cleanup(c, t, swept), QUIET)
  }

  /** `walks[i]` is how the hash map is walked in call number `i`. */
  function Run(c: Config, digest: Bytes -> Bytes, calls: seq<Call>, walks: seq<seq<Key>>): Twin
    requires Configured(c) && |walks| == |calls|
    decreases |calls|
  {
    if calls == [] then FRESH
    else
      var n := |calls| - 1;
      Apply(c, digest, Run(c, digest, calls[..n], walks[..n]), calls[n], walks[n]).twin
  }

  function ResultOf(c: Config, digest: Bytes -> Bytes, calls: seq<Call>, walks: seq<seq<Key>>, i: nat): Result
    requires Configured(c) && |walks| == |calls| && i < |calls|
  {
    Apply(c, digest, Run(c, digest, calls[..i], walks[..i]), calls[i], walks[i]).result
  }
}
