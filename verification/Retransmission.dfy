/** What a `REQ` is answered with, in terms of what was sent. */
module Retransmission {
  import opened Common
  import opened OrderedMaps
  import opened Fragments
  import opened FragmentSpec
  import opened FragmentFacts

  /** A frame accepted by `encode`. Frame number `i` of a run goes out under index `i % 256`. */
  datatype Encoded = Encoded(frame: Bytes, destination: string, at: int)

  function EncodedBy(call: Call, out: Outcome): seq<Encoded> {
    if call.Send? && out.Done? then [Encoded(call.frame, call.destination, call.now)] else []
  }

  function Encodes(c: Config, digest: Bytes -> Bytes, s: State, calls: seq<Call>): seq<Encoded>
    requires c.Valid()
  {
    if calls == [] then []
    else
      var n := |calls| - 1;
      Encodes(c, digest, s, calls[..n]) +
      EncodedBy(calls[n], Apply(c, digest, Run(c, digest, s, calls[..n]), calls[n]).outcome)
  }

  predicate Sendable(c: Config, frame: Bytes) {
    c.Valid() && frame != [] && |Chunks(frame, c.fragmentBody)| <= MAX_FRAGMENTS
  }

  /** The cache entry under `ck` holds the fragments of frame number `i`. */
  ghost predicate Backs(c: Config, log: seq<Encoded>, i: nat, ck: CacheKey, cached: Cached) {
    && i < |log|
    && Sendable(c, log[i].frame)
    && ck == KeyOf(log, i)
    && cached == Cached(log[i].destination, log[i].at, AllFragments(log[i].frame, c.fragmentBody, i % 256))
  }

  function KeyOf(log: seq<Encoded>, i: nat): CacheKey
    requires i < |log|
  {
    CacheKey(i % 256, log[i].destination)
  }

  ghost predicate Backed(c: Config, s: State, log: seq<Encoded>) {
    && s.nextIndex == |log| % 256
    && s.txCache.Valid()
    && forall ck :: ck in s.txCache.at ==> exists i: nat :: Backs(c, log, i, ck, s.txCache.at[ck])
  }

  ghost predicate TimesRise(log: seq<Encoded>, clock: int) {
    && (forall i, j :: 0 <= i <= j < |log| ==> log[i].at <= log[j].at)
    && (forall i :: 0 <= i < |log| ==> log[i].at <= clock)
  }

  /** No index is reused within a lifetime: any 257 consecutive frames span more than the lifetime. */
  ghost predicate Sparse(c: Config, log: seq<Encoded>) {
    forall i, j :: 0 <= i < |log| && i + 256 <= j < |log| ==> log[j].at - log[i].at > c.ttl
  }

  ghost predicate Present(c: Config, s: State, log: seq<Encoded>, clock: int) {
    forall i: nat :: i < |log| && log[i].at >= clock - c.ttl ==>
      && KeyOf(log, i) in s.txCache.at
      && Backs(c, log, i, KeyOf(log, i), s.txCache.at[KeyOf(log, i)])
  }

  // ---- The bound of 512 entries ----

  lemma {:induction false} TrimKeepsSome(m: OMap<CacheKey, Cached>, limit: nat)
    requires m.Valid()
    ensures var r := TrimFront(m, limit);
      && r.Valid() && |r.order| <= Max(limit, 0)
      && forall k :: k in r.at ==> k in m.at && r.at[k] == m.at[k]
    decreases |m.order|
  {
    if |m.order| > limit {
      RemoveFirst(m);
      TrimKeepsSome(m.Remove(m.order[0]), limit);
    }
  }

  /** When every index is used once, a swept cache has at most 256 entries. */
  lemma OneEntryPerIndex(m: OMap<CacheKey, Cached>)
    requires m.Valid()
    requires forall a, b :: a in m.at && b in m.at && a.index == b.index ==> a == b
    ensures |m.order| <= 256
  {
    var indices: seq<nat> := seq(|m.order|, i requires 0 <= i < |m.order| => m.order[i].index as nat);
    forall i, j | 0 <= i < j < |m.order| ensures indices[i] != indices[j] {
      assert m.order[i] in Elements(m.order) && m.order[j] in Elements(m.order);
    }
    Pigeonhole(indices, 256);
  }

  // ---- One call ----

  lemma BacksLonger(c: Config, log: seq<Encoded>, e: Encoded, i: nat, ck: CacheKey, cached: Cached)
    requires Backs(c, log, i, ck, cached)
    ensures Backs(c, log + [e], i, ck, cached)
  {
    hide Chunks, AllFragments;
  }

  lemma SweepBacked(c: Config, s: State, log: seq<Encoded>, swept: int)
    requires Backed(c, s, log)
    ensures Backed(c, Sweep(c, s, swept), log)
    ensures var t := Sweep(c, s, swept);
      forall ck :: ck in t.txCache.at ==> t.txCache.at[ck].createdAt >= swept - c.ttl
  {
    hide Backs;
    KeepOnlyValid(s.txCache, set k | k in s.txCache.at && s.txCache.at[k].createdAt >= swept - c.ttl);
  }

  lemma SweepPresent(c: Config, s: State, log: seq<Encoded>, clock: int, swept: int)
    requires Present(c, s, log, clock) && clock <= swept
    ensures Present(c, Sweep(c, s, swept), log, swept)
  {
    hide Chunks, AllFragments;
  }

  lemma EncodeBacked(c: Config, s: State, log: seq<Encoded>, frame: Bytes, destination: string, swept: int, now: int)
    requires Sendable(c, frame) && Backed(c, s, log)
    ensures Backed(c, Encode(c, s, frame, destination, swept, now).state, log + [Encoded(frame, destination, now)])
  {
    hide Chunks, AllFragments, Sweep, TrimFront, Backs, Select;
    SweepBacked(c, s, log, swept);
    var s1 := Sweep(c, s, swept);
    var e := Encoded(frame, destination, now);
    var key := CacheKey(s1.nextIndex, destination);
    var cached := Cached(destination, now, AllFragments(frame, c.fragmentBody, s1.nextIndex));
    var put := s1.txCache.Put(key, cached);
    PutValid(s1.txCache, key, cached);
    MoveToEndValid(put, key);
    TrimKeepsSome(put.MoveToEnd(key), MAX_CACHED);
    NewEntryBacks(c, log, frame, destination, now);
    var t := Encode(c, s, frame, destination, swept, now).state;
    forall ck | ck in t.txCache.at
      ensures exists i: nat :: Backs(c, log + [e], i, ck, t.txCache.at[ck])
    {
      if ck != key {
        var i: nat :| Backs(c, log, i, ck, s1.txCache.at[ck]);
        BacksLonger(c, log, e, i, ck, s1.txCache.at[ck]);
      }
    }
  }

  /** Two live entries never share an index. */
  lemma LiveIndicesDiffer(
    c: Config, s: State, log: seq<Encoded>, clock: int, a: CacheKey, b: CacheKey, i: nat, j: nat)
    requires TimesRise(log, clock) && Sparse(c, log)
    requires a in s.txCache.at && b in s.txCache.at
    requires s.txCache.at[a].createdAt >= clock - c.ttl && s.txCache.at[b].createdAt >= clock - c.ttl
    requires Backs(c, log, i, a, s.txCache.at[a]) && Backs(c, log, j, b, s.txCache.at[b])
    requires a.index == b.index
    ensures i == j && a == b
  {
    hide Chunks, AllFragments;
    SameIndexFarApart(i, j);
  }

  lemma SameIndexFarApart(i: nat, j: nat)
    requires i % 256 == j % 256
    ensures i == j || i + 256 <= j || j + 256 <= i
  {
  }

  lemma SweptCacheSmall(c: Config, s: State, log: seq<Encoded>, clock: int)
    requires Backed(c, s, log) && TimesRise(log, clock) && Sparse(c, log)
    requires forall ck :: ck in s.txCache.at ==> s.txCache.at[ck].createdAt >= clock - c.ttl
    ensures |s.txCache.order| <= 256
  {
    hide Backs;
    forall a, b | a in s.txCache.at && b in s.txCache.at && a.index == b.index ensures a == b {
      var i: nat :| Backs(c, log, i, a, s.txCache.at[a]);
      var j: nat :| Backs(c, log, j, b, s.txCache.at[b]);
      LiveIndicesDiffer(c, s, log, clock, a, b, i, j);
    }
    OneEntryPerIndex(s.txCache);
  }

  lemma EncodePresent(
    c: Config, s: State, log: seq<Encoded>, frame: Bytes, destination: string, clock: int, swept: int, now: int)
    requires Sendable(c, frame) && Backed(c, s, log) && Present(c, s, log, clock)
    requires TimesRise(log, clock) && clock <= swept <= now
    requires Sparse(c, log + [Encoded(frame, destination, now)])
    ensures Present(
      c, Encode(c, s, frame, destination, swept, now).state, log + [Encoded(frame, destination, now)], now)
  {
    hide Chunks, AllFragments, Sweep, Backs;
    var e := Encoded(frame, destination, now);
    var log' := log + [e];
    assert Sparse(c, log) by {
      assert forall i :: 0 <= i < |log| ==> log'[i] == log[i];
    }
    SweepBacked(c, s, log, swept);
    SweepPresent(c, s, log, clock, swept);
    var s1 := Sweep(c, s, swept);
    SweptCacheSmall(c, s1, log, swept);
    var key := CacheKey(s1.nextIndex, destination);
    var cached := Cached(destination, now, AllFragments(frame, c.fragmentBody, s1.nextIndex));
    NewEntryBacks(c, log, frame, destination, now);
    var put := s1.txCache.Put(key, cached);
    PutValid(s1.txCache, key, cached);
    assert |put.MoveToEnd(key).order| <= 512 by {
      SelectMembers(put.order, Elements(put.order) - {key});
    }
    var t := Encode(c, s, frame, destination, swept, now).state;
    assert t.txCache == put.MoveToEnd(key);
    assert log'[|log|] == e;
    forall i: nat | i < |log'| && log'[i].at >= now - c.ttl
      ensures
        && KeyOf(log', i) in t.txCache.at
        && Backs(c, log', i, KeyOf(log', i), t.txCache.at[KeyOf(log', i)])
    {
      if i < |log| {
        assert KeyOf(log', i) == KeyOf(log, i);
        if KeyOf(log, i) == key {
          SameIndexFarApart(i, |log|);
          assert false;
        }
        BacksLonger(c, log, e, i, KeyOf(log, i), s1.txCache.at[KeyOf(log, i)]);
      }
    }
  }

  lemma NewEntryBacks(c: Config, log: seq<Encoded>, frame: Bytes, destination: string, now: int)
    requires Sendable(c, frame)
    ensures var n := |log|;
      Backs(c, log + [Encoded(frame, destination, now)], n, CacheKey(n % 256, destination),
            Cached(destination, now, AllFragments(frame, c.fragmentBody, n % 256)))
  {
    hide Chunks, AllFragments;
  }

  /** Calls that encode nothing. */
  lemma OtherKeepsCache(c: Config, digest: Bytes -> Bytes, s: State, call: Call)
    requires c.Valid()
    requires EncodedBy(call, Apply(c, digest, s, call).outcome) == []
    ensures var t := Apply(c, digest, s, call).state;
      && t.nextIndex == s.nextIndex
      && (t.txCache == s.txCache || t.txCache == Sweep(c, s, call.swept).txCache)
  {
    hide PollFrom, Chunks, AppendRepairs, Missing, Absorb, Join, PopExpired, DropOld;
    if call.PollRepairs? && call.maxRequests > 0 {
      var s1 := Sweep(c, s, call.swept);
      PollKeepsCaches(c, s1, s1.assemblies.order, call.now, call.maxRequests, call.allowControl, []);
    }
  }

  lemma ApplyBacked(c: Config, digest: Bytes -> Bytes, s: State, log: seq<Encoded>, call: Call)
    requires c.Valid() && Backed(c, s, log)
    ensures var reply := Apply(c, digest, s, call);
      Backed(c, reply.state, log + EncodedBy(call, reply.outcome))
  {
    hide Sweep, Chunks, Backs, File, PollFrom;
    var reply := Apply(c, digest, s, call);
    if EncodedBy(call, reply.outcome) == [] {
      assert log + [] == log;
      OtherKeepsCache(c, digest, s, call);
      SweepBacked(c, s, log, call.swept);
      SweepKeepsIndex(c, s, call.swept);
    } else {
      EncodeBacked(c, s, log, call.frame, call.destination, call.swept, call.now);
    }
  }

  lemma SweepKeepsIndex(c: Config, s: State, swept: int)
    ensures Sweep(c, s, swept).nextIndex == s.nextIndex
  {
  }

  lemma ApplyPresent(c: Config, digest: Bytes -> Bytes, s: State, log: seq<Encoded>, clock: int, call: Call)
    requires c.Valid() && Backed(c, s, log) && Present(c, s, log, clock)
    requires TimesRise(log, clock) && clock <= call.swept <= call.now
    requires Sparse(c, log + EncodedBy(call, Apply(c, digest, s, call).outcome))
    ensures var reply := Apply(c, digest, s, call);
      Present(c, reply.state, log + EncodedBy(call, reply.outcome), call.now)
  {
    hide Sweep, Chunks, Backs, File, PollFrom;
    var reply := Apply(c, digest, s, call);
    if EncodedBy(call, reply.outcome) == [] {
      assert log + [] == log;
      OtherKeepsCache(c, digest, s, call);
      SweepPresent(c, s, log, clock, call.swept);
    } else {
      EncodePresent(c, s, log, call.frame, call.destination, clock, call.swept, call.now);
    }
  }

  lemma {:induction false} RunTimes(c: Config, digest: Bytes -> Bytes, calls: seq<Call>, start: int)
    requires c.Valid() && Timed(calls)
    requires calls != [] ==> start <= calls[0].swept
    ensures TimesRise(Encodes(c, digest, INITIAL, calls), Clock(calls, start))
  {
    hide Apply;
    if calls != [] {
      var n := |calls| - 1;
      RunTimes(c, digest, calls[..n], start);
      assert Clock(calls[..n], start) <= calls[n].now;
    }
  }

  lemma {:induction false} RunBacked(c: Config, digest: Bytes -> Bytes, calls: seq<Call>)
    requires c.Valid()
    ensures Backed(c, Run(c, digest, INITIAL, calls), Encodes(c, digest, INITIAL, calls))
  {
    if calls != [] {
      hide Apply, Backed;
      var n := |calls| - 1;
      RunBacked(c, digest, calls[..n]);
      ApplyBacked(
        c, digest, Run(c, digest, INITIAL, calls[..n]), Encodes(c, digest, INITIAL, calls[..n]), calls[n]);
    }
  }

  /** The last call of a run, given the cache before it. */
  lemma LastPresent(c: Config, digest: Bytes -> Bytes, calls: seq<Call>, start: int)
    requires c.Valid() && Timed(calls) && calls != [] && start <= calls[0].swept
    requires Sparse(c, Encodes(c, digest, INITIAL, calls))
    requires var n := |calls| - 1;
      Present(c, Run(c, digest, INITIAL, calls[..n]), Encodes(c, digest, INITIAL, calls[..n]), Clock(calls[..n], start))
    ensures Present(c, Run(c, digest, INITIAL, calls), Encodes(c, digest, INITIAL, calls), calls[|calls| - 1].now)
  {
    hide Apply, Backed, Present, Sparse, TimesRise;
    var n := |calls| - 1;
    var s, log := Run(c, digest, INITIAL, calls[..n]), Encodes(c, digest, INITIAL, calls[..n]);
    EncodesSnoc(c, digest, calls);
    hide Run, Encodes;
    RunBacked(c, digest, calls[..n]);
    RunTimes(c, digest, calls[..n], start);
    ApplyPresent(c, digest, s, log, Clock(calls[..n], start), calls[n]);
  }

  lemma EncodesSnoc(c: Config, digest: Bytes -> Bytes, calls: seq<Call>)
    requires c.Valid() && calls != []
    ensures var n := |calls| - 1; var s := Run(c, digest, INITIAL, calls[..n]);
      && Run(c, digest, INITIAL, calls) == Apply(c, digest, s, calls[n]).state
      && Encodes(c, digest, INITIAL, calls)
         == Encodes(c, digest, INITIAL, calls[..n]) + EncodedBy(calls[n], Apply(c, digest, s, calls[n]).outcome)
    ensures Sparse(c, Encodes(c, digest, INITIAL, calls)) ==>
              Sparse(c, Encodes(c, digest, INITIAL, calls[..|calls| - 1]))
  {
    hide Apply, Sparse;
    var n := |calls| - 1;
    var s, log := Run(c, digest, INITIAL, calls[..n]), Encodes(c, digest, INITIAL, calls[..n]);
    var added := EncodedBy(calls[n], Apply(c, digest, s, calls[n]).outcome);
    hide Run, EncodedBy;
    if Sparse(c, Encodes(c, digest, INITIAL, calls)) {
      SparsePrefix(c, log, added);
    }
  }

  lemma {:induction false} RunPresent(c: Config, digest: Bytes -> Bytes, calls: seq<Call>, start: int)
    requires c.Valid() && Timed(calls)
    requires calls != [] ==> start <= calls[0].swept
    requires Sparse(c, Encodes(c, digest, INITIAL, calls))
    ensures Present(c, Run(c, digest, INITIAL, calls), Encodes(c, digest, INITIAL, calls), Clock(calls, start))
  {
    hide Present, Sparse, Timed, Apply, EncodedBy;
    if calls == [] {
      NothingPresent(c, start);
    } else {
      var n := |calls| - 1;
      EncodesSnoc(c, digest, calls);
      hide Run, Encodes;
      assert calls == calls[..n] + [calls[n]];
      TimedPrefix(calls[..n], calls[n]);
      RunPresent(c, digest, calls[..n], start);
      LastPresent(c, digest, calls, start);
    }
  }

  lemma NothingPresent(c: Config, clock: int)
    ensures Present(c, INITIAL, [], clock)
  {
  }

  lemma SparsePrefix(c: Config, a: seq<Encoded>, b: seq<Encoded>)
    requires Sparse(c, a + b)
    ensures Sparse(c, a)
  {
    assert forall i :: 0 <= i < |a| ==> (a + b)[i] == a[i];
  }

  // ---- Answers ----

  /** The position a request names: zero stands for the final one. */
  function Requested(payload: Bytes, count: nat): nat
    requires |payload| >= 5
  {
    var position := SignedByte(payload[4]);
    if position == 0 then count else Abs(position)
  }

  /** Frame `i` is still within its lifetime and would be looked up for this index. */
  predicate LiveUnder(c: Config, log: seq<Encoded>, i: nat, index: Byte, swept: int) {
    i < |log| && i % 256 == index && log[i].at >= swept - c.ttl
  }

  /**
   * Whatever was sent before, a request is answered by at most one transmission, to the node
   * that asked, and its payload is byte for byte the asked-for fragment of a frame that was
   * sent under the asked-for index, to that node or to everybody, within the lifetime.
   */
  lemma AnswersAreGenuine(c: Config, digest: Bytes -> Bytes, calls: seq<Call>, request: Call)
    requires c.Valid() && Timed(calls + [request])
    requires request.Hear? && IsRequest(request.payload) && request.source != ""
    ensures var out := OutcomeOf(c, digest, INITIAL, calls + [request], |calls|);
            var log := Encodes(c, digest, INITIAL, calls);
      out.Done? && out.transmissions != [] ==>
        && out.frames == [] && |out.transmissions| == 1 && |request.payload| >= 5
        && exists i: nat ::
             && LiveUnder(c, log, i, request.payload[3], request.swept)
             && log[i].destination in {request.source, BROADCAST}
             && Sendable(c, log[i].frame)
             && var p := Requested(request.payload, |Chunks(log[i].frame, c.fragmentBody)|);
                && 1 <= p <= |Chunks(log[i].frame, c.fragmentBody)|
                && out.transmissions[0] == Transmission(
                     request.source, Fragment(log[i].frame, c.fragmentBody, request.payload[3], p), Retransmit)
  {
    hide Run, Encodes, Chunks, Fragment, Sweep, Backs;
    assert (calls + [request])[..|calls|] == calls;
    TimedPrefix(calls, request);
    var s, log := Run(c, digest, INITIAL, calls), Encodes(c, digest, INITIAL, calls);
    RunBacked(c, digest, calls);
    SweepBacked(c, s, log, request.swept);
    var s1 := Sweep(c, s, request.swept);
    var out := OutcomeOf(c, digest, INITIAL, calls + [request], |calls|);
    if out.Done? && out.transmissions != [] {
      var index := request.payload[3];
      var ck := if CacheKey(index, request.source) in s1.txCache.at then CacheKey(index, request.source)
                else CacheKey(index, BROADCAST);
      var i: nat :| Backs(c, log, i, ck, s1.txCache.at[ck]);
      BacksMeans(c, log, i, ck, s1.txCache.at[ck]);
    }
  }

  /** The first reading of a run is not later than the next one. */
  lemma StartFirst(calls: seq<Call>, last: Call)
    requires Timed(calls + [last])
    ensures calls != [] ==> Clock(calls, calls[0].swept) <= last.swept
    ensures last.swept <= last.now
  {
    TimedPrefix(calls, last);
    assert (calls + [last])[|calls|] == last;
  }

  lemma TimedPrefix(calls: seq<Call>, last: Call)
    requires Timed(calls + [last])
    ensures Timed(calls)
    ensures calls != [] ==> calls[|calls| - 1].now <= last.swept
  {
    var all := calls + [last];
    assert forall i :: 0 <= i < |calls| ==> all[i] == calls[i];
    assert all[|calls|] == last;
  }

  lemma BacksMeans(c: Config, log: seq<Encoded>, i: nat, ck: CacheKey, cached: Cached)
    requires Backs(c, log, i, ck, cached)
    ensures i < |log| && Sendable(c, log[i].frame) && ck == KeyOf(log, i)
    ensures cached.createdAt == log[i].at
    ensures |cached.fragments| == |Chunks(log[i].frame, c.fragmentBody)|
    ensures forall p :: 1 <= p <= |cached.fragments| ==>
              cached.fragments[p - 1] == Fragment(log[i].frame, c.fragmentBody, ck.index, p)
  {
    hide Chunks;
  }

  /** The answer when frame `i` is live under the asked-for index. */
  lemma AnsweredFrom(c: Config, digest: Bytes -> Bytes, calls: seq<Call>, request: Call, i: nat)
    requires c.Valid() && Timed(calls + [request])
    requires request.Hear? && request.allowControl && IsRequest(request.payload) && request.source != ""
    requires |request.payload| >= 5
    requires Sparse(c, Encodes(c, digest, INITIAL, calls))
    requires LiveUnder(c, Encodes(c, digest, INITIAL, calls), i, request.payload[3], request.swept)
    ensures var log := Encodes(c, digest, INITIAL, calls);
      && Sendable(c, log[i].frame)
      && (forall j: nat :: LiveUnder(c, log, j, request.payload[3], request.swept) ==> j == i)
      && var count := |Chunks(log[i].frame, c.fragmentBody)|;
         var p := Requested(request.payload, count);
         OutcomeOf(c, digest, INITIAL, calls + [request], |calls|) ==
           if log[i].destination in {request.source, BROADCAST} && 1 <= p <= count
           then Done([], [Transmission(
             request.source, Fragment(log[i].frame, c.fragmentBody, request.payload[3], p), Retransmit)])
           else NOTHING
  {
    hide Run, Encodes, Chunks, Fragment, Sweep, Backs, Timed;
    assert (calls + [request])[..|calls|] == calls;
    TimedPrefix(calls, request);
    StartFirst(calls, request);
    var start := if calls == [] then request.swept else calls[0].swept;
    var s, log := Run(c, digest, INITIAL, calls), Encodes(c, digest, INITIAL, calls);
    RunBacked(c, digest, calls);
    RunTimes(c, digest, calls, start);
    RunPresent(c, digest, calls, start);
    SweepBacked(c, s, log, request.swept);
    SweepPresent(c, s, log, Clock(calls, start), request.swept);
    var s1 := Sweep(c, s, request.swept);
    var own := KeyOf(log, i);
    BacksMeans(c, log, i, own, s1.txCache.at[own]);
    forall j: nat | LiveUnder(c, log, j, request.payload[3], request.swept) ensures j == i {
      SameIndexFarApart(i, j);
    }
    forall ck | ck in s1.txCache.at && ck.index == request.payload[3] ensures ck == own {
      var j: nat :| Backs(c, log, j, ck, s1.txCache.at[ck]);
      BacksMeans(c, log, j, ck, s1.txCache.at[ck]);
      assert LiveUnder(c, log, j, request.payload[3], request.swept);
    }
  }

  /**
   * When no index is reused within a lifetime, the answer is fully determined by the history:
   * there is at most one live frame under the asked-for index, and the request is answered,
   * with exactly the asked-for fragment of that frame, if and only if there is one, it went to the
   * asking node or to everybody, and it has such a position. In every other case: silence.
   */
  lemma AnsweredIff(c: Config, digest: Bytes -> Bytes, calls: seq<Call>, request: Call)
    requires c.Valid() && Timed(calls + [request])
    requires request.Hear? && request.allowControl && IsRequest(request.payload) && request.source != ""
    requires |request.payload| >= 5
    requires Sparse(c, Encodes(c, digest, INITIAL, calls))
    ensures var log := Encodes(c, digest, INITIAL, calls);
            var out := OutcomeOf(c, digest, INITIAL, calls + [request], |calls|);
      && (forall i: nat :: LiveUnder(c, log, i, request.payload[3], request.swept) ==>
            && Sendable(c, log[i].frame)
            && (forall j: nat :: LiveUnder(c, log, j, request.payload[3], request.swept) ==> j == i)
            && var count := |Chunks(log[i].frame, c.fragmentBody)|;
               var p := Requested(request.payload, count);
               out == if log[i].destination in {request.source, BROADCAST} && 1 <= p <= count
                      then Done([], [Transmission(
                        request.source, Fragment(log[i].frame, c.fragmentBody, request.payload[3], p), Retransmit)])
                      else NOTHING)
      && ((forall i: nat :: !LiveUnder(c, log, i, request.payload[3], request.swept)) ==> out == NOTHING)
  {
    hide Run, Encodes, Chunks, Fragment, Sparse, OutcomeOf, Requested, LiveUnder;
    var log := Encodes(c, digest, INITIAL, calls);
    forall i: nat | LiveUnder(c, log, i, request.payload[3], request.swept)
      ensures
        && i < |log| && Sendable(c, log[i].frame)
        && (forall j: nat :: LiveUnder(c, log, j, request.payload[3], request.swept) ==> j == i)
        && var count := |Chunks(log[i].frame, c.fragmentBody)|;
           var p := Requested(request.payload, count);
           OutcomeOf(c, digest, INITIAL, calls + [request], |calls|) ==
             if log[i].destination in {request.source, BROADCAST} && 1 <= p <= count
             then Done([], [Transmission(
               request.source, Fragment(log[i].frame, c.fragmentBody, request.payload[3], p), Retransmit)])
             else NOTHING
    {
      LiveWithin(c, log, i, request.payload[3], request.swept);
      AnsweredFrom(c, digest, calls, request, i);
    }
    AnswersAreGenuine(c, digest, calls, request);
    RequestsAreDone(c, digest, calls, request);
  }

  lemma LiveWithin(c: Config, log: seq<Encoded>, i: nat, index: Byte, swept: int)
    requires LiveUnder(c, log, i, index, swept)
    ensures i < |log|
  {
  }

  /** A complete request never raises and never delivers a frame. */
  lemma RequestsAreDone(c: Config, digest: Bytes -> Bytes, calls: seq<Call>, request: Call)
    requires c.Valid() && request.Hear? && IsRequest(request.payload) && request.source != ""
    requires |request.payload| >= 5
    ensures var out := OutcomeOf(c, digest, INITIAL, calls + [request], |calls|); out.Done? && out.frames == []
  {
    hide Run, Sweep;
  }
}
