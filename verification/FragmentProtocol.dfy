/** The protocol object of `framing.py`, statement by statement, against `FragmentSpec`. */
module FragmentProtocols {
  import opened Common
  import opened OrderedMaps
  import opened Fragments
  import Spec = FragmentSpec

  /** One turn of the polling loop. */
  lemma PollStep(
    c: Spec.Config, s: Spec.State, keys: seq<Spec.Key>, i: nat, now: int, maxRequests: int,
    allowControl: bool, sent: seq<Transmission>)
    requires i < |keys|
    ensures Spec.PollFrom(c, s, keys[i..], now, maxRequests, allowControl, sent)
         == (if keys[i] !in s.assemblies.at || now - s.assemblies.at[keys[i]].updatedAt < c.cooldown then
               Spec.PollFrom(c, s, keys[i + 1..], now, maxRequests, allowControl, sent)
             else if maxRequests - |sent| <= 0 then Spec.Reply(s, Spec.Done([], sent))
             else if !allowControl then
               Spec.PollFrom(c, s, keys[i + 1..], now, maxRequests, allowControl, sent)
             else
               var a := s.assemblies.at[keys[i]];
               var r := Spec.AppendRepairs(c, Spec.Repairs(a, s.requestTimes, sent), keys[i], Spec.Missing(a),
                                           now, maxRequests - |sent|, false);
               Spec.PollFrom(
                 c, s.(assemblies := s.assemblies.Put(keys[i], r.assembly), requestTimes := r.times),
                 keys[i + 1..], now, maxRequests, allowControl, r.sent))
  {
    assert keys[i..][1..] == keys[i + 1..];
  }

  class FragmentProtocol {
    const config: Spec.Config
    const digest: Bytes -> Bytes
    var nextIndex: Byte
    var assemblies: OMap<Spec.Key, Spec.Assembly>
    var txCache: OMap<Spec.CacheKey, Spec.Cached>
    var completed: OMap<Spec.Completion, int>
    var completedIndices: OMap<Spec.Key, int>
    var requestTimes: seq<int>

    function View(): Spec.State
      reads this
    {
      Spec.State(nextIndex, assemblies, txCache, completed, completedIndices, requestTimes)
    }

    constructor (config: Spec.Config, digest: Bytes -> Bytes)
      requires config.Valid()
      ensures this.config == config && this.digest == digest
      ensures View() == Spec.INITIAL
    {
      this.config, this.digest := config, digest;
      nextIndex := 0;
      assemblies, txCache := EmptyMap(), EmptyMap();
      completed, completedIndices := EmptyMap(), EmptyMap();
      requestTimes := [];
    }

    method CleanupRepairBudget(now: int)
      modifies this`requestTimes
      ensures requestTimes == Spec.DropOld(old(requestTimes), now - config.window)
    {
      var cutoff := now - config.window;
      while requestTimes != [] && requestTimes[0] <= cutoff
        invariant Spec.DropOld(requestTimes, cutoff) == Spec.DropOld(old(requestTimes), cutoff)
        decreases |requestTimes|
      {
        requestTimes := requestTimes[1..];
      }
    }

    static method PopExpired<K(==)>(m: OMap<K, int>, cutoff: int) returns (kept: OMap<K, int>)
      ensures kept == Spec.PopExpired(m, cutoff)
    {
      kept := m;
      while kept.order != [] && kept.order[0] in kept.at && kept.at[kept.order[0]] < cutoff
        invariant Spec.PopExpired(kept, cutoff) == Spec.PopExpired(m, cutoff)
        decreases |kept.at|
      {
        ghost var before := kept;
        kept := kept.Remove(kept.order[0]);
        assert kept.at.Keys == before.at.Keys - {before.order[0]};
      }
    }

    method CleanupLocked(now: int)
      modifies this
      ensures View() == Spec.Sweep(config, old(View()), now)
    {
      hide Spec.DropOld, Spec.PopExpired, Select;
      var cutoff := now - config.ttl;
      CleanupRepairBudget(now);
      assemblies := assemblies.KeepOnly(
        set k | k in assemblies.at && assemblies.at[k].updatedAt >= cutoff);
      txCache := txCache.KeepOnly(
        set k | k in txCache.at && txCache.at[k].createdAt >= cutoff);
      completed := PopExpired(completed, cutoff);
      completedIndices := PopExpired(completedIndices, cutoff);
    }

    static method Cut(frame: Bytes, body: nat) returns (chunks: seq<Bytes>)
      requires frame != [] && body >= 1
      ensures chunks == Chunks(frame, body)
    {
      chunks := [];
      var offset := 0;
      while offset + body < |frame|
        invariant 0 <= offset < |frame|
        invariant chunks + Chunks(frame[offset..], body) == Chunks(frame, body)
      {
        assert frame[offset..][..body] == frame[offset..offset + body];
        assert frame[offset..][body..] == frame[offset + body..];
        chunks := chunks + [frame[offset..offset + body]];
        offset := offset + body;
      }
      chunks := chunks + [frame[offset..]];
    }

    method Encode(frame: Bytes, destination: string, swept: int, now: int) returns (out: Spec.Outcome)
      requires config.Valid()
      modifies this
      ensures Spec.Reply(View(), out) == Spec.Encode(config, old(View()), frame, destination, swept, now)
    {
      if frame == [] {
        return Spec.Raised(Spec.EmptyFrame);
      }
      var chunks := Cut(frame, config.fragmentBody);
      if |chunks| > MAX_FRAGMENTS {
        return Spec.Raised(Spec.TooManyFragments);
      }
      CleanupLocked(swept);
      var index := nextIndex;
      nextIndex := Spec.Wrap(nextIndex);
      var fragments: seq<Bytes> := [];
      var transmissions: seq<Transmission> := [];
      for i := 0 to |chunks|
        invariant fragments == AllFragments(frame, config.fragmentBody, index)[..i]
        invariant transmissions == Spec.DataTransmissions(destination, fragments)
        modifies {}
      {
        var position := i + 1;
        var payload := [index, PackSigned(WirePosition(position, |chunks|))] + chunks[i];
        fragments := fragments + [payload];
        transmissions := transmissions + [Transmission(destination, payload, Data)];
      }
      assert fragments == AllFragments(frame, config.fragmentBody, index);
      hide Chunks, AllFragments, Spec.DataTransmissions, Select;
      var key := Spec.CacheKey(index, destination);
      var cache := txCache.Put(key, Spec.Cached(destination, now, fragments)).MoveToEnd(key);
      ghost var full := cache;
      while |cache.order| > Spec.MAX_CACHED
        invariant TrimFront(cache, Spec.MAX_CACHED) == TrimFront(full, Spec.MAX_CACHED)
        modifies {}
        decreases |cache.order|
      {
        SelectMembers(cache.order[1..], cache.at.Keys - {cache.order[0]});
        cache := cache.Remove(cache.order[0]);
      }
      txCache := cache;
      return Spec.Done([], transmissions);
    }

    method HandleRequest(source: string, metadata: Bytes) returns (out: Spec.Outcome)
      ensures out == Spec.HandleRequest(View(), source, metadata)
    {
      if |metadata| < 2 {
        return Spec.Raised(Spec.Truncated);
      }
      var index, position := metadata[0], SignedByte(metadata[1]);
      var cached: Spec.Cached;
      if Spec.CacheKey(index, source) in txCache.at {
        cached := txCache.at[Spec.CacheKey(index, source)];
      } else if Spec.CacheKey(index, Spec.BROADCAST) in txCache.at {
        cached := txCache.at[Spec.CacheKey(index, Spec.BROADCAST)];
      } else {
        return Spec.NOTHING;
      }
      var requested := if position == 0 then |cached.fragments| else Abs(position);
      if !(1 <= requested <= |cached.fragments|) {
        return Spec.NOTHING;
      }
      return Spec.Done([], [Transmission(source, cached.fragments[requested - 1], Retransmit)]);
    }

    /** `sent` is the list of transmissions being built; `a` the assembly that is being repaired. */
    method AppendRepairRequests(
      sent: seq<Transmission>, key: Spec.Key, a: Spec.Assembly, missing: seq<nat>, now: int,
      budget: int, immediate: bool)
      returns (assembly: Spec.Assembly, transmissions: seq<Transmission>)
      modifies this`requestTimes
      ensures Spec.Repairs(assembly, requestTimes, transmissions)
           == Spec.AppendRepairs(config, Spec.Repairs(a, old(requestTimes), sent), key, missing, now, budget, immediate)
    {
      assembly, transmissions := a, sent;
      var left := budget;
      ghost var goal :=
        Spec.AppendRepairs(config, Spec.Repairs(a, requestTimes, sent), key, missing, now, budget, immediate);
      var i := 0;
      while i < |missing|
        invariant 0 <= i <= |missing|
        invariant Spec.AppendRepairs(
                    config, Spec.Repairs(assembly, requestTimes, transmissions), key, missing[i..], now, left,
                    immediate)
               == goal
      {
        var p := missing[i];
        assert missing[i..][1..] == missing[i + 1..];
        if left <= 0 {
          break;
        }
        var attempts := Spec.Lookup0(assembly.attempts, p, 0);
        if attempts >= config.maxAttempts {
          i := i + 1;
          continue;
        }
        var last := Spec.Lookup0(assembly.requestedAt, p, 0);
        var due := if attempts == 0 then immediate || now - assembly.updatedAt >= config.cooldown
                   else now - last >= config.cooldown * Spec.Pow2(attempts);
        if !due {
          i := i + 1;
          continue;
        }
        CleanupRepairBudget(now);
        if |requestTimes| >= config.maxRequests {
          return;
        }
        transmissions := transmissions + [Transmission(key.source, Request(key.index, p), Repair)];
        requestTimes := requestTimes + [now];
        assembly := assembly.(requestedAt := assembly.requestedAt[p := now]);
        assembly := assembly.(attempts := assembly.attempts[p := attempts + 1]);
        left := left - 1;
        i := i + 1;
      }
    }

    static method MissingPositions(fragments: map<nat, Bytes>, final: nat) returns (missing: seq<nat>)
      ensures missing == Spec.MissingFrom(fragments, 1, final)
    {
      missing := [];
      var p := 1;
      while p <= final
        invariant 1 <= p <= final + 1
        invariant missing + Spec.MissingFrom(fragments, p, final) == Spec.MissingFrom(fragments, 1, final)
      {
        if p !in fragments {
          missing := missing + [p];
        }
        p := p + 1;
      }
    }

    method PollRepairs(maxRequests: int, allowControl: bool, swept: int, now: int)
      returns (out: Spec.Outcome)
      modifies this
      ensures Spec.Reply(View(), out) == Spec.Poll(config, old(View()), maxRequests, allowControl, swept, now)
    {
      if maxRequests <= 0 {
        return Spec.NOTHING;
      }
      CleanupLocked(swept);
      var sent: seq<Transmission> := [];
      var keys := assemblies.order;
      ghost var goal := Spec.Poll(config, old(View()), maxRequests, allowControl, swept, now);
      for i := 0 to |keys|
        invariant Spec.PollFrom(config, View(), keys[i..], now, maxRequests, allowControl, sent) == goal
      {
        var key := keys[i];
        PollStep(config, View(), keys, i, now, maxRequests, allowControl, sent);
        if key !in assemblies.at {
          continue;
        }
        var assembly := assemblies.at[key];
        if now - assembly.updatedAt < config.cooldown {
          continue;
        }
        var missing := [0];
        if assembly.final.Some? {
          missing := MissingPositions(assembly.fragments, assembly.final.value);
        }
        var remaining := maxRequests - |sent|;
        if remaining <= 0 {
          break;
        }
        if !allowControl {
          continue;
        }
        assembly, sent := AppendRepairRequests(sent, key, assembly, missing, now, remaining, false);
        assemblies := assemblies.Put(key, assembly);
      }
      return Spec.Done([], sent);
    }

    static method JoinFragments(fragments: map<nat, Bytes>, n: nat) returns (frame: Bytes)
      ensures frame == Spec.Join(fragments, n)
    {
      frame := [];
      for p := 1 to n + 1
        invariant frame == Spec.Join(fragments, p - 1)
      {
        if p in fragments {
          frame := frame + fragments[p];
        }
      }
    }

    method HandleFragment(source: string, payload: Bytes, allowControl: bool, now: int)
      returns (out: Spec.Outcome)
      modifies this
      ensures Spec.Reply(View(), out)
           == (if Spec.Malformed(payload).Some? then Spec.Reply(old(View()), Spec.Raised(Spec.Malformed(payload).value))
               else Spec.File(config, digest, old(View()), Spec.Key(source, payload[0]),
                              SignedByte(payload[1]), payload[2..], now, allowControl))
    {
      if |payload| < 2 {
        return Spec.Raised(Spec.Truncated);
      }
      var wire := SignedByte(payload[1]);
      if wire == 0 {
        return Spec.Raised(Spec.PositionZero);
      }
      var position := Abs(wire);
      if |payload| == 2 {
        return Spec.Raised(Spec.NoBody);
      }
      var key := Spec.Key(source, payload[0]);
      if key in completedIndices.at {
        return Spec.NOTHING;
      }
      var assembly := if key in assemblies.at then assemblies.at[key] else Spec.Fresh(now);
      var body := payload[2..];
      var progress := !(position in assembly.fragments && assembly.fragments[position] == body);
      if wire < 0 && assembly.final != Some(position) {
        progress := true;
      }
      if progress {
        assembly := assembly.(updatedAt := now,
                              requestedAt := assembly.requestedAt - {position},
                              attempts := assembly.attempts - {position});
      }
      assembly := assembly.(fragments := assembly.fragments[position := body]);
      if wire < 0 {
        assembly := assembly.(final := Some(position),
                              requestedAt := assembly.requestedAt - {0},
                              attempts := assembly.attempts - {0});
      }
      assemblies := assemblies.Put(key, assembly);
      if assembly.final.None? {
        return Spec.NOTHING;
      }
      var missing := MissingPositions(assembly.fragments, assembly.final.value);
      if missing != [] {
        var sent: seq<Transmission> := [];
        if allowControl {
          assembly, sent := AppendRepairRequests([], key, assembly, missing, now, 1, true);
          assemblies := assemblies.Put(key, assembly);
        }
        return Spec.Done([], sent);
      }
      var frame := JoinFragments(assembly.fragments, assembly.final.value);
      var done := Spec.Completion(key, digest(frame));
      assemblies := assemblies.Remove(key);
      if done in completed.at {
        return Spec.NOTHING;
      }
      completed := completed.Put(done, now).MoveToEnd(done);
      completedIndices := completedIndices.Put(key, now).MoveToEnd(key);
      return Spec.Done([frame], []);
    }

    method Receive(source: string, payload: Bytes, allowControl: bool, swept: int, now: int)
      returns (out: Spec.Outcome)
      modifies this
      ensures Spec.Reply(View(), out)
           == Spec.Receive(config, digest, old(View()), source, payload, allowControl, swept, now)
    {
      if source == "" {
        return Spec.Raised(Spec.EmptySource);
      }
      CleanupLocked(swept);
      if IsRequest(payload) {
        if !allowControl {
          return Spec.NOTHING;
        }
        out := HandleRequest(source, payload[3..]);
        return;
      }
      out := HandleFragment(source, payload, allowControl, now);
    }
  }
}
