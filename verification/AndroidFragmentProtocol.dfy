/** The protocol object of `FragmentProtocol.java` against `AndroidFragmentSpec`. */
module AndroidFragmentProtocols {
  import opened Common
  import opened OrderedMaps
  import opened Fragments
  import Base = FragmentSpec
  import Facts = FragmentFacts
  import Spec = AndroidFragmentSpec

  class FragmentProtocol {
    const config: Base.Config
    const digest: Bytes -> Bytes
    var nextIndex: Byte
    var assemblies: map<Base.Key, Base.Assembly>
    var txCache: OMap<Base.CacheKey, Base.Cached>
    var completed: map<Base.Completion, int>
    var completedIndices: map<Base.Key, int>
    var repairWindow: seq<int>

    function View(): Spec.Twin
      reads this
    {
      Spec.Twin(nextIndex, assemblies, txCache, completed, completedIndices, repairWindow)
    }

    constructor (config: Base.Config, digest: Bytes -> Bytes)
      requires Spec.Configured(config)
      ensures this.config == config && this.digest == digest && View() == Spec.FRESH
    {
      this.config, this.digest := config, digest;
      nextIndex, assemblies, txCache := 0, map[], EmptyMap();
      completed, completedIndices, repairWindow := map[], map[], [];
    }

    method CleanupRepairBudget(current: int)
      modifies this`repairWindow
      ensures repairWindow == Base.DropOld(old(repairWindow), current - config.window)
    {
      var cutoff := current - config.window;
      while repairWindow != [] && repairWindow[0] <= cutoff
        invariant Base.DropOld(repairWindow, cutoff) == Base.DropOld(old(repairWindow), cutoff)
        decreases |repairWindow|
      {
        repairWindow := repairWindow[1..];
      }
    }

    method Cleanup(current: int)
      modifies this
      ensures View() == Spec.Cleanup(config, old(View()), current)
    {
      hide Base.DropOld, Select;
      var cutoff := current - config.ttl;
      CleanupRepairBudget(current);
      assemblies := map k | k in assemblies && assemblies[k].updatedAt >= cutoff :: assemblies[k];
      txCache := txCache.KeepOnly(set k | k in txCache.at && txCache.at[k].createdAt >= cutoff);
      completed := Spec.Recent(completed, cutoff);
      completedIndices := Spec.Recent(completedIndices, cutoff);
    }

    method TakeRepairBudget(current: int) returns (taken: bool)
      modifies this`repairWindow
      ensures var kept := Base.DropOld(old(repairWindow), current - config.window);
        && taken == (|kept| < config.maxRequests)
        && repairWindow == if taken then kept + [current] else kept
    {
      CleanupRepairBudget(current);
      if |repairWindow| >= config.maxRequests {
        return false;
      }
      repairWindow := repairWindow + [current];
      return true;
    }

    method Encode(frame: Bytes, destination: string, swept: int, now: int) returns (out: Spec.Result)
      requires Spec.Configured(config)
      modifies this
      ensures Spec.Answer(View(), out) == Spec.Encode(config, old(View()), frame, destination, swept, now)
    {
      if frame == [] {
        return Spec.Refused;
      }
      var body := config.fragmentBody;
      var count := (|frame| + body - 1) / body;
      ChunkCount(frame, body);
      if count > MAX_FRAGMENTS {
        return Spec.Refused;
      }
      Cleanup(swept);
      var index := nextIndex;
      nextIndex := Base.Wrap(nextIndex);
      ghost var all := AllFragments(frame, body, index);
      var cached := CutAll(frame, body, index, count);
      txCache := txCache.Put(Base.CacheKey(index, destination), Base.Cached(destination, now, cached));
      ghost var full := txCache;
      while |txCache.order| > Base.MAX_CACHED
        invariant TrimFront(txCache, Base.MAX_CACHED) == TrimFront(full, Base.MAX_CACHED)
        invariant View() == Spec.Cleanup(config, old(View()), swept).(nextIndex := nextIndex, txCache := txCache)
        invariant nextIndex == Base.Wrap(index)
        decreases |txCache.order|
      {
        SelectMembers(txCache.order[1..], txCache.at.Keys - {txCache.order[0]});
        txCache := txCache.Remove(txCache.order[0]);
      }
      return Spec.Result([], Base.DataTransmissions(destination, cached), false);
    }

    /** The loop that copies each fragment out of the frame. */
    static method CutAll(frame: Bytes, body: nat, index: Byte, count: nat) returns (fragments: seq<Bytes>)
      requires frame != [] && body >= 1 && count == |Chunks(frame, body)|
      ensures fragments == AllFragments(frame, body, index)
    {
      fragments := [];
      for position := 1 to count + 1
        invariant fragments == AllFragments(frame, body, index)[..position - 1]
      {
        var offset := (position - 1) * body;
        ChunkAt(frame, body, position - 1, offset);
        var size := Min(body, |frame| - offset);
        var wire := if position == count then -position else position;
        fragments := fragments + [[index, PackSigned(wire)] + frame[offset..offset + size]];
      }
    }

    method HandleRequest(source: string, payload: Bytes, allowControl: bool) returns (out: Spec.Result)
      ensures out == Spec.HandleRequest(View(), source, payload, allowControl)
    {
      if |payload| < 5 {
        return Spec.QUIET;
      }
      var index, position := payload[3], Abs(SignedByte(payload[4]));
      var cached: Base.Cached;
      if Base.CacheKey(index, source) in txCache.at {
        cached := txCache.at[Base.CacheKey(index, source)];
      } else if Base.CacheKey(index, Base.BROADCAST) in txCache.at {
        cached := txCache.at[Base.CacheKey(index, Base.BROADCAST)];
      } else {
        return Spec.QUIET;
      }
      if position == 0 {
        position := |cached.fragments|;
      }
      if !(1 <= position <= |cached.fragments|) {
        return Spec.QUIET;
      }
      if !allowControl {
        return Spec.Result([], [], true);
      }
      return Spec.Result([], [Transmission(source, cached.fragments[position - 1], Retransmit)], false);
    }

    method HasDueRepair(a: Base.Assembly, missing: seq<nat>, current: int, immediate: bool) returns (due: bool)
      ensures due == Facts.HasDueRepair(config, a, missing, current, immediate)
    {
      for i := 0 to |missing|
        invariant forall j :: 0 <= j < i ==> !Facts.Askable(config, a, missing[j], current, immediate)
      {
        if Base.Lookup0(a.attempts, missing[i], 0) < config.maxAttempts
           && Base.RepairDue(config, a, missing[i], current, immediate) {
          return true;
        }
      }
      return false;
    }

    method AppendRepairRequests(
      sent: seq<Transmission>, key: Base.Key, a: Base.Assembly, missing: seq<nat>, now: int,
      budget: int, immediate: bool)
      returns (assembly: Base.Assembly, transmissions: seq<Transmission>)
      modifies this`repairWindow
      ensures Base.Repairs(assembly, repairWindow, transmissions)
           == Base.AppendRepairs(config, Base.Repairs(a, old(repairWindow), sent), key, missing, now, budget, immediate)
    {
      assembly, transmissions := a, sent;
      var left := budget;
      ghost var goal :=
        Base.AppendRepairs(config, Base.Repairs(a, repairWindow, sent), key, missing, now, budget, immediate);
      for i := 0 to |missing|
        invariant Base.AppendRepairs(
                    config, Base.Repairs(assembly, repairWindow, transmissions), key, missing[i..], now, left,
                    immediate)
               == goal
      {
        var p := missing[i];
        assert missing[i..][1..] == missing[i + 1..];
        if left <= 0 {
          break;
        }
        var attempts := Base.Lookup0(assembly.attempts, p, 0);
        if attempts >= config.maxAttempts || !Base.RepairDue(config, assembly, p, now, immediate) {
          continue;
        }
        var taken := TakeRepairBudget(now);
        if !taken {
          return;
        }
        transmissions := transmissions + [Transmission(key.source, Request(key.index, p), Repair)];
        assembly := assembly.(requestedAt := assembly.requestedAt[p := now]);
        assembly := assembly.(attempts := assembly.attempts[p := attempts + 1]);
        left := left - 1;
      }
    }

    static method MissingPositions(a: Base.Assembly) returns (missing: seq<nat>)
      requires a.final.Some?
      ensures missing == Base.Missing(a)
    {
      missing := [];
      var final := a.final.value;
      for p := 1 to final + 1
        invariant missing + Base.MissingFrom(a.fragments, p, final) == Base.MissingFrom(a.fragments, 1, final)
      {
        if p !in a.fragments {
          missing := missing + [p];
        }
      }
    }

    /** The part of `receive` behind the header. */
    method HandleFragment(key: Base.Key, wire: int, body: Bytes, allowControl: bool, now: int)
      returns (out: Spec.Result)
      modifies this
      ensures Spec.Answer(View(), out) == Spec.File(config, digest, old(View()), key, wire, body, now, allowControl)
    {
      if key in completedIndices {
        return Spec.QUIET;
      }
      var assembly := Absorbed(Spec.AssemblyFor(View(), key), wire, body, now);
      assemblies := assemblies[key := assembly];
      if assembly.final.None? {
        return Spec.QUIET;
      }
      var missing := MissingPositions(assembly);
      if missing != [] {
        if !allowControl {
          var due := HasDueRepair(assembly, missing, now, true);
          return Spec.Result([], [], due && |repairWindow| < config.maxRequests);
        }
        var sent: seq<Transmission>;
        assembly, sent := AppendRepairRequests([], key, assembly, missing, now, 1, true);
        assemblies := assemblies[key := assembly];
        return Spec.Result([], sent, false);
      }
      var frame: Bytes := [];
      for p := 1 to assembly.final.value + 1
        invariant frame == Base.Join(assembly.fragments, p - 1)
        modifies {}
      {
        if p in assembly.fragments {
          frame := frame + assembly.fragments[p];
        }
      }
      out := CompleteFrame(key, frame, now);
    }

    method CompleteFrame(key: Base.Key, frame: Bytes, now: int) returns (out: Spec.Result)
      modifies this
      ensures Spec.Answer(View(), out) == Spec.Complete(old(View()), key, frame, digest(frame), now)
    {
      var done := Base.Completion(key, digest(frame));
      assemblies := assemblies - {key};
      if done in completed {
        return Spec.QUIET;
      }
      completed := completed[done := now];
      completedIndices := completedIndices[key := now];
      return Spec.Result([frame], [], false);
    }

    /** The updates of one assembly's maps. */
    static method Absorbed(a: Base.Assembly, wire: int, body: Bytes, now: int) returns (assembly: Base.Assembly)
      ensures assembly == Base.Absorb(a, wire, body, now)
    {
      assembly := a;
      var position := Abs(wire);
      var progress := !(position in assembly.fragments && assembly.fragments[position] == body)
        || (wire < 0 && assembly.final != Some(position));
      if progress {
        assembly := assembly.(updatedAt := now,
                              requestedAt := assembly.requestedAt - {position},
                              attempts := assembly.attempts - {position});
      }
      assembly := assembly.(fragments := assembly.fragments[position := body]);
      if wire < 0 {
        assembly := assembly.(final := Some(position),
                              requestedAt := assembly.requestedAt - {0},
                              attempts := assembly.attempts - {0});
      }
    }

    method Receive(source: string, payload: Bytes, allowControl: bool, swept: int, now: int)
      returns (out: Spec.Result)
      modifies this
      ensures Spec.Answer(View(), out)
           == Spec.Receive(config, digest, old(View()), source, payload, allowControl, swept, now)
    {
      Cleanup(swept);
      if IsRequest(payload) {
        out := HandleRequest(source, payload, allowControl);
        return;
      }
      if |payload| < 3 {
        return Spec.Refused;
      }
      var wire := SignedByte(payload[1]);
      if wire == 0 || wire == -128 {
        return Spec.Refused;
      }
      out := HandleFragment(Base.Key(source, payload[0]), wire, payload[2..], allowControl, now);
    }

    /** `keys` is the order in which the hash map of assemblies is walked. */
    method PollRepairs(keys: seq<Base.Key>, maxRequests: int, allowControl: bool, swept: int, now: int)
      returns (out: Spec.Result)
      modifies this
      ensures Spec.Answer(View(), out)
           == Spec.Poll(config, old(View()), keys, maxRequests, allowControl, swept, now)
    {
      Cleanup(swept);
      if maxRequests <= 0 {
        return Spec.QUIET;
      }
      var sent: seq<Transmission> := [];
      ghost var goal := Spec.Poll(config, old(View()), keys, maxRequests, allowControl, swept, now);
      for i := 0 to |keys|
        invariant Spec.PollFrom(config, View(), keys[i..], now, maxRequests, allowControl, sent) == goal
      {
        var key := keys[i];
        assert keys[i..][1..] == keys[i + 1..] && keys[i..][0] == key;
        if key !in assemblies || now - assemblies[key].updatedAt < config.cooldown {
          continue;
        }
        var assembly := assemblies[key];
        var missing := [0];
        if assembly.final.Some? {
          missing := MissingPositions(assembly);
        }
        if !allowControl {
          var due := HasDueRepair(assembly, missing, now, false);
          if due {
            return Spec.Result([], sent, |repairWindow| < config.maxRequests);
          }
          continue;
        }
        assembly, sent := AppendRepairRequests(sent, key, assembly, missing, now, maxRequests - |sent|, false);
        assemblies := assemblies[key := assembly];
        if |sent| >= maxRequests {
          break;
        }
      }
      return Spec.Result([], sent, false);
    }
  }
}
