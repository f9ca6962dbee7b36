/** End-to-end integrity and delivery over an arbitrary radio channel. */
module Reassembly {
  import opened Common
  import opened OrderedMaps
  import opened Fragments
  import opened FragmentSpec
  import opened FragmentFacts
  import opened Completions

  /** A frame as some sender cut it; the sender's fragment body size need not be the receiver's. */
  datatype Sent = Sent(frame: Bytes, body: nat) {
    predicate Valid() {
      frame != [] && body >= 1 && |Chunks(frame, body)| <= MAX_FRAGMENTS
    }

    function Count(): nat
      requires Valid()
    {
      |Chunks(frame, body)|
    }

    function Piece(p: nat): Bytes
      requires Valid() && 1 <= p <= Count()
    {
      Chunks(frame, body)[p - 1]
    }
  }

  /** The call hears fragment `p` of the frame known under `key`. */
  ghost predicate Carries(call: Call, key: Key, f: Sent, p: nat)
    requires f.Valid()
  {
    && 1 <= p <= f.Count()
    && call.Hear? && call.source == key.source
    && call.payload == Fragment(f.frame, f.body, key.index, p)
  }

  /** The call files a fragment under `key`. */
  predicate OnKey(call: Call, key: Key) {
    && call.Hear? && call.source == key.source && call.source != ""
    && !IsRequest(call.payload) && Malformed(call.payload).None?
    && call.payload[0] == key.index
  }

  /**
   * The key names one frame: whatever is filed under it is a fragment of that frame. Requests,
   * refused payloads, other keys, polls, sends and clean-ups are unrestricted.
   */
  ghost predicate Genuine(call: Call, key: Key, f: Sent)
    requires f.Valid()
  {
    OnKey(call, key) ==> exists p: nat :: Carries(call, key, f, p)
  }

  ghost predicate Agrees(a: Assembly, f: Sent)
    requires f.Valid()
  {
    && (forall p :: p in a.fragments ==> 1 <= p <= f.Count() && a.fragments[p] == f.Piece(p))
    && (a.final.Some? ==> a.final.value == f.Count() && f.Count() in a.fragments)
  }

  ghost predicate Partial(s: State, key: Key, f: Sent)
    requires f.Valid()
  {
    key in s.assemblies.at ==> Agrees(s.assemblies.at[key], f)
  }

  // ---- Joining ----

  lemma {:induction false} JoinPrefix(fragments: map<nat, Bytes>, f: Sent, n: nat)
    requires f.Valid() && n <= f.Count()
    requires forall p :: 1 <= p <= n ==> p in fragments && fragments[p] == f.Piece(p)
    ensures Join(fragments, n) == Flatten(Chunks(f.frame, f.body)[..n])
  {
    hide Chunks;
    var chunks := Chunks(f.frame, f.body);
    if n > 0 {
      JoinPrefix(fragments, f, n - 1);
      assert chunks[..n] == chunks[..n - 1] + [chunks[n - 1]];
      FlattenAppend(chunks[..n - 1], [chunks[n - 1]]);
      FlattenOne(chunks[n - 1]);
    }
  }

  lemma JoinWhole(a: Assembly, f: Sent)
    requires f.Valid() && Agrees(a, f) && a.final.Some? && Missing(a) == []
    ensures Join(a.fragments, a.final.value) == f.frame
  {
    hide Chunks, Join;
    NothingMissing(a.fragments, a.final.value);
    JoinPrefix(a.fragments, f, f.Count());
    ChunksRejoin(f.frame, f.body);
    var chunks := Chunks(f.frame, f.body);
    assert chunks[..|chunks|] == chunks;
  }

  // ---- One call ----

  lemma CarriedHeader(call: Call, key: Key, f: Sent, p: nat)
    requires f.Valid() && Carries(call, key, f, p)
    ensures Malformed(call.payload).None? && call.payload[0] == key.index
    ensures SignedByte(call.payload[1]) == WirePosition(p, f.Count())
    ensures call.payload[2..] == f.Piece(p)
  {
    HeaderReadsBack(f.frame, f.body, key.index, p);
  }

  lemma AbsorbAgrees(a: Assembly, f: Sent, p: nat, now: int)
    requires f.Valid() && Agrees(a, f) && 1 <= p <= f.Count()
    ensures Agrees(Absorb(a, WirePosition(p, f.Count()), f.Piece(p), now), f)
  {
    hide Chunks;
  }

  /** Filing under another key. */
  lemma FileOther(
    c: Config, digest: Bytes -> Bytes, s: State, owner: Key, wire: int, body: Bytes, now: int,
    allowControl: bool, key: Key)
    requires owner != key
    ensures var t := File(c, digest, s, owner, wire, body, now, allowControl).state;
      && (key in t.assemblies.at <==> key in s.assemblies.at)
      && (key in s.assemblies.at ==> t.assemblies.at[key] == s.assemblies.at[key])
      && (key in t.completedIndices.at ==> key in s.completedIndices.at)
  {
    hide AppendRepairs, Missing, Absorb, Join;
  }

  lemma FileOwn(
    c: Config, digest: Bytes -> Bytes, s: State, key: Key, f: Sent, p: nat, now: int, allowControl: bool)
    requires f.Valid() && Partial(s, key, f) && 1 <= p <= f.Count()
    ensures var reply := File(c, digest, s, key, WirePosition(p, f.Count()), f.Piece(p), now, allowControl);
      && Partial(reply.state, key, f)
      && reply.outcome.Done?
      && (reply.outcome.frames == [] || reply.outcome.frames == [f.frame])
  {
    hide AppendRepairs, Missing, Absorb, Join, Chunks;
    if key !in s.completedIndices.at {
      var before := AssemblyFor(s, key, now);
      var a := Absorb(before, WirePosition(p, f.Count()), f.Piece(p), now);
      AbsorbAgrees(before, f, p, now);
      if a.final.Some? {
        if Missing(a) == [] {
          JoinWhole(a, f);
        } else {
          AppendKeepsShape(c, Repairs(a, s.requestTimes, []), key, Missing(a), now, 1, true);
        }
      }
    }
  }

  /** A call that files nothing under `key` leaves its assembly and its completion mark as they were. */
  lemma ApplyElsewhere(c: Config, digest: Bytes -> Bytes, s: State, call: Call, key: Key)
    requires c.Valid() && !OnKey(call, key)
    ensures var s1, t := Swept(c, s, call), Apply(c, digest, s, call).state;
      && (key in t.assemblies.at <==> key in s1.assemblies.at)
      && (key in s1.assemblies.at ==> SameContent(s1.assemblies.at[key], t.assemblies.at[key]))
      && (key in t.completedIndices.at ==> key in s1.completedIndices.at)
    ensures forall e :: e in Emitted(call, Apply(c, digest, s, call).outcome) ==> e.key != key
  {
    hide File, PollFrom, Chunks, Sweep;
    var s1 := Swept(c, s, call);
    match call
    case Send(_, _, _, _) =>
    case Hear(source, payload, allow, swept, now) =>
      if source != "" && !IsRequest(payload) && Malformed(payload).None? {
        FileOther(
          c, digest, s1, Key(source, payload[0]), SignedByte(payload[1]), payload[2..], now, allow, key);
      }
    case PollRepairs(n, allow, swept, now) =>
      if n > 0 {
        PollKeepsContent(c, s1, s1.assemblies.order, now, n, allow, []);
        PollKeepsCaches(c, s1, s1.assemblies.order, now, n, allow, []);
      }
    case Cleanup(_, _) =>
  }

  lemma SweepPartial(c: Config, s: State, call: Call, key: Key, f: Sent)
    requires c.Valid() && f.Valid() && Partial(s, key, f)
    ensures Partial(Swept(c, s, call), key, f)
  {
    hide Chunks, Agrees;
  }

  lemma ContentAgrees(a: Assembly, b: Assembly, f: Sent)
    requires f.Valid() && SameContent(a, b) && Agrees(a, f)
    ensures Agrees(b, f)
  {
    hide Chunks;
  }

  lemma ApplyIntegrity(c: Config, digest: Bytes -> Bytes, s: State, call: Call, key: Key, f: Sent)
    requires c.Valid() && f.Valid() && Partial(s, key, f) && Genuine(call, key, f)
    ensures var reply := Apply(c, digest, s, call);
      && Partial(reply.state, key, f)
      && forall e :: e in Emitted(call, reply.outcome) && e.key == key ==> e.frame == f.frame
  {
    hide File, Chunks, Agrees, Fragment, Sweep;
    SweepPartial(c, s, call, key, f);
    var s1 := Swept(c, s, call);
    if OnKey(call, key) {
      var p: nat :| Carries(call, key, f, p);
      CarriedHeader(call, key, f, p);
      FileOwn(c, digest, s1, key, f, p, call.now, call.allowControl);
    } else {
      hide Apply, Swept, Emitted, OnKey;
      ApplyElsewhere(c, digest, s, call, key);
      var t := Apply(c, digest, s, call).state;
      if key in s1.assemblies.at {
        ContentAgrees(s1.assemblies.at[key], t.assemblies.at[key], f);
      }
    }
  }

  lemma {:induction false} RunIntegrity(
    c: Config, digest: Bytes -> Bytes, s: State, calls: seq<Call>, key: Key, f: Sent)
    requires c.Valid() && f.Valid() && Partial(s, key, f)
    requires forall i :: 0 <= i < |calls| ==> Genuine(calls[i], key, f)
    ensures Partial(Run(c, digest, s, calls), key, f)
    ensures forall e :: e in Emissions(c, digest, s, calls) && e.key == key ==> e.frame == f.frame
  {
    hide Apply, Emitted, Genuine, Partial;
    if calls != [] {
      var n := |calls| - 1;
      RunIntegrity(c, digest, s, calls[..n], key, f);
      ApplyIntegrity(c, digest, Run(c, digest, s, calls[..n]), calls[n], key, f);
    }
  }

  /**
   * Integrity: from any reachable state in which `key` has no assembly, for any interleaving,
   * reordering, duplication and loss, with any other traffic, as long as `key` names one frame
   * every frame delivered under `key` is that frame, byte for byte.
   */
  lemma Integrity(
    c: Config, digest: Bytes -> Bytes, earlier: seq<Call>, calls: seq<Call>, key: Key, f: Sent)
    requires c.Valid() && f.Valid()
    requires key !in Run(c, digest, INITIAL, earlier).assemblies.at
    requires forall i :: 0 <= i < |calls| ==> Genuine(calls[i], key, f)
    ensures forall e :: e in Emissions(c, digest, Run(c, digest, INITIAL, earlier), calls) && e.key == key
              ==> e.frame == f.frame
  {
    hide Run, Emissions, Genuine;
    RunIntegrity(c, digest, Run(c, digest, INITIAL, earlier), calls, key, f);
  }

  // ---- Delivery ----

  /** No fragment of the frame is taken for a request. */
  ghost predicate NoLookalike(key: Key, f: Sent)
    requires f.Valid()
  {
    forall p: nat :: 1 <= p <= f.Count() ==> !IsRequest(Fragment(f.frame, f.body, key.index, p))
  }

  /** Frames of at most 69 fragments, and frames under any other index than 82, are safe. */
  lemma ShortFramesAreSafe(key: Key, f: Sent)
    requires f.Valid() && (f.Count() <= 69 || key.index != 82)
    ensures NoLookalike(key, f)
  {
    forall p: nat | 1 <= p <= f.Count() ensures !IsRequest(Fragment(f.frame, f.body, key.index, p)) {
      LooksLikeRequestIff(f.frame, f.body, key.index, p);
    }
  }

  /** The positions of the frame that some call has carried. */
  ghost function Got(calls: seq<Call>, key: Key, f: Sent): set<nat>
    requires f.Valid()
  {
    if calls == [] then {}
    else Got(calls[..|calls| - 1], key, f) + Carried(calls[|calls| - 1], key, f)
  }

  ghost function Carried(call: Call, key: Key, f: Sent): set<nat>
    requires f.Valid()
  {
    set p: nat | 1 <= p <= f.Count() && Carries(call, key, f, p)
  }

  /** When a new position last arrived. */
  ghost function LastNew(calls: seq<Call>, key: Key, f: Sent): int
    requires f.Valid()
  {
    if calls == [] then 0
    else
      var n := |calls| - 1;
      if Carried(calls[n], key, f) <= Got(calls[..n], key, f) then LastNew(calls[..n], key, f)
      else calls[n].now
  }

  /** No clean-up finds the assembly older than the lifetime. */
  ghost predicate NeverStale(c: Config, calls: seq<Call>, key: Key, f: Sent)
    requires f.Valid()
  {
    forall i :: 0 <= i < |calls| && Got(calls[..i], key, f) != {}
      ==> calls[i].swept - LastNew(calls[..i], key, f) <= c.ttl
  }

  ghost function All(f: Sent): set<nat>
    requires f.Valid()
  {
    set p: nat | p <= f.Count() && IsPosition(f, p)
  }

  predicate IsPosition(f: Sent, p: nat)
    requires f.Valid()
  {
    1 <= p <= f.Count()
  }

  /** The assembly mirrors what has arrived. */
  ghost predicate Mirrors(s: State, key: Key, f: Sent, got: set<nat>, lastNew: int)
    requires f.Valid()
  {
    && key !in s.completedIndices.at
    && Lockstep(s.completed, s.completedIndices)
    && (key in s.assemblies.at <==> got != {})
    && (key in s.assemblies.at ==>
          var a := s.assemblies.at[key];
          && Agrees(a, f)
          && a.fragments.Keys == got
          && (a.final.Some? <==> f.Count() in got)
          && a.updatedAt == lastNew)
  }

  lemma CarriedOne(call: Call, key: Key, f: Sent, p: nat)
    requires f.Valid() && Carries(call, key, f, p)
    ensures Carried(call, key, f) == {p}
  {
    CarriedHeader(call, key, f, p);
    forall q: nat | Carries(call, key, f, q) ensures q == p {
      CarriedHeader(call, key, f, q);
    }
  }

  lemma CarriedNone(call: Call, key: Key, f: Sent)
    requires f.Valid() && !OnKey(call, key) && key.source != ""
    requires NoLookalike(key, f)
    ensures Carried(call, key, f) == {}
  {
    forall p: nat | Carries(call, key, f, p) ensures false {
      CarriedHeader(call, key, f, p);
    }
  }

  lemma SweepMirrors(c: Config, s: State, call: Call, key: Key, f: Sent, got: set<nat>, lastNew: int)
    requires c.Valid() && f.Valid() && Mirrors(s, key, f, got, lastNew)
    requires got != {} ==> call.swept - lastNew <= c.ttl
    ensures Mirrors(Swept(c, s, call), key, f, got, lastNew)
  {
    hide Chunks, Agrees, Lockstep, PopExpired;
    PopLockstep(s.completed, s.completedIndices, call.swept - c.ttl);
    LockstepValid(s.completed, s.completedIndices);
    PopExpiredSpec(s.completedIndices, call.swept - c.ttl);
  }

  lemma LockstepValid(completed: OMap<Completion, int>, indices: OMap<Key, int>)
    requires Lockstep(completed, indices)
    ensures indices.Valid()
  {
  }

  lemma AbsorbMirrors(s: State, key: Key, f: Sent, got: set<nat>, lastNew: int, p: nat, now: int)
    requires f.Valid() && Mirrors(s, key, f, got, lastNew) && 1 <= p <= f.Count()
    ensures var a := Absorb(AssemblyFor(s, key, now), WirePosition(p, f.Count()), f.Piece(p), now);
      && Agrees(a, f)
      && a.fragments.Keys == got + {p}
      && (a.final.Some? <==> f.Count() in got + {p})
      && a.updatedAt == if p in got then lastNew else now
  {
    hide Chunks, Lockstep;
  }

  lemma FileDelivers(
    c: Config, digest: Bytes -> Bytes, s: State, key: Key, f: Sent, got: set<nat>, lastNew: int, p: nat,
    now: int, allowControl: bool)
    requires f.Valid() && Mirrors(s, key, f, got, lastNew) && 1 <= p <= f.Count()
    ensures var reply := File(c, digest, s, key, WirePosition(p, f.Count()), f.Piece(p), now, allowControl);
      if got + {p} == All(f) then reply.outcome == Done([f.frame], [])
      else
        && reply.outcome.Done? && reply.outcome.frames == []
        && Mirrors(reply.state, key, f, got + {p}, if p in got then lastNew else now)
  {
    hide AppendRepairs, Absorb, Join, Chunks, Agrees, Lockstep, MissingFrom;
    var a := Absorb(AssemblyFor(s, key, now), WirePosition(p, f.Count()), f.Piece(p), now);
    AbsorbMirrors(s, key, f, got, lastNew, p, now);
    AgreesWithin(a, f);
    if a.final.Some? {
      NothingMissing(a.fragments, a.final.value);
      if Missing(a) == [] {
        JoinWhole(a, f);
        DigestCheckIsDead(s.completed, s.completedIndices, key, digest(f.frame));
        assert got + {p} == All(f);
      } else {
        var start := Repairs(a, s.requestTimes, []);
        AppendKeepsShape(c, start, key, Missing(a), now, 1, true);
        ContentAgrees(a, AppendRepairs(c, start, key, Missing(a), now, 1, true).assembly, f);
      }
    }
  }

  lemma AgreesWithin(a: Assembly, f: Sent)
    requires f.Valid() && Agrees(a, f)
    ensures a.fragments.Keys <= All(f)
    ensures f.Count() in All(f)
    ensures a.final.Some? ==> a.final.value == f.Count()
  {
    hide Chunks;
  }

  lemma ApplyMirrors(
    c: Config, digest: Bytes -> Bytes, s: State, call: Call, key: Key, f: Sent, got: set<nat>, lastNew: int)
    requires c.Valid() && f.Valid() && key.source != "" && Mirrors(s, key, f, got, lastNew)
    requires Genuine(call, key, f)
    requires NoLookalike(key, f)
    requires got != {} ==> call.swept - lastNew <= c.ttl
    ensures var reply := Apply(c, digest, s, call); var carried := Carried(call, key, f);
      if carried != {} && got + carried == All(f) then reply.outcome == Done([f.frame], [])
      else
        && (forall e :: e in Emitted(call, reply.outcome) ==> e.key != key)
        && Mirrors(reply.state, key, f, got + carried, if carried <= got then lastNew else call.now)
  {
    hide File, Chunks, Agrees, Fragment, Sweep, Lockstep, Mirrors;
    SweepMirrors(c, s, call, key, f, got, lastNew);
    var s1 := Swept(c, s, call);
    if OnKey(call, key) {
      var p: nat :| Carries(call, key, f, p);
      CarriedHeader(call, key, f, p);
      CarriedOne(call, key, f, p);
      FileDelivers(c, digest, s1, key, f, got, lastNew, p, call.now, call.allowControl);
    } else {
      CarriedNone(call, key, f);
      assert got + {} == got;
      MirrorsLockstep(s, key, f, got, lastNew);
      ElsewhereMirrors(c, digest, s, call, key, f, got, lastNew);
    }
  }

  lemma ElsewhereMirrors(
    c: Config, digest: Bytes -> Bytes, s: State, call: Call, key: Key, f: Sent, got: set<nat>, lastNew: int)
    requires c.Valid() && f.Valid() && !OnKey(call, key)
    requires Mirrors(Swept(c, s, call), key, f, got, lastNew)
    requires Lockstep(s.completed, s.completedIndices)
    ensures Mirrors(Apply(c, digest, s, call).state, key, f, got, lastNew)
    ensures forall e :: e in Emitted(call, Apply(c, digest, s, call).outcome) ==> e.key != key
  {
    hide Apply, Swept, Emitted, OnKey, Chunks, Agrees, Lockstep;
    ApplyElsewhere(c, digest, s, call, key);
    SelfSame(s);
    ApplySame(c, digest, digest, s, s, call);
    var s1, t := Swept(c, s, call), Apply(c, digest, s, call).state;
    if key in s1.assemblies.at {
      ContentAgrees(s1.assemblies.at[key], t.assemblies.at[key], f);
    }
  }

  lemma MirrorsLockstep(s: State, key: Key, f: Sent, got: set<nat>, lastNew: int)
    requires f.Valid() && Mirrors(s, key, f, got, lastNew)
    ensures Lockstep(s.completed, s.completedIndices)
  {
    hide Lockstep, Chunks;
  }

  lemma SelfSame(s: State)
    requires Lockstep(s.completed, s.completedIndices)
    ensures SameButDigests(s, s)
  {
  }

  lemma {:induction false} RunMirrors(
    c: Config, digest: Bytes -> Bytes, s: State, calls: seq<Call>, key: Key, f: Sent)
    requires c.Valid() && f.Valid() && key.source != "" && NoLookalike(key, f)
    requires Mirrors(s, key, f, {}, 0)
    requires forall i :: 0 <= i < |calls| ==> Genuine(calls[i], key, f)
    requires NeverStale(c, calls, key, f)
    requires Got(calls, key, f) != All(f)
    ensures Mirrors(Run(c, digest, s, calls), key, f, Got(calls, key, f), LastNew(calls, key, f))
    ensures forall e :: e in Emissions(c, digest, s, calls) ==> e.key != key
  {
    hide Apply, Emitted, Genuine, Mirrors, Carried, All, Chunks, NoLookalike;
    if calls != [] {
      var n := |calls| - 1;
      var before := calls[..n];
      assert calls[..n][..n] == before;
      assert forall i :: 0 <= i < n ==> before[..i] == calls[..i];
      NotYetAll(calls, key, f);
      RunMirrors(c, digest, s, before, key, f);
      ApplyMirrors(
        c, digest, Run(c, digest, s, before), calls[n], key, f, Got(before, key, f), LastNew(before, key, f));
    }
  }

  lemma {:induction false} GotWithin(calls: seq<Call>, key: Key, f: Sent)
    requires f.Valid()
    ensures Got(calls, key, f) <= All(f)
  {
    hide Chunks;
    if calls != [] {
      GotWithin(calls[..|calls| - 1], key, f);
    }
  }

  lemma NotYetAll(calls: seq<Call>, key: Key, f: Sent)
    requires f.Valid() && calls != [] && Got(calls, key, f) != All(f)
    ensures Got(calls[..|calls| - 1], key, f) != All(f)
  {
    hide Chunks, All, Carried;
    GotWithin(calls, key, f);
  }

  /**
   * Delivery: start from any reachable state in which `key` is neither being assembled nor
   * remembered as complete. If only fragments of `f` are filed under `key`, none of them looks
   * like a request and the assembly never goes stale, then the call that brings the last
   * outstanding position answers with exactly the frame, and no earlier call delivers anything
   * under `key` - whatever else happens on the channel.
   */
  lemma Delivery(
    c: Config, digest: Bytes -> Bytes, earlier: seq<Call>, calls: seq<Call>, last: Call, key: Key, f: Sent)
    requires c.Valid() && f.Valid() && key.source != "" && NoLookalike(key, f) && Timed(earlier)
    requires key !in Run(c, digest, INITIAL, earlier).assemblies.at
    requires key !in Run(c, digest, INITIAL, earlier).completedIndices.at
    requires forall i :: 0 <= i < |calls| ==> Genuine(calls[i], key, f)
    requires Genuine(last, key, f)
    requires NeverStale(c, calls + [last], key, f)
    requires Got(calls, key, f) != All(f) && Got(calls + [last], key, f) == All(f)
    ensures OutcomeOf(c, digest, Run(c, digest, INITIAL, earlier), calls + [last], |calls|) == Done([f.frame], [])
    ensures forall e :: e in Emissions(c, digest, Run(c, digest, INITIAL, earlier), calls) ==> e.key != key
  {
    hide Run, Apply, Emissions, Emitted, Genuine, Carried, Chunks, NoLookalike, Agrees;
    var start := Run(c, digest, INITIAL, earlier);
    CachesStayInLockstep(c, digest, earlier);
    assert Mirrors(start, key, f, {}, 0);
    var all := calls + [last];
    assert all[..|calls|] == calls;
    assert forall i :: 0 <= i <= |calls| ==> all[..i] == calls[..i];
    assert NeverStale(c, calls, key, f);
    RunMirrors(c, digest, start, calls, key, f);
    ApplyMirrors(
      c, digest, Run(c, digest, start, calls), last, key, f, Got(calls, key, f), LastNew(calls, key, f));
  }

  // ---- Frames that cannot be delivered ----

  /** The look-alike is exactly position 69 under index 82 of a frame that goes on, with a body that begins with `Q`. */
  lemma NoLookalikeIff(key: Key, f: Sent)
    requires f.Valid()
    ensures NoLookalike(key, f) <==> !(key.index == 82 && f.Count() >= 70 && f.Piece(69)[0] == 81)
  {
    hide Chunks, Fragment;
    forall p: nat | 1 <= p <= f.Count()
      ensures IsRequest(Fragment(f.frame, f.body, key.index, p))
         <==> key.index == 82 && p == 69 && f.Count() >= 70 && f.Piece(p)[0] == 81
    {
      LooksLikeRequestIff(f.frame, f.body, key.index, p);
    }
  }

  ghost predicate Lacks(s: State, key: Key, p: nat) {
    key in s.assemblies.at ==> p !in s.assemblies.at[key].fragments
  }

  lemma FileLacks(
    c: Config, digest: Bytes -> Bytes, s: State, key: Key, f: Sent, q: nat, p: nat, now: int, allowControl: bool)
    requires f.Valid() && Partial(s, key, f) && Lacks(s, key, p)
    requires 1 <= q <= f.Count() && 1 <= p <= f.Count() && q != p
    ensures var reply := File(c, digest, s, key, WirePosition(q, f.Count()), f.Piece(q), now, allowControl);
      && Partial(reply.state, key, f) && Lacks(reply.state, key, p)
      && reply.outcome.Done? && reply.outcome.frames == []
  {
    hide AppendRepairs, Missing, Join, Chunks;
    FileOwn(c, digest, s, key, f, q, now, allowControl);
    if key !in s.completedIndices.at {
      var before := AssemblyFor(s, key, now);
      var a := Absorb(before, WirePosition(q, f.Count()), f.Piece(q), now);
      assert p !in a.fragments;
      AbsorbAgrees(before, f, q, now);
      hide Absorb;
      if a.final.Some? {
        StillMissing(a, f, p);
        AppendKeepsShape(c, Repairs(a, s.requestTimes, []), key, Missing(a), now, 1, true);
      }
    }
  }

  lemma StillMissing(a: Assembly, f: Sent, p: nat)
    requires f.Valid() && Agrees(a, f) && a.final.Some? && p !in a.fragments && 1 <= p <= f.Count()
    ensures Missing(a) != []
  {
    hide Chunks;
    NothingMissing(a.fragments, a.final.value);
  }

  lemma SweepLacks(c: Config, s: State, call: Call, key: Key, p: nat)
    requires c.Valid() && Lacks(s, key, p)
    ensures Lacks(Swept(c, s, call), key, p)
  {
    hide Chunks;
  }

  lemma ApplyLacks(c: Config, digest: Bytes -> Bytes, s: State, call: Call, key: Key, f: Sent, p: nat)
    requires c.Valid() && f.Valid() && Partial(s, key, f) && Lacks(s, key, p) && Genuine(call, key, f)
    requires 1 <= p <= f.Count() && IsRequest(Fragment(f.frame, f.body, key.index, p))
    ensures var reply := Apply(c, digest, s, call);
      && Partial(reply.state, key, f) && Lacks(reply.state, key, p)
      && forall e :: e in Emitted(call, reply.outcome) ==> e.key != key
  {
    hide File, Chunks, Agrees, Fragment, Sweep;
    SweepPartial(c, s, call, key, f);
    SweepLacks(c, s, call, key, p);
    var s1 := Swept(c, s, call);
    if OnKey(call, key) {
      var q: nat :| Carries(call, key, f, q);
      CarriedHeader(call, key, f, q);
      FileLacks(c, digest, s1, key, f, q, p, call.now, call.allowControl);
    } else {
      hide Apply, Swept, Emitted, OnKey;
      ApplyElsewhere(c, digest, s, call, key);
      var t := Apply(c, digest, s, call).state;
      if key in s1.assemblies.at {
        ContentAgrees(s1.assemblies.at[key], t.assemblies.at[key], f);
      }
    }
  }

  lemma {:induction false} RunLacks(
    c: Config, digest: Bytes -> Bytes, s: State, calls: seq<Call>, key: Key, f: Sent, p: nat)
    requires c.Valid() && f.Valid() && Partial(s, key, f) && Lacks(s, key, p)
    requires 1 <= p <= f.Count() && IsRequest(Fragment(f.frame, f.body, key.index, p))
    requires forall i :: 0 <= i < |calls| ==> Genuine(calls[i], key, f)
    ensures Partial(Run(c, digest, s, calls), key, f) && Lacks(Run(c, digest, s, calls), key, p)
    ensures forall e :: e in Emissions(c, digest, s, calls) ==> e.key != key
  {
    hide Apply, Emitted, Genuine, Partial, Lacks, Chunks, Fragment;
    if calls != [] {
      var n := |calls| - 1;
      RunLacks(c, digest, s, calls[..n], key, f, p);
      ApplyLacks(c, digest, Run(c, digest, s, calls[..n]), calls[n], key, f, p);
    }
  }

  /**
   * A frame with a fragment that looks like a request is never delivered: that position is answered
   * as a request each time it arrives and never filed, whatever else arrives and however often.
   */
  lemma NeverDelivered(
    c: Config, digest: Bytes -> Bytes, earlier: seq<Call>, calls: seq<Call>, key: Key, f: Sent)
    requires c.Valid() && f.Valid() && !NoLookalike(key, f)
    requires key !in Run(c, digest, INITIAL, earlier).assemblies.at
    requires forall i :: 0 <= i < |calls| ==> Genuine(calls[i], key, f)
    ensures forall e :: e in Emissions(c, digest, Run(c, digest, INITIAL, earlier), calls) ==> e.key != key
  {
    hide Run, Emissions, Genuine, Chunks, Fragment;
    var p: nat :| 1 <= p <= f.Count() && IsRequest(Fragment(f.frame, f.body, key.index, p));
    RunLacks(c, digest, Run(c, digest, INITIAL, earlier), calls, key, f, p);
  }

  /** An answer with the frame, to a call that carries a position of it, is a delivery under its key. */
  lemma AnswerIsEmitted(call: Call, key: Key, f: Sent, out: Outcome)
    requires f.Valid() && Carried(call, key, f) != {} && out == Done([f.frame], [])
    ensures exists e :: e in Emitted(call, out) && e.key == key
  {
    hide Chunks, Fragment;
    var p: nat :| p in Carried(call, key, f);
    CarriedHeader(call, key, f, p);
    OneEmitted(call, f.frame);
    assert Emitted(call, out)[0].key == key;
  }

  lemma LastEmission(c: Config, digest: Bytes -> Bytes, s: State, calls: seq<Call>, last: Call)
    requires c.Valid()
    ensures forall e :: e in Emitted(last, OutcomeOf(c, digest, s, calls + [last], |calls|))
              ==> e in Emissions(c, digest, s, calls + [last])
  {
    hide Run, Apply, Emitted;
    assert (calls + [last])[..|calls|] == calls;
  }

  /**
   * Delivery, exactly: under the same conditions the call that brings the last outstanding position
   * answers with the frame if and only if no fragment of the frame looks like a request.
   */
  lemma DeliveryIff(
    c: Config, digest: Bytes -> Bytes, earlier: seq<Call>, calls: seq<Call>, last: Call, key: Key, f: Sent)
    requires c.Valid() && f.Valid() && key.source != "" && Timed(earlier)
    requires key !in Run(c, digest, INITIAL, earlier).assemblies.at
    requires key !in Run(c, digest, INITIAL, earlier).completedIndices.at
    requires forall i :: 0 <= i < |calls| ==> Genuine(calls[i], key, f)
    requires Genuine(last, key, f)
    requires NeverStale(c, calls + [last], key, f)
    requires Got(calls, key, f) != All(f) && Got(calls + [last], key, f) == All(f)
    ensures OutcomeOf(c, digest, Run(c, digest, INITIAL, earlier), calls + [last], |calls|) == Done([f.frame], [])
       <==> NoLookalike(key, f)
  {
    hide Run, Apply, Emissions, Emitted, Genuine, Chunks, Agrees, NeverStale, All, OutcomeOf;
    var start := Run(c, digest, INITIAL, earlier);
    var out := OutcomeOf(c, digest, start, calls + [last], |calls|);
    if NoLookalike(key, f) {
      Delivery(c, digest, earlier, calls, last, key, f);
    } else if out == Done([f.frame], []) {
      GotMore(calls, last, key, f);
      AnswerIsEmitted(last, key, f, out);
      LastEmission(c, digest, start, calls, last);
      NeverDelivered(c, digest, earlier, calls + [last], key, f);
      assert false;
    }
  }

  lemma GotMore(calls: seq<Call>, last: Call, key: Key, f: Sent)
    requires f.Valid() && Got(calls, key, f) != Got(calls + [last], key, f)
    ensures Carried(last, key, f) != {}
  {
    hide Carried, Chunks;
    assert (calls + [last])[..|calls|] == calls;
  }

  // ---- From a fresh receiver ----

  function Hearing(key: Key, f: Sent, p: nat, at: int): Call
    requires f.Valid() && IsPosition(f, p)
  {
    Hear(key.source, Fragment(f.frame, f.body, key.index, p), true, at, at)
  }

  /** Fragments of `f` heard in the given order at one time. */
  function Hearings(key: Key, f: Sent, order: seq<nat>, at: int): (calls: seq<Call>)
    requires f.Valid() && forall p :: p in order ==> IsPosition(f, p)
    ensures |calls| == |order|
  {
    seq(|order|, i requires 0 <= i < |order| => Hearing(key, f, order[i], at))
  }

  lemma HearingsSnoc(key: Key, f: Sent, order: seq<nat>, at: int)
    requires f.Valid() && order != [] && forall p :: p in order ==> IsPosition(f, p)
    ensures var n := |order| - 1;
      && Hearings(key, f, order, at)[..n] == Hearings(key, f, order[..n], at)
      && Carries(Hearings(key, f, order, at)[n], key, f, order[n])
  {
    HearingsCarry(key, f, order, at, |order| - 1);
    hide Chunks, Fragment, Hearing;
  }

  lemma HearingsCarry(key: Key, f: Sent, order: seq<nat>, at: int, i: nat)
    requires f.Valid() && i < |order| && forall p :: p in order ==> IsPosition(f, p)
    ensures Carries(Hearings(key, f, order, at)[i], key, f, order[i])
  {
    hide Chunks;
    assert order[i] in order;
    assert Hearings(key, f, order, at)[i] == Hearing(key, f, order[i], at);
  }

  /** What has arrived, and when something new last did. */
  lemma {:induction false} HearingsBring(key: Key, f: Sent, order: seq<nat>, at: int)
    requires f.Valid() && forall p :: p in order ==> IsPosition(f, p)
    ensures var calls := Hearings(key, f, order, at);
      && Got(calls, key, f) == Elements(order)
      && (order != [] ==> LastNew(calls, key, f) == at)
  {
    hide Chunks, Fragment, Carries, Carried;
    if order != [] {
      var n := |order| - 1;
      HearingsSnoc(key, f, order, at);
      HearingsBring(key, f, order[..n], at);
      CarriedOne(Hearings(key, f, order, at)[n], key, f, order[n]);
      assert order == order[..n] + [order[n]];
      assert Elements(order) == Elements(order[..n]) + {order[n]};
    }
  }

  /**
   * A fresh receiver that hears the fragments of a frame in any order, some of them repeatedly,
   * answers with exactly the frame when the last outstanding one arrives.
   */
  lemma AnyOrder(c: Config, digest: Bytes -> Bytes, key: Key, f: Sent, order: seq<nat>, last: nat, at: int)
    requires c.Valid() && f.Valid() && key.source != "" && NoLookalike(key, f)
    requires forall p :: p in order ==> IsPosition(f, p)
    requires last !in order && Elements(order) + {last} == All(f)
    ensures OutcomeOf(c, digest, INITIAL, Hearings(key, f, order + [last], at), |order|) == Done([f.frame], [])
  {
    hide Chunks, Fragment, Carries, NoLookalike, Run, Apply, OutcomeOf, Emissions, Timed;
    hide Got, LastNew, Hearings, Hearing, Genuine, NeverStale, All, Elements;
    AllHeard(f, order, last);
    HearingsReady(c, key, f, order, last, at);
    RunNone(c, digest);
    Delivery(c, digest, [], Hearings(key, f, order, at), Hearing(key, f, last, at), key, f);
  }

  lemma HearingsReady(c: Config, key: Key, f: Sent, order: seq<nat>, last: nat, at: int)
    requires c.Valid() && f.Valid() && IsPosition(f, last) && forall p :: p in order ==> IsPosition(f, p)
    ensures var calls, final := Hearings(key, f, order, at), Hearing(key, f, last, at);
      && Hearings(key, f, order + [last], at) == calls + [final]
      && (forall i :: 0 <= i < |calls| ==> Genuine(calls[i], key, f))
      && Genuine(final, key, f)
      && NeverStale(c, calls + [final], key, f)
      && Got(calls, key, f) == Elements(order)
      && Got(calls + [final], key, f) == Elements(order + [last])
  {
    hide Chunks, Fragment, Carries, Got, LastNew, Hearing, Genuine, NeverStale, Elements;
    var all := order + [last];
    assert Hearings(key, f, all, at) == Hearings(key, f, order, at) + [Hearing(key, f, last, at)];
    hide Hearings;
    HearingsBring(key, f, order, at);
    HearingsBring(key, f, all, at);
    HearingsGenuine(key, f, order, at);
    HearingsGenuine(key, f, all, at);
    HearingsFresh(c, key, f, all, at);
    assert Hearings(key, f, all, at)[|order|] == Hearing(key, f, last, at);
  }

  lemma AllHeard(f: Sent, order: seq<nat>, last: nat)
    requires f.Valid() && forall p :: p in order ==> IsPosition(f, p)
    requires last !in order && Elements(order) + {last} == All(f)
    ensures IsPosition(f, last) && Elements(order + [last]) == All(f) && Elements(order) != All(f)
  {
    hide Chunks;
    assert last in All(f) && last !in Elements(order);
  }

  lemma RunNone(c: Config, digest: Bytes -> Bytes)
    requires c.Valid()
    ensures Run(c, digest, INITIAL, []) == INITIAL && Timed([])
  {
  }

  lemma HearingsGenuine(key: Key, f: Sent, order: seq<nat>, at: int)
    requires f.Valid() && forall p :: p in order ==> IsPosition(f, p)
    ensures forall i :: 0 <= i < |order| ==> Genuine(Hearings(key, f, order, at)[i], key, f)
  {
    hide Chunks, Fragment, Hearings, Carries;
    forall i | 0 <= i < |order| ensures Genuine(Hearings(key, f, order, at)[i], key, f) {
      HearingsCarry(key, f, order, at, i);
    }
  }

  lemma HearingsFresh(c: Config, key: Key, f: Sent, order: seq<nat>, at: int)
    requires c.Valid() && f.Valid() && forall p :: p in order ==> IsPosition(f, p)
    ensures NeverStale(c, Hearings(key, f, order, at), key, f)
  {
    hide Chunks, Carries, Carried, Got, LastNew;
    var calls := Hearings(key, f, order, at);
    forall i | 0 <= i < |calls| && Got(calls[..i], key, f) != {}
      ensures calls[i].swept - LastNew(calls[..i], key, f) <= c.ttl
    {
      assert calls[..i] == Hearings(key, f, order[..i], at);
      HearingsBring(key, f, order[..i], at);
    }
  }
}
