/** What each side of a repair does: the sender answers, the receiver asks and files. */
module RepairDialogue {
  import opened Common
  import opened OrderedMaps
  import opened Fragments
  import opened FragmentSpec
  import opened FragmentFacts
  import opened Completions
  import opened Reassembly
  import opened PollChoice
  import A = RepairAttempts

  datatype Delivered = Delivered(key: Key, frame: Bytes)

  function First(out: Outcome): Option<Transmission> {
    if out.Done? && out.transmissions != [] then Some(out.transmissions[0]) else None
  }

  function DeliveredBy(key: Key, out: Outcome): seq<Delivered> {
    if out.Done? then seq(|out.frames|, i requires 0 <= i < |out.frames| => Delivered(key, out.frames[i])) else []
  }

  // ---- The sender ----

  /** The sender would answer `peer` from the frame `f`, cached under `index` since `born`. */
  ghost predicate Ready(s: State, index: Byte, peer: string, f: Sent, born: int)
    requires f.Valid()
  {
    Lookup(s, index, peer).Some? &&
    var cached := Lookup(s, index, peer).value;
    cached.fragments == AllFragments(f.frame, f.body, index) && cached.createdAt == born
  }

  lemma SweepReady(c: Config, s: State, index: Byte, peer: string, f: Sent, born: int, swept: int)
    requires f.Valid() && Ready(s, index, peer, f, born) && swept - born <= c.ttl
    ensures Ready(Sweep(c, s, swept), index, peer, f, born)
  {
    hide Chunks, AllFragments, PopExpired, DropOld;
  }

  function Answered(p: nat, count: nat): nat {
    if p == 0 then count else p
  }

  lemma RequestShape(index: Byte, p: nat)
    requires p <= 127
    ensures IsRequest(Request(index, p)) && |Request(index, p)| == 5
    ensures Request(index, p)[3..] == [index, PackSigned(p)]
    ensures SignedByte(PackSigned(p)) == p
  {
    assert Request(index, p)[..3] == REQUEST_PREFIX;
  }

  lemma SenderAnswers(
    c: Config, digest: Bytes -> Bytes, s: State, index: Byte, peer: string, f: Sent, born: int, p: nat,
    swept: int, now: int)
    requires c.Valid() && f.Valid() && peer != ""
    requires Ready(s, index, peer, f, born) && swept - born <= c.ttl && p <= 127
    requires 1 <= Answered(p, f.Count()) <= f.Count()
    ensures var reply := Apply(c, digest, s, Hear(peer, Request(index, p), true, swept, now));
      && reply.state == Sweep(c, s, swept)
      && First(reply.outcome)
         == Some(Transmission(peer, Fragment(f.frame, f.body, index, Answered(p, f.Count())), Retransmit))
  {
    hide Chunks, Sweep, Fragment;
    RequestShape(index, p);
    SweepReady(c, s, index, peer, f, born, swept);
  }

  // ---- The receiver, one frame ----

  /** Positions neither held nor on their way have been tried at most `tries` times, none after `clock`. */
  ghost predicate Fair(c: Config, a: Assembly, tries: nat, clock: int, pending: Option<nat>) {
    && tries < c.maxAttempts
    && a.updatedAt <= clock
    && forall p: nat :: p <= 127 && !A.Held(a, p) && pending != Some(p) ==>
         && Lookup0(a.attempts, p, 0) <= tries
         && (Lookup0(a.attempts, p, 0) > 0 ==> p in a.requestedAt && a.requestedAt[p] <= clock)
  }

  /** The receiver is part-way through `f`; `asked` is the position that is on its way, if any. */
  ghost predicate Part(c: Config, s: State, key: Key, f: Sent, tries: nat, clock: int, asked: Option<nat>)
    requires f.Valid()
  {
    && key in s.assemblies.at
    && var a := s.assemblies.at[key];
    && Mirrors(s, key, f, a.fragments.Keys, a.updatedAt)
    && a.fragments.Keys != All(f)
    && Fair(c, a, tries, clock, asked)
    && (asked.Some? ==> asked.value in Missing(a))
  }

  lemma MissingFacts(a: Assembly, f: Sent)
    requires f.Valid() && Agrees(a, f) && (a.final.Some? <==> f.Count() in a.fragments)
    ensures forall p :: p in Missing(a) ==>
              && p <= 127 && !A.Held(a, p)
              && 1 <= Answered(p, f.Count()) <= f.Count()
              && Answered(p, f.Count()) !in a.fragments
    ensures a.fragments.Keys != All(f) ==> Missing(a) != []
    ensures a.fragments.Keys <= All(f)
  {
    hide Chunks;
    AgreesWithin(a, f);
    if a.final.Some? {
      MissingFromSpec(a.fragments, 1, a.final.value);
      NothingMissing(a.fragments, a.final.value);
    }
  }

  /** Once the back-off has passed, everything outstanding may be asked for. */
  lemma FairAskable(c: Config, a: Assembly, tries: nat, clock: int, p: nat, now: int, immediate: bool)
    requires c.Valid() && Fair(c, a, tries, clock, None) && p <= 127 && !A.Held(a, p)
    requires (immediate && tries == 0) || now - clock >= c.cooldown * Pow2(tries)
    ensures Askable(c, a, p, now, immediate)
  {
    var attempts := Lookup0(a.attempts, p, 0);
    Pow2Rises(attempts, tries);
    Scale(c.cooldown, Pow2(attempts), Pow2(tries));
    Scale(c.cooldown, 1, Pow2(tries));
  }

  lemma {:induction false} Pow2Rises(a: nat, b: nat)
    requires a <= b
    ensures Pow2(a) <= Pow2(b)
    decreases b
  {
    if a < b {
      Pow2Rises(a, b - 1);
    }
  }

  lemma Scale(k: int, a: nat, b: nat)
    requires k > 0 && a <= b
    ensures k * a <= k * b
  {
    assert k * b == k * a + k * (b - a);
  }

  lemma SweepHolds(c: Config, s: State, key: Key, swept: int)
    requires key in s.assemblies.at && swept - s.assemblies.at[key].updatedAt <= c.ttl
    ensures key in Sweep(c, s, swept).assemblies.at
    ensures Sweep(c, s, swept).assemblies.at[key] == s.assemblies.at[key]
  {
  }

  lemma SweepPart(
    c: Config, s: State, key: Key, f: Sent, tries: nat, clock: int, asked: Option<nat>, swept: int)
    requires c.Valid() && f.Valid() && Part(c, s, key, f, tries, clock, asked)
    requires swept - s.assemblies.at[key].updatedAt <= c.ttl
    ensures Part(c, Sweep(c, s, swept), key, f, tries, clock, asked)
  {
    hide Chunks, Mirrors, Fair, Missing, All, Sweep;
    var a := s.assemblies.at[key];
    SweepMirrors(c, s, Cleanup(swept, swept), key, f, a.fragments.Keys, a.updatedAt);
    SweepHolds(c, s, key, swept);
  }

  /** Nothing happens to the frame. */
  lemma OtherPart(
    c: Config, s: State, t: State, key: Key, f: Sent, tries: nat, clock: int, asked: Option<nat>, now: int)
    requires f.Valid() && Part(c, s, key, f, tries, clock, asked) && clock <= now
    requires key in t.assemblies.at && t.assemblies.at[key] == s.assemblies.at[key]
    requires key !in t.completedIndices.at && Lockstep(t.completed, t.completedIndices)
    ensures Part(c, t, key, f, tries, now, asked)
  {
    hide Chunks, Agrees, Lockstep, All, Missing;
  }

  /** One of its positions is asked for. */
  lemma RequestedPart(
    c: Config, s: State, t: State, key: Key, f: Sent, tries: nat, clock: int, m: nat, now: int)
    requires f.Valid() && Part(c, s, key, f, tries, clock, None) && clock <= now
    requires m in Missing(s.assemblies.at[key])
    requires t.completed == s.completed && t.completedIndices == s.completedIndices
    requires key in t.assemblies.at
    requires t.assemblies.at[key] == RequestOne(c, Repairs(s.assemblies.at[key], [], []), key, m, now).assembly
    ensures Part(c, t, key, f, tries, now, Some(m))
  {
    hide Chunks, All, Agrees, Lockstep;
    var a, b := s.assemblies.at[key], t.assemblies.at[key];
    ContentAgrees(a, b, f);
    assert Fair(c, b, tries, now, Some(m)) by {
      hide Mirrors;
    }
  }

  /** Filing the answer leaves the counters of everything still outstanding alone. */
  lemma AbsorbFair(c: Config, a: Assembly, f: Sent, tries: nat, clock: int, m: nat, now: int)
    requires f.Valid() && Fair(c, a, tries, clock, Some(m)) && clock <= now
    requires m in Missing(a) && 1 <= Answered(m, f.Count()) <= f.Count()
    requires a.final.Some? ==> a.final.value == f.Count()
    ensures var q := Answered(m, f.Count());
            var b := Absorb(a, WirePosition(q, f.Count()), f.Piece(q), now);
      Fair(c, b, tries, now, None) && b.final.Some?
  {
    hide Chunks;
    if a.final.Some? {
      MissingFromSpec(a.fragments, 1, a.final.value);
    }
  }

  lemma InAll(f: Sent, q: nat)
    requires f.Valid() && 1 <= q <= f.Count()
    ensures q in All(f)
  {
    hide Chunks;
    assert IsPosition(f, q);
  }

  /** The position on its way arrives and others are still outstanding. */
  lemma FiledPart(
    c: Config, s: State, t: State, key: Key, f: Sent, tries: nat, clock: int, m: nat, now: int)
    requires f.Valid() && Part(c, s, key, f, tries, clock, Some(m)) && clock <= now
    requires 1 <= Answered(m, f.Count()) <= f.Count()
    requires t.completed == s.completed && t.completedIndices == s.completedIndices
    requires key in t.assemblies.at
    requires var q := Answered(m, f.Count());
      t.assemblies.at[key] == Absorb(s.assemblies.at[key], WirePosition(q, f.Count()), f.Piece(q), now)
    ensures var q := Answered(m, f.Count()); var a, b := s.assemblies.at[key], t.assemblies.at[key];
      && b.fragments.Keys == a.fragments.Keys + {q} && b.updatedAt == (if q in a.fragments then a.updatedAt else now)
      && b.final.Some? && Agrees(b, f)
      && (b.fragments.Keys != All(f) ==> Part(c, t, key, f, tries, now, None))
  {
    hide Chunks, All, Missing, Agrees, Lockstep, Fair, Absorb;
    var a, q := s.assemblies.at[key], Answered(m, f.Count());
    MirrorsAgree(s, key, f);
    AgreesWithin(a, f);
    AbsorbMirrors(s, key, f, a.fragments.Keys, a.updatedAt, q, now);
    AbsorbFair(c, a, f, tries, clock, m, now);
  }

  lemma MirrorsAgree(s: State, key: Key, f: Sent)
    requires f.Valid() && key in s.assemblies.at
    requires Mirrors(s, key, f, s.assemblies.at[key].fragments.Keys, s.assemblies.at[key].updatedAt)
    ensures var a := s.assemblies.at[key]; Agrees(a, f) && (a.final.Some? <==> f.Count() in a.fragments)
  {
    hide Chunks, Agrees, Lockstep;
  }

  /** What is missing can be asked for and answered, and something is missing. */
  lemma PartFacts(c: Config, s: State, key: Key, f: Sent, tries: nat, clock: int, asked: Option<nat>)
    requires f.Valid() && Part(c, s, key, f, tries, clock, asked)
    ensures var a := s.assemblies.at[key];
      && Missing(a) != [] && a.fragments.Keys <= All(f) && a.fragments.Keys != All(f)
      && Lockstep(s.completed, s.completedIndices) && key !in s.completedIndices.at
      && Fair(c, a, tries, clock, asked)
      && forall p :: p in Missing(a) ==>
           && p <= 127 && !A.Held(a, p)
           && 1 <= Answered(p, f.Count()) <= f.Count()
           && Answered(p, f.Count()) !in a.fragments
  {
    hide Chunks, Agrees, Lockstep, All, Fair, Missing;
    MirrorsAgree(s, key, f);
    MissingFacts(s.assemblies.at[key], f);
  }

  lemma PartDue(c: Config, s: State, key: Key, f: Sent, tries: nat, clock: int, now: int)
    requires c.Valid() && f.Valid() && Part(c, s, key, f, tries, clock, None)
    requires clock <= now && now - clock >= c.cooldown * Pow2(tries)
    ensures Due(c, s, key, now)
  {
    hide Part, Chunks, Missing, All, Agrees, Lockstep, Askable;
    PartHeld(c, s, key, f, tries, clock, None);
    PartFacts(c, s, key, f, tries, clock, None);
    var a := s.assemblies.at[key];
    Scale(c.cooldown, 1, Pow2(tries));
    assert Missing(a)[0] in Missing(a);
    FairAskable(c, a, tries, clock, Missing(a)[0], now, false);
  }

  lemma PartHeld(c: Config, s: State, key: Key, f: Sent, tries: nat, clock: int, asked: Option<nat>)
    requires f.Valid() && Part(c, s, key, f, tries, clock, asked)
    ensures key in s.assemblies.at && s.assemblies.at[key].updatedAt <= clock
  {
    hide Mirrors, All, Missing, Chunks;
  }

  // ---- The receiver, any number of frames ----

  function Own(pending: Option<Ask>, key: Key): Option<nat> {
    if pending.Some? && pending.value.key == key then Some(pending.value.position) else None
  }

  /** The frames to be restored. */
  ghost predicate Proper(w: map<Key, Sent>) {
    forall k :: k in w ==> k.source != "" && w[k].Valid() && NoLookalike(k, w[k])
  }

  ghost function Held(s: State, key: Key): set<nat> {
    if key in s.assemblies.at then s.assemblies.at[key].fragments.Keys else {}
  }

  ghost function LostOf(s: State, key: Key, f: Sent): set<nat>
    requires f.Valid()
  {
    All(f) - Held(s, key)
  }

  /** The outstanding positions of all frames. */
  ghost function Lost(s: State, w: map<Key, Sent>): set<Ask>
    requires Proper(w)
  {
    set k, p | k in w && p in LostOf(s, k, w[k]) :: Ask(k, p)
  }

  ghost predicate Parts(c: Config, s: State, w: map<Key, Sent>, tries: nat, clock: int, pending: Option<Ask>)
    requires Proper(w)
  {
    forall k :: k in w ==> Part(c, s, k, w[k], tries, clock, Own(pending, k))
  }

  /** The requests younger than the window at `since`, and one for each outstanding position, fit the budget. */
  ghost predicate Budgeted(c: Config, s: State, w: map<Key, Sent>, since: int, pending: Option<Ask>)
    requires Proper(w)
  {
    |DropOld(s.requestTimes, since - c.window)| + |Lost(s, w)| - (if pending.Some? then 1 else 0) <= c.maxRequests
  }

  /** The receiver is part-way through the frames `w`, and maybe through others. */
  ghost predicate Waiting(
    c: Config, s: State, w: map<Key, Sent>, tries: nat, clock: int, since: int, pending: Option<Ask>)
    requires Proper(w)
  {
    && s.assemblies.Valid()
    && Parts(c, s, w, tries, clock, pending)
    && Budgeted(c, s, w, since, pending)
    && (pending.Some? ==> pending.value.key in w)
  }

  lemma LostSame(s: State, t: State, w: map<Key, Sent>)
    requires Proper(w) && forall k :: k in w ==> Held(s, k) == Held(t, k)
    ensures Lost(s, w) == Lost(t, w)
  {
    hide NoLookalike, Held, All;
    assert forall k, p :: k in w ==> (p in LostOf(s, k, w[k]) <==> p in LostOf(t, k, w[k]));
  }

  lemma LostLess(s: State, t: State, w: map<Key, Sent>, key: Key, q: nat)
    requires Proper(w) && key in w && q in LostOf(s, key, w[key])
    requires forall k :: k in w && k != key ==> Held(s, k) == Held(t, k)
    ensures Ask(key, q) in Lost(s, w)
    ensures Held(t, key) == Held(s, key) + {q} ==> Lost(t, w) == Lost(s, w) - {Ask(key, q)}
    ensures LostOf(s, key, w[key]) == {q} ==> Proper(w - {key}) && Lost(t, w - {key}) == Lost(s, w) - {Ask(key, q)}
  {
    hide Held, All, NoLookalike;
    assert forall k, p :: k in w && k != key ==> (p in LostOf(s, k, w[k]) <==> p in LostOf(t, k, w[k]));
  }

  lemma {:induction false} DropOldKeepsYoung(times: seq<int>, early: int, late: int)
    requires early <= late
    ensures DropOld(DropOld(times, late), early) == DropOld(times, late)
  {
    if times != [] && times[0] <= late {
      DropOldKeepsYoung(times[1..], early, late);
    }
  }

  /** Trimming the window at any time leaves no more to trim at another. */
  lemma Retrim(times: seq<int>, a: int, b: int)
    ensures |DropOld(DropOld(times, a), b)| <= |DropOld(times, b)|
    ensures a >= b ==> |DropOld(times, a)| <= |DropOld(times, b)|
  {
    hide DropOld;
    if a <= b {
      DropOldTwice(times, a, b);
    } else {
      DropOldKeepsYoung(times, b, a);
    }
    if b <= a {
      DropOldTwice(times, b, a);
      DropOldShrinks(DropOld(times, b), a);
    }
  }

  lemma {:induction false} DropOldSnoc(times: seq<int>, at: int, cutoff: int)
    ensures |DropOld(times + [at], cutoff)| <= |DropOld(times, cutoff)| + 1
    decreases |times|
  {
    if times != [] && times[0] <= cutoff {
      assert (times + [at])[1..] == times[1..] + [at];
      DropOldSnoc(times[1..], at, cutoff);
    } else if times == [] {
      assert times + [at] == [at] && [at][1..] == [];
    } else {
      assert (times + [at])[0] == times[0];
    }
  }

  // ---- What stays as it was ----

  /** No assembly but those of `w` is touched, and none changes its place. */
  ghost predicate Untouched(s: State, t: State, w: set<Key>) {
    && t.assemblies.at.Keys <= s.assemblies.at.Keys
    && t.assemblies.order == Select(s.assemblies.order, t.assemblies.at.Keys)
    && forall k :: k !in w && k in s.assemblies.at ==>
         k in t.assemblies.at && t.assemblies.at[k] == s.assemblies.at[k]
  }

  /** The assemblies but those of `w` are the same, as far as they have not expired at `swept`. */
  ghost predicate Kept(c: Config, s: State, t: State, w: set<Key>, swept: int) {
    && t.assemblies.at.Keys <= s.assemblies.at.Keys
    && t.assemblies.order == Select(s.assemblies.order, t.assemblies.at.Keys)
    && forall k :: k !in w && k in s.assemblies.at ==>
         && (k in t.assemblies.at <==> s.assemblies.at[k].updatedAt >= swept - c.ttl)
         && (k in t.assemblies.at ==> t.assemblies.at[k] == s.assemblies.at[k])
  }

  lemma {:induction false} SelectTwice<K>(order: seq<K>, a: set<K>, b: set<K>)
    requires b <= a
    ensures Select(Select(order, a), b) == Select(order, b)
  {
    if order != [] {
      SelectTwice(order[1..], a, b);
      var rest := Select(order[1..], a);
      if order[0] in a {
        assert Select(order, a) == [order[0]] + rest;
        assert ([order[0]] + rest)[1..] == rest;
      } else {
        assert Select(order, a) == rest;
      }
    }
  }

  lemma SweepKept(c: Config, s: State, w: set<Key>, swept: int)
    ensures Kept(c, s, Sweep(c, s, swept), w, swept)
  {
    hide Select, DropOld, PopExpired;
    var keep := set k | k in s.assemblies.at && s.assemblies.at[k].updatedAt >= swept - c.ttl;
    assert Sweep(c, s, swept).assemblies.at.Keys == keep;
  }

  lemma KeptThen(c: Config, s: State, t: State, u: State, v: set<Key>, w: set<Key>, swept: int)
    requires Kept(c, s, t, w, swept) && Untouched(t, u, v) && v <= w
    ensures Kept(c, s, u, w, swept)
  {
    hide Select;
    SelectTwice(s.assemblies.order, t.assemblies.at.Keys, u.assemblies.at.Keys);
  }

  lemma KeptTrans(c: Config, s: State, t: State, u: State, v: set<Key>, w: set<Key>, early: int, late: int)
    requires Kept(c, s, t, w, early) && Kept(c, t, u, v, late) && v <= w && early <= late
    ensures Kept(c, s, u, w, late)
  {
    hide Select;
    SelectTwice(s.assemblies.order, t.assemblies.at.Keys, u.assemblies.at.Keys);
  }

  lemma PutUntouched(s: State, t: State, key: Key, a: Assembly)
    requires s.assemblies.Valid() && key in s.assemblies.at && t.assemblies == s.assemblies.Put(key, a)
    ensures Untouched(s, t, {key}) && t.assemblies.Valid()
  {
    hide Select;
    PutValid(s.assemblies, key, a);
    SelectAll(s.assemblies.order, t.assemblies.at.Keys);
  }

  // ---- The receiver's steps ----

  lemma SweepWaiting(
    c: Config, s: State, w: map<Key, Sent>, tries: nat, clock: int, since: int, pending: Option<Ask>, swept: int)
    requires c.Valid() && Proper(w) && Waiting(c, s, w, tries, clock, since, pending)
    requires forall k :: k in w ==> k in s.assemblies.at && swept - s.assemblies.at[k].updatedAt <= c.ttl
    ensures var s1 := Sweep(c, s, swept);
      && Waiting(c, s1, w, tries, clock, since, pending)
      && Lost(s1, w) == Lost(s, w)
      && forall k :: k in w ==> k in s1.assemblies.at && s1.assemblies.at[k] == s.assemblies.at[k]
  {
    hide Part, Lost, NoLookalike, Held, DropOld;
    var s1 := Sweep(c, s, swept);
    SweptFields(c, s, swept);
    hide Sweep;
    forall k | k in w
      ensures k in s1.assemblies.at && s1.assemblies.at[k] == s.assemblies.at[k]
      ensures Part(c, s1, k, w[k], tries, clock, Own(pending, k)) && Held(s, k) == Held(s1, k)
    {
      SweepHolds(c, s, k, swept);
      HeldSame(s, s1, k);
      SweepPart(c, s, k, w[k], tries, clock, Own(pending, k), swept);
    }
    LostSame(s, s1, w);
    Retrim(s.requestTimes, swept - c.window, since - c.window);
  }

  lemma SweptFields(c: Config, s: State, swept: int)
    requires s.assemblies.Valid()
    ensures var s1 := Sweep(c, s, swept);
      s1.assemblies.Valid() && s1.requestTimes == DropOld(s.requestTimes, swept - c.window)
  {
    hide PopExpired, DropOld;
    KeepOnlyValid(s.assemblies, set k | k in s.assemblies.at && s.assemblies.at[k].updatedAt >= swept - c.ttl);
  }

  lemma HeldSame(s: State, t: State, key: Key)
    requires key in s.assemblies.at && key in t.assemblies.at
    requires s.assemblies.at[key].fragments == t.assemblies.at[key].fragments
    ensures Held(s, key) == Held(t, key)
  {
  }

  /** Asking for one position. */
  lemma AskedWaiting(
    c: Config, s: State, w: map<Key, Sent>, tries: nat, clock: int, since: int, key: Key, m: nat, now: int)
    requires c.Valid() && Proper(w) && Waiting(c, s, w, tries, clock, since, None)
    requires key in w && key in s.assemblies.at && m in Missing(s.assemblies.at[key])
    requires clock <= now && since <= now
    ensures var t := AskedFor(c, s, key, m, now).state;
      && Waiting(c, t, w, tries, now, since, Some(Ask(key, m)))
      && Lost(t, w) == Lost(s, w)
      && Untouched(s, t, {key})
      && forall k :: k in w ==>
           && k in t.assemblies.at && k in s.assemblies.at
           && t.assemblies.at[k].updatedAt == s.assemblies.at[k].updatedAt
  {
    hide Part, Lost, NoLookalike, DropOld, Missing, Untouched, AskedFor;
    var t := AskedFor(c, s, key, m, now).state;
    AskedState(c, s, key, m, now);
    PutUntouched(s, t, key, t.assemblies.at[key]);
    forall k | k in w
      ensures Part(c, t, k, w[k], tries, now, Own(Some(Ask(key, m)), k))
      ensures k in s.assemblies.at && k in t.assemblies.at && Held(s, k) == Held(t, k)
      ensures t.assemblies.at[k].updatedAt == s.assemblies.at[k].updatedAt
    {
      PartHeld(c, s, k, w[k], tries, clock, None);
      if k == key {
        RequestedPart(c, s, t, key, w[key], tries, clock, m, now);
      } else {
        PartFacts(c, s, k, w[k], tries, clock, None);
        OtherPart(c, s, t, k, w[k], tries, clock, None, now);
      }
    }
    hide Held;
    LostSame(s, t, w);
    var cut := since - c.window;
    DropOldSnoc(DropOld(s.requestTimes, now - c.window), now, cut);
    Retrim(s.requestTimes, now - c.window, cut);
  }

  lemma AskedState(c: Config, s: State, key: Key, m: nat, now: int)
    requires key in s.assemblies.at
    ensures var t := AskedFor(c, s, key, m, now).state; var a := s.assemblies.at[key];
      && t.assemblies == s.assemblies.Put(key, RequestOne(c, Repairs(a, [], []), key, m, now).assembly)
      && t.assemblies.at[key].fragments == a.fragments && t.assemblies.at[key].updatedAt == a.updatedAt
      && t.completed == s.completed && t.completedIndices == s.completedIndices
      && t.requestTimes == DropOld(s.requestTimes, now - c.window) + [now]
  {
    hide DropOld;
  }

  lemma WaitingRoom(
    c: Config, s: State, w: map<Key, Sent>, tries: nat, clock: int, since: int, now: int)
    requires Proper(w) && Waiting(c, s, w, tries, clock, since, None) && Lost(s, w) != {} && since <= now
    ensures Room(c, s, now)
  {
    hide Lost, Parts, DropOld;
    Retrim(s.requestTimes, now - c.window, since - c.window);
  }

  lemma SomethingLost(
    c: Config, s: State, w: map<Key, Sent>, tries: nat, clock: int, since: int, pending: Option<Ask>, key: Key)
    requires Proper(w) && Waiting(c, s, w, tries, clock, since, pending) && key in w
    ensures key in s.assemblies.at && LostOf(s, key, w[key]) != {} && Lost(s, w) != {}
  {
    hide Part, NoLookalike, All, Budgeted;
    PartHeld(c, s, key, w[key], tries, clock, Own(pending, key));
    PartFacts(c, s, key, w[key], tries, clock, Own(pending, key));
    var keys := s.assemblies.at[key].fragments.Keys;
    assert keys < All(w[key]);
    var p :| p in All(w[key]) && p !in keys;
    assert p in LostOf(s, key, w[key]);
    assert Ask(key, p) in Lost(s, w);
  }

  /**
   * Whose turn it is: with nothing on its way, once the back-off has passed, a poll asks for
   * exactly one position, and it does so on behalf of a wanted frame if and only if nothing
   * unwanted that is due was begun before all the wanted frames.
   */
  lemma PollTurnIff(
    c: Config, digest: Bytes -> Bytes, s: State, w: map<Key, Sent>, tries: nat, clock: int, since: int,
    swept: int, now: int)
    returns (ask: Ask)
    requires c.Valid() && Proper(w) && Waiting(c, s, w, tries, clock, since, None) && w != map[]
    requires clock <= swept <= now && since <= now && now - clock >= c.cooldown * Pow2(tries)
    requires forall k :: k in w ==> k in s.assemblies.at && swept - s.assemblies.at[k].updatedAt <= c.ttl
    ensures var reply := Apply(c, digest, s, PollRepairs(1, true, swept, now)); var s1 := Sweep(c, s, swept);
      && First(reply.outcome) == RequestFor(Some(ask))
      && (ask.key in w <==> Clear(c, s1, w.Keys, now))
      && ask.key in s1.assemblies.at && ask.position in Missing(s1.assemblies.at[ask.key])
      && reply == AskedFor(c, s1, ask.key, ask.position, now)
  {
    hide Parts, Lost, Sweep, Due, Clear, FirstDue, FirstAskable, Missing, PollFrom, DropOld;
    SweepWaiting(c, s, w, tries, clock, since, None, swept);
    var s1 := Sweep(c, s, swept);
    forall k | k in w ensures Due(c, s1, k, now) {
      WaitingDue(c, s1, w, tries, clock, since, now, k);
    }
    var some :| some in w;
    SomethingLost(c, s1, w, tries, clock, since, None, some);
    WaitingRoom(c, s1, w, tries, clock, since, now);
    WantedFirstIff(c, s1, w.Keys, now);
    PollOneIs(c, s1, s1.assemblies.order, now);
    var k := FirstDue(c, s1, s1.assemblies.order, now).value;
    ask := Ask(k, FirstAskable(c, s1.assemblies.at[k], Missing(s1.assemblies.at[k]), now, false).value);
  }

  lemma WaitingDue(
    c: Config, s: State, w: map<Key, Sent>, tries: nat, clock: int, since: int, now: int, k: Key)
    requires c.Valid() && Proper(w) && Waiting(c, s, w, tries, clock, since, None) && k in w
    requires clock <= now && now - clock >= c.cooldown * Pow2(tries)
    ensures Due(c, s, k, now)
  {
    hide Part, Due, Budgeted, NoLookalike;
    PartDue(c, s, k, w[k], tries, clock, now);
  }

  /** And then the receiver waits for that position. */
  lemma PollAsks(
    c: Config, digest: Bytes -> Bytes, s: State, w: map<Key, Sent>, tries: nat, clock: int, since: int,
    swept: int, now: int)
    returns (ask: Ask)
    requires c.Valid() && Proper(w) && Waiting(c, s, w, tries, clock, since, None) && w != map[]
    requires clock <= swept <= now && since <= now && now - clock >= c.cooldown * Pow2(tries)
    requires forall k :: k in w ==> k in s.assemblies.at && swept - s.assemblies.at[k].updatedAt <= c.ttl
    requires Clear(c, Sweep(c, s, swept), w.Keys, now)
    ensures var reply := Apply(c, digest, s, PollRepairs(1, true, swept, now));
      && First(reply.outcome) == RequestFor(Some(ask))
      && Waiting(c, reply.state, w, tries, now, since, Some(ask))
      && Lost(reply.state, w) == Lost(s, w)
      && Kept(c, s, reply.state, w.Keys, swept)
      && forall k :: k in w ==>
           && k in reply.state.assemblies.at
           && reply.state.assemblies.at[k].updatedAt == s.assemblies.at[k].updatedAt
  {
    hide Waiting, Lost, Sweep, Clear, Apply, Missing, AskedFor, Kept, Untouched, Proper;
    ask := PollTurnIff(c, digest, s, w, tries, clock, since, swept, now);
    SweepWaiting(c, s, w, tries, clock, since, None, swept);
    var s1 := Sweep(c, s, swept);
    AskedWaiting(c, s1, w, tries, clock, since, ask.key, ask.position, now);
    SweepKept(c, s, w.Keys, swept);
    KeptThen(c, s, s1, AskedFor(c, s1, ask.key, ask.position, now).state, {ask.key}, w.Keys, swept);
  }

  // ---- Hearing the answer ----

  /** Filing under a key that is being assembled moves no other assembly. */
  lemma FileUntouched(
    c: Config, digest: Bytes -> Bytes, s: State, key: Key, wire: int, body: Bytes, now: int)
    requires s.assemblies.Valid() && key in s.assemblies.at
    ensures var t := File(c, digest, s, key, wire, body, now, true).state;
      Untouched(s, t, {key}) && t.assemblies.Valid()
  {
    hide AppendRepairs, Missing, Absorb, Join, Select;
    var a := Absorb(s.assemblies.at[key], wire, body, now);
    PutValid(s.assemblies, key, a);
    SelectAll(s.assemblies.order, s.assemblies.at.Keys);
    assert s.assemblies.at[key := a].Keys == s.assemblies.at.Keys;
    KeepOnlyValid(s.assemblies.Put(key, a), s.assemblies.at.Keys - {key});
    var removed := s.assemblies.Put(key, a).Remove(key);
    assert removed.at.Keys == s.assemblies.at.Keys - {key};
    var r := AppendRepairs(c, Repairs(a, s.requestTimes, []), key, Missing(a), now, 1, true);
    PutValid(s.assemblies.Put(key, a), key, r.assembly);
  }

  lemma FileLockstep(
    c: Config, digest: Bytes -> Bytes, s: State, key: Key, wire: int, body: Bytes, now: int)
    requires Lockstep(s.completed, s.completedIndices)
    ensures var t := File(c, digest, s, key, wire, body, now, true).state; Lockstep(t.completed, t.completedIndices)
  {
    hide File, Lockstep;
    SelfSame(s);
    FileSame(c, digest, digest, s, s, key, wire, body, now, true);
  }

  /** The other frames after filing under `key`. */
  lemma FileOthers(
    c: Config, digest: Bytes -> Bytes, s: State, w: map<Key, Sent>, tries: nat, clock: int, since: int, ask: Ask,
    wire: int, body: Bytes, now: int)
    requires Proper(w) && Waiting(c, s, w, tries, clock, since, Some(ask)) && clock <= now
    ensures var t := File(c, digest, s, ask.key, wire, body, now, true).state;
      && t.assemblies.Valid() && Untouched(s, t, {ask.key})
      && forall k :: k in w && k != ask.key ==>
           && k in s.assemblies.at && k in t.assemblies.at && t.assemblies.at[k] == s.assemblies.at[k]
           && Held(s, k) == Held(t, k)
           && Part(c, t, k, w[k], tries, now, None)
  {
    hide File, Part, Budgeted, NoLookalike, Untouched;
    var t := File(c, digest, s, ask.key, wire, body, now, true).state;
    PartHeld(c, s, ask.key, w[ask.key], tries, clock, Some(ask.position));
    PartFacts(c, s, ask.key, w[ask.key], tries, clock, Some(ask.position));
    FileUntouched(c, digest, s, ask.key, wire, body, now);
    FileLockstep(c, digest, s, ask.key, wire, body, now);
    forall k | k in w && k != ask.key
      ensures
        && k in s.assemblies.at && k in t.assemblies.at && t.assemblies.at[k] == s.assemblies.at[k]
        && Part(c, t, k, w[k], tries, now, None)
    {
      PartHeld(c, s, k, w[k], tries, clock, None);
      PartFacts(c, s, k, w[k], tries, clock, None);
      FileOther(c, digest, s, ask.key, wire, body, now, true, k);
      OtherPart(c, s, t, k, w[k], tries, clock, None, now);
    }
  }

  /** The last outstanding position of a frame arrives. */
  lemma FileCompletes(
    c: Config, digest: Bytes -> Bytes, s: State, w: map<Key, Sent>, tries: nat, clock: int, since: int, ask: Ask,
    q: nat, now: int)
    requires Proper(w) && Waiting(c, s, w, tries, clock, since, Some(ask)) && clock <= now
    requires q == Answered(ask.position, w[ask.key].Count()) && 1 <= q <= w[ask.key].Count()
    requires q in LostOf(s, ask.key, w[ask.key]) && Held(s, ask.key) + {q} == All(w[ask.key])
    ensures var f := w[ask.key];
            var reply := File(c, digest, s, ask.key, WirePosition(q, f.Count()), f.Piece(q), now, true);
      && reply.outcome == Done([f.frame], [])
      && Proper(w - {ask.key})
      && Waiting(c, reply.state, w - {ask.key}, tries, now, since, None)
      && Lost(reply.state, w - {ask.key}) == Lost(s, w) - {Ask(ask.key, q)}
      && ask.key !in reply.state.assemblies.at
  {
    hide Part, Lost, NoLookalike, All, Chunks, Untouched, Mirrors;
    var f := w[ask.key];
    var reply := File(c, digest, s, ask.key, WirePosition(q, f.Count()), f.Piece(q), now, true);
    PartHeld(c, s, ask.key, f, tries, clock, Some(ask.position));
    FileOthers(c, digest, s, w, tries, clock, since, ask, WirePosition(q, f.Count()), f.Piece(q), now);
    assert LostOf(s, ask.key, f) == {q};
    LostLess(s, reply.state, w, ask.key, q);
    PartMirrors(c, s, ask.key, f, tries, clock, Some(ask.position));
    var a := s.assemblies.at[ask.key];
    FileDelivers(c, digest, s, ask.key, f, a.fragments.Keys, a.updatedAt, q, now, true);
    FileGone(c, digest, s, ask.key, WirePosition(q, f.Count()), f.Piece(q), now);
    hide File;
    assert Own(None, ask.key) == None;
  }

  lemma PartMirrors(c: Config, s: State, key: Key, f: Sent, tries: nat, clock: int, asked: Option<nat>)
    requires f.Valid() && Part(c, s, key, f, tries, clock, asked)
    ensures key in s.assemblies.at
    ensures Mirrors(s, key, f, s.assemblies.at[key].fragments.Keys, s.assemblies.at[key].updatedAt)
  {
    hide Mirrors, Fair, Missing, All, Chunks;
  }

  /** A call that completes a frame drops its assembly and asks for nothing. */
  lemma FileGone(c: Config, digest: Bytes -> Bytes, s: State, key: Key, wire: int, body: Bytes, now: int)
    requires key in s.assemblies.at
    requires var out := File(c, digest, s, key, wire, body, now, true).outcome; out.Done? && out.frames != []
    ensures var t := File(c, digest, s, key, wire, body, now, true).state;
      key !in t.assemblies.at && t.requestTimes == s.requestTimes
  {
    hide AppendRepairs, Missing, Absorb, Join;
  }

  /** A position arrives and others of the frame are outstanding: what is filed, before asking again. */
  lemma FiledWaiting(
    c: Config, s: State, w: map<Key, Sent>, tries: nat, clock: int, since: int, ask: Ask, q: nat, now: int)
    returns (t: State)
    requires c.Valid() && Proper(w) && Waiting(c, s, w, tries, clock, since, Some(ask)) && clock <= now
    requires q == Answered(ask.position, w[ask.key].Count()) && 1 <= q <= w[ask.key].Count()
    requires q in LostOf(s, ask.key, w[ask.key]) && Held(s, ask.key) + {q} != All(w[ask.key])
    ensures ask.key in s.assemblies.at
    ensures var f := w[ask.key];
            var b := Absorb(s.assemblies.at[ask.key], WirePosition(q, f.Count()), f.Piece(q), now);
      && t == s.(assemblies := s.assemblies.Put(ask.key, b))
      && b.final.Some? && b.updatedAt == now
      && Waiting(c, t, w, tries, now, since, None)
      && Lost(t, w) == Lost(s, w) - {Ask(ask.key, q)}
  {
    hide Part, Lost, NoLookalike, All, Chunks, Absorb, Untouched;
    var key, f := ask.key, w[ask.key];
    PartHeld(c, s, key, f, tries, clock, Some(ask.position));
    NotYetHeld(s, key, f, q);
    var b := Absorb(s.assemblies.at[key], WirePosition(q, f.Count()), f.Piece(q), now);
    t := s.(assemblies := s.assemblies.Put(key, b));
    PutUntouched(s, t, key, b);
    hide Held, LostOf;
    FiledParts(c, s, t, w, tries, clock, since, ask, q, now);
    LostLess(s, t, w, key, q);
  }

  lemma FiledParts(
    c: Config, s: State, t: State, w: map<Key, Sent>, tries: nat, clock: int, since: int, ask: Ask, q: nat, now: int)
    requires Proper(w) && Waiting(c, s, w, tries, clock, since, Some(ask)) && clock <= now
    requires q == Answered(ask.position, w[ask.key].Count()) && 1 <= q <= w[ask.key].Count()
    requires ask.key in s.assemblies.at && q !in s.assemblies.at[ask.key].fragments
    requires Held(s, ask.key) + {q} != All(w[ask.key])
    requires var f := w[ask.key];
             var b := Absorb(s.assemblies.at[ask.key], WirePosition(q, f.Count()), f.Piece(q), now);
      t == s.(assemblies := s.assemblies.Put(ask.key, b))
    ensures t.assemblies.at[ask.key].final.Some? && t.assemblies.at[ask.key].updatedAt == now
    ensures Held(t, ask.key) == Held(s, ask.key) + {q}
    ensures forall k :: k in w ==> Part(c, t, k, w[k], tries, now, None) && (k != ask.key ==> Held(s, k) == Held(t, k))
  {
    hide Part, Lost, NoLookalike, All, Chunks, Absorb, Untouched, Budgeted;
    var key, f := ask.key, w[ask.key];
    FiledPart(c, s, t, key, f, tries, clock, ask.position, now);
    HeldMore(s, t, key, q);
    forall k | k in w
      ensures Part(c, t, k, w[k], tries, now, None)
      ensures k != key ==> Held(s, k) == Held(t, k)
    {
      if k != key {
        PartHeld(c, s, k, w[k], tries, clock, None);
        HeldSame(s, t, k);
        PartFacts(c, s, k, w[k], tries, clock, None);
        OtherPart(c, s, t, k, w[k], tries, clock, None, now);
      }
    }
  }

  lemma NotYetHeld(s: State, key: Key, f: Sent, q: nat)
    requires f.Valid() && q in LostOf(s, key, f) && key in s.assemblies.at
    ensures q !in s.assemblies.at[key].fragments
  {
    hide All, Chunks;
  }

  lemma HeldMore(s: State, t: State, key: Key, q: nat)
    requires key in s.assemblies.at && key in t.assemblies.at
    requires t.assemblies.at[key].fragments.Keys == s.assemblies.at[key].fragments.Keys + {q}
    ensures Held(t, key) == Held(s, key) + {q}
  {
  }

  /** And then usually the next request for the same frame is written. */
  lemma AskAgain(
    c: Config, digest: Bytes -> Bytes, s: State, t: State, w: map<Key, Sent>, tries: nat, since: int, key: Key,
    wire: int, body: Bytes, now: int)
    returns (next: Option<Ask>)
    requires c.Valid() && Proper(w) && Waiting(c, t, w, tries, now, since, None) && since <= now && key in w
    requires key in s.assemblies.at && key !in s.completedIndices.at
    requires var b := Absorb(s.assemblies.at[key], wire, body, now);
      t == s.(assemblies := s.assemblies.Put(key, b)) && b.final.Some?
    ensures var reply := File(c, digest, s, key, wire, body, now, true);
      && reply.outcome.Done? && reply.outcome.frames == []
      && First(reply.outcome) == RequestFor(next)
      && (next.Some? ==> next.value.key == key)
      && Waiting(c, reply.state, w, tries, now, since, next)
      && Lost(reply.state, w) == Lost(t, w)
      && (tries == 0 ==> next.Some?)
      && key in reply.state.assemblies.at && reply.state.assemblies.at[key].updatedAt == t.assemblies.at[key].updatedAt
  {
    hide Part, Lost, NoLookalike, Missing, Absorb, AppendRepairs, Request, DropOld, Budgeted, FirstAskable;
    hide HasDueRepair, AskedFor;
    var b := Absorb(s.assemblies.at[key], wire, body, now);
    PartFacts(c, t, key, w[key], tries, now, None);
    SomethingLost(c, t, w, tries, now, since, None, key);
    WaitingRoom(c, t, w, tries, now, since, now);
    AppendOneIs(c, Repairs(b, t.requestTimes, []), key, Missing(b), now, true);
    FirstAskableIff(c, b, Missing(b), now, true);
    var m := FirstAskable(c, b, Missing(b), now, true);
    var reply := File(c, digest, s, key, wire, body, now, true);
    if m.Some? {
      next := Some(Ask(key, m.value));
      AskedWaiting(c, t, w, tries, now, since, key, m.value, now);
      AskedTwice(c, s, t, key, b, m.value, now);
      assert reply.state == AskedFor(c, t, key, m.value, now).state;
    } else {
      next := None;
      assert reply.state == t;
      if tries == 0 {
        NewlyAskable(c, b, now);
      }
    }
  }

  lemma AskedTwice(c: Config, s: State, t: State, key: Key, b: Assembly, m: nat, now: int)
    requires t == s.(assemblies := s.assemblies.Put(key, b))
    ensures var r := RequestOne(c, Repairs(b, DropOld(t.requestTimes, now - c.window), []), key, m, now);
      && AskedFor(c, t, key, m, now)
         == Reply(t.(assemblies := t.assemblies.Put(key, r.assembly), requestTimes := r.times), Done([], r.sent))
      && r.sent == [RequestFor(Some(Ask(key, m))).value]
  {
    hide DropOld;
  }

  /** What was never asked for may be asked for at once. */
  lemma NewlyAskable(c: Config, b: Assembly, now: int)
    requires c.Valid() && Missing(b) != [] && Fair(c, b, 0, now, None)
    requires forall p :: p in Missing(b) ==> p <= 127 && !A.Held(b, p)
    ensures HasDueRepair(c, b, Missing(b), now, true)
  {
    hide Missing, Fair, Askable;
    assert Missing(b)[0] in Missing(b);
    FairAskable(c, b, 0, now, Missing(b)[0], now, true);
  }

  lemma DeliveredNone(key: Key, out: Outcome)
    requires out.Done? && out.frames == []
    ensures DeliveredBy(key, out) == []
  {
  }

  lemma DeliveredOne(key: Key, frame: Bytes)
    ensures DeliveredBy(key, Done([frame], [])) == [Delivered(key, frame)] && First(Done([frame], [])) == None
  {
  }

  lemma AskedPosition(
    c: Config, s: State, w: map<Key, Sent>, tries: nat, clock: int, since: int, ask: Ask)
    requires Proper(w) && Waiting(c, s, w, tries, clock, since, Some(ask))
    ensures ask.key in s.assemblies.at && ask.key !in s.completedIndices.at && ask.position <= 127
    ensures var q := Answered(ask.position, w[ask.key].Count());
      1 <= q <= w[ask.key].Count() && q in LostOf(s, ask.key, w[ask.key]) && Ask(ask.key, q) in Lost(s, w)
  {
    hide Part, Budgeted, NoLookalike, All;
    PartHeld(c, s, ask.key, w[ask.key], tries, clock, Some(ask.position));
    PartFacts(c, s, ask.key, w[ask.key], tries, clock, Some(ask.position));
    PartAsked(c, s, ask.key, w[ask.key], tries, clock, ask.position);
    InAll(w[ask.key], Answered(ask.position, w[ask.key].Count()));
  }

  lemma PartAsked(c: Config, s: State, key: Key, f: Sent, tries: nat, clock: int, m: nat)
    requires f.Valid() && Part(c, s, key, f, tries, clock, Some(m))
    ensures key in s.assemblies.at && m in Missing(s.assemblies.at[key])
  {
    hide Mirrors, Fair, All, Chunks, Missing;
  }

  /** The wanted frames once position `q` of `key` has arrived. */
  ghost function Remaining(w: map<Key, Sent>, s: State): map<Key, Sent> {
    map k | k in w && k in s.assemblies.at :: w[k]
  }

  lemma RemainingAll(c: Config, s: State, w: map<Key, Sent>, tries: nat, clock: int, since: int, pending: Option<Ask>)
    requires Proper(w) && Waiting(c, s, w, tries, clock, since, pending)
    ensures Remaining(w, s) == w
  {
    hide Part, Budgeted, NoLookalike;
    forall k | k in w ensures k in s.assemblies.at {
      PartHeld(c, s, k, w[k], tries, clock, Own(pending, k));
    }
  }

  lemma RemainingLess(
    c: Config, s: State, w: map<Key, Sent>, key: Key, tries: nat, clock: int, since: int, pending: Option<Ask>)
    requires Proper(w) && Proper(w - {key}) && Waiting(c, s, w - {key}, tries, clock, since, pending)
    requires key in w && key !in s.assemblies.at
    ensures Remaining(w, s) == w - {key}
  {
    hide Waiting, NoLookalike;
    RemainingAll(c, s, w - {key}, tries, clock, since, pending);
    assert forall k :: k in w - {key} <==> k in w && k != key;
    assert forall k :: k in w - {key} ==> k in Remaining(w - {key}, s);
  }

  /** What filing the answer leads to. */
  lemma FileAnswer(
    c: Config, digest: Bytes -> Bytes, s: State, w: map<Key, Sent>, tries: nat, clock: int, since: int, ask: Ask,
    q: nat, now: int)
    returns (next: Option<Ask>)
    requires c.Valid() && Proper(w) && Waiting(c, s, w, tries, clock, since, Some(ask))
    requires clock <= now && since <= now
    requires q == Answered(ask.position, w[ask.key].Count()) && 1 <= q <= w[ask.key].Count()
    ensures var f := w[ask.key];
            var reply := File(c, digest, s, ask.key, WirePosition(q, f.Count()), f.Piece(q), now, true);
            var left := Remaining(w, reply.state);
      && Proper(left)
      && left == (if ask.key in left then w else w - {ask.key})
      && Waiting(c, reply.state, left, tries, now, since, next)
      && Lost(reply.state, left) == Lost(s, w) - {Ask(ask.key, q)}
      && First(reply.outcome) == RequestFor(next)
      && DeliveredBy(ask.key, reply.outcome)
         == (if ask.key in left then [] else [Delivered(ask.key, f.frame)])
      && (next.Some? ==> next.value.key == ask.key)
      && (ask.key in left ==> reply.state.assemblies.at[ask.key].updatedAt == now)
      && (ask.key in left && tries == 0 ==> next.Some?)
  {
    hide Waiting, Lost, LostOf, NoLookalike, All, Chunks, File, Absorb, First, DeliveredBy, RequestFor;
    WaitingValid(c, s, w, tries, clock, since, Some(ask));
    var f := w[ask.key];
    AskedPosition(c, s, w, tries, clock, since, ask);
    var reply := File(c, digest, s, ask.key, WirePosition(q, f.Count()), f.Piece(q), now, true);
    if Held(s, ask.key) + {q} == All(f) {
      FileCompletes(c, digest, s, w, tries, clock, since, ask, q, now);
      RemainingLess(c, reply.state, w, ask.key, tries, now, since, None);
      DeliveredOne(ask.key, f.frame);
      next := None;
      assert RequestFor(None) == None by { NoRequest(); }
    } else {
      var t := FiledWaiting(c, s, w, tries, clock, since, ask, q, now);
      next := AskAgain(
        c, digest, s, t, w, tries, since, ask.key, WirePosition(q, f.Count()), f.Piece(q), now);
      RemainingAll(c, reply.state, w, tries, now, since, next);
      DeliveredNone(ask.key, reply.outcome);
    }
  }

  lemma NoRequest()
    ensures RequestFor(None) == None
  {
  }

  /**
   * Hearing the answer to the pending request leaves one position fewer outstanding; if it was
   * the last one of its frame the frame is delivered, otherwise the next request for the frame
   * is usually on its way.
   */
  lemma HearAnswer(
    c: Config, digest: Bytes -> Bytes, s: State, w: map<Key, Sent>, tries: nat, clock: int, since: int, ask: Ask,
    q: nat, swept: int, now: int)
    returns (next: Option<Ask>)
    requires c.Valid() && Proper(w) && Waiting(c, s, w, tries, clock, since, Some(ask))
    requires clock <= swept <= now && since <= now
    requires forall k :: k in w ==> k in s.assemblies.at && swept - s.assemblies.at[k].updatedAt <= c.ttl
    requires q == Answered(ask.position, w[ask.key].Count()) && 1 <= q <= w[ask.key].Count()
    ensures var f := w[ask.key];
            var call := Hear(ask.key.source, Fragment(f.frame, f.body, ask.key.index, q), true, swept, now);
            var reply := Apply(c, digest, s, call);
            var left := Remaining(w, reply.state);
      && Proper(left)
      && left == (if ask.key in left then w else w - {ask.key})
      && Waiting(c, reply.state, left, tries, now, since, next)
      && Lost(reply.state, left) == Lost(s, w) - {Ask(ask.key, q)}
      && First(reply.outcome) == RequestFor(next)
      && DeliveredBy(ask.key, reply.outcome) == (if ask.key in left then [] else [Delivered(ask.key, f.frame)])
      && Kept(c, s, reply.state, w.Keys, swept)
      && (ask.key in left ==> reply.state.assemblies.at[ask.key].updatedAt == now)
      && (ask.key in left && tries == 0 ==> next.Some?)
  {
    hide Waiting, Lost, All, Chunks, File, Sweep, Fragment, First, DeliveredBy, RequestFor, Kept, Untouched, Remaining;
    hide NoLookalike;
    WaitingValid(c, s, w, tries, clock, since, Some(ask));
    var f := w[ask.key];
    var call := Hear(ask.key.source, Fragment(f.frame, f.body, ask.key.index, q), true, swept, now);
    SweepWaiting(c, s, w, tries, clock, since, Some(ask), swept);
    var s1 := Sweep(c, s, swept);
    CarriedHeader(call, ask.key, f, q);
    var wire, body := WirePosition(q, f.Count()), f.Piece(q);
    AnswerFiled(c, digest, s, ask.key, f, q, swept, now);
    next := FileAnswer(c, digest, s1, w, tries, clock, since, ask, q, now);
    SweepKept(c, s, w.Keys, swept);
    WaitingValid(c, s1, w, tries, clock, since, Some(ask));
    AskedPosition(c, s1, w, tries, clock, since, ask);
    FileUntouched(c, digest, s1, ask.key, wire, body, now);
    KeptThen(c, s, s1, File(c, digest, s1, ask.key, wire, body, now, true).state, {ask.key}, w.Keys, swept);
  }

  lemma WaitingValid(
    c: Config, s: State, w: map<Key, Sent>, tries: nat, clock: int, since: int, pending: Option<Ask>)
    requires Proper(w) && Waiting(c, s, w, tries, clock, since, pending)
    ensures s.assemblies.Valid() && (pending.Some? ==> pending.value.key in w)
  {
    hide Parts, Budgeted;
  }

  lemma AnswerFiled(
    c: Config, digest: Bytes -> Bytes, s: State, key: Key, f: Sent, q: nat, swept: int, now: int)
    requires c.Valid() && f.Valid() && key.source != "" && NoLookalike(key, f) && 1 <= q <= f.Count()
    ensures Apply(c, digest, s, Hear(key.source, Fragment(f.frame, f.body, key.index, q), true, swept, now))
         == File(c, digest, Sweep(c, s, swept), key, WirePosition(q, f.Count()), f.Piece(q), now, true)
  {
    hide Chunks, Fragment, Sweep, File;
    var call := Hear(key.source, Fragment(f.frame, f.body, key.index, q), true, swept, now);
    CarriedHeader(call, key, f, q);
  }
}
