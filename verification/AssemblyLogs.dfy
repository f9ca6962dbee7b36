/** What an unfinished frame remembers, told from the fragments filed for it and the requests it sent. */
module AssemblyLogs {
  import opened Common
  import opened OrderedMaps
  import opened Fragments
  import opened FragmentSpec
  import opened FragmentFacts
  import opened RepairBudget
  import A = RepairAttempts

  /** A fragment was filed under its wire position, or a position was asked for. */
  datatype Entry = Filed(wire: int, body: Bytes, at: int) | Asked(position: int, at: int)

  // ---- What a log says ----

  function LastBody(log: seq<Entry>, p: nat): Option<Bytes> {
    if log == [] then None
    else
      var front, e := log[..|log| - 1], log[|log| - 1];
      if e.Filed? && Abs(e.wire) == p then Some(e.body) else LastBody(front, p)
  }

  /** The last position that was marked as the final one. */
  function LastFinal(log: seq<Entry>): Option<nat> {
    if log == [] then None
    else
      var front, e := log[..|log| - 1], log[|log| - 1];
      if e.Filed? && e.wire < 0 then Some(Abs(e.wire)) else LastFinal(front)
  }

  /** A fragment is news if its body is not the one last filed there, or if it moves the end of the frame. */
  predicate News(front: seq<Entry>, e: Entry) {
    e.Filed? && (LastBody(front, Abs(e.wire)) != Some(e.body) || (e.wire < 0 && LastFinal(front) != Some(-e.wire)))
  }

  function LastNews(log: seq<Entry>): Option<int> {
    if log == [] then None
    else
      var front, e := log[..|log| - 1], log[|log| - 1];
      if News(front, e) then Some(e.at) else LastNews(front)
  }

  /** Requests for a position start anew with news about it; for the unknown end, with any final fragment. */
  function AskedSince(log: seq<Entry>, p: nat): seq<int> {
    if log == [] then []
    else
      var front, e := log[..|log| - 1], log[|log| - 1];
      if e.Filed? && ((Abs(e.wire) == p && News(front, e)) || (p == 0 && e.wire < 0)) then []
      else AskedSince(front, p) + (if e.Asked? && e.position == p then [e.at] else [])
  }

  /** Bodies, end and age of the assembly. */
  ghost predicate Pieces(a: Assembly, log: seq<Entry>) {
    && (forall p: nat :: LastBody(log, p) == if p in a.fragments then Some(a.fragments[p]) else None)
    && a.final == LastFinal(log)
    && (LastNews(log).Some? ==> a.updatedAt == LastNews(log).value)
  }

  /** Its record of what it asked for. */
  ghost predicate Counters(a: Assembly, log: seq<Entry>) {
    forall p: nat :: Counted(a, AskedSince(log, p), p)
  }

  predicate Counted(a: Assembly, times: seq<int>, p: nat) {
    && Lookup0(a.attempts, p, 0) == |times|
    && (times != [] ==> p in a.requestedAt && a.requestedAt[p] == times[|times| - 1])
  }

  /** The assembly is exactly what its log says. */
  ghost predicate Remembers(a: Assembly, log: seq<Entry>) {
    Pieces(a, log) && Counters(a, log)
  }

  lemma BodySnoc(log: seq<Entry>, e: Entry, p: nat)
    ensures LastBody(log + [e], p) == if e.Filed? && Abs(e.wire) == p then Some(e.body) else LastBody(log, p)
  {
    assert (log + [e])[..|log|] == log;
  }

  lemma NewsSnoc(log: seq<Entry>, e: Entry)
    ensures LastNews(log + [e]) == if News(log, e) then Some(e.at) else LastNews(log)
    ensures LastFinal(log + [e]) == if e.Filed? && e.wire < 0 then Some(Abs(e.wire)) else LastFinal(log)
  {
    assert (log + [e])[..|log|] == log;
  }

  lemma AskedSnoc(log: seq<Entry>, e: Entry, p: nat)
    ensures AskedSince(log + [e], p)
         == if e.Filed? && ((Abs(e.wire) == p && News(log, e)) || (p == 0 && e.wire < 0)) then []
            else AskedSince(log, p) + (if e.Asked? && e.position == p then [e.at] else [])
  {
    hide News;
    assert (log + [e])[..|log|] == log;
  }

  // ---- One step ----

  lemma FreshRemembers(now: int)
    ensures Remembers(Fresh(now), [])
  {
  }

  lemma AskRemembers(a: Assembly, log: seq<Entry>, m: nat, now: int)
    requires Remembers(a, log)
    ensures var asked := a.(requestedAt := a.requestedAt[m := now],
                            attempts := a.attempts[m := Lookup0(a.attempts, m, 0) + 1]);
      Remembers(asked, log + [Asked(m, now)])
  {
    hide LastBody, LastFinal, LastNews, AskedSince;
    var e := Asked(m, now);
    NewsSnoc(log, e);
    forall p: nat
      ensures LastBody(log + [e], p) == LastBody(log, p)
      ensures AskedSince(log + [e], p) == AskedSince(log, p) + (if p == m then [now] else [])
    {
      BodySnoc(log, e, p);
      AskedSnoc(log, e, p);
    }
  }

  lemma NewsMeans(a: Assembly, log: seq<Entry>, wire: int, body: Bytes, now: int)
    requires Pieces(a, log)
    ensures News(log, Filed(wire, body, now)) <==>
              !(Abs(wire) in a.fragments && a.fragments[Abs(wire)] == body) || (wire < 0 && a.final != Some(Abs(wire)))
  {
  }

  lemma FilePieces(a: Assembly, log: seq<Entry>, wire: int, body: Bytes, now: int)
    requires Pieces(a, log)
    ensures Pieces(Absorb(a, wire, body, now), log + [Filed(wire, body, now)])
    ensures LastNews(log).Some? || log == [] ==> LastNews(log + [Filed(wire, body, now)]).Some?
  {
    var e := Filed(wire, body, now);
    NewsSnoc(log, e);
    NewsMeans(a, log, wire, body, now);
    assert log == [] ==> LastBody(log, Abs(wire)) == None;
    assert log == [] ==> News(log, e);
    hide LastBody, LastFinal, LastNews, News;
    forall p: nat ensures LastBody(log + [e], p) == if Abs(wire) == p then Some(body) else LastBody(log, p) {
      BodySnoc(log, e, p);
    }
  }

  lemma AbsorbCounts(a: Assembly, wire: int, body: Bytes, now: int, p: nat, times: seq<int>, news: bool)
    requires Counted(a, times, p)
    requires news <==> !(Abs(wire) in a.fragments && a.fragments[Abs(wire)] == body)
                       || (wire < 0 && a.final != Some(Abs(wire)))
    ensures var reset := (Abs(wire) == p && news) || (p == 0 && wire < 0);
      Counted(Absorb(a, wire, body, now), if reset then [] else times, p)
  {
  }

  lemma FileCounters(a: Assembly, log: seq<Entry>, wire: int, body: Bytes, now: int)
    requires Remembers(a, log)
    ensures Counters(Absorb(a, wire, body, now), log + [Filed(wire, body, now)])
  {
    var e := Filed(wire, body, now);
    NewsMeans(a, log, wire, body, now);
    hide AskedSince, News, Pieces, Absorb, Counted;
    forall p: nat ensures Counted(Absorb(a, wire, body, now), AskedSince(log + [e], p), p) {
      AbsorbCounts(a, wire, body, now, p, AskedSince(log, p), News(log, e));
      AskedSnoc(log, e, p);
      assert AskedSince(log, p) + [] == AskedSince(log, p);
    }
  }

  lemma FileRemembers(a: Assembly, log: seq<Entry>, wire: int, body: Bytes, now: int)
    requires Remembers(a, log)
    ensures Remembers(Absorb(a, wire, body, now), log + [Filed(wire, body, now)])
    ensures LastNews(log).Some? || log == [] ==> LastNews(log + [Filed(wire, body, now)]).Some?
  {
    hide Pieces, Counters, Absorb, LastNews;
    FilePieces(a, log, wire, body, now);
    FileCounters(a, log, wire, body, now);
  }

  // ---- Runs ----

  /** The requests made on behalf of `key`. */
  function AskedOf(events: seq<Event>, key: Key): seq<Entry> {
    if events == [] then []
    else
      AskedOf(events[..|events| - 1], key) +
      var e := events[|events| - 1];
      if e.key == key then [Asked(e.position, e.at)] else []
  }

  /** What a call files under `key`: a well-formed fragment, unless its frame is remembered as delivered. */
  function FiledBy(s: State, call: Call, key: Key): seq<Entry> {
    if call.Hear? && call.source != "" && !IsRequest(call.payload) && Malformed(call.payload).None?
       && Key(call.source, call.payload[0]) == key && key !in s.completedIndices.at
    then [Filed(SignedByte(call.payload[1]), call.payload[2..], call.now)] else []
  }

  /** Everything filed and asked for since a call last found no assembly of `key` after its clean-up. */
  function LifeLog(c: Config, digest: Bytes -> Bytes, calls: seq<Call>, key: Key): seq<Entry>
    requires c.Valid()
  {
    if calls == [] then []
    else
      var n := |calls| - 1;
      var before := Run(c, digest, INITIAL, calls[..n]);
      var s1 := Swept(c, before, calls[n]);
      (if key in s1.assemblies.at then LifeLog(c, digest, calls[..n], key) else []) +
      FiledBy(s1, calls[n], key) +
      AskedOf(OutcomeEvents(Apply(c, digest, before, calls[n]).outcome, calls[n].now), key)
  }

  lemma AskedOfSnoc(events: seq<Event>, e: Event, key: Key)
    ensures AskedOf(events + [e], key)
         == AskedOf(events, key) + (if e.key == key then [Asked(e.position, e.at)] else [])
  {
    assert (events + [e])[..|events|] == events;
  }

  /** Requests for one assembly are on its record and on no other's. */
  lemma {:induction false} AppendRemembers(
    c: Config, r: Repairs, owner: Key, missing: seq<nat>, now: int, budget: int, immediate: bool,
    key: Key, past: seq<Entry>)
    requires A.Wanted(r.assembly, missing)
    requires owner == key ==> Remembers(r.assembly, past + AskedOf(Events(r.sent, now), key))
    ensures var r' := AppendRepairs(c, r, owner, missing, now, budget, immediate);
      if owner == key then Remembers(r'.assembly, past + AskedOf(Events(r'.sent, now), key))
      else AskedOf(Events(r'.sent, now), key) == AskedOf(Events(r.sent, now), key)
    decreases |missing|
  {
    hide Remembers, DropOld, Events, AskedOf, RepairDue;
    if missing == [] || budget <= 0 {
    } else {
      var m, rest := missing[0], missing[1..];
      assert m in missing;
      assert forall x :: x in rest ==> x in missing;
      if Lookup0(r.assembly.attempts, m, 0) >= c.maxAttempts || !RepairDue(c, r.assembly, m, now, immediate) {
        AppendRemembers(c, r, owner, rest, now, budget, immediate, key, past);
      } else {
        var trimmed := r.(times := DropOld(r.times, now - c.window));
        if |trimmed.times| < c.maxRequests {
          var next := RequestOne(c, trimmed, owner, m, now);
          NextAsked(r.sent, owner, m, now, key);
          if owner == key {
            var log := past + AskedOf(Events(r.sent, now), key);
            AskRemembers(r.assembly, log, m, now);
            assert log + [Asked(m, now)] == past + (AskedOf(Events(r.sent, now), key) + [Asked(m, now)]);
          }
          AppendRemembers(c, next, owner, rest, now, budget - 1, immediate, key, past);
        }
      }
    }
  }

  lemma NextAsked(sent: seq<Transmission>, owner: Key, m: nat, now: int, key: Key)
    requires m <= 127
    ensures AskedOf(Events(sent + [Transmission(owner.source, Request(owner.index, m), Repair)], now), key)
         == AskedOf(Events(sent, now), key) + (if owner == key then [Asked(m, now)] else [])
  {
    hide AskedOf, Events;
    A.EventPosition(m);
    EventsSnoc(sent, owner, m, now);
    AskedOfSnoc(Events(sent, now), Event(owner, m, now), key);
  }

  /** The assembly of a key, if there is one, is what the log says, and something has been filed. */
  ghost predicate Told(s: State, key: Key, log: seq<Entry>) {
    key in s.assemblies.at ==> Remembers(s.assemblies.at[key], log) && LastNews(log).Some?
  }

  lemma AskedKeepsNews(log: seq<Entry>, events: seq<Event>, key: Key)
    ensures LastNews(log + AskedOf(events, key)) == LastNews(log)
    decreases |events|
  {
    hide News;
    if events == [] {
      assert log + [] == log;
    } else {
      var n := |events| - 1;
      var e := events[n];
      AskedKeepsNews(log, events[..n], key);
      var front := log + AskedOf(events[..n], key);
      if e.key == key {
        AskedIsNoNews(front, Asked(e.position, e.at));
        assert log + AskedOf(events, key) == front + [Asked(e.position, e.at)];
      } else {
        assert AskedOf(events, key) == AskedOf(events[..n], key);
      }
    }
  }

  lemma AskedIsNoNews(log: seq<Entry>, e: Entry)
    requires e.Asked?
    ensures LastNews(log + [e]) == LastNews(log)
  {
    NewsSnoc(log, e);
  }

  lemma {:induction false} PollTold(
    c: Config, s: State, keys: seq<Key>, now: int, maxRequests: int, allowControl: bool, sent: seq<Transmission>,
    key: Key, past: seq<Entry>)
    requires c.Valid() && A.AllWellFormed(s)
    requires Told(s, key, past + AskedOf(Events(sent, now), key))
    ensures var reply := PollFrom(c, s, keys, now, maxRequests, allowControl, sent);
      && reply.outcome.Done?
      && Told(reply.state, key, past + AskedOf(Events(reply.outcome.transmissions, now), key))
    decreases |keys|
  {
    hide Remembers, A.WellFormed, AppendRepairs, Missing, Events, AskedOf, LastNews;
    if keys == [] {
    } else if keys[0] !in s.assemblies.at || now - s.assemblies.at[keys[0]].updatedAt < c.cooldown {
      PollTold(c, s, keys[1..], now, maxRequests, allowControl, sent, key, past);
    } else if maxRequests - |sent| <= 0 {
    } else if !allowControl {
      PollTold(c, s, keys[1..], now, maxRequests, allowControl, sent, key, past);
    } else {
      var a := s.assemblies.at[keys[0]];
      var start := Repairs(a, s.requestTimes, sent);
      A.MissingWanted(a);
      AppendRemembers(c, start, keys[0], Missing(a), now, maxRequests - |sent|, false, key, past);
      var r := AppendRepairs(c, start, keys[0], Missing(a), now, maxRequests - |sent|, false);
      var s1 := s.(assemblies := s.assemblies.Put(keys[0], r.assembly), requestTimes := r.times);
      AppendKeepsShape(c, start, keys[0], Missing(a), now, maxRequests - |sent|, false);
      A.SameShape(a, r.assembly);
      AskedKeepsNews(past, Events(sent, now), key);
      AskedKeepsNews(past, Events(r.sent, now), key);
      PollTold(c, s1, keys[1..], now, maxRequests, allowControl, r.sent, key, past);
    }
  }

  lemma FileTold(
    c: Config, digest: Bytes -> Bytes, s: State, owner: Key, wire: int, body: Bytes, now: int,
    allowControl: bool, key: Key, past: seq<Entry>)
    requires c.Valid() && A.AllWellFormed(s) && wire != 0 && -128 <= wire <= 127
    requires Told(s, key, past) && (key !in s.assemblies.at ==> past == [])
    ensures var reply := File(c, digest, s, owner, wire, body, now, allowControl);
      var filed := if owner == key && key !in s.completedIndices.at then [Filed(wire, body, now)] else [];
      Told(reply.state, key, past + filed + AskedOf(OutcomeEvents(reply.outcome, now), key))
  {
    hide Remembers, A.WellFormed, Absorb, Join, LastNews, AskedOf, Events;
    NothingAsked(now, key);
    var filed := if owner == key && key !in s.completedIndices.at then [Filed(wire, body, now)] else [];
    assert past + [] == past && past + filed + [] == past + filed;
    if owner !in s.completedIndices.at {
      var before := AssemblyFor(s, owner, now);
      var a := Absorb(before, wire, body, now);
      assert A.WellFormed(a) by {
        A.FreshWellFormed(now);
        A.AbsorbWellFormed(before, wire, body, now);
      }
      if owner == key {
        FreshRemembers(now);
        FileRemembers(before, past, wire, body, now);
      }
      if a.final.Some? && Missing(a) != [] && allowControl {
        A.MissingWanted(a);
        var start := Repairs(a, s.requestTimes, []);
        AppendRemembers(c, start, owner, Missing(a), now, 1, true, key, past + filed);
        var r := AppendRepairs(c, start, owner, Missing(a), now, 1, true);
        AskedKeepsNews(past + filed, Events(r.sent, now), key);
      }
    }
  }

  lemma NothingAsked(at: int, key: Key)
    ensures Events([], at) == [] && AskedOf([], key) == []
  {
  }

  lemma ApplyTold(c: Config, digest: Bytes -> Bytes, s: State, call: Call, key: Key, past: seq<Entry>)
    requires c.Valid() && A.AllWellFormed(s) && Told(s, key, past)
    ensures var reply := Apply(c, digest, s, call); var s1 := Swept(c, s, call);
      Told(reply.state, key,
           (if key in s1.assemblies.at then past else []) + FiledBy(s1, call, key) +
           AskedOf(OutcomeEvents(reply.outcome, call.now), key))
  {
    hide Remembers, A.WellFormed, File, PollFrom, Chunks, PopExpired, DropOld, Select, Events, AskedOf, LastNews;
    var s1 := Swept(c, s, call);
    var alive := if key in s1.assemblies.at then past else [];
    assert Told(s1, key, alive) && A.AllWellFormed(s1);
    hide Sweep;
    NothingAsked(call.now, key);
    assert alive + [] == alive && alive + [] + [] == alive;
    match call
    case Send(frame, destination, swept, now) =>
      var out := Encode(c, s, frame, destination, swept, now).outcome;
      if out.Done? {
        DataIsNoEvent(out.transmissions, now);
      }
    case Hear(source, payload, allow, swept, now) =>
      if source != "" && !IsRequest(payload) && Malformed(payload).None? {
        FileTold(
          c, digest, s1, Key(source, payload[0]), SignedByte(payload[1]), payload[2..], now, allow, key, alive);
      } else if source != "" && IsRequest(payload) {
        var out := HandleRequest(s1, source, payload[3..]);
        if out.Done? {
          DataIsNoEvent(out.transmissions, now);
        }
      }
    case PollRepairs(n, allow, swept, now) =>
      if n > 0 {
        PollTold(c, s1, s1.assemblies.order, now, n, allow, [], key, alive);
      }
    case Cleanup(_, _) =>
  }

  /**
   * After any run an unfinished frame remembers exactly what its log says: at each position the body
   * last filed there; as its end the last position marked final; as its age the last fragment that was
   * news (a repeated fragment does not make it younger, a moved end does); and per position how often
   * and when last it was asked for since there was news about it.
   */
  lemma {:induction false} AssemblyIs(c: Config, digest: Bytes -> Bytes, calls: seq<Call>, key: Key)
    requires c.Valid()
    ensures Told(Run(c, digest, INITIAL, calls), key, LifeLog(c, digest, calls, key))
  {
    hide Apply, Swept, Remembers, A.WellFormed, LastNews, FiledBy;
    if calls != [] {
      var n := |calls| - 1;
      A.RunRecorded(c, digest, calls[..n], key, 0);
      AssemblyIs(c, digest, calls[..n], key);
      ApplyTold(
        c, digest, Run(c, digest, INITIAL, calls[..n]), calls[n], key, LifeLog(c, digest, calls[..n], key));
    }
  }
}
