/** A run in which the two implementations answer a request differently. */
module CacheOrder {
  import opened Common
  import opened OrderedMaps
  import opened Fragments
  import opened FragmentSpec
  import T = ProtocolTwins
  import R = Retransmission
  import J = AndroidFragmentSpec

  const FRAME: Bytes := [7]

  /** 256 frames to `a`, 256 to `b`, one more to `a`, one to `c`. */
  function Destination(i: nat): string {
    if i < 256 || i == 512 then "a" else if i < 512 then "b" else "c"
  }

  function Sends(n: nat): seq<Call> {
    seq(n, i requires 0 <= i < n => Send(FRAME, Destination(i), 0, 0))
  }

  function Walks(n: nat): seq<seq<Key>> {
    seq(n, i => [])
  }

  function KeyAt(i: nat): CacheKey {
    CacheKey(i % 256, Destination(i))
  }

  function Entry(c: Config, i: nat): Cached
    requires c.Valid()
  {
    Cached(Destination(i), 0, AllFragments(FRAME, c.fragmentBody, i % 256))
  }

  /** The cache after `n` frames, as long as every key is new. */
  function Fill(c: Config, n: nat): OMap<CacheKey, Cached>
    requires c.Valid()
  {
    if n == 0 then EmptyMap() else Fill(c, n - 1).Put(KeyAt(n - 1), Entry(c, n - 1))
  }

  lemma KeysDiffer(i: nat, j: nat)
    requires i < j < 512
    ensures KeyAt(i) != KeyAt(j)
  {
  }

  lemma {:induction false} FillFacts(c: Config, n: nat)
    requires c.Valid() && n <= 512
    ensures var m := Fill(c, n);
      && m.Valid() && |m.order| == n
      && (forall i :: 0 <= i < n ==> m.order[i] == KeyAt(i) && KeyAt(i) in m.at)
      && (forall k :: k in m.at ==> m.at[k].createdAt == 0 && k.destination in {"a", "b"})
      && (n < 512 ==> KeyAt(n) !in m.at)
      && (n > 0 ==> m.at[KeyAt(0)] == Entry(c, 0))
  {
    hide KeyAt, AllFragments;
    if n > 0 {
      FillFacts(c, n - 1);
      PutValid(Fill(c, n - 1), KeyAt(n - 1), Entry(c, n - 1));
      TwoPeers(n - 1);
      if n > 1 {
        KeysDiffer(0, n - 1);
      }
    }
    if n < 512 && KeyAt(n) in Fill(c, n).at {
      var m := Fill(c, n);
      assert KeyAt(n) in Elements(m.order);
      var i :| 0 <= i < n && m.order[i] == KeyAt(n);
      KeysDiffer(i, n);
    }
  }

  lemma TwoPeers(i: nat)
    requires i < 512
    ensures KeyAt(i).destination in {"a", "b"}
  {
  }

  /** With nothing but a young cache there is nothing to clean up. */
  lemma NothingOld(c: Config, index: Byte, cache: OMap<CacheKey, Cached>)
    requires c.Valid() && cache.Valid() && forall k :: k in cache.at ==> cache.at[k].createdAt == 0
    ensures var s := INITIAL.(nextIndex := index, txCache := cache); Sweep(c, s, 0) == s
    ensures var t := J.FRESH.(nextIndex := index, txCache := cache); J.Cleanup(c, t, 0) == t
  {
    hide Select;
    var keep := set k | k in cache.at && cache.at[k].createdAt >= 0 - c.ttl;
    assert keep == cache.at.Keys;
    SelectAll(cache.order, keep);
    assert cache.KeepOnly(keep) == cache;
    NoAssemblies(c);
  }

  lemma NoAssemblies(c: Config)
    ensures INITIAL.assemblies.KeepOnly(
              set k | k in INITIAL.assemblies.at && INITIAL.assemblies.at[k].updatedAt >= 0 - c.ttl)
         == INITIAL.assemblies
  {
  }

  lemma FrameFits(c: Config)
    requires c.Valid()
    ensures R.Sendable(c, FRAME) && |Chunks(FRAME, c.fragmentBody)| == 1
  {
  }

  /** Sending one frame with such a cache. */
  lemma SendStep(c: Config, index: Byte, s: OMap<CacheKey, Cached>, t: OMap<CacheKey, Cached>, destination: string)
    requires c.Valid() && J.Configured(c)
    requires s.Valid() && forall k :: k in s.at ==> s.at[k].createdAt == 0
    requires t.Valid() && forall k :: k in t.at ==> t.at[k].createdAt == 0
    ensures var k := CacheKey(index, destination);
            var v := Cached(destination, 0, AllFragments(FRAME, c.fragmentBody, index));
      && Encode(c, INITIAL.(nextIndex := index, txCache := s), FRAME, destination, 0, 0).state
         == INITIAL.(nextIndex := Wrap(index), txCache := TrimFront(s.Put(k, v).MoveToEnd(k), MAX_CACHED))
      && J.Encode(c, J.FRESH.(nextIndex := index, txCache := t), FRAME, destination, 0, 0).twin
         == J.FRESH.(nextIndex := Wrap(index), txCache := TrimFront(t.Put(k, v), MAX_CACHED))
  {
    hide Chunks, AllFragments, TrimFront, Select, Sweep, J.Cleanup;
    FrameFits(c);
    NothingOld(c, index, s);
    NothingOld(c, index, t);
  }

  /** The last of `n + 1` sends. */
  lemma SendsSnoc(n: nat)
    ensures Sends(n + 1)[..n] == Sends(n) && Sends(n + 1)[n] == Send(FRAME, Destination(n), 0, 0)
    ensures Walks(n + 1)[..n] == Walks(n)
  {
  }

  /** Up to the 512th frame both caches are filled alike. */
  lemma {:induction false} Filled(c: Config, digest: Bytes -> Bytes, n: nat)
    requires c.Valid() && J.Configured(c) && n <= 512
    ensures Run(c, digest, INITIAL, Sends(n)) == INITIAL.(nextIndex := n % 256, txCache := Fill(c, n))
    ensures J.Run(c, digest, Sends(n), Walks(n)) == J.FRESH.(nextIndex := n % 256, txCache := Fill(c, n))
  {
    if n == 0 {
      assert Sends(0) == [] && Walks(0) == [];
    } else {
      hide Encode, J.Encode, Chunks, AllFragments, Select, TrimFront, Destination, Run, J.Run, Sends, Walks;
      var i := n - 1;
      Filled(c, digest, i);
      FillFacts(c, i);
      FillFacts(c, n);
      var m := Fill(c, i);
      SendStep(c, i % 256, m, m, Destination(i));
      MoveNewKey(m, KeyAt(i), Entry(c, i));
      NoTrim(Fill(c, n));
      OneMoreSend(c, digest, i);
      NextIndex(i);
    }
  }

  lemma NextIndex(i: nat)
    ensures Wrap(i % 256) == (i + 1) % 256
  {
  }

  lemma NoTrim(m: OMap<CacheKey, Cached>)
    ensures |m.order| <= MAX_CACHED ==> TrimFront(m, MAX_CACHED) == m
  {
  }

  /**
   * After these 514 frames, all within one lifetime, node `a` asks for the frame it was sent last,
   * under index 0. `framing.py` moved its entry to the end of the queue when it was stored again,
   * evicted that of index 1 and answers; the Android side left it at the front, evicted it and is
   * silent.
   */
  lemma CachesPart(c: Config, digest: Bytes -> Bytes)
    requires c.Valid() && J.Configured(c)
    ensures var calls := Sends(514) + [Hear("a", Request(0, 1), true, 0, 0)];
      && OutcomeOf(c, digest, INITIAL, calls, 514)
         == Done([], [Transmission("a", Fragment(FRAME, c.fragmentBody, 0, 1), Retransmit)])
      && J.ResultOf(c, digest, calls, Walks(515), 514) == J.QUIET
  {
    hide Chunks, Fragment, TrimFront, Select, Run, J.Run, Apply, J.Apply, Request;
    var calls := Sends(514) + [Hear("a", Request(0, 1), true, 0, 0)];
    assert calls[..514] == Sends(514) && Walks(515)[..514] == Walks(514);
    FrameFits(c);
    var s, t := Overfilled(c, digest);
    AnsweredLast(c, digest, s, t);
  }

  /** Both sides after the 513th frame: the same entries, in another order. */
  lemma Refilled(c: Config, digest: Bytes -> Bytes) returns (moved: OMap<CacheKey, Cached>)
    requires c.Valid() && J.Configured(c)
    ensures Run(c, digest, INITIAL, Sends(513)) == INITIAL.(nextIndex := 1, txCache := moved)
    ensures J.Run(c, digest, Sends(513), Walks(513)) == J.FRESH.(nextIndex := 1, txCache := Fill(c, 512))
    ensures moved.Valid() && moved.at == Fill(c, 512).at && |moved.order| == 512 && moved.order[0] == KeyAt(1)
  {
    hide Encode, J.Encode, Chunks, AllFragments, Select, TrimFront, Fill, Run, J.Run, Sends, Walks;
    Filled(c, digest, 512);
    FillFacts(c, 512);
    var m := Fill(c, 512);
    var key, entry := KeyAt(0), Entry(c, 0);
    assert key == CacheKey(0, "a") == KeyAt(512) && Entry(c, 512) == entry;
    assert key in m.at && m.at[key] == entry;
    assert m.at[key := entry] == m.at;
    SendStep(c, 0, m, m, "a");
    T.StoreAndEvict(m, key, entry);
    moved := TrimFront(m.Put(key, entry).MoveToEnd(key), MAX_CACHED);
    MovedFront(m, key);
    assert TrimFront(m.Put(key, entry), MAX_CACHED) == m;
    OneMoreSend(c, digest, 512);
  }

  /** Moving the front entry to the end brings the next one to the front. */
  lemma MovedFront(m: OMap<CacheKey, Cached>, key: CacheKey)
    requires m.Valid() && |m.order| > 1 && m.order[0] == key
    ensures m.MoveToEnd(key).order == m.order[1..] + [key]
  {
    hide Select, Elements;
    var rest, keep := m.order[1..], Elements(m.order) - {key};
    SelectAppend([key], rest, keep);
    SelectNone(key, keep);
    RestKept(m.order);
    SelectAll(rest, keep);
    assert m.order == [key] + rest && [] + rest == rest;
  }

  lemma RestKept(order: seq<CacheKey>)
    requires Distinct(order) && order != []
    ensures Elements(order[1..]) <= Elements(order) - {order[0]}
  {
    forall x | x in order[1..] ensures x in order && x != order[0] {
      var i :| 0 <= i < |order| - 1 && order[i + 1] == x;
    }
  }

  lemma OneMoreSend(c: Config, digest: Bytes -> Bytes, n: nat)
    requires c.Valid() && J.Configured(c)
    ensures Run(c, digest, INITIAL, Sends(n + 1))
         == Encode(c, Run(c, digest, INITIAL, Sends(n)), FRAME, Destination(n), 0, 0).state
    ensures J.Run(c, digest, Sends(n + 1), Walks(n + 1))
         == J.Encode(c, J.Run(c, digest, Sends(n), Walks(n)), FRAME, Destination(n), 0, 0).twin
  {
    hide Encode, J.Encode;
    SendsSnoc(n);
  }

  /** Both sides after the 514th frame: they have evicted different entries. */
  lemma Overfilled(c: Config, digest: Bytes -> Bytes)
    returns (s: OMap<CacheKey, Cached>, t: OMap<CacheKey, Cached>)
    requires c.Valid() && J.Configured(c)
    ensures Run(c, digest, INITIAL, Sends(514)) == INITIAL.(nextIndex := 2, txCache := s)
    ensures J.Run(c, digest, Sends(514), Walks(514)) == J.FRESH.(nextIndex := 2, txCache := t)
    ensures s.Valid() && forall k :: k in s.at ==> s.at[k].createdAt == 0
    ensures t.Valid() && forall k :: k in t.at ==> t.at[k].createdAt == 0
    ensures CacheKey(0, "a") in s.at && s.at[CacheKey(0, "a")] == Entry(c, 0)
    ensures CacheKey(0, "a") !in t.at && CacheKey(0, BROADCAST) !in t.at
  {
    hide Encode, J.Encode, Chunks, AllFragments, Select, TrimFront, Fill, Run, J.Run, Sends, Walks;
    var moved := Refilled(c, digest);
    FillFacts(c, 512);
    var m := Fill(c, 512);
    var key := CacheKey(1, "c");
    var entry := Cached("c", 0, AllFragments(FRAME, c.fragmentBody, 1));
    SendStep(c, 1, moved, m, "c");
    s := TrimFront(moved.Put(key, entry).MoveToEnd(key), MAX_CACHED);
    t := TrimFront(m.Put(key, entry), MAX_CACHED);
    assert KeyAt(0) == CacheKey(0, "a") && KeyAt(1) == CacheKey(1, "a");
    StoredOver(moved, key, entry);
    StoredOver(m, key, entry);
    OneMoreSend(c, digest, 513);
  }

  /** Storing one entry too many keeps all but the front one, on either side. */
  lemma StoredOver(m: OMap<CacheKey, Cached>, key: CacheKey, entry: Cached)
    requires m.Valid() && |m.order| == 512 && key !in m.at && entry.createdAt == 0
    requires forall k :: k in m.at ==> m.at[k].createdAt == 0
    ensures var s := TrimFront(m.Put(key, entry).MoveToEnd(key), MAX_CACHED);
      && s.Valid() && m.order[0] !in s.at
      && (forall k :: k in s.at ==> s.at[k].createdAt == 0 && (k in m.at || k == key))
      && forall k :: k in m.at && k != m.order[0] ==> k in s.at && s.at[k] == m.at[k]
    ensures var t := TrimFront(m.Put(key, entry), MAX_CACHED);
      && t.Valid() && m.order[0] !in t.at
      && (forall k :: k in t.at ==> t.at[k].createdAt == 0 && (k in m.at || k == key))
  {
    hide Select, TrimFront;
    assert m.order[0] in Elements(m.order);
    T.StoreAndEvict(m, key, entry);
  }

  /** The request, on the two caches. */
  lemma AnsweredLast(
    c: Config, digest: Bytes -> Bytes, s: OMap<CacheKey, Cached>, t: OMap<CacheKey, Cached>)
    requires c.Valid() && J.Configured(c)
    requires s.Valid() && forall k :: k in s.at ==> s.at[k].createdAt == 0
    requires t.Valid() && forall k :: k in t.at ==> t.at[k].createdAt == 0
    requires CacheKey(0, "a") in s.at && s.at[CacheKey(0, "a")] == Entry(c, 0)
    requires CacheKey(0, "a") !in t.at && CacheKey(0, BROADCAST) !in t.at
    requires |Chunks(FRAME, c.fragmentBody)| == 1
    ensures var request := Hear("a", Request(0, 1), true, 0, 0);
      && Apply(c, digest, INITIAL.(nextIndex := 2, txCache := s), request).outcome
         == Done([], [Transmission("a", Fragment(FRAME, c.fragmentBody, 0, 1), Retransmit)])
      && J.Apply(c, digest, J.FRESH.(nextIndex := 2, txCache := t), request, []).result == J.QUIET
  {
    hide Chunks, Fragment, Sweep, J.Cleanup;
    NothingOld(c, 2, s);
    NothingOld(c, 2, t);
    var payload := Request(0, 1);
    assert payload[..3] == REQUEST_PREFIX && payload[3..] == [0, 1];
    assert payload[3] == 0 && payload[4] == 1;
  }
}
