/**
 * `InboundFrameSpool.java`: frames kept while no client is connected. The digest of a frame is
 * an arbitrary function; two frames with one digest are one frame to the spool.
 */
module SpoolSpec {
  import opened Common
  import opened OrderedMaps

  datatype Limits = Limits(maxFrames: int, maxBytes: int, ttl: int) {
    predicate Valid() {
      maxFrames >= 1 && maxBytes >= 1 && ttl >= 1
    }
  }

  datatype Entry = Entry(frame: Bytes, digest: Bytes, createdAt: int)

  datatype Spool = Spool(
    entries: seq<Entry>, digests: set<Bytes>, bytes: int,
    queued: nat, replayed: nat, duplicates: nat, expired: nat, rejected: nat)

  const EMPTY := Spool([], {}, 0, 0, 0, 0, 0, 0)

  /** The first entry leaves. */
  function DropFirst(s: Spool): Spool
    requires s.entries != []
  {
    s.(entries := s.entries[1..],
       digests := s.digests - {s.entries[0].digest},
       bytes := s.bytes - |s.entries[0].frame|)
  }

  function Cleanup(l: Limits, s: Spool, now: int): Spool
    decreases |s.entries|
  {
    if s.entries != [] && s.entries[0].createdAt < now - l.ttl then
      Cleanup(l, DropFirst(s).(expired := s.expired + 1), now)
    else s
  }

  datatype Verdict = Queued | Duplicate | Rejected | Raised

  datatype Offered = Offered(spool: Spool, verdict: Verdict)

  function Offer(l: Limits, digest: Bytes -> Bytes, s: Spool, frame: Bytes, swept: int, now: int): Offered {
    if frame == [] then Offered(s, Raised)
    else
      var s1 := Cleanup(l, s, swept);
      if digest(frame) in s1.digests then Offered(s1.(duplicates := s1.duplicates + 1), Duplicate)
      else if |s1.entries| >= l.maxFrames || |frame| > l.maxBytes - s1.bytes then
        Offered(s1.(rejected := s1.rejected + 1), Rejected)
      else
        Offered(s1.(entries := s1.entries + [Entry(frame, digest(frame), now)],
                    digests := s1.digests + {digest(frame)},
                    bytes := s1.bytes + |frame|,
                    queued := s1.queued + 1), Queued)
  }

  function First(s: Spool): Option<Bytes> {
    if s.entries == [] then None else Some(s.entries[0].frame)
  }

  /** Clean-up runs again before the first entry is taken to be the one just written. */
  function RemoveReplayed(l: Limits, s: Spool, now: int): Spool {
    var s1 := Cleanup(l, s, now);
    if s1.entries == [] then s1 else DropFirst(s1).(replayed := s1.replayed + 1)
  }

  /** The frame `RemoveReplayed` takes away as replayed. */
  function Removed(l: Limits, s: Spool, now: int): seq<Bytes> {
    var s1 := Cleanup(l, s, now);
    if s1.entries == [] then [] else [s1.entries[0].frame]
  }

  // ---- The books ----

  function TotalBytes(entries: seq<Entry>): nat {
    if entries == [] then 0 else |entries[0].frame| + TotalBytes(entries[1..])
  }

  function Digests(entries: seq<Entry>): seq<Bytes> {
    seq(|entries|, i requires 0 <= i < |entries| => entries[i].digest)
  }

  function Frames(entries: seq<Entry>): seq<Bytes> {
    seq(|entries|, i requires 0 <= i < |entries| => entries[i].frame)
  }

  /** Bytes, digests and counters agree with the entries. */
  ghost predicate Balanced(l: Limits, digest: Bytes -> Bytes, s: Spool) {
    && s.bytes == TotalBytes(s.entries) <= l.maxBytes
    && |s.entries| <= l.maxFrames
    && Distinct(Digests(s.entries)) && Elements(Digests(s.entries)) == s.digests
    && (forall i :: 0 <= i < |s.entries| ==> s.entries[i].digest == digest(s.entries[i].frame))
    && s.queued == s.replayed + s.expired + |s.entries|
  }

  lemma DropBalanced(l: Limits, digest: Bytes -> Bytes, s: Spool)
    requires Balanced(l, digest, s) && s.entries != []
    ensures Balanced(l, digest, DropFirst(s).(replayed := s.replayed + 1))
    ensures Balanced(l, digest, DropFirst(s).(expired := s.expired + 1))
  {
    var t := DropFirst(s);
    var all, rest := Digests(s.entries), Digests(t.entries);
    assert forall i :: 0 <= i < |rest| ==> rest[i] == all[i + 1];
    assert all == [all[0]] + rest;
    assert Elements(all) == {all[0]} + Elements(rest);
    assert all[0] !in Elements(rest);
  }

  lemma {:induction false} CleanupBalanced(l: Limits, digest: Bytes -> Bytes, s: Spool, now: int)
    requires Balanced(l, digest, s)
    ensures var t := Cleanup(l, s, now);
      && Balanced(l, digest, t)
      && |t.entries| <= |s.entries|
      && t.entries == s.entries[|s.entries| - |t.entries|..]
      && (t.entries != [] ==> t.entries[0].createdAt >= now - l.ttl)
      && (forall i :: 0 <= i < |s.entries| - |t.entries| ==> s.entries[i].createdAt < now - l.ttl)
    decreases |s.entries|
  {
    if s.entries != [] && s.entries[0].createdAt < now - l.ttl {
      DropBalanced(l, digest, s);
      CleanupBalanced(l, digest, DropFirst(s).(expired := s.expired + 1), now);
    }
  }

  lemma {:induction false} BytesAppend(entries: seq<Entry>, e: Entry)
    ensures TotalBytes(entries + [e]) == TotalBytes(entries) + |e.frame|
  {
    if entries == [] {
      assert entries + [e] == [e] && [e][1..] == [];
    } else {
      assert (entries + [e])[1..] == entries[1..] + [e];
      BytesAppend(entries[1..], e);
    }
  }

  /** One more frame, unknown so far and with room for it. */
  lemma AppendBalanced(l: Limits, digest: Bytes -> Bytes, s: Spool, frame: Bytes, now: int)
    requires Balanced(l, digest, s)
    requires digest(frame) !in s.digests && |s.entries| < l.maxFrames && s.bytes + |frame| <= l.maxBytes
    ensures Balanced(l, digest, s.(
      entries := s.entries + [Entry(frame, digest(frame), now)], digests := s.digests + {digest(frame)},
      bytes := s.bytes + |frame|, queued := s.queued + 1))
  {
    var e := Entry(frame, digest(frame), now);
    BytesAppend(s.entries, e);
    var before, after := Digests(s.entries), Digests(s.entries + [e]);
    assert after == before + [e.digest];
    assert e.digest !in Elements(before);
  }

  lemma OfferBalanced(l: Limits, digest: Bytes -> Bytes, s: Spool, frame: Bytes, swept: int, now: int)
    requires Balanced(l, digest, s)
    ensures Balanced(l, digest, Offer(l, digest, s, frame, swept, now).spool)
  {
    if frame != [] {
      CleanupBalanced(l, digest, s, swept);
      var s1 := Cleanup(l, s, swept);
      if Offer(l, digest, s, frame, swept, now).verdict == Queued {
        AppendBalanced(l, digest, s1, frame, now);
      }
    }
  }

  lemma RemoveBalanced(l: Limits, digest: Bytes -> Bytes, s: Spool, now: int)
    requires Balanced(l, digest, s)
    ensures Balanced(l, digest, RemoveReplayed(l, s, now))
  {
    hide Balanced;
    CleanupBalanced(l, digest, s, now);
    if Cleanup(l, s, now).entries != [] {
      DropBalanced(l, digest, Cleanup(l, s, now));
    }
  }

  /**
   * "Replayed" names the frame that was peeked and written if and only if that frame has not
   * expired by the time it is removed. Otherwise it is booked as expired, and the frame behind
   * it, if any, leaves as replayed without having been written.
   */
  lemma ReplayedIsWrittenIff(l: Limits, digest: Bytes -> Bytes, s: Spool, now: int)
    requires Balanced(l, digest, s) && s.entries != []
    ensures var t := RemoveReplayed(l, s, now);
      t.entries == s.entries[1..] && t.replayed == s.replayed + 1 && t.expired == s.expired
      <==> s.entries[0].createdAt >= now - l.ttl
    ensures Removed(l, s, now) == [s.entries[0].frame] <==> s.entries[0].createdAt >= now - l.ttl
  {
    hide Balanced;
    if s.entries[0].createdAt < now - l.ttl {
      var s1 := DropFirst(s).(expired := s.expired + 1);
      DropBalanced(l, digest, s);
      ExpiredGrows(l, s1, now);
      CleanupBalanced(l, digest, s1, now);
      if Removed(l, s, now) != [] {
        var t := Cleanup(l, s1, now);
        assert t.entries[0] == s.entries[|s.entries| - |t.entries|];
        DifferentFrames(l, digest, s, |s.entries| - |t.entries|);
      }
    }
  }

  lemma {:induction false} ExpiredGrows(l: Limits, s: Spool, now: int)
    ensures Cleanup(l, s, now).expired >= s.expired
    decreases |s.entries|
  {
    if s.entries != [] && s.entries[0].createdAt < now - l.ttl {
      ExpiredGrows(l, DropFirst(s).(expired := s.expired + 1), now);
    }
  }

  lemma DifferentFrames(l: Limits, digest: Bytes -> Bytes, s: Spool, i: nat)
    requires Balanced(l, digest, s) && 0 < i < |s.entries|
    ensures s.entries[i].frame != s.entries[0].frame
  {
    assert Digests(s.entries)[i] != Digests(s.entries)[0];
  }
}
