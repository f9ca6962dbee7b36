/** The spool object of `InboundFrameSpool.java` against `SpoolSpec`. */
module InboundFrameSpools {
  import opened Common
  import Spec = SpoolSpec

  class InboundFrameSpool {
    const limits: Spec.Limits
    const digest: Bytes -> Bytes
    var entries: seq<Spec.Entry>
    var digests: set<Bytes>
    var bytes: int
    var queuedFrames: nat
    var replayedFrames: nat
    var duplicateFrames: nat
    var expiredFrames: nat
    var rejectedFrames: nat

    function View(): Spec.Spool
      reads this
    {
      Spec.Spool(entries, digests, bytes, queuedFrames, replayedFrames, duplicateFrames, expiredFrames, rejectedFrames)
    }

    constructor (limits: Spec.Limits, digest: Bytes -> Bytes)
      requires limits.Valid()
      ensures this.limits == limits && this.digest == digest && View() == Spec.EMPTY
    {
      this.limits, this.digest := limits, digest;
      entries, digests, bytes := [], {}, 0;
      queuedFrames, replayedFrames, duplicateFrames, expiredFrames, rejectedFrames := 0, 0, 0, 0, 0;
    }

    method CleanupExpired(now: int)
      modifies this
      ensures View() == Spec.Cleanup(limits, old(View()), now)
    {
      var cutoff := now - limits.ttl;
      while entries != [] && entries[0].createdAt < cutoff
        invariant Spec.Cleanup(limits, View(), now) == Spec.Cleanup(limits, old(View()), now)
        decreases |entries|
      {
        RemoveFirst();
        expiredFrames := expiredFrames + 1;
      }
    }

    method RemoveFirst()
      requires entries != []
      modifies this`entries, this`digests, this`bytes
      ensures View() == Spec.DropFirst(old(View()))
    {
      var entry := entries[0];
      entries := entries[1..];
      digests := digests - {entry.digest};
      bytes := bytes - |entry.frame|;
    }

    method Offer(frame: Bytes, swept: int, now: int) returns (verdict: Spec.Verdict)
      modifies this
      ensures Spec.Offered(View(), verdict) == Spec.Offer(limits, digest, old(View()), frame, swept, now)
    {
      if frame == [] {
        return Spec.Raised;
      }
      CleanupExpired(swept);
      var d := digest(frame);
      if d in digests {
        duplicateFrames := duplicateFrames + 1;
        return Spec.Duplicate;
      }
      if |entries| >= limits.maxFrames || |frame| > limits.maxBytes - bytes {
        rejectedFrames := rejectedFrames + 1;
        return Spec.Rejected;
      }
      entries := entries + [Spec.Entry(frame, d, now)];
      digests := digests + {d};
      bytes := bytes + |frame|;
      queuedFrames := queuedFrames + 1;
      return Spec.Queued;
    }

    method Peek(now: int) returns (frame: Option<Bytes>)
      modifies this
      ensures View() == Spec.Cleanup(limits, old(View()), now)
      ensures frame == Spec.First(View())
    {
      CleanupExpired(now);
      return if entries == [] then None else Some(entries[0].frame);
    }

    method RemoveReplayed(now: int)
      modifies this
      ensures View() == Spec.RemoveReplayed(limits, old(View()), now)
    {
      CleanupExpired(now);
      if entries == [] {
        return;
      }
      RemoveFirst();
      replayedFrames := replayedFrames + 1;
    }
  }
}
