/** The server object of `ReticulumTcpServer.java` against `ServerSpec`. */
module ReticulumTcpServers {
  import opened Common
  import opened InboundFrameSpools
  import Spec = ServerSpec
  import SpoolSpec

  class ReticulumTcpServer {
    const spool: InboundFrameSpool
    var client: Option<nat>
    var output: Option<nat>
    var deliveredDirect: nat

    function View(): Spec.State
      reads this, spool
    {
      Spec.State(client, output, spool.View(), deliveredDirect)
    }

    constructor (limits: SpoolSpec.Limits, digest: Bytes -> Bytes)
      requires limits.Valid()
      ensures fresh(spool) && spool.limits == limits && spool.digest == digest
      ensures View() == Spec.INITIAL
    {
      spool := new InboundFrameSpool(limits, digest);
      client, output, deliveredDirect := None, None, 0;
    }

    method DisconnectBrokenClient()
      modifies this
      ensures View() == Spec.Disconnected(old(View()))
    {
      client, output := None, None;
    }

    /** `turns` says how each turn of the loop goes; `written` collects what was written. */
    method FlushSpool(turns: nat -> Spec.Write) returns (written: seq<Bytes>)
      modifies this, spool
      ensures View() == Spec.Flush(spool.limits, old(View()), turns, 0).state
      ensures written == Spec.Flush(spool.limits, old(View()), turns, 0).written
    {
      ghost var goal := Spec.Flush(spool.limits, View(), turns, 0);
      written := [];
      var i := 0;
      var frame := spool.Peek(turns(i).peekAt);
      ghost var start := old(View());
      while frame.Some?
        invariant frame == SpoolSpec.First(spool.View())
        invariant View() == start.(spool := spool.View())
        invariant spool.View() == SpoolSpec.Cleanup(spool.limits, start.spool, turns(i).peekAt)
        invariant Spec.Flush(spool.limits, start, turns, i).state == goal.state
        invariant written + Spec.Flush(spool.limits, start, turns, i).written == goal.written
        decreases |spool.entries|
      {
        if !turns(i).ok {
          DisconnectBrokenClient();
          return;
        }
        written := written + [frame.value];
        ghost var before := spool.View();
        Spec.RemoveShrinks(spool.limits, before, turns(i).removeAt);
        spool.RemoveReplayed(turns(i).removeAt);
        start := View();
        i := i + 1;
        Spec.CleanupShrinks(spool.limits, start.spool, turns(i).peekAt);
        frame := spool.Peek(turns(i).peekAt);
      }
    }

    method ReplaceClient(accepted: nat, streamOk: bool, turns: nat -> Spec.Write) returns (written: seq<Bytes>)
      modifies this, spool
      ensures var reply := Spec.Apply(spool.limits, spool.digest, old(View()), Spec.Connect(accepted, streamOk, turns));
        View() == reply.state && written == reply.delivered
    {
      client := Some(accepted);
      if !streamOk {
        return [];
      }
      output := Some(accepted);
      written := FlushSpool(turns);
    }

    /** The end of a reader thread. */
    method ReaderEnded(connected: nat)
      modifies this
      ensures View() == Spec.Apply(spool.limits, spool.digest, old(View()), Spec.Disconnect(connected)).state
    {
      if client == Some(connected) {
        client, output := None, None;
      }
    }

    method Spool(frame: Bytes, swept: int, now: int) returns (delivery: Spec.Delivery)
      modifies spool
      ensures var reply := Spec.SpoolFrame(spool.limits, spool.digest, old(View()), frame, swept, now);
        View() == reply.state && delivery == reply.delivery
    {
      var verdict := spool.Offer(frame, swept, now);
      match verdict {
        case Queued => return Spec.Spooled;
        case Duplicate => return Spec.DuplicateFrame;
        case Rejected => return Spec.RejectedFrame;
        case Raised => return Spec.RaisedError;
      }
    }

    /** `written` is what went to the client in full. */
    method SendFrame(frame: Bytes, ok: bool, swept: int, now: int)
      returns (delivery: Spec.Delivery, written: seq<Bytes>)
      modifies this, spool
      ensures var reply := Spec.Apply(spool.limits, spool.digest, old(View()), Spec.Deliver(frame, ok, swept, now));
        View() == reply.state && delivery == reply.delivery && written == reply.delivered
    {
      written := [];
      if output.None? {
        delivery := Spool(frame, swept, now);
        return;
      }
      if ok {
        written := [frame];
        deliveredDirect := deliveredDirect + 1;
        return Spec.Delivered, written;
      }
      DisconnectBrokenClient();
      delivery := Spool(frame, swept, now);
    }
  }
}
