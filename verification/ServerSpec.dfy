/**
 * Delivery to the loopback client: `ReticulumTcpServer.java`. Every step runs under the write
 * lock. Sockets and their output streams are numbers; each write may fail.
 */
module ServerSpec {
  import opened Common
  import opened SpoolSpec

  datatype State = State(client: Option<nat>, output: Option<nat>, spool: Spool, deliveredDirect: nat)

  const INITIAL := State(None, None, EMPTY, 0)

  /** One turn of the replay loop: clock readings and whether the write succeeds. */
  datatype Write = Write(peekAt: int, ok: bool, removeAt: int)

  datatype Flushed = Flushed(state: State, written: seq<Bytes>, removed: seq<Bytes>)

  function Disconnected(s: State): State {
    s.(client := None, output := None)
  }

  lemma {:induction false} CleanupShrinks(l: Limits, s: Spool, now: int)
    ensures |Cleanup(l, s, now).entries| <= |s.entries|
    decreases |s.entries|
  {
    if s.entries != [] && s.entries[0].createdAt < now - l.ttl {
      CleanupShrinks(l, DropFirst(s).(expired := s.expired + 1), now);
    }
  }

  lemma RemoveShrinks(l: Limits, s: Spool, now: int)
    requires s.entries != []
    ensures |RemoveReplayed(l, s, now).entries| < |s.entries|
  {
    CleanupShrinks(l, s, now);
  }

  /** Replay from turn `i` on: what is written, and what leaves the spool as replayed. */
  function Flush(l: Limits, s: State, turns: nat -> Write, i: nat): Flushed
    decreases |s.spool.entries|
  {
    CleanupShrinks(l, s.spool, turns(i).peekAt);
    var peeked := Cleanup(l, s.spool, turns(i).peekAt);
    if peeked.entries == [] then Flushed(s.(spool := peeked), [], [])
    else if !turns(i).ok then Flushed(Disconnected(s.(spool := peeked)), [], [])
    else
      RemoveShrinks(l, peeked, turns(i).removeAt);
      var rest := Flush(l, s.(spool := RemoveReplayed(l, peeked, turns(i).removeAt)), turns, i + 1);
      Flushed(rest.state, [peeked.entries[0].frame] + rest.written,
              Removed(l, peeked, turns(i).removeAt) + rest.removed)
  }

  datatype Delivery = Delivered | Spooled | DuplicateFrame | RejectedFrame | RaisedError

  datatype Reply = Reply(state: State, delivered: seq<Bytes>, delivery: Delivery)

  function SpoolFrame(
    l: Limits, digest: Bytes -> Bytes, s: State, frame: Bytes, swept: int, now: int): Reply
  {
    var offered := Offer(l, digest, s.spool, frame, swept, now);
    Reply(s.(spool := offered.spool), [],
          match offered.verdict
          case Queued => Spooled
          case Duplicate => DuplicateFrame
          case Rejected => RejectedFrame
          case Raised => RaisedError)
  }

  /** `streamOk` is false when the new socket has no output stream: the old one stays in use. */
  datatype Step =
    | Connect(socket: nat, streamOk: bool, turns: nat -> Write)
    | Disconnect(socket: nat)
    | Deliver(frame: Bytes, ok: bool, swept: int, now: int)

  function Apply(l: Limits, digest: Bytes -> Bytes, s: State, step: Step): Reply {
    match step
    case Connect(socket, streamOk, turns) =>
      var s1 := s.(client := Some(socket));
      if !streamOk then Reply(s1, [], RaisedError)
      else
        var flushed := Flush(l, s1.(output := Some(socket)), turns, 0);
        Reply(flushed.state, flushed.written, Delivered)
    case Disconnect(socket) =>
      Reply(if s.client == Some(socket) then Disconnected(s) else s, [], Delivered)
    case Deliver(frame, ok, swept, now) =>
      if s.output.None? then SpoolFrame(l, digest, s, frame, swept, now)
      else if ok then Reply(s.(deliveredDirect := s.deliveredDirect + 1), [frame], Delivered)
      else SpoolFrame(l, digest, Disconnected(s), frame, swept, now)
  }

  function Run(l: Limits, digest: Bytes -> Bytes, steps: seq<Step>): State {
    if steps == [] then INITIAL
    else Apply(l, digest, Run(l, digest, steps[..|steps| - 1]), steps[|steps| - 1]).state
  }

  /** The frames handed to the server, in order. */
  function Arrivals(steps: seq<Step>): seq<Bytes> {
    if steps == [] then []
    else
      var last := steps[|steps| - 1];
      Arrivals(steps[..|steps| - 1]) + (if last.Deliver? then [last.frame] else [])
  }

  /** The frames written in full to some client, in order. */
  function Deliveries(l: Limits, digest: Bytes -> Bytes, steps: seq<Step>): seq<Bytes> {
    if steps == [] then []
    else
      var before := steps[..|steps| - 1];
      Deliveries(l, digest, before) + Apply(l, digest, Run(l, digest, before), steps[|steps| - 1]).delivered
  }
}
