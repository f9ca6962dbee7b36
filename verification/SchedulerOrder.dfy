/** The order in which fragments leave the scheduler, over whole runs. */
module SchedulerOrder {
  import opened Fragments
  import opened SchedulerSpec
  import opened SchedulerAccounting

  /** The frames admitted to a lane, in order. */
  function AcceptedFrames(l: Limits, steps: seq<Step>, lane: Lane): seq<seq<Transmission>> {
    if steps == [] then []
    else
      var before, step := steps[..|steps| - 1], steps[|steps| - 1];
      AcceptedFrames(l, before, lane) +
      if step.DoAdmit? && Judge(l, Run(l, before), step.request) == Accepted
         && LaneOf(step.request.ToBatch(l)) == lane
      then [step.request.transmissions] else []
  }

  predicate Serves(s: State, step: Step, lane: Lane) {
    && (step.DoSent? || step.DoFailed?)
    && s.inFlight.Some? && s.inFlight.value.transmissions != [] && LaneOf(s.inFlight.value) == lane
  }

  /** The fragments of a lane that were sent successfully, in order. */
  function Log(l: Limits, steps: seq<Step>, lane: Lane): seq<Transmission> {
    if steps == [] then []
    else
      var before, step := steps[..|steps| - 1], steps[|steps| - 1];
      Log(l, before, lane) +
      if step.DoSent? && Serves(Run(l, before), step, lane)
      then [Run(l, before).inFlight.value.transmissions[0]] else []
  }

  /** What became of an admitted frame: how many sender calls succeeded and failed. */
  datatype Record = Record(fragments: seq<Transmission>, sent: nat, failures: nat) {
    predicate Complete() { sent == |fragments| && failures < MAX_FAILURES }
    predicate Abandoned() { sent < |fragments| && failures == MAX_FAILURES }
  }

  /** One record per admitted frame; every sender call is charged to the oldest unfinished one. */
  function Records(l: Limits, steps: seq<Step>, lane: Lane): seq<Record> {
    if steps == [] then []
    else
      var before, step := steps[..|steps| - 1], steps[|steps| - 1];
      Charge(l, Run(l, before), step, lane, Records(l, before, lane))
  }

  function Charge(l: Limits, s: State, step: Step, lane: Lane, rs: seq<Record>): seq<Record> {
    var k := |rs| - |Pending(s, lane)|;
    if step.DoAdmit? && Judge(l, s, step.request) == Accepted && LaneOf(step.request.ToBatch(l)) == lane then
      rs + [Record(step.request.transmissions, 0, 0)]
    else if Serves(s, step, lane) && 0 <= k < |rs| then
      rs[k := if step.DoSent? then rs[k].(sent := rs[k].sent + 1) else rs[k].(failures := rs[k].failures + 1)]
    else rs
  }

  function Sends(rs: seq<Record>): seq<Transmission>
    requires forall i :: 0 <= i < |rs| ==> rs[i].sent <= |rs[i].fragments|
  {
    if rs == [] then []
    else
      var last := rs[|rs| - 1];
      Sends(rs[..|rs| - 1]) + last.fragments[..last.sent]
  }

  /** The records explain what is pending. */
  ghost predicate Explains(rs: seq<Record>, q: seq<Batch>) {
    && |q| <= |rs|
    && (forall i :: 0 <= i < |rs| ==> rs[i].sent <= |rs[i].fragments|)
    && (forall i :: 0 <= i < |rs| - |q| ==> rs[i].Complete() || rs[i].Abandoned())
    && (forall j :: 0 <= j < |q| ==> Tells(rs[|rs| - |q| + j], q[j]))
    && (forall i :: |rs| - |q| < i < |rs| ==> rs[i].sent == 0)
  }

  ghost predicate Tells(r: Record, b: Batch) {
    && r.sent < |r.fragments|
    && b.transmissions == r.fragments[r.sent..]
    && b.failures == r.failures < MAX_FAILURES
  }

  lemma {:induction false} SendsTail(rs: seq<Record>, k: nat)
    requires forall i :: 0 <= i < |rs| ==> rs[i].sent <= |rs[i].fragments|
    requires k <= |rs| && forall i :: k <= i < |rs| ==> rs[i].sent == 0
    ensures Sends(rs) == Sends(rs[..k])
  {
    if k < |rs| {
      var n := |rs| - 1;
      SendsTail(rs[..n], k);
      assert rs[..n][..k] == rs[..k];
    } else {
      assert rs[..k] == rs;
    }
  }

  lemma SendsLast(rs: seq<Record>, k: nat)
    requires forall i :: 0 <= i < |rs| ==> rs[i].sent <= |rs[i].fragments|
    requires k < |rs|
    ensures Sends(rs[..k + 1]) == Sends(rs[..k]) + rs[k].fragments[..rs[k].sent]
  {
    assert rs[..k + 1][..k] == rs[..k];
  }

  /** One more fragment of record `k`, when nothing after `k` was sent. */
  lemma SendsMore(rs: seq<Record>, k: nat)
    requires forall i :: 0 <= i < |rs| ==> rs[i].sent <= |rs[i].fragments|
    requires k < |rs| && rs[k].sent < |rs[k].fragments|
    requires forall i :: k < i < |rs| ==> rs[i].sent == 0
    ensures Sends(rs[k := rs[k].(sent := rs[k].sent + 1)]) == Sends(rs) + [rs[k].fragments[rs[k].sent]]
  {
    hide Sends;
    var r := rs[k];
    var rs' := rs[k := r.(sent := r.sent + 1)];
    SendsTail(rs, k + 1);
    SendsTail(rs', k + 1);
    SendsLast(rs, k);
    SendsLast(rs', k);
    assert rs'[..k] == rs[..k];
    assert r.fragments[..r.sent + 1] == r.fragments[..r.sent] + [r.fragments[r.sent]];
  }

  lemma SendsSame(rs: seq<Record>, k: nat, r: Record)
    requires forall i :: 0 <= i < |rs| ==> rs[i].sent <= |rs[i].fragments|
    requires k < |rs| && r.sent == rs[k].sent && r.fragments == rs[k].fragments
    requires forall i :: k < i < |rs| ==> rs[i].sent == 0
    ensures Sends(rs[k := r]) == Sends(rs)
  {
    hide Sends;
    var rs' := rs[k := r];
    SendsTail(rs, k + 1);
    SendsTail(rs', k + 1);
    SendsLast(rs, k);
    SendsLast(rs', k);
    assert rs'[..k] == rs[..k];
  }

  lemma ServedShape(q: seq<Batch>)
    requires q != [] && q[0].transmissions != []
    ensures |q[0].transmissions| == 1 ==> Served(q) == q[1..]
    ensures |q[0].transmissions| > 1 ==>
              && |Served(q)| == |q| && Served(q)[1..] == q[1..]
              && Served(q)[0] == q[0].(started := true, transmissions := q[0].transmissions[1..])
    ensures |q[0].transmissions| > 1 ==> forall j :: 0 < j < |q| ==> Served(q)[j] == q[j]
  {
  }

  lemma RetriedShape(q: seq<Batch>)
    requires q != []
    ensures q[0].failures + 1 >= MAX_FAILURES ==> Retried(q) == q[1..]
    ensures q[0].failures + 1 < MAX_FAILURES ==>
              && |Retried(q)| == |q|
              && Retried(q)[0] == q[0].(failures := q[0].failures + 1)
              && forall j :: 0 < j < |q| ==> Retried(q)[j] == q[j]
  {
  }

  lemma ServedExplains(rs: seq<Record>, q: seq<Batch>)
    requires Explains(rs, q) && q != [] && q[0].transmissions != []
    ensures var k := |rs| - |q|; var rs' := rs[k := rs[k].(sent := rs[k].sent + 1)];
      && Explains(rs', Served(q))
      && Sends(rs') == Sends(rs) + [q[0].transmissions[0]]
  {
    hide Sends, Served;
    var k := |rs| - |q|;
    assert Tells(rs[k], q[0]);
    SendsMore(rs, k);
    ServedShape(q);
    var rs', q' := rs[k := rs[k].(sent := rs[k].sent + 1)], Served(q);
    forall j | 0 <= j < |q'| ensures Tells(rs'[|rs'| - |q'| + j], q'[j]) {
      if |q'| == |q| {
        assert j > 0 ==> Tells(rs[k + j], q[j]);
      } else {
        assert Tells(rs[k + j + 1], q[j + 1]);
      }
    }
  }

  lemma RetriedExplains(rs: seq<Record>, q: seq<Batch>)
    requires Explains(rs, q) && q != []
    ensures var k := |rs| - |q|; var rs' := rs[k := rs[k].(failures := rs[k].failures + 1)];
      && Explains(rs', Retried(q))
      && Sends(rs') == Sends(rs)
  {
    hide Sends, Retried;
    RetriedShape(q);
    var k := |rs| - |q|;
    assert Tells(rs[k], q[0]);
    SendsSame(rs, k, rs[k].(failures := rs[k].failures + 1));
    var rs', q' := rs[k := rs[k].(failures := rs[k].failures + 1)], Retried(q);
    forall j | 0 <= j < |q'| ensures Tells(rs'[|rs'| - |q'| + j], q'[j]) {
      if |q'| == |q| {
        assert j > 0 ==> Tells(rs[k + j], q[j]);
      } else {
        assert Tells(rs[k + j + 1], q[j + 1]);
      }
    }
  }

  lemma AdmittedExplains(rs: seq<Record>, q: seq<Batch>, b: Batch)
    requires Explains(rs, q) && b.transmissions != [] && b.failures == 0
    ensures var rs' := rs + [Record(b.transmissions, 0, 0)];
      Explains(rs', q + [b]) && Sends(rs') == Sends(rs)
  {
    var r := Record(b.transmissions, 0, 0);
    SendsTail(rs + [r], |rs|);
    hide Sends;
    var rs', q' := rs + [r], q + [b];
    assert rs'[..|rs|] == rs;
    assert r.fragments[0..] == r.fragments;
    forall j | 0 <= j < |q'| ensures Tells(rs'[|rs'| - |q'| + j], q'[j]) {
      assert j < |q| ==> Tells(rs[|rs| - |q| + j], q[j]);
    }
  }

  lemma StepExplains(l: Limits, s: State, step: Step, lane: Lane, rs: seq<Record>)
    requires Sane(s) && Explains(rs, Pending(s, lane))
    ensures var rs' := Charge(l, s, step, lane, rs);
      && Explains(rs', Pending(Apply(l, s, step), lane))
      && Sends(rs') == Sends(rs) +
           (if step.DoSent? && Serves(s, step, lane) then [s.inFlight.value.transmissions[0]] else [])
  {
    hide Explains, Apply, Judge, Sane, Pending, Sends;
    StepLanes(l, s, step, lane);
    ExplainsSends(rs, Pending(s, lane));
    assert Sends(rs) + [] == Sends(rs);
    var q := Pending(s, lane);
    if step.DoAdmit? {
      if Judge(l, s, step.request) == Accepted && LaneOf(step.request.ToBatch(l)) == lane {
        AcceptedNonEmpty(l, s, step.request);
        AdmittedExplains(rs, q, step.request.ToBatch(l));
      }
    } else if s.inFlight.Some? && !step.DoTake? {
      InFlightHead(s);
      if LaneOf(s.inFlight.value) == lane {
        ExplainsLength(rs, q);
        if step.DoSent? {
          ServedExplains(rs, q);
        } else {
          RetriedExplains(rs, q);
        }
      }
    }
  }

  lemma ExplainsSends(rs: seq<Record>, q: seq<Batch>)
    requires Explains(rs, q)
    ensures forall i :: 0 <= i < |rs| ==> rs[i].sent <= |rs[i].fragments|
  {
  }

  lemma ExplainsLength(rs: seq<Record>, q: seq<Batch>)
    requires Explains(rs, q)
    ensures |q| <= |rs|
  {
  }

  lemma RunSane(l: Limits, steps: seq<Step>)
    requires l.Valid()
    ensures Sane(Run(l, steps))
  {
    hide Sane, Run, Accounts, Bounded;
    RunGood(l, steps);
  }

  /** The histories one step further. */
  lemma Snoc(l: Limits, steps: seq<Step>, lane: Lane)
    requires steps != []
    ensures var before, step := steps[..|steps| - 1], steps[|steps| - 1]; var s := Run(l, before);
      && Run(l, steps) == Apply(l, s, step)
      && Records(l, steps, lane) == Charge(l, s, step, lane, Records(l, before, lane))
      && Log(l, steps, lane) == Log(l, before, lane) +
           (if step.DoSent? && Serves(s, step, lane) then [s.inFlight.value.transmissions[0]] else [])
  {
    hide Apply, Charge, Judge;
  }

  lemma {:induction false} RunExplains(l: Limits, steps: seq<Step>, lane: Lane)
    requires l.Valid()
    ensures Explains(Records(l, steps, lane), Pending(Run(l, steps), lane))
    ensures Log(l, steps, lane) == Sends(Records(l, steps, lane))
  {
    if steps == [] {
    } else {
      hide Apply, Explains, Sane, Pending, Charge, Serves, Run, Records, Log, Sends;
      var before, step := steps[..|steps| - 1], steps[|steps| - 1];
      RunExplains(l, before, lane);
      RunSane(l, before);
      Snoc(l, steps, lane);
      StepExplains(l, Run(l, before), step, lane, Records(l, before, lane));
      ExplainsSends(Records(l, steps, lane), Pending(Run(l, steps), lane));
    }
  }

  lemma ChargeFrames(l: Limits, s: State, step: Step, lane: Lane, rs: seq<Record>, frames: seq<seq<Transmission>>)
    requires |rs| == |frames| && forall i :: 0 <= i < |rs| ==> rs[i].fragments == frames[i]
    ensures var rs' := Charge(l, s, step, lane, rs);
            var frames' := frames +
              (if step.DoAdmit? && Judge(l, s, step.request) == Accepted && LaneOf(step.request.ToBatch(l)) == lane
               then [step.request.transmissions] else []);
      |rs'| == |frames'| && forall i :: 0 <= i < |rs'| ==> rs'[i].fragments == frames'[i]
  {
    hide Judge, Pending, Serves, LaneOf;
  }

  lemma FramesSnoc(l: Limits, steps: seq<Step>, lane: Lane)
    requires steps != []
    ensures var before, step := steps[..|steps| - 1], steps[|steps| - 1]; var s := Run(l, before);
      AcceptedFrames(l, steps, lane) == AcceptedFrames(l, before, lane) +
        (if step.DoAdmit? && Judge(l, s, step.request) == Accepted && LaneOf(step.request.ToBatch(l)) == lane
         then [step.request.transmissions] else [])
  {
    hide Judge, LaneOf, Run;
  }

  lemma {:induction false} RecordsFrames(l: Limits, steps: seq<Step>, lane: Lane)
    ensures var rs, frames := Records(l, steps, lane), AcceptedFrames(l, steps, lane);
      |rs| == |frames| && forall i :: 0 <= i < |rs| ==> rs[i].fragments == frames[i]
  {
    if steps != [] {
      hide Run, Judge, Pending, Records, AcceptedFrames, Charge;
      var before, step := steps[..|steps| - 1], steps[|steps| - 1];
      RecordsFrames(l, before, lane);
      Snoc(l, steps, lane);
      FramesSnoc(l, steps, lane);
      ChargeFrames(l, Run(l, before), step, lane, Records(l, before, lane), AcceptedFrames(l, before, lane));
    }
  }

  /**
   * Causal order: per lane, the log of successful sends is the concatenation, in admission
   * order, of a prefix of every admitted frame's fragments - the whole frame except for
   * abandoned frames, the frame being sent, and the frames still waiting behind it, of which
   * nothing was sent. No frame costs more than two sender calls beyond its fragments, and one
   * is abandoned exactly at its third failure.
   */
  lemma CausalOrder(l: Limits, steps: seq<Step>, lane: Lane)
    requires l.Valid()
    ensures var rs, frames := Records(l, steps, lane), AcceptedFrames(l, steps, lane);
            var waiting := |Pending(Run(l, steps), lane)|;
      && |rs| == |frames| && waiting <= |rs|
      && (forall i :: 0 <= i < |rs| ==> rs[i].fragments == frames[i] && rs[i].sent <= |frames[i]|)
      && Log(l, steps, lane) == Sends(rs)
      && (forall i :: 0 <= i < |rs| - waiting ==> rs[i].Complete() || rs[i].Abandoned())
      && (forall i :: |rs| - waiting < i < |rs| ==> rs[i].sent == 0)
      && (forall i :: 0 <= i < |rs| ==> rs[i].sent + rs[i].failures <= |frames[i]| + 2)
  {
    hide Run, Records, AcceptedFrames, Log, Sends, Pending;
    RunExplains(l, steps, lane);
    RecordsFrames(l, steps, lane);
    var rs, q := Records(l, steps, lane), Pending(Run(l, steps), lane);
    forall i | 0 <= i < |rs| ensures rs[i].sent + rs[i].failures <= |rs[i].fragments| + 2 {
      if i >= |rs| - |q| {
        assert Tells(rs[|rs| - |q| + (i - (|rs| - |q|))], q[i - (|rs| - |q|)]);
      }
    }
  }
}
