/** A receiver and the senders it hears talking broken frames back together. */
module RepairConvergence {
  import opened Common
  import opened OrderedMaps
  import opened Fragments
  import opened FragmentSpec
  import opened FragmentFacts
  import opened Completions
  import opened Reassembly
  import opened PollChoice
  import opened RepairDialogue
  import Sending

  /** A sender: its configuration and its state. */
  datatype Node = Node(config: Config, state: State)

  /** Clock readings of one exchange: `ask` is on the asked sender's clock, the others on the receiver's. */
  datatype Beat = Beat(pollSwept: int, poll: int, askSwept: int, ask: int, answerSwept: int, answer: int)

  /** The senders by name; `pending` is a request already on its way to one of them. */
  datatype Talk = Talk(
    senders: map<string, Node>, receiver: State, pending: Option<Transmission>, delivered: seq<Delivered>, asked: nat)

  ghost predicate Sound(senders: map<string, Node>) {
    forall n :: n in senders ==> senders[n].config.Valid()
  }

  /** Unless a request is pending the receiver polls for one. */
  function Polled(cr: Config, digest: Bytes -> Bytes, t: Talk, b: Beat): Reply
    requires cr.Valid()
  {
    if t.pending.Some? then Reply(t.receiver, NOTHING)
    else Apply(cr, digest, t.receiver, PollRepairs(1, true, b.pollSwept, b.poll))
  }

  function RequestOf(cr: Config, digest: Bytes -> Bytes, t: Talk, b: Beat): Option<Transmission>
    requires cr.Valid()
  {
    if t.pending.Some? then t.pending else First(Polled(cr, digest, t, b).outcome)
  }

  /**
   * One exchange over a lossless channel: the sender that is asked hears the request, and the
   * receiver, known to the senders as `peer`, hears the answer.
   */
  function Exchange(cr: Config, digest: Bytes -> Bytes, peer: string, t: Talk, b: Beat): (u: Talk)
    requires cr.Valid() && Sound(t.senders)
    ensures Sound(u.senders)
  {
    var polled, request := Polled(cr, digest, t, b).state, RequestOf(cr, digest, t, b);
    if request.None? then t.(receiver := polled)
    else if request.value.destination !in t.senders then
      t.(receiver := polled, pending := None, asked := t.asked + 1)
    else
      var source := request.value.destination;
      var node := t.senders[source];
      var answered :=
        Apply(node.config, digest, node.state, Hear(peer, request.value.payload, true, b.askSwept, b.ask));
      var senders := t.senders[source := node.(state := answered.state)];
      var answer := First(answered.outcome);
      if answer.None? || answer.value.payload == [] then Talk(senders, polled, None, t.delivered, t.asked + 1)
      else
        var payload := answer.value.payload;
        var heard := Apply(cr, digest, polled, Hear(source, payload, true, b.answerSwept, b.answer));
        Talk(senders, heard.state, First(heard.outcome),
             t.delivered + DeliveredBy(Key(source, payload[0]), heard.outcome), t.asked + 1)
  }

  function Converse(cr: Config, digest: Bytes -> Bytes, peer: string, t: Talk, beats: seq<Beat>): Talk
    requires cr.Valid() && Sound(t.senders)
    decreases beats
  {
    if beats == [] then t
    else Converse(cr, digest, peer, Exchange(cr, digest, peer, t, beats[0]), beats[1..])
  }

  // ---- The whole conversation ----

  /** Every wanted frame is still cached, since `born`, by the sender it came from. */
  ghost predicate Readies(senders: map<string, Node>, peer: string, w: map<Key, Sent>, born: map<Key, int>)
    requires Proper(w)
  {
    forall k :: k in w ==>
      && k.source in senders && k in born
      && Ready(senders[k.source].state, k.index, peer, w[k], born[k])
  }

  /**
   * The conditions on one exchange: readings do not run backwards; a poll leaves the back-off of
   * a position that was tried `tries` times, and finds nothing unwanted due that was begun before
   * all the wanted frames; and no lifetime passes for a wanted frame, at the receiver or in the
   * cache of the sender that is asked.
   */
  ghost predicate Timely(
    cr: Config, digest: Bytes -> Bytes, t: Talk, b: Beat, clock: int, tries: nat, w: map<Key, Sent>,
    born: map<Key, int>)
    requires cr.Valid() && Sound(t.senders)
  {
    && clock <= b.pollSwept <= b.poll <= b.answerSwept <= b.answer
    && (t.pending.None? ==>
          && b.poll - clock >= cr.cooldown * Pow2(tries)
          && Clear(cr, Sweep(cr, t.receiver, b.pollSwept), w.Keys, b.poll))
    && forall k :: k in w ==>
         && (k in t.receiver.assemblies.at ==> b.answerSwept - t.receiver.assemblies.at[k].updatedAt <= cr.ttl)
         && (k in born && k.source in t.senders && Asks(cr, digest, t, b, k.source) ==>
               b.askSwept - born[k] <= t.senders[k.source].config.ttl)
  }

  predicate Asks(cr: Config, digest: Bytes -> Bytes, t: Talk, b: Beat, source: string)
    requires cr.Valid()
  {
    var request := RequestOf(cr, digest, t, b);
    request.Some? && request.value.destination == source
  }

  ghost predicate Unhurried(
    cr: Config, digest: Bytes -> Bytes, peer: string, t: Talk, beats: seq<Beat>, clock: int, tries: nat,
    w: map<Key, Sent>, born: map<Key, int>)
    requires cr.Valid() && Sound(t.senders)
    decreases |beats|
  {
    beats != [] ==>
      && Timely(cr, digest, t, beats[0], clock, tries, w, born)
      && var u := Exchange(cr, digest, peer, t, beats[0]);
         Unhurried(cr, digest, peer, u, beats[1..], beats[0].answer, tries, Remaining(w, u.receiver), born)
  }

  /** The state of a conversation about `w`. */
  ghost predicate Talking(
    cr: Config, peer: string, t: Talk, w: map<Key, Sent>, born: map<Key, int>, tries: nat, clock: int, since: int,
    pending: Option<Ask>)
    requires Proper(w)
  {
    && Sound(t.senders) && peer != ""
    && Readies(t.senders, peer, w, born)
    && Waiting(cr, t.receiver, w, tries, clock, since, pending)
    && t.pending == RequestFor(pending)
  }

  /** After the poll, or at once when a request was pending. */
  lemma PollStage(
    cr: Config, digest: Bytes -> Bytes, peer: string, t: Talk, b: Beat, w: map<Key, Sent>, born: map<Key, int>,
    tries: nat, clock: int, since: int, pending: Option<Ask>)
    returns (ask: Ask)
    requires cr.Valid() && Proper(w) && w != map[] && Talking(cr, peer, t, w, born, tries, clock, since, pending)
    requires Timely(cr, digest, t, b, clock, tries, w, born) && since <= b.poll
    ensures RequestOf(cr, digest, t, b) == RequestFor(Some(ask))
    ensures var s := Polled(cr, digest, t, b).state;
      && Waiting(cr, s, w, tries, b.poll, since, Some(ask))
      && Lost(s, w) == Lost(t.receiver, w)
      && (pending.Some? ==> s == t.receiver)
      && (pending.None? ==> Kept(cr, t.receiver, s, w.Keys, b.pollSwept))
      && forall k :: k in w ==>
           && k in s.assemblies.at && k in t.receiver.assemblies.at
           && s.assemblies.at[k].updatedAt == t.receiver.assemblies.at[k].updatedAt
  {
    hide Waiting, Lost, Readies, Sound, Proper, Clear, Apply, Kept, Sweep;
    WaitingHolds(cr, t.receiver, w, tries, clock, since, pending);
    if pending.Some? {
      ask := pending.value;
      WaitingLater(cr, t.receiver, w, tries, clock, since, pending, b.poll);
    } else {
      NoRequest();
      ask := PollAsks(cr, digest, t.receiver, w, tries, clock, since, b.pollSwept, b.poll);
    }
  }

  lemma WaitingHolds(
    c: Config, s: State, w: map<Key, Sent>, tries: nat, clock: int, since: int, pending: Option<Ask>)
    requires Proper(w) && Waiting(c, s, w, tries, clock, since, pending)
    ensures forall k :: k in w ==> k in s.assemblies.at
  {
    hide Part, Budgeted, NoLookalike;
    forall k | k in w ensures k in s.assemblies.at {
      PartHeld(c, s, k, w[k], tries, clock, Own(pending, k));
    }
  }

  lemma WaitingLater(
    c: Config, s: State, w: map<Key, Sent>, tries: nat, clock: int, since: int, pending: Option<Ask>, now: int)
    requires Proper(w) && Waiting(c, s, w, tries, clock, since, pending) && clock <= now
    ensures Waiting(c, s, w, tries, now, since, pending)
  {
    hide Part, Budgeted, NoLookalike;
    forall k | k in w ensures Part(c, s, k, w[k], tries, now, Own(pending, k)) {
      PartHeld(c, s, k, w[k], tries, clock, Own(pending, k));
      PartFacts(c, s, k, w[k], tries, clock, Own(pending, k));
      OtherPart(c, s, s, k, w[k], tries, clock, Own(pending, k), now);
    }
  }

  /** The sender that is asked answers with the position, and forgets no wanted frame. */
  lemma AnswerStage(
    cr: Config, digest: Bytes -> Bytes, peer: string, t: Talk, b: Beat, w: map<Key, Sent>, born: map<Key, int>,
    ask: Ask)
    requires cr.Valid() && Proper(w) && Sound(t.senders) && peer != "" && Readies(t.senders, peer, w, born)
    requires ask.key in w && ask.position <= 127
    requires 1 <= Answered(ask.position, w[ask.key].Count()) <= w[ask.key].Count()
    requires forall k :: k in w && k.source == ask.key.source ==>
               b.askSwept - born[k] <= t.senders[k.source].config.ttl
    ensures ask.key.source in t.senders
    ensures var node := t.senders[ask.key.source]; var f := w[ask.key]; var source := ask.key.source;
            var call := Hear(peer, Request(ask.key.index, ask.position), true, b.askSwept, b.ask);
            var answered := Apply(node.config, digest, node.state, call);
      && First(answered.outcome) == Some(Transmission(
           peer, Fragment(f.frame, f.body, ask.key.index, Answered(ask.position, f.Count())), Retransmit))
      && Sound(t.senders[source := node.(state := answered.state)])
      && Readies(t.senders[source := node.(state := answered.state)], peer, w, born)
  {
    hide Ready, Chunks, Fragment, Apply, Sweep, First, NoLookalike;
    var source, f := ask.key.source, w[ask.key];
    var node := t.senders[source];
    SenderAnswers(
      node.config, digest, node.state, ask.key.index, peer, f, born[ask.key], ask.position, b.askSwept, b.ask);
    forall k | k in w && k.source == source
      ensures Ready(Sweep(node.config, node.state, b.askSwept), k.index, peer, w[k], born[k])
    {
      SweepReady(node.config, node.state, k.index, peer, w[k], born[k], b.askSwept);
    }
  }

  lemma ReadiesFewer(
    senders: map<string, Node>, peer: string, w: map<Key, Sent>, born: map<Key, int>, key: Key)
    requires Proper(w) && Proper(w - {key}) && Readies(senders, peer, w, born)
    ensures Readies(senders, peer, w - {key}, born)
  {
    hide Ready, NoLookalike;
  }

  lemma FragmentStarts(f: Sent, index: Byte, q: nat)
    requires f.Valid() && 1 <= q <= f.Count()
    ensures var p := Fragment(f.frame, f.body, index, q); p != [] && p[0] == index
  {
    hide Chunks;
  }

  /**
   * One exchange brings exactly one outstanding position of one frame. If it was the last one
   * the frame is delivered; every other assembly, wanted or not, stays as it was.
   */
  lemma ExchangeStep(
    cr: Config, digest: Bytes -> Bytes, peer: string, t: Talk, b: Beat, w: map<Key, Sent>, born: map<Key, int>,
    tries: nat, clock: int, since: int, pending: Option<Ask>)
    returns (came: Ask, next: Option<Ask>)
    requires cr.Valid() && Proper(w) && w != map[] && Talking(cr, peer, t, w, born, tries, clock, since, pending)
    requires Timely(cr, digest, t, b, clock, tries, w, born) && since <= b.poll
    ensures came.key in w && came in Lost(t.receiver, w)
    ensures var u := Exchange(cr, digest, peer, t, b); var left := Remaining(w, u.receiver);
      && u.asked == t.asked + 1
      && Proper(left) && left == (if came.key in left then w else w - {came.key})
      && Talking(cr, peer, u, left, born, tries, b.answer, since, next)
      && Lost(u.receiver, left) == Lost(t.receiver, w) - {came}
      && u.delivered == t.delivered + (if came.key in left then [] else [Delivered(came.key, w[came.key].frame)])
      && Kept(cr, t.receiver, u.receiver, w.Keys, b.answerSwept)
      && (came.key in left ==> u.receiver.assemblies.at[came.key].updatedAt == b.answer)
      && (came.key in left && tries == 0 ==> next.Some?)
  {
    hide Waiting, Lost, Readies, Sound, NoLookalike, Clear, Apply, Kept, Sweep, Chunks, Fragment, First, Request;
    hide DeliveredBy, Remaining;
    var ask := PollStage(cr, digest, peer, t, b, w, born, tries, clock, since, pending);
    var s := Polled(cr, digest, t, b).state;
    AskedPosition(cr, s, w, tries, b.poll, since, ask);
    WaitingValid(cr, s, w, tries, b.poll, since, Some(ask));
    var f := w[ask.key];
    var q := Answered(ask.position, f.Count());
    came := Ask(ask.key, q);
    AskedBorn(t, peer, w, born);
    AnswerStage(cr, digest, peer, t, b, w, born, ask);
    next := HearAnswer(cr, digest, s, w, tries, b.poll, since, ask, q, b.answerSwept, b.answer);
    FragmentStarts(f, ask.key.index, q);
    var u := Exchange(cr, digest, peer, t, b);
    if ask.key !in Remaining(w, u.receiver) {
      ReadiesFewer(u.senders, peer, w, born, ask.key);
    }
    if pending.None? {
      KeptTrans(cr, t.receiver, s, u.receiver, w.Keys, w.Keys, b.pollSwept, b.answerSwept);
    }
  }

  lemma AskedBorn(t: Talk, peer: string, w: map<Key, Sent>, born: map<Key, int>)
    requires Proper(w) && Readies(t.senders, peer, w, born)
    ensures forall k :: k in w ==> k in born && k.source in t.senders
  {
    hide Ready, NoLookalike;
  }

  lemma {:induction false} LastLater(
    cr: Config, digest: Bytes -> Bytes, peer: string, t: Talk, beats: seq<Beat>, clock: int, tries: nat,
    w: map<Key, Sent>, born: map<Key, int>)
    requires cr.Valid() && Sound(t.senders) && beats != []
    requires Unhurried(cr, digest, peer, t, beats, clock, tries, w, born)
    ensures clock <= beats[|beats| - 1].answerSwept
    decreases |beats|
  {
    hide Exchange, Remaining, Sound, Clear, Sweep, Asks;
    if |beats| > 1 {
      var u := Exchange(cr, digest, peer, t, beats[0]);
      LastLater(cr, digest, peer, u, beats[1..], beats[0].answer, tries, Remaining(w, u.receiver), born);
    }
  }

  lemma NothingLost(
    c: Config, s: State, w: map<Key, Sent>, tries: nat, clock: int, since: int, pending: Option<Ask>)
    requires Proper(w) && Waiting(c, s, w, tries, clock, since, pending)
    ensures Lost(s, w) == {} <==> w == map[]
  {
    hide Waiting, NoLookalike;
    if w != map[] {
      var k :| k in w;
      SomethingLost(c, s, w, tries, clock, since, pending, k);
    }
  }

  lemma {:induction false} ConverseFrom(
    cr: Config, digest: Bytes -> Bytes, peer: string, t: Talk, beats: seq<Beat>, w: map<Key, Sent>,
    born: map<Key, int>, tries: nat, clock: int, since: int, pending: Option<Ask>)
    returns (brought: seq<Delivered>)
    requires cr.Valid() && Proper(w) && Talking(cr, peer, t, w, born, tries, clock, since, pending)
    requires Unhurried(cr, digest, peer, t, beats, clock, tries, w, born)
    requires |beats| == |Lost(t.receiver, w)| && (beats != [] ==> since <= beats[0].poll)
    ensures var v := Converse(cr, digest, peer, t, beats);
      && v.asked == t.asked + |beats|
      && v.delivered == t.delivered + brought
      && (forall k :: k in w ==> k !in v.receiver.assemblies.at)
      && (if beats == [] then v == t
          else Kept(cr, t.receiver, v.receiver, w.Keys, beats[|beats| - 1].answerSwept))
    ensures |brought| == |w| && forall k :: k in w ==> Delivered(k, w[k].frame) in brought
    decreases |beats|
  {
    hide Waiting, Lost, Readies, Exchange, Kept, NoLookalike, Timely, Sound;
    NothingLost(cr, t.receiver, w, tries, clock, since, pending);
    if beats == [] {
      brought := [];
      return;
    }
    var b, rest := beats[0], beats[1..];
    var came, next := ExchangeStep(cr, digest, peer, t, b, w, born, tries, clock, since, pending);
    var u := Exchange(cr, digest, peer, t, b);
    var left := Remaining(w, u.receiver);
    SinceLater(cr, digest, peer, t, beats, clock, tries, w, born, since);
    var more := ConverseFrom(cr, digest, peer, u, rest, left, born, tries, b.answer, since, next);
    var first := if came.key in left then [] else [Delivered(came.key, w[came.key].frame)];
    brought := first + more;
    var v := Converse(cr, digest, peer, t, beats);
    assert v == Converse(cr, digest, peer, u, rest);
    Joined(t.delivered, first, more);
    LeftSize(w, left, came.key);
    if rest != [] {
      LastLater(cr, digest, peer, u, rest, b.answer, tries, left, born);
      AnswersInOrder(cr, digest, t, b, clock, tries, w, born);
      assert rest[|rest| - 1] == beats[|beats| - 1];
      KeptTrans(
        cr, t.receiver, u.receiver, v.receiver, left.Keys, w.Keys, b.answerSwept, rest[|rest| - 1].answerSwept);
      KeptGone(cr, u.receiver, v.receiver, left.Keys, rest[|rest| - 1].answerSwept);
    }
  }

  lemma Joined(a: seq<Delivered>, b: seq<Delivered>, c: seq<Delivered>)
    ensures a + b + c == a + (b + c)
  {
  }

  lemma LeftSize(w: map<Key, Sent>, left: map<Key, Sent>, key: Key)
    requires key in w && left == (if key in left then w else w - {key})
    ensures |w| == |left| + (if key in left then 0 else 1)
    ensures left.Keys <= w.Keys && forall k :: k in w && k != key ==> k in left && left[k] == w[k]
  {
    if key !in left {
      assert left.Keys == w.Keys - {key};
    }
    assert |w| == |w.Keys| && |left| == |left.Keys|;
  }

  lemma KeptGone(c: Config, s: State, t: State, w: set<Key>, swept: int)
    requires Kept(c, s, t, w, swept)
    ensures t.assemblies.at.Keys <= s.assemblies.at.Keys
  {
  }

  lemma AnswersInOrder(
    cr: Config, digest: Bytes -> Bytes, t: Talk, b: Beat, clock: int, tries: nat, w: map<Key, Sent>,
    born: map<Key, int>)
    requires cr.Valid() && Sound(t.senders) && Timely(cr, digest, t, b, clock, tries, w, born)
    ensures clock <= b.poll <= b.answerSwept <= b.answer
  {
    hide Sound, Clear, Sweep, Asks;
  }

  lemma SinceLater(
    cr: Config, digest: Bytes -> Bytes, peer: string, t: Talk, beats: seq<Beat>, clock: int, tries: nat,
    w: map<Key, Sent>, born: map<Key, int>, since: int)
    requires cr.Valid() && Sound(t.senders) && beats != [] && since <= beats[0].poll
    requires Unhurried(cr, digest, peer, t, beats, clock, tries, w, born)
    ensures |beats| > 1 ==> since <= beats[1].poll
  {
    hide Exchange, Remaining, Sound, Clear, Sweep, Asks;
  }

  /**
   * Repair converges, for any number of frames from any number of senders at once. Every wanted
   * frame is still cached by its sender; the receiver holds a non-empty proper part of each, maybe
   * beside other frames, and has tried each outstanding position (the final ones included) fewer
   * than `maxAttempts` times; and all outstanding positions together are within its free budget.
   * Then over a lossless channel exactly one exchange per outstanding position, each with one
   * request, delivers exactly the wanted frames, each once, and leaves everything else that is
   * being assembled as it was.
   */
  lemma AllConverge(
    cr: Config, digest: Bytes -> Bytes, peer: string, senders: map<string, Node>, receiver: State,
    beats: seq<Beat>, w: map<Key, Sent>, born: map<Key, int>, tries: nat, clock: int, since: int)
    requires cr.Valid() && Sound(senders) && Proper(w) && peer != ""
    requires Readies(senders, peer, w, born)
    requires Waiting(cr, receiver, w, tries, clock, since, None)
    requires Unhurried(cr, digest, peer, Talk(senders, receiver, None, [], 0), beats, clock, tries, w, born)
    requires |beats| == |Lost(receiver, w)| && (beats != [] ==> since <= beats[0].poll)
    ensures var end := Converse(cr, digest, peer, Talk(senders, receiver, None, [], 0), beats);
      && end.asked == |beats|
      && |end.delivered| == |w| && (forall k :: k in w ==> Delivered(k, w[k].frame) in end.delivered)
      && (forall k :: k in w ==> k !in end.receiver.assemblies.at)
      && (beats != [] ==> Kept(cr, receiver, end.receiver, w.Keys, beats[|beats| - 1].answerSwept))
  {
    hide Converse, Waiting, Readies, Unhurried, Lost, Kept, NoLookalike, Sound;
    NoRequest();
    var brought := ConverseFrom(
      cr, digest, peer, Talk(senders, receiver, None, [], 0), beats, w, born, tries, clock, since, None);
    assert [] + brought == brought;
  }

  // ---- One frame ----

  lemma {:induction false} ImageSize(key: Key, positions: set<nat>)
    ensures |set p | p in positions :: Ask(key, p)| == |positions|
  {
    if positions != {} {
      var p :| p in positions;
      var rest := positions - {p};
      ImageSize(key, rest);
      assert (set x | x in positions :: Ask(key, x)) == (set x | x in rest :: Ask(key, x)) + {Ask(key, p)};
    }
  }

  lemma LostOne(s: State, key: Key, f: Sent)
    requires Proper(map[key := f])
    ensures f.Valid() && |Lost(s, map[key := f])| == |LostOf(s, key, f)|
  {
    hide NoLookalike, All, Held;
    var w := map[key := f];
    assert w[key] == f;
    ImageSize(key, LostOf(s, key, f));
    assert Lost(s, w) == set p | p in LostOf(s, key, f) :: Ask(key, p);
  }

  /**
   * Time between exchanges for one frame: readings do not run backwards; no lifetime passes
   * between a received position and the next clean-up; and a poll leaves the back-off of a
   * position that was tried `tries` times. If nothing was tried yet only the first exchange has
   * to poll.
   */
  ghost predicate Paced(
    cs: Config, cr: Config, beats: seq<Beat>, clock: int, updatedAt: int, born: int, tries: nat, polling: bool)
  {
    beats != [] ==>
      var b := beats[0];
      && clock <= b.pollSwept <= b.poll <= b.answerSwept <= b.answer
      && b.answerSwept - updatedAt <= cr.ttl
      && b.askSwept - born <= cs.ttl
      && (polling ==> b.poll - clock >= cr.cooldown * Pow2(tries))
      && Paced(cs, cr, beats[1..], b.answer, b.answer, born, tries, tries > 0)
  }

  /** No assembly begun before that of `key` has a position that may be asked for at any poll. */
  ghost predicate EarlierIdle(cr: Config, s: State, key: Key, beats: seq<Beat>) {
    forall x, i :: Precedes(s.assemblies.order, x, key) && 0 <= i < |beats| ==> !Due(cr, s, x, beats[i].poll)
  }

  lemma {:induction false} SelectPrecedes<K>(order: seq<K>, keep: set<K>, x: K, y: K)
    requires Precedes(Select(order, keep), x, y)
    ensures Precedes(order, x, y)
  {
    var picked := Select(order, keep);
    var i, j :| 0 <= i < j < |picked| && picked[i] == x && picked[j] == y;
    var rest := Select(order[1..], keep);
    SelectMembers(order[1..], keep);
    if order[0] in keep {
      assert picked == [order[0]] + rest;
      assert rest[j - 1] == y;
      if i == 0 {
        assert y in Elements(rest);
        var b :| 0 <= b < |order| - 1 && order[b + 1] == y;
        assert order[0] == x;
      } else {
        assert rest[i - 1] == x;
        assert Precedes(rest, x, y);
        SelectPrecedes(order[1..], keep, x, y);
        PrecedesLater(order, x, y);
      }
    } else {
      assert picked == rest;
      SelectPrecedes(order[1..], keep, x, y);
      PrecedesLater(order, x, y);
    }
  }

  lemma PrecedesLater<K>(order: seq<K>, x: K, y: K)
    requires order != [] && Precedes(order[1..], x, y)
    ensures Precedes(order, x, y)
  {
    var i, j :| 0 <= i < j < |order| - 1 && order[1..][i] == x && order[1..][j] == y;
    assert order[i + 1] == x && order[j + 1] == y;
  }

  /** Earlier assemblies that are idle stay so, as nothing touches them. */
  lemma StillIdle(c: Config, s: State, t: State, key: Key, w: set<Key>, swept: int, beats: seq<Beat>, rest: seq<Beat>)
    requires EarlierIdle(c, s, key, beats) && Kept(c, s, t, w, swept) && w <= {key} && s.assemblies.Valid()
    requires |rest| <= |beats| && forall i :: 0 <= i < |rest| ==> rest[i] == beats[|beats| - |rest| + i]
    requires t.assemblies.Valid()
    ensures EarlierIdle(c, t, key, rest)
  {
    hide Select, Due;
    forall x, i | Precedes(t.assemblies.order, x, key) && 0 <= i < |rest|
      ensures !Due(c, t, x, rest[i].poll)
    {
      SelectPrecedes(s.assemblies.order, t.assemblies.at.Keys, x, key);
      assert !Due(c, s, x, beats[|beats| - |rest| + i].poll);
      if Due(c, t, x, rest[i].poll) {
        DueHeld(c, t, x, rest[i].poll);
        NotSelf(t.assemblies, x, key);
        DueSame(c, s, t, x, rest[i].poll);
      }
    }
  }

  lemma NotSelf(m: OMap<Key, Assembly>, x: Key, y: Key)
    requires m.Valid() && Precedes(m.order, x, y)
    ensures x != y
  {
  }

  lemma DueSame(c: Config, s: State, t: State, x: Key, now: int)
    requires x in s.assemblies.at && x in t.assemblies.at && s.assemblies.at[x] == t.assemblies.at[x]
    ensures Due(c, s, x, now) <==> Due(c, t, x, now)
  {
    hide Missing, HasDueRepair;
  }

  lemma IdleClear(c: Config, s: State, key: Key, now: int)
    requires s.assemblies.Valid() && key in s.assemblies.at
    requires forall x :: Precedes(s.assemblies.order, x, key) ==> !Due(c, s, x, now)
    ensures Clear(c, s, {key}, now)
  {
    hide Due;
    var order := s.assemblies.order;
    assert key in Elements(order);
    var k :| 0 <= k < |order| && order[k] == key;
    forall x | x in order && x !in {key} && Due(c, s, x, now) ensures exists y :: y in {key} && Precedes(order, y, x) {
      var i :| 0 <= i < |order| && order[i] == x;
      assert i < k ==> Precedes(order, x, key);
      assert Precedes(order, key, x);
    }
  }

  /** One exchange of a paced conversation is timely. */
  lemma PacedTimely(
    cr: Config, digest: Bytes -> Bytes, peer: string, t: Talk, beats: seq<Beat>, key: Key, f: Sent, born: int,
    tries: nat, clock: int, since: int, pending: Option<Ask>)
    requires cr.Valid() && Proper(map[key := f]) && beats != []
    requires Talking(cr, peer, t, map[key := f], map[key := born], tries, clock, since, pending)
    requires key in t.receiver.assemblies.at && key.source in t.senders
    requires Paced(
      t.senders[key.source].config, cr, beats, clock, t.receiver.assemblies.at[key].updatedAt, born, tries,
      pending.None?)
    requires EarlierIdle(cr, t.receiver, key, beats)
    ensures Timely(cr, digest, t, beats[0], clock, tries, map[key := f], map[key := born])
  {
    hide Sweep, Clear, Waiting, Readies, Due, Sound, NoLookalike, Asks, Polled, Select, Kept;
    NoRequest();
    var b, w := beats[0], map[key := f];
    if t.pending.None? {
      assert pending.None?;
      var s1 := Sweep(cr, t.receiver, b.pollSwept);
      WaitingValid(cr, t.receiver, w, tries, clock, since, pending);
      SweptFields(cr, t.receiver, b.pollSwept);
      SweepHolds(cr, t.receiver, key, b.pollSwept);
      SweepKept(cr, t.receiver, {key}, b.pollSwept);
      StillIdle(cr, t.receiver, s1, key, {key}, b.pollSwept, beats, beats);
      forall x | Precedes(s1.assemblies.order, x, key) ensures !Due(cr, s1, x, b.poll) {
        assert !Due(cr, s1, x, beats[0].poll);
      }
      IdleClear(cr, s1, key, b.poll);
      assert w.Keys == {key};
    }
  }

  /** For one frame the conditions on the conversation can be told from the readings alone. */
  lemma {:induction false} PacedUnhurried(
    cr: Config, digest: Bytes -> Bytes, peer: string, t: Talk, beats: seq<Beat>, key: Key, f: Sent, born: int,
    tries: nat, clock: int, since: int, pending: Option<Ask>)
    requires cr.Valid() && Proper(map[key := f])
    requires Talking(cr, peer, t, map[key := f], map[key := born], tries, clock, since, pending)
    requires key in t.receiver.assemblies.at && key.source in t.senders
    requires Paced(
      t.senders[key.source].config, cr, beats, clock, t.receiver.assemblies.at[key].updatedAt, born, tries,
      pending.None?)
    requires EarlierIdle(cr, t.receiver, key, beats)
    requires |beats| == |Lost(t.receiver, map[key := f])| && (beats != [] ==> since <= beats[0].poll)
    ensures Unhurried(cr, digest, peer, t, beats, clock, tries, map[key := f], map[key := born])
    decreases |beats|
  {
    hide Waiting, Lost, Readies, Sound, NoLookalike, Kept, EarlierIdle, Exchange, Timely, Remaining;
    if beats != [] {
      var w, b, rest := map[key := f], beats[0], beats[1..];
      PacedTimely(cr, digest, peer, t, beats, key, f, born, tries, clock, since, pending);
      var came, next := ExchangeStep(cr, digest, peer, t, b, w, map[key := born], tries, clock, since, pending);
      var u := Exchange(cr, digest, peer, t, b);
      var left := Remaining(w, u.receiver);
      if key in left {
        assert left == w;
        WaitingValid(cr, t.receiver, w, tries, clock, since, pending);
        WaitingValid(cr, u.receiver, w, tries, b.answer, since, next);
        StillIdle(cr, t.receiver, u.receiver, key, w.Keys, b.answerSwept, beats, rest);
        SameConfig(cr, digest, peer, t, b, key.source);
        RemainingHeld(w, u.receiver, key);
        PacedNext(t.senders[key.source].config, cr, beats, clock, t.receiver.assemblies.at[key].updatedAt, born,
                  tries, pending.None?, next.None?, since);
        PacedUnhurried(cr, digest, peer, u, rest, key, f, born, tries, b.answer, since, next);
      } else {
        assert left == map[];
        NothingLost(cr, u.receiver, left, tries, b.answer, since, next);
        assert Lost(t.receiver, w) == {came};
      }
    }
  }

  lemma RemainingHeld(w: map<Key, Sent>, s: State, key: Key)
    requires key in Remaining(w, s)
    ensures key in s.assemblies.at
  {
  }

  lemma SameConfig(cr: Config, digest: Bytes -> Bytes, peer: string, t: Talk, b: Beat, source: string)
    requires cr.Valid() && Sound(t.senders) && source in t.senders
    ensures var u := Exchange(cr, digest, peer, t, b);
      source in u.senders && u.senders[source].config == t.senders[source].config
  {
    hide Apply, Sound;
  }

  lemma PacedNext(
    cs: Config, cr: Config, beats: seq<Beat>, clock: int, updatedAt: int, born: int, tries: nat, polling: bool,
    next: bool, since: int)
    requires beats != [] && Paced(cs, cr, beats, clock, updatedAt, born, tries, polling) && since <= beats[0].poll
    requires tries == 0 ==> !next
    ensures Paced(cs, cr, beats[1..], beats[0].answer, beats[0].answer, born, tries, next)
    ensures |beats| > 1 ==> since <= beats[1].poll
  {
  }

  /**
   * Repair converges for one frame, on conditions that can be told beforehand: the receiver may be
   * assembling anything else, as long as no assembly begun before has a position that may be asked
   * for at any of the polls. Exactly one exchange and one request per outstanding position end with
   * exactly the frame, and everything else is as it was.
   */
  lemma Converges(
    cr: Config, digest: Bytes -> Bytes, peer: string, senders: map<string, Node>, receiver: State,
    beats: seq<Beat>, key: Key, f: Sent, tries: nat, clock: int, since: int, born: int)
    requires cr.Valid() && Sound(senders) && f.Valid() && NoLookalike(key, f) && peer != ""
    requires key.source != "" && key.source in senders && Ready(senders[key.source].state, key.index, peer, f, born)
    requires receiver.assemblies.Valid() && Part(cr, receiver, key, f, tries, clock, None)
    requires |DropOld(receiver.requestTimes, since - cr.window)| + |LostOf(receiver, key, f)| <= cr.maxRequests
    requires Paced(
      senders[key.source].config, cr, beats, clock, receiver.assemblies.at[key].updatedAt, born, tries, true)
    requires EarlierIdle(cr, receiver, key, beats)
    requires |beats| == |LostOf(receiver, key, f)| && (beats != [] ==> since <= beats[0].poll)
    ensures var end := Converse(cr, digest, peer, Talk(senders, receiver, None, [], 0), beats);
      && end.delivered == [Delivered(key, f.frame)] && end.asked == |beats|
      && key !in end.receiver.assemblies.at
      && (beats != [] ==> Kept(cr, receiver, end.receiver, {key}, beats[|beats| - 1].answerSwept))
  {
    hide Converse, Part, Ready, Paced, NoLookalike, LostOf, Kept, EarlierIdle, Unhurried, Sound;
    var w, births := map[key := f], map[key := born];
    LostOne(receiver, key, f);
    hide Lost;
    var start := Talk(senders, receiver, None, [], 0);
    NoRequest();
    PartHeld(cr, receiver, key, f, tries, clock, None);
    assert Waiting(cr, receiver, w, tries, clock, since, None);
    PacedUnhurried(cr, digest, peer, start, beats, key, f, born, tries, clock, since, None);
    AllConverge(cr, digest, peer, senders, receiver, beats, w, births, tries, clock, since);
    assert w.Keys == {key};
    var end := Converse(cr, digest, peer, start, beats);
    assert |w| == 1 && w[key] == f;
    assert Delivered(key, f.frame) in end.delivered;
  }

  // ---- From scratch ----

  /** A sender that has just encoded a frame for everybody would answer any peer from it. */
  lemma JustEncoded(
    c: Config, digest: Bytes -> Bytes, frame: Bytes, peer: string, swept: int, now: int)
    requires c.Valid() && Sent(frame, c.fragmentBody).Valid()
    ensures Ready(
      Apply(c, digest, INITIAL, Send(frame, BROADCAST, swept, now)).state, 0, peer, Sent(frame, c.fragmentBody), now)
  {
    hide Chunks, AllFragments, PopExpired, DropOld;
    var s1 := Sweep(c, INITIAL, swept);
    assert s1.txCache.at == map[] && s1.nextIndex == 0;
    var key := CacheKey(0, BROADCAST);
    var cached := Cached(BROADCAST, now, AllFragments(frame, c.fragmentBody, 0));
    MoveNewKey(s1.txCache, key, cached);
  }

  /** A receiver that has heard one non-final fragment and nothing else is part-way through the frame. */
  lemma JustHeard(c: Config, digest: Bytes -> Bytes, key: Key, f: Sent, p: nat, swept: int, now: int)
    requires c.Valid() && f.Valid() && key.source != "" && NoLookalike(key, f) && 1 <= p < f.Count()
    ensures var call := Hear(key.source, Fragment(f.frame, f.body, key.index, p), true, swept, now);
            var t := Apply(c, digest, INITIAL, call).state;
      && Part(c, t, key, f, 0, now, None)
      && t.assemblies.Valid() && t.assemblies.order == [key] && t.requestTimes == []
      && t.assemblies.at[key].updatedAt == now
      && |LostOf(t, key, f)| == f.Count() - 1
  {
    hide Chunks, Fragment, All, Sweep, Part, Mirrors, File, LostOf;
    EmptyMirrors(c, key, f, swept);
    AnswerFiled(c, digest, INITIAL, key, f, p, swept, now);
    FileFirst(c, digest, Sweep(c, INITIAL, swept), key, f, p, now);
  }

  lemma FileFirst(c: Config, digest: Bytes -> Bytes, s: State, key: Key, f: Sent, p: nat, now: int)
    requires c.Valid() && f.Valid() && Mirrors(s, key, f, {}, 0)
    requires s.assemblies == EmptyMap() && s.requestTimes == []
    requires 1 <= p < f.Count()
    ensures var t := File(c, digest, s, key, WirePosition(p, f.Count()), f.Piece(p), now, true).state;
      && Part(c, t, key, f, 0, now, None)
      && t.assemblies.Valid() && t.assemblies.order == [key] && t.requestTimes == []
      && t.assemblies.at[key].updatedAt == now
      && |LostOf(t, key, f)| == f.Count() - 1
  {
    hide Chunks, All, Agrees, Lockstep, Missing, Absorb, Fair;
    FileDelivers(c, digest, s, key, f, {}, 0, p, now, true);
    AbsorbMirrors(s, key, f, {}, 0, p, now);
    assert {} + {p} == {p};
    AllCount(f);
    InAll(f, p);
    InAll(f, f.Count());
    OneMore(All(f), {}, p);
    assert All(f) - {} == All(f);
    var a := Absorb(Fresh(now), WirePosition(p, f.Count()), f.Piece(p), now);
    FirstFair(c, f, p, now);
  }

  lemma FirstFair(c: Config, f: Sent, p: nat, now: int)
    requires c.Valid() && f.Valid() && 1 <= p < f.Count()
    ensures Fair(c, Absorb(Fresh(now), WirePosition(p, f.Count()), f.Piece(p), now), 0, now, None)
  {
    hide Chunks;
  }

  lemma EmptyMirrors(c: Config, key: Key, f: Sent, swept: int)
    requires f.Valid()
    ensures Mirrors(Sweep(c, INITIAL, swept), key, f, {}, 0)
    ensures Sweep(c, INITIAL, swept).requestTimes == []
    ensures Sweep(c, INITIAL, swept).assemblies == EmptyMap()
  {
    hide Chunks;
  }

  lemma AllCount(f: Sent)
    requires f.Valid()
    ensures |All(f)| == f.Count()
  {
    hide Chunks;
    var n := f.Count();
    BelowCardinality(n + 1);
    assert All(f) == Below(n + 1) - {0} by {
      forall p: nat ensures p in All(f) <==> p in Below(n + 1) - {0} {
        if 1 <= p <= n {
          InAll(f, p);
        }
      }
    }
  }

  /**
   * End to end: a sender broadcasts a frame, the receiver hears only one non-final transmission of
   * those the sender emitted, everything else is lost. From there one exchange per lost fragment
   * restores the frame.
   */
  lemma OneFragmentIsEnough(
    cs: Config, cr: Config, digest: Bytes -> Bytes, source: string, peer: string, frame: Bytes, p: nat,
    beats: seq<Beat>, sentAt: int, heardAt: int)
    requires cs.Valid() && cr.Valid() && source != "" && peer != ""
    requires var f := Sent(frame, cs.fragmentBody);
      f.Valid() && 1 <= p < f.Count() && f.Count() - 1 <= cr.maxRequests && |beats| == f.Count() - 1
    requires Paced(cs, cr, beats, heardAt, heardAt, sentAt, 0, true)
    ensures var sent := Apply(cs, digest, INITIAL, Send(frame, BROADCAST, sentAt, sentAt));
      && sent.outcome.Done? && p <= |sent.outcome.transmissions|
      && var first := Hear(source, sent.outcome.transmissions[p - 1].payload, true, heardAt, heardAt);
         var receiver := Apply(cr, digest, INITIAL, first).state;
         var start := Talk(map[source := Node(cs, sent.state)], receiver, None, [], 0);
         var end := Converse(cr, digest, peer, start, beats);
         end.delivered == [Delivered(Key(source, 0), frame)] && end.asked == |beats|
  {
    hide Converse, Part, Ready, Chunks, Apply, Fragment, LostOf, Due, Paced;
    var f, key := Sent(frame, cs.fragmentBody), Key(source, 0);
    ShortFramesAreSafe(key, f);
    JustEncoded(cs, digest, frame, peer, sentAt, sentAt);
    FirstEmitted(cs, digest, frame, p, sentAt);
    JustHeard(cr, digest, key, f, p, heardAt, heardAt);
    var sender := Apply(cs, digest, INITIAL, Send(frame, BROADCAST, sentAt, sentAt)).state;
    var first := Hear(source, Fragment(frame, cs.fragmentBody, 0, p), true, heardAt, heardAt);
    var receiver := Apply(cr, digest, INITIAL, first).state;
    PartHeld(cr, receiver, key, f, 0, heardAt, None);
    PacedFirst(cs, cr, beats, heardAt, heardAt, sentAt);
    assert EarlierIdle(cr, receiver, key, beats);
    assert DropOld([], heardAt - cr.window) == [];
    Converges(
      cr, digest, peer, map[source := Node(cs, sender)], receiver, beats, key, f, 0, heardAt, heardAt, sentAt);
  }

  /** What a fresh sender emits at place `p`. */
  lemma FirstEmitted(c: Config, digest: Bytes -> Bytes, frame: Bytes, p: nat, at: int)
    requires c.Valid() && Sent(frame, c.fragmentBody).Valid() && 1 <= p <= Sent(frame, c.fragmentBody).Count()
    ensures var out := Apply(c, digest, INITIAL, Send(frame, BROADCAST, at, at)).outcome;
      && out.Done? && p <= |out.transmissions|
      && out.transmissions[p - 1].payload == Fragment(frame, c.fragmentBody, 0, p)
  {
    hide Chunks, Fragment, Encode;
    Sending.EncodeIs(c, INITIAL, frame, BROADCAST, at, at);
    Sending.FitsIff(frame, c.fragmentBody);
  }

  lemma PacedFirst(cs: Config, cr: Config, beats: seq<Beat>, clock: int, updatedAt: int, born: int)
    requires Paced(cs, cr, beats, clock, updatedAt, born, 0, true)
    ensures beats != [] ==> clock <= beats[0].poll
  {
  }
}
