/** Every completed call of `push` and `pop` is one operation of the queue, and no operation is anything else. */
module SpmcCalls {
  import opened Wrappers
  import opened SpmcRing
  import opened SpmcInvariant
  import opened SpmcRefinement

  /** The consumer is inside `pop`: its loop repeats until it returns. */
  predicate InPop(pc: ConsumerPc) {
    pc.LoadPair? || pc.Copy?
  }

  /** The producer is inside `push`; between two calls it has values left or is about to finish. */
  predicate InPush(cfg: Config, s: State) {
    match s.producer
    case Load => s.next < |cfg.inputs|
    case Write(_, _) => true
    case ReadBack(_, _) => true
    case Finished => false
  }

  /** What a label says consumer c's `pop` has returned; None when it has not returned. */
  function PopReturn(l: Label, c: nat): Option<Option<Value>> {
    match l
    case Dequeue(d, v) => if d == c then Some(Some(v)) else None
    case DequeueNothing(d) => if d == c then Some(None) else None
    case Internal => None
    case Enqueue(_) => None
    case EnqueueBlocked => None
    case Observe(_, _) => None
  }

  /** Consumer c's `pop` returns at this step. */
  predicate PopEnds(s: State, s': State, c: nat)
    requires c < |s.consumers| == |s'.consumers|
  {
    InPop(s.consumers[c].pc) && !InPop(s'.consumers[c].pc)
  }

  lemma OthersStay(cfg: Config, s: State, e: Event, c: nat)
    requires cfg.Valid() && Shape(cfg, s) && Enabled(cfg, s, e) && c < |s.consumers| && (ByProducer(e) || e.c != c)
    ensures |Apply(cfg, s, e).consumers| == |s.consumers| && Apply(cfg, s, e).consumers[c] == s.consumers[c]
    ensures PopReturn(LabelOf(cfg, s, e), c).None?
  {
  }

  lemma OwnStep(cfg: Config, s: State, e: Event)
    requires Shape(cfg, s) && Enabled(cfg, s, e) && !ByProducer(e)
    ensures var s', ret := ApplyConsumer(cfg, s, e), PopReturn(LabelOf(cfg, s, e), e.c);
      && |s'.consumers| == |s.consumers|
      && (PopEnds(s, s', e.c) <==> ret.Some?)
      && (ret.Some? ==> InPop(s.consumers[e.c].pc) && s'.consumers[e.c].pc == ReadDone)
      && s'.consumers[e.c].results
         == s.consumers[e.c].results + if ret.Some? && ret.value.Some? then [ret.value.value] else []
  {
    hide Shape, FullMark, Assemble, Complete;
  }

  /**
   A step ends consumer c's `pop` exactly if its label is a dequeue, or a dequeue of nothing, by c; the
   result list grows by what the call returned. The harness never leaves the loop in any other way.
   */
  lemma PopIsOneOperation(cfg: Config, s: State, e: Event, c: nat)
    requires cfg.Valid() && Shape(cfg, s) && Enabled(cfg, s, e) && c < |s.consumers|
    ensures |Apply(cfg, s, e).consumers| == |s.consumers|
    ensures var s', ret := Apply(cfg, s, e), PopReturn(LabelOf(cfg, s, e), c);
      && (PopEnds(s, s', c) <==> ret.Some?)
      && (ret.Some? ==> InPop(s.consumers[c].pc) && s'.consumers[c].pc == ReadDone)
      && s'.consumers[c].results
         == s.consumers[c].results + if ret.Some? && ret.value.Some? then [ret.value.value] else []
  {
    hide ApplyProducer, ApplyConsumer, LabelOf, Enabled, Shape, InPop, PopReturn;
    if !ByProducer(e) && e.c == c {
      OwnStep(cfg, s, e);
    } else {
      OthersStay(cfg, s, e, c);
    }
  }

  /** What a call of `pop` does next, while it has not returned: it retries after every lost compare-and-swap. */
  lemma LostSwapRetries(cfg: Config, s: State, c: nat)
    requires Shape(cfg, s) && Enabled(cfg, s, Cas(c)) && s.rd != s.consumers[c].pc.rdRaw
    ensures ApplyConsumer(cfg, s, Cas(c)) == SetPc(s, c, LoadPair).(casFailures := s.casFailures + 1)
  {
  }

  /** A step ends the producer's `push` exactly if its label is an enqueue, and then of the value passed. */
  lemma PushIsOneOperation(cfg: Config, s: State, e: Event)
    requires cfg.Valid() && Shape(cfg, s) && Enabled(cfg, s, e) && Inv(cfg, s)
    ensures var s', l := Apply(cfg, s, e), LabelOf(cfg, s, e);
      && (s'.next != s.next <==> l.Enqueue?)
      && (l.Enqueue? ==> InPush(cfg, s) && s.next < |cfg.inputs| && l.v == cfg.inputs[s.next])
      && (l.Enqueue? ==> s'.next == s.next + 1 && s'.producer == Load && s'.echoed == s.echoed + [l.v])
      && (!l.Enqueue? ==> s'.echoed == s.echoed && (InPush(cfg, s) ==> InPush(cfg, s')))
  {
    hide WindowOk, ConsumerOk, HistoryOk, FullMark;
    if e.Publish? {
      EmplaceReturnsArgument(cfg, s);
    } else if ByProducer(e) {
      ProducerStep(cfg, s, e);
    }
  }

  /** A consumer leaves the harness loop exactly when `empty` finds nothing, which it asks only after `done`. */
  lemma LoopEndsIff(cfg: Config, s: State, e: Event, c: nat)
    requires cfg.Valid() && Shape(cfg, s) && Enabled(cfg, s, e) && Inv(cfg, s) && c < |s.consumers|
    ensures |Apply(cfg, s, e).consumers| == |s.consumers|
    ensures !s.consumers[c].pc.Exited? ==>
      (Apply(cfg, s, e).consumers[c].pc.Exited? <==> LabelOf(cfg, s, e) == Observe(c, true))
    ensures LabelOf(cfg, s, e) == Observe(c, true) ==> s.done && s.rd == s.wr
  {
    hide WindowOk, ProducerOk, HistoryOk, FullMark, Assemble;
    assert ConsumerOk(cfg, s, s.consumers[c].pc);
    if ByProducer(e) || e.c != c {
      OthersStay(cfg, s, e, c);
    }
  }

  // Whole runs

  /** What a call of `pop` has returned between two states of its consumer, if one has. */
  function Returned(before: Consumer, after: Consumer): seq<Option<Value>> {
    if !InPop(before.pc) || InPop(after.pc) then []
    else if |after.results| == |before.results| || after.results == [] then [None]
    else [Some(after.results[|after.results| - 1])]
  }

  /** What the completed calls of consumer c's `pop` returned, in order. */
  function PopReturns(cfg: Config, es: seq<Event>, c: nat): seq<Option<Value>>
    requires cfg.Valid() && Run(cfg, es).Some?
  {
    if es == [] then []
    else
      var es' := es[..|es| - 1];
      var before, after := Run(cfg, es').value.consumers, Run(cfg, es).value.consumers;
      PopReturns(cfg, es', c) + if c < |before| && c < |after| then Returned(before[c], after[c]) else []
  }

  /** The queue operations of consumer c along a trace, with what they found. */
  function PopOperations(ls: seq<Label>, c: nat): seq<Option<Value>> {
    if ls == [] then []
    else
      var ret := PopReturn(ls[|ls| - 1], c);
      PopOperations(ls[..|ls| - 1], c) + if ret.Some? then [ret.value] else []
  }

  lemma {:induction false} ConsumersStay(cfg: Config, es: seq<Event>)
    requires cfg.Valid() && Run(cfg, es).Some?
    ensures |Run(cfg, es).value.consumers| == cfg.consumers
  {
    RunInv(cfg, es);
  }

  /** In every run the completed calls of each consumer are exactly its operations on the queue. */
  lemma {:induction false} PopsAreOperations(cfg: Config, es: seq<Event>, c: nat)
    requires cfg.Valid() && Run(cfg, es).Some? && c < cfg.consumers
    ensures PopReturns(cfg, es, c) == PopOperations(Trace(cfg, es), c)
  {
    if es != [] {
      var es', e := es[..|es| - 1], es[|es| - 1];
      PopsAreOperations(cfg, es', c);
      ConsumersStay(cfg, es');
      ConsumersStay(cfg, es);
      hide Apply, LabelOf, Enabled, InPop, PopReturn;
      PopIsOneOperation(cfg, Run(cfg, es').value, e, c);
      assert Trace(cfg, es)[..|es| - 1] == Trace(cfg, es');
    }
  }

  function Enqueued(ls: seq<Label>): seq<Value> {
    if ls == [] then []
    else Enqueued(ls[..|ls| - 1]) + if ls[|ls| - 1].Enqueue? then [ls[|ls| - 1].v] else []
  }

  /** In every run the completed calls of `push` are exactly the enqueues: of the first inputs, in order. */
  lemma {:induction false} PushesAreOperations(cfg: Config, es: seq<Event>)
    requires cfg.Valid() && Run(cfg, es).Some?
    ensures Run(cfg, es).value.next <= |cfg.inputs|
    ensures Enqueued(Trace(cfg, es)) == Run(cfg, es).value.echoed == cfg.inputs[..Run(cfg, es).value.next]
  {
    RunInv(cfg, es);
    if es != [] {
      var es', e := es[..|es| - 1], es[|es| - 1];
      PushesAreOperations(cfg, es');
      RunInv(cfg, es');
      PushIsOneOperation(cfg, Run(cfg, es').value, e);
      assert Trace(cfg, es)[..|es| - 1] == Trace(cfg, es');
    }
  }
}
