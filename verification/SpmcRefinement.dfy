/**
 Every run of the ring buffer is a run of a bounded FIFO queue of capacity Size() - 1.

 A push takes effect at the store of the write index, a pop that returns a value at its successful
 compare-and-swap, and a pop that returns nothing at its load of an equal index pair.
 */
module SpmcRefinement {
  import opened Wrappers
  import opened SpmcRing
  import opened SpmcInvariant

  datatype Label =
    | Internal
    | Enqueue(v: Value)
    | EnqueueBlocked
    | Dequeue(c: nat, v: Value)
    | DequeueNothing(c: nat)
    | Observe(c: nat, wasEmpty: bool)

  /** The abstract queue: None when the operation is impossible in this queue. */
  function QueueStep(capacity: nat, q: seq<Value>, l: Label): Option<seq<Value>> {
    match l
    case Internal => Some(q)
    case Enqueue(v) => if |q| < capacity then Some(q + [v]) else None
    case EnqueueBlocked => if |q| == capacity then Some(q) else None
    case Dequeue(_, v) => if q != [] && q[0] == v then Some(q[1..]) else None
    case DequeueNothing(_) => if q == [] then Some(q) else None
    case Observe(_, wasEmpty) => if wasEmpty == (q == []) then Some(q) else None
  }

  function QueueRun(capacity: nat, ls: seq<Label>): Option<seq<Value>> {
    if ls == [] then Some([])
    else
      var r := QueueRun(capacity, ls[..|ls| - 1]);
      if r.Some? then QueueStep(capacity, r.value, ls[|ls| - 1]) else None
  }

  /** What a caller sees happen at event e: the arguments and results actually passed. */
  function LabelOf(cfg: Config, s: State, e: Event): Label
    requires Enabled(cfg, s, e)
  {
    match e
    case LoadForPush => if s.rd == FullMark(cfg, s.wr) then EnqueueBlocked else Internal
    case Publish => Enqueue(Assemble(s.producer.got, cfg.width))
    case TestEmpty(c) => Observe(c, s.rd == s.wr)
    case LoadForPop(c) => if s.rd == s.wr then DequeueNothing(c) else Internal
    case Cas(c) =>
      if s.rd == s.consumers[c].pc.rdRaw then Dequeue(c, Assemble(s.consumers[c].pc.got, cfg.width)) else Internal
    case Finish => Internal
    case WriteWord(_) => Internal
    case StartReadBack => Internal
    case ReadBackWord(_) => Internal
    case TestDone(_) => Internal
    case CopyWord(_, _) => Internal
  }

  function Trace(cfg: Config, es: seq<Event>): (ls: seq<Label>)
    requires cfg.Valid() && Run(cfg, es).Some?
    ensures |ls| == |es|
  {
    if es == [] then []
    else
      var es', e := es[..|es| - 1], es[|es| - 1];
      Trace(cfg, es') + [LabelOf(cfg, Run(cfg, es').value, e)]
  }

  function Contents(cfg: Config, s: State): seq<Value>
    requires s.rd <= s.wr <= |cfg.inputs|
  {
    cfg.inputs[s.rd..s.wr]
  }

  lemma PublishAppends(cfg: Config, s: State)
    requires cfg.Valid() && Shape(cfg, s) && Enabled(cfg, s, Publish) && Inv(cfg, s)
    ensures Inv(cfg, ApplyProducer(cfg, s, Publish))
    ensures QueueStep(cfg.Size() - 1, Contents(cfg, s), LabelOf(cfg, s, Publish))
         == Some(Contents(cfg, ApplyProducer(cfg, s, Publish)))
  {
    hide WindowOk, HistoryOk, ConsumerOk, Assemble;
    PublishStep(cfg, s);
    EmplaceReturnsArgument(cfg, s);
    PublishResult(cfg, s);
    var v := cfg.inputs[s.wr];
    assert cfg.inputs[s.rd..s.wr + 1] == Contents(cfg, s) + [v];
  }

  lemma CasRemoves(cfg: Config, s: State, c: nat)
    requires cfg.Valid() && Shape(cfg, s) && Enabled(cfg, s, Cas(c)) && Inv(cfg, s)
    requires s.rd == s.consumers[c].pc.rdRaw
    ensures Inv(cfg, ApplyConsumer(cfg, s, Cas(c)))
    ensures QueueStep(cfg.Size() - 1, Contents(cfg, s), LabelOf(cfg, s, Cas(c)))
         == Some(Contents(cfg, ApplyConsumer(cfg, s, Cas(c))))
  {
    SuccessfulCas(cfg, s, c);
    CasReturnsOldest(cfg, s, c);
    CasResult(cfg, s, c);
    assert cfg.inputs[s.rd + 1..s.wr] == Contents(cfg, s)[1..];
  }

  lemma ProducerQuiet(cfg: Config, s: State, e: Event)
    requires cfg.Valid() && Shape(cfg, s) && Enabled(cfg, s, e) && ByProducer(e) && !e.Publish?
    ensures ApplyProducer(cfg, s, e).rd == s.rd && ApplyProducer(cfg, s, e).wr == s.wr
  {
  }

  lemma ConsumerQuiet(cfg: Config, s: State, e: Event)
    requires Shape(cfg, s) && Enabled(cfg, s, e) && !ByProducer(e)
    requires e.Cas? ==> s.rd != s.consumers[e.c].pc.rdRaw
    ensures ApplyConsumer(cfg, s, e).rd == s.rd && ApplyConsumer(cfg, s, e).wr == s.wr
  {
  }

  /** A label that leaves the queue alone describes it truthfully. */
  lemma QuietLabel(cfg: Config, s: State, e: Event)
    requires cfg.Valid() && Shape(cfg, s) && Enabled(cfg, s, e) && IndicesOk(cfg, s) && !e.Publish?
    requires e.Cas? ==> s.rd != s.consumers[e.c].pc.rdRaw
    ensures QueueStep(cfg.Size() - 1, Contents(cfg, s), LabelOf(cfg, s, e)) == Some(Contents(cfg, s))
  {
    FullMarkExact(cfg, s);
  }

  /** One concrete step is one step of the queue. */
  lemma StepRefines(cfg: Config, s: State, e: Event)
    requires cfg.Valid() && Shape(cfg, s) && Enabled(cfg, s, e) && Inv(cfg, s)
    ensures Inv(cfg, Apply(cfg, s, e))
    ensures QueueStep(cfg.Size() - 1, Contents(cfg, s), LabelOf(cfg, s, e)) == Some(Contents(cfg, Apply(cfg, s, e)))
  {
    if e.Publish? {
      PublishAppends(cfg, s);
    } else if ByProducer(e) {
      ProducerStep(cfg, s, e);
      ProducerQuiet(cfg, s, e);
      QuietLabel(cfg, s, e);
    } else if e.Cas? && s.rd == s.consumers[e.c].pc.rdRaw {
      CasRemoves(cfg, s, e.c);
    } else {
      ConsumerStep(cfg, s, e);
      ConsumerQuiet(cfg, s, e);
      QuietLabel(cfg, s, e);
    }
  }

  /** Refinement over whole runs: every interleaving is an execution of the bounded queue. */
  lemma {:induction false} RefinesQueue(cfg: Config, es: seq<Event>)
    requires cfg.Valid() && Run(cfg, es).Some?
    ensures Inv(cfg, Run(cfg, es).value)
    ensures QueueRun(cfg.Size() - 1, Trace(cfg, es)) == Some(Contents(cfg, Run(cfg, es).value))
  {
    if es == [] {
      InitInv(cfg);
    } else {
      var es', e := es[..|es| - 1], es[|es| - 1];
      RefinesQueue(cfg, es');
      StepRefines(cfg, Run(cfg, es').value, e);
      assert Trace(cfg, es)[..|es| - 1] == Trace(cfg, es');
    }
  }

  /** No assertion of `emplace`, `pop`, `empty` or `finish` ever fails. */
  lemma AssertionsHold(cfg: Config, es: seq<Event>)
    requires cfg.Valid() && Run(cfg, es).Some?
    ensures !Run(cfg, es).value.assertFailed
    ensures Run(cfg, es).value.rd <= Run(cfg, es).value.wr
  {
    RunInv(cfg, es);
  }

  /** The values returned, in the order of the compare-and-swaps, are a prefix of the values pushed. */
  lemma PoppedIsPrefix(cfg: Config, es: seq<Event>)
    requires cfg.Valid() && Run(cfg, es).Some?
    ensures Run(cfg, es).value.popped <= Run(cfg, es).value.echoed <= cfg.inputs
    ensures |Run(cfg, es).value.echoed| - |Run(cfg, es).value.popped| < cfg.Size()
  {
    RunInv(cfg, es);
  }

  /**
   Whatever the producer overwrote during a copy: if the compare-and-swap that follows succeeds, the
   copy is the value pushed at that index, and a copy that differs from it in any word must fail.
   */
  lemma PopIsUntorn(cfg: Config, es: seq<Event>, c: nat)
    requires cfg.Valid() && Run(cfg, es).Some? && Enabled(cfg, Run(cfg, es).value, Cas(c))
    ensures var s := Run(cfg, es).value;
      var pc := s.consumers[c].pc;
      && pc.rdRaw < |cfg.inputs|
      && (s.rd == pc.rdRaw ==> Assemble(pc.got, cfg.width) == cfg.inputs[pc.rdRaw])
      && (Assemble(pc.got, cfg.width) != cfg.inputs[pc.rdRaw] ==>
            Apply(cfg, s, Cas(c)) == SetPc(s, c, LoadPair).(casFailures := s.casFailures + 1))
  {
    RunInv(cfg, es);
    var s := Run(cfg, es).value;
    assert ConsumerOk(cfg, s, s.consumers[c].pc);
    if s.rd == s.consumers[c].pc.rdRaw {
      CasReturnsOldest(cfg, s, c);
    }
  }

  /** The values that the dequeues of consumer c return along a trace. */
  function DequeuedBy(ls: seq<Label>, c: nat): seq<Value> {
    if ls == [] then []
    else
      var l := ls[|ls| - 1];
      DequeuedBy(ls[..|ls| - 1], c) + if l.Dequeue? && l.c == c then [l.v] else []
  }

  lemma StepResults(cfg: Config, s: State, e: Event, c: nat)
    requires cfg.Valid() && Shape(cfg, s) && Enabled(cfg, s, e) && c < |s.consumers|
    ensures var s' := Apply(cfg, s, e);
      var l := LabelOf(cfg, s, e);
      && |s'.consumers| == |s.consumers|
      && s'.consumers[c].results == s.consumers[c].results + if l.Dequeue? && l.c == c then [l.v] else []
  {
    if ByProducer(e) {
      assert ApplyProducer(cfg, s, e).consumers == s.consumers;
    }
  }

  /** A consumer's result list is what its own dequeues returned. */
  lemma {:induction false} ResultsAreDequeues(cfg: Config, es: seq<Event>, c: nat)
    requires cfg.Valid() && Run(cfg, es).Some? && c < cfg.consumers
    ensures |Run(cfg, es).value.consumers| == cfg.consumers
    ensures Run(cfg, es).value.consumers[c].results == DequeuedBy(Trace(cfg, es), c)
  {
    if es != [] {
      var es', e := es[..|es| - 1], es[|es| - 1];
      ResultsAreDequeues(cfg, es', c);
      StepResults(cfg, Run(cfg, es').value, e, c);
      assert Trace(cfg, es)[..|es| - 1] == Trace(cfg, es');
    }
  }
}
