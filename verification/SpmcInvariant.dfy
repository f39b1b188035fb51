/** What every reachable state of the ring buffer satisfies. */
module SpmcInvariant {
  import opened Bits
  import opened Wrappers
  import opened SpmcRing

  /** The words in `got` all come from `value`. */
  ghost predicate Agrees(got: Partial, value: Value) {
    forall k | k in got :: k < |value| && got[k] == value[k]
  }

  /** The values consumer c took, in order, when `log` names the consumer of each dequeue. */
  function Picked(log: seq<nat>, inputs: seq<Value>, c: nat): seq<Value>
    requires |log| <= |inputs|
  {
    if log == [] then []
    else
      var m := |log| - 1;
      Picked(log[..m], inputs, c) + if log[m] == c then [inputs[m]] else []
  }

  ghost predicate IndicesOk(cfg: Config, s: State) {
    && s.rd <= s.wr <= |cfg.inputs|
    && s.wr - s.rd < cfg.Size()
    && s.next == s.wr
    && !s.assertFailed
  }

  /** Every published and not yet taken value is whole in its slot. */
  ghost predicate WindowOk(cfg: Config, s: State)
    requires Shape(cfg, s) && IndicesOk(cfg, s)
  {
    forall v: nat | s.rd <= v < s.wr :: s.mem[cfg.Slot(v)] == cfg.inputs[v]
  }

  ghost predicate ProducerOk(cfg: Config, s: State)
    requires Shape(cfg, s) && IndicesOk(cfg, s)
  {
    && (s.done <==> s.producer.Finished?)
    && match s.producer
       case Load => true
       case Finished => s.wr == |cfg.inputs|
       case Write(wrRaw, written) =>
         && wrRaw == s.wr < |cfg.inputs|
         && s.wr - s.rd < cfg.Size() - 1
         && |cfg.inputs[s.wr]| == cfg.width
         && forall k | k in written :: k < cfg.width && s.mem[cfg.Slot(s.wr)][k] == cfg.inputs[s.wr][k]
       case ReadBack(wrRaw, got) =>
         && wrRaw == s.wr < |cfg.inputs|
         && s.wr - s.rd < cfg.Size() - 1
         && s.mem[cfg.Slot(s.wr)] == cfg.inputs[s.wr]
         && Agrees(got, cfg.inputs[s.wr])
  }

  /** A copy may be torn only once another consumer has moved the read index past it. */
  ghost predicate ConsumerOk(cfg: Config, s: State, pc: ConsumerPc)
    requires IndicesOk(cfg, s)
  {
    match pc
    case ReadDone => true
    case ReadEmpty => s.done
    case LoadPair => true
    case Copy(rdRaw, got) => rdRaw <= s.rd && rdRaw < s.wr && (rdRaw == s.rd ==> Agrees(got, cfg.inputs[rdRaw]))
    case Exited => s.done && s.rd == s.wr
  }

  ghost predicate HistoryOk(cfg: Config, s: State)
    requires IndicesOk(cfg, s)
  {
    && s.popped == cfg.inputs[..s.rd]
    && s.echoed == cfg.inputs[..s.wr]
    && |s.log| == s.rd
    && (forall i | 0 <= i < |s.log| :: s.log[i] < cfg.consumers)
    && |s.consumers| == cfg.consumers
    && forall c: nat | c < |s.consumers| :: s.consumers[c].results == Picked(s.log, cfg.inputs, c)
  }

  ghost predicate Inv(cfg: Config, s: State)
    requires Shape(cfg, s)
  {
    && IndicesOk(cfg, s)
    && WindowOk(cfg, s)
    && ProducerOk(cfg, s)
    && (forall c: nat | c < |s.consumers| :: ConsumerOk(cfg, s, s.consumers[c].pc))
    && HistoryOk(cfg, s)
  }

  lemma AssembleWhole(got: Partial, value: Value)
    requires Complete(got, |value|) && Agrees(got, value)
    ensures Assemble(got, |value|) == value
  {
  }

  /** The wrapping test for a full buffer is exact, also while the mark wraps below zero. */
  lemma FullMarkExact(cfg: Config, s: State)
    requires cfg.Valid() && Shape(cfg, s) && IndicesOk(cfg, s)
    ensures s.rd == FullMark(cfg, s.wr) <==> s.wr - s.rd == cfg.Size() - 1
  {
    FullTestExact(s.rd, s.wr, cfg.Size());
  }

  lemma SlotsDiffer(cfg: Config, v: nat, w: nat)
    requires v < w < v + cfg.Size()
    ensures cfg.Slot(v) != cfg.Slot(w)
  {
    ModDistinct(v, w, cfg.Size());
  }

  lemma LoadForPushStep(cfg: Config, s: State)
    requires cfg.Valid() && Shape(cfg, s) && Enabled(cfg, s, LoadForPush) && Inv(cfg, s)
    ensures Inv(cfg, ApplyProducer(cfg, s, LoadForPush))
  {
    FullMarkExact(cfg, s);
    assert cfg.inputs[s.wr] in cfg.inputs;
  }

  lemma WriteWordStep(cfg: Config, s: State, k: nat)
    requires cfg.Valid() && Shape(cfg, s) && Enabled(cfg, s, WriteWord(k)) && Inv(cfg, s)
    ensures Inv(cfg, ApplyProducer(cfg, s, WriteWord(k)))
  {
    var s' := ApplyProducer(cfg, s, WriteWord(k));
    forall v: nat | s.rd <= v < s.wr
      ensures s'.mem[cfg.Slot(v)] == cfg.inputs[v]
    {
      SlotsDiffer(cfg, v, s.wr);
    }
    assert WindowOk(cfg, s');
    assert s.mem[cfg.Slot(s.wr)] in s.mem;
    assert ProducerOk(cfg, s');
  }

  lemma StartReadBackStep(cfg: Config, s: State)
    requires cfg.Valid() && Shape(cfg, s) && Enabled(cfg, s, StartReadBack) && Inv(cfg, s)
    ensures Inv(cfg, ApplyProducer(cfg, s, StartReadBack))
  {
    var slot := s.mem[cfg.Slot(s.wr)];
    assert slot in s.mem;
    assert slot == cfg.inputs[s.wr];
  }

  lemma ReadBackWordStep(cfg: Config, s: State, k: nat)
    requires cfg.Valid() && Shape(cfg, s) && Enabled(cfg, s, ReadBackWord(k)) && Inv(cfg, s)
    ensures Inv(cfg, ApplyProducer(cfg, s, ReadBackWord(k)))
  {
    assert s.mem[cfg.Slot(s.wr)] in s.mem;
  }

  /** `emplace` returns the value it was given. */
  lemma EmplaceReturnsArgument(cfg: Config, s: State)
    requires cfg.Valid() && Shape(cfg, s) && Enabled(cfg, s, Publish) && Inv(cfg, s)
    ensures s.wr < |cfg.inputs| && Assemble(s.producer.got, cfg.width) == cfg.inputs[s.wr]
  {
    assert s.mem[cfg.Slot(s.wr)] in s.mem;
    AssembleWhole(s.producer.got, cfg.inputs[s.wr]);
  }

  /** Publishing makes the value in the slot the newest queued value. */
  lemma PublishStep(cfg: Config, s: State)
    requires cfg.Valid() && Shape(cfg, s) && Enabled(cfg, s, Publish) && Inv(cfg, s)
    ensures Inv(cfg, ApplyProducer(cfg, s, Publish))
  {
    EmplaceReturnsArgument(cfg, s);
    PublishResult(cfg, s);
    PublishKeeps(cfg, s, cfg.inputs[s.wr]);
  }

  lemma PublishResult(cfg: Config, s: State)
    requires cfg.Valid() && Shape(cfg, s) && Enabled(cfg, s, Publish) && s.producer.wrRaw == s.wr < |cfg.inputs|
    requires Assemble(s.producer.got, cfg.width) == cfg.inputs[s.wr]
    ensures ApplyProducer(cfg, s, Publish)
         == s.(wr := s.wr + 1, next := s.next + 1, echoed := s.echoed + [cfg.inputs[s.wr]], producer := Load)
  {
    ModUnique(s.wr + 1, TWO_TO_64, 0, s.wr + 1);
  }

  lemma PublishKeeps(cfg: Config, s: State, v: Value)
    requires Shape(cfg, s) && Inv(cfg, s) && s.producer.ReadBack? && v == cfg.inputs[s.wr]
    ensures var s' := s.(wr := s.wr + 1, next := s.next + 1, echoed := s.echoed + [v], producer := Load);
      Shape(cfg, s') && Inv(cfg, s')
  {
    var s' := s.(wr := s.wr + 1, next := s.next + 1, echoed := s.echoed + [v], producer := Load);
    assert cfg.inputs[..s.wr + 1] == cfg.inputs[..s.wr] + [cfg.inputs[s.wr]];
    assert HistoryOk(cfg, s');
    forall c: nat | c < |s'.consumers|
      ensures ConsumerOk(cfg, s', s'.consumers[c].pc)
    {
      assert ConsumerOk(cfg, s, s.consumers[c].pc);
    }
  }

  lemma ProducerStep(cfg: Config, s: State, e: Event)
    requires cfg.Valid() && Shape(cfg, s) && Enabled(cfg, s, e) && ByProducer(e) && Inv(cfg, s)
    ensures Inv(cfg, ApplyProducer(cfg, s, e))
  {
    match e
    case Finish =>
    case LoadForPush => LoadForPushStep(cfg, s);
    case WriteWord(k) => WriteWordStep(cfg, s, k);
    case StartReadBack => StartReadBackStep(cfg, s);
    case ReadBackWord(k) => ReadBackWordStep(cfg, s, k);
    case Publish => PublishStep(cfg, s);
  }

  /** Moving one consumer to a good program point keeps the invariant. */
  lemma SetPcStep(cfg: Config, s: State, c: nat, pc: ConsumerPc, casFailures: nat)
    requires Shape(cfg, s) && Inv(cfg, s) && c < |s.consumers| && ConsumerOk(cfg, s, pc)
    ensures Shape(cfg, SetPc(s, c, pc).(casFailures := casFailures))
    ensures Inv(cfg, SetPc(s, c, pc).(casFailures := casFailures))
  {
    var s' := SetPc(s, c, pc).(casFailures := casFailures);
    assert HistoryOk(cfg, s');
  }

  lemma FailedCas(cfg: Config, s: State, c: nat)
    requires cfg.Valid() && Shape(cfg, s) && Enabled(cfg, s, Cas(c)) && Inv(cfg, s)
    requires s.rd != s.consumers[c].pc.rdRaw
    ensures Inv(cfg, ApplyConsumer(cfg, s, Cas(c)))
  {
    SetPcStep(cfg, s, c, LoadPair, s.casFailures + 1);
  }

  /** The loads of `done` and of the index pair. */
  lemma LoadStep(cfg: Config, s: State, e: Event)
    requires cfg.Valid() && Shape(cfg, s) && Enabled(cfg, s, e) && Inv(cfg, s)
    requires e.TestDone? || e.TestEmpty? || e.LoadForPop?
    ensures Inv(cfg, ApplyConsumer(cfg, s, e))
  {
    SetPcStep(cfg, s, e.c, ApplyConsumer(cfg, s, e).consumers[e.c].pc, s.casFailures);
  }

  lemma ConsumerStep(cfg: Config, s: State, e: Event)
    requires cfg.Valid() && Shape(cfg, s) && Enabled(cfg, s, e) && !ByProducer(e) && Inv(cfg, s)
    ensures Inv(cfg, ApplyConsumer(cfg, s, e))
  {
    if e.CopyWord? {
      CopyWordStep(cfg, s, e.c, e.k);
    } else if !e.Cas? {
      LoadStep(cfg, s, e);
    } else if s.rd == s.consumers[e.c].pc.rdRaw {
      SuccessfulCas(cfg, s, e.c);
    } else {
      FailedCas(cfg, s, e.c);
    }
  }

  lemma CopyWordStep(cfg: Config, s: State, c: nat, k: nat)
    requires cfg.Valid() && Shape(cfg, s) && Enabled(cfg, s, CopyWord(c, k)) && Inv(cfg, s)
    ensures Inv(cfg, ApplyConsumer(cfg, s, CopyWord(c, k)))
  {
    var pc := s.consumers[c].pc;
    assert ConsumerOk(cfg, s, pc);
    var pc' := Copy(pc.rdRaw, pc.got[k := s.mem[cfg.Slot(pc.rdRaw)][k]]);
    if pc.rdRaw == s.rd {
      assert s.mem[cfg.Slot(s.rd)] == cfg.inputs[s.rd];
      assert s.mem[cfg.Slot(s.rd)] in s.mem;
      assert Agrees(pc'.got, cfg.inputs[s.rd]);
    }
    SetPcStep(cfg, s, c, pc', s.casFailures);
  }

  /** The compare-and-swap succeeds only on an untorn copy of the oldest value. */
  lemma CasReturnsOldest(cfg: Config, s: State, c: nat)
    requires cfg.Valid() && Shape(cfg, s) && Enabled(cfg, s, Cas(c)) && Inv(cfg, s)
    requires s.rd == s.consumers[c].pc.rdRaw
    ensures s.rd < s.wr
    ensures Assemble(s.consumers[c].pc.got, cfg.width) == cfg.inputs[s.rd]
  {
    assert ConsumerOk(cfg, s, s.consumers[c].pc);
    assert cfg.inputs[s.rd] in cfg.inputs;
    AssembleWhole(s.consumers[c].pc.got, cfg.inputs[s.rd]);
  }

  lemma PickOne(log: seq<nat>, inputs: seq<Value>, c: nat, d: nat)
    requires |log| < |inputs|
    ensures Picked(log + [c], inputs, d)
         == Picked(log, inputs, d) + if c == d then [inputs[|log|]] else []
  {
    assert (log + [c])[..|log|] == log;
  }

  /** Handing the oldest value to consumer c keeps the histories in step. */
  lemma CasHistory(cfg: Config, s: State, s': State, c: nat)
    requires Shape(cfg, s) && Inv(cfg, s) && c < |s.consumers| && s.rd < s.wr
    requires s' == s.(rd := s.rd + 1,
                      consumers := s.consumers[c := Consumer(ReadDone, s.consumers[c].results + [cfg.inputs[s.rd]])],
                      popped := s.popped + [cfg.inputs[s.rd]], log := s.log + [c])
    ensures IndicesOk(cfg, s') && HistoryOk(cfg, s')
  {
    assert cfg.inputs[..s.rd + 1] == cfg.inputs[..s.rd] + [cfg.inputs[s.rd]];
    forall d: nat | d < |s'.consumers|
      ensures s'.consumers[d].results == Picked(s'.log, cfg.inputs, d)
    {
      PickOne(s.log, cfg.inputs, c, d);
    }
  }

  lemma CasResult(cfg: Config, s: State, c: nat)
    requires cfg.Valid() && Shape(cfg, s) && Enabled(cfg, s, Cas(c)) && s.rd < |cfg.inputs|
    requires s.rd == s.consumers[c].pc.rdRaw && Assemble(s.consumers[c].pc.got, cfg.width) == cfg.inputs[s.rd]
    ensures ApplyConsumer(cfg, s, Cas(c))
         == s.(rd := s.rd + 1,
               consumers := s.consumers[c := Consumer(ReadDone, s.consumers[c].results + [cfg.inputs[s.rd]])],
               popped := s.popped + [cfg.inputs[s.rd]], log := s.log + [c])
  {
    ModUnique(s.rd + 1, TWO_TO_64, 0, s.rd + 1);
  }

  lemma SuccessfulCas(cfg: Config, s: State, c: nat)
    requires cfg.Valid() && Shape(cfg, s) && Enabled(cfg, s, Cas(c)) && Inv(cfg, s)
    requires s.rd == s.consumers[c].pc.rdRaw
    ensures Inv(cfg, ApplyConsumer(cfg, s, Cas(c)))
  {
    var s' := ApplyConsumer(cfg, s, Cas(c));
    CasReturnsOldest(cfg, s, c);
    CasResult(cfg, s, c);
    CasHistory(cfg, s, s', c);
    forall d: nat | d < |s'.consumers|
      ensures ConsumerOk(cfg, s', s'.consumers[d].pc)
    {
      assert ConsumerOk(cfg, s, s.consumers[d].pc);
    }
  }

  lemma InitInv(cfg: Config)
    requires cfg.Valid()
    ensures Inv(cfg, Init(cfg))
  {
  }

  /** Every reachable state satisfies the invariant. */
  lemma {:induction false} RunInv(cfg: Config, es: seq<Event>)
    requires cfg.Valid() && Run(cfg, es).Some?
    ensures Inv(cfg, Run(cfg, es).value)
  {
    if es == [] {
      InitInv(cfg);
    } else {
      var es', e := es[..|es| - 1], es[|es| - 1];
      RunInv(cfg, es');
      if ByProducer(e) {
        ProducerStep(cfg, Run(cfg, es').value, e);
      } else {
        ConsumerStep(cfg, Run(cfg, es').value, e);
      }
    }
  }
}
