/** No thread of the harness can be caught: whatever has happened, all of them can still return. */
module SpmcProgress {
  import opened Wrappers
  import opened SpmcRing
  import opened SpmcInvariant
  import opened SpmcHarness

  /** How many of the first w words are still to be transferred. */
  function Missing(ks: set<nat>, w: nat): (n: nat)
    ensures n <= w
  {
    if w == 0 then 0 else Missing(ks, w - 1) + if w - 1 in ks then 0 else 1
  }

  lemma {:induction false} MissingOneLess(ks: set<nat>, w: nat, k: nat)
    requires k !in ks
    ensures Missing(ks + {k}, w) == Missing(ks, w) - if k < w then 1 else 0
  {
    if w != 0 {
      MissingOneLess(ks, w - 1, k);
    }
  }

  // What a thread has left to do before it publishes, takes or returns

  function ProducerRank(cfg: Config, pc: ProducerPc): nat {
    match pc
    case Load => 2 * cfg.width + 4
    case Write(_, written) => cfg.width + 3 + Missing(written, cfg.width)
    case ReadBack(_, got) => 1 + Missing(got.Keys, cfg.width)
    case Finished => 0
  }

  function ConsumerRank(cfg: Config, s: State, pc: ConsumerPc): nat {
    match pc
    case Exited => 0
    case ReadEmpty => if s.rd == s.wr then 1 else cfg.width + 3
    case ReadDone => if s.rd == s.wr then 2 else cfg.width + 4
    case LoadPair => if s.rd == s.wr then 3 else cfg.width + 2
    case Copy(rdRaw, got) => (if rdRaw == s.rd then 1 else cfg.width + 6) + Missing(got.Keys, cfg.width)
  }

  /** The first consumer from c on that has not returned. */
  function FirstRunning(cs: seq<Consumer>, c: nat): (f: nat)
    requires c <= |cs|
    ensures c <= f <= |cs|
    ensures forall d | c <= d < f :: cs[d].pc.Exited?
    ensures f < |cs| ==> !cs[f].pc.Exited?
    decreases |cs| - c
  {
    if c == |cs| || !cs[c].pc.Exited? then c else FirstRunning(cs, c + 1)
  }

  function First(s: State): (f: nat)
    ensures f <= |s.consumers|
  {
    FirstRunning(s.consumers, 0)
  }

  function FirstRank(cfg: Config, s: State): nat {
    if First(s) < |s.consumers| then ConsumerRank(cfg, s, s.consumers[First(s)].pc) else 0
  }

  /** Lexicographically: values to push, values queued, the producer's rank, running consumers, their first's rank. */
  ghost predicate Closer(cfg: Config, s: State, s': State)
    requires IndicesOk(cfg, s)
  {
    && s.rd <= s.wr
    && IndicesOk(cfg, s')
    && if s'.wr != s.wr then s'.wr > s.wr
       else if s'.rd != s.rd then s'.rd > s.rd
       else if s'.producer != s.producer then ProducerRank(cfg, s'.producer) < ProducerRank(cfg, s.producer)
       else
         && |s'.consumers| == |s.consumers|
         && (First(s') > First(s) || (First(s') == First(s) && FirstRank(cfg, s') < FirstRank(cfg, s)))
  }

  ghost predicate Stuck(cfg: Config, s: State) {
    s.producer.Load? && s.next < |cfg.inputs| && s.rd == FullMark(cfg, s.wr)
  }

  lemma ProducerNext(cfg: Config, s: State) returns (e: Event)
    requires cfg.Valid() && Shape(cfg, s) && Inv(cfg, s) && !s.producer.Finished? && !Stuck(cfg, s)
    ensures Enabled(cfg, s, e) && ByProducer(e)
    ensures Closer(cfg, s, ApplyProducer(cfg, s, e))
  {
    hide WindowOk, HistoryOk, ConsumerOk, FullMark;
    match s.producer
    case Load =>
      e := if s.next < |cfg.inputs| then LoadForPush else Finish;
      ProducerStep(cfg, s, e);
    case Write(_, written) =>
      if k: nat :| k < cfg.width && k !in written {
        e := WriteWord(k);
        MissingOneLess(written, cfg.width, k);
      } else {
        e := StartReadBack;
      }
      ProducerStep(cfg, s, e);
    case ReadBack(wrRaw, got) =>
      if k: nat :| k < cfg.width && k !in got {
        e := ReadBackWord(k);
        ReadBackCloser(cfg, s, k);
      } else {
        e := Publish;
        PublishStep(cfg, s);
        EmplaceReturnsArgument(cfg, s);
        PublishResult(cfg, s);
      }
  }

  lemma ReadBackCloser(cfg: Config, s: State, k: nat)
    requires cfg.Valid() && Shape(cfg, s) && Inv(cfg, s) && Enabled(cfg, s, ReadBackWord(k))
    ensures Closer(cfg, s, ApplyProducer(cfg, s, ReadBackWord(k)))
  {
    hide WindowOk, HistoryOk, ConsumerOk;
    var got, s' := s.producer.got, ApplyProducer(cfg, s, ReadBackWord(k));
    ProducerStep(cfg, s, ReadBackWord(k));
    MissingOneLess(got.Keys, cfg.width, k);
    assert s'.producer.got.Keys == got.Keys + {k};
  }

  lemma CopyNext(cfg: Config, s: State, c: nat) returns (e: Event)
    requires cfg.Valid() && Shape(cfg, s) && Inv(cfg, s) && c == First(s) < |s.consumers|
    requires s.consumers[c].pc.Copy?
    ensures Enabled(cfg, s, e) && !ByProducer(e)
    ensures Closer(cfg, s, ApplyConsumer(cfg, s, e))
  {
    hide Inv, First, Closer;
    var got := s.consumers[c].pc.got;
    if k: nat :| k < cfg.width && k !in got {
      e := CopyWord(c, k);
      MissingOneLess(got.Keys, cfg.width, k);
      assert ApplyConsumer(cfg, s, e).consumers[c].pc.got.Keys == got.Keys + {k};
      PcCloser(cfg, s, c, e);
    } else {
      e := Cas(c);
      if s.consumers[c].pc.rdRaw == s.rd {
        TakeCloser(cfg, s, c);
      } else {
        PcCloser(cfg, s, c, e);
      }
    }
  }

  /** The first running consumer's next access, when there is something to take or nothing more to come. */
  lemma ConsumerNext(cfg: Config, s: State) returns (e: Event)
    requires cfg.Valid() && Shape(cfg, s) && Inv(cfg, s) && First(s) < |s.consumers|
    requires s.done || s.rd < s.wr
    ensures Enabled(cfg, s, e) && !ByProducer(e)
    ensures Closer(cfg, s, ApplyConsumer(cfg, s, e))
  {
    hide Inv, Closer;
    var c := First(s);
    if s.consumers[c].pc.Copy? {
      e := CopyNext(cfg, s, c);
    } else {
      e := if s.consumers[c].pc.ReadDone? then TestDone(c)
           else if s.consumers[c].pc.ReadEmpty? then TestEmpty(c) else LoadForPop(c);
      PcCloser(cfg, s, c, e);
    }
  }

  lemma TakeCloser(cfg: Config, s: State, c: nat)
    requires cfg.Valid() && Shape(cfg, s) && Inv(cfg, s) && Enabled(cfg, s, Cas(c)) && s.consumers[c].pc.rdRaw == s.rd
    ensures Closer(cfg, s, ApplyConsumer(cfg, s, Cas(c)))
  {
    hide WindowOk, ProducerOk, HistoryOk, Assemble;
    SuccessfulCas(cfg, s, c);
    CasReturnsOldest(cfg, s, c);
    CasResult(cfg, s, c);
  }

  lemma PcCloser(cfg: Config, s: State, c: nat, e: Event)
    requires cfg.Valid() && Shape(cfg, s) && Inv(cfg, s) && Enabled(cfg, s, e) && !ByProducer(e)
    requires c == e.c == First(s) < |s.consumers|
    requires e.Cas? ==> s.rd != s.consumers[c].pc.rdRaw
    requires var s' := ApplyConsumer(cfg, s, e);
      |s'.consumers| == |s.consumers|
      && ConsumerRank(cfg, s, s'.consumers[c].pc) < ConsumerRank(cfg, s, s.consumers[c].pc)
    ensures Closer(cfg, s, ApplyConsumer(cfg, s, e))
  {
    hide WindowOk, ProducerOk, HistoryOk, ConsumerOk, ConsumerRank;
    var s' := ApplyConsumer(cfg, s, e);
    ConsumerStep(cfg, s, e);
    assert forall d | 0 <= d < |s.consumers| && d != c :: s'.consumers[d] == s.consumers[d];
    assert s'.rd == s.rd && s'.wr == s.wr && s'.producer == s.producer;
    assert First(s') >= c;
    assert First(s') == c ==> ConsumerRank(cfg, s', s'.consumers[c].pc) == ConsumerRank(cfg, s, s'.consumers[c].pc) by {
      SameRank(cfg, s, s', s'.consumers[c].pc);
    }
  }

  lemma SameRank(cfg: Config, s: State, s': State, pc: ConsumerPc)
    requires s'.rd == s.rd && s'.wr == s.wr
    ensures ConsumerRank(cfg, s', pc) == ConsumerRank(cfg, s, pc)
  {
  }

  /** A state that is not final has an enabled event that leads closer to the end. */
  lemma NextEvent(cfg: Config, s: State) returns (e: Event)
    requires cfg.Valid() && cfg.consumers >= 1 && (cfg.Size() >= 2 || cfg.inputs == [])
    requires Shape(cfg, s) && Inv(cfg, s) && !Terminated(s)
    ensures Enabled(cfg, s, e)
    ensures Closer(cfg, s, Apply(cfg, s, e))
  {
    hide WindowOk, FullMark, Closer;
    if s.producer.Finished? {
      assert First(s) < |s.consumers|;
      e := ConsumerNext(cfg, s);
    } else if Stuck(cfg, s) {
      FullMarkExact(cfg, s);
      NobodyExited(cfg, s);
      e := ConsumerNext(cfg, s);
    } else {
      e := ProducerNext(cfg, s);
    }
  }

  lemma NobodyExited(cfg: Config, s: State)
    requires Shape(cfg, s) && Inv(cfg, s) && !s.done && cfg.consumers >= 1
    ensures First(s) == 0 < |s.consumers|
  {
    assert ConsumerOk(cfg, s, s.consumers[0].pc);
  }

  lemma RunOneMore(cfg: Config, es: seq<Event>, e: Event)
    requires cfg.Valid() && Run(cfg, es).Some? && Enabled(cfg, Run(cfg, es).value, e)
    ensures Run(cfg, es + [e]) == Some(Apply(cfg, Run(cfg, es).value, e))
  {
    assert (es + [e])[..|es|] == es;
  }

  lemma InRange(cfg: Config, es: seq<Event>, s: State)
    requires cfg.Valid() && Run(cfg, es) == Some(s)
    ensures Shape(cfg, s) && Inv(cfg, s) && IndicesOk(cfg, s) && s.rd <= s.wr <= |cfg.inputs|
  {
    RunInv(cfg, es);
  }

  lemma {:induction false} FinishFrom(cfg: Config, es: seq<Event>, s: State) returns (rest: seq<Event>)
    requires cfg.Valid() && cfg.consumers >= 1 && (cfg.Size() >= 2 || cfg.inputs == [])
    requires Run(cfg, es) == Some(s)
    ensures Run(cfg, es + rest).Some? && Terminated(Run(cfg, es + rest).value)
    decreases |cfg.inputs| - s.wr, s.wr - s.rd, ProducerRank(cfg, s.producer), |s.consumers| - First(s),
              FirstRank(cfg, s)
  {
    hide ProducerRank, First, FirstRank, Inv, IndicesOk, Apply, Enabled, Run, Terminated, Shape;
    InRange(cfg, es, s);
    if Terminated(s) {
      rest := [];
      assert es + rest == es;
    } else {
      var e := NextEvent(cfg, s);
      var s' := Apply(cfg, s, e);
      RunOneMore(cfg, es, e);
      InRange(cfg, es + [e], s');
      var rest' := FinishFrom(cfg, es + [e], s');
      rest := [e] + rest';
      assert es + rest == (es + [e]) + rest';
    }
  }

  /** Every run can be completed: no interleaving leads to a state from which some thread cannot return. */
  lemma CanFinish(cfg: Config, es: seq<Event>) returns (rest: seq<Event>)
    requires cfg.Valid() && cfg.consumers >= 1 && (cfg.Size() >= 2 || cfg.inputs == [])
    requires Run(cfg, es).Some?
    ensures Run(cfg, es + rest).Some? && Terminated(Run(cfg, es + rest).value)
  {
    rest := FinishFrom(cfg, es, Run(cfg, es).value);
  }

  /** With a single slot, which must stay empty, nothing is ever pushed. */
  lemma {:induction false} OneSlotBlocks(cfg: Config, es: seq<Event>)
    requires cfg.Valid() && cfg.Size() == 1 && Run(cfg, es).Some?
    ensures Run(cfg, es).value.wr == 0
  {
    hide WindowOk, ConsumerOk, HistoryOk;
    if es != [] {
      var es', e := es[..|es| - 1], es[|es| - 1];
      OneSlotBlocks(cfg, es');
      RunInv(cfg, es');
    }
  }

  /** All threads of the harness can return exactly when a value can be queued at all, or none has to be. */
  lemma CanFinishIff(cfg: Config)
    requires cfg.Valid() && cfg.consumers >= 1
    ensures (exists es :: Run(cfg, es).Some? && Terminated(Run(cfg, es).value))
       <==> cfg.Size() >= 2 || cfg.inputs == []
  {
    if cfg.Size() >= 2 || cfg.inputs == [] {
      assert Run(cfg, []).Some?;
      var rest := CanFinish(cfg, []);
      assert [] + rest == rest;
    } else {
      forall es | Run(cfg, es).Some?
        ensures !Terminated(Run(cfg, es).value)
      {
        OneSlotBlocks(cfg, es);
        RunInv(cfg, es);
      }
    }
  }
}
