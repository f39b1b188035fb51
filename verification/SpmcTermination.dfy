/**
 A bound on the work of any run, and what follows: under every fair scheduler the harness terminates.

 An access is idle when it leaves a thread waiting: a push that finds the buffer full, a test of `done`
 that fails, a pop that finds nothing. Every other access is work.
 */
module SpmcTermination {
  import opened Wrappers
  import opened SpmcRing
  import opened SpmcInvariant
  import opened SpmcHarness
  import opened SpmcProgress

  predicate Idle(cfg: Config, s: State, e: Event) {
    || (e.LoadForPush? && s.rd == FullMark(cfg, s.wr))
    || (e.TestDone? && !s.done)
    || (e.LoadForPop? && s.rd == s.wr)
  }

  function WorkCount(cfg: Config, es: seq<Event>): nat
    requires cfg.Valid() && Run(cfg, es).Some?
  {
    if es == [] then 0
    else
      var es', e := es[..|es| - 1], es[|es| - 1];
      WorkCount(cfg, es') + if Idle(cfg, Run(cfg, es').value, e) then 0 else 1
  }

  // The potential

  datatype Phase = Filling | Draining | Drained

  function PhaseOf(s: State): Phase {
    if !s.done then Filling else if s.rd < s.wr then Draining else Drained
  }

  /** The work a consumer can do while the read index stays at rd. */
  function Left(cfg: Config, rd: nat, phase: Phase, pc: ConsumerPc): nat {
    match pc
    case Exited => 0
    case Copy(rdRaw, got) => (if rdRaw == rd then 1 else cfg.width + 5) + Missing(got.Keys, cfg.width)
    case LoadPair => if phase.Drained? then 3 else cfg.width + 4
    case ReadEmpty => if phase.Drained? then 1 else cfg.width + 5
    case ReadDone =>
      match phase
      case Filling => cfg.width + 4
      case Draining => cfg.width + 6
      case Drained => 2
  }

  function SumLeft(cfg: Config, rd: nat, phase: Phase, cs: seq<Consumer>): nat {
    if cs == [] then 0
    else SumLeft(cfg, rd, phase, cs[..|cs| - 1]) + Left(cfg, rd, phase, cs[|cs| - 1].pc)
  }

  function PushCost(cfg: Config): nat {
    2 * cfg.width + 4
  }

  function PopCost(cfg: Config): nat {
    cfg.consumers * (cfg.width + 4) + cfg.width + 6
  }

  /** The cost of the values that are not yet past index i. */
  function Ahead(cfg: Config, i: nat, cost: nat): nat
    requires i <= |cfg.inputs|
  {
    (|cfg.inputs| - i) * cost
  }

  function Potential(cfg: Config, s: State): nat
    requires s.rd <= s.wr <= |cfg.inputs|
  {
    Ahead(cfg, s.wr, PushCost(cfg)) + ProducerRank(cfg, s.producer) + (if s.done then 0 else 2 * cfg.consumers)
    + Ahead(cfg, s.rd, PopCost(cfg)) + SumLeft(cfg, s.rd, PhaseOf(s), s.consumers)
  }

  /** One consumer's share replaced by another. */
  lemma {:induction false} SumReplace(cfg: Config, rd: nat, phase: Phase, cs: seq<Consumer>, c: nat, x: Consumer)
    requires c < |cs|
    ensures SumLeft(cfg, rd, phase, cs[c := x])
         == SumLeft(cfg, rd, phase, cs) - Left(cfg, rd, phase, cs[c].pc) + Left(cfg, rd, phase, x.pc)
  {
    hide Left;
    var m := |cs| - 1;
    if c == m {
      assert cs[c := x][..m] == cs[..m];
    } else {
      SumReplace(cfg, rd, phase, cs[..m], c, x);
      assert cs[c := x][..m] == cs[..m][c := x];
    }
  }

  /** A change of the read index or of the phase that raises each share by at most d. */
  lemma {:induction false} SumRaise(cfg: Config, rd: nat, phase: Phase, rd': nat, phase': Phase, cs: seq<Consumer>,
                                    d: nat)
    requires forall c | 0 <= c < |cs| :: Left(cfg, rd', phase', cs[c].pc) <= Left(cfg, rd, phase, cs[c].pc) + d
    ensures SumLeft(cfg, rd', phase', cs) <= SumLeft(cfg, rd, phase, cs) + |cs| * d
  {
    hide Left;
    if cs != [] {
      SumRaise(cfg, rd, phase, rd', phase', cs[..|cs| - 1], d);
      assert |cs| * d == (|cs| - 1) * d + d;
    }
  }

  lemma OneAhead(cfg: Config, i: nat, cost: nat)
    requires i < |cfg.inputs|
    ensures Ahead(cfg, i + 1, cost) == Ahead(cfg, i, cost) - cost
  {
    OneFewer(|cfg.inputs| - i, cost);
  }

  lemma OneFewer(n: nat, cost: nat)
    requires n >= 1
    ensures (n - 1) * cost == n * cost - cost
  {
  }

  // Every access pays for itself

  ghost predicate Pays(cfg: Config, s: State, s': State, work: nat) {
    && s.rd <= s.wr <= |cfg.inputs| && s'.rd <= s'.wr <= |cfg.inputs|
    && Potential(cfg, s') + work <= Potential(cfg, s)
  }

  lemma ProducerPays(cfg: Config, s: State, e: Event)
    requires cfg.Valid() && Shape(cfg, s) && Inv(cfg, s) && Enabled(cfg, s, e) && ByProducer(e)
    requires !e.Publish? && !e.Finish? && !Idle(cfg, s, e)
    ensures Pays(cfg, s, ApplyProducer(cfg, s, e), 1)
  {
    hide WindowOk, ConsumerOk, HistoryOk, FullMark, SumLeft, PushCost, PopCost, Ahead;
    var s' := ApplyProducer(cfg, s, e);
    if e.WriteWord? {
      MissingOneLess(s.producer.written, cfg.width, e.k);
    } else if e.ReadBackWord? {
      MissingOneLess(s.producer.got.Keys, cfg.width, e.k);
      assert s'.producer.got.Keys == s.producer.got.Keys + {e.k};
    }
    assert ProducerRank(cfg, s'.producer) < ProducerRank(cfg, s.producer);
    assert PhaseOf(s') == PhaseOf(s);
  }

  lemma PublishPays(cfg: Config, s: State)
    requires cfg.Valid() && Shape(cfg, s) && Inv(cfg, s) && Enabled(cfg, s, Publish)
    ensures Pays(cfg, s, ApplyProducer(cfg, s, Publish), 1)
  {
    hide WindowOk, ConsumerOk, HistoryOk, SumLeft, PopCost, Assemble, Ahead;
    EmplaceReturnsArgument(cfg, s);
    PublishResult(cfg, s);
    OneAhead(cfg, s.wr, PushCost(cfg));
    assert PhaseOf(ApplyProducer(cfg, s, Publish)) == PhaseOf(s) == Filling;
  }

  lemma FinishPays(cfg: Config, s: State)
    requires cfg.Valid() && Shape(cfg, s) && Inv(cfg, s) && Enabled(cfg, s, Finish)
    ensures Pays(cfg, s, ApplyProducer(cfg, s, Finish), 1)
  {
    hide WindowOk, ConsumerOk, SumLeft, PushCost, PopCost, Ahead;
    var s' := ApplyProducer(cfg, s, Finish);
    SumRaise(cfg, s.rd, Filling, s.rd, PhaseOf(s'), s.consumers, 2);
  }

  lemma PcPays(cfg: Config, s: State, c: nat, e: Event, work: nat)
    requires cfg.Valid() && Shape(cfg, s) && Inv(cfg, s) && Enabled(cfg, s, e) && !ByProducer(e) && c == e.c
    requires e.Cas? ==> s.rd != s.consumers[c].pc.rdRaw
    requires var pc' := ApplyConsumer(cfg, s, e).consumers[c].pc;
      Left(cfg, s.rd, PhaseOf(s), pc') + work <= Left(cfg, s.rd, PhaseOf(s), s.consumers[c].pc)
    ensures Pays(cfg, s, ApplyConsumer(cfg, s, e), work)
  {
    hide WindowOk, ConsumerOk, ProducerOk, HistoryOk, SumLeft, Left, PushCost, PopCost, ProducerRank, Ahead;
    var s' := ApplyConsumer(cfg, s, e);
    assert s'.consumers == s.consumers[c := s'.consumers[c]];
    assert s'.rd == s.rd && s'.wr == s.wr && s'.done == s.done && s'.producer == s.producer;
    SumReplace(cfg, s.rd, PhaseOf(s), s.consumers, c, s'.consumers[c]);
  }

  lemma CopyPays(cfg: Config, s: State, c: nat, k: nat)
    requires cfg.Valid() && Shape(cfg, s) && Inv(cfg, s) && Enabled(cfg, s, CopyWord(c, k))
    ensures Pays(cfg, s, ApplyConsumer(cfg, s, CopyWord(c, k)), 1)
  {
    hide Inv, Pays;
    var got, s' := s.consumers[c].pc.got, ApplyConsumer(cfg, s, CopyWord(c, k));
    MissingOneLess(got.Keys, cfg.width, k);
    assert s'.consumers[c].pc.got.Keys == got.Keys + {k};
    PcPays(cfg, s, c, CopyWord(c, k), 1);
  }

  lemma LoadPays(cfg: Config, s: State, e: Event)
    requires cfg.Valid() && Shape(cfg, s) && Inv(cfg, s) && Enabled(cfg, s, e)
    requires e.TestDone? || e.TestEmpty? || e.LoadForPop?
    ensures Pays(cfg, s, ApplyConsumer(cfg, s, e), if Idle(cfg, s, e) then 0 else 1)
  {
    hide WindowOk, ProducerOk, HistoryOk, Pays, FullMark;
    assert ConsumerOk(cfg, s, s.consumers[e.c].pc);
    PcPays(cfg, s, e.c, e, if Idle(cfg, s, e) then 0 else 1);
  }

  /** Moving the read index makes a copy stale, at worst; the end of draining makes nothing dearer. */
  lemma Raised(cfg: Config, rd: nat, phase: Phase, rd': nat, phase': Phase, pc: ConsumerPc)
    requires !phase.Drained? && (phase' == phase || phase'.Drained?)
    ensures Left(cfg, rd', phase', pc) <= Left(cfg, rd, phase, pc) + (cfg.width + 4)
  {
  }

  lemma TakenLeft(cfg: Config, rd: nat, phase: Phase, got: Partial)
    ensures Left(cfg, rd, phase, Copy(rd, got)) >= 1 && Left(cfg, rd, phase, ReadDone) <= cfg.width + 6
  {
  }

  /** A successful pop pays for the copies it makes stale. */
  lemma TakePays(cfg: Config, s: State, c: nat)
    requires cfg.Valid() && Shape(cfg, s) && Inv(cfg, s) && Enabled(cfg, s, Cas(c)) && s.consumers[c].pc.rdRaw == s.rd
    ensures Pays(cfg, s, ApplyConsumer(cfg, s, Cas(c)), 1)
  {
    hide WindowOk, ProducerOk, ConsumerOk, SumLeft, PushCost, ProducerRank, Assemble, Ahead, Left;
    CasReturnsOldest(cfg, s, c);
    CasResult(cfg, s, c);
    var s', p := ApplyConsumer(cfg, s, Cas(c)), PhaseOf(s);
    SumReplace(cfg, s.rd, p, s.consumers, c, s'.consumers[c]);
    TakenLeft(cfg, s.rd, p, s.consumers[c].pc.got);
    forall d | 0 <= d < |s'.consumers|
      ensures Left(cfg, s'.rd, PhaseOf(s'), s'.consumers[d].pc)
           <= Left(cfg, s.rd, p, s'.consumers[d].pc) + (cfg.width + 4)
    {
      Raised(cfg, s.rd, p, s'.rd, PhaseOf(s'), s'.consumers[d].pc);
    }
    SumRaise(cfg, s.rd, p, s'.rd, PhaseOf(s'), s'.consumers, cfg.width + 4);
    OneAhead(cfg, s.rd, PopCost(cfg));
  }

  lemma StepPays(cfg: Config, s: State, e: Event)
    requires cfg.Valid() && Shape(cfg, s) && Inv(cfg, s) && Enabled(cfg, s, e)
    ensures Pays(cfg, s, Apply(cfg, s, e), if Idle(cfg, s, e) then 0 else 1)
  {
    hide Pays, Inv;
    if e.Publish? {
      PublishPays(cfg, s);
    } else if e.Finish? {
      FinishPays(cfg, s);
    } else if ByProducer(e) {
      if Idle(cfg, s, e) {
        NothingPaid(cfg, s);
      } else {
        ProducerPays(cfg, s, e);
      }
    } else if e.CopyWord? {
      CopyPays(cfg, s, e.c, e.k);
    } else if !e.Cas? {
      LoadPays(cfg, s, e);
    } else if s.consumers[e.c].pc.rdRaw == s.rd {
      TakePays(cfg, s, e.c);
    } else {
      PcPays(cfg, s, e.c, e, 1);
    }
  }

  lemma NothingPaid(cfg: Config, s: State)
    requires Shape(cfg, s) && Inv(cfg, s)
    ensures Pays(cfg, s, s, 0)
  {
  }

  // The bound

  /** In the numbers of values and consumers and the width of a value alone. */
  function Bound(cfg: Config): nat {
    |cfg.inputs| * (PushCost(cfg) + PopCost(cfg)) + PushCost(cfg) + cfg.consumers * (cfg.width + 6)
  }

  lemma {:induction false} SumAtStart(cfg: Config, n: nat)
    ensures SumLeft(cfg, 0, Filling, seq(n, _ => Consumer(ReadDone, []))) == n * (cfg.width + 4)
  {
    if n != 0 {
      SumAtStart(cfg, n - 1);
      var cs := seq(n, _ => Consumer(ReadDone, []));
      assert cs[..n - 1] == seq(n - 1, _ => Consumer(ReadDone, []));
      OneFewer(n, cfg.width + 4);
    }
  }

  lemma PotentialAtStart(cfg: Config)
    ensures Potential(cfg, Init(cfg)) == Bound(cfg)
  {
    hide SumLeft, PopCost;
    SumAtStart(cfg, cfg.consumers);
    var n, c := |cfg.inputs|, cfg.consumers;
    assert n * (PushCost(cfg) + PopCost(cfg)) == n * PushCost(cfg) + n * PopCost(cfg);
    assert c * (cfg.width + 6) == c * (cfg.width + 4) + 2 * c;
  }

  /** No run, whatever the scheduler does, contains more work than the bound. */
  lemma {:induction false} WorkBounded(cfg: Config, es: seq<Event>)
    requires cfg.Valid() && Run(cfg, es).Some?
    ensures Run(cfg, es).value.rd <= Run(cfg, es).value.wr <= |cfg.inputs|
    ensures WorkCount(cfg, es) + Potential(cfg, Run(cfg, es).value) <= Bound(cfg)
  {
    hide Potential, Bound, Inv, Idle;
    if es == [] {
      PotentialAtStart(cfg);
    } else {
      var es', e := es[..|es| - 1], es[|es| - 1];
      WorkBounded(cfg, es');
      RunInv(cfg, es');
      StepPays(cfg, Run(cfg, es').value, e);
    }
  }

  // Fair schedules

  predicate ByConsumer(e: Event, c: nat) {
    !ByProducer(e) && e.c == c
  }

  function StepsOf(round: seq<Event>, c: nat): nat {
    if round == [] then 0
    else StepsOf(round[..|round| - 1], c) + if ByConsumer(round[|round| - 1], c) then 1 else 0
  }

  function PushSteps(round: seq<Event>): nat {
    if round == [] then 0
    else PushSteps(round[..|round| - 1]) + if ByProducer(round[|round| - 1]) then 1 else 0
  }

  /** In a round that follows es every thread gets its turn that has not returned by the end of the round. */
  ghost predicate Fair(cfg: Config, es: seq<Event>, round: seq<Event>)
    requires cfg.Valid()
  {
    && Run(cfg, es + round).Some?
    && var s := Run(cfg, es + round).value;
    && (!s.producer.Finished? ==> PushSteps(round) >= 1)
    && forall c: nat | c < |s.consumers| && !s.consumers[c].pc.Exited? :: StepsOf(round, c) >= 2
  }

  /** What a round of idle accesses leads to, from s to s'. */
  ghost predicate Waited(cfg: Config, s: State, s': State, round: seq<Event>) {
    && s'.rd == s.rd && s'.wr == s.wr && s'.done == s.done && s'.producer == s.producer && s'.next == s.next
    && |s'.consumers| == |s.consumers|
    && (PushSteps(round) >= 1 ==> Stuck(cfg, s))
    && forall c: nat | c < |s.consumers| :: WaitedFor(s, s'.consumers[c].pc, StepsOf(round, c))
  }

  /** One idle step can fail to see `done` or find nothing; two have done both. */
  ghost predicate WaitedFor(s: State, pc: ConsumerPc, steps: nat) {
    && (steps == 1 ==> (pc.LoadPair? && !s.done) || (pc.ReadDone? && s.rd == s.wr))
    && (steps >= 2 ==> !s.done && s.rd == s.wr)
  }

  lemma IdleStep(cfg: Config, s: State, s': State, round: seq<Event>, e: Event)
    requires cfg.Valid() && Shape(cfg, s') && Waited(cfg, s, s', round)
    requires Enabled(cfg, s', e) && Idle(cfg, s', e)
    ensures Waited(cfg, s, Apply(cfg, s', e), round + [e])
  {
    hide FullMark;
    assert (round + [e])[..|round|] == round;
    var s'' := Apply(cfg, s', e);
    forall c: nat | c < |s.consumers|
      ensures WaitedFor(s, s''.consumers[c].pc, StepsOf(round + [e], c))
    {
      assert WaitedFor(s, s'.consumers[c].pc, StepsOf(round, c));
    }
  }

  lemma AppendLast(es: seq<Event>, round: seq<Event>)
    requires round != []
    ensures (es + round)[..|es + round| - 1] == es + round[..|round| - 1]
    ensures (es + round)[|es + round| - 1] == round[|round| - 1]
    ensures round == round[..|round| - 1] + [round[|round| - 1]]
  {
  }

  /** Prefixes of runs are runs, and work is never undone. */
  lemma {:induction false} RunPrefix(cfg: Config, es: seq<Event>, round: seq<Event>)
    requires cfg.Valid() && Run(cfg, es + round).Some?
    ensures Run(cfg, es).Some? && WorkCount(cfg, es) <= WorkCount(cfg, es + round)
  {
    if round == [] {
      assert es + round == es;
    } else {
      AppendLast(es, round);
      RunPrefix(cfg, es, round[..|round| - 1]);
    }
  }

  lemma {:induction false} IdleRound(cfg: Config, es: seq<Event>, round: seq<Event>)
    requires cfg.Valid() && Run(cfg, es + round).Some?
    requires Run(cfg, es).Some? && WorkCount(cfg, es + round) == WorkCount(cfg, es)
    ensures Waited(cfg, Run(cfg, es).value, Run(cfg, es + round).value, round)
  {
    hide Waited, Idle, Enabled, Apply;
    if round == [] {
      assert es + round == es;
      NotWaited(cfg, Run(cfg, es).value);
    } else {
      var round', e := round[..|round| - 1], round[|round| - 1];
      AppendLast(es, round);
      RunPrefix(cfg, es, round');
      IdleRound(cfg, es, round');
      IdleStep(cfg, Run(cfg, es).value, Run(cfg, es + round').value, round', e);
    }
  }

  lemma NotWaited(cfg: Config, s: State)
    ensures Waited(cfg, s, s, [])
  {
  }

  /** A fair round that does not end the run contains work. */
  lemma RoundWorks(cfg: Config, es: seq<Event>, round: seq<Event>)
    requires cfg.Valid() && cfg.consumers >= 1 && (cfg.Size() >= 2 || cfg.inputs == [])
    requires Fair(cfg, es, round) && !Terminated(Run(cfg, es + round).value)
    ensures Run(cfg, es).Some? && WorkCount(cfg, es + round) > WorkCount(cfg, es)
  {
    RunPrefix(cfg, es, round);
    if WorkCount(cfg, es + round) == WorkCount(cfg, es) {
      IdleRound(cfg, es, round);
      RunInv(cfg, es + round);
      IdleRoundEnds(cfg, Run(cfg, es).value, Run(cfg, es + round).value, round);
    }
  }

  /** Threads that have all waited through their turns have in fact returned. */
  lemma IdleRoundEnds(cfg: Config, s: State, s': State, round: seq<Event>)
    requires cfg.Valid() && cfg.consumers >= 1 && (cfg.Size() >= 2 || cfg.inputs == [])
    requires Shape(cfg, s') && Inv(cfg, s') && Waited(cfg, s, s', round)
    requires !s'.producer.Finished? ==> PushSteps(round) >= 1
    requires forall c: nat | c < |s'.consumers| && !s'.consumers[c].pc.Exited? :: StepsOf(round, c) >= 2
    ensures Terminated(s')
  {
    hide WindowOk, FullMark;
    FullMarkExact(cfg, s');
    assert ConsumerOk(cfg, s', s'.consumers[0].pc) && WaitedFor(s, s'.consumers[0].pc, StepsOf(round, 0));
    assert s'.producer.Finished?;
    forall c: nat | c < |s'.consumers| ensures s'.consumers[c].pc.Exited? {
      assert WaitedFor(s, s'.consumers[c].pc, StepsOf(round, c));
    }
  }

  function Flat(rounds: seq<seq<Event>>): seq<Event> {
    if rounds == [] then [] else Flat(rounds[..|rounds| - 1]) + rounds[|rounds| - 1]
  }

  ghost predicate AllFair(cfg: Config, rounds: seq<seq<Event>>)
    requires cfg.Valid()
  {
    forall i | 0 <= i < |rounds| :: Fair(cfg, Flat(rounds[..i]), rounds[i])
  }

  lemma NoneEnabled(cfg: Config, s: State, e: Event)
    requires Terminated(s)
    ensures !Enabled(cfg, s, e)
  {
  }

  /** When all threads have returned nothing more happens. */
  lemma NothingFollows(cfg: Config, es: seq<Event>, round: seq<Event>)
    requires cfg.Valid() && Run(cfg, es).Some? && Terminated(Run(cfg, es).value) && Run(cfg, es + round).Some?
    ensures round == []
  {
    hide Enabled, Apply, Terminated, WorkCount;
    if round != [] {
      var e := round[0];
      assert es + round == (es + [e]) + round[1..];
      NoneEnabled(cfg, Run(cfg, es).value, e);
      assert (es + [e])[..|es|] == es;
      RunPrefix(cfg, es + [e], round[1..]);
    }
  }

  lemma {:induction false} RoundsWork(cfg: Config, rounds: seq<seq<Event>>)
    requires cfg.Valid() && cfg.consumers >= 1 && (cfg.Size() >= 2 || cfg.inputs == [])
    requires AllFair(cfg, rounds)
    ensures Run(cfg, Flat(rounds)).Some?
    ensures Terminated(Run(cfg, Flat(rounds)).value) || WorkCount(cfg, Flat(rounds)) >= |rounds|
  {
    hide Fair, Terminated, Enabled;
    if rounds != [] {
      var before, last := rounds[..|rounds| - 1], rounds[|rounds| - 1];
      assert AllFair(cfg, before) by {
        forall i | 0 <= i < |before| ensures Fair(cfg, Flat(before[..i]), before[i]) {
          assert before[..i] == rounds[..i];
        }
      }
      RoundsWork(cfg, before);
      assert Fair(cfg, Flat(before), last);
      FairRuns(cfg, Flat(before), last);
      if Terminated(Run(cfg, Flat(before)).value) {
        NothingFollows(cfg, Flat(before), last);
        assert Flat(before) + last == Flat(before);
      } else if !Terminated(Run(cfg, Flat(rounds)).value) {
        RoundWorks(cfg, Flat(before), last);
      }
    }
  }

  lemma FairRuns(cfg: Config, es: seq<Event>, round: seq<Event>)
    requires cfg.Valid() && Fair(cfg, es, round)
    ensures Run(cfg, es + round).Some?
  {
  }

  /** Under every scheduler that keeps giving turns, all threads have returned after `Bound` rounds and one. */
  lemma FairRunsTerminate(cfg: Config, rounds: seq<seq<Event>>)
    requires cfg.Valid() && cfg.consumers >= 1 && (cfg.Size() >= 2 || cfg.inputs == [])
    requires AllFair(cfg, rounds) && |rounds| > Bound(cfg)
    ensures Run(cfg, Flat(rounds)).Some? && Terminated(Run(cfg, Flat(rounds)).value)
  {
    RoundsWork(cfg, rounds);
    WorkBounded(cfg, Flat(rounds));
  }

  /** Fair runs of any number of rounds exist, so the theorem is about some runs of every configuration. */
  lemma FairRunsExist(cfg: Config, n: nat) returns (rounds: seq<seq<Event>>)
    requires cfg.Valid() && cfg.consumers >= 1 && (cfg.Size() >= 2 || cfg.inputs == [])
    ensures |rounds| == n && AllFair(cfg, rounds)
  {
    hide Run, Terminated;
    if n == 0 {
      rounds := [];
    } else {
      var before := FairRunsExist(cfg, n - 1);
      RoundsWork(cfg, before);
      var rest := CanFinish(cfg, Flat(before));
      rounds := before + [rest];
      EndIsFair(cfg, Flat(before), rest);
      forall i | 0 <= i < n ensures Fair(cfg, Flat(rounds[..i]), rounds[i]) {
        if i < n - 1 {
          assert rounds[..i] == before[..i];
        } else {
          assert rounds[..i] == before;
        }
      }
    }
  }

  /** A round in which all threads return is fair. */
  lemma EndIsFair(cfg: Config, es: seq<Event>, round: seq<Event>)
    requires cfg.Valid() && Run(cfg, es + round).Some? && Terminated(Run(cfg, es + round).value)
    ensures Fair(cfg, es, round)
  {
  }
}
