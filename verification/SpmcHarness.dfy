/** What a finished run of the harness delivers, and how often compare-and-swaps can fail. */
module SpmcHarness {
  import opened Wrappers
  import opened SpmcRing
  import opened SpmcInvariant

  /** Producer and consumers have all returned, so both `join` loops are over. */
  predicate Terminated(s: State) {
    s.producer.Finished? && forall c: nat | c < |s.consumers| :: s.consumers[c].pc.Exited?
  }

  /** `picks` is `inputs` read at the indices `ix`. */
  ghost predicate ReadsAt(picks: seq<Value>, inputs: seq<Value>, ix: seq<nat>) {
    && |picks| == |ix|
    && forall i | 0 <= i < |ix| :: ix[i] < |inputs| && picks[i] == inputs[ix[i]]
  }

  ghost predicate Increasing(ix: seq<nat>) {
    forall i, j | 0 <= i < j < |ix| :: ix[i] < ix[j]
  }

  /** The indices, in order, at which `log` names consumer c. */
  function Indices(log: seq<nat>, c: nat): (ix: seq<nat>)
    ensures forall i | i in ix :: i < |log| && log[i] == c
    ensures Increasing(ix)
  {
    if log == [] then []
    else
      var m := |log| - 1;
      var ix := Indices(log[..m], c);
      assert forall i | 0 <= i < |ix| :: ix[i] in ix;
      if log[m] == c then ix + [m] else ix
  }

  lemma {:induction false} PickedByIndices(log: seq<nat>, inputs: seq<Value>, c: nat)
    requires |log| <= |inputs|
    ensures ReadsAt(Picked(log, inputs, c), inputs, Indices(log, c))
  {
    if log != [] {
      PickedByIndices(log[..|log| - 1], inputs, c);
    }
  }

  /** Lists, one after the other. */
  function Flatten(lists: seq<seq<Value>>): seq<Value> {
    if lists == [] then [] else Flatten(lists[..|lists| - 1]) + lists[|lists| - 1]
  }

  function Results(s: State): seq<seq<Value>> {
    seq(|s.consumers|, c requires 0 <= c < |s.consumers| => s.consumers[c].results)
  }

  function AllPicks(log: seq<nat>, inputs: seq<Value>, n: nat): (lists: seq<seq<Value>>)
    requires |log| <= |inputs|
    ensures |lists| == n
  {
    seq(n, c requires 0 <= c < n => Picked(log, inputs, c))
  }

  lemma AllPicksLast(log: seq<nat>, inputs: seq<Value>, n: nat)
    requires |log| <= |inputs| && n >= 1
    ensures Flatten(AllPicks(log, inputs, n)) == Flatten(AllPicks(log, inputs, n - 1)) + Picked(log, inputs, n - 1)
    ensures multiset(Flatten(AllPicks(log, inputs, n)))
         == multiset(Flatten(AllPicks(log, inputs, n - 1))) + multiset(Picked(log, inputs, n - 1))
  {
    assert AllPicks(log, inputs, n)[..n - 1] == AllPicks(log, inputs, n - 1);
  }

  lemma PickOneMultiset(log: seq<nat>, inputs: seq<Value>, c: nat, d: nat)
    requires |log| < |inputs|
    ensures multiset(Picked(log + [c], inputs, d))
         == multiset(Picked(log, inputs, d)) + if c == d then multiset{inputs[|log|]} else multiset{}
  {
    PickOne(log, inputs, c, d);
  }

  lemma NoLists(log: seq<nat>, inputs: seq<Value>)
    requires |log| <= |inputs|
    ensures Flatten(AllPicks(log, inputs, 0)) == []
  {
  }

  lemma {:induction false} GatherOneMore(log: seq<nat>, inputs: seq<Value>, c: nat, n: nat)
    requires |log| < |inputs|
    ensures multiset(Flatten(AllPicks(log + [c], inputs, n)))
         == multiset(Flatten(AllPicks(log, inputs, n))) + if c < n then multiset{inputs[|log|]} else multiset{}
  {
    hide Picked, Flatten, AllPicks;
    if n == 0 {
      NoLists(log, inputs);
      NoLists(log + [c], inputs);
    } else {
      GatherOneMore(log, inputs, c, n - 1);
      AllPicksLast(log, inputs, n);
      AllPicksLast(log + [c], inputs, n);
      PickOneMultiset(log, inputs, c, n - 1);
    }
  }

  lemma {:induction false} GatherNothing(inputs: seq<Value>, n: nat)
    ensures Flatten(AllPicks([], inputs, n)) == []
  {
    if n != 0 {
      GatherNothing(inputs, n - 1);
      AllPicksLast([], inputs, n);
    }
  }

  lemma {:induction false} GatherAll(log: seq<nat>, inputs: seq<Value>, n: nat)
    requires |log| <= |inputs| && forall i | 0 <= i < |log| :: log[i] < n
    ensures multiset(Flatten(AllPicks(log, inputs, n))) == multiset(inputs[..|log|])
  {
    if log == [] {
      GatherNothing(inputs, n);
    } else {
      var m := |log| - 1;
      var log', c := log[..m], log[m];
      assert log == log' + [c];
      GatherAll(log', inputs, n);
      GatherOneMore(log', inputs, c, n);
      assert inputs[..|log|] == inputs[..m] + [inputs[m]];
    }
  }

  /** At any moment the results hold every value taken so far exactly once: none lost, none duplicated. */
  lemma NothingLostOrDuplicated(cfg: Config, es: seq<Event>)
    requires cfg.Valid() && Run(cfg, es).Some?
    ensures var s := Run(cfg, es).value;
      multiset(Flatten(Results(s))) == multiset(s.popped)
  {
    RunInv(cfg, es);
    var s := Run(cfg, es).value;
    assert Results(s) == AllPicks(s.log, cfg.inputs, |s.consumers|);
    GatherAll(s.log, cfg.inputs, |s.consumers|);
  }

  /** In a terminated run the result lists partition the pushed sequence. */
  lemma TerminatedRunPartitions(cfg: Config, es: seq<Event>)
    requires cfg.Valid() && cfg.consumers >= 1
    requires Run(cfg, es).Some? && Terminated(Run(cfg, es).value)
    ensures var s := Run(cfg, es).value;
      multiset(Flatten(Results(s))) == multiset(cfg.inputs)
  {
    RunInv(cfg, es);
    NothingLostOrDuplicated(cfg, es);
    var s := Run(cfg, es).value;
    assert ConsumerOk(cfg, s, s.consumers[0].pc);
    assert cfg.inputs[..s.rd] == cfg.inputs;
  }

  /** Each consumer sees its values in push order. */
  lemma ResultsInPushOrder(cfg: Config, es: seq<Event>, c: nat) returns (ix: seq<nat>)
    requires cfg.Valid() && Run(cfg, es).Some? && c < cfg.consumers
    ensures |Run(cfg, es).value.consumers| == cfg.consumers
    ensures var results := Run(cfg, es).value.consumers[c].results;
      Increasing(ix) && ReadsAt(results, cfg.inputs, ix)
  {
    RunInv(cfg, es);
    var s := Run(cfg, es).value;
    PickedByIndices(s.log, cfg.inputs, c);
    ix := Indices(s.log, c);
  }

  // The benchmark: the producer pushes 1, 2, ..., numPush, one word each.

  function Counting(numPush: nat): (inputs: seq<Value>)
    ensures |inputs| == numPush
    ensures forall i | 0 <= i < numPush :: inputs[i] == [i + 1]
  {
    if numPush == 0 then [] else Counting(numPush - 1) + [[numPush]]
  }

  function Head(v: Value): Word {
    if v == [] then 0 else v[0]
  }

  function Sum(vs: seq<Value>): int {
    if vs == [] then 0 else Sum(vs[..|vs| - 1]) + Head(vs[|vs| - 1])
  }

  lemma {:induction false} SumRemove(vs: seq<Value>, i: nat)
    requires i < |vs|
    ensures Sum(vs) == Sum(vs[..i] + vs[i + 1..]) + Head(vs[i])
  {
    var m := |vs| - 1;
    if i == m {
      assert vs[..i] + vs[i + 1..] == vs[..m];
    } else {
      SumRemove(vs[..m], i);
      var rest := vs[..i] + vs[i + 1..];
      assert rest[..|rest| - 1] == vs[..m][..i] + vs[..m][i + 1..];
    }
  }

  /** A sum does not depend on the order. */
  lemma {:induction false} SumOfMultiset(vs: seq<Value>, ws: seq<Value>)
    requires multiset(vs) == multiset(ws)
    ensures Sum(vs) == Sum(ws) && |vs| == |ws|
  {
    assert |vs| == |multiset(vs)| == |multiset(ws)| == |ws|;
    if vs != [] {
      var vs', v := vs[..|vs| - 1], vs[|vs| - 1];
      assert vs == vs' + [v];
      assert v in multiset(ws);
      var i :| 0 <= i < |ws| && ws[i] == v;
      TakeOut(ws, i);
      assert multiset(vs) == multiset(vs') + multiset{v};
      assert multiset(vs') == multiset(vs) - multiset{v};
      SumOfMultiset(vs', ws[..i] + ws[i + 1..]);
      SumRemove(ws, i);
    }
  }

  lemma TakeOut(ws: seq<Value>, i: nat)
    requires i < |ws|
    ensures multiset(ws) == multiset(ws[..i] + ws[i + 1..]) + multiset{ws[i]}
  {
    assert ws == ws[..i] + [ws[i]] + ws[i + 1..];
  }

  lemma {:induction false} SumOfCounting(numPush: nat)
    ensures 2 * Sum(Counting(numPush)) == numPush * (numPush + 1)
  {
    if numPush != 0 {
      SumOfCounting(numPush - 1);
      assert Counting(numPush)[..numPush - 1] == Counting(numPush - 1);
      assert numPush * (numPush + 1) == (numPush - 1) * numPush + 2 * numPush;
    }
  }

  lemma ResultsAscend(cfg: Config, es: seq<Event>)
    requires cfg.Valid() && cfg.inputs == Counting(|cfg.inputs|) && Run(cfg, es).Some?
    ensures forall c | 0 <= c < |Results(Run(cfg, es).value)| :: Ascending(Results(Run(cfg, es).value)[c])
  {
    var s := Run(cfg, es).value;
    RunInv(cfg, es);
    forall c | 0 <= c < |s.consumers|
      ensures Ascending(Results(s)[c])
    {
      var ix := ResultsInPushOrder(cfg, es, c);
      CountingAscends(s.consumers[c].results, |cfg.inputs|, ix);
    }
  }

  /** The harness's own checks, sz_sum == NUM_PUSH and sum == EXPECTED_SUM, and the order check per thread. */
  lemma HarnessChecksPass(cfg: Config, es: seq<Event>)
    requires cfg.Valid() && cfg.consumers >= 1 && cfg.inputs == Counting(|cfg.inputs|)
    requires Run(cfg, es).Some? && Terminated(Run(cfg, es).value)
    ensures var lists := Results(Run(cfg, es).value);
      var numPush := |cfg.inputs|;
      && |Flatten(lists)| == numPush
      && 2 * Sum(Flatten(lists)) == numPush * (numPush + 1)
      && forall c | 0 <= c < |lists| :: Ascending(lists[c])
  {
    hide Sum, Flatten, Counting, Run, Terminated, Ascending;
    TerminatedRunPartitions(cfg, es);
    SumOfMultiset(Flatten(Results(Run(cfg, es).value)), cfg.inputs);
    SumOfCounting(|cfg.inputs|);
    ResultsAscend(cfg, es);
  }

  lemma CountingAscends(results: seq<Value>, numPush: nat, ix: seq<nat>)
    requires Increasing(ix) && ReadsAt(results, Counting(numPush), ix)
    ensures Ascending(results)
  {
    forall i, j | 0 <= i < j < |results|
      ensures Head(results[i]) < Head(results[j])
    {
      assert results[i] == [ix[i] + 1] && results[j] == [ix[j] + 1];
    }
  }

  ghost predicate Ascending(vs: seq<Value>) {
    forall i, j | 0 <= i < j < |vs| :: Head(vs[i]) < Head(vs[j])
  }

  // Lock freedom: a compare-and-swap fails only because another one succeeded.

  predicate Stale(s: State, c: nat)
  {
    c < |s.consumers| && s.consumers[c].pc.Copy? && s.consumers[c].pc.rdRaw != s.rd
  }

  function StaleSet(s: State): set<nat> {
    set c: nat | c < |s.consumers| && Stale(s, c)
  }

  ghost predicate Bounded(cfg: Config, s: State) {
    s.casFailures + |StaleSet(s)| <= (cfg.consumers - 1) * |s.popped|
  }

  lemma {:induction false} SetBelow(cs: set<nat>, n: nat)
    requires forall c | c in cs :: c < n
    ensures |cs| <= n
  {
    if n != 0 {
      SetBelow(cs - {n - 1}, n - 1);
    } else {
      assert cs == {};
    }
  }

  /** A success can make every other consumer stale, but not the one that succeeded. */
  lemma SuccessStale(cfg: Config, s: State, c: nat)
    requires cfg.Valid() && Shape(cfg, s) && Enabled(cfg, s, Cas(c)) && s.rd == s.consumers[c].pc.rdRaw
    requires |s.consumers| == cfg.consumers
    ensures |StaleSet(ApplyConsumer(cfg, s, Cas(c)))| <= cfg.consumers - 1
  {
    var stale := StaleSet(ApplyConsumer(cfg, s, Cas(c)));
    SetBelow(stale + {c}, cfg.consumers);
    assert |stale + {c}| == |stale| + 1;
  }

  lemma FailureStale(cfg: Config, s: State, c: nat)
    requires cfg.Valid() && Shape(cfg, s) && Enabled(cfg, s, Cas(c)) && s.rd != s.consumers[c].pc.rdRaw
    ensures |StaleSet(ApplyConsumer(cfg, s, Cas(c)))| == |StaleSet(s)| - 1
  {
    var stale := StaleSet(ApplyConsumer(cfg, s, Cas(c)));
    assert StaleSet(s) == stale + {c} && c !in stale;
  }

  lemma QuietStale(cfg: Config, s: State, e: Event)
    requires cfg.Valid() && Shape(cfg, s) && Enabled(cfg, s, e) && !e.Cas?
    ensures StaleSet(Apply(cfg, s, e)) == StaleSet(s)
    ensures Apply(cfg, s, e).casFailures == s.casFailures && Apply(cfg, s, e).popped == s.popped
  {
    var s' := Apply(cfg, s, e);
    if ByProducer(e) {
      assert s'.consumers == s.consumers && s'.rd == s.rd;
      forall c: nat ensures Stale(s', c) == Stale(s, c) {
      }
    } else {
      forall c: nat ensures Stale(s', c) == Stale(s, c) {
        assert s'.rd == s.rd;
      }
    }
  }

  lemma BoundedStep(cfg: Config, s: State, e: Event)
    requires cfg.Valid() && Shape(cfg, s) && Enabled(cfg, s, e) && |s.consumers| == cfg.consumers >= 1
    requires Bounded(cfg, s)
    ensures Bounded(cfg, Apply(cfg, s, e))
  {
    if !e.Cas? {
      QuietStale(cfg, s, e);
    } else if s.rd == s.consumers[e.c].pc.rdRaw {
      SuccessStale(cfg, s, e.c);
      var others, taken := cfg.consumers - 1, |s.popped|;
      assert others * (taken + 1) == others * taken + others;
    } else {
      FailureStale(cfg, s, e.c);
    }
  }

  /** How many compare-and-swaps of a run found the read index moved. */
  function LostSwaps(cfg: Config, es: seq<Event>): nat
    requires cfg.Valid() && Run(cfg, es).Some?
  {
    if es == [] then 0
    else LostSwaps(cfg, es[..|es| - 1]) + if IsLost(Run(cfg, es[..|es| - 1]).value, es[|es| - 1]) then 1 else 0
  }

  predicate IsLost(s: State, e: Event) {
    e.Cas? && e.c < |s.consumers| && s.consumers[e.c].pc.Copy? && s.rd != s.consumers[e.c].pc.rdRaw
  }

  lemma LostIsCounted(cfg: Config, s: State, e: Event)
    requires cfg.Valid() && Shape(cfg, s) && Enabled(cfg, s, e)
    ensures Apply(cfg, s, e).casFailures == s.casFailures + if IsLost(s, e) then 1 else 0
  {
  }

  lemma {:induction false} FailuresAreLostSwaps(cfg: Config, es: seq<Event>)
    requires cfg.Valid() && Run(cfg, es).Some?
    ensures Run(cfg, es).value.casFailures == LostSwaps(cfg, es)
  {
    hide IsLost, Apply, Enabled;
    if es != [] {
      FailuresAreLostSwaps(cfg, es[..|es| - 1]);
      LostIsCounted(cfg, Run(cfg, es[..|es| - 1]).value, es[|es| - 1]);
    }
  }

  lemma {:induction false} StaysBounded(cfg: Config, es: seq<Event>)
    requires cfg.Valid() && cfg.consumers >= 1 && Run(cfg, es).Some?
    ensures Bounded(cfg, Run(cfg, es).value)
  {
    if es == [] {
      assert StaleSet(Init(cfg)) == {};
    } else {
      var es', e := es[..|es| - 1], es[|es| - 1];
      StaysBounded(cfg, es');
      RunInv(cfg, es');
      BoundedStep(cfg, Run(cfg, es').value, e);
    }
  }

  /** With C consumers, at most C - 1 compare-and-swaps fail for every value delivered. */
  lemma FailuresBounded(cfg: Config, es: seq<Event>)
    requires cfg.Valid() && cfg.consumers >= 1 && Run(cfg, es).Some?
    ensures LostSwaps(cfg, es) <= (cfg.consumers - 1) * |Run(cfg, es).value.popped|
  {
    hide LostSwaps, Run;
    StaysBounded(cfg, es);
    FailuresAreLostSwaps(cfg, es);
  }
}
