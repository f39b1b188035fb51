/**
 The single-producer, multi-consumer ring buffer as a transition system.

 One producer pushes the values of `inputs` in order and then calls `finish`; every consumer runs
 the harness loop `while (!(is_done() && empty())) { pop() }`. Each event is one shared-memory access:
 an atomic load of the index pair, one word of a slot written or read, the publishing store of the write
 index, or a compare-and-swap of the read index. Words of one slot may be transferred in any order.
 */
module SpmcRing {
  import opened Bits
  import opened Wrappers

  type Word = int
  type Value = seq<Word>

  /** The buffer has 2^logSize slots of `width` words; `initial` is whatever memory held before. */
  datatype Config = Config(logSize: nat, width: nat, consumers: nat, inputs: seq<Value>, initial: seq<Value>)
  {
    // static_size_raw
    function Size(): (n: nat)
      ensures n >= 1
    {
      Pow2(logSize)
    }

    // Indices are 64 bits wide and must not wrap.
    predicate Valid() {
      && 2 * Size() <= TWO_TO_64
      && |inputs| < TWO_TO_64
      && (forall v | v in inputs :: |v| == width)
      && |initial| == Size()
      && (forall v | v in initial :: |v| == width)
    }

    // The physical slot behind index `raw`; SlotOfMaskedIndex ties it to the mask and the mirror mapping.
    function Slot(raw: nat): (j: nat)
      ensures j < Size()
    {
      raw % Size()
    }
  }

  /** Element v of the doubly mapped buffer and element v + Size() are the same memory. */
  lemma SlotOfMaskedIndex(cfg: Config, raw: nat)
    ensures And(raw, 2 * cfg.Size() - 1) < 2 * cfg.Size()
    ensures And(raw, 2 * cfg.Size() - 1) % cfg.Size() == cfg.Slot(raw)
  {
    MaskIndex(raw, cfg.logSize);
    ModMod(raw, cfg.Size(), 0);
  }

  /** Words transferred so far, by position. */
  type Partial = map<nat, Word>

  datatype ProducerPc =
    | Load                                    // about to load the index pair, or to finish
    | Write(wrRaw: nat, written: set<nat>)    // constructing the value in the slot
    | ReadBack(wrRaw: nat, got: Partial)      // copying it out again for the caller
    | Finished

  datatype ConsumerPc =
    | ReadDone
    | ReadEmpty
    | LoadPair
    | Copy(rdRaw: nat, got: Partial)
    | Exited

  datatype Consumer = Consumer(pc: ConsumerPc, results: seq<Value>)

  /** Shared memory, thread states and, from `popped` on, histories no thread reads. */
  datatype State = State(
    mem: seq<Value>, rd: nat, wr: nat, done: bool,
    producer: ProducerPc, next: nat, consumers: seq<Consumer>,
    assertFailed: bool,
    popped: seq<Value>, echoed: seq<Value>, log: seq<nat>, casFailures: nat)

  datatype Event =
    | Finish
    | LoadForPush
    | WriteWord(k: nat)
    | StartReadBack
    | ReadBackWord(k: nat)
    | Publish
    | TestDone(c: nat)
    | TestEmpty(c: nat)
    | LoadForPop(c: nat)
    | CopyWord(c: nat, k: nat)
    | Cas(c: nat)

  function Init(cfg: Config): State {
    State(cfg.initial, 0, 0, false, Load, 0, seq(cfg.consumers, _ => Consumer(ReadDone, [])),
          false, [], [], [], 0)
  }

  function Assemble(got: Partial, width: nat): (v: Value) {
    seq(width, k => if k in got then got[k] else 0)
  }

  /** The whole value has been transferred. */
  predicate Complete(got: Partial, width: nat) {
    forall k: nat | k < width :: k in got
  }

  /** Slots keep their number and their width. */
  predicate Shape(cfg: Config, s: State) {
    |s.mem| == cfg.Size() && forall m | m in s.mem :: |m| == cfg.width
  }

  predicate Enabled(cfg: Config, s: State, e: Event) {
    match e
    case Finish => s.producer.Load? && s.next >= |cfg.inputs|
    case LoadForPush => s.producer.Load? && s.next < |cfg.inputs|
    case WriteWord(k) => s.producer.Write? && s.next < |cfg.inputs| && k < cfg.width && k !in s.producer.written
    case StartReadBack => s.producer.Write? && forall k: nat | k < cfg.width :: k in s.producer.written
    case ReadBackWord(k) => s.producer.ReadBack? && k < cfg.width && k !in s.producer.got
    case Publish => s.producer.ReadBack? && Complete(s.producer.got, cfg.width)
    case TestDone(c) => c < |s.consumers| && s.consumers[c].pc.ReadDone?
    case TestEmpty(c) => c < |s.consumers| && s.consumers[c].pc.ReadEmpty?
    case LoadForPop(c) => c < |s.consumers| && s.consumers[c].pc.LoadPair?
    case CopyWord(c, k) =>
      c < |s.consumers| && s.consumers[c].pc.Copy? && k < cfg.width && k !in s.consumers[c].pc.got
    case Cas(c) =>
      c < |s.consumers| && s.consumers[c].pc.Copy? && Complete(s.consumers[c].pc.got, cfg.width)
  }

  function SetPc(s: State, c: nat, pc: ConsumerPc): State
    requires c < |s.consumers|
  {
    s.(consumers := s.consumers[c := s.consumers[c].(pc := pc)])
  }

  // rdFullVal, in wrapping unsigned arithmetic
  function FullMark(cfg: Config, wr: nat): nat {
    (wr - cfg.Size() + 1) % TWO_TO_64
  }

  predicate ByProducer(e: Event) {
    e.Finish? || e.LoadForPush? || e.WriteWord? || e.StartReadBack? || e.ReadBackWord? || e.Publish?
  }

  function ApplyProducer(cfg: Config, s: State, e: Event): (s': State)
    requires cfg.Valid() && Shape(cfg, s) && Enabled(cfg, s, e)
    requires ByProducer(e)
    ensures Shape(cfg, s')
  {
    match e
    case Finish => s.(assertFailed := s.assertFailed || s.done, done := true, producer := Finished)
    case LoadForPush =>
      if s.rd == FullMark(cfg, s.wr) then s else s.(producer := Write(s.wr, {}))
    case WriteWord(k) =>
      var j := cfg.Slot(s.producer.wrRaw);
      s.(mem := s.mem[j := s.mem[j][k := cfg.inputs[s.next][k]]],
         producer := Write(s.producer.wrRaw, s.producer.written + {k}))
    case StartReadBack => s.(producer := ReadBack(s.producer.wrRaw, map[]))
    case ReadBackWord(k) =>
      s.(producer := ReadBack(s.producer.wrRaw, s.producer.got[k := s.mem[cfg.Slot(s.producer.wrRaw)][k]]))
    case Publish =>
      s.(wr := (s.producer.wrRaw + 1) % TWO_TO_64, next := s.next + 1,
         echoed := s.echoed + [Assemble(s.producer.got, cfg.width)], producer := Load)
  }

  function ApplyConsumer(cfg: Config, s: State, e: Event): (s': State)
    requires Shape(cfg, s) && Enabled(cfg, s, e)
    requires !ByProducer(e)
    ensures Shape(cfg, s')
  {
    match e
    case TestDone(c) => SetPc(s, c, if s.done then ReadEmpty else LoadPair)
    case TestEmpty(c) =>
      SetPc(s, c, if s.rd == s.wr then Exited else LoadPair).(assertFailed := s.assertFailed || s.rd > s.wr)
    case LoadForPop(c) =>
      SetPc(s, c, if s.rd == s.wr then ReadDone else Copy(s.rd, map[])).(assertFailed := s.assertFailed || s.rd > s.wr)
    case CopyWord(c, k) =>
      var pc := s.consumers[c].pc;
      SetPc(s, c, Copy(pc.rdRaw, pc.got[k := s.mem[cfg.Slot(pc.rdRaw)][k]]))
    case Cas(c) =>
      var pc := s.consumers[c].pc;
      if s.rd == pc.rdRaw then
        var value := Assemble(pc.got, cfg.width);
        s.(rd := (pc.rdRaw + 1) % TWO_TO_64,
           consumers := s.consumers[c := Consumer(ReadDone, s.consumers[c].results + [value])],
           popped := s.popped + [value], log := s.log + [c])
      else
        SetPc(s, c, LoadPair).(casFailures := s.casFailures + 1)
  }

  function Apply(cfg: Config, s: State, e: Event): (s': State)
    requires cfg.Valid() && Shape(cfg, s) && Enabled(cfg, s, e)
    ensures Shape(cfg, s')
  {
    if ByProducer(e) then ApplyProducer(cfg, s, e) else ApplyConsumer(cfg, s, e)
  }

  /** The state after the events, or None when some event was not enabled at its turn. */
  function Run(cfg: Config, es: seq<Event>): (r: Option<State>)
    requires cfg.Valid()
    ensures r.Some? ==> Shape(cfg, r.value)
  {
    if es == [] then Some(Init(cfg))
    else
      var r := Run(cfg, es[..|es| - 1]);
      if r.Some? && Enabled(cfg, r.value, es[|es| - 1]) then Some(Apply(cfg, r.value, es[|es| - 1])) else None
  }
}
