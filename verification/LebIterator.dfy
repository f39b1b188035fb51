/** The bidirectional iterator over a buffer of ULEB128 numbers, and the running sum on top of it. */
module LebIterator {
  import opened Bits
  import opened Wrappers
  import opened Uleb128

  /** Fields of LEB128Iterator. An iterator with nbytes == 0 is the sentinel. */
  datatype Leb = Leb(buf: Bytes, idx: nat, nbytes: nat, val: nat)

  // The functions below are None when an assertion of the original fails.

  function ReadForward(it: Leb): Option<Leb>
    requires it.idx <= |it.buf|
  {
    match DecodeUleb128(it.buf[it.idx..])
    case Number(n, v) => Some(it.(nbytes := n, val := v))
    case _ => None
  }

  function Begin(buf: Bytes): Option<Leb> {
    ReadForward(Leb(buf, 0, 0, 0))
  }

  /** `++` */
  function Advance(it: Leb): Option<Leb> {
    var idx := it.idx + it.nbytes;
    if idx > |it.buf| then None
    else if idx == |it.buf| then Some(it.(idx := idx, nbytes := 0))
    else ReadForward(it.(idx := idx))
  }

  /** `--` */
  function Retreat(it: Leb): Option<Leb>
    requires it.idx <= |it.buf|
  {
    if it.idx < it.nbytes then None
    else
      match Backwards(it.buf[..it.idx])
      case Number(n, v) => if n <= it.idx then Some(it.(idx := it.idx - n, nbytes := n, val := v)) else None
      case _ => None
  }

  class LEB128Iterator {
    const mBuf: Bytes
    var mIdx: nat
    var mNbytes: nat
    var mVal: nat

    function State(): Leb
      reads this
    {
      Leb(mBuf, mIdx, mNbytes, mVal)
    }

    constructor (lebBuf: Bytes)
      requires Begin(lebBuf).Some?
      ensures Begin(lebBuf) == Some(State())
    {
      mBuf := lebBuf;
      mIdx := 0;
      var r := DecodeUleb128(lebBuf[0..]);
      mNbytes := r.nbytes;
      mVal := r.value;
    }

    constructor Copy(it: LEB128Iterator)
      ensures State() == it.State()
    {
      mBuf := it.mBuf;
      mIdx := it.mIdx;
      mNbytes := it.mNbytes;
      mVal := it.mVal;
    }

    predicate IsSentinel()
      reads this
    {
      mNbytes == 0
    }

    /** `++`; the result is false when an assertion fails. */
    method Next() returns (ok: bool)
      modifies this
      ensures ok <==> Advance(old(State())).Some?
      ensures ok ==> Advance(old(State())) == Some(State())
    {
      mIdx := mIdx + mNbytes;
      if mIdx > |mBuf| {
        return false;
      }
      if mIdx == |mBuf| {
        mNbytes := 0;
      } else {
        var r := DecodeUleb128(mBuf[mIdx..]);
        if !r.Number? {
          return false;
        }
        mNbytes := r.nbytes;
        mVal := r.value;
      }
      ok := true;
    }

    /** `--`; the result is false when an assertion fails. */
    method Prev() returns (ok: bool)
      requires mIdx <= |mBuf|
      modifies this
      ensures ok <==> Retreat(old(State())).Some?
      ensures ok ==> Retreat(old(State())) == Some(State())
    {
      if mIdx < mNbytes {
        return false;
      }
      var r, _ := DecodeUleb128Backwards(mBuf[..mIdx]);
      if !r.Number? {
        return false;
      }
      BackwardsFits(mBuf[..mIdx]);
      mNbytes := r.nbytes;
      mVal := r.value;
      mIdx := mIdx - mNbytes;
      ok := true;
    }
  }

  lemma BackwardsFits(s: Bytes)
    ensures Backwards(s).Number? ==> Backwards(s).nbytes <= |s|
  {
    if s != [] {
      BackwardsExact(s);
    }
  }

  // Positions in a buffer of complete numbers `encs` and a rest that is cut off

  function Delta(encs: seq<Bytes>, k: nat): nat
    requires k < |encs|
  {
    Value(encs[k]) % TWO_TO_64
  }

  /** `it` stands at the k-th of the numbers; at |encs| it is the sentinel that `++` produces. */
  ghost predicate At(encs: seq<Bytes>, rest: Bytes, k: nat, it: Leb) {
    && k <= |encs|
    && it.buf == Concat(encs) + rest
    && it.idx == Start(encs, k)
    && (k < |encs| ==> it.nbytes == |encs[k]| && it.val == Delta(encs, k))
    && (k == |encs| ==> it.nbytes == 0 && rest == [])
  }

  lemma StartBounds(encs: seq<Bytes>, k: nat)
    requires k <= |encs| && AllEncodings(encs)
    ensures Start(encs, k) <= |Concat(encs)|
    ensures k < |encs| ==> Start(encs, k) < |Concat(encs)|
    ensures k == |encs| ==> Start(encs, k) == |Concat(encs)|
  {
    if k < |encs| {
      SplitAt(encs, k);
    } else {
      StartIsLength(encs, k);
      assert encs[..k] == encs;
    }
  }

  lemma ReadForwardAt(encs: seq<Bytes>, rest: Bytes, k: nat, it: Leb)
    requires AllEncodings(encs) && k < |encs| && it.buf == Concat(encs) + rest && it.idx == Start(encs, k)
    ensures it.idx <= |it.buf|
    ensures ReadForward(it) == Some(it.(nbytes := |encs[k]|, val := Delta(encs, k)))
  {
    hide Concat, DecodeUleb128, IsEncoding, Value;
    StartBounds(encs, k);
    SplitAt(encs, k);
    var behind := Concat(encs)[Start(encs, k + 1)..] + rest;
    assert it.buf[it.idx..] == Concat(encs)[it.idx..] + rest == encs[k] + behind;
    DecodeFront(encs[k], behind);
  }

  /** Behind the last complete number nothing can be read. */
  lemma ReadCutOff(encs: seq<Bytes>, rest: Bytes, it: Leb)
    requires AllEncodings(encs) && Endless(rest)
    requires it.buf == Concat(encs) + rest && it.idx == Start(encs, |encs|)
    ensures it.idx <= |it.buf| && ReadForward(it) == None
  {
    StartBounds(encs, |encs|);
    assert it.buf[it.idx..] == rest;
  }

  /** An iterator can be had exactly if the buffer starts with a complete number. */
  lemma BeginAt(encs: seq<Bytes>, rest: Bytes)
    requires AllEncodings(encs) && Endless(rest)
    ensures Begin(Concat(encs) + rest).Some? <==> encs != []
    ensures encs != [] ==> At(encs, rest, 0, Begin(Concat(encs) + rest).value)
  {
    var it := Leb(Concat(encs) + rest, 0, 0, 0);
    if encs == [] {
      ReadCutOff(encs, rest, it);
    } else {
      ReadForwardAt(encs, rest, 0, it);
    }
  }

  /**
   `++` moves to the next number, or from the last one to the sentinel, where it stays. It fails exactly
   when what follows is cut off.
   */
  lemma AdvanceAt(encs: seq<Bytes>, rest: Bytes, k: nat, it: Leb)
    requires AllEncodings(encs) && Endless(rest) && At(encs, rest, k, it)
    ensures Advance(it).Some? <==> k + 1 < |encs| || rest == []
    ensures Advance(it).Some? ==> At(encs, rest, if k < |encs| then k + 1 else k, Advance(it).value)
  {
    hide Concat, IsEncoding, Value, ReadForward;
    if k < |encs| {
      SplitAt(encs, k);
      StartBounds(encs, k + 1);
      if k + 1 < |encs| {
        ReadForwardAt(encs, rest, k + 1, it.(idx := Start(encs, k + 1)));
      } else if rest != [] {
        ReadCutOff(encs, rest, it.(idx := Start(encs, k + 1)));
      }
    } else {
      StartBounds(encs, k);
    }
  }

  predicate CanStepBack(encs: seq<Bytes>, k: nat)
    requires k <= |encs|
  {
    k > 0 && (k < |encs| ==> |encs[k]| <= Start(encs, k))
  }

  /** What the backward reader finds before position k. */
  lemma BeforePosition(encs: seq<Bytes>, k: nat)
    requires AllEncodings(encs) && 0 < k <= |encs|
    ensures Start(encs, k - 1) + |encs[k - 1]| == Start(encs, k) <= |Concat(encs)|
    ensures Backwards(Concat(encs)[..Start(encs, k)]) == Number(|encs[k - 1]|, Delta(encs, k - 1))
  {
    hide Concat, Backwards, Value, IsEncoding, More;
    SplitAt(encs, k - 1);
    BackwardsOfConcat(encs[..k]);
  }

  /** `--` steps back from position k exactly if the number there is no longer than everything before it. */
  lemma RetreatAt(encs: seq<Bytes>, rest: Bytes, k: nat, it: Leb)
    requires AllEncodings(encs) && At(encs, rest, k, it)
    ensures it.idx <= |it.buf|
    ensures Retreat(it).Some? <==> CanStepBack(encs, k)
    ensures Retreat(it).Some? ==> At(encs, rest, k - 1, Retreat(it).value)
  {
    hide Concat, IsEncoding, Value, More;
    StartBounds(encs, k);
    assert it.buf[..it.idx] == Concat(encs)[..it.idx];
    if k != 0 {
      BeforePosition(encs, k);
    }
  }

  /** `--` undoes `++`, from the sentinel as well, whenever the two assertions hold. */
  lemma RetreatUndoesAdvance(encs: seq<Bytes>, rest: Bytes, k: nat, it: Leb)
    requires AllEncodings(encs) && Endless(rest) && At(encs, rest, k, it) && k < |encs|
    ensures Advance(it).Some? ==> Advance(it).value.idx <= |it.buf|
    ensures Advance(it).Some? && CanStepBack(encs, k + 1) ==> Retreat(Advance(it).value) == Some(it)
  {
    hide Advance, Retreat, Concat, CanStepBack;
    AdvanceAt(encs, rest, k, it);
    if Advance(it).Some? {
      RetreatAt(encs, rest, k + 1, Advance(it).value);
    }
  }

  /** Stepping back from the end always works. */
  lemma LastFromEnd(encs: seq<Bytes>, it: Leb)
    requires AllEncodings(encs) && encs != [] && At(encs, [], |encs|, it)
    ensures it.idx <= |it.buf|
    ensures Retreat(it).Some? && At(encs, [], |encs| - 1, Retreat(it).value)
  {
    RetreatAt(encs, [], |encs|, it);
  }

  /** Stepping back from the second of two numbers fails when it is the longer one: here 1 and 16384. */
  lemma StepBackCanAssert() returns (begin: Leb, second: Leb)
    ensures Begin([0x01, 0x80, 0x80, 0x01]) == Some(begin) && begin.val == 1
    ensures Advance(begin) == Some(second) && second.val == 16384
    ensures second.idx <= |second.buf| && Retreat(second) == None
  {
    hide Begin, Advance, Retreat;
    var encs: seq<Bytes> := [[0x01], [0x80, 0x80, 0x01]];
    TwoNumbers(encs);
    BeginAt(encs, []);
    begin := Begin(Concat(encs) + []).value;
    AdvanceAt(encs, [], 0, begin);
    second := Advance(begin).value;
    RetreatAt(encs, [], 1, second);
  }

  lemma TwoNumbers(encs: seq<Bytes>)
    requires encs == [[0x01], [0x80, 0x80, 0x01]]
    ensures AllEncodings(encs) && Concat(encs) + [] == [0x01, 0x80, 0x80, 0x01]
    ensures Delta(encs, 0) == 1 && Delta(encs, 1) == 16384 && !CanStepBack(encs, 1)
  {
    assert encs[..1] == [encs[0]] && encs[..1][..0] == [];
    assert Concat(encs[..1]) == [] + encs[0];
    assert Concat(encs) == Concat(encs[..1]) + encs[1];
    assert Start(encs, 1) == Start(encs, 0) + 1 == 1;
    assert encs[0][1..] == [];
    assert encs[1][1..] == [0x80, 0x01] && [0x80, 0x01][1..] == [0x01] && [0x01][1..] == [];
    assert Value([0x01]) == 1 && Value([0x80, 0x01]) == 128 && Value(encs[1]) == 16384;
  }

  /** The iterator's equality: sentinels are equal to each other and to nothing else. */
  predicate Same(a: Leb, b: Leb) {
    if a.nbytes == 0 || b.nbytes == 0 then a.nbytes == b.nbytes
    else a.buf == b.buf && a.idx == b.idx
  }

  lemma {:induction false} StartMonotone(encs: seq<Bytes>, j: nat, k: nat)
    requires AllEncodings(encs) && j < k <= |encs|
    ensures Start(encs, j) < Start(encs, k)
    decreases k
  {
    SplitAt(encs, k - 1);
    if j < k - 1 {
      StartMonotone(encs, j, k - 1);
    }
  }

  /** Over one buffer, equality is equality of positions. */
  lemma SameIsPosition(encs: seq<Bytes>, rest: Bytes, j: nat, k: nat, a: Leb, b: Leb)
    requires AllEncodings(encs) && At(encs, rest, j, a) && At(encs, rest, k, b)
    ensures Same(a, b) <==> j == k
  {
    if j < k {
      StartMonotone(encs, j, k);
    } else if k < j {
      StartMonotone(encs, k, j);
    }
  }

  // Running sums

  /** An iterator of psum_view: the base iterator and the sum of everything before it. */
  datatype Psum = Psum(base: Leb, psum: nat)

  function PsumBegin(buf: Bytes, init: nat): Option<Psum> {
    var it := Begin(buf);
    if it.Some? then Some(Psum(it.value, init)) else None
  }

  function PsumAdvance(p: Psum): Option<Psum> {
    var it := Advance(p.base);
    if it.Some? then Some(Psum(it.value, (p.psum + p.base.val) % TWO_TO_64)) else None
  }

  function PsumRetreat(p: Psum): Option<Psum>
    requires p.base.idx <= |p.base.buf|
  {
    var it := Retreat(p.base);
    if it.Some? then Some(Psum(it.value, (p.psum - it.value.val) % TWO_TO_64)) else None
  }

  class PsumIterator {
    const base: LEB128Iterator
    var psum: nat

    function State(): Psum
      reads this, base
    {
      Psum(base.State(), psum)
    }

    constructor (buf: Bytes, init: nat)
      requires Begin(buf).Some?
      ensures fresh(base) && PsumBegin(buf, init) == Some(State())
    {
      base := new LEB128Iterator(buf);
      psum := init;
    }

    constructor Copy(it: PsumIterator)
      ensures fresh(base) && State() == it.State()
    {
      base := new LEB128Iterator.Copy(it.base);
      psum := it.psum;
    }

    method Next() returns (ok: bool)
      modifies this, base
      ensures ok <==> PsumAdvance(old(State())).Some?
      ensures ok ==> PsumAdvance(old(State())) == Some(State())
    {
      psum := (psum + base.mVal) % TWO_TO_64;
      ok := base.Next();
    }

    method Prev() returns (ok: bool)
      requires base.mIdx <= |base.mBuf|
      modifies this, base
      ensures ok <==> PsumRetreat(old(State())).Some?
      ensures ok ==> PsumRetreat(old(State())) == Some(State())
    {
      ok := base.Prev();
      if ok {
        psum := (psum - base.mVal) % TWO_TO_64;
      }
    }
  }

  /** The element of the view at position k: init plus the first k deltas, in 64 bits. */
  function Element(encs: seq<Bytes>, init: nat, k: nat): (v: nat)
    requires k <= |encs| && init < TWO_TO_64
    ensures v < TWO_TO_64
  {
    if k == 0 then init else (Element(encs, init, k - 1) + Delta(encs, k - 1)) % TWO_TO_64
  }

  ghost predicate PsumAt(encs: seq<Bytes>, rest: Bytes, init: nat, k: nat, p: Psum)
    requires init < TWO_TO_64
  {
    At(encs, rest, k, p.base) && p.psum == Element(encs, init, k)
  }

  lemma PsumBeginAt(encs: seq<Bytes>, rest: Bytes, init: nat)
    requires AllEncodings(encs) && Endless(rest) && init < TWO_TO_64
    ensures Begin(Concat(encs) + rest).Some? <==> encs != []
    ensures PsumBegin(Concat(encs) + rest, init).Some? <==> encs != []
    ensures encs != [] ==> PsumAt(encs, rest, init, 0, PsumBegin(Concat(encs) + rest, init).value)
  {
    BeginAt(encs, rest);
  }

  /** After `++` the sum is that of the next position. */
  lemma PsumAdvanceAt(encs: seq<Bytes>, rest: Bytes, init: nat, k: nat, p: Psum)
    requires AllEncodings(encs) && Endless(rest) && init < TWO_TO_64 && PsumAt(encs, rest, init, k, p) && k < |encs|
    ensures PsumAdvance(p).Some? <==> k + 1 < |encs| || rest == []
    ensures PsumAdvance(p).Some? ==> PsumAt(encs, rest, init, k + 1, PsumAdvance(p).value)
  {
    hide Advance;
    AdvanceAt(encs, rest, k, p.base);
  }

  /** What a reader of the iterator sees. */
  lemma PsumAtReads(encs: seq<Bytes>, rest: Bytes, init: nat, k: nat, p: Psum)
    requires AllEncodings(encs) && init < TWO_TO_64 && PsumAt(encs, rest, init, k, p)
    ensures k <= |encs| && p.base.idx <= |p.base.buf| && p.psum == Element(encs, init, k)
    ensures p.base.nbytes == 0 <==> k == |encs|
  {
    StartBounds(encs, k);
  }

  lemma PsumRetreatAt(encs: seq<Bytes>, rest: Bytes, init: nat, k: nat, p: Psum)
    requires AllEncodings(encs) && init < TWO_TO_64 && PsumAt(encs, rest, init, k, p)
    ensures p.base.idx <= |p.base.buf|
    ensures PsumRetreat(p).Some? <==> CanStepBack(encs, k)
    ensures PsumRetreat(p).Some? ==> PsumAt(encs, rest, init, k - 1, PsumRetreat(p).value)
  {
    RetreatAt(encs, rest, k, p.base);
    if k > 0 {
      ModAddSub(Element(encs, init, k - 1), Delta(encs, k - 1), TWO_TO_64);
    }
  }

  /** One `++` (when `forward`) or `--`; None at the end going forward and where an assertion fails. */
  function Move(p: Psum, forward: bool): Option<Psum> {
    if p.base.idx > |p.base.buf| then None
    else if !forward then PsumRetreat(p)
    else if p.base.nbytes == 0 then None
    else PsumAdvance(p)
  }

  function Walk(p: Psum, moves: seq<bool>): Option<Psum> {
    if moves == [] then Some(p)
    else
      var q := Walk(p, moves[..|moves| - 1]);
      if q.Some? then Move(q.value, moves[|moves| - 1]) else None
  }

  /** Steps forward less steps back. */
  function Net(moves: seq<bool>): int {
    if moves == [] then 0 else Net(moves[..|moves| - 1]) + Direction(moves[|moves| - 1])
  }

  function Direction(forward: bool): int {
    if forward then 1 else -1
  }

  /** p stands at position k of the view. */
  ghost predicate Stands(encs: seq<Bytes>, rest: Bytes, init: nat, k: int, p: Psum)
    requires init < TWO_TO_64
  {
    0 <= k <= |encs| && PsumAt(encs, rest, init, k, p)
  }

  lemma MoveAt(encs: seq<Bytes>, rest: Bytes, init: nat, k: int, p: Psum, forward: bool)
    requires AllEncodings(encs) && Endless(rest) && init < TWO_TO_64 && Stands(encs, rest, init, k, p)
    requires Move(p, forward).Some?
    ensures Stands(encs, rest, init, k + Direction(forward), Move(p, forward).value)
  {
    if forward {
      PsumAdvanceAt(encs, rest, init, k, p);
    } else {
      PsumRetreatAt(encs, rest, init, k, p);
    }
  }

  /** After any walk the running sum depends on the position alone: init plus the deltas before it. */
  lemma {:induction false} WalkEndsAt(encs: seq<Bytes>, rest: Bytes, init: nat, from: nat, p: Psum, moves: seq<bool>)
    requires AllEncodings(encs) && Endless(rest) && init < TWO_TO_64 && Stands(encs, rest, init, from, p)
    requires Walk(p, moves).Some?
    ensures Stands(encs, rest, init, from + Net(moves), Walk(p, moves).value)
  {
    hide Move, Stands;
    if moves != [] {
      var moves', last := moves[..|moves| - 1], moves[|moves| - 1];
      WalkEndsAt(encs, rest, init, from, p, moves');
      var k, q := from + Net(moves'), Walk(p, moves').value;
      assert Walk(p, moves) == Move(q, last);
      MoveAt(encs, rest, init, k, q, last);
      assert Net(moves) == Net(moves') + Direction(last);
    }
  }
}
