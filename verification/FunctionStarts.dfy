/** Looking up the function that contains an offset, in the delta list of LC_FUNCTION_STARTS. */
module FunctionStarts {
  import opened Bits
  import opened Wrappers
  import opened Uleb128
  import opened LebIterator

  /** The position of the first element of the view above off, or the end. */
  function FirstAbove(encs: seq<Bytes>, init: nat, off: nat, from: nat): (k: nat)
    requires from <= |encs| && init < TWO_TO_64
    ensures from <= k <= |encs|
    ensures forall j | from <= j < k :: Element(encs, init, j) <= off
    ensures k < |encs| ==> Element(encs, init, k) > off
    decreases |encs| - from
  {
    if from == |encs| || Element(encs, init, from) > off then from else FirstAbove(encs, init, off, from + 1)
  }

  /**
   The result of the lookup in a buffer of complete numbers and a rest that is cut off; None when an
   assertion of the iterators fails.
   */
  function Lookup(encs: seq<Bytes>, rest: Bytes, init: nat, off: nat): Option<nat>
    requires init < TWO_TO_64
  {
    if encs == [] then None
    else if off < init then Some(0)
    else
      var k := FirstAbove(encs, init, off, 0);
      if k == |encs| then if rest == [] then Some(Element(encs, init, |encs| - 1)) else None
      else if CanStepBack(encs, k) then Some(Element(encs, init, k - 1))
      else None
  }

  // find_if: moves to the first element above off, remembering the last one it looked at.
  method FindAbove(off: nat, it: PsumIterator, ghost encs: seq<Bytes>, ghost rest: Bytes, ghost init: nat)
    returns (ok: bool, lastOffSeen: nat, ghost k: nat)
    requires init < TWO_TO_64 && encs != [] && AllEncodings(encs) && Endless(rest)
    requires PsumAt(encs, rest, init, 0, it.State())
    modifies it, it.base
    ensures k == FirstAbove(encs, init, off, 0)
    ensures ok <==> k < |encs| || rest == []
    ensures ok ==> PsumAt(encs, rest, init, k, it.State())
    ensures k == |encs| ==> lastOffSeen == Element(encs, init, k - 1)
  {
    hide PsumAt, PsumAdvance;
    ok := true;
    lastOffSeen := 0;
    k := 0;
    PsumAtReads(encs, rest, init, 0, it.State());
    while !it.base.IsSentinel()
      invariant k <= |encs| && ok && PsumAt(encs, rest, init, k, it.State())
      invariant it.base.IsSentinel() <==> k == |encs|
      invariant k == |encs| ==> rest == []
      invariant FirstAbove(encs, init, off, 0) == FirstAbove(encs, init, off, k)
      invariant k > 0 ==> lastOffSeen == Element(encs, init, k - 1)
      decreases |encs| - k
    {
      PsumAtReads(encs, rest, init, k, it.State());
      lastOffSeen := it.psum;
      if lastOffSeen > off {
        return;
      }
      PsumAdvanceAt(encs, rest, init, k, it.State());
      ok := it.Next();
      k := k + 1;
      if !ok {
        return;
      }
      PsumAtReads(encs, rest, init, k, it.State());
    }
  }

  method FuncStartForOffsets(off: nat, buf: Bytes, init: nat) returns (r: Option<nat>)
    requires init < TWO_TO_64
    ensures r == Lookup(Numbers(buf), CutOff(buf), init, off)
  {
    hide PsumAt, PsumBegin, PsumRetreat, Begin, Numbers, CutOff;
    ghost var encs, rest := Numbers(buf), CutOff(buf);
    BufferDivides(buf);
    PsumBeginAt(encs, rest, init);
    if Begin(buf).None? {
      return None;
    }
    var it := new PsumIterator(buf, init);
    PsumAtReads(encs, rest, init, 0, it.State());
    if it.base.IsSentinel() || off < it.psum {
      return Some(0);
    }
    var found, lastOffSeen, k := FindAbove(off, it, encs, rest, init);
    if !found {
      return None;
    }
    PsumAtReads(encs, rest, init, k, it.State());
    if it.base.IsSentinel() {
      return Some(lastOffSeen);
    }
    r := StepBack(it, encs, rest, init, k);
  }

  // *ranges::prev(it)
  method StepBack(it: PsumIterator, ghost encs: seq<Bytes>, ghost rest: Bytes, ghost init: nat, ghost k: nat)
    returns (r: Option<nat>)
    requires init < TWO_TO_64 && AllEncodings(encs) && PsumAt(encs, rest, init, k, it.State()) && k <= |encs|
    ensures r == if CanStepBack(encs, k) then Some(Element(encs, init, k - 1)) else None
  {
    hide PsumAt, PsumRetreat;
    PsumAtReads(encs, rest, init, k, it.State());
    PsumRetreatAt(encs, rest, init, k, it.State());
    var ourFunc := new PsumIterator.Copy(it);
    var ok := ourFunc.Prev();
    if !ok {
      return None;
    }
    PsumAtReads(encs, rest, init, k - 1, ourFunc.State());
    r := Some(ourFunc.psum);
  }

  /** Init and the first n deltas add up to a 64-bit number. */
  ghost predicate NoWrap(encs: seq<Bytes>, init: nat, n: nat)
    requires n <= |encs|
  {
    init + Total(encs, n) < TWO_TO_64
  }

  function Total(encs: seq<Bytes>, k: nat): nat
    requires k <= |encs|
  {
    if k == 0 then 0 else Total(encs, k - 1) + Delta(encs, k - 1)
  }

  lemma {:induction false} TotalGrows(encs: seq<Bytes>, j: nat, k: nat)
    requires j <= k <= |encs|
    ensures Total(encs, j) <= Total(encs, k)
    decreases k
  {
    if j < k {
      TotalGrows(encs, j, k - 1);
    }
  }

  lemma {:induction false} ElementIsTotal(encs: seq<Bytes>, init: nat, k: nat, n: nat)
    requires k <= n <= |encs| && NoWrap(encs, init, n)
    ensures Element(encs, init, k) == init + Total(encs, k)
  {
    TotalGrows(encs, k, n);
    if k != 0 {
      ElementIsTotal(encs, init, k - 1, n);
      var sum := init + Total(encs, k);
      ModUnique(sum, TWO_TO_64, 0, sum);
    }
  }

  lemma ElementsAscend(encs: seq<Bytes>, init: nat, j: nat, k: nat, n: nat)
    requires j <= k <= n <= |encs| && NoWrap(encs, init, n)
    ensures Element(encs, init, j) <= Element(encs, init, k)
  {
    ElementIsTotal(encs, init, j, n);
    ElementIsTotal(encs, init, k, n);
    TotalGrows(encs, j, k);
  }

  /** v is the greatest element of the view that does not exceed off. */
  ghost predicate IsFloor(encs: seq<Bytes>, init: nat, off: nat, v: nat)
    requires init < TWO_TO_64
  {
    && v <= off
    && (exists k | 0 <= k < |encs| :: Element(encs, init, k) == v)
    && forall k | 0 <= k < |encs| && Element(encs, init, k) <= off :: Element(encs, init, k) <= v
  }

  /**
   Where the lookup returns, it returns 0 below the first element and the floor from there on. The last
   delta is never added, so only the others must not wrap.
   */
  lemma LookupIsFloor(encs: seq<Bytes>, rest: Bytes, init: nat, off: nat)
    requires encs != [] && AllEncodings(encs) && init < TWO_TO_64 && NoWrap(encs, init, |encs| - 1)
    ensures off < init ==> Lookup(encs, rest, init, off) == Some(0)
    ensures off >= init && Lookup(encs, rest, init, off).Some? ==>
      IsFloor(encs, init, off, Lookup(encs, rest, init, off).value)
  {
    if off >= init {
      var k, n := FirstAbove(encs, init, off, 0), |encs| - 1;
      assert k > 0;
      var v := Element(encs, init, k - 1);
      forall j | 0 <= j < |encs| && Element(encs, init, j) <= off
        ensures Element(encs, init, j) <= v
      {
        if j < k {
          ElementsAscend(encs, init, j, k - 1, n);
        } else {
          ElementsAscend(encs, init, k, j, n);
        }
      }
    }
  }

  /** The search stops at position k: the first element above off. */
  ghost predicate StopsAt(encs: seq<Bytes>, init: nat, off: nat, k: nat)
    requires k < |encs| && init < TWO_TO_64
  {
    Element(encs, init, k) > off && forall j | 0 <= j < k :: Element(encs, init, j) <= off
  }

  /** The search stops at a number that is longer than all the bytes before it. */
  ghost predicate StopsEarly(encs: seq<Bytes>, init: nat, off: nat)
    requires init < TWO_TO_64
  {
    exists k | 1 <= k < |encs| :: StopsAt(encs, init, off, k) && |encs[k]| > Start(encs, k)
  }

  /** The search runs into a rest that is cut off. */
  ghost predicate RunsOff(encs: seq<Bytes>, rest: Bytes, init: nat, off: nat)
    requires init < TWO_TO_64
  {
    rest != [] && forall j | 0 <= j < |encs| :: Element(encs, init, j) <= off
  }

  /** For one offset these, and a buffer that starts with no number, are exactly the failing searches. */
  lemma LookupAssertsIff(encs: seq<Bytes>, rest: Bytes, init: nat, off: nat)
    requires AllEncodings(encs) && init < TWO_TO_64
    ensures Lookup(encs, rest, init, off).None? <==>
      encs == [] || StopsEarly(encs, init, off) || RunsOff(encs, rest, init, off)
  {
    if encs != [] {
      var n := FirstAbove(encs, init, off, 0);
      assert Element(encs, init, 0) == init;
      if off >= init && n < |encs| {
        StopsEarlyAt(encs, init, off, n);
        assert !RunsOff(encs, rest, init, off);
      } else {
        assert !StopsEarly(encs, init, off);
      }
    }
  }

  lemma StopsEarlyAt(encs: seq<Bytes>, init: nat, off: nat, n: nat)
    requires init < TWO_TO_64 && 1 <= n < |encs| && StopsAt(encs, init, off, n)
    ensures StopsEarly(encs, init, off) <==> |encs[n]| > Start(encs, n)
  {
    assert forall k | 1 <= k < |encs| && StopsAt(encs, init, off, k) :: k == n;
  }

  /** Position k of the view differs from the one before: some search can stop there. */
  ghost predicate CanHit(encs: seq<Bytes>, k: nat) {
    1 <= k < |encs| && Delta(encs, k - 1) != 0
  }

  /** The search stops at position k for the offset just below it, when the delta before is not zero. */
  lemma HitAt(encs: seq<Bytes>, init: nat, k: nat)
    requires encs != [] && AllEncodings(encs) && init < TWO_TO_64 && NoWrap(encs, init, |encs| - 1) && CanHit(encs, k)
    ensures StopsAt(encs, init, Element(encs, init, k - 1), k)
  {
    var n := |encs| - 1;
    ElementIsTotal(encs, init, k - 1, n);
    ElementIsTotal(encs, init, k, n);
    forall j | 0 <= j < k
      ensures Element(encs, init, j) <= Element(encs, init, k - 1)
    {
      ElementsAscend(encs, init, j, k - 1, n);
    }
  }

  /**
   Every offset is looked up without a failed assertion exactly when there are numbers, nothing is cut off
   and every number that follows a non-zero delta is no longer than all the bytes before it.
   */
  lemma AlwaysSafeIff(encs: seq<Bytes>, rest: Bytes, init: nat)
    requires AllEncodings(encs) && init < TWO_TO_64 && (encs != [] ==> NoWrap(encs, init, |encs| - 1))
    ensures (forall off: nat | off < TWO_TO_64 :: Lookup(encs, rest, init, off).Some?)
       <==> encs != [] && rest == [] && forall k: nat | CanHit(encs, k) :: |encs[k]| <= Start(encs, k)
  {
    hide Lookup, NoWrap;
    if encs == [] {
      LookupAssertsIff(encs, rest, init, 0);
      assert Lookup(encs, rest, init, 0).None?;
    } else if rest == [] && forall k: nat | CanHit(encs, k) :: |encs[k]| <= Start(encs, k) {
      forall off: nat | off < TWO_TO_64 ensures Lookup(encs, rest, init, off).Some? {
        LookupAssertsIff(encs, rest, init, off);
        forall k: nat | 1 <= k < |encs| && StopsAt(encs, init, off, k) ensures |encs[k]| <= Start(encs, k) {
          StopsBehindStep(encs, init, off, k);
        }
      }
    } else if rest != [] {
      var off := Element(encs, init, |encs| - 1);
      LookupAssertsIff(encs, rest, init, off);
      forall j | 0 <= j < |encs| ensures Element(encs, init, j) <= off {
        ElementsAscend(encs, init, j, |encs| - 1, |encs| - 1);
      }
      assert Lookup(encs, rest, init, off).None?;
    } else {
      var k: nat :| CanHit(encs, k) && |encs[k]| > Start(encs, k);
      var off := Element(encs, init, k - 1);
      HitAt(encs, init, k);
      LookupAssertsIff(encs, rest, init, off);
      assert Lookup(encs, rest, init, off).None?;
    }
  }

  lemma StopsBehindStep(encs: seq<Bytes>, init: nat, off: nat, k: nat)
    requires 1 <= k < |encs| && init < TWO_TO_64 && StopsAt(encs, init, off, k)
    ensures CanHit(encs, k)
  {
    if Delta(encs, k - 1) == 0 {
      var e := Element(encs, init, k - 1);
      ModUnique(e, TWO_TO_64, 0, e);
    }
  }

  /** In particular a first number at least as long as every other one is enough, also where sums wrap. */
  lemma LongFirstNumberIsSafe(encs: seq<Bytes>, init: nat, off: nat)
    requires encs != [] && AllEncodings(encs) && init < TWO_TO_64
    requires forall k | 0 <= k < |encs| :: |encs[k]| <= |encs[0]|
    ensures Lookup(encs, [], init, off).Some?
  {
    var k := FirstAbove(encs, init, off, 0);
    if off >= init && k < |encs| {
      if k > 1 {
        StartMonotone(encs, 1, k);
      }
      assert Start(encs, 1) == Start(encs, 0) + |encs[0]|;
    }
  }

  /** 1 followed by 16384: looking up offset 0 runs into the assertion of `--`. */
  lemma LookupCanAssert()
    ensures var buf: Bytes := [0x01, 0x80, 0x80, 0x01];
      Lookup(Numbers(buf), CutOff(buf), 0, 0) == None
  {
    var encs: seq<Bytes> := [[0x01], [0x80, 0x80, 0x01]];
    TwoNumbers(encs);
    DividesOnce(encs, []);
    ModUnique(1, TWO_TO_64, 0, 1);
    assert Element(encs, 0, 1) == 1;
    assert StopsAt(encs, 0, 0, 1);
    LookupAssertsIff(encs, [], 0, 0);
    assert Start(encs, 1) == Start(encs, 0) + 1 == 1;
  }

  /** Deltas 129, 5 and 0 from 0x1000 on: the bytes, and three lookups. */
  lemma LookupExample()
    ensures var buf: Bytes := [0x81, 0x01, 0x05, 0x00];
      && Lookup(Numbers(buf), CutOff(buf), 0x1000, 0xFFF) == Some(0)
      && Lookup(Numbers(buf), CutOff(buf), 0x1000, 0x1080) == Some(0x1000)
      && Lookup(Numbers(buf), CutOff(buf), 0x1000, 0x1083) == Some(0x1081)
      && Lookup(Numbers(buf), CutOff(buf), 0x1000, 0x2000) == Some(0x1086)
  {
    var encs: seq<Bytes> := [Encode(129), Encode(5), Encode(0)];
    ExampleNumbers(encs);
    assert Element(encs, 0x1000, 1) == 0x1081 && Element(encs, 0x1000, 2) == 0x1086;
    assert Start(encs, 1) == 2 && Start(encs, 2) == 3;
    ExampleAbove(encs);
  }

  lemma ExampleAbove(encs: seq<Bytes>)
    requires |encs| == 3 && Element(encs, 0x1000, 0) == 0x1000
    requires Element(encs, 0x1000, 1) == 0x1081 && Element(encs, 0x1000, 2) == 0x1086
    ensures FirstAbove(encs, 0x1000, 0x1080, 0) == 1 && FirstAbove(encs, 0x1000, 0x1083, 0) == 2
    ensures FirstAbove(encs, 0x1000, 0x2000, 0) == 3
  {
    hide Element;
  }

  lemma ExampleNumbers(encs: seq<Bytes>)
    requires encs == [Encode(129), Encode(5), Encode(0)]
    ensures AllEncodings(encs) && |encs[0]| == 2 && |encs[1]| == 1 && |encs[2]| == 1
    ensures Numbers([0x81, 0x01, 0x05, 0x00]) == encs && CutOff([0x81, 0x01, 0x05, 0x00]) == []
    ensures Delta(encs, 0) == 129 && Delta(encs, 1) == 5 && Delta(encs, 2) == 0
  {
    EncodeExamples();
    EncodeValue(129);
    EncodeValue(5);
    EncodeValue(0);
    ModUnique(129, TWO_TO_64, 0, 129);
    ModUnique(5, TWO_TO_64, 0, 5);
    assert encs[..2][..1] == [encs[0]] && encs[..2][..1][..0] == [];
    assert Concat(encs[..2][..1]) == [] + encs[0];
    assert Concat(encs[..2]) == Concat(encs[..2][..1]) + encs[1];
    assert Concat(encs) == Concat(encs[..2]) + encs[2];
    assert Concat(encs) + [] == [0x81, 0x01, 0x05, 0x00];
    DividesOnce(encs, []);
  }

  // The view is an exclusive scan: its first element is init, and the sum of all deltas is missing.

  /** The k-th function start of the load command: init plus the deltas up to and including the k-th. */
  function RealStart(encs: seq<Bytes>, init: nat, k: nat): nat
    requires k < |encs| && init < TWO_TO_64
  {
    Element(encs, init, k + 1)
  }

  ghost predicate Searched(encs: seq<Bytes>, init: nat, v: nat)
    requires init < TWO_TO_64
  {
    exists k | 0 <= k < |encs| :: Element(encs, init, k) == v
  }

  /** Every function start is among the searched elements exactly when the list ends in a zero delta. */
  lemma ZeroTerminatorIff(encs: seq<Bytes>, init: nat)
    requires encs != [] && AllEncodings(encs) && NoWrap(encs, init, |encs|)
    ensures (forall k | 0 <= k < |encs| :: Searched(encs, init, RealStart(encs, init, k)))
       <==> Delta(encs, |encs| - 1) == 0
  {
    var n := |encs|;
    ElementIsTotal(encs, init, n - 1, n);
    ElementIsTotal(encs, init, n, n);
    if Delta(encs, n - 1) == 0 {
      forall k | 0 <= k < n
        ensures Searched(encs, init, RealStart(encs, init, k))
      {
        var j := if k == n - 1 then k else k + 1;
        assert Element(encs, init, j) == RealStart(encs, init, k);
      }
    } else {
      forall k | 0 <= k < n
        ensures Element(encs, init, k) != RealStart(encs, init, n - 1)
      {
        ElementsAscend(encs, init, k, n - 1, n);
      }
      assert !Searched(encs, init, RealStart(encs, init, n - 1));
    }
  }

  /** A single function start at 1, with no terminator behind it, is not searched. */
  lemma MissingTerminator()
    ensures RealStart([[0x01]], 0, 0) == 1
    ensures !Searched([[0x01]], 0, 1)
  {
    var encs: seq<Bytes> := [[0x01]];
    assert Value([0x01]) == 1 + 0x80 * Value([]);
    assert encs[0][1..] == [];
    ModUnique(1, TWO_TO_64, 0, 1);
    assert Element(encs, 0, 0) == 0;
  }

  // The two views of one load command

  // file_offsets
  function FileInit(vmaddr: nat, fileoff: nat): nat {
    fileoff % TWO_TO_64
  }

  // vm_addrs: vmaddr_fileoff_delta()
  function VmInit(vmaddr: nat, fileoff: nat): nat {
    (vmaddr - fileoff) % TWO_TO_64
  }

  lemma {:induction false} ShiftedElement(encs: seq<Bytes>, init: nat, shift: nat, k: nat)
    requires k <= |encs| && init < TWO_TO_64
    ensures Element(encs, (init + shift) % TWO_TO_64, k) == (Element(encs, init, k) + shift) % TWO_TO_64
  {
    hide Delta;
    if k != 0 {
      ShiftedElement(encs, init, shift, k - 1);
      var e, d := Element(encs, init, k - 1), Delta(encs, k - 1);
      ModAdd(e + shift, d, TWO_TO_64);
      ModAdd(e + d, shift, TWO_TO_64);
    }
  }

  /**
   Corresponding elements of the two views are vmaddr - fileoff apart, as the addresses they stand for
   are, exactly when the text segment starts at file offset 0.
   */
  lemma ViewsAgreeIff(encs: seq<Bytes>, vmaddr: nat, fileoff: nat, k: nat)
    requires k <= |encs| && vmaddr < TWO_TO_64 && fileoff < TWO_TO_64
    ensures Element(encs, VmInit(vmaddr, fileoff), k)
         == (Element(encs, FileInit(vmaddr, fileoff), k) + VmInit(vmaddr, fileoff)) % TWO_TO_64
       <==> fileoff == 0
  {
    hide Element, VmInit;
    var v, e := VmInit(vmaddr, fileoff), Element(encs, 0, k);
    VmInitFits(vmaddr, fileoff);
    StartedAt(encs, v, k);
    StartedAt(encs, fileoff, k);
    ModAdd(e + fileoff, v, TWO_TO_64);
    ShiftedApart(e + v, fileoff);
  }

  lemma VmInitFits(vmaddr: nat, fileoff: nat)
    requires fileoff < TWO_TO_64
    ensures VmInit(vmaddr, fileoff) < TWO_TO_64 && FileInit(vmaddr, fileoff) == fileoff
  {
  }

  lemma StartedAt(encs: seq<Bytes>, init: nat, k: nat)
    requires k <= |encs| && init < TWO_TO_64
    ensures Element(encs, init, k) == (Element(encs, 0, k) + init) % TWO_TO_64
  {
    ShiftedElement(encs, 0, init, k);
    ModUnique(init, TWO_TO_64, 0, init);
  }

  /** Offset 1 of a text segment at file offset 1 and address 5 is address 5, but the view starts at 4. */
  lemma ViewsCanDisagree(encs: seq<Bytes>)
    ensures Element(encs, FileInit(5, 1), 0) == 1
    ensures Element(encs, VmInit(5, 1), 0) == 4 != 5 == (1 + VmInit(5, 1)) % TWO_TO_64
  {
    ModUnique(4, TWO_TO_64, 0, 4);
    ModUnique(5, TWO_TO_64, 0, 5);
  }

  lemma ShiftedApart(x: nat, d: nat)
    requires d < TWO_TO_64
    ensures x % TWO_TO_64 == (x + d) % TWO_TO_64 <==> d == 0
  {
    if d != 0 {
      ModDistinct(x, x + d, TWO_TO_64);
    }
  }
}
