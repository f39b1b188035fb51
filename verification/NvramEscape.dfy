/**
 The NVRAM escape code: runs of 0x00 and of 0xFF become 0xFF followed by a byte with the fill in its
 top bit and the length in the other seven; every other byte stands for itself.
 */
module NvramEscape {
  import opened Bits
  import opened Wrappers

  predicate IsFill(b: Byte) {
    b == 0x00 || b == 0xFF
  }

  function Fill(b: Byte, n: nat): (d: Bytes)
    ensures |d| == n
  {
    seq(n, _ => b)
  }

  /** Length of the maximal run of b at the front of d. */
  function RunLength(d: Bytes, b: Byte): (n: nat)
    ensures n <= |d|
    ensures d[..n] == Fill(b, n)
    ensures n < |d| ==> d[n] != b
  {
    if d == [] || d[0] != b then 0 else
      var n := RunLength(d[1..], b);
      assert d[..n + 1] == [b] + d[1..][..n];
      n + 1
  }

  /** The run taken at the front of d: at most 0x7F bytes of it. */
  function Taken(d: Bytes): (n: nat)
    requires d != [] && IsFill(d[0])
    ensures 1 <= n <= 0x7F && n <= |d|
    ensures d[..n] == Fill(d[0], n)
  {
    var n := RunLength(d, d[0]);
    var m := if n < 0x7F then n else 0x7F;
    assert d[..m] == d[..n][..m];
    m
  }

  // (byte & 0x80) | count
  function RunByte(b: Byte, count: nat): (r: Byte)
    requires 1 <= count <= 0x7F
    ensures r != 0
  {
    (if b >= 0x80 then 0x80 else 0) + count
  }

  /** The greedy encoder's output without the final zero. */
  function Encode(d: Bytes): (e: Bytes) {
    if d == [] then []
    else if IsFill(d[0]) then [0xFF, RunByte(d[0], Taken(d))] + Encode(d[Taken(d)..])
    else [d[0]] + Encode(d[1..])
  }

  /** The bytes a run byte stands for: bit 7 selects the fill, the rest counts. */
  function Expand(r: Byte): Bytes {
    Fill(if r >= 0x80 then 0xFF else 0x00, r % 0x80)
  }

  /** What a stream stands for; None when it ends inside a run or a run byte is zero. */
  function Decode(e: Bytes): Option<Bytes> {
    if e == [] then Some([])
    else if e[0] != 0xFF then Prepend([e[0]], Decode(e[1..]))
    else if |e| == 1 || e[1] == 0x00 then None
    else Prepend(Expand(e[1]), Decode(e[2..]))
  }

  function Prepend(d: Bytes, r: Option<Bytes>): Option<Bytes> {
    match r
    case None => None
    case Some(rest) => Some(d + rest)
  }

  predicate ZeroFree(e: Bytes) {
    forall i | 0 <= i < |e| :: e[i] != 0
  }

  lemma {:induction false} EncodeZeroFree(d: Bytes)
    ensures ZeroFree(Encode(d))
  {
    if d != [] {
      EncodeZeroFree(d[if IsFill(d[0]) then Taken(d) else 1..]);
    }
  }

  lemma DecodeLiteral(b: Byte, rest: Bytes)
    requires b != 0xFF
    ensures Decode([b] + rest) == Prepend([b], Decode(rest))
  {
    assert ([b] + rest)[1..] == rest;
  }

  lemma DecodeRun(r: Byte, rest: Bytes)
    requires r != 0
    ensures Decode([0xFF, r] + rest) == Prepend(Expand(r), Decode(rest))
  {
    assert ([0xFF, r] + rest)[2..] == rest;
  }

  lemma ExpandRunByte(b: Byte, n: nat)
    requires IsFill(b) && 1 <= n <= 0x7F
    ensures Expand(RunByte(b, n)) == Fill(b, n)
  {
  }

  /** Decoding the encoder's body gives the data back. */
  lemma {:induction false} RoundTrip(d: Bytes)
    ensures Decode(Encode(d)) == Some(d)
  {
    hide RunByte, Expand, Fill, Taken, RunLength;
    if d == [] {
    } else if IsFill(d[0]) {
      var n := Taken(d);
      RoundTrip(d[n..]);
      DecodeRun(RunByte(d[0], n), Encode(d[n..]));
      ExpandRunByte(d[0], n);
      assert d == Fill(d[0], n) + d[n..];
    } else {
      RoundTrip(d[1..]);
      DecodeLiteral(d[0], Encode(d[1..]));
      assert d == [d[0]] + d[1..];
    }
  }

  // The code table, without the functions above

  lemma TakenOfFill(b: Byte, n: nat)
    requires 1 <= n <= 0x7F && IsFill(b)
    ensures Taken(Fill(b, n)) == n
  {
    var d := Fill(b, n);
    FillRun(d, b, n);
    assert d[0] == b;
  }

  lemma EncodeFill(b: Byte, n: nat)
    requires 1 <= n <= 0x7F && IsFill(b)
    ensures Encode(Fill(b, n)) == [0xFF, if b == 0xFF then 0x80 + n else n]
  {
    var d := Fill(b, n);
    TakenOfFill(b, n);
    assert d[n..] == [] && d[0] == b;
    assert Encode(d) == [0xFF, RunByte(b, n)] + [];
  }

  /** What is written for a run of either fill and for any other byte. */
  lemma EncodeTable(n: nat, b: Byte)
    requires 1 <= n <= 0x7F
    ensures Encode(seq(n, _ => 0x00)) == [0xFF, n]
    ensures Encode(seq(n, _ => 0xFF)) == [0xFF, 0x80 + n]
    ensures b != 0x00 && b != 0xFF ==> Encode([b]) == [b]
  {
    EncodeFill(0x00, n);
    EncodeFill(0xFF, n);
    assert Fill(0x00, n) == seq(n, _ => 0x00) && Fill(0xFF, n) == seq(n, _ => 0xFF);
    assert [b][1..] == [];
  }

  /** What a byte behind 0xFF stands for: its low seven bits are the count, and bit 7 is the fill. */
  lemma DecodeTable(r: Byte, b: Byte)
    ensures b != 0xFF ==> Decode([b]) == Some([b])
    ensures Decode([0xFF]) == None && Decode([0xFF, 0x00]) == None
    ensures r != 0 ==>
      && Decode([0xFF, r]).Some?
      && |Decode([0xFF, r]).value| == And(r, 0x7F)
      && forall i | 0 <= i < And(r, 0x7F) :: Decode([0xFF, r]).value[i] == if And(r, 0x80) != 0 then 0xFF else 0x00
  {
    RunBits(r);
    assert [b][1..] == [] && [b] + [] == [b];
    if r != 0 {
      DecodeRun(r, []);
      assert [0xFF, r] + [] == [0xFF, r];
      assert Expand(r) + [] == Expand(r);
    }
  }

  lemma RunBits(r: Byte)
    ensures And(r, 0x7F) == r % 0x80
    ensures And(r, 0x80) != 0 <==> r >= 0x80
  {
    hide And, Pow2;
    KnownPowers();
    AndMask(r, 7);
    var q, low := DivMod(r, 0x80);
    AndHigh(r, 8, 7, q, low);
  }

  lemma PrependTwice(d: Bytes, d': Bytes, r: Option<Bytes>)
    ensures Prepend(d, Prepend(d', r)) == Prepend(d + d', r)
  {
    if r.Some? {
      assert d + (d' + r.value) == (d + d') + r.value;
    }
  }

  lemma {:induction false} DecodeAppend(e: Bytes, f: Bytes)
    requires Decode(e).Some?
    ensures Decode(e + f) == Prepend(Decode(e).value, Decode(f))
  {
    if e == [] {
      assert e + f == f;
      assert Decode(f).Some? ==> [] + Decode(f).value == Decode(f).value;
    } else if e[0] != 0xFF {
      DecodeAppend(e[1..], f);
      assert e + f == [e[0]] + (e[1..] + f);
      DecodeLiteral(e[0], e[1..] + f);
      PrependTwice([e[0]], Decode(e[1..]).value, Decode(f));
    } else {
      DecodeAppend(e[2..], f);
      assert e + f == [0xFF, e[1]] + (e[2..] + f);
      DecodeRun(e[1], e[2..] + f);
      PrependTwice(Expand(e[1]), Decode(e[2..]).value, Decode(f));
    }
  }

  lemma DecodeZero()
    ensures Decode([0]) == Some([0])
  {
    DecodeLiteral(0, []);
    assert [0] + [] == [0];
  }

  /** The decoder does not stop at the terminator: it comes back as one more zero byte. */
  lemma TerminatorDecodes(d: Bytes)
    ensures Decode(Encode(d) + [0]) == Some(d + [0])
  {
    RoundTrip(d);
    DecodeAppend(Encode(d), [0]);
    DecodeZero();
  }

  // Length of the output

  // n / 0x7F, rounded up
  function Chunks(n: nat): nat {
    (n + 0x7E) / 0x7F
  }

  lemma ChunkStep(n: nat)
    ensures 1 <= n <= 0x7F ==> Chunks(n) == 1
    ensures n > 0x7F ==> Chunks(n) == 1 + Chunks(n - 0x7F)
  {
  }

  /** One per literal and two per 0x7F bytes, rounded up, of every maximal run. */
  function Cost(d: Bytes): nat {
    if d == [] then 0
    else if IsFill(d[0]) then
      var n := RunLength(d, d[0]);
      2 * Chunks(n) + Cost(d[n..])
    else 1 + Cost(d[1..])
  }

  lemma {:induction false} RunLengthDrop(d: Bytes, b: Byte, k: nat)
    requires k <= RunLength(d, b)
    ensures RunLength(d[k..], b) == RunLength(d, b) - k
  {
    if k == 0 {
      assert d[0..] == d;
    } else {
      RunLengthDrop(d[1..], b, k - 1);
      assert d[1..][k - 1..] == d[k..];
    }
  }

  lemma CostOfRun(d: Bytes, n: nat)
    requires d != [] && IsFill(d[0]) && n == RunLength(d, d[0])
    ensures Cost(d) == 2 * Chunks(n) + Cost(d[n..])
  {
  }

  /** The cost of a run is two more than the cost of what is left of it after one greedy step. */
  lemma CostTaken(d: Bytes)
    requires d != [] && IsFill(d[0])
    ensures Cost(d) == 2 + Cost(d[Taken(d)..])
  {
    var n, m := RunLength(d, d[0]), Taken(d);
    CostOfRun(d, n);
    ChunkStep(n);
    if m < n {
      assert d[m] == d[..n][m] == d[0];
      RunLengthDrop(d, d[0], m);
      CostOfRun(d[m..], n - m);
      assert d[m..][n - m..] == d[n..];
    }
  }

  /** The greedy encoder meets the cost exactly. */
  lemma {:induction false} EncodeCost(d: Bytes)
    ensures |Encode(d)| == Cost(d)
  {
    if d != [] {
      if IsFill(d[0]) {
        CostTaken(d);
        EncodeCost(d[Taken(d)..]);
      } else {
        EncodeCost(d[1..]);
      }
    }
  }

  lemma {:induction false} CostBound(d: Bytes)
    ensures Cost(d) <= 2 * |d|
  {
    if d != [] {
      CostBound(d[if IsFill(d[0]) then RunLength(d, d[0]) else 1..]);
    }
  }

  // Optimality

  /** Dropping the first byte never makes the encoding longer. */
  lemma {:induction false} DropShortens(d: Bytes)
    requires d != []
    ensures |Encode(d[1..])| <= |Encode(d)|
  {
    if IsFill(d[0]) {
      var b := d[0];
      var n, m := RunLength(d, b), Taken(d);
      RunLengthDrop(d, b, 1);
      if n > 1 {
        assert d[1] == d[..n][1] == b;
        assert d[1..][m - 1..] == d[m..];
        if n > 0x7F {
          DropShortens(d[m..]);
          assert d[m..][1..] == d[1..][m..];
        }
      }
    }
  }

  lemma {:induction false} DropManyShortens(d: Bytes, k: nat)
    requires k <= |d|
    ensures |Encode(d[k..])| <= |Encode(d)|
  {
    if k == 0 {
      assert d[0..] == d;
    } else {
      DropShortens(d);
      DropManyShortens(d[1..], k - 1);
      assert d[1..][k - 1..] == d[k..];
    }
  }

  lemma {:induction false} FillRun(d: Bytes, b: Byte, k: nat)
    requires k <= |d| && d[..k] == Fill(b, k)
    ensures k <= RunLength(d, b)
  {
    if k != 0 {
      assert d[0] == d[..k][0] == b;
      assert d[1..][..k - 1] == d[..k][1..];
      FillRun(d[1..], b, k - 1);
    }
  }

  /** Two stream bytes never buy more than the greedy encoder gets for them. */
  lemma RunBuysLittle(d: Bytes, b: Byte, k: nat)
    requires IsFill(b) && k <= 0x7F && k <= |d| && d[..k] == Fill(b, k)
    ensures |Encode(d)| <= 2 + |Encode(d[k..])|
  {
    if k == 0 {
      assert d[0..] == d;
    } else {
      assert d[0] == d[..k][0] == b;
      FillRun(d, b, k);
      var m := Taken(d);
      DropManyShortens(d[k..], m - k);
      assert d[k..][m - k..] == d[m..];
    }
  }

  /** No zero-free stream for the same data is shorter than the greedy encoder's. */
  lemma {:induction false} EncodeIsShortest(e: Bytes, d: Bytes)
    requires ZeroFree(e) && Decode(e) == Some(d)
    ensures |Encode(d)| <= |e|
    decreases |e|
  {
    if e != [] {
      if e[0] != 0xFF {
        var d' := Decode(e[1..]).value;
        assert d[0] == e[0] && d[1..] == d';
        EncodeIsShortest(e[1..], d');
      } else {
        var d' := Decode(e[2..]).value;
        var head := Expand(e[1]);
        assert d[..|head|] == head && d[|head|..] == d';
        EncodeIsShortest(e[2..], d');
        RunBuysLittle(d, if e[1] >= 0x80 then 0xFF else 0x00, |head|);
      }
    }
  }

  /** Without the ban on zero bytes the encoder would not be optimal: a literal zero is one byte. */
  lemma ZeroFreedomMatters()
    ensures Decode([0]) == Some([0]) && |Encode([0])| == 2
  {
    DecodeZero();
    EncodeCost([0]);
    assert [0][..RunLength([0], 0)] == Fill(0, RunLength([0], 0));
  }
}
