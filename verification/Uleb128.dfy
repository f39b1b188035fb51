/** ULEB128 numbers (section 7.6 of DWARF 5), read forwards and backwards. */
module Uleb128 {
  import opened Bits

  /** Bit 7: the encoding goes on. */
  predicate More(b: Byte) {
    b >= 0x80
  }

  predicate IsEncoding(e: Bytes) {
    e != [] && (forall i | 0 <= i < |e| - 1 :: More(e[i])) && !More(e[|e| - 1])
  }

  function Value(e: Bytes): nat {
    if e == [] then 0 else e[0] % 0x80 + 0x80 * Value(e[1..])
  }

  /** What an attempt to read a number from a span ends with. */
  datatype Reading = AssertFailed | Nothing | Number(nbytes: nat, value: nat)

  /** The number of bytes of the encoding at the front of s; 0 when s ends before it does. */
  function EncodedLength(s: Bytes): (n: nat)
    ensures n <= |s|
    ensures n != 0 ==> IsEncoding(s[..n])
    ensures n == 0 <==> forall i | 0 <= i < |s| :: More(s[i])
  {
    if s == [] then 0
    else if !More(s[0]) then 1
    else
      var n := EncodedLength(s[1..]);
      assert n != 0 ==> s[..n + 1] == [s[0]] + s[1..][..n];
      assert forall i | 1 <= i < |s| :: s[i] == s[1..][i - 1];
      if n == 0 then 0 else n + 1
  }

  /** The forward decoder: 64-bit values, nothing when the input ends too early. */
  function DecodeUleb128(s: Bytes): Reading {
    var n := EncodedLength(s);
    if n == 0 then Nothing else Number(n, Value(s[..n]) % TWO_TO_64)
  }

  lemma {:induction false} LengthOfEncoding(e: Bytes, rest: Bytes)
    requires IsEncoding(e)
    ensures EncodedLength(e + rest) == |e|
  {
    if |e| > 1 {
      LengthOfEncoding(e[1..], rest);
      assert (e + rest)[1..] == e[1..] + rest;
    }
  }

  lemma DecodeFront(e: Bytes, rest: Bytes)
    requires IsEncoding(e)
    ensures DecodeUleb128(e + rest) == Number(|e|, Value(e) % TWO_TO_64)
  {
    LengthOfEncoding(e, rest);
    assert (e + rest)[..|e|] == e;
  }

  // The encoder of section 7.6: seven bits a byte, low ones first, bit 7 set while more follow

  function Pow128(k: nat): (p: nat)
    ensures p >= 1
  {
    if k == 0 then 1 else 0x80 * Pow128(k - 1)
  }

  /** n in k bytes, with zeros at the end where fewer would do. */
  function EncodeIn(n: nat, k: nat): (e: Bytes)
    requires k >= 1 && n < Pow128(k)
    ensures |e| == k
  {
    if k == 1 then [n] else [0x80 + n % 0x80] + EncodeIn(n / 0x80, k - 1)
  }

  /** n in as few bytes as possible. */
  function Encode(n: nat): (e: Bytes) {
    if n < 0x80 then [n] else [0x80 + n % 0x80] + Encode(n / 0x80)
  }

  lemma {:induction false} EncodeInRoundTrip(n: nat, k: nat)
    requires k >= 1 && n < Pow128(k)
    ensures IsEncoding(EncodeIn(n, k)) && Value(EncodeIn(n, k)) == n
  {
    if k > 1 {
      EncodeInRoundTrip(n / 0x80, k - 1);
      var rest := EncodeIn(n / 0x80, k - 1);
      ContinuesAs(0x80 + n % 0x80, rest);
    } else {
      assert Value([n]) == n + 0x80 * Value([n][1..]);
    }
  }

  lemma ContinuesAs(b: Byte, rest: Bytes)
    requires More(b) && IsEncoding(rest)
    ensures IsEncoding([b] + rest) && Value([b] + rest) == b - 0x80 + 0x80 * Value(rest)
  {
    var e := [b] + rest;
    assert e[1..] == rest;
    assert forall i | 1 <= i < |e| :: e[i] == rest[i - 1];
  }

  /** Every encoding is that of its value in its length. */
  lemma {:induction false} EncodingIsEncodeIn(e: Bytes)
    requires IsEncoding(e)
    ensures Value(e) < Pow128(|e|) && EncodeIn(Value(e), |e|) == e
  {
    if |e| > 1 {
      var b, rest := e[0], e[1..];
      RestIsEncoding(e);
      EncodingIsEncodeIn(rest);
      ValueParts(e);
      assert EncodeIn(Value(e), |e|) == [b] + rest;
    } else {
      assert e == [e[0]] && e[1..] == [];
    }
  }

  lemma RestIsEncoding(e: Bytes)
    requires IsEncoding(e) && |e| > 1
    ensures IsEncoding(e[1..]) && More(e[0])
  {
  }

  lemma ValueParts(e: Bytes)
    requires |e| > 1 && More(e[0])
    ensures Value(e) % 0x80 == e[0] - 0x80 && Value(e) / 0x80 == Value(e[1..])
  {
  }

  /** Two encodings of one length and one value are the same bytes. */
  lemma ValueDecides(e: Bytes, e': Bytes)
    requires IsEncoding(e) && IsEncoding(e') && |e| == |e'| && Value(e) == Value(e')
    ensures e == e'
  {
    EncodingIsEncodeIn(e);
    EncodingIsEncodeIn(e');
  }

  /** Reading what the encoder writes gives every 64-bit number back, whatever follows it. */
  lemma {:induction false} EncodeRoundTrip(n: nat, rest: Bytes)
    ensures IsEncoding(Encode(n)) && Value(Encode(n)) == n
    ensures DecodeUleb128(Encode(n) + rest) == Number(|Encode(n)|, n % TWO_TO_64)
  {
    EncodeValue(n);
    DecodeFront(Encode(n), rest);
  }

  lemma {:induction false} EncodeValue(n: nat)
    ensures IsEncoding(Encode(n)) && Value(Encode(n)) == n
  {
    if n < 0x80 {
      assert Value([n]) == n + 0x80 * Value([n][1..]);
    } else {
      EncodeValue(n / 0x80);
      ContinuesAs(0x80 + n % 0x80, Encode(n / 0x80));
    }
  }

  /** 624485 and 129, as they are written. */
  lemma EncodeExamples()
    ensures Encode(624485) == [0xE5, 0x8E, 0x26] && Encode(129) == [0x81, 0x01]
  {
    assert Encode(38) == [38] && Encode(4878) == [0x8E] + [38];
  }

  /** Where the backward scan from position p stops: behind the nearest byte that ends a number. */
  function ScanBack(s: Bytes, p: nat): (q: nat)
    requires p <= |s|
    ensures q <= p
    ensures forall i | q <= i < p :: More(s[i])
    ensures q != 0 ==> !More(s[q - 1])
  {
    if p != 0 && More(s[p - 1]) then ScanBack(s, p - 1) else p
  }

  function Backwards(s: Bytes): Reading {
    if s == [] then Nothing
    else if |s| == 1 then if More(s[0]) then AssertFailed else Number(1, s[0])
    else DecodeUleb128(s[ScanBack(s, |s| - 1)..])
  }

  /** Reads the last number of a span. `corrected` reports whether the branch after the scan was taken. */
  method DecodeUleb128Backwards(prevData: Bytes) returns (r: Reading, corrected: bool)
    ensures r == Backwards(prevData)
    ensures !corrected
  {
    corrected := false;
    var sz := |prevData|;
    if sz == 0 {
      return Nothing, corrected;
    }
    if sz == 1 {
      if More(prevData[0]) {
        return AssertFailed, corrected;
      }
      return Number(1, prevData[0]), corrected;
    }
    var start := sz - 1;
    while start >= 1
      invariant 0 <= start <= sz - 1
      invariant ScanBack(prevData, start) == ScanBack(prevData, sz - 1)
    {
      if !More(prevData[start - 1]) {
        break;
      }
      start := start - 1;
    }
    if start == 1 && More(prevData[0]) {
      start := 0;
      corrected := true;
    }
    r := DecodeUleb128(prevData[start..]);
  }

  /** For every span: the backward reader finds the number the span ends with, or there is none. */
  lemma BackwardsExact(s: Bytes)
    requires s != []
    ensures !More(s[|s| - 1]) ==> Backwards(s).Number? && EndsWith(s, Backwards(s))
    ensures More(s[|s| - 1]) ==> !Backwards(s).Number?
  {
    if |s| == 1 {
      assert s[0..] == s && s[1..] == [];
      assert !More(s[0]) ==> Value(s) == s[0];
    } else {
      var q := ScanBack(s, |s| - 1);
      var tail := s[q..];
      if More(s[|s| - 1]) {
        assert forall i | 0 <= i < |tail| :: More(tail[i]);
      } else {
        assert IsEncoding(tail) && tail + [] == tail;
        DecodeFront(tail, []);
      }
    }
  }

  /** r is the number whose encoding ends the span; what stands before it, if anything, is a complete number. */
  ghost predicate EndsWith(s: Bytes, r: Reading)
    requires r.Number?
  {
    && 1 <= r.nbytes <= |s|
    && IsEncoding(s[|s| - r.nbytes..])
    && r.value == Value(s[|s| - r.nbytes..]) % TWO_TO_64
    && (r.nbytes < |s| ==> !More(s[|s| - r.nbytes - 1]))
  }

  /** A span ends with exactly one number. */
  lemma EndsWithOnce(s: Bytes, r: Reading, r': Reading)
    requires r.Number? && r'.Number? && EndsWith(s, r) && EndsWith(s, r')
    ensures r == r'
  {
    LongerGoesOn(s, r.nbytes, r'.nbytes);
    LongerGoesOn(s, r'.nbytes, r.nbytes);
  }

  lemma LongerGoesOn(s: Bytes, n: nat, n': nat)
    requires 1 <= n <= |s| && 1 <= n' <= |s| && IsEncoding(s[|s| - n'..])
    ensures n < n' ==> More(s[|s| - n - 1])
  {
    var tail := s[|s| - n'..];
    assert n < n' ==> tail[n' - n - 1] == s[|s| - n - 1];
  }

  // Buffers of several numbers

  function Concat(encs: seq<Bytes>): Bytes {
    if encs == [] then [] else Concat(encs[..|encs| - 1]) + encs[|encs| - 1]
  }

  predicate AllEncodings(encs: seq<Bytes>) {
    forall i | 0 <= i < |encs| :: IsEncoding(encs[i])
  }

  /** The complete numbers at the front of a buffer, in order. */
  function Numbers(s: Bytes): (encs: seq<Bytes>)
    ensures AllEncodings(encs)
  {
    var n := EncodedLength(s);
    if n == 0 then [] else [s[..n]] + Numbers(s[n..])
  }

  /** What stands behind them: nothing, or a number that is cut short. */
  function CutOff(s: Bytes): (rest: Bytes)
    ensures Endless(rest)
  {
    var n := EncodedLength(s);
    if n == 0 then s else CutOff(s[n..])
  }

  predicate Endless(rest: Bytes) {
    forall i | 0 <= i < |rest| :: More(rest[i])
  }

  lemma ConcatFirst(e: Bytes, encs: seq<Bytes>)
    ensures Concat([e] + encs) == e + Concat(encs)
  {
    ConcatAppend([e], encs);
    assert [e][..0] == [];
    assert Concat([e]) == [] + e;
  }

  /** Every buffer divides into complete numbers and a rest. */
  lemma {:induction false} BufferDivides(s: Bytes)
    ensures s == Concat(Numbers(s)) + CutOff(s)
  {
    hide Concat, EncodedLength, More, IsEncoding, AllEncodings, Endless, Value;
    var n := EncodedLength(s);
    if n == 0 {
      NoNumbers(s);
    } else {
      BufferDivides(s[n..]);
      ConcatFirst(s[..n], Numbers(s[n..]));
      Associate(s[..n], Concat(Numbers(s[n..])), CutOff(s[n..]));
      assert s == s[..n] + s[n..];
    }
  }

  lemma Associate(a: Bytes, b: Bytes, c: Bytes)
    ensures (a + b) + c == a + (b + c)
  {
  }

  lemma NoNumbers(s: Bytes)
    ensures Concat([]) + s == s
  {
  }

  /** And in one way only. */
  lemma {:induction false} DividesOnce(encs: seq<Bytes>, rest: Bytes)
    requires AllEncodings(encs) && Endless(rest)
    ensures Numbers(Concat(encs) + rest) == encs && CutOff(Concat(encs) + rest) == rest
  {
    hide IsEncoding, EncodedLength, More, Value, Numbers, CutOff, Concat;
    if encs == [] {
      NoNumbers(rest);
      NumbersOfRest(rest);
    } else {
      var s' := Concat(encs[1..]) + rest;
      assert encs == [encs[0]] + encs[1..];
      ConcatFirst(encs[0], encs[1..]);
      Associate(encs[0], Concat(encs[1..]), rest);
      NumbersStep(encs[0], s');
      DividesOnce(encs[1..], rest);
    }
  }

  lemma NumbersOfRest(rest: Bytes)
    requires Endless(rest)
    ensures Numbers(rest) == [] && CutOff(rest) == rest
  {
  }

  lemma NumbersStep(e: Bytes, s: Bytes)
    requires IsEncoding(e)
    ensures Numbers(e + s) == [e] + Numbers(s) && CutOff(e + s) == CutOff(s)
  {
    hide EncodedLength, More;
    LengthOfEncoding(e, s);
    assert (e + s)[..|e|] == e && (e + s)[|e|..] == s;
  }

  /** Offset of the k-th number. */
  function Start(encs: seq<Bytes>, k: nat): nat
    requires k <= |encs|
  {
    if k == 0 then 0 else Start(encs, k - 1) + |encs[k - 1]|
  }

  lemma {:induction false} StartIsLength(encs: seq<Bytes>, k: nat)
    requires k <= |encs|
    ensures Start(encs, k) == |Concat(encs[..k])|
  {
    if k != 0 {
      StartIsLength(encs, k - 1);
      assert encs[..k][..k - 1] == encs[..k - 1];
    }
  }

  lemma {:induction false} ConcatAppend(xs: seq<Bytes>, ys: seq<Bytes>)
    ensures Concat(xs + ys) == Concat(xs) + Concat(ys)
  {
    if ys == [] {
      assert xs + ys == xs;
    } else {
      var ys' := ys[..|ys| - 1];
      ConcatAppend(xs, ys');
      assert (xs + ys)[..|xs + ys| - 1] == xs + ys';
    }
  }

  /** The buffer around the k-th number. */
  lemma SplitAt(encs: seq<Bytes>, k: nat)
    requires k < |encs|
    ensures Start(encs, k + 1) == Start(encs, k) + |encs[k]|
    ensures Start(encs, k + 1) <= |Concat(encs)|
    ensures Concat(encs)[Start(encs, k)..] == encs[k] + Concat(encs)[Start(encs, k + 1)..]
    ensures Concat(encs)[..Start(encs, k + 1)] == Concat(encs[..k + 1])
  {
    StartIsLength(encs, k);
    var head, tail := encs[..k + 1], encs[k + 1..];
    assert encs == head + tail;
    ConcatAppend(head, tail);
    assert head[..k] == encs[..k] && head[k] == encs[k];
    Splice(Concat(encs[..k]), encs[k], Concat(tail));
  }

  lemma Splice(a: Bytes, b: Bytes, c: Bytes)
    ensures ((a + b) + c)[|a|..] == b + c
    ensures ((a + b) + c)[|a| + |b|..] == c
    ensures ((a + b) + c)[..|a| + |b|] == a + b
  {
  }

  /** On any non-empty concatenation of encodings the backward reader returns the last one. */
  lemma BackwardsOfConcat(encs: seq<Bytes>)
    requires encs != [] && AllEncodings(encs)
    ensures var last := encs[|encs| - 1];
      Backwards(Concat(encs)) == Number(|last|, Value(last) % TWO_TO_64)
    ensures !More(Concat(encs)[|Concat(encs)| - 1])
  {
    hide Concat, Backwards, EndsWith, IsEncoding, More, Value;
    var last, s := encs[|encs| - 1], Concat(encs);
    ConcatEndsWithLast(encs);
    BackwardsExact(s);
    EndsWithOnce(s, Backwards(s), Number(|last|, Value(last) % TWO_TO_64));
  }

  /** A non-empty concatenation of encodings ends with its last one. */
  lemma ConcatEndsWithLast(encs: seq<Bytes>)
    requires encs != [] && AllEncodings(encs)
    ensures var last := encs[|encs| - 1];
      EndsWith(Concat(encs), Number(|last|, Value(last) % TWO_TO_64))
    ensures !More(Concat(encs)[|Concat(encs)| - 1])
  {
    var init, last := encs[..|encs| - 1], encs[|encs| - 1];
    var s := Concat(encs);
    assert s[|s| - |last|..] == last;
    assert s[|s| - 1] == last[|last| - 1];
    if init != [] {
      var before := init[|init| - 1];
      assert IsEncoding(encs[|encs| - 2]);
      assert Concat(init)[|Concat(init)| - 1] == before[|before| - 1];
    }
  }
}
