/** The loops of the NVRAM escape codec, on a read-only input span and an output span written in place. */
module NvramCodec {
  import opened Bits
  import opened Wrappers
  import opened NvramEscape

  /** How a call ends. OutOfSpan is an access past the end of a span, where the original's behaviour is undefined. */
  datatype Outcome = Returned(n: nat) | AssertFailed | OutOfSpan

  /** A run of at most 0x7F bytes that cannot be extended is the one the encoder takes. */
  lemma TakenIs(d: Bytes, m: nat)
    requires d != [] && IsFill(d[0]) && 1 <= m <= 0x7F && m <= |d| && d[..m] == Fill(d[0], m)
    requires m == 0x7F || m == |d| || d[m] != d[0]
    ensures m == Taken(d)
  {
    FillRun(d, d[0], m);
    var n := RunLength(d, d[0]);
    if m < n {
      assert d[m] == d[..n][m] == d[0];
    }
  }

  /** How the encoder ends on data d and an output span of the given size. */
  function EscapeOutcome(d: Bytes, size: nat): Outcome {
    if size < |d| then AssertFailed
    else if size <= Cost(d) then OutOfSpan
    else Returned(Cost(d) + 1)
  }

  // The inner for loop: moves past a run that starts at `start`, by at most 0x7F bytes.
  method PassRun(decoded: Bytes, start: nat) returns (where: nat)
    requires start < |decoded| && IsFill(decoded[start])
    ensures where <= |decoded| && where - start == Taken(decoded[start..])
  {
    var byte := decoded[start];
    where := start + 1;
    while where - start < 0x7F && where < |decoded| && byte == decoded[where]
      invariant start < where <= |decoded| && where - start <= 0x7F
      invariant forall i | start <= i < where :: decoded[i] == byte
    {
      where := where + 1;
    }
    assert decoded[start..][..where - start] == Fill(byte, where - start);
    TakenIs(decoded[start..], where - start);
  }

  /** A buffer whose first k bytes are those of `out` and whose others are as before. */
  ghost function Merged(out: Bytes, before: Bytes, k: nat): Bytes
    requires k <= |out| && k <= |before|
  {
    out[..k] + before[k..]
  }

  /** `span[off] = b`, when that is inside the span. */
  method Put(span: array<Byte>, off: nat, b: Byte, ghost out: Bytes, ghost before: Bytes) returns (ok: bool)
    requires off < |out| && out[off] == b && |before| == span.Length
    requires off <= span.Length ==> span[..] == Merged(out, before, off)
    modifies span
    ensures ok <==> off < span.Length
    ensures ok ==> span[..] == Merged(out, before, off + 1)
  {
    ok := off < span.Length;
    if ok {
      span[off] := b;
    }
  }

  /** `out` from outOff on is the encoding of d from `where` on, with the final zero. */
  ghost predicate Ahead(d: Bytes, where: nat, out: Bytes, outOff: nat) {
    where <= |d| && outOff <= |out| && out[outOff..] == Encode(d[where..]) + [0]
  }

  method EscapeDataToData(decoded: Bytes, encoded: array<Byte>) returns (r: Outcome)
    requires encoded.Length < TWO_TO_32
    modifies encoded
    ensures r == EscapeOutcome(decoded, encoded.Length)
    ensures r.Returned? ==> encoded[..] == Encode(decoded) + [0] + old(encoded[..])[r.n..]
  {
    if encoded.Length < |decoded| {
      return AssertFailed;
    }
    EncodeCost(decoded);
    ghost var out, before := Encode(decoded) + [0], encoded[..];
    var outOff := 0;
    var where := 0;
    var ok;
    assert decoded[0..] == decoded;
    while where < |decoded|
      invariant Ahead(decoded, where, out, outOff) && outOff <= encoded.Length
      invariant encoded[..] == Merged(out, before, outOff)
    {
      var start := where;
      var byte: Byte := decoded[where];
      where := where + 1;
      if byte == 0x00 || byte == 0xFF {
        where := PassRun(decoded, start);
        RunAhead(decoded, start, where, out, outOff);
        ok := Put(encoded, outOff, 0xFF, out, before);
        if !ok {
          return OutOfSpan;
        }
        outOff := outOff + 1;
        byte := RunByte(byte, where - start);
      } else {
        LiteralAhead(decoded, start, out, outOff);
      }
      ok := Put(encoded, outOff, byte, out, before);
      if !ok {
        return OutOfSpan;
      }
      outOff := outOff + 1;
    }
    ZeroAhead(decoded, out, outOff);
    ok := Put(encoded, outOff, 0, out, before);
    if !ok {
      return OutOfSpan;
    }
    outOff := outOff + 1;
    assert out[..outOff] == out;
    r := Returned(outOff);
  }

  lemma ZeroAhead(d: Bytes, out: Bytes, outOff: nat)
    requires Ahead(d, |d|, out, outOff)
    ensures outOff + 1 == |out| && out[outOff] == 0
  {
    assert d[|d|..] == [];
    assert out[outOff] == out[outOff..][0];
  }

  /** The next two output bytes at a run, and what follows them. */
  lemma RunAhead(d: Bytes, start: nat, where: nat, out: Bytes, outOff: nat)
    requires start < |d| && IsFill(d[start]) && where <= |d| && where - start == Taken(d[start..])
    requires Ahead(d, start, out, outOff)
    ensures outOff + 2 <= |out| && out[outOff] == 0xFF && out[outOff + 1] == RunByte(d[start], where - start)
    ensures Ahead(d, where, out, outOff + 2)
  {
    var rest := d[start..];
    assert rest[where - start..] == d[where..];
    var ahead := out[outOff..];
    assert ahead == [0xFF, RunByte(d[start], where - start)] + (Encode(d[where..]) + [0]);
    assert out[outOff] == ahead[0] && out[outOff + 1] == ahead[1] && out[outOff + 2..] == ahead[2..];
  }

  lemma LiteralAhead(d: Bytes, start: nat, out: Bytes, outOff: nat)
    requires start < |d| && !IsFill(d[start])
    requires Ahead(d, start, out, outOff)
    ensures outOff + 1 <= |out| && out[outOff] == d[start]
    ensures Ahead(d, start + 1, out, outOff + 1)
  {
    assert d[start..][1..] == d[start + 1..];
    var ahead := out[outOff..];
    assert ahead == [d[start]] + (Encode(d[start + 1..]) + [0]);
    assert out[outOff] == ahead[0] && out[outOff + 1..] == ahead[1..];
  }

  /** The assertion on entry accepts a span of the data's own size; data without runs overruns it. */
  lemma {:induction false} LiteralsOverrun(d: Bytes)
    requires forall i | 0 <= i < |d| :: !IsFill(d[i])
    ensures Cost(d) == |d| && EscapeOutcome(d, |d|) == OutOfSpan
  {
    if d != [] {
      LiteralsOverrun(d[1..]);
    }
  }

  /** The encoder fails its first assertion, returns, or overruns its span, by the lengths of data, body and span. */
  lemma EscapeOutcomeIff(d: Bytes, size: nat)
    ensures EscapeOutcome(d, size) == AssertFailed <==> size < |d|
    ensures EscapeOutcome(d, size).Returned? <==> |d| <= size && |Encode(d)| + 1 <= size
    ensures EscapeOutcome(d, size).Returned? ==> EscapeOutcome(d, size).n == |Encode(d)| + 1
  {
    EncodeCost(d);
  }

  // Length of the decoded data

  /** What a left-to-right scan of a stream finds. */
  datatype Scan = Good(len: nat) | ZeroRun | Truncated

  function Longer(n: nat, s: Scan): Scan {
    match s
    case Good(len) => Good(n + len)
    case ZeroRun => ZeroRun
    case Truncated => Truncated
  }

  function ScanLength(e: Bytes): Scan {
    if e == [] then Good(0)
    else if e[0] != 0xFF then Longer(1, ScanLength(e[1..]))
    else if |e| == 1 then Truncated
    else if e[1] == 0x00 then ZeroRun
    else Longer(e[1] % 0x80, ScanLength(e[2..]))
  }

  /** The length scan succeeds exactly on the decodable streams, with the length of what they decode to. */
  lemma {:induction false} ScanIsDecode(e: Bytes)
    ensures ScanLength(e).Good? <==> Decode(e).Some?
    ensures Decode(e).Some? ==> ScanLength(e) == Good(|Decode(e).value|)
  {
    if e == [] {
    } else if e[0] != 0xFF {
      ScanIsDecode(e[1..]);
    } else if |e| >= 2 {
      ScanIsDecode(e[2..]);
    }
  }

  /** `decodedDataLen` as a function of the stream; None when it reads past the end. */
  function DecodedLen(e: Bytes): Option<nat> {
    match ScanLength(e)
    case Good(len) => Some(len % TWO_TO_32)
    case ZeroRun => Some(0)
    case Truncated => None
  }

  method DecodedDataLen(escaped: Bytes) returns (r: Option<nat>)
    requires |escaped| < TWO_TO_32
    ensures r == DecodedLen(escaped)
  {
    var totalLength: nat := 0;
    var offset := 0;
    var ok := true;
    ghost var total: nat := 0;
    assert escaped[0..] == escaped;
    while offset < |escaped|
      invariant offset <= |escaped|
      invariant totalLength == total % TWO_TO_32
      invariant ScanLength(escaped) == Longer(total, ScanLength(escaped[offset..]))
    {
      ghost var rest := escaped[offset..];
      var byte := escaped[offset];
      offset := offset + 1;
      var offset2: nat;
      if byte == 0xFF {
        if offset >= |escaped| {
          return None;
        }
        byte := escaped[offset];
        offset := offset + 1;
        if byte == 0x00 {
          ok := false;
          break;
        }
        offset2 := byte % 0x80;
        assert rest[2..] == escaped[offset..];
      } else {
        offset2 := 1;
        assert rest[1..] == escaped[offset..];
      }
      ModAdd(total, offset2, TWO_TO_32);
      totalLength := (totalLength + offset2) % TWO_TO_32;
      total := total + offset2;
    }
    r := Some(if ok then totalLength else 0);
  }

  // Decoding

  /**
   How `unescapeBytesToData` ends on a stream and an output span of the given size. Its loop runs until
   the input offset reaches the size of the *output* span.
   */
  function UnescapeOutcome(e: Bytes, size: nat): Outcome {
    if size < |e| then AssertFailed
    else
      match DecodedLen(e)
      case None => OutOfSpan
      case Some(total) =>
        if total == 0 then Returned(0)
        else if total > size then AssertFailed
        else if size == |e| && ScanLength(e) == Good(total) then Returned(total)
        else OutOfSpan
  }

  /**
   The decoder writes something exactly when both spans have one size, the stream is decodable, and what it
   stands for is not empty and fits; and it returns 0 exactly when the length scan gives 0.
   */
  lemma UnescapeOutcomeIff(e: Bytes, size: nat)
    requires size < TWO_TO_32
    ensures UnescapeOutcome(e, size).Returned? && UnescapeOutcome(e, size).n > 0
       <==> size == |e| && Decode(e).Some? && 0 < |Decode(e).value| <= size
    ensures UnescapeOutcome(e, size).Returned? && UnescapeOutcome(e, size).n > 0
        ==> UnescapeOutcome(e, size).n == |Decode(e).value|
    ensures UnescapeOutcome(e, size) == Returned(0) <==> |e| <= size && DecodedLen(e) == Some(0)
    ensures UnescapeOutcome(e, size) == AssertFailed
       <==> size < |e| || (DecodedLen(e).Some? && DecodedLen(e).value > size)
  {
    ScanIsDecode(e);
    if Decode(e).Some? && |Decode(e).value| < TWO_TO_32 {
      ModUnique(|Decode(e).value|, TWO_TO_32, 0, |Decode(e).value|);
    }
  }

  /** What one step of the decoder consumes and produces. */
  lemma DecodeAhead(e: Bytes, offset: nat)
    requires offset < |e| && Decode(e[offset..]).Some?
    ensures e[offset] != 0xFF ==> Decode(e[offset + 1..]).Some?
    ensures e[offset] != 0xFF ==> Decode(e[offset..]).value == Fill(e[offset], 1) + Decode(e[offset + 1..]).value
    ensures e[offset] == 0xFF ==> offset + 2 <= |e| && Decode(e[offset + 2..]).Some?
    ensures e[offset] == 0xFF ==>
      Decode(e[offset..]).value == Expand(e[offset + 1]) + Decode(e[offset + 2..]).value
  {
    var rest := e[offset..];
    assert rest[1..] == e[offset + 1..];
    if e[offset] == 0xFF {
      assert rest[2..] == e[offset + 2..];
    }
  }

  /** `out` from outOff on is what e from `offset` on decodes to. */
  ghost predicate Coming(e: Bytes, offset: nat, out: Bytes, outOff: nat) {
    offset <= |e| && outOff <= |out| && Decode(e[offset..]) == Some(out[outOff..])
  }

  lemma FillComing(e: Bytes, offset: nat, out: Bytes, outOff: nat, fill: Bytes)
    requires offset <= |e| && outOff <= |out| && Decode(e[offset..]).Some?
    requires out[outOff..] == fill + Decode(e[offset..]).value
    ensures Coming(e, offset, out, outOff + |fill|)
    ensures out[outOff..outOff + |fill|] == fill
  {
    var ahead := out[outOff..];
    assert out[outOff + |fill|..] == ahead[|fill|..];
    assert out[outOff..outOff + |fill|] == ahead[..|fill|];
  }

  /** One step of the decoder: the stream bytes it consumes, and what it is about to write. */
  lemma StepComing(e: Bytes, offset: nat, out: Bytes, outOff: nat)
    requires Coming(e, offset, out, outOff) && offset < |e|
    ensures e[offset] != 0xFF ==> Coming(e, offset + 1, out, outOff + 1)
    ensures e[offset] != 0xFF ==> out[outOff..outOff + 1] == Fill(e[offset], 1)
    ensures e[offset] == 0xFF ==> offset + 1 < |e| && Coming(e, offset + 2, out, outOff + e[offset + 1] % 0x80)
    ensures e[offset] == 0xFF ==> out[outOff..outOff + e[offset + 1] % 0x80] == Expand(e[offset + 1])
  {
    DecodeAhead(e, offset);
    if e[offset] == 0xFF {
      FillComing(e, offset + 2, out, outOff, Expand(e[offset + 1]));
    } else {
      FillComing(e, offset + 1, out, outOff, Fill(e[offset], 1));
    }
  }

  lemma NothingComing(e: Bytes, out: Bytes, outOff: nat)
    requires Coming(e, |e|, out, outOff)
    ensures outOff == |out|
  {
    assert e[|e|..] == [];
  }

  // The inner loop: n copies of one byte.
  method PutFill(decoded: array<Byte>, outOff: nat, byte: Byte, n: nat, ghost out: Bytes, ghost before: Bytes)
    returns (ok: bool)
    requires outOff <= decoded.Length == |before| && outOff + n <= |out|
    requires out[outOff..outOff + n] == Fill(byte, n)
    requires decoded[..] == Merged(out, before, outOff)
    modifies decoded
    ensures ok <==> outOff + n <= decoded.Length
    ensures ok ==> decoded[..] == Merged(out, before, outOff + n)
  {
    for i := 0 to n
      invariant outOff + i <= decoded.Length && decoded[..] == Merged(out, before, outOff + i)
    {
      assert out[outOff + i] == out[outOff..outOff + n][i];
      ok := Put(decoded, outOff + i, byte, out, before);
      if !ok {
        return;
      }
    }
    ok := true;
  }

  method UnescapeBytesToData(escaped: Bytes, decoded: array<Byte>) returns (r: Outcome)
    requires decoded.Length < TWO_TO_32
    modifies decoded
    ensures r == UnescapeOutcome(escaped, decoded.Length)
    ensures r.Returned? && r.n > 0 ==>
      Decode(escaped).Some? && decoded[..] == Decode(escaped).value + old(decoded[..])[r.n..]
    ensures r == Returned(0) ==> decoded[..] == old(decoded[..])
  {
    if decoded.Length < |escaped| {
      return AssertFailed;
    }
    var len := DecodedDataLen(escaped);
    if len.None? {
      return OutOfSpan;
    }
    var totalLength := len.value;
    if totalLength == 0 {
      return Returned(0);
    }
    if totalLength > decoded.Length {
      return AssertFailed;
    }
    ScanIsDecode(escaped);
    var ok := DecodeLoop(escaped, decoded);
    r := if ok then Returned(totalLength) else OutOfSpan;
  }

  // The body of the decoding loop.
  method DecodeStep(escaped: Bytes, offset: nat, decoded: array<Byte>, outOff: nat, ghost out: Bytes,
                    ghost before: Bytes)
    returns (ok: bool, offset': nat, outOff': nat)
    requires Coming(escaped, offset, out, outOff) && offset < |escaped|
    requires outOff <= decoded.Length == |before| && decoded[..] == Merged(out, before, outOff)
    modifies decoded
    ensures offset < offset' && Coming(escaped, offset', out, outOff')
    ensures ok <==> outOff' <= decoded.Length
    ensures ok ==> decoded[..] == Merged(out, before, outOff')
  {
    StepComing(escaped, offset, out, outOff);
    var byte: Byte := escaped[offset];
    offset' := offset + 1;
    var offset2: nat;
    if byte == 0xFF {
      byte := escaped[offset'];
      offset' := offset' + 1;
      offset2 := byte % 0x80;
      byte := if byte >= 0x80 then 0xFF else 0x00;
    } else {
      offset2 := 1;
    }
    ok := PutFill(decoded, outOff, byte, offset2, out, before);
    outOff' := outOff + offset2;
  }

  // The loop that decodes: its bound is the size of the span it writes to.
  method DecodeLoop(escaped: Bytes, decoded: array<Byte>) returns (ok: bool)
    requires Decode(escaped).Some? && |escaped| <= decoded.Length
    modifies decoded
    ensures ok <==> |escaped| == decoded.Length && |Decode(escaped).value| <= decoded.Length
    ensures ok ==> decoded[..] == Decode(escaped).value + old(decoded[..])[|Decode(escaped).value|..]
  {
    var outOff: nat := 0;
    var offset: nat := 0;
    ghost var out, before := Decode(escaped).value, decoded[..];
    assert escaped[0..] == escaped && out[0..] == out;
    while offset < decoded.Length
      invariant Coming(escaped, offset, out, outOff) && outOff <= decoded.Length
      invariant decoded[..] == Merged(out, before, outOff)
      decreases decoded.Length - offset
    {
      if offset >= |escaped| {
        return false;
      }
      ok, offset, outOff := DecodeStep(escaped, offset, decoded, outOff, out, before);
      if !ok {
        return false;
      }
    }
    NothingComing(escaped, out, outOff);
    assert out[..outOff] == out;
    ok := true;
  }

  // Decoding the encoder's own output

  /**
   The codec reads its own output back only into a span of exactly the size of the encoded body, and
   only if the data is no longer than that.
   */
  lemma SelfDecodeIff(d: Bytes, size: nat)
    requires d != [] && |d| < TWO_TO_32
    ensures UnescapeOutcome(Encode(d), size) == Returned(|d|) <==> size == Cost(d) >= |d|
    ensures UnescapeOutcome(Encode(d), size).Returned? ==> UnescapeOutcome(Encode(d), size).n == |d|
  {
    EncodeCost(d);
    SelfScan(d);
  }

  /** The length pre-pass on the encoder's body finds the length of the data. */
  lemma SelfScan(d: Bytes)
    requires |d| < TWO_TO_32
    ensures ScanLength(Encode(d)) == Good(|d|) && DecodedLen(Encode(d)) == Some(|d|)
  {
    RoundTrip(d);
    ScanIsDecode(Encode(d));
    ModUnique(|d|, TWO_TO_32, 0, |d|);
  }

  /** So a run of three or more fill bytes cannot be read back into any span at all. */
  lemma RunCannotBeReadBack(b: Byte, n: nat, size: nat)
    requires IsFill(b) && 3 <= n <= 0x7F
    ensures !UnescapeOutcome(Encode(Fill(b, n)), size).Returned?
  {
    var d := Fill(b, n);
    TakenIs(d, n);
    EncodeCost(d);
    assert d[n..] == [];
    SelfDecodeIff(d, size);
  }
}
