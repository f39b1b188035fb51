/** Hexadecimal digits to and from bytes, and the integer parser built on them. */
module Hex {
  import opened Bits
  import opened Wrappers

  predicate IsDecimalDigit(c: char) {
    '0' <= c <= '9'
  }

  predicate IsHexDigit(c: char) {
    IsDecimalDigit(c) || 'a' <= c <= 'f'
  }

  function Nibble(c: char): (n: nat)
    requires IsHexDigit(c)
    ensures n < 16
  {
    if c <= '9' then c as int - '0' as int else c as int - 'a' as int + 0xA
  }

  function Digit(n: nat): (c: char)
    requires n < 16
    ensures IsHexDigit(c) && Nibble(c) == n
  {
    if n <= 9 then (n + '0' as int) as char else (n - 0xA + 'a' as int) as char
  }

  /** Bitwise or, one binary digit at a time. */
  function Or(a: nat, b: nat): nat
    decreases a
  {
    if a == 0 then b
    else 2 * Or(a / 2, b / 2) + if a % 2 == 1 || b % 2 == 1 then 1 else 0
  }

  /** Numbers without common digits: or is addition. */
  lemma {:induction false} OrHigh(a: nat, b: nat, k: nat)
    requires a < Pow2(k)
    ensures Or(a, Pow2(k) * b) == a + Pow2(k) * b
  {
    if a != 0 {
      var p := Pow2(k - 1);
      assert Pow2(k) * b == 2 * (p * b);
      OrHigh(a / 2, b, k - 1);
    }
  }

  /** The or of two numbers has a bit where one of them has it. */
  lemma {:induction false} OrBits(a: nat, b: nat, i: nat)
    ensures Bit(Or(a, b), i) == if Bit(a, i) == 1 || Bit(b, i) == 1 then 1 else 0
    decreases i
  {
    hide Bit, Or;
    OrParts(a, b);
    LowBit(a);
    LowBit(b);
    LowBit(Or(a, b));
    if i != 0 {
      HalfBit(a, i);
      HalfBit(b, i);
      HalfBit(Or(a, b), i);
      OrBits(a / 2, b / 2, i - 1);
    }
  }

  lemma OrParts(a: nat, b: nat)
    ensures Or(a, b) / 2 == Or(a / 2, b / 2)
    ensures Or(a, b) % 2 == if a % 2 == 1 || b % 2 == 1 then 1 else 0
  {
  }

  const DIGITS: string := "0123456789abcdef"

  /** The digits, all of them and in order. */
  lemma DigitTable(n: nat, c: char)
    ensures n < 16 ==> Digit(n) == DIGITS[n]
    ensures IsHexDigit(c) <==> c in DIGITS
    ensures IsHexDigit(c) ==> DIGITS[Nibble(c)] == c
  {
    if IsHexDigit(c) {
      assert DIGITS[Nibble(c)] == c;
    }
    assert forall i | 0 <= i < 16 :: IsHexDigit(DIGITS[i]);
  }

  // Positional values

  predicate HexDigits(s: string) {
    forall i | 0 <= i < |s| :: IsHexDigit(s[i])
  }

  function HexValue(s: string): nat
    requires HexDigits(s)
  {
    if s == [] then 0 else 16 * HexValue(s[..|s| - 1]) + Nibble(s[|s| - 1])
  }

  function LittleEndian(b: Bytes): nat {
    if b == [] then 0 else b[0] + 0x100 * LittleEndian(b[1..])
  }

  function BigEndian(b: Bytes): nat {
    if b == [] then 0 else 0x100 * BigEndian(b[..|b| - 1]) + b[|b| - 1]
  }

  /** Byte i of a little-endian number is its i-th digit to the base 256. */
  lemma {:induction false} LittleEndianByte(b: Bytes, i: nat)
    ensures LittleEndian(b) / Pow2(8 * i) % 0x100 == if i < |b| then b[i] else 0
  {
    hide Pow2, LittleEndian;
    LittleEndianParts(b);
    if i == 0 {
      assert Pow2(8 * i) == 1 by {
        Pow2Add(8, 0);
      }
    } else {
      var rest := if b == [] then [] else b[1..];
      LittleEndianByte(rest, i - 1);
      KnownPowers();
      Pow2Add(8, 8 * (i - 1));
      DivideByByte(LittleEndian(b), Pow2(8 * (i - 1)));
    }
  }

  lemma LittleEndianParts(b: Bytes)
    ensures b == [] ==> LittleEndian(b) == 0
    ensures b != [] ==> LittleEndian(b) % 0x100 == b[0] && LittleEndian(b) / 0x100 == LittleEndian(b[1..])
  {
  }

  lemma DivideByByte(n: nat, p: nat)
    requires p >= 1
    ensures n / (0x100 * p) == n / 0x100 / p
  {
    var q, r := DivMod(n, 0x100);
    var h, l := DivMod(q, p);
    assert n == 0x100 * (p * h + l) + r == (0x100 * p) * h + (0x100 * l + r);
    ModUnique(n, 0x100 * p, h, 0x100 * l + r);
  }

  function Reversed(b: Bytes): Bytes {
    if b == [] then [] else Reversed(b[1..]) + [b[0]]
  }

  /** Big-endian bytes are the little-endian ones backwards. */
  lemma {:induction false} BigEndianReversed(b: Bytes)
    ensures BigEndian(Reversed(b)) == LittleEndian(b)
  {
    if b != [] {
      BigEndianReversed(b[1..]);
      assert Reversed(b)[..|Reversed(b)| - 1] == Reversed(b[1..]);
    }
  }

  /** The k-th digit from the right. */
  function DigitFromRight(s: string, k: nat): (n: nat)
    requires HexDigits(s)
    ensures n < 16
  {
    if k < |s| then Nibble(s[|s| - 1 - k]) else 0
  }

  /** Byte j of the parsed number when `done` digits have been read, from the right. */
  function PartialByte(s: string, done: nat, j: nat): (b: Byte)
    requires HexDigits(s)
  {
    if done <= 2 * j then 0
    else if done == 2 * j + 1 then DigitFromRight(s, 2 * j)
    else DigitFromRight(s, 2 * j) + 16 * DigitFromRight(s, 2 * j + 1)
  }

  method Sv2IntHexHelper(hexdigits: string, intBuf: array<Byte>) returns (ok: bool)
    requires forall j | 0 <= j < intBuf.Length :: intBuf[j] == 0
    modifies intBuf
    ensures ok <==> |hexdigits| <= 2 * intBuf.Length && HexDigits(hexdigits)
    ensures ok ==> LittleEndian(intBuf[..]) == HexValue(hexdigits)
    ensures !ok ==> intBuf[..] == old(intBuf[..])
  {
    hide HexValue, LittleEndian, Pow2, IsHexDigit, Or;
    if |hexdigits| > 2 * intBuf.Length {
      return false;
    }
    if !HexDigits(hexdigits) {
      return false;
    }
    var p := 0;
    for i := 0 to |hexdigits|
      invariant p == i / 2
      invariant forall j | 0 <= j < intBuf.Length :: intBuf[j] == PartialByte(hexdigits, i, j)
    {
      var hd := hexdigits[|hexdigits| - 1 - i];
      SmallPowers();
      OrHigh(intBuf[p], Nibble(hd), 4);
      // *p |= nibble << 4; *p >>= !(i & 1) << 2
      intBuf[p] := Or(intBuf[p], 16 * Nibble(hd));
      intBuf[p] := if i % 2 == 0 then intBuf[p] / 16 else intBuf[p];
      p := p + i % 2;
    }
    assert intBuf[..] == ParsedBytes(hexdigits, intBuf.Length);
    ParsedValue(hexdigits, intBuf.Length);
    ok := true;
  }

  function ParsedBytes(s: string, n: nat): (b: Bytes)
    requires HexDigits(s)
    ensures |b| == n
  {
    seq(n, j requires 0 <= j < n => PartialByte(s, |s|, j))
  }

  /** The bytes are the little-endian form of the positional value. */
  lemma {:induction false} ParsedValue(s: string, n: nat)
    requires HexDigits(s) && |s| <= 2 * n
    ensures LittleEndian(ParsedBytes(s, n)) == HexValue(s)
  {
    if n != 0 {
      var s' := if |s| >= 2 then s[..|s| - 2] else [];
      ParsedValue(s', n - 1);
      assert ParsedBytes(s, n)[1..] == ParsedBytes(s', n - 1);
      if |s| >= 2 {
        assert s[..|s| - 1][..|s| - 2] == s';
        assert HexValue(s) == 16 * HexValue(s[..|s| - 1]) + DigitFromRight(s, 0);
        assert HexValue(s[..|s| - 1]) == 16 * HexValue(s') + DigitFromRight(s, 1);
      } else if |s| == 1 {
        assert s[..0] == [];
      }
    }
  }

  function HexOf(b: Bytes): (s: string)
    ensures |s| == 2 * |b| && HexDigits(s)
  {
    if b == [] then [] else
      var n := b[|b| - 1];
      HexOf(b[..|b| - 1]) + [Digit(n / 16), Digit(n % 16)]
  }

  method Buf2HexStr(buf: Bytes, bufSz: nat) returns (hexstr: string)
    ensures hexstr == HexOf(buf[..if |buf| < bufSz then |buf| else bufSz])
  {
    var n := if |buf| < bufSz then |buf| else bufSz;
    hexstr := [];
    for i := 0 to n
      invariant hexstr == HexOf(buf[..i])
    {
      assert buf[..i + 1][..i] == buf[..i];
      hexstr := hexstr + [Digit(buf[i] / 16), Digit(buf[i] % 16)];
    }
  }

  lemma {:induction false} HexOfValue(b: Bytes)
    ensures HexValue(HexOf(b)) == BigEndian(b)
  {
    if b != [] {
      var s, n := HexOf(b[..|b| - 1]), b[|b| - 1];
      HexOfValue(b[..|b| - 1]);
      assert HexOf(b)[..|HexOf(b)| - 1] == s + [Digit(n / 16)];
      assert (s + [Digit(n / 16)])[..|s|] == s;
    }
  }

  // sv2int

  predicate DecDigits(s: string) {
    forall i | 0 <= i < |s| :: IsDecimalDigit(s[i])
  }

  function DecDigit(c: char): nat
    requires IsDecimalDigit(c)
  {
    c as int - '0' as int
  }

  function DecValue(s: string): nat
    requires DecDigits(s)
  {
    if s == [] then 0 else 10 * DecValue(s[..|s| - 1]) + DecDigit(s[|s| - 1])
  }

  /** The result for an unsigned integer of `width` bytes. */
  function Parsed(sv: string, width: nat): Option<nat> {
    if |sv| > 2 && "0x" <= sv then
      if |sv| - 2 <= 2 * width && HexDigits(sv[2..]) then Some(HexValue(sv[2..])) else None
    else if DecDigits(sv) then Some(DecValue(sv) % Pow2(8 * width))
    else None
  }

  method Sv2Int(sv: string, width: nat) returns (r: Option<nat>)
    ensures r == Parsed(sv, width)
  {
    hide HexValue, LittleEndian, DecValue, IsHexDigit, IsDecimalDigit, Pow2;
    if |sv| > 2 && "0x" <= sv {
      var res := new Byte[width](_ => 0);
      var ok := Sv2IntHexHelper(sv[2..], res);
      r := if ok then Some(LittleEndian(res[..])) else None;
    } else {
      if !DecDigits(sv) {
        return None;
      }
      var res := Accumulate(sv, Pow2(8 * width));
      r := Some(res);
    }
  }

  /** The decimal loop of `sv2int`; both assignments truncate to the width of the result. */
  method Accumulate(sv: string, modulus: nat) returns (res: nat)
    requires DecDigits(sv) && modulus >= 1
    ensures res == DecValue(sv) % modulus
  {
    hide IsDecimalDigit, DecDigit;
    res := 0;
    for i := 0 to |sv|
      invariant res == DecValue(sv[..i]) % modulus
    {
      assert sv[..i + 1][..i] == sv[..i];
      TimesTen(DecValue(sv[..i]), DecDigit(sv[i]), modulus);
      res := res * 10 % modulus;
      res := (res + DecDigit(sv[i])) % modulus;
    }
    assert sv[..|sv|] == sv;
  }

  lemma TimesTen(x: nat, d: nat, m: nat)
    requires m >= 1
    ensures ((x % m * 10) % m + d) % m == (10 * x + d) % m
  {
    var q, r := DivMod(x, m);
    ModAdd(r * 10, d, m);
    assert 10 * x + d == (r * 10 + d) + m * (10 * q);
    AddMultiple(r * 10 + d, m, 10 * q);
  }

  /** Printing the big-endian bytes of a number and parsing the result gives the number back. */
  lemma HexRoundTrip(b: Bytes, width: nat)
    requires 1 <= |b| <= width
    ensures Parsed("0x" + HexOf(b), width) == Some(BigEndian(b))
  {
    HexOfValue(b);
    assert ("0x" + HexOf(b))[2..] == HexOf(b);
  }

  lemma {:induction false} HexValueBound(s: string)
    requires HexDigits(s)
    ensures HexValue(s) < Pow2(4 * |s|)
  {
    if s != [] {
      HexValueBound(s[..|s| - 1]);
      var k := 4 * (|s| - 1);
      assert Pow2(k + 4) == 2 * Pow2(k + 3) == 4 * Pow2(k + 2) == 8 * Pow2(k + 1) == 16 * Pow2(k);
    }
  }

  lemma {:induction false} Pow2Grows(j: nat, k: nat)
    requires j <= k
    ensures Pow2(j) <= Pow2(k)
    decreases k
  {
    if j < k {
      Pow2Grows(j, k - 1);
    }
  }

  /** Whatever parses fits the integer: hexadecimal numbers are never cut, decimal ones are reduced. */
  lemma ParsedFits(sv: string, width: nat)
    ensures Parsed(sv, width).Some? ==> Parsed(sv, width).value < Pow2(8 * width)
  {
    if |sv| > 2 && "0x" <= sv && HexDigits(sv[2..]) && |sv| - 2 <= 2 * width {
      HexValueBound(sv[2..]);
      Pow2Grows(4 * (|sv| - 2), 8 * width);
    }
  }

  lemma HexStep(s: string, c: char)
    requires HexDigits(s) && IsHexDigit(c)
    ensures HexDigits(s + [c]) && HexValue(s + [c]) == 16 * HexValue(s) + Nibble(c)
  {
    assert (s + [c])[..|s|] == s;
  }

  lemma DecStep(s: string, c: char)
    requires DecDigits(s) && IsDecimalDigit(c)
    ensures DecDigits(s + [c]) && DecValue(s + [c]) == 10 * DecValue(s) + DecDigit(c)
  {
    assert (s + [c])[..|s|] == s;
  }

  /** Hexadecimal: a number, one that is too long, and a digit that is none. */
  lemma HexExamples()
    ensures Parsed("0x1fa", 2) == Some(0x1FA) && Parsed("0x1fa", 1) == None && Parsed("0x1Fa", 2) == None
  {
    hide HexValue, DecValue;
    var digits := "" + ['1'] + ['f'] + ['a'];
    assert HexValue("") == 0 by {
      NoDigits();
    }
    HexStep("", '1');
    HexStep("" + ['1'], 'f');
    HexStep("" + ['1'] + ['f'], 'a');
    assert "0x1fa"[2..] == digits;
    assert "0x1Fa"[2..][1] == 'F';
  }

  lemma NoDigits()
    ensures HexValue("") == 0 && DecValue("") == 0
  {
  }

  /** Decimal: a number, and what is left of one that is too large. */
  lemma DecExamples()
    ensures Parsed("300", 2) == Some(300) && Parsed("300", 1) == Some(44)
  {
    hide HexValue, DecValue, Pow2;
    var digits := "" + ['3'] + ['0'] + ['0'];
    assert DecValue("") == 0 by {
      NoDigits();
    }
    DecStep("", '3');
    DecStep("" + ['3'], '0');
    DecStep("" + ['3'] + ['0'], '0');
    assert "300" == digits && "300"[0] != "0x"[0];
    KnownPowers();
    ModUnique(300, Pow2(16), 0, 300);
    ModUnique(300, Pow2(8), 1, 44);
  }

  /** Bytes as digits. */
  lemma PrintExample()
    ensures HexOf([0x1F, 0xA0]) == "1fa0"
  {
    HexOfStep([], 0x1F);
    HexOfStep([0x1F], 0xA0);
    assert [] + [0x1F] == [0x1F] && [0x1F] + [0xA0] == [0x1F, 0xA0];
  }

  /** Bytes in both orders as a number. */
  lemma ByteExamples()
    ensures LittleEndian([0xFA, 0x01]) == 0x1FA && BigEndian([0x01, 0xFA]) == 0x1FA
  {
    var b: Bytes := [0x01, 0xFA];
    assert b[..1] == [0x01] && b[..1][..0] == [];
    assert BigEndian(b) == 0x100 * BigEndian(b[..1]) + 0xFA && BigEndian(b[..1]) == 0x100 * BigEndian([]) + 0x01;
    var l: Bytes := [0xFA, 0x01];
    assert l[1..] == [0x01] && l[1..][1..] == [];
    assert LittleEndian(l) == 0xFA + 0x100 * LittleEndian(l[1..]);
    assert LittleEndian(l[1..]) == 0x01 + 0x100 * LittleEndian([]);
  }

  lemma HexOfStep(b: Bytes, n: Byte)
    ensures HexOf(b + [n]) == HexOf(b) + [Digit(n / 16), Digit(n % 16)]
  {
    assert (b + [n])[..|b|] == b;
  }

  /** The empty string parses, as zero, and "0x" alone does not. */
  lemma EdgeStrings(width: nat)
    ensures Parsed("", width) == Some(0)
    ensures Parsed("0x", width) == None
  {
    ModUnique(0, Pow2(8 * width), 0, 0);
    assert !IsDecimalDigit("0x"[1]);
  }
}
