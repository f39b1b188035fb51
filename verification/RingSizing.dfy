/** How the ring buffers choose their size at compile time: gcd, lcm, rounding to pages, and what comes of it. */
module RingSizing {
  import opened Bits

  predicate Divides(d: nat, n: nat) {
    if d == 0 then n == 0 else n % d == 0
  }

  lemma Quotient(d: nat, n: nat) returns (q: nat)
    requires Divides(d, n)
    ensures n == d * q
  {
    q := if d == 0 then 0 else n / d;
  }

  lemma Multiple(d: nat, q: int, n: nat)
    requires n == d * q
    ensures Divides(d, n)
  {
    if d != 0 {
      ModUnique(n, d, q, 0);
    }
  }

  lemma DividesCombination(d: nat, a: nat, b: nat, q: int, n: nat)
    requires Divides(d, a) && Divides(d, b) && n == a + b * q
    ensures Divides(d, n)
  {
    var j := Quotient(d, a);
    var k := Quotient(d, b);
    assert d * (j + k * q) == d * j + d * k * q;
    Multiple(d, j + k * q, n);
  }

  /** One round of Euclid's algorithm keeps the common divisors. */
  lemma SameDivisors(d: nat, a: nat, b: nat)
    requires b >= 1
    ensures Divides(d, a) && Divides(d, b) <==> Divides(d, b) && Divides(d, a % b)
  {
    hide Divides;
    var q: int, r: nat := DivMod(a, b);
    if Divides(d, b) && Divides(d, a) {
      DividesCombination(d, a, b, -q, r);
    }
    if Divides(d, b) && Divides(d, r) {
      DividesCombination(d, r, b, q, a);
    }
  }

  /** The divisors of the result are the common divisors; x and y are Bezout's coefficients. */
  method Gcd(a: nat, b: nat) returns (r: nat, ghost x: int, ghost y: int)
    ensures forall d: nat :: Divides(d, r) <==> Divides(d, a) && Divides(d, b)
    ensures r == x * a + y * b
  {
    r, x, y := a, 1, 0;
    var b': nat := b;
    ghost var x', y' := 0, 1;
    while b' != 0
      invariant forall d: nat :: Divides(d, r) && Divides(d, b') <==> Divides(d, a) && Divides(d, b)
      invariant r == x * a + y * b && b' == x' * a + y' * b
      decreases b'
    {
      forall d: nat
        ensures Divides(d, b') && Divides(d, r % b') <==> Divides(d, a) && Divides(d, b)
      {
        SameDivisors(d, r, b');
      }
      BezoutStep(r, b', a, b, x, y, x', y');
      ghost var q := r / b';
      x, y, x', y' := x', y', x - q * x', y - q * y';
      var tmpb := b';
      b' := r % b';
      r := tmpb;
    }
    forall d: nat ensures Divides(d, 0) {
      Multiple(d, 0, 0);
    }
  }

  lemma BezoutStep(r: nat, r': nat, a: nat, b: nat, x: int, y: int, x': int, y': int)
    requires r' >= 1 && r == x * a + y * b && r' == x' * a + y' * b
    ensures var q := r / r';
      r % r' == (x - q * x') * a + (y - q * y') * b
  {
    var q := r / r';
    assert q * r' == q * (x' * a) + q * (y' * b) == (q * x') * a + (q * y') * b;
  }

  /** The multiples of l are the common multiples of a and b. */
  ghost predicate IsLcm(l: nat, a: nat, b: nat) {
    forall m: nat :: Divides(l, m) <==> Divides(a, m) && Divides(b, m)
  }

  /** The least common multiple, in 64 bits. */
  method Lcm(a: nat, b: nat) returns (r: nat)
    ensures exists l: nat :: IsLcm(l, a, b) && r == l % TWO_TO_64
  {
    var c, x, y := Gcd(a, b);
    assert Divides(c, a) && Divides(c, b) by {
      Multiple(c, 1, c);
    }
    if c == 0 {
      assert IsLcm(0, a, b);
      return 0;
    }
    var a' := Quotient(c, a);
    var b' := Quotient(c, b);
    ModUnique(a, c, a', 0);
    ghost var exact := a' * b;
    r := a / c * b % TWO_TO_64;
    forall m: nat
      ensures Divides(exact, m) <==> Divides(a, m) && Divides(b, m)
    {
      CommonMultiples(a, b, c, a', b', x, y, m);
    }
    assert IsLcm(exact, a, b);
  }

  /** There is only one. */
  lemma OneLcm(l: nat, l': nat, a: nat, b: nat)
    requires IsLcm(l, a, b) && IsLcm(l', a, b)
    ensures l == l'
  {
    Multiple(l, 1, l);
    Multiple(l', 1, l');
    DividesBothWays(l, l');
  }

  lemma CommonMultiples(a: nat, b: nat, c: nat, a': nat, b': nat, x: int, y: int, m: nat)
    requires c >= 1 && a == c * a' && b == c * b' && c == x * a + y * b
    ensures Divides(a' * b, m) <==> Divides(a, m) && Divides(b, m)
  {
    var l := a' * b;
    if Divides(l, m) {
      var q := Quotient(l, m);
      assert m == a' * b * q == b * (a' * q);
      Multiple(b, a' * q, m);
      assert m == a' * (c * b') * q == a * (b' * q);
      Multiple(a, b' * q, m);
    }
    if Divides(a, m) && Divides(b, m) {
      var k := Quotient(a, m);
      var j := Quotient(b, m);
      BezoutMultiple(a, b, c, a', x, y, k, j, m);
      Multiple(l, x * j + y * k, m);
    }
  }

  lemma BezoutMultiple(a: nat, b: nat, c: nat, a': nat, x: int, y: int, k: nat, j: nat, m: nat)
    requires c >= 1 && a == c * a' && c == x * a + y * b && m == a * k == b * j
    ensures m == (a' * b) * (x * j + y * k)
  {
    var z := x * j + y * k;
    assert c * m == (x * a) * m + (y * b) * m;
    assert (x * a) * m == (x * a) * (b * j) == (a * b) * (x * j);
    assert (y * b) * m == (y * b) * (a * k) == (a * b) * (y * k);
    assert c * m == (a * b) * (x * j) + (a * b) * (y * k) == (a * b) * z;
    assert (a * b) * z == c * (a' * b) * z == c * ((a' * b) * z);
    Cancel(c, m, (a' * b) * z);
  }

  lemma Cancel(c: nat, u: int, v: int)
    requires c >= 1 && c * u == c * v
    ensures u == v
  {
    assert c * (u - v) == 0;
  }

  // Powers of two

  function BitsBelow(n: nat, i: nat): nat {
    if i == 0 then 0 else BitsBelow(n, i - 1) + Bit(n, i - 1)
  }

  lemma {:induction false} HalfBits(n: nat, i: nat)
    requires i >= 1
    ensures BitsBelow(n, i) == n % 2 + BitsBelow(n / 2, i - 1)
  {
    if i == 1 {
      assert Bit(n, 0) == n % 2;
    } else {
      HalfBits(n, i - 1);
      HalfBit(n, i - 1);
    }
  }

  ghost predicate IsPower(n: nat, k: nat) {
    n == Pow2(k)
  }

  lemma {:induction false} NoBits(n: nat, w: nat)
    requires n < Pow2(w)
    ensures BitsBelow(n, w) == 0 <==> n == 0
  {
    if w != 0 {
      HalfBits(n, w);
      NoBits(n / 2, w - 1);
    }
  }

  lemma {:induction false} OneBit(n: nat, w: nat)
    requires n < Pow2(w)
    ensures BitsBelow(n, w) == 1 <==> exists k: nat | k < w :: IsPower(n, k)
  {
    if w != 0 {
      HalfBits(n, w);
      NoBits(n / 2, w - 1);
      OneBit(n / 2, w - 1);
      if k: nat :| k < w && IsPower(n, k) {
        assert if k == 0 then n == 1 else IsPower(n / 2, k - 1);
      }
      if k: nat :| k < w - 1 && n % 2 == 0 && IsPower(n / 2, k) {
        assert IsPower(n, k + 1);
      }
      assert n == 1 ==> IsPower(n, 0);
    }
  }

  lemma {:induction false} AndPower(i: nat, n: nat)
    ensures And(Pow2(i), n) == Pow2(i) * Bit(n, i)
  {
    hide Bit;
    if i == 0 {
      assert And(0, n / 2) == 0;
      LowBit(n);
    } else {
      AndPower(i - 1, n / 2);
      HalfBit(n, i);
      assert And(Pow2(i), n) == 2 * And(Pow2(i - 1), n / 2);
      assert Pow2(i) * Bit(n, i) == 2 * (Pow2(i - 1) * Bit(n, i));
    }
  }

  /** Counts the set bits of a 64-bit number. */
  method IsPow2(num: nat) returns (r: bool)
    requires num < Pow2(64)
    ensures r <==> exists k: nat | k < 64 :: IsPower(num, k)
  {
    hide And, Bit, Pow2;
    var nbitsSet := 0;
    for i := 0 to 64
      invariant nbitsSet == BitsBelow(num, i)
    {
      AndPower(i, num);
      BitIsDigit(num, i);
      if And(Pow2(i), num) != 0 {
        nbitsSet := nbitsSet + 1;
      }
    }
    OneBit(num, 64);
    r := nbitsSet == 1;
  }

  lemma BitIsDigit(n: nat, i: nat)
    ensures Bit(n, i) == 0 || Bit(n, i) == 1
    ensures Pow2(i) * Bit(n, i) == 0 <==> Bit(n, i) == 0
  {
  }

  /** The least multiple of 2^k that is not below num. */
  function RoundedUp(num: nat, k: nat): (r: nat)
  {
    Pow2(k) * ((num + Pow2(k) - 1) / Pow2(k))
  }

  lemma RoundedUpIsNext(num: nat, k: nat)
    ensures num <= RoundedUp(num, k) < num + Pow2(k) && Divides(Pow2(k), RoundedUp(num, k))
  {
    var q, r := DivMod(num + Pow2(k) - 1, Pow2(k));
    Multiple(Pow2(k), q, RoundedUp(num, k));
  }

  /** Also where the sum wraps, masking rounds up: the result is the rounded number in 64 bits. */
  lemma MaskRoundsUp(num: nat, k: nat)
    requires k <= 64
    ensures Pow2(64) >= Pow2(k)
    ensures And((num + Pow2(k) - 1) % Pow2(64), Pow2(64) - Pow2(k)) == RoundedUp(num, k) % Pow2(64)
  {
    hide And, Pow2;
    var page, x := Pow2(k), num + Pow2(k) - 1;
    var laps, x' := DivMod(x, Pow2(64));
    var q, r := DivMod(x', page);
    AndHigh(x', 64, k, q, r);
    Pow2Add(k, 64 - k);
    Regroup(page, Pow2(64 - k), laps, q);
    ModUnique(x, page, Pow2(64 - k) * laps + q, r);
    ModUnique(RoundedUp(num, k), Pow2(64), laps, page * q);
  }

  lemma Regroup(p: nat, t: nat, laps: nat, q: nat)
    ensures p * (t * laps + q) == p * t * laps + p * q
  {
  }

  method RoundupPow2Mul(num: nat, k: nat) returns (r: nat)
    requires k <= 64
    ensures r == RoundedUp(num, k) % Pow2(64)
  {
    hide And, Pow2, RoundedUp;
    var mask := Pow2(k) - 1;
    MaskRoundsUp(num, k);
    r := And((num + mask) % Pow2(64), Pow2(64) - 1 - mask);
  }

  // The sizes of a ring buffer

  /** The bytes that are rounded up to pages: even, and room for minNum elements. */
  function Needed(elem: nat, minNum: nat): nat {
    if elem * minNum % 2 == 0 then elem * minNum else 2 * (elem * minNum)
  }

  lemma DivisorsAreSmaller(a: nat, b: nat)
    requires Divides(a, b)
    ensures b == 0 || a <= b
  {
    var q := Quotient(a, b);
    if q >= 1 {
      assert a * q == a + a * (q - 1);
    }
  }

  lemma DividesBothWays(a: nat, b: nat)
    requires Divides(a, b) && Divides(b, a)
    ensures a == b
  {
    DivisorsAreSmaller(a, b);
    DivisorsAreSmaller(b, a);
  }

  lemma LcmWithTwo(n: nat, l: nat)
    requires IsLcm(l, n, 2)
    ensures l == if n % 2 == 0 then n else 2 * n
  {
    Multiple(l, 1, l);
    var best := if n % 2 == 0 then n else 2 * n;
    Multiple(n, if n % 2 == 0 then 1 else 2, best);
    var j := Quotient(n, l);
    if n % 2 == 0 {
      DividesBothWays(n, l);
    } else {
      assert j % 2 == 0 by {
        OddTimesOdd(n, j);
      }
      Multiple(best, j / 2, l);
      DividesBothWays(best, l);
    }
  }

  lemma OddTimesOdd(n: nat, j: nat)
    requires n % 2 == 1
    ensures n * j % 2 == j % 2
  {
    assert n * j == 2 * (n / 2 * j) + j;
  }

  /** min_buf_sz, buf_sz_phys and static_size_raw for pages of 2^pageLog bytes. */
  datatype Sizes = Sizes(bytes: nat, phys: nat, raw: nat)

  function SizesFor(elem: nat, minNum: nat, pageLog: nat): Sizes
    requires elem >= 1
  {
    var bytes := Needed(elem, minNum);
    Sizes(bytes, RoundedUp(bytes, pageLog), RoundedUp(bytes, pageLog) / elem)
  }

  /** The sizes as they are computed, in 64 bits. */
  function ComputedSizes(elem: nat, minNum: nat, pageLog: nat): Sizes
    requires elem >= 1
  {
    var bytes := Needed(elem, minNum) % TWO_TO_64;
    var phys := RoundedUp(bytes, pageLog) % TWO_TO_64;
    Sizes(bytes, phys, phys / elem)
  }

  // elem * minNum is the size of an array type.
  method ChooseSizes(elem: nat, minNum: nat, pageLog: nat) returns (s: Sizes)
    requires 1 <= elem && elem * minNum < TWO_TO_64 && pageLog <= 64
    ensures s == ComputedSizes(elem, minNum, pageLog)
  {
    hide RoundedUp, Pow2, Divides;
    KnownPowers();
    var bytes := Lcm(elem * minNum, 2);
    ghost var exact: nat :| IsLcm(exact, elem * minNum, 2) && bytes == exact % TWO_TO_64;
    LcmWithTwo(elem * minNum, exact);
    var phys := RoundupPow2Mul(bytes, pageLog);
    s := Sizes(bytes, phys, phys / elem);
  }

  /** They are the intended ones exactly when the rounded size is a 64-bit number. */
  lemma SizesAreExactIff(elem: nat, minNum: nat, pageLog: nat)
    requires 1 <= elem
    ensures ComputedSizes(elem, minNum, pageLog) == SizesFor(elem, minNum, pageLog)
       <==> RoundedUp(Needed(elem, minNum), pageLog) < TWO_TO_64
  {
    hide RoundedUp, Needed, Pow2;
    var bytes := Needed(elem, minNum);
    RoundedUpIsNext(bytes, pageLog);
    if RoundedUp(bytes, pageLog) < TWO_TO_64 {
      ModUnique(bytes, TWO_TO_64, 0, bytes);
      ModUnique(RoundedUp(bytes, pageLog), TWO_TO_64, 0, RoundedUp(bytes, pageLog));
    }
  }

  lemma QuotientAtLeast(n: nat, d: nat, m: nat)
    requires d >= 1
    ensures n / d >= m <==> d * m <= n
  {
    var q, r := DivMod(n, d);
    if q >= m {
      Scaled(d, m, q);
    } else {
      Scaled(d, q + 1, m);
      assert d * (q + 1) == d * q + d;
    }
  }

  lemma Scaled(d: nat, a: nat, b: nat)
    requires a <= b
    ensures d * a <= d * b
  {
    assert d * b == d * a + d * (b - a);
  }

  /** The buffer is made of whole pages and has at least the requested number of slots. */
  lemma EnoughSlots(elem: nat, minNum: nat, pageLog: nat)
    requires elem >= 1
    ensures var s := SizesFor(elem, minNum, pageLog);
      && s.raw >= minNum
      && Divides(Pow2(pageLog), s.phys)
      && elem * minNum <= s.phys < 2 * (elem * minNum) + Pow2(pageLog)
  {
    hide RoundedUp, Divides, Pow2;
    var bytes := Needed(elem, minNum);
    RoundedUpIsNext(bytes, pageLog);
    QuotientAtLeast(RoundedUp(bytes, pageLog), elem, minNum);
  }

  /** The bytes asked for are the least common multiple of the array's size and 2. */
  lemma NeededIsLcm(elem: nat, minNum: nat)
    ensures IsLcm(Needed(elem, minNum), elem * minNum, 2)
  {
    var n := elem * minNum;
    forall m: nat
      ensures Divides(Needed(elem, minNum), m) <==> Divides(n, m) && Divides(2, m)
    {
      LcmOfTwo(n, m);
    }
  }

  lemma LcmOfTwo(n: nat, m: nat)
    ensures Divides(if n % 2 == 0 then n else 2 * n, m) <==> Divides(n, m) && Divides(2, m)
  {
    hide Divides;
    var l := if n % 2 == 0 then n else 2 * n;
    Multiple(n, if n % 2 == 0 then 1 else 2, l);
    Multiple(2, l / 2, l);
    if Divides(l, m) {
      DividesThrough(n, l, m);
      DividesThrough(2, l, m);
    }
    if Divides(n, m) && Divides(2, m) && n % 2 == 1 {
      var j := Quotient(n, m);
      var h := Quotient(2, m);
      OddTimesOdd(n, j);
      assert m == 2 * n * (j / 2) by {
        assert n * j == n * (2 * (j / 2)) == 2 * n * (j / 2);
      }
      Multiple(2 * n, j / 2, m);
    }
  }

  /** One slot stays empty, so the capacity reaches minNum exactly when another element fits the pages. */
  lemma CapacityIff(elem: nat, minNum: nat, pageLog: nat)
    requires elem >= 1
    ensures SizesFor(elem, minNum, pageLog).raw - 1 >= minNum
       <==> elem * (minNum + 1) <= SizesFor(elem, minNum, pageLog).phys
  {
    hide RoundedUp, Needed;
    QuotientAtLeast(SizesFor(elem, minNum, pageLog).phys, elem, minNum + 1);
  }

  /** The second mapping starts static_size_raw elements behind the first, and has to start phys bytes behind it. */
  predicate MirrorMeets(elem: nat, s: Sizes) {
    elem * s.raw == s.phys
  }

  /**
   It does exactly when it lies on a page boundary, which is what mapping memory there requires: an aligned
   mirror pointer cannot be the start of an earlier page.
   */
  lemma MirrorMeetsIff(elem: nat, minNum: nat, pageLog: nat)
    requires elem >= 1
    ensures var s := SizesFor(elem, minNum, pageLog);
      MirrorMeets(elem, s) <==> Divides(Pow2(pageLog), elem * s.raw)
  {
    hide RoundedUp, Divides, Pow2;
    var s := SizesFor(elem, minNum, pageLog);
    RoundedUpIsNext(s.bytes, pageLog);
    if Divides(Pow2(pageLog), elem * s.raw) {
      NeededFits(elem, minNum, s.phys);
      Between(Pow2(pageLog), elem * s.raw, s.phys);
    }
  }

  /** Whole elements fill at least the requested bytes, and at most all that are allocated. */
  lemma NeededFits(elem: nat, minNum: nat, phys: nat)
    requires elem >= 1 && Needed(elem, minNum) <= phys
    ensures Needed(elem, minNum) <= elem * (phys / elem) <= phys
  {
    var q, r := DivMod(phys, elem);
    var slots := if elem * minNum % 2 == 0 then minNum else 2 * minNum;
    assert Needed(elem, minNum) == elem * slots;
    QuotientAtLeast(phys, elem, slots);
    Scaled(elem, slots, q);
  }

  lemma MeetsWhenDivided(elem: nat, s: Sizes)
    requires elem >= 1 && s.raw == s.phys / elem && Divides(elem, s.phys)
    ensures MirrorMeets(elem, s)
  {
    var q, r := DivMod(s.phys, elem);
  }

  lemma {:induction false} Pow2Divides(j: nat, k: nat)
    requires j <= k
    ensures Divides(Pow2(j), Pow2(k))
  {
    if j == k {
      Multiple(Pow2(j), 1, Pow2(k));
    } else {
      Pow2Divides(j, k - 1);
      var q := Quotient(Pow2(j), Pow2(k - 1));
      Multiple(Pow2(j), 2 * q, Pow2(k));
    }
  }

  lemma DividesThrough(a: nat, b: nat, c: nat)
    requires Divides(a, b) && Divides(b, c)
    ensures Divides(a, c)
  {
    var q := Quotient(a, b);
    var r := Quotient(b, c);
    assert a * q * r == a * (q * r);
    Multiple(a, q * r, c);
  }

  /** Elements whose size is a power of two are safe, whatever their number and the size of a page. */
  lemma PowerSizedElementsMeet(j: nat, minNum: nat, pageLog: nat)
    requires pageLog >= 1
    ensures MirrorMeets(Pow2(j), SizesFor(Pow2(j), minNum, pageLog))
  {
    hide RoundedUp, Divides, Needed, Pow2;
    var bytes := Needed(Pow2(j), minNum);
    RoundedUpIsNext(bytes, pageLog);
    if j <= pageLog {
      Pow2Divides(j, pageLog);
      DividesThrough(Pow2(j), Pow2(pageLog), RoundedUp(bytes, pageLog));
    } else {
      NeededIsMultiple(j, minNum);
      Pow2Divides(pageLog, j);
      DividesThrough(Pow2(pageLog), Pow2(j), bytes);
      Between(Pow2(pageLog), bytes, RoundedUp(bytes, pageLog));
    }
    MeetsWhenDivided(Pow2(j), SizesFor(Pow2(j), minNum, pageLog));
  }

  lemma NeededIsMultiple(j: nat, minNum: nat)
    ensures Divides(Pow2(j), Needed(Pow2(j), minNum))
  {
    hide Divides, Pow2;
    var n := Pow2(j) * minNum;
    assert 2 * n == Pow2(j) * (2 * minNum);
    Multiple(Pow2(j), if n % 2 == 0 then minNum else 2 * minNum, Needed(Pow2(j), minNum));
  }

  /** Two multiples of p less than p apart are equal. */
  lemma Between(p: nat, a: nat, b: nat)
    requires Divides(p, a) && Divides(p, b) && a <= b < a + p
    ensures a == b
  {
    hide Divides;
    var q := Quotient(p, a);
    var r := Quotient(p, b);
    assert p * (r - q) == p * r - p * q == b - a;
    MultipleSize(p, r - q);
  }

  /** The static assertion that static_size_raw is a power of two does not ensure it: 4095 bytes, 4096-byte pages. */
  lemma StaticAssertIsNotEnough()
    ensures var s := SizesFor(4095, 1, 12);
      s.raw == Pow2(1) && s.phys == 8192 && !MirrorMeets(4095, s)
  {
    assert Pow2(12) == 4096 by {
      assert Pow2(4) == 16 && Pow2(8) == 16 * Pow2(4) && Pow2(12) == 16 * Pow2(8);
    }
  }
}
