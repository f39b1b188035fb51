/** Bytes, and unsigned machine arithmetic on unbounded naturals: masks and wrap-around. */
module Bits {

  type Byte = b: int | 0 <= b < 0x100
  type Bytes = seq<Byte>

  const TWO_TO_32: nat := 0x1_0000_0000
  const TWO_TO_64: nat := 0x1_0000_0000_0000_0000

  function Pow2(k: nat): (p: nat)
    ensures p >= 1
  {
    if k == 0 then 1 else 2 * Pow2(k - 1)
  }

  /** Bitwise and, one binary digit at a time. */
  function And(a: nat, b: nat): nat
    decreases a
  {
    if a == 0 || b == 0 then 0
    else 2 * And(a / 2, b / 2) + if a % 2 == 1 && b % 2 == 1 then 1 else 0
  }

  lemma AndOdd(x: nat, m: nat)
    requires m % 2 == 1
    ensures And(x, m) == 2 * And(x / 2, m / 2) + x % 2
  {
  }

  /** Masking with 2^k - 1 keeps the k low digits. */
  lemma {:induction false} AndLow(x: nat, k: nat, q: nat, r: nat)
    requires x == Pow2(k) * q + r && r < Pow2(k)
    ensures And(x, Pow2(k) - 1) == r
  {
    if k != 0 {
      var p := Pow2(k - 1);
      assert (2 * p) * q == 2 * (p * q);
      AndLow(x / 2, k - 1, q, r / 2);
      AndOdd(x, 2 * p - 1);
    }
  }

  lemma AndMask(x: nat, k: nat)
    ensures And(x, Pow2(k) - 1) == x % Pow2(k)
  {
    var q, r := DivMod(x, Pow2(k));
    AndLow(x, k, q, r);
  }

  lemma HalfParts(x: nat, p: nat, q: nat, r: nat)
    requires x == (2 * p) * q + r && r < 2 * p
    ensures x / 2 == p * q + r / 2 && r / 2 < p
    ensures (2 * p) * q == 2 * (p * q)
  {
    assert (2 * p) * q == 2 * (p * q);
  }

  lemma AndEven(x: nat, m: nat)
    ensures And(x, 2 * m) == 2 * And(x / 2, m)
  {
    var e := 2 * m;
    assert e / 2 == m && e % 2 == 0;
    if x != 0 && m != 0 {
      assert And(x, e) == 2 * And(x / 2, e / 2) + 0;
    }
  }

  /** Masking with the complement of 2^k - 1 keeps the multiple of 2^k below. */
  lemma {:induction false} AndHigh(x: nat, w: nat, k: nat, q: nat, r: nat)
    requires k <= w && x < Pow2(w) && x == Pow2(k) * q + r && r < Pow2(k)
    ensures Pow2(w) >= Pow2(k) && And(x, Pow2(w) - Pow2(k)) == Pow2(k) * q
  {
    if k == 0 {
      AndLow(x, w, 0, x);
    } else {
      var p := Pow2(k - 1);
      HalfParts(x, p, q, r);
      AndHigh(x / 2, w - 1, k - 1, q, r / 2);
      AndEven(x, Pow2(w - 1) - p);
    }
  }

  lemma {:induction false} Pow2Add(j: nat, k: nat)
    ensures Pow2(j + k) == Pow2(j) * Pow2(k)
  {
    if k != 0 {
      Pow2Add(j, k - 1);
      assert Pow2(j) * (2 * Pow2(k - 1)) == 2 * (Pow2(j) * Pow2(k - 1));
    }
  }

  lemma SmallPowers()
    ensures Pow2(2) == 4 && Pow2(4) == 16
  {
  }

  /** The powers that fields and masks are made of. */
  lemma KnownPowers()
    ensures Pow2(2) == 4 && Pow2(7) == 0x80 && Pow2(8) == 0x100 && Pow2(16) == 0x1_0000
    ensures Pow2(31) == 0x8000_0000 && Pow2(32) == TWO_TO_32 && Pow2(64) == TWO_TO_64
  {
    hide Pow2;
    SmallPowers();
    Pow2Add(4, 4);
    Pow2Add(8, 8);
    Pow2Add(16, 16);
    Pow2Add(32, 32);
    DoublePower(7);
    DoublePower(31);
  }

  lemma DoublePower(k: nat)
    ensures Pow2(k + 1) == 2 * Pow2(k)
  {
  }

  /** Bit i of a number. */
  function Bit(n: nat, i: nat): nat {
    n / Pow2(i) % 2
  }

  lemma HalfBit(n: nat, i: nat)
    requires i >= 1
    ensures Bit(n, i) == Bit(n / 2, i - 1)
  {
    var p := Pow2(i - 1);
    var q, r := DivMod(n / 2, p);
    assert n == (2 * p) * q + (2 * r + n % 2) by {
      assert (2 * p) * q == 2 * (p * q);
    }
    ModUnique(n, 2 * p, q, 2 * r + n % 2);
  }

  /** The and of two numbers has a bit where both have it. */
  lemma {:induction false} AndBits(a: nat, b: nat, i: nat)
    ensures Bit(And(a, b), i) == if Bit(a, i) == 1 && Bit(b, i) == 1 then 1 else 0
  {
    hide Bit, And;
    AndParts(a, b);
    if i == 0 {
      LowBit(And(a, b));
      LowBit(a);
      LowBit(b);
    } else {
      HalfBit(a, i);
      HalfBit(b, i);
      HalfBit(And(a, b), i);
      AndBits(a / 2, b / 2, i - 1);
    }
  }

  lemma AndParts(a: nat, b: nat)
    ensures And(a, b) / 2 == And(a / 2, b / 2)
    ensures And(a, b) % 2 == if a % 2 == 1 && b % 2 == 1 then 1 else 0
  {
  }

  lemma LowBit(n: nat)
    ensures Bit(n, 0) == n % 2
  {
  }

  lemma DivMod(x: nat, m: nat) returns (q: nat, r: nat)
    requires m >= 1
    ensures q == x / m && r == x % m && r < m && x == m * q + r
  {
    q, r := x / m, x % m;
  }

  /** A multiple of m is zero or at least m in size. */
  lemma MultipleSize(m: int, k: int)
    requires m >= 1
    ensures k == 0 || m * k >= m || m * k <= -m
  {
    if k >= 1 {
      assert m * k == m + m * (k - 1);
    } else if k <= -1 {
      assert m * k == -m + m * (k + 1);
    }
  }

  /** Quotient and remainder are unique. */
  lemma ModUnique(x: nat, m: nat, q: int, r: int)
    requires m >= 1 && 0 <= r < m && x == m * q + r
    ensures x % m == r && x / m == q
  {
    var q', r' := x / m, x % m;
    assert m * (q - q') == m * q - m * q' == r' - r;
    MultipleSize(m, q - q');
  }

  /** Two distinct indices less than n apart fall in distinct slots of a buffer of n. */
  lemma ModDistinct(a: nat, b: nat, n: nat)
    requires n >= 1 && a != b && a < b + n && b < a + n
    ensures a % n != b % n
  {
    var qa, qb := a / n, b / n;
    if a % n == b % n {
      assert n * (qa - qb) == n * qa - n * qb == a - b;
      MultipleSize(n, qa - qb);
    }
  }

  lemma AddMultiple(x: nat, n: nat, k: nat)
    requires n >= 1
    ensures (x + n * k) % n == x % n
  {
    var q, r := x / n, x % n;
    assert n * (q + k) == n * q + n * k;
    ModUnique(x + n * k, n, q + k, r);
  }

  lemma ModAdd(x: nat, y: nat, n: nat)
    requires n >= 1
    ensures (x % n + y) % n == (x + y) % n
  {
    var q, r := DivMod(x, n);
    AddMultiple(r + y, n, q);
    assert r + y + n * q == x + y;
  }

  /** Adding and then subtracting the same amount, in wrapping arithmetic. */
  lemma ModAddSub(x: nat, y: nat, n: nat)
    requires n >= 1 && x < n
    ensures ((x + y) % n - y) % n == x
  {
    var q := (x + y) / n;
    var d := (x + y) % n - y;
    assert d == x + n * (-q);
    var q', r' := d / n, d % n;
    assert n * (q' + q) == n * q' + n * q == x - r';
    MultipleSize(n, q' + q);
  }

  /** Reducing modulo 2n first does not change the remainder modulo n, also i places further on. */
  lemma ModMod(x: nat, n: nat, i: nat)
    requires n >= 1
    ensures (x % (2 * n) + i) % n == (x + i) % n
  {
    var q, base := DivMod(x, 2 * n);
    assert (2 * n) * q == n * (2 * q);
    AddMultiple(base + i, n, 2 * q);
  }

  /** Masking an index with 2n - 1 for n == 2^k, as the ring buffers do. */
  lemma MaskIndex(x: nat, k: nat)
    ensures And(x, 2 * Pow2(k) - 1) < 2 * Pow2(k)
    ensures And(x, 2 * Pow2(k) - 1) == x % (2 * Pow2(k))
  {
    AndMask(x, k + 1);
  }

  /** The test `rd == wr - n + 1` in 64-bit arithmetic, exact also while the right side wraps below zero. */
  lemma FullTestExact(rd: nat, wr: nat, n: nat)
    requires rd <= wr < TWO_TO_64 && 1 <= n <= TWO_TO_64
    ensures rd == (wr - n + 1) % TWO_TO_64 <==> wr - rd == n - 1
  {
    var d := wr - n + 1;
    if d >= 0 {
      ModUnique(d, TWO_TO_64, 0, d);
    } else {
      ModUnique(d + TWO_TO_64, TWO_TO_64, 0, d + TWO_TO_64);
      assert d % TWO_TO_64 == (d + TWO_TO_64) % TWO_TO_64;
    }
  }
}
