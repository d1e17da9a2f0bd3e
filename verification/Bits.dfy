/** Bitwise operations on naturals and on 64-bit words. */
module Bits {
  import opened Primitives

  function Pow2(n: nat): (p: nat)
    ensures p >= 1
  {
    if n == 0 then 1 else 2 * Pow2(n - 1)
  }

  /** Bitwise AND of two naturals. */
  function And(a: nat, b: nat): (r: nat)
    ensures r <= a
  {
    if a == 0 || b == 0 then 0 else 2 * And(a / 2, b / 2) + (a % 2) * (b % 2)
  }

  lemma {:induction false} Pow2Add(a: nat, b: nat)
    ensures Pow2(a + b) == Pow2(a) * Pow2(b)
  {
    if a == 0 {
    } else {
      Pow2Add(a - 1, b);
      assert a + b - 1 == (a - 1) + b;
    }
  }

  lemma {:induction false} Pow2Monotone(a: nat, b: nat)
    requires a <= b
    ensures Pow2(a) <= Pow2(b)
    decreases b
  {
    if a < b { Pow2Monotone(a, b - 1); }
  }

  // ---- Exclusive or ----

  function Xor(a: nat, b: nat): nat
    decreases a + b
  {
    if a == 0 && b == 0 then 0 else 2 * Xor(a / 2, b / 2) + if a % 2 == b % 2 then 0 else 1
  }

  lemma {:induction false} XorBound(a: nat, b: nat, n: nat)
    requires a < Pow2(n) && b < Pow2(n)
    ensures Xor(a, b) < Pow2(n)
  {
    if n > 0 { XorBound(a / 2, b / 2, n - 1); }
  }

  /** Exclusive or with a fixed mask loses nothing. */
  lemma {:induction false} XorCancels(a: nat, b: nat, mask: nat)
    requires Xor(a, mask) == Xor(b, mask)
    ensures a == b
    decreases a + b + mask
  {
    if a != 0 || b != 0 {
      XorHalves(a, mask);
      XorHalves(b, mask);
      XorCancels(a / 2, b / 2, mask / 2);
    }
  }

  lemma XorHalves(a: nat, b: nat)
    ensures Xor(a, b) / 2 == Xor(a / 2, b / 2)
    ensures Xor(a, b) % 2 == if a % 2 == b % 2 then 0 else 1
  {
  }

  lemma Pow2Word()
    ensures Pow2(64) == TWO64
  {
    assert Pow2(8) == 256;
    assert Pow2(16) == 0x1_0000 by { Pow2Add(8, 8); }
    assert Pow2(32) == 0x1_0000_0000 by { Pow2Add(16, 16); }
    assert Pow2(64) == 0x1_0000_0000 * 0x1_0000_0000 by { Pow2Add(32, 32); }
  }

  // ---- Words ----

  function XorWord(a: u64, b: u64): u64 {
    Pow2Word();
    XorBound(a, b, 64);
    Xor(a, b)
  }

  /** `wrapping_mul`. */
  function MulWord(a: u64, b: u64): u64 {
    (a * b) % TWO64
  }

  /** `a | 1`. */
  function Odd(a: u64): u64 {
    if a % 2 == 0 then a + 1 else a
  }

  function RotateLeft(a: u64, n: nat): u64
    requires n <= 64
  {
    Rotated(a, n);
    a % Pow2(64 - n) * Pow2(n) + a / Pow2(64 - n)
  }

  lemma Rotated(a: u64, n: nat)
    requires n <= 64
    ensures 0 <= a % Pow2(64 - n) * Pow2(n) + a / Pow2(64 - n) < TWO64
  {
    hide Pow2;
    Pow2Word();
    Pow2Add(64 - n, n);
    RotateBound(a, Pow2(64 - n), Pow2(n));
  }

  function RotateRight(a: u64, n: nat): u64
    requires n <= 64
  {
    RotateLeft(a, 64 - n)
  }

  lemma RotateBound(a: nat, high: nat, low: nat)
    requires high > 0 && low > 0 && a < high * low
    ensures a % high * low + a / high < high * low
  {
    var q, r := a / high, a % high;
    assert a == q * high + r;
    MulAtMost(low, q, high);
    MulAtMost(r, high - 1, low);
    assert (high - 1) * low == high * low - low;
  }

  lemma MulAtMost(x: nat, y: nat, z: nat)
    ensures x <= y ==> x * z <= y * z
  {
  }

  // ---- Single bits ----

  function Bit(a: nat, k: nat): nat {
    a / Pow2(k) % 2
  }

  lemma DivDiv(a: nat, x: nat, y: nat)
    requires x > 0 && y > 0
    ensures x * y > 0 && a / (x * y) == a / x / y
  {
    var q, r := a / x, a % x;
    Divided(a, x);
    Divided(q, y);
    Nested(a, x, y, q, r, q / y, q % y);
    Quotient(a, x * y, q / y, x * (q % y) + r);
  }

  lemma Nested(a: nat, x: nat, y: nat, q: nat, r: nat, q': nat, r': nat)
    requires a == x * q + r && q == y * q' + r' && r < x && r' < y
    ensures x * y > 0 && a == x * y * q' + (x * r' + r) && x * r' + r < x * y
  {
    assert x * q == x * (y * q') + x * r' by { Spread(x, y * q', r'); }
    assert x * (y * q') == x * y * q';
    Spread(x, y - r' - 1, r' + 1);
    Spread(x, r', 1);
  }

  lemma Spread(k: nat, a: nat, b: nat)
    ensures k * (a + b) == k * a + k * b
  {
  }

  lemma Quotient(a: nat, d: nat, q: nat, r: nat)
    requires d > 0 && a == d * q + r && r < d
    ensures a / d == q && a % d == r
  {
    var t, u := a / d, a % d;
    assert a == d * t + u;
    Multiples(d, q - t);
    assert d * (q - t) == d * q - d * t == u - r;
  }

  lemma Multiples(d: nat, x: int)
    ensures x >= 1 ==> d * x >= d
    ensures x <= -1 ==> d * x + d <= 0
  {
    if x >= 1 { MulAtMost(1, x, d); }
    if x <= -1 {
      MulAtMost(1, -x, d);
      assert d * x == -(d * -x);
    }
  }

  /** Shifting right by `j` first. */
  lemma BitShift(a: nat, j: nat, shifted: nat, k: nat)
    requires shifted == a / Pow2(j)
    ensures Bit(shifted, k) == Bit(a, j + k)
  {
    hide Pow2;
    Pow2Add(j, k);
    DivDiv(a, Pow2(j), Pow2(k));
  }

  /** Low bits survive cutting off the high ones. */
  lemma BitLow(a: nat, m: nat, k: nat)
    requires k < m
    ensures Bit(a % Pow2(m), k) == Bit(a, k)
  {
    hide Pow2;
    Pow2Add(k, m - k);
    Pow2Add(1, m - k - 1);
    TwoIs();
    LowBits(a, Pow2(m), Pow2(k), Pow2(m - k - 1));
  }

  lemma LowBits(a: nat, whole: nat, p: nat, rest: nat)
    requires p > 0 && rest > 0 && whole == p * (2 * rest) && whole > 0
    ensures a % whole / p % 2 == a / p % 2
  {
    Divided(a, whole);
    LowDigit(a % whole, p, rest, a / whole);
  }

  lemma Divided(a: nat, d: nat)
    requires d > 0
    ensures a == d * (a / d) + a % d
  {
  }

  lemma LowDigit(lo: nat, p: nat, rest: nat, q: nat)
    requires p > 0
    ensures (p * (2 * rest) * q + lo) / p % 2 == lo / p % 2
  {
    assert p * (2 * rest) * q == p * (2 * (rest * q)) by { Regroup(p, rest, q); }
    DivPlus(lo, p, 2 * (rest * q));
    EvenPart(rest * q, lo / p);
  }

  lemma EvenPart(x: nat, y: nat)
    ensures (2 * x + y) % 2 == y % 2
  {
  }

  lemma Regroup(p: nat, r: nat, q: nat)
    ensures p * (2 * r) * q == p * (2 * (r * q))
  {
    assert (2 * r) * q == 2 * (r * q);
    assert p * (2 * r) * q == p * ((2 * r) * q);
  }

  lemma TwoIs()
    ensures Pow2(1) == 2
  {
    assert Pow2(0) == 1;
  }

  lemma DivPlus(lo: nat, p: nat, n: nat)
    requires p > 0
    ensures (p * n + lo) / p == n + lo / p
  {
    var q, r := lo / p, lo % p;
    assert p * n + lo == p * (n + q) + r;
    Quotient(p * n + lo, p, n + q, r);
  }

  /** Bits at and above `n` of a number whose low `n` bits are `hi`. */
  lemma BitHigh(lo: nat, hi: nat, n: nat, k: nat)
    requires hi < Pow2(n) && n <= k
    ensures Bit(lo * Pow2(n) + hi, k) == Bit(lo, k - n)
  {
    hide Pow2, Bit;
    Quotient(lo * Pow2(n) + hi, Pow2(n), lo, hi);
    BitShift(lo * Pow2(n) + hi, n, lo, k - n);
  }

  /** Bit `k` of a word rotated left by `n` is the bit `n` places below it, around the end of the word. */
  lemma RotateLeftBit(a: u64, n: nat, k: nat)
    requires n <= 64 && k < 64
    ensures Bit(RotateLeft(a, n), k) == Bit(a, (k + 64 - n) % 64)
  {
    hide Pow2, Bit;
    var lo, hi := a % Pow2(64 - n), a / Pow2(64 - n);
    HighPartBound(a, n);
    if k < n {
      BitLow(lo * Pow2(n) + hi, n, k);
      Quotient(lo * Pow2(n) + hi, Pow2(n), lo, hi);
      BitShift(a, 64 - n, hi, k);
      assert (k + 64 - n) % 64 == k + 64 - n;
    } else {
      BitHigh(lo, hi, n, k);
      BitLow(a, 64 - n, k - n);
      assert (k + 64 - n) % 64 == k - n;
    }
  }

  lemma HighPartBound(a: u64, n: nat)
    requires n <= 64
    ensures a / Pow2(64 - n) < Pow2(n)
  {
    hide Pow2;
    Pow2Word();
    Pow2Add(64 - n, n);
    if a / Pow2(64 - n) >= Pow2(n) { MulAtMost(Pow2(n), a / Pow2(64 - n), Pow2(64 - n)); }
  }

  /** And of a word rotated right, the bit `n` places above it. */
  lemma RotateRightBit(a: u64, n: nat, k: nat)
    requires n <= 64 && k < 64
    ensures Bit(RotateRight(a, n), k) == Bit(a, (k + n) % 64)
  {
    hide Bit, RotateLeft;
    RotateLeftBit(a, 64 - n, k);
  }

  /** Exclusive or, bit by bit. */
  lemma {:induction false} XorBit(a: nat, b: nat, k: nat)
    ensures Bit(Xor(a, b), k) == (Bit(a, k) + Bit(b, k)) % 2
    decreases k
  {
    hide Xor, Bit;
    XorHalves(a, b);
    if k == 0 {
      LowestBit(a);
      LowestBit(b);
      LowestBit(Xor(a, b));
    } else {
      XorBit(a / 2, b / 2, k - 1);
      HigherBit(a, k);
      HigherBit(b, k);
      HigherBit(Xor(a, b), k);
    }
  }

  lemma LowestBit(a: nat)
    ensures Bit(a, 0) == a % 2
  {
    assert Pow2(0) == 1;
  }

  lemma HigherBit(a: nat, k: nat)
    requires k > 0
    ensures Bit(a, k) == Bit(a / 2, k - 1)
  {
    hide Bit;
    TwoIs();
    BitShift(a, 1, a / 2, k - 1);
  }
}
