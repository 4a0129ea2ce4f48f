/** Bitwise operations on natural numbers, defined bit by bit, and when they are plain arithmetic. */
module Bits {
  import opened Arith

  function Pow2(n: nat): (r: nat)
    ensures r > 0
  {
    if n == 0 then 1 else 2 * Pow2(n - 1)
  }

  function BitOr(a: nat, b: nat): nat {
    if a == 0 && b == 0 then 0
    else 2 * BitOr(a / 2, b / 2) + (if a % 2 == 1 || b % 2 == 1 then 1 else 0)
  }

  function BitAnd(a: nat, b: nat): nat {
    if a == 0 || b == 0 then 0
    else 2 * BitAnd(a / 2, b / 2) + (if a % 2 == 1 && b % 2 == 1 then 1 else 0)
  }

  function BitXor(a: nat, b: nat): nat {
    if a == 0 && b == 0 then 0
    else 2 * BitXor(a / 2, b / 2) + (if a % 2 != b % 2 then 1 else 0)
  }

  /** Number of significant bits. */
  function BitLen(x: nat): nat {
    if x == 0 then 0 else 1 + BitLen(x / 2)
  }

  lemma Doubled(x: int, y: int)
    ensures 2 * (x * y) == 2 * x * y
  {
  }

  lemma {:induction false} Pow2Add(m: nat, n: nat)
    ensures Pow2(m + n) == Pow2(m) * Pow2(n)
  {
    if m > 0 {
      Pow2Add(m - 1, n);
      Doubled(Pow2(m - 1), Pow2(n));
    }
  }

  lemma {:induction false} Pow2Monotone(m: nat, n: nat)
    requires m <= n
    ensures Pow2(m) <= Pow2(n)
    decreases n - m
  {
    if m < n {
      Pow2Monotone(m, n - 1);
    }
  }

  lemma Pow2Values()
    ensures Pow2(4) == 16 && Pow2(8) == 256 && Pow2(16) == 0x1_0000 && Pow2(32) == 0x1_0000_0000
    ensures Pow2(64) == 0x1_0000_0000_0000_0000
  {
    assert Pow2(4) == 16;
    Pow2Add(4, 4);
    Pow2Add(8, 8);
    Pow2Add(16, 16);
    Pow2Add(32, 32);
  }

  lemma {:induction false} BitLenBounds(x: nat)
    requires x > 0
    ensures BitLen(x) > 0 && Pow2(BitLen(x) - 1) <= x < Pow2(BitLen(x))
  {
    if x > 1 {
      BitLenBounds(x / 2);
    }
  }

  /** The bit length is the only exponent that brackets the number. */
  lemma {:induction false} BitLenUnique(x: nat, n: nat)
    requires n > 0 && Pow2(n - 1) <= x < Pow2(n)
    ensures BitLen(x) == n
  {
    if n > 1 {
      BitLenUnique(x / 2, n - 1);
    }
  }

  lemma {:induction false} OrZero(a: nat)
    ensures BitOr(a, 0) == a && BitOr(0, a) == a
  {
    if a > 0 {
      OrZero(a / 2);
    }
  }

  /** The lowest `k` bits are clear. */
  ghost predicate LowBitsClear(b: nat, k: nat) {
    k == 0 || (b % 2 == 0 && LowBitsClear(b / 2, k - 1))
  }

  lemma {:induction false} MultipleClearsBits(c: nat, k: nat)
    ensures c * Pow2(k) >= 0 && LowBitsClear(c * Pow2(k), k)
  {
    MulMonotone(0, c, Pow2(k));
    if k > 0 {
      MultipleClearsBits(c, k - 1);
      Associate(2, c, Pow2(k - 1));
      assert c * Pow2(k) == 2 * (c * Pow2(k - 1));
    }
  }

  /** Or-ing a number below 2^k with one whose lowest k bits are clear adds them. */
  lemma {:induction false} OrDisjoint(a: nat, b: nat, k: nat)
    requires a < Pow2(k) && LowBitsClear(b, k)
    ensures BitOr(a, b) == a + b && BitOr(b, a) == a + b
  {
    if k == 0 {
      OrZero(b);
    } else {
      OrDisjoint(a / 2, b / 2, k - 1);
    }
  }

  /** Setting a bit that is clear adds its weight. */
  lemma {:induction false} OrClearBit(a: nat, j: nat)
    requires (a / Pow2(j)) % 2 == 0
    ensures BitOr(a, Pow2(j)) == a + Pow2(j)
  {
    if j == 0 {
      OrZero(a / 2);
    } else {
      DivDiv(a, 2, Pow2(j - 1));
      OrClearBit(a / 2, j - 1);
    }
  }

  lemma ModDouble(x: nat, p: nat)
    requires p > 0
    ensures x % (2 * p) == 2 * ((x / 2) % p) + x % 2
  {
    var h := x / 2;
    assert x == (h / p) * (2 * p) + (2 * (h % p) + x % 2) by {
      Associate(2, h / p, p);
      assert (h / p) * (2 * p) == 2 * (h / p * p);
    }
    ModUnique(x, 2 * p, h / p, 2 * (h % p) + x % 2);
  }

  lemma {:induction false} XorBound(a: nat, b: nat, n: nat)
    requires a < Pow2(n) && b < Pow2(n)
    ensures BitXor(a, b) < Pow2(n)
  {
    if n > 0 {
      XorBound(a / 2, b / 2, n - 1);
    }
  }

  lemma {:induction false} XorZero(a: nat)
    ensures BitXor(a, 0) == a && BitXor(0, a) == a
  {
    if a > 0 {
      XorZero(a / 2);
    }
  }

  lemma {:induction false} XorCommutes(a: nat, b: nat)
    ensures BitXor(a, b) == BitXor(b, a)
    decreases a + b
  {
    if a > 0 || b > 0 {
      XorCommutes(a / 2, b / 2);
    }
  }

  /** Xor-ing the same number twice changes nothing. */
  lemma {:induction false} XorTwice(a: nat, b: nat)
    ensures BitXor(BitXor(a, b), b) == a
    decreases a + b
  {
    if a > 0 || b > 0 {
      XorTwice(a / 2, b / 2);
      assert BitXor(a, b) / 2 == BitXor(a / 2, b / 2);
    }
  }

  /** The same with only the lowest `k` bits kept after each step. */
  lemma {:induction false} XorTwiceMasked(a: nat, b: nat, k: nat)
    ensures BitXor(BitXor(a, b) % Pow2(k), b) % Pow2(k) == a % Pow2(k)
  {
    if k > 0 {
      var y := BitXor(a, b);
      XorTwiceMasked(a / 2, b / 2, k - 1);
      ModDouble(y, Pow2(k - 1));
      ModDouble(BitXor(y % Pow2(k), b), Pow2(k - 1));
      ModDouble(a, Pow2(k - 1));
      XorHalves(a, b);
      XorHalves(y % Pow2(k), b);
    }
  }

  lemma XorHalves(a: nat, b: nat)
    ensures BitXor(a, b) / 2 == BitXor(a / 2, b / 2)
    ensures BitXor(a, b) % 2 == if a % 2 != b % 2 then 1 else 0
  {
  }

  /** And-ing with 2^k - 1 keeps the lowest `k` bits. */
  lemma AndOdd(a: nat, b: nat)
    ensures BitAnd(a, 2 * b + 1) == 2 * BitAnd(a / 2, b) + a % 2
  {
  }

  lemma {:induction false} AndLowMask(a: nat, k: nat)
    ensures BitAnd(a, Pow2(k) - 1) == a % Pow2(k)
  {
    if k > 0 {
      hide BitAnd;
      AndLowMask(a / 2, k - 1);
      ModDouble(a, Pow2(k - 1));
      AndOdd(a, Pow2(k - 1) - 1);
    }
  }

  lemma AndEven(a: nat, b: nat)
    ensures BitAnd(a, 2 * b) == 0 <==> BitAnd(a / 2, b) == 0
  {
  }

  /** And-ing with the complement of 2^k - 1 in `n` bits gives zero exactly below 2^k. */
  lemma {:induction false} AndHighMask(a: nat, k: nat, n: nat)
    requires k <= n && a < Pow2(n)
    ensures Pow2(n) >= Pow2(k)
    ensures BitAnd(a, Pow2(n) - Pow2(k)) == 0 <==> a < Pow2(k)
  {
    Pow2Monotone(k, n);
    if k == 0 {
      AndLowMask(a, n);
      ModUnique(a, Pow2(n), 0, a);
    } else {
      var u, v := Pow2(n - 1), Pow2(k - 1);
      AndHighMask(a / 2, k - 1, n - 1);
      AndEven(a, u - v);
    }
  }
}
