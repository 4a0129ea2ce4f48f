/** Integer powers and modular arithmetic, the mathematics the RSA code is measured against. */
module Arith {

  function Pow(b: int, e: nat): int
  {
    if e == 0 then 1 else b * Pow(b, e - 1)
  }

  /** `x` and `y` leave the same remainder modulo `m`. */
  ghost predicate Cong(x: int, y: int, m: int)
    requires m > 0
  {
    x % m == y % m
  }

  // ---- Division with remainder ----

  lemma ModUnique(x: int, m: int, q: int, r: int)
    requires m > 0 && x == q * m + r && 0 <= r < m
    ensures x % m == r && x / m == q
  {
    var d := q - x / m;
    assert d * m == x % m - r by {
      assert d * m == q * m - (x / m) * m;
    }
    MulCancel(d, 1, m);
    MulCancel(-1, d, m);
  }

  lemma ModAddMul(x: int, k: int, m: int)
    requires m > 0
    ensures (x + k * m) % m == x % m
    ensures (x + k * m) / m == x / m + k
  {
    assert x + k * m == (x / m + k) * m + x % m by {
      assert (x / m + k) * m == (x / m) * m + k * m;
    }
    ModUnique(x + k * m, m, x / m + k, x % m);
  }

  lemma MulMonotone(a: int, b: int, c: int)
    requires a <= b && 0 <= c
    ensures a * c <= b * c
  {
  }

  lemma Distribute(a: int, b: int, c: int)
    ensures (a + b) * c == a * c + b * c
    ensures (a - b) * c == a * c - b * c
    ensures c * (a + b) == c * a + c * b
  {
  }

  lemma Associate(a: int, b: int, c: int)
    ensures a * b * c == a * (b * c)
  {
  }

  /** Dividing in two steps is dividing by the product. */
  lemma DivDiv(x: int, a: int, b: int)
    requires a > 0 && b > 0
    ensures a * b > 0
    ensures x / a / b == x / (a * b)
  {
    assert a * b > 0;
    var y := x / a;
    var r := (y % b) * a + x % a;
    assert x == (y / b) * (a * b) + r by {
      assert x == y * a + x % a;
      assert y == (y / b) * b + y % b;
      assert y * a == (y / b) * b * a + (y % b) * a;
      assert (y / b) * b * a == (y / b) * (a * b);
    }
    assert 0 <= (y % b) * a <= (b - 1) * a by {
      MulMonotone(y % b, b - 1, a);
    }
    assert (b - 1) * a == a * b - a;
    ModUnique(x, a * b, y / b, r);
  }

  lemma DivShrinks(x: nat, p: nat)
    requires p > 0
    ensures 0 <= x / p <= x
  {
    MulMonotone(1, p, x / p);
  }

  /** Shifting `x = h*q + c` left by `p` carries `h` into the next digit of base p*q. */
  lemma SplitShift(x: int, h: int, c: int, p: int, q: int, base: int)
    requires p > 0 && q > 0 && p * q == base && x == h * q + c && 0 <= c < q && 0 <= x < base
    ensures x * p == c * p + h * base
    ensures 0 <= c * p <= base - p
    ensures h < p
  {
    Distribute(h * q, c, p);
    Associate(h, q, p);
    MulMonotone(0, c, p);
    MulMonotone(c, q - 1, p);
    Distribute(q, 1, p);
    MulCancel(h, p, q);
  }

  /** Adding an even multiple of `p` leaves the parity of the quotient by `p`. */
  lemma ParityOfQuotient(x: int, rest: int, s: int, p: int)
    requires p > 0
    ensures ((x + rest * (2 * s * p)) / p) % 2 == (x / p) % 2
  {
    Associate(rest, 2 * s, p);
    Associate(2, rest, s);
    assert rest * (2 * s) == 2 * (rest * s);
    ModAddMul(x, 2 * (rest * s), p);
    ParityOfSum(x / p, rest * s);
  }

  lemma ParityOfSum(x: int, y: int)
    ensures (x + 2 * y) % 2 == x % 2
  {
  }

  lemma Bracket(v: int, low: int, d: int, w: int, lo: int, hi: int)
    requires v == low + d * w && 0 <= low < w && lo <= d < hi
    ensures lo * w <= v < hi * w
  {
    MulMonotone(lo, d, w);
    MulMonotone(d + 1, hi, w);
    Distribute(d, 1, w);
  }

  // ---- Congruence ----

  lemma CongFromDiff(x: int, y: int, k: int, m: int)
    requires m > 0 && x == y + k * m
    ensures Cong(x, y, m)
  {
    ModAddMul(y, k, m);
  }

  lemma CongToDiff(x: int, y: int, m: int) returns (k: int)
    requires m > 0 && Cong(x, y, m)
    ensures x == y + k * m
  {
    k := x / m - y / m;
    assert k * m == (x / m) * m - (y / m) * m;
  }

  lemma CongMod(x: int, m: int)
    requires m > 0
    ensures Cong(x % m, x, m)
  {
    CongFromDiff(x, x % m, x / m, m);
  }

  lemma CongAdd(x: int, x': int, y: int, y': int, m: int)
    requires m > 0 && Cong(x, x', m) && Cong(y, y', m)
    ensures Cong(x + y, x' + y', m)
    ensures Cong(x - y, x' - y', m)
  {
    var k := CongToDiff(x, x', m);
    var l := CongToDiff(y, y', m);
    assert (k + l) * m == k * m + l * m;
    assert (k - l) * m == k * m - l * m;
    CongFromDiff(x + y, x' + y', k + l, m);
    CongFromDiff(x - y, x' - y', k - l, m);
  }

  lemma CongMulDiff(x: int, x': int, y: int, y': int, k: int, l: int, m: int)
    requires x == x' + k * m && y == y' + l * m
    ensures x * y == x' * y' + (k * y' + x * l) * m
  {
    assert x * y == x * y' + x * (l * m);
    assert x * y' == x' * y' + (k * m) * y';
    assert (k * y' + x * l) * m == (k * m) * y' + x * (l * m);
  }

  lemma CongMul(x: int, x': int, y: int, y': int, m: int)
    requires m > 0 && Cong(x, x', m) && Cong(y, y', m)
    ensures Cong(x * y, x' * y', m)
  {
    var k := CongToDiff(x, x', m);
    var l := CongToDiff(y, y', m);
    CongMulDiff(x, x', y, y', k, l, m);
    CongFromDiff(x * y, x' * y', k * y' + x * l, m);
  }

  lemma {:induction false} CongPow(x: int, y: int, e: nat, m: int)
    requires m > 0 && Cong(x, y, m)
    ensures Cong(Pow(x, e), Pow(y, e), m)
  {
    if e > 0 {
      CongPow(x, y, e - 1, m);
      CongMul(x, y, Pow(x, e - 1), Pow(y, e - 1), m);
    }
  }

  /** Congruent numbers of the same residue range are equal. */
  lemma CongSmall(x: int, y: int, m: int)
    requires m > 0 && Cong(x, y, m) && 0 <= x < m && 0 <= y < m
    ensures x == y
  {
    ModUnique(x, m, 0, x);
    ModUnique(y, m, 0, y);
  }

  // ---- Powers ----

  lemma {:induction false} PowAdd(b: int, e: nat, f: nat)
    ensures Pow(b, e + f) == Pow(b, e) * Pow(b, f)
  {
    if e > 0 {
      PowAdd(b, e - 1, f);
      assert b * (Pow(b, e - 1) * Pow(b, f)) == b * Pow(b, e - 1) * Pow(b, f);
    }
  }

  lemma {:induction false} PowMul(b: int, e: nat, f: nat)
    ensures e * f >= 0
    ensures Pow(b, e * f) == Pow(Pow(b, e), f)
  {
    if f > 0 {
      PowMul(b, e, f - 1);
      assert e * f == e + e * (f - 1);
      PowAdd(b, e, e * (f - 1));
    }
  }

  lemma MulShuffle(a: int, b: int, x: int, y: int)
    ensures a * b * (x * y) == (a * x) * (b * y)
  {
    assert a * b * (x * y) == a * (b * (x * y));
    assert b * (x * y) == x * (b * y);
  }

  lemma {:induction false} PowOne(e: nat)
    ensures Pow(1, e) == 1
  {
    if e > 0 {
      PowOne(e - 1);
    }
  }

  /** Multiplication by a common positive factor. */
  lemma MulCancel(a: int, b: int, c: int)
    requires c > 0
    ensures a < b <==> a * c < b * c
    ensures a == b <==> a * c == b * c
  {
    if a < b {
      MulMonotone(a + 1, b, c);
    } else {
      MulMonotone(b, a, c);
      if a > b {
        MulMonotone(b + 1, a, c);
      }
    }
  }

  lemma ModPlus(n: nat, c: nat, more: nat)
    requires c > 0
    ensures (n % c + more) % c == (n + more) % c
  {
    assert n == n % c + (n / c) * c;
    CongFromDiff(n + more, n % c + more, n / c, c);
  }
}
