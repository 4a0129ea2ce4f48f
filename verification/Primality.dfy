/** The probabilistic primality test of `crypto/rsa.rs`, with the random draws as parameters. */
module Primality {
  import opened Arith
  import opened Bits
  import opened Bytes
  import opened NumberTheory
  import opened BigUint
  import opened BigUintDiv
  import opened BigUintMod
  import opened BigUintBytes

  // ---- The test ----

  /** How often two divides the number. */
  function Twos(m: nat): nat {
    if m > 0 && m % 2 == 0 then 1 + Twos(m / 2) else 0
  }

  function OddPart(m: nat): nat {
    if m > 0 && m % 2 == 0 then OddPart(m / 2) else m
  }

  lemma {:induction false} OddPartTwos(m: nat)
    requires m > 0
    ensures OddPart(m) % 2 == 1 && OddPart(m) * Pow2(Twos(m)) == m
    ensures m % 2 == 0 ==> Twos(m) > 0
  {
    if m % 2 == 0 {
      OddPartTwos(m / 2);
      MulSwap(OddPart(m), Pow2(Twos(m / 2)));
    }
  }

  lemma MulSwap(x: int, y: int)
    ensures x * (2 * y) == 2 * (x * y)
  {
  }

  /** The power reached after `i` squarings is minus one. */
  ghost predicate MinusOne(n: nat, a: int, d: nat, i: nat)
    requires n > 0
  {
    d * Pow2(i) >= 0 && Cong(Pow(a, d * Pow2(i)), -1, n)
  }

  /** With n - 1 = d * 2^r for an odd d: a^d is one, or a^(d * 2^i) is minus one for some i below r. */
  ghost predicate Passes(n: nat, a: int, d: nat, r: nat)
    requires n > 0
  {
    Cong(Pow(a, d), 1, n) || exists i: nat :: i < r && MinusOne(n, a, d, i)
  }

  ghost predicate StrongPass(n: nat, a: int)
    requires n > 0
  {
    Passes(n, a, OddPart(n - 1), Twos(n - 1))
  }

  // ---- Primes ----

  lemma SquareRootOfOne(y: int, p: int)
    requires Prime(p) && Cong(y * y, 1, p)
    ensures Cong(y, 1, p) || Cong(y, -1, p)
  {
    ModUnique(0, p, 0, 0);
    CongAdd(y * y, 1, 1, 1, p);
    assert y * y - 1 == (y - 1) * (y + 1);
    if (y - 1) % p == 0 {
      CongAdd(y - 1, 0, 1, 1, p);
    } else {
      PrimeDividesProduct(y - 1, y + 1, p);
      CongAdd(y + 1, 0, 1, 1, p);
    }
  }

  lemma Squared(a: int, d: nat, i: nat)
    ensures d * Pow2(i) >= 0 && d * Pow2(i + 1) >= 0
    ensures Pow(a, d * Pow2(i + 1)) == Pow(a, d * Pow2(i)) * Pow(a, d * Pow2(i))
  {
    MulSwap(d, Pow2(i));
    MulMonotone(0, d, Pow2(i));
    PowAdd(a, d * Pow2(i), d * Pow2(i));
  }

  /** Going back from a power that is one, the first one that is not is minus one. */
  lemma {:induction false} Descend(a: int, d: nat, r: nat, p: nat)
    requires Prime(p) && d * Pow2(r) >= 0 && Cong(Pow(a, d * Pow2(r)), 1, p)
    ensures Passes(p, a, d, r)
  {
    assert p > 1;
    hide Prime, Pow, Cong;
    if r > 0 {
      Squared(a, d, r - 1);
      SquareRootOfOne(Pow(a, d * Pow2(r - 1)), p);
      if Cong(Pow(a, d * Pow2(r - 1)), 1, p) {
        Descend(a, d, r - 1, p);
      } else {
        assert MinusOne(p, a, d, r - 1);
      }
    } else {
      assert d * Pow2(0) == d;
    }
  }

  lemma ZeroNotPassed(a: int, d: nat, r: nat, p: nat)
    requires p > 2 && a % p == 0 && d > 0
    ensures !Passes(p, a, d, r)
  {
    ModUnique(1, p, 0, 1);
    ModUnique(-1, p, -1, p - 1);
    PowDivisible(a, d, p);
    forall i: nat
      ensures !MinusOne(p, a, d, i)
    {
      MulMonotone(1, d, Pow2(i));
      PowDivisible(a, d * Pow2(i), p);
    }
  }

  /** A base passes for an odd prime exactly if the prime does not divide it. */
  lemma PrimePasses(p: nat, a: int)
    requires Prime(p) && p > 2
    ensures StrongPass(p, a) <==> a % p != 0
  {
    var d, r := OddPart(p - 1), Twos(p - 1);
    OddPartTwos(p - 1);
    hide Prime, Passes, OddPart, Twos;
    if a % p == 0 {
      ZeroNotPassed(a, d, r, p);
    } else {
      Fermat(a, p);
      Descend(a, d, r, p);
    }
  }

  /** One and minus one pass for every number above two, so accepting shows nothing if only they are drawn. */
  lemma TrivialBasesPass(n: nat, a: int)
    requires n > 2 && n % 2 == 1 && (a % n == 1 || a % n == n - 1)
    ensures StrongPass(n, a)
  {
    var d, r := OddPart(n - 1), Twos(n - 1);
    OddPartTwos(n - 1);
    ModUnique(1, n, 0, 1);
    ModUnique(-1, n, -1, n - 1);
    if a % n == 1 {
      CongPow(a, 1, d, n);
      PowOne(d);
    } else {
      CongPow(a, -1, d, n);
      OddPower(d);
      assert d * Pow2(0) == d;
      assert MinusOne(n, a, d, 0);
    }
  }

  lemma {:induction false} OddPower(d: nat)
    requires d % 2 == 1
    ensures Pow(-1, d) == -1
  {
    if d > 1 {
      OddPower(d - 2);
      assert Pow(-1, d) == -1 * (-1 * Pow(-1, d - 2));
    }
  }

  // ---- The code ----

  method SplitTwos(m: Limbs) returns (d: Limbs, r: nat)
    requires Normalized(m) && Value(m) > 0
    ensures Normalized(d) && Value(d) == OddPart(Value(m)) && r == Twos(Value(m))
  {
    hide Value;
    d, r := m, 0;
    LowestBit(d);
    while d[0] % 2 == 0
      invariant Normalized(d) && Value(d) > 0 && d[0] % 2 == Value(d) % 2
      invariant OddPart(Value(d)) == OddPart(Value(m)) && r + Twos(Value(d)) == Twos(Value(m))
      decreases Value(d)
    {
      d := Shr(d, 1);
      r := r + 1;
      assert Pow2(1) == 2;
      LowestBit(d);
    }
  }

  lemma ResidueMinusOne(y: int, n: int)
    requires n > 0
    ensures y % n == n - 1 <==> Cong(y, -1, n)
  {
    ModUnique(-1, n, -1, n - 1);
  }

  /** One round of the test. */
  method Round(n: Limbs, nMinus1: Limbs, d: Limbs, r: nat, a: Limbs) returns (pass: bool)
    requires Normalized(n) && Value(n) > 2 && Normalized(nMinus1) && Value(nMinus1) == Value(n) - 1
    requires Value(d) > 0 && r > 0
    ensures pass <==> Passes(Value(n), Value(a), Value(d), r)
  {
    hide Value, Pow;
    ghost var m, b, e := Value(n), Value(a), Value(d);
    var x := ModExp(a, d, n);
    var one: Limbs := [1];
    OneValue();
    ModUnique(1, m, 0, 1);
    ResidueMinusOne(Pow(b, e), m);
    var isOne := Cmp(x, one);
    var isMinusOne := Cmp(x, nMinus1);
    assert e * Pow2(0) == e;
    if isOne == 0 || isMinusOne == 0 {
      assert isMinusOne == 0 ==> MinusOne(m, b, e, 0);
      return true;
    }
    for i := 0 to r - 1
      invariant Normalized(x) && e * Pow2(i) >= 0 && Value(x) == Pow(b, e * Pow2(i)) % m
      invariant forall j: nat :: j <= i ==> !MinusOne(m, b, e, j)
    {
      Squared(b, e, i);
      SquareMod(Pow(b, e * Pow2(i)), m);
      x := Mul(x, x);
      x := Mod(x, n);
      isMinusOne := Cmp(x, nMinus1);
      ResidueMinusOne(Pow(b, e * Pow2(i + 1)), m);
      if isMinusOne == 0 {
        assert MinusOne(m, b, e, i + 1);
        return true;
      }
    }
    return false;
  }

  lemma SquareMod(y: int, m: int)
    requires m > 0
    ensures (y % m * (y % m)) % m == (y * y) % m
  {
    CongMod(y, m);
    CongMul(y % m, y, y % m, y, m);
  }

  /**
   * Small numbers and even ones are decided outright. An odd number above three is accepted exactly if every base
   * drawn passes; so an odd prime above three is accepted exactly if it divides no base drawn.
   */
  method IsProbablyPrime(n: Limbs, rounds: nat, draw: nat -> seq<Byte>) returns (ok: bool)
    requires Normalized(n)
    ensures Value(n) < 2 ==> !ok
    ensures Value(n) == 2 || Value(n) == 3 ==> ok
    ensures Value(n) > 3 && Value(n) % 2 == 0 ==> !ok
    ensures Value(n) > 3 && Value(n) % 2 == 1 ==>
              (ok <==> forall i :: 0 <= i < rounds ==> StrongPass(Value(n), BigEndian(draw(i)) % Value(n)))
    ensures Value(n) > 3 && Prime(Value(n)) ==>
              (ok <==> forall i :: 0 <= i < rounds ==> BigEndian(draw(i)) % Value(n) != 0)
  {
    hide Value, Prime, Passes, OddPart, Twos, BigEndian;
    ghost var m := Value(n);
    OneValue();
    TwoThreeValues();
    PrimeBases(m, rounds, draw);
    var c2 := Cmp(n, [2]);
    if c2 < 0 {
      return false;
    }
    var c3 := Cmp(n, [3]);
    if c2 == 0 || c3 == 0 {
      return true;
    }
    LowestBit(n);
    if n[0] % 2 == 0 {
      return false;
    }
    var nMinus1 := Sub(n, [1]);
    var d, r := SplitTwos(nMinus1);
    OddPartTwos(m - 1);
    for i := 0 to rounds
      invariant forall j :: 0 <= j < i ==> StrongPass(m, BigEndian(draw(j)) % m)
    {
      var a := FromBytes(draw(i));
      a := Mod(a, n);
      var pass := Round(n, nMinus1, d, r, a);
      if !pass {
        return false;
      }
    }
    return true;
  }

  lemma TwoThreeValues()
    ensures Value([2]) == 2 && Value([3]) == 3
  {
    assert Prefix([2], 1) == Prefix([2], 0) + Digit([2], 0) * Weight(0);
    assert Prefix([3], 1) == Prefix([3], 0) + Digit([3], 0) * Weight(0);
  }

  lemma PrimeBases(p: nat, rounds: nat, draw: nat -> seq<Byte>)
    ensures p > 3 && Prime(p) ==> p % 2 == 1
    ensures p > 3 && Prime(p) ==>
              forall i :: 0 <= i < rounds ==> (StrongPass(p, BigEndian(draw(i)) % p) <==> BigEndian(draw(i)) % p != 0)
  {
    hide StrongPass, BigEndian;
    if p > 3 && Prime(p) {
      assert !Divides(2, p);
      forall i | 0 <= i < rounds
        ensures StrongPass(p, BigEndian(draw(i)) % p) <==> BigEndian(draw(i)) % p != 0
      {
        var x := BigEndian(draw(i)) % p;
        ModUnique(x, p, 0, x);
        PrimePasses(p, x);
      }
    }
  }

  /** Nine is accepted if every base drawn is one. */
  method NineAccepted(rounds: nat) returns (ok: bool)
    ensures ok && !Prime(9)
  {
    assert Divides(3, 9);
    assert Value([9]) == 9 by {
      assert Prefix([9], 1) == Prefix([9], 0) + Digit([9], 0) * Weight(0);
    }
    BigEndianSingle(1);
    TrivialBasesPass(9, 1);
    ok := IsProbablyPrime([9], rounds, _ => [1]);
  }

  // ---- Candidates ----

  lemma {:induction false} OrBounds(a: nat, b: nat, n: nat)
    requires a < Pow2(n) && b < Pow2(n)
    ensures a <= BitOr(a, b) < Pow2(n) && b <= BitOr(a, b)
  {
    if n > 0 {
      OrBounds(a / 2, b / 2, n - 1);
    }
  }

  lemma OrByte(a: Byte, b: Byte)
    ensures a <= BitOr(a, b) < 256 && b <= BitOr(a, b)
  {
    Pow2Values();
    OrBounds(a, b, 8);
  }

  /** A candidate: the bytes drawn, with the two highest bits and the lowest one set. */
  method RandomOdd(bits: nat, data: seq<Byte>) returns (c: Limbs)
    requires |data| == (bits + 7) / 8
    ensures bits == 0 ==> Value(c) == 0
    ensures bits > 0 ==> Normalized(c) && Candidate(Value(c), |data|)
  {
    if bits == 0 {
      OneValue();
      return [0];
    }
    OrByte(data[0], 0xc0);
    var bytes: seq<Byte> := data[0 := BitOr(data[0], 0xc0)];
    var last := |bytes| - 1;
    OrByte(bytes[last], 1);
    bytes := bytes[last := BitOr(bytes[last], 1)];
    CandidateBytes(bytes);
    c := FromBytes(bytes);
  }

  /** Odd, of exactly `k` bytes, with the two highest bits set. */
  ghost predicate Candidate(x: nat, k: nat) {
    k > 0 && x % 2 == 1 && 3 * Pow2(8 * k - 2) <= x < Pow2(8 * k)
  }

  lemma CandidateBytes(s: seq<Byte>)
    requires s != [] && s[0] >= 0xc0 && s[|s| - 1] % 2 == 1
    ensures Candidate(BigEndian(s), |s|)
  {
    assert Pow2(6) == 64;
    LastByteOdd(s);
    hide Pow2, BigEndian, ByteWeight;
    var k := |s|;
    BigEndianSplit(s);
    BigEndianBound(s);
    ByteWeightIsPow2(k);
    ByteWeightIsPow2(k - 1);
    Pow2Add(6, 8 * (k - 1));
    MulMonotone(192, s[0], ByteWeight(k - 1));
  }

  lemma LastByteOdd(s: seq<Byte>)
    requires s != [] && s[|s| - 1] % 2 == 1
    ensures BigEndian(s) % 2 == 1
  {
    EvenPlusOdd(BigEndian(s[..|s| - 1]), s[|s| - 1]);
  }

  lemma EvenPlusOdd(x: nat, y: nat)
    requires y % 2 == 1
    ensures (x * 256 + y) % 2 == 1
  {
  }

  /** The product of two candidates has twice their length. */
  lemma ProductLength(x: nat, y: nat, k: nat)
    requires Candidate(x, k) && Candidate(y, k)
    ensures x * y >= 0 && BitLen(x * y) == 16 * k
  {
    hide Pow2, BitLen;
    var h := Pow2(8 * k - 2);
    Quarters(k);
    ProductBounds(x, y, h);
    BitLenUnique(x * y, 16 * k);
  }

  lemma Quarters(k: nat)
    requires k > 0
    ensures var h := Pow2(8 * k - 2);
            h > 0 && Pow2(8 * k) == 4 * h && Pow2(16 * k) == 16 * (h * h) && Pow2(16 * k - 1) == 8 * (h * h)
  {
    var h := Pow2(8 * k - 2);
    assert Pow2(2) == 4 && Pow2(3) == 8 && Pow2(4) == 16;
    Pow2Add(2, 8 * k - 2);
    Pow2Add(8 * k - 2, 8 * k - 2);
    Pow2Add(3, 16 * k - 4);
    Pow2Add(4, 16 * k - 4);
  }

  lemma ProductBounds(x: nat, y: nat, h: nat)
    requires h > 0 && 3 * h <= x < 4 * h && 3 * h <= y < 4 * h
    ensures 8 * (h * h) <= x * y < 16 * (h * h)
  {
    MulMonotone(3 * h, x, y);
    MulMonotone(3 * h, y, 3 * h);
    MulMonotone(x, 4 * h - 1, y);
    MulMonotone(y, 4 * h, 4 * h - 1);
    MulMonotone(0, h, h);
    assert 3 * h * (3 * h) == 9 * (h * h);
    assert (4 * h - 1) * (4 * h) == 16 * (h * h) - 4 * h;
  }

  /** A modulus made of two candidates for half of `bits` has `bits` bits exactly if those fill whole bytes. */
  lemma ModulusLength(bits: nat, x: nat, y: nat)
    requires bits > 0 && bits % 2 == 0
    requires Candidate(x, (bits / 2 + 7) / 8) && Candidate(y, (bits / 2 + 7) / 8)
    ensures x * y >= 0 && (BitLen(x * y) == bits <==> bits % 16 == 0)
  {
    hide Candidate, BitLen;
    ProductLength(x, y, (bits / 2 + 7) / 8);
  }
}
