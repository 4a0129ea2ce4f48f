/** When the keys that `crypto/rsa.rs` generates decrypt what they encrypt. */
module RsaKeys {
  import opened Arith
  import opened NumberTheory
  import opened Polynomials
  import opened BigUint
  import opened BigUintDiv
  import opened BigUintMod
  import opened Rsa

  /** p and q are distinct odd primes and e is invertible modulo (p-1)(q-1). */
  ghost predicate GoodPrimes(p: nat, q: nat, e: nat) {
    && Prime(p) && Prime(q) && p > 2 && q > 2 && p != q
    && (p - 1) * (q - 1) > 0
    && Gcd((p - 1) * (q - 1), e) == 1
  }

  /** What key generation computes of d and qi, whether or not the inverses exist. */
  ghost predicate Derived(p: nat, q: nat, e: nat, d: nat, qi: nat) {
    && (p - 1) * (q - 1) > 0 && p > 0
    && Cong(d * e, Gcd((p - 1) * (q - 1), e), (p - 1) * (q - 1))
    && Cong(qi * q, Gcd(p, q), p)
  }

  /** Decryption takes every number below the modulus back from its ciphertext. */
  ghost predicate Recovers(p: nat, q: nat, e: nat, dp: nat, dq: nat, qi: nat)
    requires p > 0
  {
    forall x: nat :: x < p * q ==> CrtValue(PowerMod(x, e, p * q), p, q, dp, dq, qi) == x
  }

  // ---- The same prime twice ----

  /** The value recovered lies below the prime, whatever the ciphertext. */
  lemma SamePrimeValue(c: int, p: nat, dp: nat, qi: nat)
    requires p > 1
    ensures 0 <= CrtValue(c, p, p, dp, dp, qi) < p
  {
    var m := PowerMod(c, dp, p);
    assert qi * (m - m) == 0;
    ModUnique(0, p, 0, 0);
  }

  // ---- The prime two ----

  /** With one of the primes two and the other odd, the value recovered is odd, whatever the ciphertext. */
  lemma PrimeTwoValue(c: int, p: nat, q: nat, d: nat, qi: nat)
    requires Prime(p) && Prime(q) && p != q && (p == 2 || q == 2) && Cong(qi * q, 1, p)
    ensures CrtValue(c, p, q, d % (p - 1), d % (q - 1), qi) % 2 == 1
  {
    var m1, m2 := PowerMod(c, d % (p - 1), p), PowerMod(c, d % (q - 1), q);
    var h := (qi * (m1 - m2)) % p;
    if q == 2 {
      assert m2 == 1;
    } else {
      assert m1 == 1;
      CongMod(qi * (m1 - m2), p);
      GarnerModP(m1, m2, h, qi, p, q);
    }
  }

  // ---- An exponent that is not invertible ----

  /** A prime that divides the number. */
  lemma {:induction false} PrimeFactor(n: nat, from: nat) returns (r: nat)
    requires 2 <= from <= n && forall d :: 1 < d < from ==> !Divides(d, n)
    ensures Prime(r) && n % r == 0
    decreases n - from
  {
    if Divides(from, n) {
      r := from;
      forall d | 1 < d < r
        ensures !Divides(d, r)
      {
        assert !Divides(d, n);
        if r % d == 0 {
          DividesTrans(d, r, n);
        }
      }
    } else {
      ModUnique(n, n, 1, 0);
      r := PrimeFactor(n, from + 1);
    }
  }

  lemma DividesTrans(a: nat, b: nat, c: nat)
    requires a > 0 && b > 0 && b % a == 0 && c % b == 0
    ensures c % a == 0
  {
    ModUnique(0, a, 0, 0);
    CongMul(b, 0, c / b, c / b, a);
    assert c == b * (c / b);
  }

  /** If a prime divides p - 1, some number other than one has its power one. */
  lemma RootOfUnity(p: nat, r: nat) returns (u: nat)
    requires Prime(p) && r > 1 && (p - 1) % r == 0
    ensures 1 < u < p && Cong(Pow(u, r), 1, p)
  {
    assert p >= 2;
    hide Prime, Pow, Cong;
    var k := (p - 1) / r;
    Cofactor(p - 1, r);
    UniversalExactly(k, p);
    var a :| 0 < a < p && !Cong(Pow(a, k), 1, p);
    u := Pow(a, k) % p;
    CongMod(Pow(a, k), p);
    CongPow(u, Pow(a, k), r, p);
    PowMul(a, k, r);
    ModUnique(a, p, 0, a);
    Fermat(a, p);
    RootNontrivial(u, Pow(a, k), r, p, Pow(a, p - 1));
  }

  lemma Cofactor(n: nat, r: nat)
    requires r > 1 && n % r == 0 && n > 0
    ensures n / r * r == n && 0 < n / r < n && (n / r) % n != 0
  {
    MulMonotone(2, r, n / r);
    ModUnique(n / r, n, 0, n / r);
  }

  lemma RootNontrivial(u: int, x: int, r: nat, p: int, one: int)
    requires p > 1 && r > 1 && u == x % p && !Cong(x, 1, p)
    requires Cong(Pow(u, r), one, p) && Cong(one, 1, p)
    ensures 1 < u < p && Cong(Pow(u, r), 1, p)
  {
    CongMod(x, p);
    ModUnique(1, p, 0, 1);
    ModUnique(0, p, 0, 0);
    if u == 0 {
      PowDivisible(0, r, p);
    }
  }

  /** The existence half of the Chinese remainder theorem for two primes. */
  lemma CrtExists(a: int, b: int, p: nat, q: nat) returns (x: nat)
    requires Prime(p) && Prime(q) && p != q && 0 <= b < q
    ensures x < p * q && Cong(x, a, p) && Cong(x, b, q)
  {
    assert p > 1 && q > 1;
    hide Prime, Cong;
    DistinctPrimesDoNotDivide(p, q);
    var i := PrimeInverse(q % p, p);
    InverseOf(q, i, p);
    var h := (i * (a - b)) % p;
    CongMod(i * (a - b), p);
    GarnerModP(a, b, h, i, p, q);
    CongFromDiff(b + h * q, b, h, q);
    MulMonotone(0, h, q);
    MulMonotone(h, p - 1, q);
    Distribute(p, 1, q);
    x := b + h * q;
  }

  lemma InverseOf(q: int, i: int, p: int)
    requires p > 0 && Cong(q % p * i, 1, p)
    ensures Cong(i * q, 1, p)
  {
    CongMod(q, p);
    CongMul(q % p, q, i, i, p);
    assert q * i == i * q;
  }

  /** A power that is one modulo a divisor of the exponent is one. */
  lemma PowerOne(x: int, r: nat, e: nat, p: int)
    requires p > 0 && r > 0 && e % r == 0 && Cong(Pow(x, r), 1, p)
    ensures Cong(Pow(x, e), 1, p)
  {
    PowQuotient(x, e, r);
    hide Pow, Cong;
    CongPow(Pow(x, r), 1, e / r, p);
    PowOne(e / r);
  }

  /** A number that is one modulo one prime, and a root of unity modulo the other, has the ciphertext of one. */
  lemma LiftRoot(u: nat, r: nat, e: nat, p: nat, q: nat) returns (x: nat)
    requires Prime(p) && Prime(q) && p != q && r > 1 && e % r == 0
    requires 1 < u < p && Cong(Pow(u, r), 1, p)
    ensures 1 < x < p * q && Cong(Pow(x, e), 1, p * q)
  {
    assert p > 1 && q > 1;
    hide Prime, Pow;
    x := CrtExists(u, 1, p, q);
    CongPow(x, u, e, p);
    PowerOne(u, r, e, p);
    CongPow(x, 1, e, q);
    PowOne(e);
    CrtUnique(Pow(x, e), 1, p, q);
    if x <= 1 {
      CongSmall(x, u, p);
    }
  }

  /** If e and (p-1)(q-1) have a common factor, one and another number below the modulus have the same ciphertext. */
  lemma CommonCiphertext(p: nat, q: nat, e: nat) returns (x: nat)
    requires Prime(p) && Prime(q) && p > 2 && q > 2 && p != q
    requires (p - 1) * (q - 1) > 0 && Gcd((p - 1) * (q - 1), e) != 1
    ensures 1 < x < p * q && PowerMod(x, e, p * q) == PowerMod(1, e, p * q)
  {
    hide Prime, Pow, Gcd;
    var phi := (p - 1) * (q - 1);
    var g := Gcd(phi, e);
    GcdDivides(phi, e);
    var r := PrimeFactor(g, 2);
    FactorOfPrime(r);
    DividesTrans(r, g, phi);
    DividesTrans(r, g, e);
    if (p - 1) % r == 0 {
      var u := RootOfUnity(p, r);
      x := LiftRoot(u, r, e, p, q);
    } else {
      PrimeDividesProduct(p - 1, q - 1, r);
      var u := RootOfUnity(q, r);
      x := LiftRoot(u, r, e, q, p);
      assert q * p == p * q;
    }
    PowOne(e);
  }

  lemma FactorOfPrime(r: nat)
    requires Prime(r)
    ensures r > 1
  {
  }

  // ---- The exact condition ----

  lemma GoodRecovers(p: nat, q: nat, e: nat, d: nat, qi: nat)
    requires p > 1 && q > 1 && KeyNumbers(p * q, e, d, p, q, d % (p - 1), d % (q - 1), qi)
    ensures Recovers(p, q, e, d % (p - 1), d % (q - 1), qi)
  {
    hide Prime, Pow, Cong;
    var n := p * q;
    ExponentPositive(e, d, p, q);
    forall x: nat | x < n
      ensures CrtValue(PowerMod(x, e, n), p, q, d % (p - 1), d % (q - 1), qi) == x
    {
      PowerUndone(x, e, d, p, q);
      PowerModNatural(x, e, n);
      CrtIsPower(PowerMod(x, e, n), n, e, d, p, q, d % (p - 1), d % (q - 1), qi);
    }
  }

  lemma PowerUndone(x: nat, e: nat, d: nat, p: nat, q: nat)
    requires Prime(p) && Prime(q) && p > 2 && q > 2 && p != q && e > 0
    requires (p - 1) * (q - 1) > 0 && Cong(e * d, 1, (p - 1) * (q - 1))
    requires p * q > 0 && x < p * q
    ensures Pow(PowerMod(x, e, p * q), d) % (p * q) == x
  {
    hide Prime;
    var n := p * q;
    CongMod(Pow(x, e), n);
    CongPow(PowerMod(x, e, n), Pow(x, e), d, n);
    RsaExponents(x, e, d, p, q);
    ModUnique(x, n, 0, x);
  }

  lemma GoodNumbers(p: nat, q: nat, e: nat, d: nat, qi: nat)
    requires GoodPrimes(p, q, e) && Derived(p, q, e, d, qi)
    ensures KeyNumbers(p * q, e, d, p, q, d % (p - 1), d % (q - 1), qi)
  {
    assert e * d == d * e;
    PrimesCoprime(p, q);
  }

  lemma SamePrimeFails(p: nat, e: nat, dp: nat, qi: nat)
    requires p > 1
    ensures !Recovers(p, p, e, dp, dp, qi)
  {
    MulMonotone(2, p, p);
    SamePrimeValue(PowerMod(p, e, p * p), p, dp, qi);
  }

  lemma PrimeTwoFails(p: nat, q: nat, e: nat, d: nat, qi: nat)
    requires Prime(p) && Prime(q) && p != q && (p == 2 || q == 2) && Cong(qi * q, Gcd(p, q), p)
    ensures !Recovers(p, q, e, d % (p - 1), d % (q - 1), qi)
  {
    MulMonotone(2, p, q);
    PrimesCoprime(p, q);
    PrimeTwoValue(PowerMod(0, e, p * q), p, q, d, qi);
  }

  lemma CommonFactorFails(p: nat, q: nat, e: nat, dp: nat, dq: nat, qi: nat)
    requires Prime(p) && Prime(q) && p > 2 && q > 2 && p != q
    requires (p - 1) * (q - 1) > 0 && Gcd((p - 1) * (q - 1), e) != 1
    ensures !Recovers(p, q, e, dp, dq, qi)
  {
    hide Prime, Gcd, PowerMod, CrtValue;
    var x := CommonCiphertext(p, q, e);
  }

  /**
   * The numbers derived from two primes decrypt every number below the modulus exactly if the primes differ,
   * neither is two, and e is invertible modulo (p-1)(q-1).
   */
  lemma RecoversExactly(p: nat, q: nat, e: nat, d: nat, qi: nat)
    requires Prime(p) && Prime(q) && Derived(p, q, e, d, qi)
    ensures Recovers(p, q, e, d % (p - 1), d % (q - 1), qi) <==> GoodPrimes(p, q, e)
  {
    assert p > 1 && q > 1;
    hide Prime, Gcd, Recovers, KeyNumbers;
    if p == q {
      SamePrimeFails(p, e, d % (p - 1), qi);
    } else if p == 2 || q == 2 {
      PrimeTwoFails(p, q, e, d, qi);
    } else if Gcd((p - 1) * (q - 1), e) != 1 {
      CommonFactorFails(p, q, e, d % (p - 1), d % (q - 1), qi);
    } else {
      GoodNumbers(p, q, e, d, qi);
      GoodRecovers(p, q, e, d, qi);
    }
  }

  lemma PrimesCoprime(p: nat, q: nat)
    requires Prime(p) && Prime(q) && p != q
    ensures Gcd(p, q) == 1
  {
    var g := Gcd(p, q);
    GcdDivides(p, q);
    DistinctPrimesDoNotDivide(p, q);
    DivisorAtMost(p, g);
    assert Divides(g, p);
  }

  lemma DivisorAtMost(x: nat, g: nat)
    requires x > 0 && g > 0 && x % g == 0
    ensures g <= x
  {
    if g > x {
      ModUnique(x, g, 0, x);
    }
  }

  // ---- Key generation ----

  /** Decrypting with the key takes every number below its modulus back from its ciphertext. */
  ghost predicate Works(key: PrivateKey) {
    && Value(key.p) > 0
    && Value(key.n) == Value(key.p) * Value(key.q)
    && Recovers(Value(key.p), Value(key.q), Value(key.e), Value(key.dp), Value(key.dq), Value(key.qi))
  }

  /** The deterministic part of key generation: everything after the two primes are drawn. */
  method DeriveKey(p: Limbs, q: Limbs) returns (key: PrivateKey)
    requires Normalized(p) && Normalized(q) && Prime(Value(p)) && Prime(Value(q))
    ensures key.Normal() && key.p == p && key.q == q && Value(key.e) == 65537 && Value(key.n) == Value(p) * Value(q)
    ensures Works(key) <==> GoodPrimes(Value(p), Value(q), 65537)
    ensures ValidKey(key) <==> GoodPrimes(Value(p), Value(q), 65537)
    ensures Value(p) == Value(q) ==>
              forall c: nat :: 0 <= CrtValue(c, Value(p), Value(q), Value(key.dp), Value(key.dq),
                                             Value(key.qi)) < Value(p)
  {
    ghost var vp, vq := Value(p), Value(q);
    assert vp > 1 && vq > 1;
    var one: Limbs, e: Limbs := [1], [65537];
    assert Normalized(one) && Normalized(e) && p != [] && q != [];
    hide Value, Prime, GoodPrimes, KeyNumbers, Gcd, Recovers, Cong, CrtValue, Weight, Normalized, Same, Derived;
    SmallValue(1);
    SmallValue(65537);
    var n := Mul(p, q);
    var pMinus1 := Sub(p, one);
    var qMinus1 := Sub(q, one);
    var phi := Mul(pMinus1, qMinus1);
    var d := ModInverse(e, phi);
    var dp := Mod(d, pMinus1);
    var dq := Mod(d, qMinus1);
    var qi := ModInverse(q, p);
    key := PrivateKey(n, e, d, p, q, dp, dq, qi);
    DerivedFrom(vp, vq, 65537, Value(d), Value(qi), Value(phi));
    RecoversExactly(vp, vq, 65537, Value(d), Value(qi));
    KeyExactly(vp, vq, 65537, Value(d), Value(qi));
    if vp == vq {
      forall c: nat
        ensures 0 <= CrtValue(c, vp, vq, Value(key.dp), Value(key.dq), Value(key.qi)) < vp
      {
        SamePrimeValue(c, vp, Value(dp), Value(qi));
      }
    }
  }

  lemma DerivedFrom(p: nat, q: nat, e: nat, d: nat, qi: nat, phi: nat)
    requires p > 1 && q > 1 && phi == (p - 1) * (q - 1)
    requires Same(d * e, Gcd(phi, e), phi) && Same(qi * q, Gcd(p, q), p)
    ensures Derived(p, q, e, d, qi)
  {
    MulMonotone(1, p - 1, q - 1);
  }

  /** The derived numbers are related as those of a key exactly when they work. */
  lemma KeyExactly(p: nat, q: nat, e: nat, d: nat, qi: nat)
    requires Prime(p) && Prime(q) && Derived(p, q, e, d, qi)
    ensures KeyNumbers(p * q, e, d, p, q, d % (p - 1), d % (q - 1), qi) <==> GoodPrimes(p, q, e)
  {
    assert p > 1 && q > 1;
    hide Prime, Gcd, Recovers, KeyNumbers, GoodPrimes;
    if KeyNumbers(p * q, e, d, p, q, d % (p - 1), d % (q - 1), qi) {
      GoodRecovers(p, q, e, d, qi);
      RecoversExactly(p, q, e, d, qi);
    }
    if GoodPrimes(p, q, e) {
      GoodNumbers(p, q, e, d, qi);
    }
  }

  lemma SmallValue(x: Limb)
    ensures Value([x]) == x
  {
    assert Prefix([x], 1) == Prefix([x], 0) + Digit([x], 0) * Weight(0);
  }

  /** Nothing rules out drawing the same prime twice, and then no number from that prime on is decrypted. */
  method SamePrimeTwice(p: Limbs) returns (key: PrivateKey)
    requires Normalized(p) && Prime(Value(p))
    ensures key.Normal() && Value(key.n) == Value(p) * Value(p) && !Works(key)
    ensures forall x: nat :: x >= Value(p) ==>
              CrtValue(PowerMod(x, Value(key.e), Value(key.n)),
                       Value(p), Value(p), Value(key.dp), Value(key.dq), Value(key.qi)) != x
  {
    key := DeriveKey(p, p);
    forall x: nat | x >= Value(p)
      ensures CrtValue(PowerMod(x, Value(key.e), Value(key.n)),
                       Value(p), Value(p), Value(key.dp), Value(key.dq), Value(key.qi)) != x
    {
      PowerModNatural(x, Value(key.e), Value(key.n));
    }
  }
}
