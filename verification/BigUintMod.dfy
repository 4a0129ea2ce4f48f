/** Modular exponentiation and inversion of `crypto/rsa.rs`. */
module BigUintMod {
  import opened Arith
  import opened Bits
  import opened NumberTheory
  import opened BigUint
  import opened BigUintDiv

  /** Remainder as `mod_op` computes it: a zero modulus leaves the number as it is. */
  ghost function Rem(x: int, m: nat): int {
    if m == 0 then x else x % m
  }

  /** Equal modulo `m`; modulo zero this is equality. */
  ghost predicate Same(x: int, y: int, m: nat) {
    Rem(x, m) == Rem(y, m)
  }

  lemma SameRem(x: int, m: nat)
    ensures Same(Rem(x, m), x, m)
  {
    if m > 0 {
      CongMod(x, m);
    }
  }

  lemma SameMul(x: int, x': int, y: int, y': int, m: nat)
    requires Same(x, x', m) && Same(y, y', m)
    ensures Same(x * y, x' * y', m)
  {
    if m > 0 {
      CongMul(x, x', y, y', m);
    }
  }

  lemma {:induction false} SamePow(x: int, y: int, e: nat, m: nat)
    requires Same(x, y, m)
    ensures Same(Pow(x, e), Pow(y, e), m)
  {
    if e > 0 {
      SamePow(x, y, e - 1, m);
      SameMul(x, y, Pow(x, e - 1), Pow(y, e - 1), m);
    }
  }

  // ---- Square and multiply ----

  /** base^exp modulo m; with exponent zero it is 1 even modulo 1, because nothing is reduced. */
  ghost function PowerMod(base: int, exp: nat, m: nat): int {
    if exp == 0 then 1 else Rem(Pow(base, exp), m)
  }

  /** Binary exponentiation, for every operand. */
  method ModExp(base: Limbs, exponent: Limbs, modulus: Limbs) returns (result: Limbs)
    requires IsZero(modulus) || Normalized(modulus)
    ensures Value(result) == PowerMod(Value(base), Value(exponent), Value(modulus))
    ensures Normalized(result)
  {
    ghost var m := Value(modulus);
    ghost var target := Pow(Value(base), Value(exponent));
    result := [1];
    OneValue();
    var b := Mod(base, modulus);
    var exp := exponent;
    SameRem(Value(base), m);
    SamePow(Value(b), Value(base), Value(exp), m);
    while !IsZero(exp)
      invariant Same(Value(result) * Pow(Value(b), Value(exp)), target, m)
      invariant Value(exp) <= Value(exponent)
      invariant Value(exponent) == 0 ==> Value(result) == 1
      invariant Value(exp) == 0 && Value(exponent) > 0 ==> Value(result) == Rem(Value(result), m)
      invariant Normalized(result)
      decreases Value(exp)
    {
      ghost var x, y, e := Value(result), Value(b), Value(exp);
      LowestBit(exp);
      if exp[0] % 2 == 1 {
        result := Mul(result, b);
        result := Mod(result, modulus);
        RemIdempotent(x * y, m);
      }
      b := Mul(b, b);
      b := Mod(b, modulus);
      SquareStep(x, y, e, Value(result), Value(b), m);
      exp := Shr(exp, 1);
      assert Pow2(1) == 2;
    }
    assert Value(result) * Pow(Value(b), 0) == Value(result);
  }

  lemma OneValue()
    ensures Value([1]) == 1 && Value([0]) == 0
  {
    assert Prefix([1], 1) == Prefix([1], 0) + Digit([1], 0) * Weight(0);
    ZeroPrefix([0], 1);
  }

  lemma RemIdempotent(x: nat, m: nat)
    ensures Rem(Rem(x, m), m) == Rem(x, m)
  {
    SameRem(x, m);
  }

  /** The lowest limb decides whether a number is odd. */
  lemma LowestBit(a: Limbs)
    requires Value(a) > 0
    ensures |a| > 0 && a[0] % 2 == Value(a) % 2
  {
    var rest := PrefixRest(a, 1, |a|);
    assert Weight(1) == BASE * Weight(0);
    assert Prefix(a, 1) == Prefix(a, 0) + Digit(a, 0) * Weight(0);
    assert Value(a) == a[0] + 2 * (rest * 0x8000_0000_0000_0000);
  }

  /** One round keeps result * base^exp modulo m. */
  lemma SquareStep(x: int, y: int, e: nat, x': int, y': int, m: nat)
    requires e > 0
    requires x' == if e % 2 == 1 then Rem(x * y, m) else x
    requires y' == Rem(y * y, m)
    ensures Same(x' * Pow(y', e / 2), x * Pow(y, e), m)
  {
    var h := Pow(y * y, e / 2);
    SameRem(y * y, m);
    SamePow(y', y * y, e / 2, m);
    assert h == Pow(y, 2 * (e / 2)) by {
      assert Pow(y, 2) == y * y by {
        assert Pow(y, 2) == y * Pow(y, 1) && Pow(y, 1) == y * Pow(y, 0);
      }
      PowMul(y, 2, e / 2);
    }
    if e % 2 == 1 {
      SameRem(x * y, m);
      SameMul(x', x * y, Pow(y', e / 2), h, m);
      assert Pow(y, e) == y * Pow(y, e - 1);
      Associate(x, y, h);
    } else {
      SameMul(x, x, Pow(y', e / 2), h, m);
    }
  }

  // ---- Extended Euclid ----

  /**
   * The extended Euclidean algorithm with its coefficient kept in 0..modulus: the result times `a`
   * is the greatest common divisor modulo `modulus`, so it is an inverse exactly when they are coprime.
   */
  method ModInverse(a: Limbs, modulus: Limbs) returns (result: Limbs)
    requires IsZero(a) || Normalized(a)
    requires IsZero(modulus) || Normalized(modulus)
    ensures Normalized(result) && (Value(modulus) > 0 ==> Value(result) < Value(modulus))
    ensures Same(Value(result) * Value(a), Gcd(Value(modulus), Value(a)), Value(modulus))
    ensures Value(modulus) > 1 ==>
              (Cong(Value(result) * Value(a), 1, Value(modulus)) <==> Gcd(Value(modulus), Value(a)) == 1)
  {
    ghost var m, x := Value(modulus), Value(a);
    var t: Limbs, newt: Limbs := [0], [1];
    var r, newr := modulus, a;
    OneValue();
    if m > 0 {
      CongFromDiff(m, 0, 1, m);
    }
    while !IsZero(newr)
      invariant Normalized(t) && Normalized(newt)
      invariant IsZero(newr) || Normalized(newr)
      invariant Same(Value(t) * x, Value(r), m)
      invariant Same(Value(newt) * x, Value(newr), m)
      invariant m == 0 ==> Value(r) == 0 || Value(newr) == 0
      invariant Gcd(Value(r), Value(newr)) == Gcd(m, x)
      decreases Value(newr)
    {
      ghost var t0, t1, r0, r1 := Value(t), Value(newt), Value(r), Value(newr);
      var quotient := Div(r, newr);
      ghost var q := Value(quotient);
      QuotientFits(r0, r1, q);
      var next := NextCoefficient(t, newt, quotient, modulus);
      CoefficientStep(t0, t1, r0, r1, q, x, m, Value(next));
      t, newt := newt, next;
      var shrink := Mul(quotient, newr);
      var rest := Sub(r, shrink);
      r, newr := newr, rest;
    }
    result := Mod(t, modulus);
    GcdZero(Value(r));
    InverseResult(Value(t), Value(result), x, m);
  }

  /** t - quotient * newt, taken modulo `modulus` when it would be negative. */
  method NextCoefficient(t: Limbs, newt: Limbs, quotient: Limbs, modulus: Limbs) returns (r: Limbs)
    requires Normalized(t) && Normalized(newt) && Normalized(quotient)
    requires if IsZero(modulus) then Value(quotient) == 0 else Normalized(modulus)
    ensures Normalized(r)
    ensures Same(Value(r), Value(t) - Value(quotient) * Value(newt), Value(modulus))
  {
    var product := Mul(quotient, newt);
    var c := Cmp(t, product);
    if c >= 0 {
      r := Sub(t, product);
    } else {
      var excess := Sub(product, t);
      ghost var x := Value(excess);
      excess := Mod(excess, modulus);
      CongMod(x, Value(modulus));
      r := Sub(modulus, excess);
      r := Mod(r, modulus);
      WrapCoefficient(x, Value(modulus), Value(r));
    }
  }

  lemma GcdZero(r: nat)
    ensures Gcd(r, 0) == r
  {
  }

  lemma QuotientFits(r0: nat, r1: nat, q: int)
    requires r1 > 0 && q == r0 / r1
    ensures r0 - q * r1 == r0 % r1 && 0 <= q * r1 <= r0
    ensures Gcd(r0, r1) == Gcd(r1, r0 % r1)
  {
    MulMonotone(0, q, r1);
  }

  /** In the wrap-around branch the coefficient is still the difference, modulo m. */
  lemma WrapCoefficient(excess: nat, m: nat, newt: int)
    requires m > 0 && newt == (m - excess % m) % m
    ensures Cong(newt, 0 - excess, m)
  {
    CongMod(m - excess % m, m);
    CongFromDiff(m, 0, 1, m);
    CongMod(excess, m);
    CongAdd(m, 0, excess % m, excess, m);
  }

  lemma CoefficientStep(t0: int, t1: int, r0: int, r1: int, q: int, x: int, m: nat, newt: int)
    requires Same(t0 * x, r0, m) && Same(t1 * x, r1, m)
    requires Same(newt, t0 - q * t1, m)
    ensures Same(newt * x, r0 - q * r1, m)
  {
    Distribute(t0, q * t1, x);
    Associate(q, t1, x);
    if m > 0 {
      CongMul(newt, t0 - q * t1, x, x, m);
      CongMul(q, q, t1 * x, r1, m);
      CongAdd(t0 * x, r0, q * (t1 * x), q * r1, m);
    }
  }

  lemma InverseResult(t: int, result: int, x: nat, m: nat)
    requires result == Rem(t, m) && Same(t * x, Gcd(m, x), m)
    ensures Same(result * x, Gcd(m, x), m)
    ensures m > 1 ==> (Cong(result * x, 1, m) <==> Gcd(m, x) == 1)
  {
    if m > 0 {
      CongMod(t, m);
      CongMul(result, t, x, x, m);
    }
    if m > 1 && Cong(result * x, 1, m) {
      UnitGcd(result, x, m);
    }
  }

  /** A number with an inverse modulo m has no factor in common with m. */
  lemma UnitGcd(y: int, x: nat, m: nat)
    requires m > 0 && Cong(y * x, 1, m)
    ensures Gcd(m, x) == 1
  {
    var g := Gcd(m, x);
    GcdDivides(m, x);
    var k := CongToDiff(1, y * x, m);
    var a := CongToDiff(x, 0, g);
    var b := CongToDiff(m, 0, g);
    assert 1 == (y * a + k * b) * g by {
      Associate(y, a, g);
      Associate(k, b, g);
      Distribute(y * a, k * b, g);
    }
    FactorOfOne(y * a + k * b, g);
  }

  lemma FactorOfOne(u: int, g: int)
    requires g > 0 && u * g == 1
    ensures g == 1
  {
    MulCancel(0, u, g);
    MulMonotone(1, u, g);
  }
}
