/** Primes, inverses and Fermat's little theorem: why RSA exponents undo each other. */
module NumberTheory {
  import opened Arith

  ghost predicate Divides(d: int, n: int)
    requires d > 0
  {
    n % d == 0
  }

  ghost predicate Prime(p: int) {
    2 <= p && forall d :: 1 < d < p ==> !Divides(d, p)
  }

  ghost function Gcd(a: nat, b: nat): nat
    decreases b
  {
    if b == 0 then a else Gcd(b, a % b)
  }

  /** Every residue other than zero has an inverse modulo a prime. */
  lemma {:induction false} PrimeInverse(a: int, p: int) returns (x: int)
    requires Prime(p) && 0 < a < p
    ensures Cong(a * x, 1, p)
    decreases a
  {
    if a == 1 {
      x := 1;
    } else {
      var q, r := p / a, p % a;
      assert !Divides(a, p);
      var y := PrimeInverse(r, p);
      x := -(q * y);
      assert a * x == r * y + (-y) * p by {
        assert p == q * a + r;
        assert (-y) * p == (-y) * (q * a) - y * r;
        assert a * x == (-y) * (q * a);
      }
      CongFromDiff(a * x, r * y, -y, p);
    }
  }

  /** A factor that the prime does not divide can be cancelled. */
  lemma PrimeCancel(a: int, x: int, y: int, p: int)
    requires Prime(p) && a % p != 0 && Cong(a * x, a * y, p)
    ensures Cong(x, y, p)
  {
    var i := PrimeInverse(a % p, p);
    CongMod(a, p);
    CongMul(a % p, a, i, i, p);
    assert Cong(i * a, 1, p) by {
      assert a * i == i * a;
    }
    UndoFactor(i, a, x, p);
    UndoFactor(i, a, y, p);
    CongMul(i, i, a * x, a * y, p);
  }

  lemma UndoFactor(i: int, a: int, x: int, p: int)
    requires p > 0 && Cong(i * a, 1, p)
    ensures Cong(i * (a * x), x, p)
  {
    CongMul(i * a, 1, x, x, p);
    assert i * a * x == i * (a * x);
  }

  /** Euclid's lemma. */
  lemma PrimeDividesProduct(a: int, b: int, p: int)
    requires Prime(p) && (a * b) % p == 0 && a % p != 0
    ensures b % p == 0
  {
    assert a * 0 == 0;
    PrimeCancel(a, b, 0, p);
  }

  lemma DistinctPrimesDoNotDivide(p: int, q: int)
    requires Prime(p) && Prime(q) && p != q
    ensures q % p != 0
  {
    if p < q {
      assert !Divides(p, q);
    } else {
      ModUnique(q, p, 0, q);
    }
  }

  /** The uniqueness half of the Chinese remainder theorem for two primes. */
  lemma MultipleOfBoth(k: int, p: int, q: int)
    requires p > 0 && k % p == 0
    ensures k * q == k / p * (p * q)
  {
    assert k == k / p * p;
    Associate(k / p, p, q);
  }

  lemma CrtUnique(x: int, y: int, p: int, q: int)
    requires Prime(p) && Prime(q) && p != q
    requires Cong(x, y, p) && Cong(x, y, q)
    ensures p * q > 0
    ensures Cong(x, y, p * q)
  {
    assert p >= 2 && q >= 2;
    hide Prime, Cong;
    MulMonotone(1, p, q);
    var k := CongToDiff(x, y, q);
    var j := CongToDiff(x, y, p);
    assert q * k == 0 + j * p;
    CongFromDiff(q * k, 0, j, p);
    DistinctPrimesDoNotDivide(p, q);
    PrimeDividesProduct(q, k, p);
    MultipleOfBoth(k, p, q);
    CongFromDiff(x, y, k / p, p * q);
  }

  // ---- Fermat's little theorem ----

  /** The set {1, ..., k}. */
  ghost function Residues(k: nat): (s: set<int>)
    ensures forall i :: i in s <==> 1 <= i <= k
  {
    if k == 0 then {} else Residues(k - 1) + {k}
  }

  ghost function Pick<T(!new)>(s: set<T>): (x: T)
    requires s != {}
    ensures x in s
  {
    var x :| x in s;
    x
  }

  ghost function Product(s: set<int>): int {
    if s == {} then 1 else Pick(s) * Product(s - {Pick(s)})
  }

  lemma ProductPick(s: set<int>)
    requires s != {}
    ensures Product(s) == Pick(s) * Product(s - {Pick(s)})
  {
  }

  lemma {:induction false} ProductRemove(s: set<int>, y: int)
    requires y in s
    ensures Product(s) == y * Product(s - {y})
  {
    hide Product;
    var x := Pick(s);
    ProductPick(s);
    if x != y {
      ProductRemove(s - {x}, y);
      ProductRemove(s - {y}, x);
      assert s - {x} - {y} == s - {y} - {x};
      var r := Product(s - {x} - {y});
      assert x * (y * r) == y * (x * r);
    }
  }

  lemma {:induction false} ResiduesStep(k: nat)
    requires k > 0
    ensures Residues(k) == Residues(k - 1) + {k} && k !in Residues(k - 1)
    ensures Product(Residues(k)) == k * Product(Residues(k - 1))
  {
    ProductRemove(Residues(k), k);
    assert Residues(k) - {k} == Residues(k - 1);
  }

  lemma {:induction false} ResiduesSize(k: nat)
    ensures |Residues(k)| == k
  {
    if k == 0 {
      assert Residues(0) == {};
    } else {
      ResiduesSize(k - 1);
      ResiduesStep(k);
    }
  }

  lemma {:induction false} ResidueProductNonzero(k: nat, p: int)
    requires Prime(p) && k < p
    ensures Product(Residues(k)) % p != 0
  {
    if k == 0 {
      assert Residues(0) == {};
      ModUnique(1, p, 0, 1);
    } else {
      ResidueProductNonzero(k - 1, p);
      ResiduesStep(k);
      ModUnique(k, p, 0, k);
      if Product(Residues(k)) % p == 0 {
        PrimeDividesProduct(k, Product(Residues(k - 1)), p);
      }
    }
  }

  ghost function Scale(a: int, p: int, i: int): int
    requires p > 0
  {
    (a * i) % p
  }

  /** The residues 1, ..., k, each multiplied by `a`. */
  ghost function Scaled(a: int, p: int, k: nat): set<int>
    requires p > 0
  {
    if k == 0 then {} else Scaled(a, p, k - 1) + {Scale(a, p, k)}
  }

  lemma {:induction false} ScaledMembers(a: int, p: int, k: nat, y: int)
    requires p > 0 && y in Scaled(a, p, k)
    ensures exists i :: 1 <= i <= k && y == Scale(a, p, i)
  {
    hide Scale;
    if y != Scale(a, p, k) {
      ScaledMembers(a, p, k - 1, y);
    }
  }

  lemma ScaledNone(a: int, p: int)
    requires p > 0
    ensures Scaled(a, p, 0) == {} && Cong(Product(Scaled(a, p, 0)), Pow(a, 0) * Product(Residues(0)), p)
  {
    assert Residues(0) == {};
  }

  lemma {:induction false} ScaledFacts(a: int, p: int, k: nat)
    requires Prime(p) && a % p != 0 && k < p
    ensures |Scaled(a, p, k)| == k
    ensures Scaled(a, p, k) <= Residues(p - 1)
    ensures Cong(Product(Scaled(a, p, k)), Pow(a, k) * Product(Residues(k)), p)
  {
    hide Prime, Product, Pow, Cong, Residues, Scale;
    if k == 0 {
      ScaledNone(a, p);
    } else {
      ScaledFacts(a, p, k - 1);
      ScaleIsNew(a, p, k);
      ScaleIsResidue(a, p, k);
      ScaledStep(a, p, k);
    }
  }

  lemma ScaleIsResidue(a: int, p: int, k: nat)
    requires Prime(p) && a % p != 0 && 0 < k < p
    ensures Scale(a, p, k) in Residues(p - 1)
  {
    ModUnique(k, p, 0, k);
    if (a * k) % p == 0 {
      PrimeDividesProduct(a, k, p);
    }
  }

  lemma ScaledStep(a: int, p: int, k: nat)
    requires p > 0 && k > 0 && Scale(a, p, k) !in Scaled(a, p, k - 1)
    requires Cong(Product(Scaled(a, p, k - 1)), Pow(a, k - 1) * Product(Residues(k - 1)), p)
    ensures Cong(Product(Scaled(a, p, k)), Pow(a, k) * Product(Residues(k)), p)
  {
    hide Product, Cong, Residues;
    var s, y, f := Scaled(a, p, k - 1), Scale(a, p, k), Product(Residues(k - 1));
    ProductRemove(s + {y}, y);
    assert s + {y} - {y} == s;
    ResiduesStep(k);
    CongMod(a * k, p);
    CongMul(y, a * k, Product(s), Pow(a, k - 1) * f, p);
    MulShuffle(a, k, Pow(a, k - 1), f);
  }

  lemma ScaleInjective(a: int, p: int, i: int, k: int)
    requires Prime(p) && a % p != 0 && 0 < i < k < p
    ensures Scale(a, p, k) != Scale(a, p, i)
  {
    hide Prime;
    if Scale(a, p, k) == Scale(a, p, i) {
      PrimeCancel(a, k, i, p);
      CongSmall(k, i, p);
    }
  }

  lemma ScaleIsNew(a: int, p: int, k: nat)
    requires Prime(p) && a % p != 0 && 0 < k < p
    ensures Scale(a, p, k) !in Scaled(a, p, k - 1)
  {
    hide Prime, Scale, Scaled;
    if Scale(a, p, k) in Scaled(a, p, k - 1) {
      ScaledMembers(a, p, k - 1, Scale(a, p, k));
      var i :| 1 <= i <= k - 1 && Scale(a, p, k) == Scale(a, p, i);
      ScaleInjective(a, p, i, k);
    }
  }

  lemma SameSizeSubset(s: set<int>, t: set<int>)
    requires s <= t && |s| == |t|
    ensures s == t
  {
    assert t == s + (t - s);
  }

  /** Scaling by `a` permutes the residues, so their product is unchanged modulo p. */
  lemma ScaledProduct(a: int, p: int)
    requires Prime(p) && a % p != 0
    ensures Cong(Product(Residues(p - 1)), Pow(a, p - 1) * Product(Residues(p - 1)), p)
  {
    hide Product, Pow, Cong, Scaled;
    ScaledFacts(a, p, p - 1);
    ResiduesSize(p - 1);
    SameSizeSubset(Scaled(a, p, p - 1), Residues(p - 1));
  }

  /** Fermat's little theorem. */
  lemma Fermat(a: int, p: int)
    requires Prime(p) && a % p != 0
    ensures Cong(Pow(a, p - 1), 1, p)
  {
    hide Product, Residues, Pow;
    var f, x := Product(Residues(p - 1)), Pow(a, p - 1);
    ScaledProduct(a, p);
    ResidueProductNonzero(p - 1, p);
    assert f * 1 == f && f * x == x * f;
    PrimeCancel(f, 1, x, p);
  }

  lemma PowDivisible(a: int, e: nat, p: int)
    requires p > 0 && a % p == 0 && e > 0
    ensures Pow(a, e) % p == 0
  {
    CongMul(a, 0, Pow(a, e - 1), Pow(a, e - 1), p);
  }

  lemma PowQuotient(a: int, d: nat, n: nat)
    requires n > 0
    ensures d / n >= 0 && Pow(a, d) == Pow(Pow(a, n), d / n) * Pow(a, d % n)
  {
    hide Pow;
    PowMul(a, n, d / n);
    PowAdd(a, n * (d / n), d % n);
  }

  lemma PowReduced(a: int, d: nat, p: int)
    requires Prime(p) && a % p != 0
    ensures Cong(Pow(a, d), Pow(a, d % (p - 1)), p)
  {
    assert p >= 2;
    hide Pow, Prime, Cong;
    var k, r := d / (p - 1), d % (p - 1);
    PowQuotient(a, d, p - 1);
    Fermat(a, p);
    CongPow(Pow(a, p - 1), 1, k, p);
    PowOne(k);
    OneFactor(Pow(Pow(a, p - 1), k), Pow(a, r), p);
  }

  lemma OneFactor(x: int, y: int, p: int)
    requires p > 0 && Cong(x, 1, p)
    ensures Cong(x * y, y, p)
  {
    CongMul(x, 1, y, y, p);
  }

  /** Exponents that agree modulo p - 1 agree as powers modulo p, provided both are positive. */
  lemma PowExponentMod(a: int, d: nat, p: int)
    requires Prime(p) && d % (p - 1) > 0
    ensures Cong(Pow(a, d), Pow(a, d % (p - 1)), p)
  {
    hide Pow;
    if a % p == 0 {
      PowDivisible(a, d, p);
      PowDivisible(a, d % (p - 1), p);
    } else {
      PowReduced(a, d, p);
    }
  }

  /** Modulo one prime, exponents whose product is 1 modulo p - 1 undo each other. */
  lemma ExponentsUndo(a: int, e: nat, d: nat, p: int)
    requires Prime(p) && p > 2 && e * d >= 0 && Cong(e * d, 1, p - 1)
    ensures Cong(Pow(a, e * d), a, p)
  {
    ModUnique(1, p - 1, 0, 1);
    PowExponentMod(a, e * d, p);
    assert Pow(a, 1) == a * Pow(a, 0);
  }

  lemma CongDivisor(x: int, y: int, a: int, b: int)
    requires a > 0 && b > 0 && a * b > 0 && Cong(x, y, a * b)
    ensures Cong(x, y, a)
  {
    var k := CongToDiff(x, y, a * b);
    assert k * (a * b) == (k * b) * a;
    CongFromDiff(x, y, k * b, a);
  }

  /** RSA: with e*d = 1 modulo (p-1)(q-1), raising to e and then d is the identity modulo p*q. */
  lemma RsaExponents(x: int, e: nat, d: nat, p: int, q: int)
    requires Prime(p) && Prime(q) && p > 2 && q > 2 && p != q
    requires (p - 1) * (q - 1) > 0 && Cong(e * d, 1, (p - 1) * (q - 1))
    ensures e * d >= 0 && p * q > 0
    ensures Cong(Pow(Pow(x, e), d), x, p * q)
  {
    PowMul(x, e, d);
    CongDivisor(e * d, 1, p - 1, q - 1);
    assert (q - 1) * (p - 1) == (p - 1) * (q - 1);
    CongDivisor(e * d, 1, q - 1, p - 1);
    ExponentsUndo(x, e, d, p);
    ExponentsUndo(x, e, d, q);
    CrtUnique(Pow(x, e * d), x, p, q);
  }

  /** The reduced private exponent d mod (p-1) is never zero when p is odd. */
  lemma ReducedExponentPositive(e: nat, d: nat, p: int, q: int)
    requires p > 2 && q > 2 && (p - 1) * (q - 1) > 0 && Cong(e * d, 1, (p - 1) * (q - 1))
    ensures d % (p - 1) > 0
  {
    CongDivisor(e * d, 1, p - 1, q - 1);
    ModUnique(1, p - 1, 0, 1);
    if d % (p - 1) == 0 {
      CongMul(e, e, d, 0, p - 1);
    }
  }

  // ---- Greatest common divisors ----

  lemma CombinedMultiple(a: nat, b: nat, k: int, l: int, g: int)
    requires b > 0 && b == k * g && a % b == l * g
    ensures a == ((a / b) * k + l) * g
  {
    Associate(a / b, k, g);
    Distribute(a / b * k, l, g);
  }

  lemma {:induction false} GcdDivides(a: nat, b: nat)
    requires a > 0 || b > 0
    ensures Gcd(a, b) > 0
    ensures a % Gcd(a, b) == 0 && b % Gcd(a, b) == 0
    decreases b
  {
    if b == 0 {
      ModUnique(a, a, 1, 0);
    } else {
      GcdDivides(b, a % b);
      var g := Gcd(a, b);
      var k := CongToDiff(b, 0, g);
      var l := CongToDiff(a % b, 0, g);
      CombinedMultiple(a, b, k, l, g);
      CongFromDiff(a, 0, (a / b) * k + l, g);
    }
  }
}
