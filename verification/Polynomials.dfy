/** Lagrange's bound on the roots of a polynomial modulo a prime, and which exponents are one for every residue. */
module Polynomials {
  import opened Arith
  import opened NumberTheory

  /** The polynomial with these coefficients, the constant one first, at `x`. */
  ghost function Eval(poly: seq<int>, x: int): int {
    if poly == [] then 0 else poly[0] + x * Eval(poly[1..], x)
  }

  /** The quotient by x - r. */
  ghost function Quotient(poly: seq<int>, r: int): (q: seq<int>)
    requires poly != []
    ensures |q| == |poly| - 1
    ensures |q| > 0 ==> q[|q| - 1] == poly[|poly| - 1]
  {
    if |poly| == 1 then [] else
      var rest := poly[1..];
      assert |rest| == 1 ==> Eval(rest, r) == rest[0] + r * Eval([], r);
      [Eval(rest, r)] + Quotient(rest, r)
  }

  lemma {:induction false} Factor(poly: seq<int>, r: int, x: int)
    requires poly != []
    ensures Eval(poly, x) == Eval(poly, r) + (x - r) * Eval(Quotient(poly, r), x)
  {
    if |poly| > 1 {
      var rest := poly[1..];
      Factor(rest, r, x);
      var q := Quotient(rest, r);
      assert Quotient(poly, r) == [Eval(rest, r)] + q;
      assert Quotient(poly, r)[1..] == q;
      FactorStep(poly[0], Eval(rest, x), Eval(rest, r), Eval(q, x), x, r);
    } else {
      assert poly[1..] == [];
    }
  }

  lemma FactorStep(c: int, restX: int, restR: int, q: int, x: int, r: int)
    requires restX == restR + (x - r) * q
    ensures c + x * restX == c + r * restR + (x - r) * (restR + x * q)
  {
    Distribute(x, r, restR);
    Distribute(restR, x * q, x - r);
    Distribute(restR, (x - r) * q, x);
    assert x * ((x - r) * q) == (x - r) * (x * q);
  }

  ghost predicate Roots(poly: seq<int>, p: int, roots: set<int>)
    requires p > 0
  {
    forall x :: x in roots ==> 0 <= x < p && Eval(poly, x) % p == 0
  }

  /** A polynomial whose leading coefficient the prime does not divide has at most as many roots as its degree. */
  lemma {:induction false} Lagrange(poly: seq<int>, p: int, roots: set<int>)
    requires Prime(p) && poly != [] && poly[|poly| - 1] % p != 0 && Roots(poly, p, roots)
    ensures |roots| < |poly|
    decreases |poly|
  {
    hide Prime;
    if roots != {} {
      var r := Pick(roots);
      if |poly| == 1 {
        ConstantRoot(poly, r);
      } else {
        QuotientRoots(poly, p, roots, r);
        Lagrange(Quotient(poly, r), p, roots - {r});
      }
    }
  }

  lemma ConstantRoot(poly: seq<int>, x: int)
    requires |poly| == 1
    ensures Eval(poly, x) == poly[0]
  {
    assert poly[1..] == [];
  }

  lemma QuotientRoots(poly: seq<int>, p: int, roots: set<int>, r: int)
    requires Prime(p) && poly != [] && Roots(poly, p, roots) && r in roots
    ensures Roots(Quotient(poly, r), p, roots - {r})
  {
    hide Prime, Eval, Quotient;
    forall x | x in roots - {r}
      ensures Eval(Quotient(poly, r), x) % p == 0
    {
      Factor(poly, r, x);
      OtherRoot(x, r, Eval(poly, x), Eval(poly, r), Eval(Quotient(poly, r), x), p);
    }
  }

  lemma OtherRoot(x: int, r: int, atX: int, atR: int, q: int, p: int)
    requires Prime(p) && 0 <= x < p && 0 <= r < p && x != r
    requires atX % p == 0 && atR % p == 0 && atX == atR + (x - r) * q
    ensures q % p == 0
  {
    hide Prime;
    ModUnique(0, p, 0, 0);
    CongAdd(atX, 0, atR, 0, p);
    if (x - r) % p == 0 {
      CongAdd(x - r, 0, r, r, p);
      CongSmall(x, r, p);
    }
    PrimeDividesProduct(x - r, q, p);
  }

  // ---- Exponents that send every residue to one ----

  /** The polynomial x^k - 1. */
  ghost function PowerMinusOne(k: nat): (poly: seq<int>)
    requires k > 0
    ensures |poly| == k + 1 && poly[k] == 1
  {
    [-1] + Monomial(k - 1)
  }

  /** The polynomial x^k. */
  ghost function Monomial(k: nat): (poly: seq<int>)
    ensures |poly| == k + 1 && poly[k] == 1
  {
    if k == 0 then [1] else [0] + Monomial(k - 1)
  }

  lemma {:induction false} MonomialEval(k: nat, x: int)
    ensures Eval(Monomial(k), x) == Pow(x, k)
  {
    if k == 0 {
      ConstantRoot([1], x);
    } else {
      MonomialEval(k - 1, x);
      assert Monomial(k)[1..] == Monomial(k - 1);
    }
  }

  lemma PowerMinusOneEval(k: nat, x: int)
    requires k > 0
    ensures Eval(PowerMinusOne(k), x) == Pow(x, k) - 1
  {
    MonomialEval(k - 1, x);
    assert PowerMinusOne(k)[1..] == Monomial(k - 1);
  }

  /** The exponent sends every residue but zero to one. */
  ghost predicate Universal(k: nat, p: int)
    requires p > 0
  {
    forall a :: 0 < a < p ==> Cong(Pow(a, k), 1, p)
  }

  lemma UniversalLarge(k: nat, p: int)
    requires Prime(p) && k > 0 && Universal(k, p)
    ensures k >= p - 1
  {
    hide Pow;
    var poly, roots := PowerMinusOne(k), Residues(p - 1);
    forall x | x in roots
      ensures Eval(poly, x) % p == 0
    {
      hide Prime, PowerMinusOne;
      PowerMinusOneEval(k, x);
      CongAdd(Pow(x, k), 1, 1, 1, p);
      ModUnique(0, p, 0, 0);
    }
    ModUnique(1, p, 0, 1);
    Lagrange(poly, p, roots);
    ResiduesSize(p - 1);
  }

  /** Those exponents are the multiples of p - 1. */
  lemma UniversalExactly(k: nat, p: int)
    requires Prime(p)
    ensures Universal(k, p) <==> k % (p - 1) == 0
  {
    hide Pow, Cong;
    var r := k % (p - 1);
    forall a | 0 < a < p
      ensures Cong(Pow(a, k), 1, p) <==> Cong(Pow(a, r), 1, p)
    {
      ModUnique(a, p, 0, a);
      PowReduced(a, k, p);
      CongSame(Pow(a, k), Pow(a, r), 1, p);
    }
    if r == 0 {
      UniversalZero(p);
    } else if Universal(k, p) {
      UniversalLarge(r, p);
    }
  }

  lemma UniversalZero(p: int)
    requires p > 0
    ensures Universal(0, p)
  {
  }

  lemma CongSame(x: int, y: int, z: int, m: int)
    requires m > 0 && Cong(x, y, m)
    ensures Cong(x, z, m) <==> Cong(y, z, m)
  {
  }
}
