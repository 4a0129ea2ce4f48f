/** Multiplication in the field of AES and the mixing of one column. */
module AesField {
  function Xor(x: bv8, y: bv8): bv8 {
    x ^ y
  }

  function Xor4(w: bv8, x: bv8, y: bv8, z: bv8): bv8 {
    Xor(Xor(w, x), Xor(y, z))
  }

  /** Times x modulo x^8 + x^4 + x^3 + x + 1. */
  function Two(a: bv8): bv8 {
    if a & 0x80 != 0 then (a << 1) ^ 0x1b else a << 1
  }

  /** Add `a` if the lowest bit of `b` is set. */
  function AddIf(a: bv8, b: bv8, rest: bv8): bv8 {
    if b & 1 != 0 then Xor(a, rest) else rest
  }

  /** The product of `a` and the polynomial of the lowest `n` bits of `b`. */
  function Times(a: bv8, b: bv8, n: nat): bv8
    decreases n
  {
    if n == 0 then 0 else AddIf(a, b, Times(Two(a), b >> 1, n - 1))
  }

  /** What is still to be added to `p` makes it `target`. */
  ghost predicate Completes(p: bv8, x: bv8, y: bv8, n: nat, target: bv8) {
    p ^ Times(x, y, n) == target
  }

  method Gmul(a: bv8, b: bv8) returns (p: bv8)
    ensures p == Times(a, b, 8)
  {
    hide Times, Two, Completes;
    p := 0;
    var x, y := a, b;
    GmulStart(a, b);
    for i := 0 to 8
      invariant Completes(p, x, y, 8 - i, Times(a, b, 8))
    {
      GmulStep(p, x, y, 8 - i, Times(a, b, 8));
      if y & 1 != 0 {
        p := p ^ x;
      }
      var high := x & 0x80 != 0;
      x := x << 1;
      if high {
        x := x ^ 0x1b;
      }
      y := y >> 1;
    }
    GmulEnd(p, x, y, Times(a, b, 8));
  }

  lemma GmulStart(a: bv8, b: bv8)
    ensures Completes(0, a, b, 8, Times(a, b, 8))
  {
    hide Times;
  }

  lemma GmulEnd(p: bv8, x: bv8, y: bv8, target: bv8)
    requires Completes(p, x, y, 0, target)
    ensures p == target
  {
  }

  lemma StepSame(p: bv8, x: bv8, y: bv8, n: nat)
    requires n > 0
    ensures var p' := if y & 1 != 0 then p ^ x else p;
            var x' := if x & 0x80 != 0 then (x << 1) ^ 0x1b else x << 1;
            p' ^ Times(x', y >> 1, n - 1) == p ^ Times(x, y, n)
  {
  }

  lemma GmulStep(p: bv8, x: bv8, y: bv8, n: nat, target: bv8)
    requires n > 0 && Completes(p, x, y, n, target)
    ensures Completes(if y & 1 != 0 then p ^ x else p, if x & 0x80 != 0 then (x << 1) ^ 0x1b else x << 1, y >> 1,
                      n - 1, target)
  {
    hide Times, Two;
    StepSame(p, x, y, n);
  }

  // ---- The product is linear in each factor ----

  lemma ShiftXor(a: bv8, b: bv8)
    ensures Xor(a, b) << 1 == Xor(a << 1, b << 1)
    ensures Xor(a, b) & 0x80 != 0 <==> (a & 0x80 != 0) != (b & 0x80 != 0)
  {
  }

  lemma ReduceXor(x: bv8, y: bv8)
    ensures Xor(x, y) ^ 0x1b == Xor(x ^ 0x1b, y) == Xor(x, y ^ 0x1b) && Xor(x ^ 0x1b, y ^ 0x1b) == Xor(x, y)
  {
  }

  lemma TwoXor(a: bv8, b: bv8)
    ensures Two(Xor(a, b)) == Xor(Two(a), Two(b))
  {
    hide Xor;
    ShiftXor(a, b);
    ReduceXor(a << 1, b << 1);
  }

  lemma XorShuffle(a: bv8, b: bv8, c: bv8, d: bv8)
    ensures Xor(Xor(a, b), Xor(c, d)) == Xor(Xor(a, c), Xor(b, d))
  {
    assert Xor(a ^ b, c ^ d) == Xor(a ^ c, b ^ d);
  }

  lemma XorCancel(a: bv8, b: bv8, c: bv8)
    ensures Xor(Xor(a, b), Xor(a, c)) == Xor(b, c)
  {
    assert Xor(a ^ b, a ^ c) == b ^ c;
  }

  lemma XorAssociates(a: bv8, b: bv8, c: bv8)
    ensures Xor(Xor(a, b), c) == Xor(a, Xor(b, c))
  {
    assert Xor(a ^ b, c) == Xor(a, b ^ c);
  }

  lemma XorSwaps(a: bv8, b: bv8, c: bv8)
    ensures Xor(a, Xor(b, c)) == Xor(b, Xor(a, c))
  {
    assert Xor(a, b ^ c) == Xor(b, a ^ c);
  }

  lemma {:induction false} TimesXorLeft(a: bv8, b: bv8, c: bv8, n: nat)
    ensures Times(Xor(a, b), c, n) == Xor(Times(a, c, n), Times(b, c, n))
    decreases n
  {
    if n == 0 {
      assert Xor(0, 0) == 0;
    } else {
      hide Two, Xor;
      var c' := c >> 1;
      TwoXor(a, b);
      TimesXorLeft(Two(a), Two(b), c', n - 1);
      XorShuffle(a, b, Times(Two(a), c', n - 1), Times(Two(b), c', n - 1));
    }
  }

  lemma XorBits(b: bv8, c: bv8)
    ensures Xor(b, c) & 1 != 0 <==> (b & 1 != 0) != (c & 1 != 0)
    ensures Xor(b, c) >> 1 == Xor(b >> 1, c >> 1)
  {
  }

  lemma {:induction false} TimesXorRight(a: bv8, b: bv8, c: bv8, n: nat)
    ensures Times(a, Xor(b, c), n) == Xor(Times(a, b, n), Times(a, c, n))
    decreases n
  {
    if n == 0 {
      assert Xor(0, 0) == 0;
    } else {
      hide Two, Xor;
      XorBits(b, c);
      TimesXorRight(Two(a), b >> 1, c >> 1, n - 1);
      var x, y := Times(Two(a), b >> 1, n - 1), Times(Two(a), c >> 1, n - 1);
      XorCancel(a, x, y);
      XorAssociates(a, x, y);
      XorSwaps(a, x, y);
    }
  }

  // ---- The factors that mixing uses ----

  lemma TimesZero(a: bv8, n: nat)
    ensures Times(a, 0, n) == 0
    decreases n
  {
    if n > 0 {
      TimesZero(Two(a), n - 1);
    }
  }

  lemma TimesOne(a: bv8, n: nat)
    requires n > 0
    ensures Times(a, 1, n) == a
  {
    TimesZero(Two(a), n - 1);
  }

  lemma Twice(a: bv8)
    ensures Times(a, 2, 8) == Two(a)
  {
    hide Two;
    TimesOne(Two(a), 7);
  }

  lemma Thrice(a: bv8)
    ensures Times(a, 3, 8) == Xor(a, Two(a))
  {
    hide Two, Xor;
    TimesOne(Two(a), 7);
  }

  /** Beyond the bits of the factor nothing is added. */
  lemma TimesNibble(a: bv8, b: bv8, n: nat)
    requires b < 16 && n >= 4
    ensures Times(a, b, n) == Times(a, b, 4)
  {
    hide Two, AddIf;
    var a2 := Two(a);
    var a4 := Two(a2);
    var a8 := Two(a4);
    assert (((b >> 1) >> 1) >> 1) >> 1 == 0;
    TimesZero(Two(a8), n - 4);
    assert Times(a8, ((b >> 1) >> 1) >> 1, n - 3) == Times(a8, ((b >> 1) >> 1) >> 1, 1);
    assert Times(a4, (b >> 1) >> 1, n - 2) == Times(a4, (b >> 1) >> 1, 2);
    assert Times(a2, b >> 1, n - 1) == Times(a2, b >> 1, 3);
  }

  lemma TimesTwice(a: bv8, b: bv8)
    requires b < 16
    ensures Times(Times(a, 2, 8), b, 8) == Times(a, b << 1, 8)
  {
    Twice(a);
    assert Times(a, b << 1, 8) == Times(Two(a), b, 7) by {
      hide Two;
      assert (b << 1) & 1 == 0 && (b << 1) >> 1 == b;
    }
    TimesNibble(Two(a), b, 7);
    TimesNibble(Two(a), b, 8);
  }

  lemma TimesThrice(a: bv8, b: bv8)
    requires b < 16
    ensures Times(Times(a, 3, 8), b, 8) == Times(a, Xor(b, b << 1), 8)
  {
    hide Two, Times, Xor;
    Twice(a);
    Thrice(a);
    TimesXorLeft(a, Two(a), b, 8);
    TimesTwice(a, b);
    TimesXorRight(a, b, b << 1, 8);
  }

  // ---- One column ----

  /** Twice `a`, three times `b`, `c` and `d`. */
  function Mix(a: bv8, b: bv8, c: bv8, d: bv8): bv8 {
    Xor4(Times(a, 2, 8), Times(b, 3, 8), c, d)
  }

  /** Fourteen times `a`, eleven times `b`, thirteen times `c` and nine times `d`. */
  function Unmix(a: bv8, b: bv8, c: bv8, d: bv8): bv8 {
    Xor4(Times(a, 14, 8), Times(b, 11, 8), Times(c, 13, 8), Times(d, 9, 8))
  }

  lemma TimesXor4(w: bv8, x: bv8, y: bv8, z: bv8, c: bv8)
    ensures Times(Xor4(w, x, y, z), c, 8) == Xor4(Times(w, c, 8), Times(x, c, 8), Times(y, c, 8), Times(z, c, 8))
  {
    hide Times, Xor;
    TimesXorLeft(Xor(w, x), Xor(y, z), c, 8);
    TimesXorLeft(w, x, c, 8);
    TimesXorLeft(y, z, c, 8);
  }

  lemma Rotate(w: bv8, x: bv8, y: bv8, z: bv8)
    ensures Xor4(w, x, y, z) == Xor4(x, y, z, w)
  {
    assert Xor(w ^ x, y ^ z) == Xor(x ^ y, z ^ w);
  }

  lemma AddRows(a: bv8, b: bv8, c: bv8, d: bv8, a': bv8, b': bv8, c': bv8, d': bv8)
    ensures Xor(Xor4(a, b, c, d), Xor4(a', b', c', d')) == Xor4(Xor(a, a'), Xor(b, b'), Xor(c, c'), Xor(d, d'))
  {
    hide Xor;
    XorShuffle(Xor(a, b), Xor(c, d), Xor(a', b'), Xor(c', d'));
    XorShuffle(a, b, a', b');
    XorShuffle(c, d, c', d');
  }

  /** A table of sixteen may be added up by rows or by columns. */
  lemma RowsColumns(a: bv8, b: bv8, c: bv8, d: bv8, a1: bv8, b1: bv8, c1: bv8, d1: bv8,
                    a2: bv8, b2: bv8, c2: bv8, d2: bv8, a3: bv8, b3: bv8, c3: bv8, d3: bv8)
    ensures Xor4(Xor4(a, b, c, d), Xor4(a1, b1, c1, d1), Xor4(a2, b2, c2, d2), Xor4(a3, b3, c3, d3))
         == Xor4(Xor4(a, a1, a2, a3), Xor4(b, b1, b2, b3), Xor4(c, c1, c2, c3), Xor4(d, d1, d2, d3))
  {
    hide Xor;
    AddRows(a, b, c, d, a1, b1, c1, d1);
    AddRows(a2, b2, c2, d2, a3, b3, c3, d3);
    AddRows(Xor(a, a1), Xor(b, b1), Xor(c, c1), Xor(d, d1), Xor(a2, a3), Xor(b2, b3), Xor(c2, c3), Xor(d2, d3));
  }

  /** What four multiples of a byte add up to. */
  lemma Coefficients(x: bv8, p: bv8, q: bv8, r: bv8, s: bv8)
    ensures Xor4(Times(x, p, 8), Times(x, q, 8), Times(x, r, 8), Times(x, s, 8)) == Times(x, Xor4(p, q, r, s), 8)
  {
    hide Times, Xor;
    TimesXorRight(x, Xor(p, q), Xor(r, s), 8);
    TimesXorRight(x, p, q, 8);
    TimesXorRight(x, r, s, 8);
  }

  /** After mixing and unmixing, the coefficient of the first byte of a column is one and the others vanish. */
  lemma CoefficientA(a: bv8)
    ensures Xor4(Times(Times(a, 2, 8), 14, 8), Times(a, 11, 8), Times(a, 13, 8), Times(Times(a, 3, 8), 9, 8)) == a
  {
    hide Times;
    TimesTwice(a, 14);
    TimesThrice(a, 9);
    Coefficients(a, 28, 11, 13, 27);
    TimesOne(a, 8);
  }

  lemma CoefficientB(b: bv8)
    ensures Xor4(Times(Times(b, 3, 8), 14, 8), Times(Times(b, 2, 8), 11, 8), Times(b, 13, 8), Times(b, 9, 8)) == 0
  {
    hide Times;
    TimesThrice(b, 14);
    TimesTwice(b, 11);
    Coefficients(b, 18, 22, 13, 9);
    TimesZero(b, 8);
  }

  lemma CoefficientC(c: bv8)
    ensures Xor4(Times(c, 14, 8), Times(Times(c, 3, 8), 11, 8), Times(Times(c, 2, 8), 13, 8), Times(c, 9, 8)) == 0
  {
    hide Times;
    TimesThrice(c, 11);
    TimesTwice(c, 13);
    Coefficients(c, 14, 29, 26, 9);
    TimesZero(c, 8);
  }

  lemma CoefficientD(d: bv8)
    ensures Xor4(Times(d, 14, 8), Times(d, 11, 8), Times(Times(d, 3, 8), 13, 8), Times(Times(d, 2, 8), 9, 8)) == 0
  {
    hide Times;
    TimesThrice(d, 13);
    TimesTwice(d, 9);
    Coefficients(d, 14, 11, 23, 18);
    TimesZero(d, 8);
  }

  lemma XorZeros(a: bv8)
    ensures Xor4(a, 0, 0, 0) == a
  {
  }

  /** Unmixing takes the first byte of a mixed column back. */
  lemma Unmixes(a: bv8, b: bv8, c: bv8, d: bv8)
    ensures Unmix(Mix(a, b, c, d), Mix(b, c, d, a), Mix(c, d, a, b), Mix(d, a, b, c)) == a
  {
    hide Times, Xor, Xor4;
    var a2, b2, c2, d2 := Times(a, 2, 8), Times(b, 2, 8), Times(c, 2, 8), Times(d, 2, 8);
    var a3, b3, c3, d3 := Times(a, 3, 8), Times(b, 3, 8), Times(c, 3, 8), Times(d, 3, 8);
    Rotate(a, b2, c3, d);
    Rotate(a, b, c2, d3);
    Rotate(b, c2, d3, a);
    Rotate(a3, b, c, d2);
    Rotate(b, c, d2, a3);
    Rotate(c, d2, a3, b);
    TimesXor4(a2, b3, c, d, 14);
    TimesXor4(a, b2, c3, d, 11);
    TimesXor4(a, b, c2, d3, 13);
    TimesXor4(a3, b, c, d2, 9);
    RowsColumns(Times(a2, 14, 8), Times(b3, 14, 8), Times(c, 14, 8), Times(d, 14, 8),
                Times(a, 11, 8), Times(b2, 11, 8), Times(c3, 11, 8), Times(d, 11, 8),
                Times(a, 13, 8), Times(b, 13, 8), Times(c2, 13, 8), Times(d3, 13, 8),
                Times(a3, 9, 8), Times(b, 9, 8), Times(c, 9, 8), Times(d2, 9, 8));
    CoefficientA(a);
    CoefficientB(b);
    CoefficientC(c);
    CoefficientD(d);
    XorZeros(a);
  }
}
