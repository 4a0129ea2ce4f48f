/** Polynomials over the field of two elements, and remainders modulo the polynomial of GCM. */
module BinaryPolynomials {
  /** The coefficient of x^i stands at index `i`. */
  type Poly = seq<bool>

  predicate Coefficient(p: Poly, i: int) {
    0 <= i < |p| && p[i]
  }

  /** Equal up to leading zeros. */
  ghost predicate Same(p: Poly, q: Poly) {
    forall i :: Coefficient(p, i) == Coefficient(q, i)
  }

  function Plus(p: Poly, q: Poly): (r: Poly)
    ensures |r| == if |p| < |q| then |q| else |p|
    ensures forall i :: Coefficient(r, i) == (Coefficient(p, i) != Coefficient(q, i))
  {
    seq(if |p| < |q| then |q| else |p|, i => Coefficient(p, i) != Coefficient(q, i))
  }

  /** Times x. */
  function Shift(p: Poly): (r: Poly)
    ensures forall i :: Coefficient(r, i) == Coefficient(p, i - 1)
  {
    [false] + p
  }

  /** The multiples of `q` by the powers of x in `p`, added up without carries. */
  function Times(p: Poly, q: Poly): Poly
    decreases |p|
  {
    if p == [] then [] else Plus(if p[0] then q else [], Times(p[1..], Shift(q)))
  }

  // ---- The ring laws that remainders need ----

  lemma {:induction false} TimesShift(p: Poly, q: Poly)
    ensures Same(Times(p, Shift(q)), Shift(Times(p, q)))
    decreases |p|
  {
    hide Shift, Plus;
    if p != [] {
      TimesShift(p[1..], Shift(q));
    }
  }

  lemma PlusParts(p: Poly, q: Poly)
    requires p != [] && q != []
    ensures var r := Plus(p, q); r != [] && r[0] == (p[0] != q[0]) && r[1..] == Plus(p[1..], q[1..])
  {
    var r, tail := Plus(p, q), Plus(p[1..], q[1..]);
    assert Coefficient(r, 0) == (Coefficient(p, 0) != Coefficient(q, 0));
    forall i | 0 <= i < |tail|
      ensures r[i + 1] == tail[i]
    {
      assert Coefficient(r, i + 1) == (Coefficient(p, i + 1) != Coefficient(q, i + 1));
      assert Coefficient(tail, i) == (Coefficient(p[1..], i) != Coefficient(q[1..], i));
    }
  }

  lemma PlusNone(p: Poly)
    ensures Plus(p, []) == p && Plus([], p) == p
  {
    forall i | 0 <= i < |p|
      ensures Plus(p, [])[i] == p[i] && Plus([], p)[i] == p[i]
    {
      assert Coefficient(Plus(p, []), i) == Coefficient(p, i) && Coefficient(Plus([], p), i) == Coefficient(p, i);
    }
  }

  lemma {:induction false} TimesPlus(p: Poly, q: Poly, m: Poly)
    ensures Same(Times(Plus(p, q), m), Plus(Times(p, m), Times(q, m)))
    decreases |p|
  {
    hide Plus, Shift;
    if p == [] || q == [] {
      PlusNone(p);
      PlusNone(q);
      PlusNone(Times(p, m));
      PlusNone(Times(q, m));
    } else {
      PlusParts(p, q);
      TimesPlus(p[1..], q[1..], Shift(m));
    }
  }

  // ---- Remainders ----

  /** The polynomial x^128 + x^7 + x^2 + x + 1 of section 6.3 of NIST SP 800-38D. */
  ghost function Modulus(): (m: Poly)
    ensures |m| == 129 && forall i :: Coefficient(m, i) <==> i in {0, 1, 2, 7, 128}
  {
    seq(129, i => i in {0, 1, 2, 7, 128})
  }

  /** Of degree below 128 and off by a multiple of the modulus. */
  ghost predicate Remainder(r: Poly, p: Poly) {
    |r| == 128 && exists k :: Quotient(k, r, p)
  }

  ghost predicate Quotient(k: Poly, r: Poly, p: Poly) {
    Same(p, Plus(Times(k, Modulus()), r))
  }

  lemma RemainderOf(k: Poly, r: Poly, p: Poly)
    requires |r| == 128 && Quotient(k, r, p)
    ensures Remainder(r, p)
  {
  }

  lemma RemainderItself(r: Poly, p: Poly)
    requires |r| == 128 && Same(r, p)
    ensures Remainder(r, p)
  {
    hide Plus, Modulus;
    RemainderOf([], r, p);
  }

  lemma RemainderPlus(r: Poly, p: Poly, s: Poly, q: Poly)
    requires Remainder(r, p) && Remainder(s, q)
    ensures Remainder(Plus(r, s), Plus(p, q))
  {
    hide Plus, Times, Modulus;
    var k :| Quotient(k, r, p);
    var l :| Quotient(l, s, q);
    TimesPlus(k, l, Modulus());
    RemainderOf(Plus(k, l), Plus(r, s), Plus(p, q));
  }

  /** What a shift leaves: the modulus is subtracted once if the highest coefficient is shifted out. */
  ghost predicate Shifted(r: Poly, s: Poly) {
    && |r| == |s| == 128
    && forall i :: Coefficient(s, i) == (Coefficient(r, i - 1) != (r[127] && Coefficient(Modulus(), i)))
  }

  lemma RemainderShift(r: Poly, p: Poly, s: Poly)
    requires Remainder(r, p) && Shifted(r, s)
    ensures Remainder(s, Shift(p))
  {
    hide Plus, Shift, Modulus;
    var k :| Quotient(k, r, p);
    var k' := [r[127]] + k;
    assert k'[1..] == k;
    TimesShift(k, Modulus());
    RemainderOf(k', s, Shift(p));
  }

  // ---- There is only one remainder ----

  ghost predicate Zero(p: Poly) {
    forall i :: !Coefficient(p, i)
  }

  /** The highest power of x is the one at `d`. */
  ghost predicate Degree(p: Poly, d: int) {
    Coefficient(p, d) && forall i :: i > d ==> !Coefficient(p, i)
  }

  lemma HasDegree(p: Poly) returns (d: int)
    ensures Zero(p) || Degree(p, d)
  {
    d := |p| - 1;
    while d >= 0 && !p[d]
      invariant -1 <= d < |p| && forall i :: i > d ==> !Coefficient(p, i)
    {
      d := d - 1;
    }
  }

  lemma {:induction false} TimesZero(p: Poly, q: Poly)
    requires Zero(p)
    ensures Zero(Times(p, q))
    decreases |p|
  {
    hide Plus, Shift;
    if p != [] {
      assert !Coefficient(p, 0);
      forall i
        ensures !Coefficient(p[1..], i)
      {
        assert !Coefficient(p, i + 1);
      }
      TimesZero(p[1..], Shift(q));
    }
  }

  lemma TailDegree(p: Poly, d: int)
    requires p != [] && Degree(p, d)
    ensures if d == 0 then p[0] && Zero(p[1..]) else Degree(p[1..], d - 1)
  {
    assert forall i :: Coefficient(p[1..], i) ==> Coefficient(p, i + 1);
    assert d > 0 ==> Coefficient(p[1..], d - 1);
  }

  lemma ShiftDegree(p: Poly, d: int)
    requires Degree(p, d)
    ensures Degree(Shift(p), d + 1)
  {
    hide Shift;
  }

  lemma {:induction false} TimesDegree(p: Poly, d: int, q: Poly, e: int)
    requires Degree(p, d) && Degree(q, e)
    ensures Coefficient(Times(p, q), d + e)
    decreases |p|
  {
    TailDegree(p, d);
    ShiftDegree(q, e);
    hide Plus, Shift, Degree;
    if d == 0 {
      TimesZero(p[1..], Shift(q));
      assert Coefficient(q, e);
    } else {
      assert !Coefficient(q, d + e);
      TimesDegree(p[1..], d - 1, Shift(q), e + 1);
    }
  }

  lemma RemainderUnique(r: Poly, s: Poly, p: Poly)
    requires Remainder(r, p) && Remainder(s, p)
    ensures r == s
  {
    hide Plus, Times, Modulus;
    var k :| Quotient(k, r, p);
    var l :| Quotient(l, s, p);
    TimesPlus(k, l, Modulus());
    var d := HasDegree(Plus(k, l));
    if Zero(Plus(k, l)) {
      TimesZero(Plus(k, l), Modulus());
      SameBelow(r, s);
    } else {
      assert Degree(Modulus(), 128);
      TimesDegree(Plus(k, l), d, Modulus(), 128);
    }
  }

  lemma SameBelow(r: Poly, s: Poly)
    requires |r| == |s| && Same(r, s)
    ensures r == s
  {
    forall i | 0 <= i < |r|
      ensures r[i] == s[i]
    {
      assert Coefficient(r, i) == Coefficient(s, i);
    }
  }
}
