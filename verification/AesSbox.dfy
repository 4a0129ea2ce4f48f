/** The substitution table of AES against its definition in the field. */
module AesSbox {
  import opened AesField
  import opened AesTables

  /** The affine map of section 5.1.1 of FIPS 197. */
  function Affine(y: bv8): bv8 {
    y ^ ((y << 1) | (y >> 7)) ^ ((y << 2) | (y >> 6)) ^ ((y << 3) | (y >> 5)) ^ ((y << 4) | (y >> 4)) ^ 0x63
  }

  function UnAffine(s: bv8): bv8 {
    ((s << 1) | (s >> 7)) ^ ((s << 3) | (s >> 5)) ^ ((s << 6) | (s >> 2)) ^ 0x05
  }

  lemma AffineBack(s: bv8)
    ensures Affine(UnAffine(s)) == s
  {
  }

  /** The product with its recursion unrolled. */
  function Product(a: bv8, b: bv8): bv8 {
    var a1 := Two(a);
    var a2 := Two(a1);
    var a3 := Two(a2);
    var a4 := Two(a3);
    var a5 := Two(a4);
    var a6 := Two(a5);
    var a7 := Two(a6);
    AddIf(a, b, AddIf(a1, b >> 1, AddIf(a2, b >> 2, AddIf(a3, b >> 3,
      AddIf(a4, b >> 4, AddIf(a5, b >> 5, AddIf(a6, b >> 6, AddIf(a7, b >> 7, 0))))))))
  }

  lemma ProductIsTimes(a: bv8, b: bv8)
    ensures Times(a, b, 8) == Product(a, b)
  {
    hide AddIf, Two;
    var a1 := Two(a);
    var a2 := Two(a1);
    var a3 := Two(a2);
    var a4 := Two(a3);
    var a5 := Two(a4);
    var a6 := Two(a5);
    var a7 := Two(a6);
    Shifts(b);
    assert Times(a7, b >> 7, 1) == AddIf(a7, b >> 7, 0);
    assert Times(a6, b >> 6, 2) == AddIf(a6, b >> 6, Times(a7, b >> 7, 1));
    assert Times(a5, b >> 5, 3) == AddIf(a5, b >> 5, Times(a6, b >> 6, 2));
    assert Times(a4, b >> 4, 4) == AddIf(a4, b >> 4, Times(a5, b >> 5, 3));
    assert Times(a3, b >> 3, 5) == AddIf(a3, b >> 3, Times(a4, b >> 4, 4));
    assert Times(a2, b >> 2, 6) == AddIf(a2, b >> 2, Times(a3, b >> 3, 5));
    assert Times(a1, b >> 1, 7) == AddIf(a1, b >> 1, Times(a2, b >> 2, 6));
  }

  lemma Shifts(b: bv8)
    ensures (b >> 1) >> 1 == b >> 2 && (b >> 2) >> 1 == b >> 3 && (b >> 3) >> 1 == b >> 4
    ensures (b >> 4) >> 1 == b >> 5 && (b >> 5) >> 1 == b >> 6 && (b >> 6) >> 1 == b >> 7
  {
  }

  // ---- The table is the standard's ----

  lemma SboxInverts0(x: bv8)
    requires x < 0x40
    ensures x == 0 ==> UnAffine(Sbox(x)) == 0
    ensures x != 0 ==> Product(x, UnAffine(Sbox(x))) == 1
  {
  }

  lemma SboxInverts1(x: bv8)
    requires 0x40 <= x < 0x80
    ensures x == 0 ==> UnAffine(Sbox(x)) == 0
    ensures x != 0 ==> Product(x, UnAffine(Sbox(x))) == 1
  {
  }

  lemma SboxInverts2(x: bv8)
    requires 0x80 <= x < 0xc0
    ensures x == 0 ==> UnAffine(Sbox(x)) == 0
    ensures x != 0 ==> Product(x, UnAffine(Sbox(x))) == 1
  {
  }

  lemma SboxInverts3(x: bv8)
    requires 0xc0 <= x
    ensures x == 0 ==> UnAffine(Sbox(x)) == 0
    ensures x != 0 ==> Product(x, UnAffine(Sbox(x))) == 1
  {
  }

  lemma SboxInverts(x: bv8)
    ensures x == 0 ==> UnAffine(Sbox(x)) == 0
    ensures x != 0 ==> Product(x, UnAffine(Sbox(x))) == 1
  {
    hide Sbox, UnAffine, Product;
    if x < 0x40 {
      SboxInverts0(x);
    } else if x < 0x80 {
      SboxInverts1(x);
    } else if x < 0xc0 {
      SboxInverts2(x);
    } else {
      SboxInverts3(x);
    }
  }

  /** Each entry is the affine image of the inverse in the field, where zero counts as its own inverse. */
  lemma SboxDefinition(x: bv8) returns (y: bv8)
    ensures if x == 0 then y == 0 else Times(x, y, 8) == 1
    ensures Sbox(x) == Affine(y)
  {
    hide Sbox, Affine, UnAffine, Product, Times;
    y := UnAffine(Sbox(x));
    SboxInverts(x);
    ProductIsTimes(x, y);
    AffineBack(Sbox(x));
  }
}
