/** The multiplication of GCM as polynomial multiplication modulo x^128 + x^7 + x^2 + x + 1. */
module Gf128Field {
  import AesField
  import opened Aes
  import opened Gf128
  import opened BinaryPolynomials

  /** The polynomial of a word: the most significant bit is the coefficient of x^0. */
  ghost function PolyOf(w: bv128): (p: Poly)
    ensures |p| == 128
  {
    Bits(BlockOf(w))
  }

  lemma {:induction false} BitsIndex(s: seq<bv8>, i: nat, k: nat)
    requires i < |s| && k < 8
    ensures Bits(s)[8 * i + k] == BitAt(s[i], 7 - k)
  {
    hide BitAt;
    if i == 0 {
      assert ByteBits(s[0])[7 - (7 - k)] == BitAt(s[0], 7 - k);
    } else {
      BitsIndex(s[1..], i - 1, k);
    }
  }

  // ---- Halving a word shifts its polynomial ----

  /** A byte shifted right, with the bit that falls out of the byte before it. */
  function HalfByte(before: bv8, b: bv8): bv8 {
    (b >> 1) | ((before & 1) << 7)
  }

  lemma HalfByteBits(before: bv8, b: bv8, k: nat)
    requires k < 8
    ensures BitAt(HalfByte(before, b), k) == if k == 7 then BitAt(before, 0) else BitAt(b, k + 1)
  {
    match k {
      case 0 => assert BitAt(HalfByte(before, b), 0) == BitAt(b, 1);
      case 1 => assert BitAt(HalfByte(before, b), 1) == BitAt(b, 2);
      case 2 => assert BitAt(HalfByte(before, b), 2) == BitAt(b, 3);
      case 3 => assert BitAt(HalfByte(before, b), 3) == BitAt(b, 4);
      case 4 => assert BitAt(HalfByte(before, b), 4) == BitAt(b, 5);
      case 5 => assert BitAt(HalfByte(before, b), 5) == BitAt(b, 6);
      case 6 => assert BitAt(HalfByte(before, b), 6) == BitAt(b, 7);
      case 7 => assert BitAt(HalfByte(before, b), 7) == BitAt(before, 0);
    }
  }

  function HalfBytes(before: bv8, s: seq<bv8>): (r: seq<bv8>)
    ensures |r| == |s|
    ensures forall i {:trigger r[i]} :: 0 <= i < |s| ==> r[i] == HalfByte(if i == 0 then before else s[i - 1], s[i])
  {
    seq(|s|, i requires 0 <= i < |s| => HalfByte(if i == 0 then before else s[i - 1], s[i]))
  }

  lemma HalfHighBytes(high: bv64)
    ensures ToBytes(HalfHigh(high)) == HalfBytes(0, ToBytes(high))
  {
    hide ToBytes, HalfHigh, HalfByte, HalfBytes;
    HighHalves(high);
    EightHalves(0, ToBytes(high));
  }

  lemma HighHalves(high: bv64)
    ensures var s := ToBytes(high);
            ToBytes(HalfHigh(high)) ==
              [HalfByte(0, s[0]), HalfByte(s[0], s[1]), HalfByte(s[1], s[2]), HalfByte(s[2], s[3]),
               HalfByte(s[3], s[4]), HalfByte(s[4], s[5]), HalfByte(s[5], s[6]), HalfByte(s[6], s[7])]
  {
  }

  lemma HalfLowBytes(high: bv64, low: bv64)
    ensures ToBytes(HalfLow(high, low)) == HalfBytes(ToBytes(high)[7], ToBytes(low))
  {
    hide ToBytes, HalfLow, HalfByte, HalfBytes;
    LowHalves(high, low);
    EightHalves(ToBytes(high)[7], ToBytes(low));
  }

  lemma LowHalves(high: bv64, low: bv64)
    ensures var s := ToBytes(low);
            ToBytes(HalfLow(high, low)) ==
              [HalfByte(ToBytes(high)[7], s[0]), HalfByte(s[0], s[1]), HalfByte(s[1], s[2]), HalfByte(s[2], s[3]),
               HalfByte(s[3], s[4]), HalfByte(s[4], s[5]), HalfByte(s[5], s[6]), HalfByte(s[6], s[7])]
  {
  }

  lemma EightHalves(before: bv8, s: seq<bv8>)
    requires |s| == 8
    ensures HalfBytes(before, s) ==
              [HalfByte(before, s[0]), HalfByte(s[0], s[1]), HalfByte(s[1], s[2]), HalfByte(s[2], s[3]),
               HalfByte(s[3], s[4]), HalfByte(s[4], s[5]), HalfByte(s[5], s[6]), HalfByte(s[6], s[7])]
  {
    hide HalfByte;
  }

  lemma HalfBlock(w: bv128)
    ensures BlockOf(Half(w)) == HalfBytes(0, BlockOf(w))
  {
    hide ToBytes, High, Low, Half, HalfHigh, HalfLow, HalfByte, Join, HalfBytes;
    var high, low := High(w), Low(w);
    Rejoined(w);
    JoinHalf(high, low);
    Halves(HalfHigh(high), HalfLow(high, low));
    HalfHighBytes(high);
    HalfLowBytes(high, low);
    HalvesJoined(ToBytes(high), ToBytes(low));
  }

  lemma HalvesJoined(s: seq<bv8>, t: seq<bv8>)
    requires s != []
    ensures HalfBytes(0, s + t) == HalfBytes(0, s) + HalfBytes(s[|s| - 1], t)
  {
    hide HalfByte;
  }

  lemma HalfShifts(w: bv128, i: nat)
    requires i < 128
    ensures PolyOf(Half(w))[i] == (i > 0 && PolyOf(w)[i - 1])
  {
    hide BlockOf, Half, HalfByte, HalfBytes, BitAt;
    var j, k := i / 8, i % 8;
    BitsIndex(BlockOf(Half(w)), j, k);
    HalfBlock(w);
    HalfByteBits(if j == 0 then 0 else BlockOf(w)[j - 1], BlockOf(w)[j], 7 - k);
    if k > 0 {
      BitsIndex(BlockOf(w), j, k - 1);
    } else if j > 0 {
      BitsIndex(BlockOf(w), j - 1, 7);
    } else {
      NoBits(0);
    }
  }

  lemma NoBits(k: nat)
    requires k < 8
    ensures !BitAt(0, k)
  {
  }

  // ---- Doubling in the field ----

  /** The word of x^7 + x^2 + x + 1. */
  const REDUCTION: bv128 := 0xe1000000_00000000_00000000_00000000

  lemma ReductionBits(i: nat)
    requires i < 128
    ensures PolyOf(REDUCTION)[i] == Coefficient(Modulus(), i)
  {
    hide BitAt, BlockOf, Bits, Modulus;
    var j, k := i / 8, i % 8;
    BitsIndex(BlockOf(REDUCTION), j, k);
    ReductionBlock();
    if j == 0 {
      ReductionByte(7 - k);
    } else {
      NoBits(7 - k);
    }
  }

  lemma ReductionBlock()
    ensures BlockOf(REDUCTION) == [0xe1, 0, 0, 0, 0, 0, 0, 0, 0, 0, 0, 0, 0, 0, 0, 0]
  {
  }

  lemma ReductionByte(k: nat)
    requires k < 8
    ensures BitAt(0xe1, k) == (k in {7, 6, 5, 0})
  {
  }

  lemma LastBit(w: bv128)
    ensures PolyOf(w)[127] == Odd(w)
  {
    BitsIndex(BlockOf(w), 15, 7);
    LastByte(w);
  }

  lemma LastByte(w: bv128)
    ensures BitAt(BlockOf(w)[15], 0) == Odd(w)
  {
  }

  lemma PolyXor(v: bv128, w: bv128)
    ensures PolyOf(Xor128(v, w)) == Plus(PolyOf(v), PolyOf(w))
  {
    hide BlockOf, WordOf, Bits, Xor128, AddKey, AesField.Xor, Plus;
    BlockAndWord(BlockOf(v), v);
    BlockAndWord(BlockOf(w), w);
    WordXor(BlockOf(v), BlockOf(w));
    BlockAndWord(AddKey(BlockOf(v), BlockOf(w)), 0);
    AddedBits(BlockOf(v), BlockOf(w));
  }

  lemma AddedBits(x: Block, y: Block)
    ensures Bits(AddKey(x, y)) == Plus(Bits(x), Bits(y))
  {
    hide AesField.Xor, Bits, XorBools, Plus;
    BitsXor(x, y, AddKey(x, y));
    var p, q := Bits(x), Bits(y);
    forall i | 0 <= i < 128
      ensures XorBools(p, q)[i] == Plus(p, q)[i]
    {
      assert Coefficient(Plus(p, q), i) == (Coefficient(p, i) != Coefficient(q, i));
    }
  }

  /** The next word is x times the word, reduced. */
  lemma NextShifts(v: bv128)
    ensures Shifted(PolyOf(v), PolyOf(Next(v)))
  {
    hide PolyOf, Next, Odd, Half, Reduced, Plus, Modulus, Xor128;
    NextByBranch(v);
    LastBit(v);
    ReducedIsXor(Half(v));
    PolyXor(Half(v), REDUCTION);
    forall i
      ensures Coefficient(PolyOf(Next(v)), i) ==
                (Coefficient(PolyOf(v), i - 1) != (PolyOf(v)[127] && Coefficient(Modulus(), i)))
    {
      if 0 <= i < 128 {
        HalfShifts(v, i);
        ReductionBits(i);
      }
    }
  }

  lemma ReducedIsXor(w: bv128)
    ensures Reduced(w) == Xor128(w, REDUCTION)
  {
  }

  // ---- The product ----

  lemma {:induction false} ProductRemainder(bits: seq<bool>, v: bv128, q: Poly)
    requires Remainder(PolyOf(v), q)
    ensures Remainder(PolyOf(Product(bits, v)), Times(bits, q))
    decreases |bits|
  {
    hide PolyOf, Next, Xor128, Plus, Shift, Remainder;
    if bits == [] {
      ZeroPoly();
    } else {
      NextShifts(v);
      RemainderShift(PolyOf(v), q, PolyOf(Next(v)));
      ProductRemainder(bits[1..], Next(v), Shift(q));
      if bits[0] {
        PolyXor(v, Product(bits[1..], Next(v)));
        RemainderPlus(PolyOf(v), q, PolyOf(Product(bits[1..], Next(v))), Times(bits[1..], Shift(q)));
      } else {
        PlusNone(Times(bits[1..], Shift(q)));
      }
    }
  }

  lemma ZeroPoly()
    ensures Remainder(PolyOf(0), [])
  {
    hide BitAt, BlockOf, Bits;
    ZeroBlock();
    forall i
      ensures !Coefficient(PolyOf(0), i)
    {
      if 0 <= i < 128 {
        BitsIndex(BlockOf(0), i / 8, i % 8);
        NoBits(7 - i % 8);
      }
    }
    RemainderItself(PolyOf(0), []);
  }

  lemma ZeroBlock()
    ensures forall i :: 0 <= i < 16 ==> BlockOf(0)[i] == 0
  {
  }

  /** The product of two blocks is the remainder of the carry-less product of their bits, and the only one. */
  lemma MulIsRemainder(x: Block, h: Block, r: Poly)
    ensures Remainder(r, Times(Bits(x), Bits(h))) <==> r == Bits(Mul(x, h))
  {
    hide Product, WordOf, BlockOf, Bits, Times, Remainder, Mul;
    BlockAndWord(h, 0);
    assert PolyOf(WordOf(h)) == Bits(h);
    RemainderItself(Bits(h), Bits(h));
    ProductRemainder(Bits(x), WordOf(h), Bits(h));
    MulBits(x, h);
    if Remainder(r, Times(Bits(x), Bits(h))) {
      RemainderUnique(r, Bits(Mul(x, h)), Times(Bits(x), Bits(h)));
    }
  }

  lemma MulBits(x: Block, h: Block)
    ensures Bits(Mul(x, h)) == PolyOf(Product(Bits(x), WordOf(h)))
  {
  }
}
