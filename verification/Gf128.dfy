/** Multiplication in the field of GCM, on 64-bit halves and as a 128-bit product. */
module Gf128 {
  import opened AesField
  import opened Aes

  function Xor64(x: bv64, y: bv64): bv64 {
    x ^ y
  }

  function Xor128(x: bv128, y: bv128): bv128 {
    x ^ y
  }

  // ---- The product of section 6.3 of NIST SP 800-38D ----

  /** One bit to the right, with the reduction constant 0xe1 added at the top if a one falls out. */
  function Next(v: bv128): bv128 {
    var out := v & 1;
    (v >> 1) ^ (out << 127) ^ (out << 126) ^ (out << 125) ^ (out << 120)
  }

  predicate Odd(v: bv128) {
    v & 1 != 0
  }

  function Half(v: bv128): bv128 {
    v >> 1
  }

  function Reduced(v: bv128): bv128 {
    v ^ 0xe1000000_00000000_00000000_00000000
  }

  lemma NextByBranch(v: bv128)
    ensures Next(v) == if Odd(v) then Reduced(Half(v)) else Half(v)
  {
    if Odd(v) {
      assert Next(v) == Reduced(v >> 1);
    }
  }

  /** The sum of the shifts of `v` that the bits select, most significant bit first. */
  function Product(bits: seq<bool>, v: bv128): bv128
    decreases |bits|
  {
    if bits == [] then 0
    else if bits[0] then Xor128(v, Product(bits[1..], Next(v)))
    else Product(bits[1..], Next(v))
  }

  // ---- Linearity ----

  lemma NextXor(v: bv128, w: bv128)
    ensures Next(Xor128(v, w)) == Xor128(Next(v), Next(w))
  {
    assert Next(v ^ w) == Xor128(
      (v >> 1) ^ ((v & 1) << 127) ^ ((v & 1) << 126) ^ ((v & 1) << 125) ^ ((v & 1) << 120),
      (w >> 1) ^ ((w & 1) << 127) ^ ((w & 1) << 126) ^ ((w & 1) << 125) ^ ((w & 1) << 120));
  }

  lemma Xor128Shuffle(a: bv128, b: bv128, c: bv128, d: bv128)
    ensures Xor128(Xor128(a, b), Xor128(c, d)) == Xor128(Xor128(a, c), Xor128(b, d))
  {
    assert Xor128(a ^ b, c ^ d) == Xor128(a ^ c, b ^ d);
  }

  lemma Xor128Cancel(a: bv128, b: bv128, c: bv128)
    ensures Xor128(Xor128(a, b), Xor128(a, c)) == Xor128(b, c)
  {
    assert Xor128(a ^ b, a ^ c) == b ^ c;
  }

  lemma Xor128Associates(a: bv128, b: bv128, c: bv128)
    ensures Xor128(Xor128(a, b), c) == Xor128(a, Xor128(b, c))
  {
    assert Xor128(a ^ b, c) == Xor128(a, b ^ c);
  }

  lemma Xor128Swaps(a: bv128, b: bv128, c: bv128)
    ensures Xor128(a, Xor128(b, c)) == Xor128(b, Xor128(a, c))
  {
    assert Xor128(a, b ^ c) == Xor128(b, a ^ c);
  }

  lemma Xor128Zero(a: bv128)
    ensures Xor128(a, 0) == a && Xor128(0, a) == a
  {
  }

  lemma {:induction false} ProductXorRight(bits: seq<bool>, v: bv128, w: bv128)
    ensures Product(bits, Xor128(v, w)) == Xor128(Product(bits, v), Product(bits, w))
    decreases |bits|
  {
    hide Next, Xor128;
    if bits == [] {
      Xor128Zero(0);
    } else {
      NextXor(v, w);
      ProductXorRight(bits[1..], Next(v), Next(w));
      Xor128Shuffle(v, w, Product(bits[1..], Next(v)), Product(bits[1..], Next(w)));
    }
  }

  function XorBools(a: seq<bool>, b: seq<bool>): (r: seq<bool>)
    requires |a| == |b|
    ensures |r| == |a| && forall i {:trigger r[i]} :: 0 <= i < |a| ==> r[i] == (a[i] != b[i])
  {
    seq(|a|, i requires 0 <= i < |a| => a[i] != b[i])
  }

  lemma {:induction false} ProductXorLeft(a: seq<bool>, b: seq<bool>, v: bv128)
    requires |a| == |b|
    ensures Product(XorBools(a, b), v) == Xor128(Product(a, v), Product(b, v))
    decreases |a|
  {
    hide Next, Xor128, XorBools;
    if a == [] {
      Xor128Zero(0);
    } else {
      assert XorBools(a, b)[0] == (a[0] != b[0]);
      var x, y := Product(a[1..], Next(v)), Product(b[1..], Next(v));
      assert XorBools(a, b)[1..] == XorBools(a[1..], b[1..]);
      ProductXorLeft(a[1..], b[1..], Next(v));
      Xor128Cancel(v, x, y);
      Xor128Associates(v, x, y);
      Xor128Swaps(v, x, y);
    }
  }

  // ---- Halves ----

  function Join(high: bv64, low: bv64): bv128 {
    ((high as bv128) << 64) | (low as bv128)
  }

  lemma JoinXor(a: bv64, b: bv64, c: bv64, d: bv64)
    ensures Join(Xor64(a, c), Xor64(b, d)) == Xor128(Join(a, b), Join(c, d))
  {
    assert Join(a ^ c, b ^ d) == Xor128(((a as bv128) << 64) | (b as bv128), ((c as bv128) << 64) | (d as bv128));
  }

  predicate OddLow(low: bv64) {
    low & 1 != 0
  }

  function HalfHigh(high: bv64): bv64 {
    high >> 1
  }

  /** The low half takes the bit that falls out of the high one. */
  function HalfLow(high: bv64, low: bv64): bv64 {
    (low >> 1) | ((high & 1) << 63)
  }

  function ReducedHigh(high: bv64): bv64 {
    high ^ 0xe1000000_00000000
  }

  lemma JoinOdd(high: bv64, low: bv64)
    ensures Odd(Join(high, low)) <==> OddLow(low)
  {
  }

  lemma JoinHalf(high: bv64, low: bv64)
    ensures Join(HalfHigh(high), HalfLow(high, low)) == Half(Join(high, low))
  {
    assert Join(high >> 1, (low >> 1) | ((high & 1) << 63)) == Half(((high as bv128) << 64) | (low as bv128));
  }

  lemma JoinReduced(high: bv64, low: bv64)
    ensures Join(ReducedHigh(high), low) == Reduced(Join(high, low))
  {
    assert Join(high ^ 0xe1000000_00000000, low) == Reduced(((high as bv128) << 64) | (low as bv128));
  }

  lemma JoinNext(high: bv64, low: bv64)
    ensures Join(if OddLow(low) then ReducedHigh(HalfHigh(high)) else HalfHigh(high), HalfLow(high, low))
         == Next(Join(high, low))
  {
    hide Join, Next, Odd, Half, Reduced, OddLow, HalfHigh, HalfLow, ReducedHigh;
    NextByBranch(Join(high, low));
    JoinOdd(high, low);
    JoinHalf(high, low);
    JoinReduced(HalfHigh(high), HalfLow(high, low));
  }

  // ---- Blocks as numbers ----

  function High(w: bv128): bv64 {
    (w >> 64) as bv64
  }

  function Low(w: bv128): bv64 {
    (w & 0xffffffff_ffffffff) as bv64
  }

  lemma Rejoined(w: bv128)
    ensures Join(High(w), Low(w)) == w
  {
  }

  lemma Halves(high: bv64, low: bv64)
    ensures High(Join(high, low)) == high && Low(Join(high, low)) == low
  {
  }

  function Pack(a0: bv8, a1: bv8, a2: bv8, a3: bv8, a4: bv8, a5: bv8, a6: bv8, a7: bv8): bv64 {
    ((a0 as bv64) << 56) | ((a1 as bv64) << 48) | ((a2 as bv64) << 40) | ((a3 as bv64) << 32)
    | ((a4 as bv64) << 24) | ((a5 as bv64) << 16) | ((a6 as bv64) << 8) | (a7 as bv64)
  }

  /** Eight bytes as a big-endian number. */
  function FromBytes(s: seq<bv8>): bv64
    requires |s| == 8
  {
    Pack(s[0], s[1], s[2], s[3], s[4], s[5], s[6], s[7])
  }

  function ByteOf(x: bv64): bv8 {
    (x & 0xff) as bv8
  }

  function ToBytes(x: bv64): (s: seq<bv8>)
    ensures |s| == 8
  {
    [ByteOf(x >> 56), ByteOf(x >> 48), ByteOf(x >> 40), ByteOf(x >> 32),
     ByteOf(x >> 24), ByteOf(x >> 16), ByteOf(x >> 8), ByteOf(x)]
  }

  lemma FromToBytes(x: bv64)
    ensures FromBytes(ToBytes(x)) == x
  {
  }

  lemma ToFromBytes(s: seq<bv8>)
    requires |s| == 8
    ensures ToBytes(FromBytes(s)) == s
  {
  }

  function WordOf(b: Block): bv128 {
    Join(FromBytes(b[..8]), FromBytes(b[8..]))
  }

  function BlockOf(w: bv128): Block {
    ToBytes(High(w)) + ToBytes(Low(w))
  }

  lemma BlockAndWord(b: Block, w: bv128)
    ensures BlockOf(WordOf(b)) == b && WordOf(BlockOf(w)) == w
  {
    hide Join, FromBytes, ToBytes, High, Low;
    Halves(FromBytes(b[..8]), FromBytes(b[8..]));
    ToFromBytes(b[..8]);
    ToFromBytes(b[8..]);
    var r := BlockOf(w);
    assert r[..8] == ToBytes(High(w)) && r[8..] == ToBytes(Low(w));
    FromToBytes(High(w));
    FromToBytes(Low(w));
    Rejoined(w);
  }

  // ---- The bits of a block ----

  /** (b >> k) & 1 */
  predicate BitAt(b: bv8, k: nat)
    requires k < 8
  {
    match k
    case 0 => b & 1 != 0
    case 1 => (b >> 1) & 1 != 0
    case 2 => (b >> 2) & 1 != 0
    case 3 => (b >> 3) & 1 != 0
    case 4 => (b >> 4) & 1 != 0
    case 5 => (b >> 5) & 1 != 0
    case 6 => (b >> 6) & 1 != 0
    case 7 => (b >> 7) & 1 != 0
  }

  function ByteBits(b: bv8): (s: seq<bool>)
    ensures |s| == 8 && forall k {:trigger BitAt(b, k)} :: 0 <= k < 8 ==> s[7 - k] == BitAt(b, k)
  {
    seq(8, i requires 0 <= i < 8 => BitAt(b, 7 - i))
  }

  function Bits(s: seq<bv8>): (bits: seq<bool>)
    ensures |bits| == 8 * |s|
  {
    if s == [] then [] else ByteBits(s[0]) + Bits(s[1..])
  }

  lemma XorBit(a: bv8, b: bv8, k: nat)
    requires k < 8
    ensures BitAt(Xor(a, b), k) == (BitAt(a, k) != BitAt(b, k))
  {
    match k {
      case 0 => assert BitAt(a ^ b, 0) == (BitAt(a, 0) != BitAt(b, 0));
      case 1 => assert BitAt(a ^ b, 1) == (BitAt(a, 1) != BitAt(b, 1));
      case 2 => assert BitAt(a ^ b, 2) == (BitAt(a, 2) != BitAt(b, 2));
      case 3 => assert BitAt(a ^ b, 3) == (BitAt(a, 3) != BitAt(b, 3));
      case 4 => assert BitAt(a ^ b, 4) == (BitAt(a, 4) != BitAt(b, 4));
      case 5 => assert BitAt(a ^ b, 5) == (BitAt(a, 5) != BitAt(b, 5));
      case 6 => assert BitAt(a ^ b, 6) == (BitAt(a, 6) != BitAt(b, 6));
      case 7 => assert BitAt(a ^ b, 7) == (BitAt(a, 7) != BitAt(b, 7));
    }
  }

  /** The product of two blocks. */
  function Mul(x: Block, h: Block): Block {
    BlockOf(Product(Bits(x), WordOf(h)))
  }

  // ---- The multiplication on halves ----

  ghost predicate Completes(z: bv128, bits: seq<bool>, v: bv128, target: bv128) {
    Xor128(z, Product(bits, v)) == target
  }

  lemma CompletesStep(z: bv128, bits: seq<bool>, v: bv128, target: bv128)
    requires Completes(z, bits, v, target) && bits != []
    ensures Completes(if bits[0] then Xor128(z, v) else z, bits[1..], Next(v), target)
  {
    hide Xor128, Next;
    Xor128Associates(z, v, Product(bits[1..], Next(v)));
  }

  method MulByte(byte: bv8, zh0: bv64, zl0: bv64, vh0: bv64, vl0: bv64, ghost rest: seq<bool>, ghost target: bv128)
    returns (zh: bv64, zl: bv64, vh: bv64, vl: bv64)
    requires Completes(Join(zh0, zl0), ByteBits(byte) + rest, Join(vh0, vl0), target)
    ensures Completes(Join(zh, zl), rest, Join(vh, vl), target)
  {
    hide Completes, Join, ByteBits, BitAt, Next, Xor64, Xor128, OddLow, HalfHigh, HalfLow, ReducedHigh;
    zh, zl, vh, vl := zh0, zl0, vh0, vl0;
    ghost var bits := ByteBits(byte);
    assert bits[0..] == bits;
    for i := 8 downto 0
      invariant Completes(Join(zh, zl), bits[8 - i..] + rest, Join(vh, vl), target)
    {
      assert bits[7 - i] == BitAt(byte, i);
      assert (bits[7 - i..] + rest)[1..] == bits[8 - i..] + rest;
      CompletesStep(Join(zh, zl), bits[7 - i..] + rest, Join(vh, vl), target);
      JoinXor(zh, zl, vh, vl);
      JoinNext(vh, vl);
      if BitAt(byte, i) {
        zh, zl := Xor64(zh, vh), Xor64(zl, vl);
      }
      var odd := OddLow(vl);
      vh, vl := HalfHigh(vh), HalfLow(vh, vl);
      if odd {
        vh := ReducedHigh(vh);
      }
    }
    assert bits[8..] + rest == rest;
  }

  /** The bytes of the product, computed on 64-bit halves. */
  method Gf128Mul(x: Block, h: Block) returns (r: Block)
    ensures r == Mul(x, h)
  {
    hide Completes, Join, FromBytes, ToBytes, Product, ByteBits, High, Low;
    var zh: bv64, zl: bv64 := 0, 0;
    var vh, vl := FromBytes(h[..8]), FromBytes(h[8..]);
    ghost var target := Product(Bits(x), WordOf(h));
    MulStart(Bits(x), WordOf(h));
    assert x[0..] == x;
    for k := 0 to 16
      invariant Completes(Join(zh, zl), Bits(x[k..]), Join(vh, vl), target)
    {
      assert x[k..][1..] == x[k + 1..];
      zh, zl, vh, vl := MulByte(x[k], zh, zl, vh, vl, Bits(x[k + 1..]), target);
    }
    MulEnd(Join(zh, zl), Join(vh, vl), target);
    Halves(zh, zl);
    r := ToBytes(zh) + ToBytes(zl);
  }

  lemma MulStart(bits: seq<bool>, v: bv128)
    ensures Completes(Join(0, 0), bits, v, Product(bits, v))
  {
    hide Product;
    assert Join(0, 0) == 0;
  }

  lemma MulEnd(z: bv128, v: bv128, target: bv128)
    requires Completes(z, [], v, target)
    ensures z == target
  {
  }

  // ---- The product of blocks is linear ----

  lemma {:induction false} BitsXor(s: seq<bv8>, t: seq<bv8>, r: seq<bv8>)
    requires |s| == |t| == |r| && forall i :: 0 <= i < |s| ==> r[i] == Xor(s[i], t[i])
    ensures Bits(r) == XorBools(Bits(s), Bits(t))
  {
    hide Xor, BitAt, ByteBits;
    if s != [] {
      BitsXor(s[1..], t[1..], r[1..]);
      ByteBitsXor(s[0], t[0]);
    }
  }

  lemma ByteBitsXor(a: bv8, b: bv8)
    ensures ByteBits(Xor(a, b)) == XorBools(ByteBits(a), ByteBits(b))
  {
    hide Xor, BitAt, ByteBits;
    var r, x := ByteBits(Xor(a, b)), XorBools(ByteBits(a), ByteBits(b));
    forall i | 0 <= i < 8
      ensures r[i] == x[i]
    {
      XorBit(a, b, 7 - i);
      assert r[7 - (7 - i)] == BitAt(Xor(a, b), 7 - i);
    }
  }

  lemma PackXor(a0: bv8, a1: bv8, a2: bv8, a3: bv8, a4: bv8, a5: bv8, a6: bv8, a7: bv8,
                b0: bv8, b1: bv8, b2: bv8, b3: bv8, b4: bv8, b5: bv8, b6: bv8, b7: bv8)
    ensures Pack(Xor(a0, b0), Xor(a1, b1), Xor(a2, b2), Xor(a3, b3), Xor(a4, b4), Xor(a5, b5), Xor(a6, b6), Xor(a7, b7))
         == Xor64(Pack(a0, a1, a2, a3, a4, a5, a6, a7), Pack(b0, b1, b2, b3, b4, b5, b6, b7))
  {
    assert Pack(a0 ^ b0, a1 ^ b1, a2 ^ b2, a3 ^ b3, a4 ^ b4, a5 ^ b5, a6 ^ b6, a7 ^ b7) == Xor64(
      ((a0 as bv64) << 56) | ((a1 as bv64) << 48) | ((a2 as bv64) << 40) | ((a3 as bv64) << 32)
      | ((a4 as bv64) << 24) | ((a5 as bv64) << 16) | ((a6 as bv64) << 8) | (a7 as bv64),
      ((b0 as bv64) << 56) | ((b1 as bv64) << 48) | ((b2 as bv64) << 40) | ((b3 as bv64) << 32)
      | ((b4 as bv64) << 24) | ((b5 as bv64) << 16) | ((b6 as bv64) << 8) | (b7 as bv64));
  }

  lemma FromBytesXor(s: seq<bv8>, t: seq<bv8>, r: seq<bv8>)
    requires |s| == |t| == |r| == 8 && forall i :: 0 <= i < 8 ==> r[i] == Xor(s[i], t[i])
    ensures FromBytes(r) == Xor64(FromBytes(s), FromBytes(t))
  {
    hide Pack, Xor, Xor64;
    PackXor(s[0], s[1], s[2], s[3], s[4], s[5], s[6], s[7], t[0], t[1], t[2], t[3], t[4], t[5], t[6], t[7]);
  }

  /** Adding blocks is adding the numbers they spell. */
  lemma WordXor(x: Block, y: Block)
    ensures WordOf(AddKey(x, y)) == Xor128(WordOf(x), WordOf(y))
  {
    hide Join, FromBytes, Xor, Xor64, Xor128;
    FromBytesXor(x[..8], y[..8], AddKey(x, y)[..8]);
    FromBytesXor(x[8..], y[8..], AddKey(x, y)[8..]);
    JoinXor(FromBytes(x[..8]), FromBytes(x[8..]), FromBytes(y[..8]), FromBytes(y[8..]));
  }

  lemma SameWord(x: Block, y: Block)
    requires WordOf(x) == WordOf(y)
    ensures x == y
  {
    hide WordOf, BlockOf;
    BlockAndWord(x, 0);
    BlockAndWord(y, 0);
  }

  lemma MulXorLeft(x: Block, y: Block, h: Block)
    ensures Mul(AddKey(x, y), h) == AddKey(Mul(x, h), Mul(y, h))
  {
    hide Product, WordOf, BlockOf, Bits, Xor, Xor128;
    BitsXor(x, y, AddKey(x, y));
    ProductXorLeft(Bits(x), Bits(y), WordOf(h));
    MulWord(x, h);
    MulWord(y, h);
    MulWord(AddKey(x, y), h);
    WordXor(Mul(x, h), Mul(y, h));
    SameWord(Mul(AddKey(x, y), h), AddKey(Mul(x, h), Mul(y, h)));
  }

  lemma MulXorRight(x: Block, g: Block, h: Block)
    ensures Mul(x, AddKey(g, h)) == AddKey(Mul(x, g), Mul(x, h))
  {
    hide Product, WordOf, BlockOf, Bits, AddKey, Xor128;
    WordXor(g, h);
    ProductXorRight(Bits(x), WordOf(g), WordOf(h));
    MulWord(x, g);
    MulWord(x, h);
    MulWord(x, AddKey(g, h));
    WordXor(Mul(x, g), Mul(x, h));
    SameWord(Mul(x, AddKey(g, h)), AddKey(Mul(x, g), Mul(x, h)));
  }

  lemma MulWord(x: Block, h: Block)
    ensures WordOf(Mul(x, h)) == Product(Bits(x), WordOf(h))
  {
    hide Product, WordOf, BlockOf, Bits;
    BlockAndWord(x, Product(Bits(x), WordOf(h)));
  }
}
