/** Conversion between `BigUint` and big-endian byte strings in `crypto/rsa.rs`. */
module BigUintBytes {
  import opened Arith
  import opened Bits
  import opened Bytes
  import opened BigUint
  import opened BigUintDiv

  lemma BaseIsEightBytes()
    ensures ByteWeight(8) == BASE
  {
    ByteWeightIsPow2(8);
    Pow2Values();
  }

  lemma {:induction false} WeightIsBytes(i: nat)
    ensures Weight(i) == ByteWeight(8 * i)
  {
    WeightIsPow2(i);
    ByteWeightIsPow2(8 * i);
  }

  lemma AppendLimb(a: Limbs, x: Limb)
    ensures Value(a + [x]) == Value(a) + x * Weight(|a|)
  {
    PrefixSame(a + [x], a, |a|);
  }

  method FromBytes(bytes: seq<Byte>) returns (r: Limbs)
    ensures Value(r) == BigEndian(bytes)
    ensures if bytes == [] then r == [] else Normalized(r)
  {
    var limbs: Limbs := [];
    var end := |bytes|;
    while end > 0
      invariant 0 <= end <= |bytes|
      invariant end > 0 ==> |bytes| - end == 8 * |limbs|
      invariant bytes != [] && end == 0 ==> limbs != []
      invariant bytes == [] ==> limbs == []
      invariant Value(limbs) == BigEndian(bytes[end..])
    {
      var start := if end > 8 then end - 8 else 0;
      var limb := FoldChunk(bytes[start..end]);
      AppendLimb(limbs, limb);
      BigEndianSlice(bytes, start, end);
      WeightIsBytes(|limbs|);
      limbs, end := limbs + [limb], start;
    }
    assert bytes[0..] == bytes;
    r := Trim(limbs);
  }

  /** Up to eight bytes folded into one limb. */
  method FoldChunk(chunk: seq<Byte>) returns (limb: Limb)
    requires |chunk| <= 8
    ensures limb == BigEndian(chunk)
  {
    limb := 0;
    for i := 0 to |chunk|
      invariant limb == BigEndian(chunk[..i])
    {
      BigEndianBound(chunk[..i]);
      ByteWeightMonotone(i, 7);
      BaseIsEightBytes();
      ShiftInByte(limb, chunk[i]);
      assert chunk[..i + 1][..i] == chunk[..i];
      limb := BitOr(ShlLimb(limb, 8), chunk[i]);
    }
    assert chunk[..|chunk|] == chunk;
  }

  lemma ShiftInByte(limb: Limb, b: Byte)
    requires limb * 256 < BASE
    ensures BitOr(ShlLimb(limb, 8), b) == limb * 256 + b < BASE
  {
    hide BitOr, Pow2;
    Pow2Values();
    MultipleClearsBits(limb, 8);
    OrDisjoint(b, limb * 256, 8);
  }

  /** The bytes of all limbs, most significant first. */
  method LimbBytes(a: Limbs) returns (bytes: seq<Byte>)
    ensures |bytes| == 8 * |a| && BigEndian(bytes) == Value(a)
  {
    hide Weight, ToBigEndian, Prefix;
    bytes := [];
    for i := |a| downto 0
      invariant |bytes| == 8 * (|a| - i)
      invariant BigEndian(bytes) * Weight(i) + Prefix(a, i) == Value(a)
    {
      LimbTaken(a, i, BigEndian(bytes));
      ToBigEndianValue(a[i], 8);
      BigEndianConcat(bytes, ToBigEndian(a[i], 8));
      BaseIsEightBytes();
      bytes := bytes + ToBigEndian(a[i], 8);
    }
    NoLimbs(a);
  }

  lemma LimbTaken(a: Limbs, i: nat, x: nat)
    requires i < |a|
    ensures x * Weight(i + 1) + Prefix(a, i + 1) == (x * BASE + a[i]) * Weight(i) + Prefix(a, i)
  {
    Associate(x, BASE, Weight(i));
    Distribute(x * BASE, a[i], Weight(i));
  }

  lemma NoLimbs(a: Limbs)
    ensures Weight(0) == 1 && Prefix(a, 0) == 0
  {
  }

  method ToBytes(a: Limbs) returns (r: seq<Byte>)
    ensures BigEndian(r) == Value(a)
    ensures r == if a == [] then [] else MinimalBytes(Value(a))
  {
    hide Value, BigEndian, MinimalBytes;
    var bytes := LimbBytes(a);
    while |bytes| > 1 && bytes[0] == 0
      invariant BigEndian(bytes) == Value(a)
      invariant a == [] <==> bytes == []
    {
      BigEndianDropZero(bytes);
      bytes := bytes[1..];
    }
    r := bytes;
    if a != [] {
      SpellingIsMinimal(r);
    }
  }

  method ByteLen(a: Limbs) returns (n: nat)
    requires a == [] || Normalized(a)
    ensures n == ByteLength(Value(a))
  {
    if a == [] {
      return 1;
    }
    var top := a[|a| - 1];
    var limbBytes := if top == 0 then 1 else (BitLen(top) + 7) / 8;
    n := (|a| - 1) * 8 + limbBytes;
    if top == 0 {
      ZeroPrefix(a, 1);
    } else {
      LengthFromTop(a, |a| - 1);
      TopLimb(a);
    }
  }
}
