/** Byte strings and the big-endian numbers they spell. */
module Bytes {
  import opened Arith
  import opened Bits

  type Byte = x: nat | x < 256

  function XorByte(a: Byte, b: Byte): Byte {
    Pow2Values();
    XorBound(a, b, 8);
    BitXor(a, b)
  }

  function ByteWeight(n: nat): (w: nat)
    ensures w > 0
  {
    if n == 0 then 1 else 256 * ByteWeight(n - 1)
  }

  /** The number a byte string spells, most significant byte first. */
  ghost function BigEndian(s: seq<Byte>): nat {
    if s == [] then 0 else BigEndian(s[..|s| - 1]) * 256 + s[|s| - 1]
  }

  /** No leading zero byte, except that zero itself is one zero byte. */
  predicate Minimal(s: seq<Byte>) {
    |s| >= 1 && (|s| > 1 ==> s[0] != 0)
  }

  /** `n` copies of one byte. */
  function Repeat(b: Byte, n: nat): (s: seq<Byte>)
    ensures |s| == n && forall i :: 0 <= i < n ==> s[i] == b
  {
    seq(n, _ => b)
  }

  /** The last `n` base-256 digits of `x`, most significant first. */
  function ToBigEndian(x: nat, n: nat): (s: seq<Byte>)
    ensures |s| == n
  {
    if n == 0 then [] else ToBigEndian(x / 256, n - 1) + [x % 256]
  }

  lemma {:induction false} ToBigEndianValue(x: nat, n: nat)
    requires x < ByteWeight(n)
    ensures BigEndian(ToBigEndian(x, n)) == x
  {
    if n > 0 {
      ToBigEndianValue(x / 256, n - 1);
      assert ToBigEndian(x, n)[..n - 1] == ToBigEndian(x / 256, n - 1);
    }
  }

  /** What is kept of a number too large for the digits is its remainder. */
  lemma {:induction false} ToBigEndianRemainder(x: nat, n: nat)
    ensures BigEndian(ToBigEndian(x, n)) == x % ByteWeight(n)
  {
    if n > 0 {
      ToBigEndianRemainder(x / 256, n - 1);
      assert ToBigEndian(x, n)[..n - 1] == ToBigEndian(x / 256, n - 1);
      LastDigit(x, ByteWeight(n - 1));
    }
  }

  lemma LastDigit(x: nat, w: nat)
    requires w > 0
    ensures x % (256 * w) == x / 256 % w * 256 + x % 256
  {
    var y := x / 256;
    var q, r := y / w, y % w;
    assert q * (256 * w) == 256 * (q * w);
    assert x == q * (256 * w) + (r * 256 + x % 256);
    ModUnique(x, 256 * w, q, r * 256 + x % 256);
  }

  lemma {:induction false} ByteWeightIsPow2(n: nat)
    ensures ByteWeight(n) == Pow2(8 * n)
  {
    if n > 0 {
      ByteWeightIsPow2(n - 1);
      Pow2Values();
      Pow2Add(8, 8 * (n - 1));
    }
  }

  lemma {:induction false} ByteWeightMonotone(m: nat, n: nat)
    requires m <= n
    ensures ByteWeight(m) <= ByteWeight(n)
    decreases n - m
  {
    if m < n {
      ByteWeightMonotone(m, n - 1);
    }
  }

  lemma {:induction false} BigEndianBound(s: seq<Byte>)
    ensures BigEndian(s) < ByteWeight(|s|)
  {
    if s != [] {
      BigEndianBound(s[..|s| - 1]);
    }
  }

  lemma {:induction false} BigEndianConcat(s: seq<Byte>, t: seq<Byte>)
    ensures BigEndian(s + t) == BigEndian(s) * ByteWeight(|t|) + BigEndian(t)
  {
    if t == [] {
      assert s + t == s;
    } else {
      var t' := t[..|t| - 1];
      BigEndianConcat(s, t');
      assert (s + t)[..|s + t| - 1] == s + t';
      Associate(256, BigEndian(s), ByteWeight(|t'|));
      assert BigEndian(s) * (256 * ByteWeight(|t'|)) == 256 * (BigEndian(s) * ByteWeight(|t'|));
    }
  }

  lemma BigEndianSlice(s: seq<Byte>, i: nat, j: nat)
    requires i <= j <= |s|
    ensures BigEndian(s[i..]) == BigEndian(s[i..j]) * ByteWeight(|s| - j) + BigEndian(s[j..])
  {
    assert s[i..j] + s[j..] == s[i..];
    BigEndianConcat(s[i..j], s[j..]);
  }

  lemma {:induction false} BigEndianZeros(n: nat)
    ensures BigEndian(Repeat(0, n)) == 0
  {
    if n > 0 {
      BigEndianZeros(n - 1);
      assert Repeat(0, n)[..n - 1] == Repeat(0, n - 1);
    }
  }

  /** Leading zeros do not change the number. */
  lemma BigEndianPadded(n: nat, s: seq<Byte>)
    ensures BigEndian(Repeat(0, n) + s) == BigEndian(s)
  {
    BigEndianConcat(Repeat(0, n), s);
    BigEndianZeros(n);
  }

  lemma BigEndianDropZero(s: seq<Byte>)
    requires s != [] && s[0] == 0
    ensures BigEndian(s[1..]) == BigEndian(s)
  {
    assert s == Repeat(0, 1) + s[1..];
    BigEndianPadded(1, s[1..]);
  }

  lemma BigEndianSingle(b: Byte)
    ensures BigEndian([b]) == b
  {
    assert [b][..0] == [];
  }

  lemma BigEndianSplit(s: seq<Byte>)
    requires s != []
    ensures BigEndian(s) == s[0] * ByteWeight(|s| - 1) + BigEndian(s[1..])
  {
    assert s == [s[0]] + s[1..];
    BigEndianConcat([s[0]], s[1..]);
    BigEndianSingle(s[0]);
  }

  /** Strings of one length are determined by their number. */
  lemma {:induction false} BigEndianInjective(s: seq<Byte>, t: seq<Byte>)
    requires |s| == |t| && BigEndian(s) == BigEndian(t)
    ensures s == t
  {
    if s != [] {
      var s', t' := s[..|s| - 1], t[..|t| - 1];
      BigEndianInjective(s', t');
      assert s == s' + [s[|s| - 1]] && t == t' + [t[|t| - 1]];
    }
  }

  lemma MinimalBound(s: seq<Byte>)
    requires |s| >= 1 && s[0] != 0
    ensures ByteWeight(|s| - 1) <= BigEndian(s)
  {
    BigEndianSplit(s);
    MulMonotone(1, s[0], ByteWeight(|s| - 1));
  }

  /** A number has one minimal spelling. */
  lemma MinimalUnique(s: seq<Byte>, t: seq<Byte>)
    requires Minimal(s) && Minimal(t) && BigEndian(s) == BigEndian(t)
    ensures s == t
  {
    if |s| != |t| {
      var (long, short) := if |s| > |t| then (s, t) else (t, s);
      MinimalBound(long);
      BigEndianBound(short);
      ByteWeightMonotone(|short|, |long| - 1);
    } else {
      BigEndianInjective(s, t);
    }
  }

  /** Bytes needed to spell `x`; zero takes one. */
  function ByteLength(x: nat): nat {
    if x == 0 then 1 else (BitLen(x) + 7) / 8
  }

  lemma ByteLengthBounds(x: nat)
    ensures ByteLength(x) >= 1 && x < ByteWeight(ByteLength(x))
    ensures x > 0 ==> ByteWeight(ByteLength(x) - 1) <= x
  {
    var n := ByteLength(x);
    if x > 0 {
      BitLenBounds(x);
      ByteWeightIsPow2(n);
      ByteWeightIsPow2(n - 1);
      Pow2Monotone(BitLen(x), 8 * n);
      Pow2Monotone(8 * (n - 1), BitLen(x) - 1);
    }
  }

  /** The one spelling of `x` without leading zeros. */
  ghost function MinimalBytes(x: nat): seq<Byte> {
    ToBigEndian(x, ByteLength(x))
  }

  lemma MinimalBytesSpell(x: nat)
    ensures BigEndian(MinimalBytes(x)) == x && Minimal(MinimalBytes(x))
  {
    ByteLengthBounds(x);
    ToBigEndianValue(x, ByteLength(x));
    var s := MinimalBytes(x);
    if |s| > 1 && s[0] == 0 {
      BigEndianDropZero(s);
      BigEndianBound(s[1..]);
    }
  }

  lemma SpellingIsMinimal(s: seq<Byte>)
    requires Minimal(s)
    ensures s == MinimalBytes(BigEndian(s))
  {
    MinimalBytesSpell(BigEndian(s));
    MinimalUnique(s, MinimalBytes(BigEndian(s)));
  }

  /** Zeros in front, up to length `n`; longer strings stay as they are. */
  function LeftPad(s: seq<Byte>, n: nat): (r: seq<Byte>)
    ensures |s| <= n ==> |r| == n
  {
    if |s| >= n then s else Repeat(0, n - |s|) + s
  }

  lemma LeftPadValue(s: seq<Byte>, n: nat)
    ensures BigEndian(LeftPad(s, n)) == BigEndian(s)
  {
    if |s| < n {
      BigEndianPadded(n - |s|, s);
    }
  }

  /** Dropping leading zeros and padding back gives the string again. */
  lemma LeftPadMinimal(s: seq<Byte>)
    requires s != []
    ensures LeftPad(MinimalBytes(BigEndian(s)), |s|) == s
  {
    hide BigEndian, MinimalBytes, LeftPad, ByteWeight;
    var x := BigEndian(s);
    var t := MinimalBytes(x);
    MinimalBytesSpell(x);
    if |t| > |s| {
      MinimalBound(t);
      BigEndianBound(s);
      ByteWeightMonotone(|s|, |t| - 1);
    }
    LeftPadValue(t, |s|);
    BigEndianInjective(LeftPad(t, |s|), s);
  }
}
