/**
 * The base-2^64 natural numbers of `crypto/rsa.rs`. A number is its vector of limbs, least
 * significant first; every operation builds a new vector. `Value` is the number a vector stands for.
 */
module BigUint {
  import opened Arith
  import opened Bits

  const BASE: nat := 0x1_0000_0000_0000_0000

  type Limb = x: nat | x < 0x1_0000_0000_0000_0000
  type Limbs = seq<Limb>

  /** What the limb in position `i` counts: 2^(64 i). */
  function Weight(i: nat): (w: nat)
    ensures w > 0
  {
    if i == 0 then 1 else BASE * Weight(i - 1)
  }

  /** The limb in position `i`, zero beyond the end. */
  function Digit(a: Limbs, i: nat): Limb {
    if i < |a| then a[i] else 0
  }

  /** The number that the lowest `i` limbs stand for. */
  ghost function Prefix(a: Limbs, i: nat): nat {
    if i == 0 then 0 else Prefix(a, i - 1) + Digit(a, i - 1) * Weight(i - 1)
  }

  ghost function Value(a: Limbs): nat {
    Prefix(a, |a|)
  }

  /** The form every constructor and operation returns: at least one limb, no zero limb on top. */
  predicate Normalized(a: Limbs) {
    |a| >= 1 && (|a| > 1 ==> a[|a| - 1] != 0)
  }

  // ---- Facts about Value ----

  lemma {:induction false} PrefixBound(a: Limbs, i: nat)
    ensures Prefix(a, i) < Weight(i)
  {
    if i > 0 {
      PrefixBound(a, i - 1);
      MulMonotone(Digit(a, i - 1), BASE - 1, Weight(i - 1));
    }
  }

  lemma {:induction false} PrefixSame(a: Limbs, b: Limbs, i: nat)
    requires forall k :: 0 <= k < i ==> Digit(a, k) == Digit(b, k)
    ensures Prefix(a, i) == Prefix(b, i)
  {
    if i > 0 {
      PrefixSame(a, b, i - 1);
    }
  }

  lemma RestSum(r: int, d: int, w: int, v: int)
    ensures (r + d * w) * v == r * v + d * (w * v)
  {
    Distribute(r, d * w, v);
    Associate(d, w, v);
  }

  /** The limbs from `i` to `j` contribute a multiple of the weight of `i`. */
  lemma {:induction false} PrefixRest(a: Limbs, i: nat, j: nat) returns (rest: nat)
    requires i <= j
    ensures Prefix(a, j) == Prefix(a, i) + rest * Weight(i)
    ensures (forall k :: i <= k < j ==> Digit(a, k) == 0) ==> rest == 0
  {
    if i == j {
      rest := 0;
    } else {
      hide Weight, Digit;
      var r := PrefixRest(a, i, j - 1);
      var d, w := Digit(a, j - 1), Weight(j - 1 - i);
      rest := r + d * w;
      WeightAdd(j - 1 - i, i);
      RestSum(r, d, w, Weight(i));
    }
  }

  lemma {:induction false} WeightAdd(i: nat, j: nat)
    ensures Weight(i + j) == Weight(i) * Weight(j)
  {
    if i > 0 {
      WeightAdd(i - 1, j);
      Associate(BASE, Weight(i - 1), Weight(j));
    }
  }

  lemma {:induction false} WeightIsPow2(i: nat)
    ensures Weight(i) == Pow2(64 * i)
  {
    if i > 0 {
      WeightIsPow2(i - 1);
      Pow2Values();
      Pow2Add(64, 64 * (i - 1));
    }
  }

  lemma BaseSplits(k: nat)
    requires k <= 64
    ensures Pow2(k) * Pow2(64 - k) == BASE
  {
    Pow2Values();
    Pow2Add(k, 64 - k);
  }

  lemma BaseHalves(j: nat)
    requires j < 64
    ensures 2 * Pow2(63 - j) * Pow2(j) == BASE
  {
    BaseSplits(64 - j);
    assert Pow2(64 - j) == 2 * Pow2(63 - j);
  }

  lemma PrefixBeyond(a: Limbs, i: nat)
    requires i >= |a|
    ensures Prefix(a, i) == Value(a)
  {
    var rest := PrefixRest(a, |a|, i);
  }

  /** A top limb other than zero makes the number at least its weight. */
  lemma TopLimb(a: Limbs)
    requires |a| > 0 && a[|a| - 1] != 0
    ensures Weight(|a| - 1) <= Value(a)
  {
    MulMonotone(1, a[|a| - 1], Weight(|a| - 1));
  }

  lemma {:induction false} WeightMonotone(i: nat, j: nat)
    requires i <= j
    ensures Weight(i) <= Weight(j)
    decreases j - i
  {
    if i < j {
      WeightMonotone(i, j - 1);
    }
  }

  /** The highest limb in which two vectors of one length differ decides their order. */
  lemma CompareAt(a: Limbs, b: Limbs, i: nat)
    requires |a| == |b| && i < |a| && a[i] < b[i]
    requires forall k :: i < k < |a| ==> a[k] == b[k]
    ensures Value(a) < Value(b)
  {
    PrefixBound(a, i);
    MulMonotone(a[i] + 1, b[i], Weight(i));
    Distribute(a[i], 1, Weight(i));
    SameAbove(a, b, i + 1, |a|);
  }

  lemma {:induction false} SameAbove(a: Limbs, b: Limbs, i: nat, j: nat)
    requires i <= j
    requires forall k :: i <= k < j ==> Digit(a, k) == Digit(b, k)
    ensures Prefix(a, j) - Prefix(a, i) == Prefix(b, j) - Prefix(b, i)
  {
    if i < j {
      SameAbove(a, b, i, j - 1);
    }
  }

  // ---- Operations ----

  /** Drop zero limbs from the top, keeping at least one limb. */
  method Trim(a: Limbs) returns (r: Limbs)
    ensures Value(r) == Value(a)
    ensures if a == [] then r == [] else Normalized(r)
  {
    r := a;
    while |r| > 1 && r[|r| - 1] == 0
      invariant Value(r) == Value(a)
      invariant |r| <= |a| && (|r| == 0 ==> a == []) && (a == [] ==> r == [])
    {
      var t := r[..|r| - 1];
      PrefixSame(t, r, |t|);
      r := t;
    }
  }

  function OverflowingAdd(x: Limb, y: Limb): (r: (Limb, bool))
    ensures x + y == r.0 + (if r.1 then BASE else 0)
  {
    if x + y < BASE then (x + y, false) else (x + y - BASE, true)
  }

  function OverflowingSub(x: Limb, y: Limb): (r: (Limb, bool))
    ensures x - y == r.0 - (if r.1 then BASE else 0)
  {
    if x >= y then (x - y, false) else (x - y + BASE, true)
  }

  method Add(a: Limbs, b: Limbs) returns (r: Limbs)
    ensures Value(r) == Value(a) + Value(b)
    ensures Normalized(r)
  {
    var maxLen := if |a| > |b| then |a| else |b|;
    var result: Limbs := seq(maxLen + 1, _ => 0);
    var carry: Limb := 0;
    for i := 0 to maxLen
      invariant |result| == maxLen + 1 && carry <= 1
      invariant forall k :: i <= k <= maxLen ==> result[k] == 0
      invariant Prefix(result, i) + carry * Weight(i) == Prefix(a, i) + Prefix(b, i)
    {
      var x, y := Digit(a, i), Digit(b, i);
      var (s, c1) := OverflowingAdd(x, y);
      var (sum, c2) := OverflowingAdd(s, carry);
      var next: Limb := if c1 || c2 then 1 else 0;
      assert x + y + carry == sum + next * BASE;
      LimbStep(x, y, carry, sum, next, i);
      var updated := result[i := sum];
      PrefixSame(updated, result, i);
      result, carry := updated, next;
    }
    if carry > 0 {
      var updated := result[maxLen := carry];
      PrefixSame(updated, result, maxLen);
      result := updated;
    }
    PrefixBeyond(a, maxLen);
    PrefixBeyond(b, maxLen);
    r := Trim(result);
  }

  lemma LimbStep(x: int, y: int, c: int, s: int, c': int, i: nat)
    requires x + y + c == s + c' * BASE
    ensures x * Weight(i) + y * Weight(i) + c * Weight(i) == s * Weight(i) + c' * Weight(i + 1)
  {
    var w := Weight(i);
    assert (x + y + c) * w == x * w + y * w + c * w;
    assert (s + c' * BASE) * w == s * w + c' * (BASE * w);
  }

  /** Subtraction with the borrow out of the top limb discarded. */
  method Sub(a: Limbs, b: Limbs) returns (r: Limbs)
    ensures Value(r) == (Value(a) - Value(b)) % Weight(|a|)
    ensures Value(a) >= Value(b) ==> Value(r) == Value(a) - Value(b)
    ensures if a == [] then r == [] else Normalized(r)
  {
    var result: Limbs := seq(|a|, _ => 0);
    var borrow: Limb := 0;
    for i := 0 to |a|
      invariant |result| == |a| && borrow <= 1
      invariant Prefix(result, i) + Prefix(b, i) == Prefix(a, i) + borrow * Weight(i)
    {
      var (d1, under1) := OverflowingSub(a[i], Digit(b, i));
      var (diff, under2) := OverflowingSub(d1, borrow);
      var next: Limb := if under1 || under2 then 1 else 0;
      assert diff + Digit(b, i) + borrow == a[i] + next * BASE;
      LimbStep(diff, Digit(b, i), borrow, a[i], next, i);
      var updated := result[i := diff];
      PrefixSame(updated, result, i);
      result, borrow := updated, next;
    }
    SubWraps(a, b, result, borrow);
    r := Trim(result);
  }

  lemma SubWraps(a: Limbs, b: Limbs, result: Limbs, borrow: nat)
    requires |result| == |a|
    requires Value(result) + Prefix(b, |a|) == Value(a) + borrow * Weight(|a|)
    ensures Value(result) == (Value(a) - Value(b)) % Weight(|a|)
    ensures Value(a) >= Value(b) ==> Value(result) == Value(a) - Value(b)
  {
    var n := |a|;
    var w := Weight(n);
    var high := 0;
    if |b| <= n {
      PrefixBeyond(b, n);
    } else {
      high := PrefixRest(b, n, |b|);
    }
    PrefixBound(result, n);
    PrefixBound(a, n);
    WrapAround(Value(a), Value(b), Value(result), w, Prefix(b, n), borrow, high);
  }

  lemma WrapAround(x: nat, y: nat, z: nat, w: int, low: int, borrow: int, high: int)
    requires x < w && z < w && z + low == x + borrow * w && y == low + high * w
    ensures z == (x - y) % w
    ensures x >= y ==> z == x - y
  {
    var q := -borrow - high;
    Distribute(-borrow, high, w);
    assert q * w == -(borrow * w) - high * w;
    ModUnique(x - y, w, q, z);
    if x >= y {
      ModUnique(x - y, w, 0, x - y);
    }
  }

  method Mul(a: Limbs, b: Limbs) returns (r: Limbs)
    ensures Value(r) == Value(a) * Value(b)
    ensures if a == [] && b == [] then r == [] else Normalized(r)
  {
    hide Weight;
    var n := |b|;
    var result: Limbs := seq(|a| + n, _ => 0);
    ZeroPrefix(result, n);
    for i := 0 to |a|
      invariant |result| == |a| + n
      invariant forall k :: i + n <= k < |result| ==> result[k] == 0
      invariant Prefix(result, i + n) == Prefix(a, i) * Value(b)
    {
      ghost var before := result;
      var carry: Limb := 0;
      for j := 0 to n
        invariant |result| == |before|
        invariant forall k :: i + j <= k < |result| ==> result[k] == before[k]
        invariant Prefix(result, i + j) + carry * Weight(i + j)
               == Prefix(before, i + j) + a[i] * Weight(i) * Prefix(b, j)
      {
        var (low, high) := WideMulAdd(a[i], b[j], result[i + j], carry);
        RowStep(result, before, a[i], b, carry, low, high, i, j);
        result, carry := result[i + j := low], high;
      }
      if carry > 0 {
        assert result[i + n] == 0;
        var updated := result[i + n := carry];
        PrefixSame(updated, result, i + n);
        result := updated;
      }
      Distribute(Prefix(a, i), a[i] * Weight(i), Value(b));
    }
    r := Trim(result);
  }

  /** A limb product plus two limbs in 128-bit arithmetic, which it never overflows: low and high limb. */
  function WideMulAdd(x: Limb, y: Limb, z: Limb, c: Limb): (r: (Limb, Limb))
    ensures x * y + z + c == r.0 + r.1 * BASE < BASE * BASE
  {
    MulMonotone(0, x, y);
    MulMonotone(x, BASE - 1, y);
    SplitWide(x * y + z + c)
  }

  function SplitWide(product: nat): (r: (Limb, Limb))
    requires product < BASE * BASE
    ensures product == r.0 + r.1 * BASE
  {
    (product % BASE, product / BASE)
  }

  lemma {:induction false} ZeroPrefix(a: Limbs, i: nat)
    requires forall k :: 0 <= k < |a| ==> a[k] == 0
    ensures Prefix(a, i) == 0
  {
    if i > 0 {
      ZeroPrefix(a, i - 1);
    }
  }

  lemma RowStep(result: Limbs, before: Limbs, x: Limb, b: Limbs, carry: Limb, low: Limb, high: Limb, i: nat, j: nat)
    requires |result| == |before| && i + j < |result| && j < |b|
    requires result[i + j] == before[i + j]
    requires x * b[j] + result[i + j] + carry == low + high * BASE
    requires Prefix(result, i + j) + carry * Weight(i + j) == Prefix(before, i + j) + x * Weight(i) * Prefix(b, j)
    ensures Prefix(result[i + j := low], i + j + 1) + high * Weight(i + j + 1)
         == Prefix(before, i + j + 1) + x * Weight(i) * Prefix(b, j + 1)
  {
    var w := Weight(i + j);
    PrefixSame(result[i + j := low], result, i + j);
    LimbStep(x * b[j], result[i + j], carry, low, high, i + j);
    WeightAdd(i, j);
    MulShuffle(x, b[j], Weight(i), Weight(j));
    Distribute(Prefix(b, j), b[j] * Weight(j), x * Weight(i));
  }

  /** Sign of the comparison; exact on normalized operands and on operands of one length. */
  method Cmp(a: Limbs, b: Limbs) returns (r: int)
    ensures r == -1 || r == 0 || r == 1
    ensures |a| == |b| || (Normalized(a) && Normalized(b)) ==>
              (r < 0 <==> Value(a) < Value(b)) && (r == 0 <==> Value(a) == Value(b))
  {
    if |a| != |b| {
      if Normalized(a) && Normalized(b) {
        LongerIsLarger(a, b);
      }
      return if |a| > |b| then 1 else -1;
    }
    for i := |a| downto 0
      invariant forall k :: i <= k < |a| ==> a[k] == b[k]
    {
      if a[i] > b[i] {
        CompareAt(b, a, i);
        return 1;
      } else if a[i] < b[i] {
        CompareAt(a, b, i);
        return -1;
      }
    }
    assert a == b;
    return 0;
  }

  lemma LongerIsLarger(a: Limbs, b: Limbs)
    requires Normalized(a) && Normalized(b) && |a| != |b|
    ensures |a| > |b| <==> Value(a) > Value(b)
    ensures Value(a) != Value(b)
  {
    var (long, short) := if |a| > |b| then (a, b) else (b, a);
    TopLimb(long);
    PrefixBound(short, |short|);
    WeightMonotone(|short|, |long| - 1);
  }

  predicate IsZero(a: Limbs)
    ensures IsZero(a) <==> Value(a) == 0
  {
    var z := forall i :: 0 <= i < |a| ==> a[i] == 0;
    assert z <==> Value(a) == 0 by {
      if z {
        ZeroPrefix(a, |a|);
      } else {
        var i :| 0 <= i < |a| && a[i] != 0;
        var rest := PrefixRest(a, i + 1, |a|);
        MulMonotone(1, a[i], Weight(i));
        assert rest * Weight(i + 1) >= 0;
      }
    }
    z
  }
}
