/** Shifts, bit access and shift-subtract division of `crypto/rsa.rs`. */
module BigUintDiv {
  import opened Arith
  import opened Bits
  import opened BigUint

  // ---- One limb shifted ----

  function ShlLimb(x: Limb, k: nat): Limb {
    (x * Pow2(k)) % BASE
  }

  function ShrLimb(x: Limb, k: nat): Limb {
    DivShrinks(x, Pow2(k));
    x / Pow2(k)
  }

  /** Shifting a limb left splits it into the part that stays and the part that moves to the next limb. */
  lemma ShlSplit(x: Limb, k: nat)
    requires k < 64
    ensures x * Pow2(k) == ShlLimb(x, k) + ShrLimb(x, 64 - k) * BASE
    ensures ShlLimb(x, k) == (x % Pow2(64 - k)) * Pow2(k) <= BASE - Pow2(k)
    ensures ShrLimb(x, 64 - k) < Pow2(k)
    ensures LowBitsClear(ShlLimb(x, k), k)
  {
    var p, q := Pow2(k), Pow2(64 - k);
    BaseSplits(k);
    var c, h := x % q, x / q;
    SplitShift(x, h, c, p, q, BASE);
    ModUnique(x * p, BASE, h, c * p);
    MultipleClearsBits(c, k);
  }

  // ---- Bits of a number ----

  predicate Bit(a: Limbs, index: nat) {
    index / 64 < |a| && (a[index / 64] / Pow2(index % 64)) % 2 == 1
  }

  lemma WeightTimesPow2(i: nat)
    ensures Weight(i / 64) * Pow2(i % 64) == Pow2(i)
    ensures Pow2(i % 64) * Weight(i / 64) == Pow2(i)
  {
    WeightIsPow2(i / 64);
    Pow2Add(64 * (i / 64), i % 64);
  }

  lemma BitOfValue(a: Limbs, i: nat)
    ensures Bit(a, i) <==> (Value(a) / Pow2(i)) % 2 == 1
  {
    var k, j := i / 64, i % 64;
    WeightTimesPow2(i);
    DivDiv(Value(a), Weight(k), Pow2(j));
    if k >= |a| {
      PrefixBound(a, |a|);
      WeightMonotone(|a|, k);
      ModUnique(Value(a), Weight(k), 0, Value(a));
      ModUnique(0, Pow2(j), 0, 0);
    } else {
      BitInside(a, k, j);
    }
  }

  lemma BitInside(a: Limbs, k: nat, j: nat)
    requires k < |a| && j < 64
    ensures (Value(a) / Weight(k) / Pow2(j)) % 2 == (a[k] / Pow2(j)) % 2
  {
    var rest := DropLimbs(a, k);
    BaseHalves(j);
    ParityOfQuotient(a[k], rest, Pow2(63 - j), Pow2(j));
  }

  /** Dividing by the weight of limb `k` drops the limbs below it. */
  lemma DropLimbs(a: Limbs, k: nat) returns (rest: nat)
    requires k < |a|
    ensures Value(a) / Weight(k) == a[k] + rest * BASE
  {
    rest := PrefixRest(a, k + 1, |a|);
    PrefixBound(a, k);
    Distribute(a[k], rest * BASE, Weight(k));
    Associate(rest, BASE, Weight(k));
    ModUnique(Value(a), Weight(k), a[k] + rest * BASE, Prefix(a, k));
  }

  method BitLength(a: Limbs) returns (n: nat)
    ensures n == BitLen(Value(a)) <= 64 * |a|
  {
    for i := |a| downto 0
      invariant forall k :: i <= k < |a| ==> a[k] == 0
    {
      if a[i] != 0 {
        n := i * 64 + BitLen(a[i]);
        LengthFromTop(a, i);
        return;
      }
    }
    ZeroPrefix(a, |a|);
    return 0;
  }

  lemma LengthFromTop(a: Limbs, i: nat)
    requires i < |a| && a[i] != 0
    requires forall k :: i < k < |a| ==> a[k] == 0
    ensures BitLen(a[i]) <= 64
    ensures BitLen(Value(a)) == 64 * i + BitLen(a[i])
  {
    var n := BitLen(a[i]);
    LimbLength(a[i]);
    var rest := PrefixRest(a, i + 1, |a|);
    PrefixBound(a, i);
    Bracket(Value(a), Prefix(a, i), a[i], Weight(i), Pow2(n - 1), Pow2(n));
    WeightIsPow2(i);
    Pow2Add(n - 1, 64 * i);
    Pow2Add(n, 64 * i);
    BitLenUnique(Value(a), 64 * i + n);
  }

  lemma LimbLength(x: Limb)
    requires x > 0
    ensures 0 < BitLen(x) <= 64 && Pow2(BitLen(x) - 1) <= x < Pow2(BitLen(x))
  {
    BitLenBounds(x);
    Pow2Values();
    if BitLen(x) > 64 {
      Pow2Monotone(64, BitLen(x) - 1);
    }
  }

  // ---- Shifts ----

  lemma ShiftNone(a: Limbs)
    ensures Value(a) * Pow2(0) == Value(a) == Value(a) / Pow2(0)
  {
  }

  method Shl(a: Limbs, bits: nat) returns (r: Limbs)
    ensures Value(r) == Value(a) * Pow2(bits)
    ensures if bits == 0 then r == a else Normalized(r)
  {
    hide Pow2, Weight, BitOr;
    if bits == 0 {
      ShiftNone(a);
      return a;
    }
    var limbShift, bitShift := bits / 64, bits % 64;
    var result: Limbs := seq(|a| + limbShift + 1, _ => 0);
    ZeroPrefix(result, limbShift + 1);
    for i := 0 to |a|
      invariant |result| == |a| + limbShift + 1
      invariant result[i + limbShift] < Pow2(bitShift)
      invariant forall k :: i + limbShift < k < |result| ==> result[k] == 0
      invariant Prefix(result, i + limbShift + 1) == Prefix(a, i) * Pow2(bits)
    {
      var idx := i + limbShift;
      ShlSplit(a[i], bitShift);
      var next := PutShifted(result, idx, a[i], bitShift);
      ShlStep(a, result, next, i, bits, ShlLimb(a[i], bitShift), ShrLimb(a[i], 64 - bitShift));
      result := next;
    }
    r := Trim(result);
  }

  /** Or the two parts of a shifted limb into positions `idx` and `idx + 1`. */
  function PutShifted(result: Limbs, idx: nat, x: Limb, k: nat): (r: Limbs)
    requires k < 64 && idx + 1 < |result| && result[idx] < Pow2(k) && result[idx + 1] == 0
    ensures result[idx] + ShlLimb(x, k) < BASE
    ensures r == result[idx := result[idx] + ShlLimb(x, k)][idx + 1 := ShrLimb(x, 64 - k)]
  {
    var low, high := ShlLimb(x, k), ShrLimb(x, 64 - k);
    ShlSplit(x, k);
    OrDisjoint(result[idx], low, k);
    OrZero(high);
    var result1 := result[idx := BitOr(result[idx], low)];
    if k > 0 && idx + 1 < |result1| then
      result1[idx + 1 := BitOr(result1[idx + 1], high)]
    else
      result1
  }

  lemma ShlStep(a: Limbs, result: Limbs, updated: Limbs, i: nat, bits: nat, low: Limb, high: Limb)
    requires i < |a| && i + bits / 64 + 1 < |result|
    requires a[i] * Pow2(bits % 64) == low + high * BASE
    requires result[i + bits / 64] + low < BASE
    requires updated == result[i + bits / 64 := result[i + bits / 64] + low][i + bits / 64 + 1 := high]
    requires Prefix(result, i + bits / 64 + 1) == Prefix(a, i) * Pow2(bits)
    ensures Prefix(updated, i + 1 + bits / 64 + 1) == Prefix(a, i + 1) * Pow2(bits)
  {
    var idx := i + bits / 64;
    PrefixSame(updated, result, idx);
    Distribute(result[idx], low, Weight(idx));
    LimbStep(a[i] * Pow2(bits % 64), 0, 0, low, high, idx);
    ShiftedWeight(a[i], i, bits);
    Distribute(Prefix(a, i), a[i] * Weight(i), Pow2(bits));
  }

  lemma ShiftedWeight(x: int, i: nat, bits: nat)
    ensures x * Pow2(bits % 64) * Weight(i + bits / 64) == x * Weight(i) * Pow2(bits)
  {
    WeightTimesPow2(bits);
    WeightAdd(i, bits / 64);
    MulShuffle(x, Pow2(bits % 64), Weight(i), Weight(bits / 64));
    assert Pow2(bits % 64) * Weight(bits / 64) == Pow2(bits);
  }

  method Shr(a: Limbs, bits: nat) returns (r: Limbs)
    ensures Value(r) == Value(a) / Pow2(bits)
    ensures if bits == 0 then r == a else Normalized(r)
  {
    hide Pow2, Weight, Digit, Value, Shifted;
    if bits == 0 {
      ShiftNone(a);
      return a;
    }
    var limbShift, bitShift := bits / 64, bits % 64;
    if limbShift >= |a| {
      ShiftedOut(a, bits);
      return [0];
    }
    var result: Limbs := seq(|a| - limbShift, _ => 0);
    ghost var first := a[limbShift] % Pow2(bitShift);
    ShrStart(a, result, limbShift, bitShift);
    for i := 0 to |result|
      invariant |result| == |a| - limbShift && Shifted(a, result, i, limbShift, bitShift, first)
    {
      var x := ShrAt(a, i + limbShift, bitShift);
      ShrStep(a, result, i, bits, x, first);
      result := result[i := x];
    }
    ShrDone(a, result, bits, first);
    r := Trim(result);
  }

  /** Limb `j` of the shifted number, `k` bits of which come from limb `j + 1`. */
  method ShrAt(a: Limbs, j: nat, k: nat) returns (x: Limb)
    requires j < |a| && k < 64
    ensures x * Pow2(k) + a[j] % Pow2(k) == a[j] + (Digit(a, j + 1) % Pow2(k)) * BASE
  {
    hide BitOr;
    x := ShrLimb(a[j], k);
    if j + 1 < |a| && k > 0 {
      ShrLimbFits(a[j], a[j + 1], k);
      x := BitOr(x, ShlLimb(a[j + 1], 64 - k));
    } else {
      ModUnique(0, Pow2(k), 0, 0);
    }
    ShrLimbValue(a[j], Digit(a, j + 1) % Pow2(k), x, k);
  }

  /** With `i` limbs done: shifted back, and with the bits lost at the bottom, they are the limbs they come from. */
  ghost predicate Shifted(a: Limbs, result: Limbs, i: nat, limbShift: nat, bitShift: nat, first: nat) {
    (Prefix(result, i) * Pow2(bitShift) + first) * Weight(limbShift) + Prefix(a, limbShift)
    == Prefix(a, i + limbShift) + (Digit(a, i + limbShift) % Pow2(bitShift)) * Weight(i + limbShift)
  }

  lemma ShrStart(a: Limbs, result: Limbs, limbShift: nat, bitShift: nat)
    requires limbShift < |a|
    ensures Shifted(a, result, 0, limbShift, bitShift, a[limbShift] % Pow2(bitShift))
  {
  }

  lemma ShiftedOut(a: Limbs, bits: nat)
    requires bits / 64 >= |a|
    ensures Value(a) / Pow2(bits) == 0 && Value([0]) == 0
  {
    PrefixBound(a, |a|);
    WeightMonotone(|a|, bits / 64);
    WeightTimesPow2(bits);
    MulMonotone(1, Pow2(bits % 64), Weight(bits / 64));
    ModUnique(Value(a), Pow2(bits), 0, Value(a));
  }

  /** The two pieces that make up a limb shifted right do not overlap. */
  lemma ShrLimbFits(x: Limb, y: Limb, k: nat)
    requires 0 < k < 64
    ensures ShrLimb(x, k) < Pow2(64 - k)
    ensures ShlLimb(y, 64 - k) == (y % Pow2(k)) * Pow2(64 - k)
    ensures BitOr(ShrLimb(x, k), ShlLimb(y, 64 - k)) == ShrLimb(x, k) + ShlLimb(y, 64 - k) < BASE
  {
    ShlSplit(x, 64 - k);
    ShlSplit(y, 64 - k);
    OrDisjoint(ShrLimb(x, k), ShlLimb(y, 64 - k), 64 - k);
  }

  lemma ShrStep(a: Limbs, result: Limbs, i: nat, bits: nat, x: Limb, first: nat)
    requires i < |result| && i + bits / 64 < |a|
    requires var j, p := i + bits / 64, Pow2(bits % 64);
             x * p + a[j] % p == a[j] + (Digit(a, j + 1) % p) * BASE
    requires Shifted(a, result, i, bits / 64, bits % 64, first)
    ensures Shifted(a, result[i := x], i + 1, bits / 64, bits % 64, first)
  {
    var j, k := i + bits / 64, bits % 64;
    var p, w, v := Pow2(k), Weight(bits / 64), Weight(i);
    var d, next := a[j], Digit(a, j + 1) % p;
    PrefixSame(result[i := x], result, i);
    WeightAdd(i, bits / 64);
    LimbStep(x * p, d % p, 0, d, next, j);
    ShrArith(Prefix(result, i), x, v, p, first, w);
  }

  lemma ShrParts(d: nat, next: nat, x: nat, p: nat, r: nat)
    requires p > 0 && r * p == BASE && x == d / p + next * r
    ensures x * p + d % p == d + next * BASE
  {
    Distribute(d / p, next * r, p);
    Associate(next, r, p);
  }

  lemma ShrLimbValue(d: Limb, next: nat, x: Limb, k: nat)
    requires k < 64 && next < Pow2(k)
    requires x == d / Pow2(k) + (if k > 0 then next * Pow2(64 - k) else 0)
    ensures x * Pow2(k) + d % Pow2(k) == d + next * BASE
  {
    if k == 0 {
      assert Pow2(0) == 1;
    } else {
      BaseSplits(k);
      ShrParts(d, next, x, Pow2(k), Pow2(64 - k));
    }
  }

  lemma ShrArith(low: int, x: int, v: int, p: int, first: int, w: int)
    ensures ((low + x * v) * p + first) * w == (low * p + first) * w + x * p * (v * w)
  {
    Distribute(low, x * v, p);
    Associate(x, v, p);
    Associate(x, p, v);
    Distribute(low * p + first, x * p * v, w);
    Associate(x * p, v, w);
    assert v * p == p * v;
  }

  lemma ShrDone(a: Limbs, result: Limbs, bits: nat, first: nat)
    requires bits / 64 < |a| && |result| == |a| - bits / 64
    requires first < Pow2(bits % 64)
    requires Shifted(a, result, |result|, bits / 64, bits % 64, first)
    ensures Value(result) == Value(a) / Pow2(bits)
  {
    var p, w := Pow2(bits % 64), Weight(bits / 64);
    PrefixBound(a, bits / 64);
    ModUnique(0, p, 0, 0);
    ModUnique(Value(a), w, Value(result) * p + first, Prefix(a, bits / 64));
    ModUnique(Value(result) * p + first, p, Value(result), first);
    DivDiv(Value(a), w, p);
    WeightTimesPow2(bits);
  }

  // ---- Division ----

  lemma ValueUpdate(a: Limbs, k: nat, x: Limb)
    requires k < |a|
    ensures Value(a[k := x]) == Value(a) + (x - a[k]) * Weight(k)
  {
    PrefixSame(a[k := x], a, k);
    SameAbove(a[k := x], a, k + 1, |a|);
    Distribute(x, a[k], Weight(k));
  }

  /** Setting bit `i` of a number in which it is clear adds 2^i. */
  lemma SetBit(a: Limbs, i: nat)
    requires i / 64 < |a| && (Value(a) / Pow2(i)) % 2 == 0
    ensures BitOr(a[i / 64], Pow2(i % 64)) < BASE
    ensures Value(a[i / 64 := BitOr(a[i / 64], Pow2(i % 64))]) == Value(a) + Pow2(i)
  {
    var k, j := i / 64, i % 64;
    BitOfValue(a, i);
    OrClearBit(a[k], j);
    BitBelowBase(a[k], j);
    var x := a[k] + Pow2(j);
    ValueUpdate(a, k, x);
    assert x - a[k] == Pow2(j);
    WeightTimesPow2(i);
  }

  lemma BitBelowBase(x: Limb, j: nat)
    requires j < 64 && (x / Pow2(j)) % 2 == 0
    ensures x + Pow2(j) < BASE
  {
    BaseHalves(j);
    EvenQuotientFits(x, Pow2(j), Pow2(63 - j), BASE);
  }

  lemma EvenQuotientFits(x: nat, p: nat, half: nat, base: nat)
    requires p > 0 && (x / p) % 2 == 0 && 2 * half * p == base && x < base
    ensures x + p < base
  {
    var q := x / p;
    MulCancel(q, 2 * half, p);
    MulMonotone(q + 2, 2 * half, p);
    Distribute(q, 2, p);
  }

  /** A number with its lowest bit filled in. */
  lemma FillLowBit(a: Limbs, bit: nat)
    requires |a| > 0 && Value(a) % 2 == 0 && bit <= 1
    ensures BitOr(a[0], bit) < BASE
    ensures Value(a[0 := BitOr(a[0], bit)]) == Value(a) + bit
    ensures Normalized(a) ==> Normalized(a[0 := BitOr(a[0], bit)])
  {
    if bit == 0 {
      OrZero(a[0]);
      assert a[0 := a[0]] == a;
    } else {
      assert Pow2(0) == 1;
      SetBit(a, 0);
    }
  }

  /** Double a number and add a bit. */
  method ShiftIn(a: Limbs, bit: nat) returns (r: Limbs)
    requires bit <= 1
    ensures Value(r) == 2 * Value(a) + bit && Normalized(r)
  {
    r := Shl(a, 1);
    assert Pow2(1) == 2;
    FillLowBit(r, bit);
    r := r[0 := BitOr(r[0], bit)];
  }

  /**
   * Schoolbook binary division of `x` by `b` with the bits of `x` from `n` down to `i` taken in:
   * the quotient so far, already in its final position, and the remainder so far.
   */
  ghost function LongDivision(x: nat, b: nat, n: nat, i: nat): (nat, nat)
    requires i <= n
    decreases n - i
  {
    if i == n then (0, 0) else
      var (q, r) := LongDivision(x, b, n, i + 1);
      var r2 := 2 * r + BitAt(x, i);
      if r2 >= b then (q + Pow2(i), r2 - b) else (q, r2)
  }

  lemma LongDivisionStep(x: nat, b: nat, n: nat, i: nat, q: nat, r: nat, bit: nat)
    requires i < n && LongDivision(x, b, n, i + 1) == (q, r) && bit == BitAt(x, i)
    ensures 2 * r + bit >= b ==> LongDivision(x, b, n, i) == (q + Pow2(i), 2 * r + bit - b)
    ensures 2 * r + bit < b ==> LongDivision(x, b, n, i) == (q, 2 * r + bit)
  {
  }

  ghost function BitAt(x: nat, i: nat): nat {
    (x / Pow2(i)) % 2
  }

  /** Long division divides. */
  lemma {:induction false} LongDivisionDivides(x: nat, b: nat, n: nat, i: nat) returns (top: nat)
    requires i <= n && b > 0 && x < Pow2(n)
    ensures var (q, r) := LongDivision(x, b, n, i);
            q == top * Pow2(i) && x / Pow2(i) == top * b + r && r < b
    decreases n - i
  {
    if i == n {
      top := 0;
      ModUnique(x, Pow2(n), 0, x);
    } else {
      var t := LongDivisionDivides(x, b, n, i + 1);
      var (q, r) := LongDivision(x, b, n, i + 1);
      DivDiv(x, Pow2(i), 2);
      var r2 := 2 * r + BitAt(x, i);
      top := if r2 >= b then 2 * t + 1 else 2 * t;
      DoubleQuotient(t, b, Pow2(i));
    }
  }

  lemma DoubleQuotient(t: int, b: int, p: int)
    ensures 2 * t * b == 2 * (t * b) && (2 * t + 1) * b == 2 * (t * b) + b
    ensures t * (2 * p) == 2 * t * p && (2 * t + 1) * p == 2 * t * p + p
  {
  }

  /** The position that long division is about to fill is still clear. */
  lemma NextBitClear(x: nat, b: nat, n: nat, i: nat)
    requires i < n && b > 0 && x < Pow2(n)
    ensures (LongDivision(x, b, n, i + 1).0 / Pow2(i)) % 2 == 0
  {
    var t := LongDivisionDivides(x, b, n, i + 1);
    DoubleQuotient(t, b, Pow2(i));
    ModUnique(LongDivision(x, b, n, i + 1).0, Pow2(i), 2 * t, 0);
  }

  lemma LongDivisionResult(x: nat, b: nat, n: nat)
    requires b > 0 && x < Pow2(n)
    ensures var (q, r) := LongDivision(x, b, n, 0);
            q * b + r == x && r < b
  {
    var top := LongDivisionDivides(x, b, n, 0);
    assert Pow2(0) == 1;
  }

  method DivRem(a: Limbs, b: Limbs) returns (quotient: Limbs, rem: Limbs)
    requires IsZero(b) || Normalized(b)
    ensures IsZero(b) ==> quotient == [0] && rem == a
    ensures !IsZero(b) ==> Normalized(quotient) && Normalized(rem)
    ensures !IsZero(b) ==> Value(quotient) * Value(b) + Value(rem) == Value(a) && Value(rem) < Value(b)
  {
    hide Value, BitOr, BitLen, Pow2;
    if IsZero(b) {
      return [0], a;
    }
    var q: Limbs := seq(if |a| > 1 then |a| else 1, _ => 0);
    rem := [0];
    var n := BitLength(a);
    DivStart(a, q);
    for i := n downto 0
      invariant |q| == (if |a| > 1 then |a| else 1)
      invariant Normalized(rem)
      invariant (Value(q), Value(rem)) == LongDivision(Value(a), Value(b), n, i)
    {
      var bit := if Bit(a, i) then 1 else 0;
      BitOfValue(a, i);
      LongDivisionStep(Value(a), Value(b), n, i, Value(q), Value(rem), bit);
      rem := ShiftIn(rem, bit);
      var c := Cmp(rem, b);
      if c >= 0 {
        rem := Sub(rem, b);
        NextBitClear(Value(a), Value(b), n, i);
        SetBit(q, i);
        q := q[i / 64 := BitOr(q[i / 64], Pow2(i % 64))];
      }
    }
    LongDivisionResult(Value(a), Value(b), n);
    quotient := Trim(q);
  }

  lemma DivStart(a: Limbs, q: Limbs)
    requires forall k :: 0 <= k < |q| ==> q[k] == 0
    ensures Value(q) == 0 && Value([0]) == 0
    ensures Value(a) < Pow2(BitLen(Value(a)))
  {
    ZeroPrefix(q, |q|);
    ZeroPrefix([0], 1);
    if Value(a) > 0 {
      BitLenBounds(Value(a));
    }
  }

  method Div(a: Limbs, b: Limbs) returns (r: Limbs)
    requires IsZero(b) || Normalized(b)
    ensures Normalized(r)
    ensures Value(r) == if Value(b) == 0 then 0 else Value(a) / Value(b)
  {
    var q, m := DivRem(a, b);
    r := q;
    ZeroPrefix([0], 1);
    if !IsZero(b) {
      ModUnique(Value(a), Value(b), Value(q), Value(m));
    }
  }

  /** Reduction modulo `b`; a zero modulus leaves the number as it is. */
  method Mod(a: Limbs, b: Limbs) returns (r: Limbs)
    requires IsZero(b) || Normalized(b)
    ensures Value(r) == if Value(b) == 0 then Value(a) else Value(a) % Value(b)
    ensures if IsZero(b) then r == a else Normalized(r)
  {
    var q, m := DivRem(a, b);
    r := m;
    if !IsZero(b) {
      ModUnique(Value(a), Value(b), Value(q), Value(m));
    }
  }
}
