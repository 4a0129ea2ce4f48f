/** RSA keys and the operations on them in `crypto/rsa.rs`. */
module Rsa {
  import opened Arith
  import opened NumberTheory
  import opened Bytes
  import opened BigUint
  import opened BigUintDiv
  import opened BigUintMod
  import opened BigUintBytes
  import opened RsaPadding

  datatype PublicKey = PublicKey(n: Limbs, e: Limbs)

  datatype PrivateKey = PrivateKey(
    n: Limbs, e: Limbs, d: Limbs, p: Limbs, q: Limbs, dp: Limbs, dq: Limbs, qi: Limbs)
  {
    predicate Normal() {
      && Normalized(n) && Normalized(e) && Normalized(d) && Normalized(p)
      && Normalized(q) && Normalized(dp) && Normalized(dq) && Normalized(qi)
    }
  }

  /** The numbers of a key are related as section 3.2 of RFC 8017 asks. */
  ghost predicate KeyNumbers(n: nat, e: nat, d: nat, p: nat, q: nat, dp: nat, dq: nat, qi: nat) {
    && Prime(p) && Prime(q) && p > 2 && q > 2 && p != q
    && n == p * q
    && (p - 1) * (q - 1) > 0
    && Cong(e * d, 1, (p - 1) * (q - 1))
    && dp == d % (p - 1) && dq == d % (q - 1)
    && Cong(qi * q, 1, p)
  }

  ghost predicate ValidKey(key: PrivateKey) {
    && key.Normal()
    && KeyNumbers(Value(key.n), Value(key.e), Value(key.d), Value(key.p), Value(key.q),
                  Value(key.dp), Value(key.dq), Value(key.qi))
  }

  // ---- Decryption by the Chinese remainder theorem ----

  /** Garner's formula for the number that is m1 modulo p and m2 modulo q, with qi = 1/q modulo p. */
  ghost function Garner(m1: int, m2: int, qi: int, p: nat, q: nat): int
    requires p > 0
  {
    m2 + ((qi * (m1 - m2)) % p) * q
  }

  /** What decryption computes before unpadding: the two half-size powers, combined. */
  ghost function CrtValue(c: int, p: nat, q: nat, dp: nat, dq: nat, qi: nat): int
    requires p > 0
  {
    Garner(PowerMod(c, dp, p), PowerMod(c, dq, q), qi, p, q)
  }

  method Combine(m1: Limbs, m2: Limbs, qi: Limbs, p: Limbs, q: Limbs) returns (m: Limbs)
    requires Normalized(m1) && Normalized(m2) && Normalized(p) && !IsZero(p)
    ensures Normalized(m)
    ensures Value(m) == Garner(Value(m1), Value(m2), Value(qi), Value(p), Value(q))
  {
    var diff := Difference(m1, m2, p);
    var product := Mul(qi, diff);
    CongMul(Value(qi), Value(qi), Value(diff), Value(m1) - Value(m2), Value(p));
    var h := Mod(product, p);
    var hq := Mul(h, q);
    m := Add(m2, hq);
  }

  /** The two half-size exponentiations, combined; for a valid key that is c^d mod n (section 5.1.2 of RFC 8017). */
  method PrivatePower(key: PrivateKey, c: Limbs) returns (m: Limbs)
    requires key.Normal() && !IsZero(key.p)
    ensures Normalized(m)
    ensures Value(m) == CrtValue(Value(c), Value(key.p), Value(key.q), Value(key.dp), Value(key.dq), Value(key.qi))
    ensures ValidKey(key) ==> Value(m) == Pow(Value(c), Value(key.d)) % Value(key.n)
  {
    var m1 := ModExp(c, key.dp, key.p);
    var m2 := ModExp(c, key.dq, key.q);
    m := Combine(m1, m2, key.qi, key.p, key.q);
    if ValidKey(key) {
      CrtIsPower(Value(c), Value(key.n), Value(key.e), Value(key.d), Value(key.p), Value(key.q),
                 Value(key.dp), Value(key.dq), Value(key.qi));
    }
  }

  /** Combining the two half-size powers gives the full power modulo n. */
  lemma CrtIsPower(c: nat, n: nat, e: nat, d: nat, p: nat, q: nat, dp: nat, dq: nat, qi: nat)
    requires KeyNumbers(n, e, d, p, q, dp, dq, qi)
    ensures n > 0 && CrtValue(c, p, q, dp, dq, qi) == Pow(c, d) % n
  {
    hide Pow, PowerMod, Cong, Prime;
    var m1, m2 := PowerMod(c, dp, p), PowerMod(c, dq, q);
    HalfPower(c, e, d, p, q, m1);
    assert (q - 1) * (p - 1) == (p - 1) * (q - 1);
    HalfPower(c, e, d, q, p, m2);
    CongMod(qi * (m1 - m2), p);
    Recombine(m1, m2, (qi * (m1 - m2)) % p, qi, p, q, Pow(c, d));
  }

  /** m1 - m2 modulo p, by the branch the sign calls for. */
  method Difference(m1: Limbs, m2: Limbs, p: Limbs) returns (diff: Limbs)
    requires Normalized(m1) && Normalized(m2) && Normalized(p) && !IsZero(p)
    ensures Normalized(diff) && Cong(Value(diff), Value(m1) - Value(m2), Value(p))
  {
    var sign := Cmp(m1, m2);
    if sign >= 0 {
      diff := Sub(m1, m2);
    } else {
      var excess := Sub(m2, m1);
      ghost var x := Value(excess);
      excess := Mod(excess, p);
      diff := Sub(p, excess);
      CongMod(x, Value(p));
      CongFromDiff(Value(p), 0, 1, Value(p));
      CongAdd(Value(p), 0, Value(excess), x, Value(p));
    }
  }

  /** The power computed with the exponent reduced modulo p - 1 is the full power modulo p. */
  lemma HalfPower(c: nat, e: nat, d: nat, p: nat, q: nat, r: int)
    requires Prime(p) && p > 2 && q > 2 && (p - 1) * (q - 1) > 0 && Cong(e * d, 1, (p - 1) * (q - 1))
    requires r == PowerMod(c, d % (p - 1), p)
    ensures 0 <= r < p && Cong(r, Pow(c, d), p)
  {
    ReducedExponentPositive(e, d, p, q);
    PowExponentMod(c, d, p);
    CongMod(Pow(c, d % (p - 1)), p);
  }

  /** Garner's recombination finds the one residue modulo p*q that agrees with both halves. */
  lemma Recombine(m1: int, m2: int, h: int, qi: int, p: int, q: int, x: int)
    requires Prime(p) && Prime(q) && p != q
    requires 0 <= m2 < q && 0 <= h < p
    requires Cong(qi * q, 1, p) && Cong(h, qi * (m1 - m2), p)
    requires Cong(m1, x, p) && Cong(m2, x, q)
    ensures p * q > 0 && m2 + h * q == x % (p * q)
  {
    var m := m2 + h * q;
    MulMonotone(0, h, q);
    MulMonotone(h, p - 1, q);
    Distribute(p, 1, q);
    CongFromDiff(m, m2, h, q);
    GarnerModP(m1, m2, h, qi, p, q);
    CrtUnique(m, x, p, q);
    ModUnique(m, p * q, 0, m);
  }

  lemma GarnerModP(m1: int, m2: int, h: int, qi: int, p: int, q: int)
    requires p > 0 && Cong(qi * q, 1, p) && Cong(h, qi * (m1 - m2), p)
    ensures Cong(m2 + h * q, m1, p)
  {
    var d := m1 - m2;
    CongMul(h, qi * d, q, q, p);
    Associate(qi, q, d);
    CongMul(qi * q, 1, d, d, p);
    assert qi * d * q == qi * q * d by {
      Associate(qi, d, q);
      assert d * q == q * d;
    }
    CongAdd(m2, m2, h * q, d, p);
  }

  // ---- Encryption and decryption of messages ----

  /** What `encrypt` returns, for filler bytes drawn from `filler`. */
  ghost function Ciphertext(plaintext: seq<Byte>, n: nat, e: nat, filler: nat -> Byte): seq<Byte> {
    PowerBytes(EncryptPadded(plaintext, ByteLength(n), filler), e, n)
  }

  /** The bytes of x^e mod n, where x is spelled by `s`. */
  ghost function PowerBytes(s: seq<Byte>, e: nat, n: nat): seq<Byte> {
    PowerModNatural(BigEndian(s), e, n);
    MinimalBytes(PowerMod(BigEndian(s), e, n))
  }

  lemma PowerModNatural(x: nat, e: nat, n: nat)
    ensures PowerMod(x, e, n) >= 0
  {
    PowNatural(x, e);
  }

  lemma {:induction false} PowNatural(x: nat, e: nat)
    ensures Pow(x, e) >= 0
  {
    if e > 0 {
      PowNatural(x, e - 1);
    }
  }

  method Encrypt(key: PublicKey, plaintext: seq<Byte>, filler: nat -> Byte) returns (c: seq<Byte>)
    requires Normalized(key.n)
    ensures c == Ciphertext(plaintext, Value(key.n), Value(key.e), filler)
  {
    var keyLen := ByteLen(key.n);
    var padded := EncryptPad(plaintext, keyLen, filler);
    var m := FromBytes(padded);
    var x := ModExp(m, key.e, key.n);
    c := ToBytes(x);
  }

  method Decrypt(key: PrivateKey, ciphertext: seq<Byte>) returns (r: seq<Byte>)
    requires key.Normal() && !IsZero(key.p)
    ensures exists m: nat ::
              && m == CrtValue(BigEndian(ciphertext), Value(key.p), Value(key.q), Value(key.dp), Value(key.dq),
                               Value(key.qi))
              && r == Unpad(MinimalBytes(m))
    ensures ValidKey(key) ==> r == Unpad(PowerBytes(ciphertext, Value(key.d), Value(key.n)))
  {
    var c := FromBytes(ciphertext);
    var m := PrivatePower(key, c);
    var recovered := ToBytes(m);
    if ValidKey(key) {
      ExponentPositive(Value(key.e), Value(key.d), Value(key.p), Value(key.q));
    }
    r := Unpad(recovered);
  }

  lemma ExponentPositive(e: nat, d: nat, p: nat, q: nat)
    requires p > 2 && q > 2 && (p - 1) * (q - 1) > 0 && Cong(e * d, 1, (p - 1) * (q - 1))
    ensures e > 0 && d > 0 && p * q > 0
  {
    MulMonotone(2, p - 1, q - 1);
    MulMonotone(2, p, q);
    ModUnique(1, (p - 1) * (q - 1), 0, 1);
    ModUnique(0, (p - 1) * (q - 1), 0, 0);
    assert e == 0 || d == 0 ==> e * d == 0;
  }

  /** Undoing one exponent with the other recovers the bytes of any message below the modulus. */
  lemma PowerBytesUndo(s: seq<Byte>, a: nat, b: nat, p: nat, q: nat)
    requires Prime(p) && Prime(q) && p > 2 && q > 2 && p != q
    requires (p - 1) * (q - 1) > 0 && Cong(a * b, 1, (p - 1) * (q - 1))
    requires p * q > 0 && BigEndian(s) < p * q
    ensures PowerBytes(PowerBytes(s, a, p * q), b, p * q) == MinimalBytes(BigEndian(s))
  {
    var n, x := p * q, BigEndian(s);
    ExponentPositive(a, b, p, q);
    PowNatural(x, a);
    var y := Pow(x, a) % n;
    MinimalBytesSpell(y);
    CongMod(Pow(x, a), n);
    CongPow(y, Pow(x, a), b, n);
    RsaExponents(x, a, b, p, q);
    ModUnique(x, n, 0, x);
  }
}
