/** Signatures of `crypto/rsa.rs`, and what encryption and signatures promise end to end. */
module RsaSignature {
  import opened Arith
  import opened Bits
  import opened NumberTheory
  import opened Bytes
  import opened BigUint
  import opened BigUintDiv
  import opened BigUintMod
  import opened BigUintBytes
  import opened RsaPadding
  import opened RsaPss
  import opened Rsa
  import opened Wrappers

  // ---- Encryption ----

  /** A message that starts with a zero byte and is as long as the modulus is below the modulus. */
  lemma ZeroByteBelowModulus(em: seq<Byte>, n: nat)
    requires n > 0 && |em| == ByteLength(n) && em != [] && em[0] == 0
    ensures BigEndian(em) < n
  {
    BigEndianDropZero(em);
    BigEndianBound(em[1..]);
    ByteLengthBounds(n);
  }

  /** Dropping the leading zero of an encoded message is what conversion to an integer and back does. */
  lemma ConversionDropsZero(em: seq<Byte>)
    requires |em| >= 2 && em[0] == 0 && em[1] != 0
    ensures MinimalBytes(BigEndian(em)) == em[1..]
  {
    BigEndianDropZero(em);
    SpellingIsMinimal(em[1..]);
  }

  /** Decryption inverts encryption exactly on the messages that fit the modulus, and on the empty one. */
  lemma DecryptEncrypt(key: PrivateKey, plaintext: seq<Byte>, filler: nat -> Byte)
    requires ValidKey(key) && forall i :: filler(i) != 0
    ensures Unpad(PowerBytes(Ciphertext(plaintext, Value(key.n), Value(key.e), filler), Value(key.d), Value(key.n)))
            == plaintext
            <==> |plaintext| + 3 <= ByteLength(Value(key.n)) || plaintext == []
  {
    var n, e, d := Value(key.n), Value(key.e), Value(key.d);
    var padded := EncryptPadded(plaintext, ByteLength(n), filler);
    ExponentPositive(e, d, Value(key.p), Value(key.q));
    if |plaintext| + 3 <= ByteLength(n) {
      ZeroByteBelowModulus(padded, n);
      ConversionDropsZero(padded);
      UnpadEncryptPadded(plaintext, ByteLength(n), filler);
    } else {
      MinimalOfZero();
    }
    PowerBytesUndo(padded, e, d, Value(key.p), Value(key.q));
  }

  lemma MinimalOfZero()
    ensures |MinimalBytes(0)| == 1
  {
  }

  // ---- Signatures ----

  /** An encoded message raised to the private exponent, at full modulus length. */
  ghost function Signature(em: seq<Byte>, d: nat, n: nat): seq<Byte> {
    LeftPad(PowerBytes(em, d, n), ByteLength(n))
  }

  method SignEncoded(key: PrivateKey, em: seq<Byte>) returns (signature: seq<Byte>)
    requires Normalized(key.n)
    ensures signature == Signature(em, Value(key.d), Value(key.n))
  {
    var m := FromBytes(em);
    var s := ModExp(m, key.d, key.n);
    var raw := ToBytes(s);
    var keyLen := ByteLen(key.n);
    signature := LeftPad(raw, keyLen);
  }

  method SignPkcs(key: PrivateKey, digest: seq<Byte>) returns (r: Result<seq<Byte>>)
    requires Normalized(key.n)
    ensures r.Ok? <==> PkcsFits(digest, ByteLength(Value(key.n)))
    ensures r.Ok? ==> r.value == Signature(PkcsMessage(digest, ByteLength(Value(key.n))), Value(key.d), Value(key.n))
  {
    var keyLen := ByteLen(key.n);
    var padded := SignPad(digest, keyLen);
    if padded.Err? {
      return padded;
    }
    var s := SignEncoded(key, padded.value);
    return Ok(s);
  }

  ghost predicate PkcsFits(digest: seq<Byte>, keyLen: nat) {
    |digest| in {20, 32, 48, 64} && keyLen >= |DigestInfo(|digest|)| + |digest| + 3
  }

  ghost function PkcsMessage(digest: seq<Byte>, keyLen: nat): (em: seq<Byte>)
    requires PkcsFits(digest, keyLen)
    ensures |em| == keyLen
  {
    [0x00] + SignEncoding(digest, keyLen - |DigestInfo(|digest|)| - |digest| - 3)
  }

  ghost predicate PkcsAccepts(digest: seq<Byte>, signature: seq<Byte>, e: nat, n: nat) {
    var recovered := PowerBytes(signature, e, n);
    |recovered| >= |digest| + 10 && exists ffs: nat :: recovered == SignEncoding(digest, ffs)
  }

  method VerifyPkcs(key: PublicKey, digest: seq<Byte>, signature: seq<Byte>) returns (ok: bool)
    requires Normalized(key.n)
    ensures ok <==> PkcsAccepts(digest, signature, Value(key.e), Value(key.n))
  {
    var s := FromBytes(signature);
    var m := ModExp(s, key.e, key.n);
    var recovered := ToBytes(m);
    ok := VerifyPad(recovered, digest);
  }

  /** The public exponent recovers the encoded message from its signature. */
  lemma RecoverSigned(key: PrivateKey, em: seq<Byte>)
    requires ValidKey(key) && BigEndian(em) < Value(key.n)
    ensures PowerBytes(Signature(em, Value(key.d), Value(key.n)), Value(key.e),
                       Value(key.n)) == MinimalBytes(BigEndian(em))
  {
    RecoverPower(em, Value(key.e), Value(key.d), Value(key.p), Value(key.q));
  }

  lemma RecoverPower(em: seq<Byte>, e: nat, d: nat, p: nat, q: nat)
    requires Prime(p) && Prime(q) && p > 2 && q > 2 && p != q && (p - 1) * (q - 1) > 0
    requires Cong(e * d, 1, (p - 1) * (q - 1)) && p * q > 0 && BigEndian(em) < p * q
    ensures PowerBytes(Signature(em, d, p * q), e, p * q) == MinimalBytes(BigEndian(em))
  {
    LeftPadValue(PowerBytes(em, d, p * q), ByteLength(p * q));
    assert e * d == d * e;
    PowerBytesUndo(em, d, e, p, q);
  }

  /**
   * A signature on `digest` is accepted for `other` exactly when both give the same DigestInfo
   * string; the prefix is chosen by length alone, so for supported lengths that means other == digest.
   */
  lemma SignVerifyPkcs(key: PrivateKey, digest: seq<Byte>, other: seq<Byte>)
    requires ValidKey(key) && PkcsFits(digest, ByteLength(Value(key.n)))
    ensures var signature := Signature(PkcsMessage(digest, ByteLength(Value(key.n))), Value(key.d), Value(key.n));
            PkcsAccepts(other, signature, Value(key.e), Value(key.n)) <==>
              && DigestInfo(|other|) + other == DigestInfo(|digest|) + digest
              && ByteLength(Value(key.n)) >= |other| + 11
  {
    hide Value, DigestInfo, BigEndian, MinimalBytes, Prime;
    var n, keyLen := Value(key.n), ByteLength(Value(key.n));
    var em := PkcsMessage(digest, keyLen);
    var ffs := keyLen - |DigestInfo(|digest|)| - |digest| - 3;
    ExponentPositive(Value(key.e), Value(key.d), Value(key.p), Value(key.q));
    ZeroByteBelowModulus(em, n);
    RecoverSigned(key, em);
    ConversionDropsZero(em);
    assert em[1..] == SignEncoding(digest, ffs);
    SameEncoding(digest, other, ffs);
  }

  lemma EncodingParts(digest: seq<Byte>, ffs: nat)
    ensures var s := SignEncoding(digest, ffs);
            && |s| > ffs + 1 && s[0] == 0x01 && s[ffs + 1] == 0x00 && (forall j :: 1 <= j < ffs + 1 ==> s[j] == 0xff)
            && s[ffs + 2..] == DigestInfo(|digest|) + digest
  {
    hide DigestInfo;
  }

  lemma SameEncoding(digest: seq<Byte>, other: seq<Byte>, ffs: nat)
    ensures (exists k: nat :: SignEncoding(digest, ffs) == SignEncoding(other, k)) <==>
              DigestInfo(|other|) + other == DigestInfo(|digest|) + digest
  {
    hide DigestInfo, SignEncoding;
    EncodingParts(digest, ffs);
    EncodingAt(SignEncoding(digest, ffs), other, ffs + 1);
  }

  /** Among digests of supported length, a signature is accepted for the signed digest and no other. */
  lemma SignVerifyPkcsSupported(key: PrivateKey, digest: seq<Byte>, other: seq<Byte>)
    requires ValidKey(key) && PkcsFits(digest, ByteLength(Value(key.n)))
    requires |other| in {20, 32, 48, 64}
    ensures var signature := Signature(PkcsMessage(digest, ByteLength(Value(key.n))), Value(key.d), Value(key.n));
            PkcsAccepts(other, signature, Value(key.e), Value(key.n)) <==> other == digest
  {
    SignVerifyPkcs(key, digest, other);
    var a, b := DigestInfo(|other|), DigestInfo(|digest|);
    if a + other == b + digest {
      assert |a| + |other| == |a + other| == |b + digest| == |b| + |digest|;
      assert other == (a + other)[|a|..] && digest == (b + digest)[|b|..];
    }
  }

  // ---- PSS ----

  method SignPss(hash: Hash, key: PrivateKey, digest: seq<Byte>, salt: seq<Byte>) returns (r: Result<seq<Byte>>)
    requires Normalized(key.n)
    ensures r.Ok? <==> PssFits(digest, |salt|, Value(key.n))
    ensures r.Ok? ==> r.value == Signature(PssMessage(hash, digest, salt, Value(key.n)), Value(key.d), Value(key.n))
  {
    var keyLen := ByteLen(key.n);
    var bits := BitLength(key.n);
    var padded := PssEncode(hash, digest, keyLen, bits, salt);
    if padded.Err? {
      return padded;
    }
    var s := SignEncoded(key, padded.value);
    return Ok(s);
  }

  ghost predicate PssFits(digest: seq<Byte>, saltLen: nat, n: nat) {
    && |digest| == 32 && saltLen + 34 <= ByteLength(n) && BitLen(n) > 0
    && KeptBits(ByteLength(n), BitLen(n)) > 0
  }

  ghost function PssMessage(hash: Hash, digest: seq<Byte>, salt: seq<Byte>, n: nat): (em: seq<Byte>)
    requires PssFits(digest, |salt|, n)
    ensures |em| == ByteLength(n)
  {
    PssEncoding(hash, digest, salt, ByteLength(n) - 33, KeptBits(ByteLength(n), BitLen(n)))
  }

  ghost predicate PssAccepts(hash: Hash, digest: seq<Byte>, signature: seq<Byte>, saltLen: nat, e: nat, n: nat) {
    && |signature| == ByteLength(n)
    && Accepted(hash, PowerBytes(signature, e, n), digest, ByteLength(n), BitLen(n), saltLen)
  }

  method VerifyPss(hash: Hash, key: PublicKey, digest: seq<Byte>, signature: seq<Byte>, saltLen: nat) returns (ok: bool)
    requires Normalized(key.n)
    ensures ok <==> PssAccepts(hash, digest, signature, saltLen, Value(key.e), Value(key.n))
  {
    var keyLen := ByteLen(key.n);
    if |signature| != keyLen {
      return false;
    }
    var s := FromBytes(signature);
    var m := ModExp(s, key.e, key.n);
    var recovered := ToBytes(m);
    var bits := BitLength(key.n);
    ok := PssVerify(hash, recovered, digest, keyLen, bits, saltLen);
  }

  /** Clearing the top bits keeps the encoded message numerically below the modulus. */
  lemma PssBelowModulus(em: seq<Byte>, n: nat)
    requires n > 0 && |em| == ByteLength(n) && em != []
    requires em[0] < Pow2(KeptBits(ByteLength(n), BitLen(n)))
    ensures BigEndian(em) < n
  {
    var k, kept := ByteLength(n), KeptBits(ByteLength(n), BitLen(n));
    BitLenBounds(n);
    BigEndianSplit(em);
    BigEndianBound(em[1..]);
    Bracket(BigEndian(em), BigEndian(em[1..]), em[0], ByteWeight(k - 1), 0, Pow2(kept));
    ByteWeightIsPow2(k - 1);
    Pow2Add(kept, 8 * (k - 1));
    Pow2Monotone(kept + 8 * (k - 1), BitLen(n) - 1);
  }

  /** After eight zeros and before the salt, the two digests have the same hash. */
  ghost predicate HashAlike(hash: Hash, x: seq<Byte>, y: seq<Byte>, salt: seq<Byte>) {
    hash([0, 0, 0, 0, 0, 0, 0, 0] + x + salt) == hash([0, 0, 0, 0, 0, 0, 0, 0] + y + salt)
  }

  /** With this salt, no two digests have the same hash. */
  ghost predicate CollisionFree(hash: Hash, salt: seq<Byte>) {
    forall x, y :: |x| == |y| == 32 && HashAlike(hash, x, y, salt) ==> x == y
  }

  /** There is such a hash: one that returns the digest itself. */
  lemma CollisionFreeHash(salt: seq<Byte>)
    ensures exists hash: Hash :: CollisionFree(hash, salt)
  {
    var hash: Hash := (m: seq<Byte>) => if |m| >= 40 then m[8..40] else Repeat(0, 32);
    forall x: seq<Byte>, y: seq<Byte> | |x| == |y| == 32 && HashAlike(hash, x, y, salt)
      ensures x == y
    {
      assert ([0, 0, 0, 0, 0, 0, 0, 0] + x + salt)[8..40] == x;
      assert ([0, 0, 0, 0, 0, 0, 0, 0] + y + salt)[8..40] == y;
    }
    assert CollisionFree(hash, salt);
  }

  /**
   * A PSS signature on `digest` verifies for `other` and `saltLen` exactly when the salt length is
   * the one used and the two digests hash alike with the salt; so it verifies for its own digest,
   * and a wrong salt length is always rejected. This holds for any hash, salt and modulus on which signing succeeds.
   */
  lemma SignVerifyPss(hash: Hash, key: PrivateKey, digest: seq<Byte>, salt: seq<Byte>, other: seq<Byte>, saltLen: nat)
    requires ValidKey(key) && PssFits(digest, |salt|, Value(key.n))
    ensures PssAccepts(hash, other, Signature(PssMessage(hash, digest, salt, Value(key.n)), Value(key.d), Value(key.n)),
                       saltLen, Value(key.e), Value(key.n))
            <==> |other| == 32 && saltLen == |salt| && HashAlike(hash, other, digest, salt)
  {
    hide HashAlike;
    var n, keyLen := Value(key.n), ByteLength(Value(key.n));
    PssRecovered(hash, key, digest, salt);
    var signature := Signature(PssMessage(hash, digest, salt, n), Value(key.d), n);
    AcceptedWhen(hash, PowerBytes(signature, Value(key.e), n), digest, salt, other, saltLen, keyLen, BitLen(n));
  }

  /** So, for a hash without collisions, it verifies for the signed digest and salt length and for nothing else. */
  lemma SignVerifyPssOnly(hash: Hash, key: PrivateKey, digest: seq<Byte>, salt: seq<Byte>, other: seq<Byte>,
                          saltLen: nat)
    requires ValidKey(key) && PssFits(digest, |salt|, Value(key.n)) && CollisionFree(hash, salt)
    ensures PssAccepts(hash, other, Signature(PssMessage(hash, digest, salt, Value(key.n)), Value(key.d), Value(key.n)),
                       saltLen, Value(key.e), Value(key.n))
            <==> other == digest && saltLen == |salt|
  {
    hide PssAccepts, PssMessage, Signature, ValidKey, Value;
    SignVerifyPss(hash, key, digest, salt, other, saltLen);
  }

  lemma AcceptedWhen(hash: Hash, recovered: seq<Byte>, digest: seq<Byte>, salt: seq<Byte>, other: seq<Byte>,
                     saltLen: nat, keyLen: nat, bits: nat)
    requires |salt| + 34 <= keyLen && KeptBits(keyLen, bits) > 0 && |recovered| <= keyLen
    requires LeftPad(recovered, keyLen) == PssEncoding(hash, digest, salt, keyLen - 33, KeptBits(keyLen, bits))
    ensures Accepted(hash, recovered, other, keyLen, bits, saltLen) <==>
              |other| == 32 && saltLen == |salt| && HashAlike(hash, other, digest, salt)
  {
    hide PssEncoding, LeftPad;
    if saltLen + 34 <= keyLen {
      EncodingPassesFor(hash, LeftPad(recovered, keyLen), digest, salt, keyLen - 33, KeptBits(keyLen, bits), other,
                        saltLen);
    }
  }

  /** Verification recovers, after padding, exactly the message that was signed. */
  lemma PssRecovered(hash: Hash, key: PrivateKey, digest: seq<Byte>, salt: seq<Byte>)
    requires ValidKey(key) && PssFits(digest, |salt|, Value(key.n))
    ensures var n := Value(key.n);
            var em := PssMessage(hash, digest, salt, n);
            var signature := Signature(em, Value(key.d), n);
            && |signature| == ByteLength(n)
            && |PowerBytes(signature, Value(key.e), n)| <= ByteLength(n)
            && LeftPad(PowerBytes(signature, Value(key.e), n), ByteLength(n)) == em
  {
    var n, keyLen := Value(key.n), ByteLength(Value(key.n));
    var em := PssMessage(hash, digest, salt, n);
    ExponentPositive(Value(key.e), Value(key.d), Value(key.p), Value(key.q));
    PssFirstByte(hash, digest, salt, keyLen - 33, KeptBits(keyLen, BitLen(n)));
    PssBelowModulus(em, n);
    RecoverSigned(key, em);
    LeftPadMinimal(em);
    PowerBytesLength(em, Value(key.d), n);
    RecoveredLength(em);
  }

  lemma PssFirstByte(hash: Hash, digest: seq<Byte>, salt: seq<Byte>, dbLen: nat, kept: nat)
    requires dbLen > |salt|
    ensures PssEncoding(hash, digest, salt, dbLen, kept)[0] < Pow2(kept)
  {
    var m := Masked(hash, SaltedHash(hash, digest, salt), DataBlock(dbLen, salt));
    assert PssEncoding(hash, digest, salt, dbLen, kept)[0] == m[0] % Pow2(kept);
  }

  lemma RecoveredLength(em: seq<Byte>)
    requires em != []
    ensures |MinimalBytes(BigEndian(em))| <= |em|
  {
    var t := MinimalBytes(BigEndian(em));
    LeftPadMinimal(em);
  }

  /** A residue modulo n takes no more bytes than n. */
  lemma PowerBytesLength(em: seq<Byte>, d: nat, n: nat)
    requires n > 1 && d > 0
    ensures |PowerBytes(em, d, n)| <= ByteLength(n)
  {
    PowNatural(BigEndian(em), d);
    var y := Pow(BigEndian(em), d) % n;
    MinimalBytesSpell(y);
    ByteLengthBounds(n);
    if |MinimalBytes(y)| > ByteLength(n) {
      MinimalBound(MinimalBytes(y));
      ByteWeightMonotone(ByteLength(n), |MinimalBytes(y)| - 1);
    }
  }
}
