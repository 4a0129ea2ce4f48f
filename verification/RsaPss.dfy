/** EMSA-PSS with MGF1 as `crypto/rsa.rs` encodes and verifies it (section 9.1 of RFC 8017). */
module RsaPss {
  import opened Arith
  import opened Bits
  import opened Bytes
  import opened RsaPadding
  import opened Wrappers

  // ---- MGF1 ----

  /** Byte `i` of the MGF1 stream (appendix B.2.1 of RFC 8017), with a 32-bit counter. */
  function MaskByte(hash: Hash, seed: seq<Byte>, i: nat): Byte {
    hash(seed + ToBigEndian(i / 32, 4))[i % 32]
  }

  /** A string xor-ed with the MGF1 stream. */
  function Masked(hash: Hash, seed: seq<Byte>, s: seq<Byte>): (r: seq<Byte>)
    ensures |r| == |s|
    ensures forall i {:trigger r[i]} :: 0 <= i < |s| ==> r[i] == XorByte(s[i], MaskByte(hash, seed, i))
  {
    seq(|s|, i requires 0 <= i < |s| => XorByte(s[i], MaskByte(hash, seed, i)))
  }

  /** Xor the MGF1 stream into `mask`, one hash output per 32-byte chunk. */
  method Mgf1(hash: Hash, seed: seq<Byte>, mask: array<Byte>)
    modifies mask
    ensures mask[..] == Masked(hash, seed, old(mask[..]))
  {
    hide MaskByte, XorByte, ToBigEndian;
    var counter := 0;
    var start := 0;
    while start < mask.Length
      invariant start == 32 * counter
      invariant forall i :: 0 <= i < start && i < mask.Length ==>
                mask[i] == XorByte(old(mask[i]), MaskByte(hash, seed, i))
      invariant forall i :: start <= i < mask.Length ==> mask[i] == old(mask[i])
    {
      var block := hash(seed + ToBigEndian(counter, 4));
      var n := if mask.Length - start < 32 then mask.Length - start else 32;
      MaskChunk(hash, seed, counter, start, block);
      XorChunk(mask, start, block, n);
      counter := counter + 1;
      start := start + 32;
    }
  }

  lemma MaskChunk(hash: Hash, seed: seq<Byte>, counter: nat, start: nat, block: seq<Byte>)
    requires start == 32 * counter && block == hash(seed + ToBigEndian(counter, 4))
    ensures forall i :: start <= i < start + 32 ==> MaskByte(hash, seed, i) == block[i - start]
  {
    forall i | start <= i < start + 32
      ensures MaskByte(hash, seed, i) == block[i - start]
    {
      ModUnique(i, 32, counter, i - start);
    }
  }

  method XorChunk(mask: array<Byte>, start: nat, block: seq<Byte>, n: nat)
    requires n <= |block| && start + n <= mask.Length
    modifies mask
    ensures forall i :: 0 <= i < mask.Length ==>
              mask[i] == if start <= i < start + n then XorByte(old(mask[i]), block[i - start]) else old(mask[i])
  {
    hide XorByte;
    for j := 0 to n
      invariant forall i :: 0 <= i < mask.Length ==>
                  mask[i] == if start <= i < start + j then XorByte(old(mask[i]), block[i - start]) else old(mask[i])
    {
      mask[start + j] := XorByte(mask[start + j], block[j]);
    }
  }

  // ---- Encoding ----

  /** Keep only the lowest `k` bits of the first byte. */
  function MaskFirst(s: seq<Byte>, k: nat): (r: seq<Byte>)
    requires s != []
    ensures |r| == |s|
  {
    KeepsByte(s[0], k);
    s[0 := s[0] % Pow2(k)]
  }

  lemma KeepsByte(b: Byte, k: nat)
    ensures 0 <= b % Pow2(k) <= b
  {
    if b < Pow2(k) {
      ModUnique(b, Pow2(k), 0, b);
    }
  }

  /** How many bits of the first byte belong to the encoded message. */
  function KeptBits(keyLen: nat, modulusBits: nat): (k: nat)
    ensures k <= 8
  {
    var emBits := if modulusBits == 0 then 0 else modulusBits - 1;
    if 8 * keyLen <= emBits then 8
    else if 8 * keyLen - emBits >= 8 then 0
    else 8 - (8 * keyLen - emBits)
  }

  /** 0xff shifted right by the padding bits, or 0 when that shifts everything out. */
  function PaddingMask(keyLen: nat, modulusBits: nat): (m: Byte)
    ensures m == Pow2(KeptBits(keyLen, modulusBits)) - 1
  {
    var emBits := if modulusBits == 0 then 0 else modulusBits - 1;
    var paddingBits := if 8 * keyLen <= emBits then 0 else 8 * keyLen - emBits;
    if paddingBits < 8 then ShiftedMask(paddingBits); 0xff / Pow2(paddingBits) else 0
  }

  lemma ShiftedMask(n: nat)
    requires n < 8
    ensures 0xff / Pow2(n) == Pow2(8 - n) - 1 <= 0xff
  {
    Pow2Values();
    Pow2Add(8 - n, n);
    Pow2Monotone(8 - n, 8);
    Distribute(Pow2(8 - n), 1, Pow2(n));
    ModUnique(0xff, Pow2(n), Pow2(8 - n) - 1, Pow2(n) - 1);
  }

  /** Zeros, the byte 0x01 and the salt: the data block before masking. */
  function DataBlock(dbLen: nat, salt: seq<Byte>): (db: seq<Byte>)
    requires dbLen > |salt|
    ensures |db| == dbLen
  {
    Repeat(0, dbLen - |salt| - 1) + [0x01] + salt
  }

  /** The hash of eight zeros, the digest and the salt. */
  function SaltedHash(hash: Hash, digest: seq<Byte>, salt: seq<Byte>): (h: seq<Byte>)
    ensures |h| == 32 && h == hash([0, 0, 0, 0, 0, 0, 0, 0] + digest + salt)
  {
    assert Repeat(0, 8) == [0, 0, 0, 0, 0, 0, 0, 0];
    hash(Repeat(0, 8) + digest + salt)
  }

  /** The encoded message of section 9.1.1 of RFC 8017, at full modulus length. */
  function PssEncoding(hash: Hash, digest: seq<Byte>, salt: seq<Byte>, dbLen: nat, kept: nat): (em: seq<Byte>)
    requires dbLen > |salt|
    ensures |em| == dbLen + 33
  {
    var h := SaltedHash(hash, digest, salt);
    Framed(MaskFirst(Masked(hash, h, DataBlock(dbLen, salt)), kept), h)
  }

  /** `salt` is what the random generator produced. */
  method PssEncode(hash: Hash, digest: seq<Byte>, keyLen: nat, modulusBits: nat, salt: seq<Byte>)
    returns (r: Result<seq<Byte>>)
    ensures r.Ok? <==> |digest| == 32 && |salt| + 34 <= keyLen && modulusBits > 0 && KeptBits(keyLen, modulusBits) > 0
    ensures r.Ok? ==> r.value == PssEncoding(hash, digest, salt, keyLen - 33, KeptBits(keyLen, modulusBits))
    ensures r.Ok? ==>
              && r.value[keyLen - 33..keyLen - 1] == hash([0, 0, 0, 0, 0, 0, 0, 0] + digest + salt)
              && r.value[keyLen - 1] == 0xbc
  {
    hide KeptBits, Masked, MaskFirst, DataBlock, SaltedHash, Framed, Pow2;
    if |digest| != 32 {
      return Err("PSS requires SHA-256");
    }
    if keyLen < 33 {
      return Err("RSA modulus is too small for PSS");
    }
    var dbLen := keyLen - 33;
    if |salt| + |digest| + 2 > keyLen {
      return Err("RSA modulus is too small for PSS salt");
    }
    var h := SaltedHash(hash, digest, salt);
    var masked := ApplyMgf1(hash, h, DataBlock(dbLen, salt));
    if modulusBits == 0 {
      return Err("RSA modulus is too small");
    }
    if KeptBits(keyLen, modulusBits) == 0 {
      return Err("RSA modulus is too small for PSS");
    }
    var em := ClearTop(Framed(masked, h), PaddingMask(keyLen, modulusBits), KeptBits(keyLen, modulusBits));
    ClearFramed(masked, h, KeptBits(keyLen, modulusBits));
    FramedParts(MaskFirst(masked, KeptBits(keyLen, modulusBits)), h);
    return Ok(em);
  }

  /** Masked data block, hash and trailer byte. */
  function Framed(maskedDb: seq<Byte>, h: seq<Byte>): (em: seq<Byte>)
    ensures |em| == |maskedDb| + |h| + 1
  {
    maskedDb + h + [0xbc]
  }

  lemma FramedParts(maskedDb: seq<Byte>, h: seq<Byte>)
    ensures var em := Framed(maskedDb, h);
            em[|maskedDb|..|em| - 1] == h && em[|em| - 1] == 0xbc
  {
  }

  lemma ClearFramed(maskedDb: seq<Byte>, h: seq<Byte>, k: nat)
    requires maskedDb != []
    ensures MaskFirst(Framed(maskedDb, h), k) == Framed(MaskFirst(maskedDb, k), h)
  {
  }

  /** The first byte and-ed with the padding mask. */
  function ClearTop(s: seq<Byte>, mask: Byte, ghost k: nat): (r: seq<Byte>)
    requires s != [] && mask == Pow2(k) - 1
    ensures r == MaskFirst(s, k)
  {
    AndLowMask(s[0], k);
    KeepsByte(s[0], k);
    s[0 := BitAnd(s[0], mask)]
  }

  /** A copy of a string with the MGF1 stream xor-ed into it. */
  method ApplyMgf1(hash: Hash, seed: seq<Byte>, s: seq<Byte>) returns (r: seq<Byte>)
    ensures r == Masked(hash, seed, s)
  {
    var a := new Byte[|s|](i requires 0 <= i < |s| => s[i]);
    assert a[..] == s;
    Mgf1(hash, seed, a);
    r := a[..];
  }

  // ---- Verification ----

  /** Masking, clearing the top bits, and doing both again leaves only the top bits cleared. */
  lemma MaskTwice(hash: Hash, seed: seq<Byte>, s: seq<Byte>, k: nat)
    requires s != []
    ensures MaskFirst(Masked(hash, seed, MaskFirst(Masked(hash, seed, s), k)), k) == MaskFirst(s, k)
  {
    var once := MaskFirst(Masked(hash, seed, s), k);
    var twice := MaskFirst(Masked(hash, seed, once), k);
    forall i | 0 <= i < |s|
      ensures twice[i] == MaskFirst(s, k)[i]
    {
      var m := MaskByte(hash, seed, i);
      if i == 0 {
        XorTwiceMasked(s[0], m, k);
      } else {
        XorTwice(s[i], m);
      }
    }
  }

  /** A data block survives clearing the top bits of its first byte, unless that byte is the 0x01 itself. */
  lemma DataBlockKept(dbLen: nat, salt: seq<Byte>, k: nat)
    requires dbLen > |salt| && (k > 0 || dbLen > |salt| + 1)
    ensures MaskFirst(DataBlock(dbLen, salt), k) == DataBlock(dbLen, salt)
  {
    var db := DataBlock(dbLen, salt);
    if k > 0 {
      Pow2Monotone(1, k);
      assert Pow2(1) == 2;
    }
    ModUnique(db[0], Pow2(k), 0, db[0]);
    assert db[0 := db[0]] == db;
  }

  /** The data block that verification recovers from a full-length encoded message. */
  ghost function Recovered(hash: Hash, em: seq<Byte>, dbLen: nat, kept: nat): (db: seq<Byte>)
    requires 0 < dbLen && |em| == dbLen + 33
    ensures |db| == dbLen
  {
    MaskFirst(Masked(hash, em[dbLen..dbLen + 32], em[..dbLen]), kept)
  }

  /** The checks of `pss_verify` on a full-length encoded message, in terms of the recovered salt. */
  ghost predicate Checks(hash: Hash, em: seq<Byte>, digest: seq<Byte>, dbLen: nat, kept: nat, salt: seq<Byte>)
    requires dbLen > |salt| && |em| == dbLen + 33
  {
    && em[0] < Pow2(kept)
    && em[dbLen + 32] == 0xbc
    && Recovered(hash, em, dbLen, kept) == DataBlock(dbLen, salt)
    && em[dbLen..dbLen + 32] == SaltedHash(hash, digest, salt)
  }

  lemma ChecksSound(hash: Hash, em: seq<Byte>, digest: seq<Byte>, dbLen: nat, kept: nat, salt: seq<Byte>)
    requires dbLen > |salt| && |em| == dbLen + 33
    requires Checks(hash, em, digest, dbLen, kept, salt)
    ensures kept > 0 || dbLen > |salt| + 1
    ensures em == PssEncoding(hash, digest, salt, dbLen, kept)
  {
    var h, low := em[dbLen..dbLen + 32], em[..dbLen];
    FramedSlices(em, dbLen);
    UnmaskedBack(hash, h, low, kept);
    FirstOfBlock(Masked(hash, h, low), dbLen, salt, kept);
  }

  lemma FramedSlices(em: seq<Byte>, dbLen: nat)
    requires |em| == dbLen + 33 && em[dbLen + 32] == 0xbc
    ensures em == Framed(em[..dbLen], em[dbLen..dbLen + 32])
  {
  }

  lemma FirstOfBlock(s: seq<Byte>, dbLen: nat, salt: seq<Byte>, k: nat)
    requires dbLen > |salt| && |s| == dbLen && MaskFirst(s, k) == DataBlock(dbLen, salt)
    ensures k > 0 || dbLen > |salt| + 1
  {
    if k == 0 {
      assert MaskFirst(s, k)[0] == 0;
      assert DataBlock(dbLen, salt)[dbLen - |salt| - 1] == 1;
    }
  }

  lemma UnmaskedBack(hash: Hash, h: seq<Byte>, low: seq<Byte>, k: nat)
    requires low != [] && low[0] < Pow2(k)
    ensures MaskFirst(Masked(hash, h, MaskFirst(Masked(hash, h, low), k)), k) == low
  {
    MaskTwice(hash, h, low, k);
    ModUnique(low[0], Pow2(k), 0, low[0]);
    assert low[0 := low[0]] == low;
  }

  lemma ChecksComplete(hash: Hash, salt: seq<Byte>, digest: seq<Byte>, dbLen: nat, kept: nat)
    requires dbLen > |salt| && (kept > 0 || dbLen > |salt| + 1)
    ensures Checks(hash, PssEncoding(hash, digest, salt, dbLen, kept), digest, dbLen, kept, salt)
  {
    var em := PssEncoding(hash, digest, salt, dbLen, kept);
    var h, block := SaltedHash(hash, digest, salt), DataBlock(dbLen, salt);
    assert em[dbLen..dbLen + 32] == h;
    assert em[..dbLen] == MaskFirst(Masked(hash, h, block), kept);
    MaskTwice(hash, h, block, kept);
    DataBlockKept(dbLen, salt, kept);
  }

  /**
   * Being the encoding of the digest with some salt. When no bit of the first byte is kept, a salt
   * that fills the whole data block is refused.
   */
  ghost predicate IsEncoding(hash: Hash, em: seq<Byte>, digest: seq<Byte>, dbLen: nat, saltLen: nat, kept: nat)
    requires dbLen > saltLen
  {
    && (kept > 0 || dbLen > saltLen + 1)
    && exists salt {:trigger PssEncoding(hash, digest, salt, dbLen, kept)} ::
         |salt| == saltLen && em == PssEncoding(hash, digest, salt, dbLen, kept)
  }

  /** Being, after left-padding to the modulus length, an encoding of the digest. */
  ghost predicate Accepted(hash: Hash, recovered: seq<Byte>, digest: seq<Byte>, keyLen: nat, modulusBits: nat,
                           saltLen: nat)
  {
    && |digest| == 32 && saltLen + 34 <= keyLen && |recovered| <= keyLen
    && IsEncoding(hash, LeftPad(recovered, keyLen), digest, keyLen - 33, saltLen, KeptBits(keyLen, modulusBits))
  }

  method PssVerify(hash: Hash, recovered: seq<Byte>, digest: seq<Byte>, keyLen: nat, modulusBits: nat, saltLen: nat)
    returns (ok: bool)
    ensures ok <==> Accepted(hash, recovered, digest, keyLen, modulusBits, saltLen)
  {
    if |digest| != 32 || saltLen + |digest| + 2 > keyLen {
      return false;
    }
    if |recovered| > keyLen {
      return false;
    }
    var em := LeftPad(recovered, keyLen);
    ok := VerifyFull(hash, em, digest, keyLen - 33, saltLen, PaddingMask(keyLen, modulusBits),
                     KeptBits(keyLen, modulusBits));
  }

  method VerifyFull(hash: Hash, em: seq<Byte>, digest: seq<Byte>, dbLen: nat, saltLen: nat, mask: Byte, ghost kept: nat)
    returns (ok: bool)
    requires dbLen > saltLen && |em| == dbLen + 33 && kept <= 8 && mask == Pow2(kept) - 1
    ensures ok <==> IsEncoding(hash, em, digest, dbLen, saltLen, kept)
  {
    ok := RunChecks(hash, em, digest, dbLen, saltLen, mask, kept);
    ChecksExact(hash, em, digest, dbLen, saltLen, kept);
  }

  method RunChecks(hash: Hash, em: seq<Byte>, digest: seq<Byte>, dbLen: nat, saltLen: nat, mask: Byte, ghost kept: nat)
    returns (ok: bool)
    requires dbLen > saltLen && |em| == dbLen + 33 && kept <= 8 && mask == Pow2(kept) - 1
    ensures ok <==> AllChecks(hash, em, digest, dbLen, saltLen, kept)
  {
    hide BitAnd, Pow2, SaltedHash, DataBlock, Recovered;
    TopBitsClear(em[0], mask, kept);
    if BitAnd(em[0], 0xff - mask) != 0 || em[dbLen + 32] != 0xbc {
      return false;
    }
    var h := em[dbLen..dbLen + 32];
    var db := RecoverBlock(hash, em, dbLen, mask, kept);
    ok := HoldsSalt(db, saltLen);
    if ok {
      ok := h == SaltedHash(hash, digest, db[dbLen - saltLen..]);
    }
  }

  /** Before the salt the block has one 0x01, and zeros before that. */
  method HoldsSalt(db: seq<Byte>, saltLen: nat) returns (ok: bool)
    requires |db| > saltLen
    ensures ok <==> db == DataBlock(|db|, db[|db| - saltLen..])
  {
    hide DataBlock;
    BlockChecks(db, db[|db| - saltLen..]);
    if db[|db| - saltLen - 1] != 0x01 {
      return false;
    }
    return !exists i :: 0 <= i < |db| - saltLen - 1 && db[i] != 0;
  }

  method RecoverBlock(hash: Hash, em: seq<Byte>, dbLen: nat, mask: Byte, ghost kept: nat) returns (db: seq<Byte>)
    requires 0 < dbLen && |em| == dbLen + 33 && mask == Pow2(kept) - 1
    ensures db == Recovered(hash, em, dbLen, kept)
  {
    RecoveredIs(hash, em, dbLen, kept);
    hide *;
    var unmasked := ApplyMgf1(hash, em[dbLen..dbLen + 32], em[..dbLen]);
    db := ClearTop(unmasked, mask, kept);
  }

  lemma RecoveredIs(hash: Hash, em: seq<Byte>, dbLen: nat, kept: nat)
    requires 0 < dbLen && |em| == dbLen + 33
    ensures Recovered(hash, em, dbLen, kept) ==
              MaskFirst(Masked(hash, em[dbLen..dbLen + 32], em[..dbLen]), kept)
  {
    hide MaskFirst, Masked, Pow2;
  }

  lemma TopBitsClear(b: Byte, mask: Byte, k: nat)
    requires k <= 8 && mask == Pow2(k) - 1
    ensures BitAnd(b, 0xff - mask) == 0 <==> b < Pow2(k)
  {
    hide BitAnd, Pow2;
    Pow2Values();
    AndHighMask(b, k, 8);
  }

  lemma BlockChecks(db: seq<Byte>, salt: seq<Byte>)
    requires |db| > |salt| && salt == db[|db| - |salt|..]
    ensures db == DataBlock(|db|, salt) <==>
              db[|db| - |salt| - 1] == 0x01 && forall i :: 0 <= i < |db| - |salt| - 1 ==> db[i] == 0
  {
    var block := DataBlock(|db|, salt);
    assert block[|db| - |salt| - 1] == 0x01;
    assert forall i :: 0 <= i < |db| - |salt| - 1 ==> block[i] == 0;
    assert forall i :: |db| - |salt| <= i < |db| ==> block[i] == salt[i - (|db| - |salt|)] == db[i];
  }

  ghost predicate AllChecks(hash: Hash, em: seq<Byte>, digest: seq<Byte>, dbLen: nat, saltLen: nat, kept: nat)
    requires dbLen > saltLen && |em| == dbLen + 33
  {
    Checks(hash, em, digest, dbLen, kept, Recovered(hash, em, dbLen, kept)[dbLen - saltLen..])
  }

  lemma ChecksExact(hash: Hash, em: seq<Byte>, digest: seq<Byte>, dbLen: nat, saltLen: nat, kept: nat)
    requires dbLen > saltLen && |em| == dbLen + 33
    ensures AllChecks(hash, em, digest, dbLen, saltLen, kept) <==> IsEncoding(hash, em, digest, dbLen, saltLen, kept)
  {
    hide PssEncoding, Recovered, Pow2, SaltedHash, DataBlock;
    if AllChecks(hash, em, digest, dbLen, saltLen, kept) {
      ChecksSound(hash, em, digest, dbLen, kept, Recovered(hash, em, dbLen, kept)[dbLen - saltLen..]);
    }
    if kept > 0 || dbLen > saltLen + 1 {
      forall salt | |salt| == saltLen && em == PssEncoding(hash, digest, salt, dbLen, kept)
        ensures AllChecks(hash, em, digest, dbLen, saltLen, kept)
      {
        ChecksComplete(hash, salt, digest, dbLen, kept);
        SaltOfBlock(dbLen, salt);
      }
    }
  }

  lemma SaltOfBlock(dbLen: nat, salt: seq<Byte>)
    requires dbLen > |salt|
    ensures DataBlock(dbLen, salt)[dbLen - |salt|..] == salt
  {
  }

  lemma DataBlockInjective(dbLen: nat, s: seq<Byte>, t: seq<Byte>)
    requires dbLen > |s| && dbLen > |t| && DataBlock(dbLen, s) == DataBlock(dbLen, t)
    ensures s == t
  {
    var a, b := DataBlock(dbLen, s), DataBlock(dbLen, t);
    assert a[dbLen - |s| - 1] == 1 && forall i :: 0 <= i < dbLen - |s| - 1 ==> a[i] == 0;
    assert b[dbLen - |t| - 1] == 1 && forall i :: 0 <= i < dbLen - |t| - 1 ==> b[i] == 0;
    assert a[dbLen - |s|..] == s && b[dbLen - |t|..] == t;
  }

  /** One encoding passes for another digest exactly if both hash alike with the salt, whose length must be given. */
  lemma EncodingPassesFor(hash: Hash, em: seq<Byte>, digest: seq<Byte>, salt: seq<Byte>, dbLen: nat, kept: nat,
                          other: seq<Byte>, saltLen: nat)
    requires dbLen > |salt| && dbLen > saltLen && kept > 0 && em == PssEncoding(hash, digest, salt, dbLen, kept)
    ensures IsEncoding(hash, em, other, dbLen, saltLen, kept) <==>
              saltLen == |salt|
              && hash([0, 0, 0, 0, 0, 0, 0, 0] + other + salt) == hash([0, 0, 0, 0, 0, 0, 0, 0] + digest + salt)
  {
    ChecksComplete(hash, salt, digest, dbLen, kept);
    forall salt' | |salt'| == saltLen && em == PssEncoding(hash, other, salt', dbLen, kept)
      ensures saltLen == |salt| && SaltedHash(hash, other, salt) == SaltedHash(hash, digest, salt)
    {
      ChecksComplete(hash, salt', other, dbLen, kept);
      DataBlockInjective(dbLen, salt, salt');
    }
    if saltLen == |salt| && SaltedHash(hash, other, salt) == SaltedHash(hash, digest, salt) {
      assert em == PssEncoding(hash, other, salt, dbLen, kept);
    }
  }
}
