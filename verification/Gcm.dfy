/** AES-GCM of `crypto/cipher.rs` against NIST SP 800-38D. */
module Gcm {
  import opened Bytes
  import opened AesField
  import opened Aes
  import opened AesCipher
  import opened Ctr
  import opened Gf128
  import opened Wrappers

  const ZERO_BLOCK: Block := Zeros(16)

  // ---- GHASH ----

  /** The data in blocks, the last one filled up with zeros. */
  ghost function Chunks(s: seq<bv8>): seq<Block> {
    if s == [] then []
    else if |s| < 16 then [s + Zeros(16 - |s|)]
    else [s[..16]] + Chunks(s[16..])
  }

  /** Section 6.4 of NIST SP 800-38D. */
  ghost function Ghash(h: Block, blocks: seq<Block>): Block {
    if blocks == [] then ZERO_BLOCK
    else Mul(AddKey(Ghash(h, blocks[..|blocks| - 1]), blocks[|blocks| - 1]), h)
  }

  lemma GhashStep(h: Block, blocks: seq<Block>, b: Block)
    ensures Ghash(h, blocks + [b]) == Mul(AddKey(Ghash(h, blocks), b), h)
  {
    hide Mul, AddKey;
    assert (blocks + [b])[..|blocks|] == blocks;
  }

  /** The bit lengths of the two inputs, as 64-bit numbers. */
  function LengthBlock(aad: nat, text: nat): Block {
    Octets(ToBigEndian(aad * 8 % 0x1_0000_0000_0000_0000, 8) + ToBigEndian(text * 8 % 0x1_0000_0000_0000_0000, 8))
  }

  ghost function GhashInput(aad: seq<bv8>, text: seq<bv8>): seq<Block> {
    Chunks(aad) + Chunks(text) + [LengthBlock(|aad|, |text|)]
  }

  // ---- What is hashed determines the two inputs ----

  lemma {:induction false} ChunksCount(s: seq<bv8>)
    ensures |Chunks(s)| == (|s| + 15) / 16
  {
    if |s| >= 16 {
      ChunksCount(s[16..]);
    }
  }

  lemma {:induction false} ChunksInjective(s: seq<bv8>, t: seq<bv8>)
    requires |s| == |t| && Chunks(s) == Chunks(t)
    ensures s == t
  {
    if |s| < 16 {
      if s != [] {
        assert Chunks(s)[0][..|s|] == s && Chunks(t)[0][..|t|] == t;
      }
    } else {
      assert Chunks(s)[0] == s[..16] && Chunks(s)[1..] == Chunks(s[16..]);
      assert Chunks(t)[0] == t[..16] && Chunks(t)[1..] == Chunks(t[16..]);
      ChunksInjective(s[16..], t[16..]);
      assert s == s[..16] + s[16..] && t == t[..16] + t[16..];
    }
  }

  lemma EightBytes()
    ensures ByteWeight(8) == 0x1_0000_0000_0000_0000
  {
    FourBytes();
    assert ByteWeight(6) == 256 * (256 * ByteWeight(4));
  }

  lemma OctetsValue(s: seq<Byte>)
    ensures Value(Octets(s)) == BigEndian(s)
  {
    hide Octet;
    assert Naturals(Octets(s)) == s;
  }

  /** The last block hashed spells the two lengths in bits, the associated data's first, each in eight bytes. */
  lemma LengthsSpelled(aad: seq<bv8>, text: seq<bv8>)
    ensures var input := GhashInput(aad, text);
            && input != []
            && Value(input[|input| - 1][..8]) == 8 * |aad| % 0x1_0000_0000_0000_0000
            && Value(input[|input| - 1][8..]) == 8 * |text| % 0x1_0000_0000_0000_0000
  {
    hide Value, Octets, BigEndian, ToBigEndian, ByteWeight, Chunks;
    LengthHalves(|aad|, |text|);
    EightBytes();
    OctetsValue(ToBigEndian(|aad| * 8 % 0x1_0000_0000_0000_0000, 8));
    OctetsValue(ToBigEndian(|text| * 8 % 0x1_0000_0000_0000_0000, 8));
    ToBigEndianValue(|aad| * 8 % 0x1_0000_0000_0000_0000, 8);
    ToBigEndianValue(|text| * 8 % 0x1_0000_0000_0000_0000, 8);
  }

  lemma LengthHalves(aad: nat, text: nat)
    ensures LengthBlock(aad, text)[..8] == Octets(ToBigEndian(aad * 8 % 0x1_0000_0000_0000_0000, 8))
    ensures LengthBlock(aad, text)[8..] == Octets(ToBigEndian(text * 8 % 0x1_0000_0000_0000_0000, 8))
  {
    hide ToBigEndian;
  }

  lemma SameLength(m: nat, n: nat)
    requires m < 0x2000_0000_0000_0000 && n < 0x2000_0000_0000_0000
    requires 8 * m % 0x1_0000_0000_0000_0000 == 8 * n % 0x1_0000_0000_0000_0000
    ensures m == n
  {
  }

  lemma SameParts<T>(s: seq<T>, t: seq<T>, x: T, s': seq<T>, t': seq<T>, x': T)
    requires |s| == |s'| && s + t + [x] == s' + t' + [x']
    ensures s == s' && t == t'
  {
    var all := s + t + [x];
    assert all[..|s|] == s && all[..|s|] == s';
    assert all[|s|..|all| - 1] == t && all[|s|..|all| - 1] == t';
  }

  /** Up to the lengths that the length block can hold, no two pairs of inputs are hashed alike. */
  lemma GhashInputInjective(aad: seq<bv8>, text: seq<bv8>, aad': seq<bv8>, text': seq<bv8>)
    requires |aad| < 0x2000_0000_0000_0000 && |text| < 0x2000_0000_0000_0000
    requires |aad'| < 0x2000_0000_0000_0000 && |text'| < 0x2000_0000_0000_0000
    requires GhashInput(aad, text) == GhashInput(aad', text')
    ensures aad == aad' && text == text'
  {
    hide Value, LengthBlock, Chunks;
    LengthsSpelled(aad, text);
    LengthsSpelled(aad', text');
    SameLength(|aad|, |aad'|);
    SameLength(|text|, |text'|);
    ChunksCount(aad);
    ChunksCount(aad');
    SameParts(Chunks(aad), Chunks(text), LengthBlock(|aad|, |text|),
              Chunks(aad'), Chunks(text'), LengthBlock(|aad'|, |text'|));
    ChunksInjective(aad, aad');
    ChunksInjective(text, text');
  }

  // ---- Hashing ----

  /** Add one block to the running hash. */
  method AbsorbBlock(h: Block, g: Block, b: Block, ghost blocks: seq<Block>) returns (r: Block)
    requires g == Ghash(h, blocks)
    ensures r == Ghash(h, blocks + [b])
  {
    hide Mul, AddKey, Ghash;
    var sum := new bv8[16](i requires 0 <= i < 16 => g[i]);
    assert sum[..] == g;
    AddRoundKey(sum, b);
    GhashStep(h, blocks, b);
    r := Gf128Mul(sum[..], h);
  }

  method Absorb(h: Block, g: Block, data: seq<bv8>, ghost blocks: seq<Block>) returns (r: Block)
    requires g == Ghash(h, blocks)
    ensures r == Ghash(h, blocks + Chunks(data))
  {
    hide Ghash, Chunks;
    r := g;
    var i := 0;
    ghost var done: seq<Block> := [];
    assert data[0..] == data && blocks + [] == blocks;
    while i < |data|
      invariant i <= |data| && r == Ghash(h, blocks + done) && done + Chunks(data[i..]) == Chunks(data)
    {
      var n := if |data| - i < 16 then |data| - i else 16;
      var b: Block := data[i..i + n] + Zeros(16 - n);
      ChunksMore(data, i, n, b, done);
      r := AbsorbBlock(h, r, b, blocks + done);
      assert blocks + done + [b] == blocks + (done + [b]);
      done := done + [b];
      i := i + n;
    }
    ChunksEnd(data[i..], done);
  }

  lemma ChunksMore(data: seq<bv8>, i: nat, n: nat, b: Block, done: seq<Block>)
    requires i < |data| && n == (if |data| - i < 16 then |data| - i else 16) && b == data[i..i + n] + Zeros(16 - n)
    ensures done + Chunks(data[i..]) == done + [b] + Chunks(data[i + n..])
  {
    hide Chunks;
    assert data[i..][..n] == data[i..i + n];
    ChunksStep(data[i..], n, b);
    assert data[i..][n..] == data[i + n..];
  }

  lemma ChunksEnd(data: seq<bv8>, done: seq<Block>)
    requires data == []
    ensures done + Chunks(data) == done
  {
  }

  lemma ChunksStep(s: seq<bv8>, n: nat, b: Block)
    requires s != [] && n == (if |s| < 16 then |s| else 16) && b == s[..n] + Zeros(16 - n)
    ensures Chunks(s) == [b] + Chunks(s[n..])
  {
    hide Zeros;
    if |s| < 16 {
      assert s[..n] == s && s[n..] == [];
      assert Chunks(s[n..]) == [];
    } else {
      assert Zeros(0) == [];
      assert b == s[..16];
    }
  }

  method ComputeGhash(h: Block, aad: seq<bv8>, text: seq<bv8>) returns (g: Block)
    ensures g == Ghash(h, GhashInput(aad, text))
  {
    hide Chunks, LengthBlock;
    g := Absorb(h, ZERO_BLOCK, aad, []);
    assert [] + Chunks(aad) == Chunks(aad);
    g := Absorb(h, g, text, Chunks(aad));
    g := AbsorbBlock(h, g, LengthBlock(|aad|, |text|), Chunks(aad) + Chunks(text));
  }

  // ---- Authenticated encryption ----

  ghost function HashKey(keys: seq<Block>): Block
    requires |keys| >= 2
  {
    Cipher(ZERO_BLOCK, keys)
  }

  ghost function Tag(keys: seq<Block>, iv: seq<bv8>, aad: seq<bv8>, text: seq<bv8>): Block
    requires |keys| >= 2 && |iv| == 12
  {
    AddKey(Cipher(FirstCounter(iv), keys), Ghash(HashKey(keys), GhashInput(aad, text)))
  }

  /** The text xor-ed with the key stream from the second counter block on. */
  ghost function Crypted(keys: seq<Block>, iv: seq<bv8>, s: seq<bv8>): seq<bv8>
    requires |keys| >= 2 && |iv| == 12
  {
    Streamed(keys, CounterAt(FirstCounter(iv), 1), s)
  }

  method CipherOf(block: Block, keys: seq<Block>) returns (r: Block)
    requires |keys| >= 2
    ensures r == Cipher(block, keys)
  {
    hide Cipher;
    var state := new bv8[16](i requires 0 <= i < 16 => block[i]);
    assert state[..] == block;
    EncryptBlock(state, keys);
    r := state[..];
  }

  method StreamText(keys: seq<Block>, iv: seq<bv8>, s: seq<bv8>) returns (r: seq<bv8>)
    requires |keys| >= 2 && |iv| == 12
    ensures r == Crypted(keys, iv, s)
  {
    hide Streamed, Increment;
    var first := FirstCounter(iv);
    var counter := new bv8[16](i requires 0 <= i < 16 => first[i]);
    assert counter[..] == first;
    IncrementCounter(counter);
    assert CounterAt(first, 1) == Increment(CounterAt(first, 0));
    var mode := new CtrMode(keys, counter[..]);
    var text := new bv8[|s|](i requires 0 <= i < |s| => s[i]);
    assert text[..] == s;
    mode.Process(text);
    r := text[..];
  }

  method ComputeTag(keys: seq<Block>, iv: seq<bv8>, aad: seq<bv8>, text: seq<bv8>) returns (tag: Block)
    requires |keys| >= 2 && |iv| == 12
    ensures tag == Tag(keys, iv, aad, text)
  {
    hide AddKey, Cipher, Ghash;
    var h := CipherOf(ZERO_BLOCK, keys);
    var g := ComputeGhash(h, aad, text);
    var e := CipherOf(FirstCounter(iv), keys);
    var sum := new bv8[16](_ => 0);
    assert sum[..] == ZERO_BLOCK;
    AddRoundKey(sum, e);
    AddToZero(e);
    AddRoundKey(sum, g);
    tag := sum[..];
  }

  lemma AddToZero(b: Block)
    ensures AddKey(ZERO_BLOCK, b) == b
  {
    forall i | 0 <= i < 16
      ensures Xor(0, b[i]) == b[i]
    {
    }
  }

  method Encrypt(keys: seq<Block>, iv: seq<bv8>, plaintext: seq<bv8>, aad: seq<bv8>)
    returns (ciphertext: seq<bv8>, tag: Block)
    requires |keys| >= 2 && |iv| == 12
    ensures ciphertext == Crypted(keys, iv, plaintext) && tag == Tag(keys, iv, aad, ciphertext)
  {
    ciphertext := StreamText(keys, iv, plaintext);
    tag := ComputeTag(keys, iv, aad, ciphertext);
  }

  /** The plaintext, if and only if the tag is the right one. */
  method Decrypt(keys: seq<Block>, iv: seq<bv8>, ciphertext: seq<bv8>, aad: seq<bv8>, tag: Block)
    returns (r: Option<seq<bv8>>)
    requires |keys| >= 2 && |iv| == 12
    ensures r == if tag == Tag(keys, iv, aad, ciphertext) then Some(Crypted(keys, iv, ciphertext)) else None
  {
    var expected := ComputeTag(keys, iv, aad, ciphertext);
    if expected != tag {
      return None;
    }
    var plaintext := StreamText(keys, iv, ciphertext);
    return Some(plaintext);
  }

  /** Decryption returns what was encrypted. */
  method RoundTrip(keys: seq<Block>, iv: seq<bv8>, plaintext: seq<bv8>, aad: seq<bv8>) returns (r: Option<seq<bv8>>)
    requires |keys| >= 2 && |iv| == 12
    ensures r == Some(plaintext)
  {
    hide Tag, Streamed;
    var ciphertext, tag := Encrypt(keys, iv, plaintext, aad);
    StreamedTwice(keys, CounterAt(FirstCounter(iv), 1), plaintext);
    r := Decrypt(keys, iv, ciphertext, aad, tag);
  }

  // ---- The standard's counter ----

  /** GCTR of section 6.5 of NIST SP 800-38D, which increments 32 bits of the counter block only. */
  ghost function Gctr(keys: seq<Block>, c: Block, s: seq<bv8>): seq<bv8>
    requires |keys| >= 2
  {
    seq(|s|, j requires 0 <= j < |s| => Xor(s[j], Cipher(Counter32At(c, j / 16), keys)[j % 16]))
  }

  /** For every plaintext of the length that section 5.2.1.1 allows, the key stream is the standard's. */
  lemma CryptedIsGctr(keys: seq<Block>, iv: seq<bv8>, s: seq<bv8>)
    requires |keys| >= 2 && |iv| == 12 && 8 * |s| <= 0x80_0000_0000 - 256
    ensures Crypted(keys, iv, s) == Gctr(keys, Inc32(FirstCounter(iv)), s)
  {
    hide Cipher, Xor, Increment;
    var first := FirstCounter(iv);
    forall j | 0 <= j < |s|
      ensures CounterAt(CounterAt(first, 1), j / 16) == Counter32At(Inc32(first), j / 16)
    {
      CounterAdds(first, 1, j / 16);
      CounterIsCounter32(iv, 1 + j / 16);
      Counter32Adds(first, j / 16);
    }
  }

  lemma {:induction false} Counter32Adds(c: Block, i: nat)
    ensures Counter32At(Inc32(c), i) == Counter32At(c, 1 + i)
  {
    hide Inc32;
    if i == 0 {
      assert Counter32At(c, 1) == Inc32(Counter32At(c, 0));
    } else {
      Counter32Adds(c, i - 1);
    }
  }
}
