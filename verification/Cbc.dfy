/** The CBC mode of `crypto/cipher.rs`, for AES with any round keys. */
module Cbc {
  import opened Aes
  import opened AesCipher
  import opened Wrappers

  lemma Aligned(n: nat)
    requires n > 0 && n % 16 == 0
    ensures n >= 16 && (n - 16) % 16 == 0
  {
  }

  ghost function Chained(keys: seq<Block>, prev: Block, s: Block): Block
    requires |keys| >= 2
  {
    Cipher(AddKey(s, prev), keys)
  }

  /** The ciphertext of whole blocks, the first one chained to `prev` (section 6.2 of NIST SP 800-38A). */
  ghost function Encrypted(keys: seq<Block>, prev: Block, s: seq<bv8>): (r: seq<bv8>)
    requires |keys| >= 2 && |s| % 16 == 0
    ensures |r| == |s|
    decreases |s|
  {
    if s == [] then []
    else
      Aligned(|s|);
      Chained(keys, prev, s[..16]) + Encrypted(keys, Chained(keys, prev, s[..16]), s[16..])
  }

  ghost function Decrypted(keys: seq<Block>, prev: Block, s: seq<bv8>): (r: seq<bv8>)
    requires |keys| >= 2 && |s| % 16 == 0
    ensures |r| == |s|
    decreases |s|
  {
    if s == [] then []
    else
      Aligned(|s|);
      AddKey(InvCipher(s[..16], keys), prev) + Decrypted(keys, s[..16], s[16..])
  }

  /** Block `i` of a string. */
  ghost function BlockAt(s: seq<bv8>, i: nat): Block
    requires 16 * i + 16 <= |s|
  {
    s[16 * i..16 * i + 16]
  }

  lemma BlockFirst(head: Block, s: seq<bv8>)
    ensures BlockAt(head + s, 0) == head
  {
  }

  lemma BlockLater(head: Block, s: seq<bv8>, i: nat)
    requires 16 * i + 16 <= |s|
    ensures BlockAt(head + s, i + 1) == BlockAt(s, i)
  {
  }

  /** Each ciphertext block is the cipher of the plaintext block plus the ciphertext block before it, or the IV. */
  lemma {:induction false} CipherBlocks(keys: seq<Block>, iv: Block, s: seq<bv8>, i: nat)
    requires |keys| >= 2 && |s| % 16 == 0 && 16 * i + 16 <= |s|
    ensures var c := Encrypted(keys, iv, s);
            BlockAt(c, i) == Cipher(AddKey(BlockAt(s, i), if i == 0 then iv else BlockAt(c, i - 1)), keys)
    decreases |s|
  {
    hide AddKey, Cipher, BlockAt;
    Aligned(|s|);
    var first := Chained(keys, iv, s[..16]);
    var rest := Encrypted(keys, first, s[16..]);
    assert s == s[..16] + s[16..];
    BlockFirst(s[..16], s[16..]);
    BlockFirst(first, rest);
    if i > 0 {
      CipherBlocks(keys, first, s[16..], i - 1);
      BlockLater(s[..16], s[16..], i - 1);
      BlockLater(first, rest, i - 1);
      if i > 1 {
        BlockLater(first, rest, i - 2);
      }
    }
  }

  lemma {:induction false} DecryptedEncrypted(keys: seq<Block>, prev: Block, s: seq<bv8>)
    requires |keys| >= 2 && |s| % 16 == 0
    ensures Decrypted(keys, prev, Encrypted(keys, prev, s)) == s
    decreases |s|
  {
    hide AddKey, Cipher, InvCipher;
    if s != [] {
      Aligned(|s|);
      var x := AddKey(s[..16], prev);
      var c := Cipher(x, keys);
      var t := c + Encrypted(keys, c, s[16..]);
      assert t[..16] == c && t[16..] == Encrypted(keys, c, s[16..]);
      CipherBack(x, keys);
      AddKeyTwice(s[..16], prev);
      DecryptedEncrypted(keys, c, s[16..]);
    }
  }

  method Encrypt(keys: seq<Block>, iv: Block, plaintext: seq<bv8>) returns (r: Result<seq<bv8>>)
    requires |keys| >= 2
    ensures r.Ok? <==> |plaintext| % 16 == 0
    ensures r.Ok? ==> r.value == Encrypted(keys, iv, plaintext)
  {
    hide AddKey, Cipher;
    if |plaintext| % 16 != 0 {
      return Err("CBC input must be a multiple of the 16-byte AES block size");
    }
    var output, prev: Block, i := [], iv, 0;
    while i < |plaintext|
      invariant i <= |plaintext| && i % 16 == 0
      invariant output + Encrypted(keys, prev, plaintext[i..]) == Encrypted(keys, iv, plaintext)
    {
      var block := new bv8[16](j requires 0 <= j < 16 => plaintext[i..i + 16][j]);
      assert block[..] == plaintext[i..][..16];
      AddRoundKey(block, prev);
      EncryptBlock(block, keys);
      assert plaintext[i..][16..] == plaintext[i + 16..];
      ghost var rest := Encrypted(keys, block[..], plaintext[i + 16..]);
      assert output + (block[..] + rest) == output + block[..] + rest;
      prev := block[..];
      output := output + block[..];
      i := i + 16;
    }
    return Ok(output);
  }

  method Decrypt(keys: seq<Block>, iv: Block, ciphertext: seq<bv8>) returns (r: Result<seq<bv8>>)
    requires |keys| >= 2
    ensures r.Ok? <==> |ciphertext| % 16 == 0
    ensures r.Ok? ==> r.value == Decrypted(keys, iv, ciphertext)
  {
    hide AddKey, InvCipher;
    if |ciphertext| % 16 != 0 {
      return Err("CBC input must be a multiple of the 16-byte AES block size");
    }
    var output, prev: Block, i := [], iv, 0;
    while i < |ciphertext|
      invariant i <= |ciphertext| && i % 16 == 0
      invariant output + Decrypted(keys, prev, ciphertext[i..]) == Decrypted(keys, iv, ciphertext)
    {
      var block := new bv8[16](j requires 0 <= j < 16 => ciphertext[i..i + 16][j]);
      var cipherBlock := block[..];
      assert cipherBlock == ciphertext[i..][..16];
      DecryptBlock(block, keys);
      AddRoundKey(block, prev);
      assert ciphertext[i..][16..] == ciphertext[i + 16..];
      ghost var rest := Decrypted(keys, cipherBlock, ciphertext[i + 16..]);
      assert output + (block[..] + rest) == output + block[..] + rest;
      prev := cipherBlock;
      output := output + block[..];
      i := i + 16;
    }
    return Ok(output);
  }

  /** Decryption returns every plaintext that encryption accepts. */
  method RoundTrip(keys: seq<Block>, iv: Block, plaintext: seq<bv8>) returns (r: Result<seq<bv8>>)
    requires |keys| >= 2
    ensures if |plaintext| % 16 == 0 then r == Ok(plaintext) else r.Err?
  {
    hide Encrypted, Decrypted;
    r := Encrypt(keys, iv, plaintext);
    if r.Ok? {
      DecryptedEncrypted(keys, iv, plaintext);
      r := Decrypt(keys, iv, r.value);
    }
  }
}
