/** HMAC-SHA256 of `crypto/hash.rs` on top of the streaming hasher. */
module Hmac {
  import opened Bits
  import opened Bytes
  import opened Hash
  import opened HashAlgorithms

  /** The key as one block: hashed first if it is longer, then filled up with zeros (section 2 of RFC 2104). */
  ghost function KeyBlock(alg: Algorithm<Words8>, key: seq<Byte>): seq<Byte> {
    var k := if |key| > 64 then Digest(alg, key) else key;
    if |k| <= 64 then k + Repeat(0, 64 - |k|) else k
  }

  function XorAll(s: seq<Byte>, pad: Byte): (r: seq<Byte>)
    ensures |r| == |s| && forall i {:trigger r[i]} :: 0 <= i < |s| ==> r[i] == XorByte(s[i], pad)
  {
    seq(|s|, i requires 0 <= i < |s| => XorByte(s[i], pad))
  }

  ghost function HmacOf(alg: Algorithm<Words8>, key: seq<Byte>, text: seq<Byte>): seq<Byte> {
    var k := KeyBlock(alg, key);
    Digest(alg, XorAll(k, 0x5c) + Digest(alg, XorAll(k, 0x36) + text))
  }

  /** A block of the padding byte with the key xor-ed into its start. */
  method MixKey(key: seq<Byte>, pad: Byte) returns (r: seq<Byte>)
    requires |key| <= 64
    ensures r == XorAll(key + Repeat(0, 64 - |key|), pad)
  {
    var block := new Byte[64](_ => pad);
    for i := 0 to |key|
      invariant forall j :: 0 <= j < i ==> block[j] == XorByte(key[j], pad)
      invariant forall j :: i <= j < 64 ==> block[j] == pad
    {
      XorCommutes(block[i], key[i]);
      block[i] := XorByte(block[i], key[i]);
    }
    XorZero(pad);
    r := block[..];
  }

  method UsedKey(compress: (Words8, seq<Byte>) -> Words8, key: seq<Byte>) returns (used: seq<Byte>)
    ensures |used| <= 64 && KeyBlock(Sha256(compress), key) == used + Repeat(0, 64 - |used|)
  {
    hide Digest;
    used := key;
    if |key| > 64 {
      used := HashChunks(Sha256(compress), [key]);
      assert Concat([key]) == [] + key == key;
      Sha256Length(compress, key);
    }
  }

  class HmacSha256 {
    ghost const alg: Algorithm<Words8>
    const hasher: Hasher<Words8>
    const outer: Hasher<Words8>
    ghost const key: seq<Byte>
    ghost var text: seq<Byte>

    ghost predicate Valid()
      reads this, hasher, outer, hasher.buffer, outer.buffer
    {
      && hasher != outer && hasher.buffer != outer.buffer
      && hasher.Valid() && outer.Valid() && hasher.alg == alg && outer.alg == alg
      && hasher.message == XorAll(KeyBlock(alg, key), 0x36) + text
      && outer.message == XorAll(KeyBlock(alg, key), 0x5c)
    }

    constructor (compress: (Words8, seq<Byte>) -> Words8, key: seq<Byte>)
      ensures Valid() && alg == Sha256(compress) && this.key == key && text == []
      ensures fresh(hasher) && fresh(outer) && fresh(hasher.buffer) && fresh(outer.buffer)
    {
      hide Holds, Fold, XorAll, Digest;
      var sha := Sha256(compress);
      var used := UsedKey(compress, key);
      var ipad := MixKey(used, 0x36);
      var opad := MixKey(used, 0x5c);
      var inner := new Hasher<Words8>(sha);
      inner.Update(ipad);
      var outer := new Hasher<Words8>(sha);
      outer.Update(opad);
      this.alg := sha;
      this.hasher, this.outer := inner, outer;
      this.key, this.text := key, [];
    }

    method Update(data: seq<Byte>)
      requires Valid()
      modifies this, hasher, hasher.buffer
      ensures Valid() && text == old(text) + data
    {
      hide Holds, Fold, XorAll, KeyBlock;
      hasher.Update(data);
      text := text + data;
    }

    /** The HMAC of the whole text. */
    method Finalize() returns (mac: seq<Byte>)
      requires Valid()
      modifies hasher, outer, hasher.buffer, outer.buffer
      ensures mac == HmacOf(alg, key, old(text))
    {
      hide Holds, Fold, XorAll, KeyBlock, Digest;
      var inner := hasher.Finalize();
      outer.Update(inner);
      mac := outer.Finalize();
    }
  }

  /** The HMAC of a text does not depend on how it is cut into pieces. */
  method HmacChunks(compress: (Words8, seq<Byte>) -> Words8, key: seq<Byte>,
                    chunks: seq<seq<Byte>>) returns (mac: seq<Byte>)
    ensures mac == HmacOf(Sha256(compress), key, Concat(chunks))
  {
    var hmac := new HmacSha256(compress, key);
    for i := 0 to |chunks|
      invariant hmac.Valid() && fresh({hmac, hmac.hasher, hmac.outer}) && fresh({hmac.hasher.buffer, hmac.outer.buffer})
      invariant hmac.text == Concat(chunks[..i])
    {
      hmac.Update(chunks[i]);
      assert chunks[..i + 1][..i] == chunks[..i];
    }
    assert chunks[..|chunks|] == chunks;
    mac := hmac.Finalize();
  }
}
