/** The message encodings of `crypto/rsa.rs`: PKCS#1 v1.5 (sections 7.2 and 9.2 of RFC 8017). */
module RsaPadding {
  import opened Bytes
  import opened Wrappers

  /** Any hash function with 32-byte digests; the encodings hold for every one of them. */
  type Hash = hash: seq<Byte> -> seq<Byte> | forall message :: |hash(message)| == 32 witness _ => Repeat(0, 32)

  /** The first `n` bytes of a stream. */
  function Take(stream: nat -> Byte, n: nat): (s: seq<Byte>)
    ensures |s| == n && forall i :: 0 <= i < n ==> s[i] == stream(i)
  {
    seq(n, i requires 0 <= i => stream(i))
  }

  // ---- PKCS#1 v1.5 encryption padding ----

  /** 0x00 0x02, filler, 0x00, data; empty when the data does not fit. */
  function EncryptPadded(data: seq<Byte>, keyLen: nat, filler: nat -> Byte): seq<Byte> {
    if keyLen < |data| + 3 then []
    else [0x00, 0x02] + Take(filler, keyLen - |data| - 3) + [0x00] + data
  }

  /** `filler` yields the bytes the generator draws once zeros are rejected. */
  method EncryptPad(data: seq<Byte>, keyLen: nat, filler: nat -> Byte) returns (padded: seq<Byte>)
    ensures padded == EncryptPadded(data, keyLen, filler)
  {
    padded := [0x00, 0x02];
    if keyLen < |data| || keyLen - |data| < 3 {
      return [];
    }
    var paddingLen := keyLen - |data| - 3;
    for i := 0 to paddingLen
      invariant padded == [0x00, 0x02] + Take(filler, i)
    {
      padded := padded + [filler(i)];
    }
    padded := padded + [0x00];
    padded := padded + data;
  }

  /** Index of the first zero byte from `i` on, or the length when there is none. */
  function FirstZero(s: seq<Byte>, i: nat): (k: nat)
    requires i <= |s|
    ensures i <= k <= |s|
    ensures forall j :: i <= j < k ==> s[j] != 0
    ensures k < |s| ==> s[k] == 0
    decreases |s| - i
  {
    if i == |s| || s[i] == 0 then i else FirstZero(s, i + 1)
  }

  function Unpad(recovered: seq<Byte>): seq<Byte> {
    if |recovered| < 2 || recovered[0] != 0x02 then []
    else
      var separator := FirstZero(recovered, 1);
      if separator == |recovered| then [] else recovered[separator + 1..]
  }

  /** What is left of a padded message without its leading zero unpads to the data. */
  lemma UnpadEncryptPadded(data: seq<Byte>, keyLen: nat, filler: nat -> Byte)
    requires keyLen >= |data| + 3
    requires forall i :: filler(i) != 0
    ensures Unpad(EncryptPadded(data, keyLen, filler)[1..]) == data
  {
    hide Unpad;
    var padding := Take(filler, keyLen - |data| - 3);
    assert EncryptPadded(data, keyLen, filler)[1..] == [0x02] + padding + [0x00] + data;
    UnpadFramed(padding, data);
  }

  lemma UnpadFramed(padding: seq<Byte>, data: seq<Byte>)
    requires forall i :: 0 <= i < |padding| ==> padding[i] != 0
    ensures Unpad([0x02] + padding + [0x00] + data) == data
  {
    var recovered: seq<Byte> := [0x02] + padding + [0x00] + data;
    FirstZeroIs(recovered, 1, 1 + |padding|);
    assert recovered[|padding| + 2..] == data;
  }

  ghost predicate Framing(recovered: seq<Byte>, padding: seq<Byte>, data: seq<Byte>) {
    0 !in padding && recovered == [0x02] + padding + [0x00] + data
  }

  /** Only what is framed by 0x02, bytes other than zero and a zero is recovered; anything else unpads to nothing. */
  lemma UnpadExactly(recovered: seq<Byte>, data: seq<Byte>)
    requires data != []
    ensures Unpad(recovered) == data <==> exists padding :: Framing(recovered, padding, data)
  {
    if Unpad(recovered) == data {
      var k := FirstZero(recovered, 1);
      assert recovered == [0x02] + recovered[1..k] + [0x00] + data;
      assert Framing(recovered, recovered[1..k], data);
    }
    forall padding | Framing(recovered, padding, data)
      ensures Unpad(recovered) == data
    {
      UnpadFramed(padding, data);
    }
  }

  lemma {:induction false} FirstZeroIs(s: seq<Byte>, i: nat, k: nat)
    requires i <= k < |s| && s[k] == 0
    requires forall j :: i <= j < k ==> s[j] != 0
    ensures FirstZero(s, i) == k
    decreases k - i
  {
    if i < k {
      FirstZeroIs(s, i + 1, k);
    }
  }

  // ---- PKCS#1 v1.5 signature padding ----

  /** The ASN.1 DigestInfo prefix, selected by digest length. */
  function DigestInfo(digestLen: nat): (info: seq<Byte>)
    ensures |info| == 0 || |info| == 15 || |info| == 19
  {
    if digestLen == 20 then
      [0x30, 0x21, 0x30, 0x09, 0x06, 0x05, 0x2b, 0x0e, 0x03, 0x02, 0x1a, 0x05, 0x00, 0x04, 0x14]
    else if digestLen == 32 then
      [0x30, 0x31, 0x30, 0x0d, 0x06, 0x09, 0x60, 0x86, 0x48, 0x01, 0x65, 0x03, 0x04, 0x02, 0x01, 0x05, 0x00, 0x04, 0x20]
    else if digestLen == 48 then
      [0x30, 0x41, 0x30, 0x0d, 0x06, 0x09, 0x60, 0x86, 0x48, 0x01, 0x65, 0x03, 0x04, 0x02, 0x02, 0x05, 0x00, 0x04, 0x30]
    else if digestLen == 64 then
      [0x30, 0x51, 0x30, 0x0d, 0x06, 0x09, 0x60, 0x86, 0x48, 0x01, 0x65, 0x03, 0x04, 0x02, 0x03, 0x05, 0x00, 0x04, 0x40]
    else []
  }

  /** A DER value of fewer than 128 bytes: tag, length, contents (section 8.1 of X.690). */
  ghost function Der(tag: Byte, contents: seq<Byte>): seq<Byte>
    requires |contents| < 128
  {
    [tag, |contents|] + contents
  }

  /** One arc of an object identifier in base 128, all digits but the last marked (section 8.19 of X.690). */
  ghost function Arc(x: nat): seq<Byte> {
    if x < 128 then [x] else Marked(Arc(x / 128)) + [x % 128]
  }

  ghost function Marked(s: seq<Byte>): seq<Byte> {
    seq(|s|, i requires 0 <= i < |s| => if s[i] < 128 then s[i] + 128 else s[i])
  }

  /** The first two arcs share a byte. */
  ghost function ObjectId(first: nat, second: nat, others: seq<nat>): seq<Byte> {
    Arc(40 * first + second) + Arcs(others)
  }

  ghost function Arcs(arcs: seq<nat>): seq<Byte> {
    if arcs == [] then [] else Arc(arcs[0]) + Arcs(arcs[1..])
  }

  /** The identifiers of SHA-1, SHA-256, SHA-384 and SHA-512 (appendix B.1 of RFC 8017). */
  ghost function HashId(digestLen: nat): seq<Byte> {
    if digestLen == 20 then ObjectId(1, 3, [14, 3, 2, 26])
    else ObjectId(2, 16, [840, 1, 101, 3, 4, 2, if digestLen == 32 then 1 else if digestLen == 48 then 2 else 3])
  }

  lemma {:induction false} SmallArcs(arcs: seq<nat>)
    requires forall i :: 0 <= i < |arcs| ==> arcs[i] < 128
    ensures Arcs(arcs) == arcs
  {
    if arcs != [] {
      SmallArcs(arcs[1..]);
    }
  }

  lemma Sha1Fields()
    ensures var id := HashId(20);
            |id| == 5 && DigestInfo(20) == [0x30, 33, 0x30, 9, 0x06, 5] + id + [0x05, 0x00, 0x04, 20]
  {
    SmallArcs([14, 3, 2, 26]);
  }

  lemma Sha2Id(k: nat)
    requires k < 128
    ensures ObjectId(2, 16, [840, 1, 101, 3, 4, 2, k]) == [0x60, 0x86, 0x48, 0x01, 0x65, 0x03, 0x04, 0x02, k]
  {
    var rest: seq<nat> := [1, 101, 3, 4, 2, k];
    var arcs: seq<nat> := [840, 1, 101, 3, 4, 2, k];
    SmallArcs(rest);
    assert Marked(Arc(6)) == [0x86];
    assert Arc(840) == [0x86, 0x48];
    assert arcs[1..] == rest;
    assert Arcs(arcs) == [0x86, 0x48] + rest;
  }

  lemma Sha2Bytes(digestLen: Byte, k: Byte, id: seq<Byte>)
    requires digestLen <= 64 && id == [0x60, 0x86, 0x48, 0x01, 0x65, 0x03, 0x04, 0x02, k]
    ensures [0x30, 17 + digestLen, 0x30, 13, 0x06, 9] + id + [0x05, 0x00, 0x04, digestLen] ==
              [0x30, 17 + digestLen, 0x30, 13, 0x06, 9, 0x60, 0x86, 0x48, 0x01, 0x65, 0x03, 0x04, 0x02, k,
               0x05, 0x00, 0x04, digestLen]
  {
  }

  lemma Sha2Fields(digestLen: nat)
    requires digestLen in {32, 48, 64}
    ensures var id := HashId(digestLen);
            && |id| == 9
            && DigestInfo(digestLen) == [0x30, 17 + digestLen, 0x30, 13, 0x06, 9] + id + [0x05, 0x00, 0x04, digestLen]
  {
    hide ObjectId;
    var k := if digestLen == 32 then 1 else if digestLen == 48 then 2 else 3;
    Sha2Id(k);
    Sha2Bytes(digestLen, k, HashId(digestLen));
  }

  /** The prefix and the digest are the DER encoding of algorithm and digest (section 9.2 of RFC 8017). */
  lemma DigestInfoDer(digest: seq<Byte>)
    requires |digest| in {20, 32, 48, 64}
    ensures |HashId(|digest|)| <= 9
    ensures DigestInfo(|digest|) + digest ==
              Der(0x30, Der(0x30, Der(0x06, HashId(|digest|)) + Der(0x05, [])) + Der(0x04, digest))
  {
    hide HashId, DigestInfo;
    if |digest| == 20 {
      Sha1Fields();
    } else {
      Sha2Fields(|digest|);
    }
    Nested(HashId(|digest|), digest);
  }

  lemma Nested(id: seq<Byte>, digest: seq<Byte>)
    requires |id| <= 9 && |digest| <= 64
    ensures Der(0x30, Der(0x30, Der(0x06, id) + Der(0x05, [])) + Der(0x04, digest)) ==
              [0x30, |id| + 8 + |digest|, 0x30, |id| + 4, 0x06, |id|] + id + [0x05, 0x00, 0x04, |digest|] + digest
  {
    var algorithm := Der(0x06, id) + Der(0x05, []);
    assert algorithm == [0x06, |id|] + id + [0x05, 0x00];
    var body := Der(0x30, algorithm) + Der(0x04, digest);
    assert |body| == |id| + 8 + |digest|;
    assert body == [0x30, |id| + 4, 0x06, |id|] + id + [0x05, 0x00, 0x04, |digest|] + digest;
  }

  /** 0x01, `ffs` bytes 0xff, 0x00, DigestInfo, digest: an encoded message without its leading zero. */
  ghost function SignEncoding(digest: seq<Byte>, ffs: nat): seq<Byte> {
    [0x01] + Repeat(0xff, ffs) + [0x00] + DigestInfo(|digest|) + digest
  }

  method SignPad(digest: seq<Byte>, keyLen: nat) returns (r: Result<seq<Byte>>)
    ensures r.Ok? <==> |digest| in {20, 32, 48, 64} && keyLen >= |DigestInfo(|digest|)| + |digest| + 3
    ensures r.Ok? ==> r.value == [0x00] + SignEncoding(digest, keyLen - |DigestInfo(|digest|)| - |digest| - 3)
  {
    var info := DigestInfo(|digest|);
    if info == [] {
      return Err("unsupported digest length");
    }
    if keyLen < |info| || keyLen - |info| < |digest| || keyLen - |info| - |digest| < 3 {
      return Err("RSA modulus is too small for digest");
    }
    var paddingLen := keyLen - |info| - |digest| - 3;
    var padded: seq<Byte> := [0x00, 0x01];
    for i := 0 to paddingLen
      invariant padded == [0x00, 0x01] + Repeat(0xff, i)
    {
      padded := padded + [0xff];
    }
    padded := padded + [0x00];
    padded := padded + info;
    padded := padded + digest;
    assert padded == [0x00] + SignEncoding(digest, paddingLen);
    return Ok(padded);
  }

  /** Acceptance is exactly having the encoded form, with any number of 0xff bytes. */
  method VerifyPad(recovered: seq<Byte>, digest: seq<Byte>) returns (ok: bool)
    ensures ok <==> |recovered| >= |digest| + 10 && exists ffs: nat :: recovered == SignEncoding(digest, ffs)
  {
    if |recovered| < |digest| + 10 {
      return false;
    }
    if recovered[0] != 0x01 {
      return false;
    }
    var i := 1;
    while i < |recovered| && recovered[i] == 0xff
      invariant 1 <= i <= |recovered|
      invariant forall j :: 1 <= j < i ==> recovered[j] == 0xff
    {
      i := i + 1;
    }
    EncodingAt(recovered, digest, i);
    if i >= |recovered| || recovered[i] != 0x00 {
      return false;
    }
    var info := DigestInfo(|digest|);
    i := i + 1;
    ok := info <= recovered[i..] && recovered[i + |info|..] == digest;
    PrefixThenRest(recovered[i..], info, digest);
    assert info <= recovered[i..] ==> recovered[i..][|info|..] == recovered[i + |info|..];
  }

  lemma PrefixThenRest(s: seq<Byte>, info: seq<Byte>, digest: seq<Byte>)
    ensures s == info + digest <==> info <= s && s[|info|..] == digest
  {
    if s == info + digest {
      assert s[|info|..] == digest;
    }
  }

  lemma EncodingAt(recovered: seq<Byte>, digest: seq<Byte>, i: nat)
    requires 1 <= i <= |recovered| && recovered[0] == 0x01
    requires forall j :: 1 <= j < i ==> recovered[j] == 0xff
    requires i < |recovered| ==> recovered[i] != 0xff
    ensures (exists ffs: nat :: recovered == SignEncoding(digest, ffs)) <==>
              i < |recovered| && recovered[i] == 0x00 && recovered[i + 1..] == DigestInfo(|digest|) + digest
  {
    hide DigestInfo;
    forall ffs: nat | recovered == SignEncoding(digest, ffs)
      ensures i == ffs + 1 && recovered[i] == 0x00
      ensures recovered[i + 1..] == DigestInfo(|digest|) + digest
    {
      assert recovered[1 + ffs] == 0x00;
      assert forall j :: 1 <= j < 1 + ffs ==> recovered[j] == 0xff;
      assert recovered[ffs + 2..] == DigestInfo(|digest|) + digest;
    }
    if i < |recovered| && recovered[i] == 0x00 && recovered[i + 1..] == DigestInfo(|digest|) + digest {
      assert recovered == recovered[..i + 1] + recovered[i + 1..];
      assert recovered[..i + 1] == [0x01] + Repeat(0xff, i - 1) + [0x00];
      assert recovered == SignEncoding(digest, i - 1);
    }
  }
}
