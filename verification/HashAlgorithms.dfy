/** The hash algorithms of `crypto/hash.rs`, over their compression functions. */
module HashAlgorithms {
  import opened Bytes
  import opened Hash

  datatype Words4 = Words4(a: nat, b: nat, c: nat, d: nat)
  datatype Words5 = Words5(a: nat, b: nat, c: nat, d: nat, e: nat)
  datatype Words8 = Words8(a: nat, b: nat, c: nat, d: nat, e: nat, f: nat, g: nat, h: nat)

  /** The words in order, `n` bytes each. */
  function EightWords(w: Words8, n: nat): (s: seq<Byte>)
    ensures |s| == 8 * n
  {
    ToBigEndian(w.a, n) + ToBigEndian(w.b, n) + ToBigEndian(w.c, n) + ToBigEndian(w.d, n)
    + ToBigEndian(w.e, n) + ToBigEndian(w.f, n) + ToBigEndian(w.g, n) + ToBigEndian(w.h, n)
  }

  function Md5(compress: (Words4, seq<Byte>) -> Words4): Algorithm<Words4> {
    Algorithm(
      false, true, Words4(0x67452301, 0xefcdab89, 0x98badcfe, 0x10325476), compress,
      (w: Words4) => Reversed(ToBigEndian(w.a, 4)) + Reversed(ToBigEndian(w.b, 4))
                     + Reversed(ToBigEndian(w.c, 4)) + Reversed(ToBigEndian(w.d, 4)))
  }

  function Sha1(compress: (Words5, seq<Byte>) -> Words5): Algorithm<Words5> {
    Algorithm(
      false, false, Words5(0x67452301, 0xefcdab89, 0x98badcfe, 0x10325476, 0xc3d2e1f0), compress,
      (w: Words5) => ToBigEndian(w.a, 4) + ToBigEndian(w.b, 4) + ToBigEndian(w.c, 4)
                     + ToBigEndian(w.d, 4) + ToBigEndian(w.e, 4))
  }

  function Sha256(compress: (Words8, seq<Byte>) -> Words8): Algorithm<Words8> {
    Algorithm(
      false, false,
      Words8(0x6a09e667, 0xbb67ae85, 0x3c6ef372, 0xa54ff53a, 0x510e527f, 0x9b05688c, 0x1f83d9ab, 0x5be0cd19), compress,
      (w: Words8) => EightWords(w, 4))
  }

  function Sha512(compress: (Words8, seq<Byte>) -> Words8): Algorithm<Words8> {
    Algorithm(
      true, false,
      Words8(0x6a09e667f3bcc908, 0xbb67ae8584caa73b, 0x3c6ef372fe94f82b, 0xa54ff53a5f1d36f1,
             0x510e527fade682d1, 0x9b05688c2b3e6c1f, 0x1f83d9abfb41bd6b, 0x5be0cd19137e2179), compress,
      (w: Words8) => EightWords(w, 8))
  }

  function Sha384(compress: (Words8, seq<Byte>) -> Words8): Algorithm<Words8> {
    Algorithm(
      true, false,
      Words8(0xcbbb9d5dc1059ed8, 0x629a292a367cd507, 0x9159015a3070dd17, 0x152fecd8f70e5939,
             0x67332667ffc00b31, 0x8eb44a8768581511, 0xdb0c2e0d64f98fa7, 0x47b5481dbefa4fa4), compress,
      (w: Words8) => EightWords(w, 8)[..48])
  }

  // ---- Words and bytes ----

  /** The number that bytes spell, least significant byte first if `little`. */
  ghost function Number(s: seq<Byte>, little: bool): nat {
    BigEndian(if little then Reversed(s) else s)
  }

  /** The bytes spell the words in order, `n` bytes each. */
  ghost predicate Spells(s: seq<Byte>, n: nat, words: seq<nat>, little: bool)
    decreases |words|
  {
    if words == [] then s == []
    else
      && |s| >= n && Number(s[..n], little) == words[0] % ByteWeight(n)
      && Spells(s[n..], n, words[1..], little)
  }

  lemma ReversedTwice(s: seq<Byte>)
    ensures Reversed(Reversed(s)) == s
  {
    hide Reversed;
    var r := Reversed(s);
    forall i | 0 <= i < |s|
      ensures Reversed(r)[i] == s[i]
    {
      assert Reversed(r)[i] == r[|s| - 1 - i];
    }
  }

  ghost function Spelling(w: nat, n: nat, little: bool): seq<Byte> {
    if little then Reversed(ToBigEndian(w, n)) else ToBigEndian(w, n)
  }

  lemma SpellsMore(w: nat, n: nat, little: bool, rest: seq<Byte>, words: seq<nat>)
    requires Spells(rest, n, words, little)
    ensures Spells(Spelling(w, n, little) + rest, n, [w] + words, little)
  {
    hide ByteWeight, Reversed, BigEndian, ToBigEndian;
    var s := Spelling(w, n, little);
    ToBigEndianRemainder(w, n);
    ReversedTwice(ToBigEndian(w, n));
    assert (s + rest)[..n] == s && (s + rest)[n..] == rest && ([w] + words)[1..] == words;
  }

  lemma FourSpelled(a: nat, b: nat, c: nat, d: nat, n: nat, little: bool, rest: seq<Byte>, words: seq<nat>)
    requires Spells(rest, n, words, little)
    ensures Spells(Spelling(a, n, little) + Spelling(b, n, little) + Spelling(c, n, little) + Spelling(d, n, little)
                   + rest, n, [a, b, c, d] + words, little)
  {
    hide Spells, Spelling;
    var x, y, z := Spelling(b, n, little), Spelling(c, n, little), Spelling(d, n, little);
    SpellsMore(d, n, little, rest, words);
    SpellsMore(c, n, little, z + rest, [d] + words);
    SpellsMore(b, n, little, y + (z + rest), [c] + ([d] + words));
    SpellsMore(a, n, little, x + (y + (z + rest)), [b] + ([c] + ([d] + words)));
    assert Spelling(a, n, little) + (x + (y + (z + rest))) == Spelling(a, n, little) + x + y + z + rest;
    assert [a] + ([b] + ([c] + ([d] + words))) == [a, b, c, d] + words;
  }

  // ---- The digest spells the final words ----

  lemma Md5Spelled(compress: (Words4, seq<Byte>) -> Words4, w: Words4)
    ensures Spells(Md5(compress).encode(w), 4, [w.a, w.b, w.c, w.d], true)
  {
    hide Spells, ToBigEndian, Reversed;
    NothingSpelled(4, true);
    FourSpelled(w.a, w.b, w.c, w.d, 4, true, [], []);
    assert [w.a, w.b, w.c, w.d] + [] == [w.a, w.b, w.c, w.d];
    var s := Spelling(w.a, 4, true) + Spelling(w.b, 4, true) + Spelling(w.c, 4, true) + Spelling(w.d, 4, true);
    assert s + [] == s;
  }

  lemma NothingSpelled(n: nat, little: bool)
    ensures Spells([], n, [], little)
  {
  }

  lemma Sha1Spelled(compress: (Words5, seq<Byte>) -> Words5, w: Words5)
    ensures Spells(Sha1(compress).encode(w), 4, [w.a, w.b, w.c, w.d, w.e], false)
  {
    hide Spells, ToBigEndian;
    NothingSpelled(4, false);
    SpellsMore(w.e, 4, false, [], []);
    assert Spelling(w.e, 4, false) + [] == Spelling(w.e, 4, false) && [w.e] + [] == [w.e];
    FourSpelled(w.a, w.b, w.c, w.d, 4, false, Spelling(w.e, 4, false), [w.e]);
    assert [w.a, w.b, w.c, w.d] + [w.e] == [w.a, w.b, w.c, w.d, w.e];
  }

  lemma EightSpelled(w: Words8, n: nat)
    ensures Spells(EightWords(w, n), n, [w.a, w.b, w.c, w.d, w.e, w.f, w.g, w.h], false)
  {
    hide Spells, ToBigEndian;
    var one := ToBigEndian(w.a, n) + ToBigEndian(w.b, n) + ToBigEndian(w.c, n) + ToBigEndian(w.d, n);
    var two := ToBigEndian(w.e, n) + ToBigEndian(w.f, n) + ToBigEndian(w.g, n) + ToBigEndian(w.h, n);
    NothingSpelled(n, false);
    FourSpelled(w.e, w.f, w.g, w.h, n, false, [], []);
    assert two + [] == two && [w.e, w.f, w.g, w.h] + [] == [w.e, w.f, w.g, w.h];
    FourSpelled(w.a, w.b, w.c, w.d, n, false, two, [w.e, w.f, w.g, w.h]);
    assert one + two == EightWords(w, n);
    assert [w.a, w.b, w.c, w.d] + [w.e, w.f, w.g, w.h] == [w.a, w.b, w.c, w.d, w.e, w.f, w.g, w.h];
  }

  /** The first words of a spelling are spelled by its first bytes. */
  lemma {:induction false} FirstSpelled(s: seq<Byte>, n: nat, words: seq<nat>, little: bool, k: nat, m: nat)
    requires Spells(s, n, words, little) && k <= |words| && m == n * k
    ensures m <= |s| && Spells(s[..m], n, words[..k], little)
    decreases k
  {
    hide Number;
    if k > 0 {
      assert n * k == n + n * (k - 1);
      FirstSpelled(s[n..], n, words[1..], little, k - 1, m - n);
      assert s[..m][..n] == s[..n] && s[..m][n..] == s[n..][..m - n];
      assert words[..k][1..] == words[1..][..k - 1];
    }
  }

  lemma Sha384Spelled(compress: (Words8, seq<Byte>) -> Words8, w: Words8)
    ensures Spells(Sha384(compress).encode(w), 8, [w.a, w.b, w.c, w.d, w.e, w.f], false)
  {
    hide Spells, EightWords;
    var words := [w.a, w.b, w.c, w.d, w.e, w.f, w.g, w.h];
    EightSpelled(w, 8);
    FirstSpelled(EightWords(w, 8), 8, words, false, 6, 48);
    assert words[..6] == [w.a, w.b, w.c, w.d, w.e, w.f];
  }

  // ---- The words that hashing starts from ----

  /** Four bytes from `first` on in equal steps, the first one least significant. */
  ghost function Counting(first: int, step: int): int {
    first + 0x100 * (first + step) + 0x1_0000 * (first + 2 * step) + 0x100_0000 * (first + 3 * step)
  }

  /**
   * MD5 and SHA-1 start from the bytes 01 23 45 67 89 ab cd ef fe dc ba 98 76 54 32 10, and SHA-1 also from f0 e1 d2 c3
   * (section 3.3 of RFC 1321 and section 5.3.1 of FIPS 180-4).
   */
  lemma CountingStart(md5: (Words4, seq<Byte>) -> Words4, sha1: (Words5, seq<Byte>) -> Words5)
    ensures var w := Fold(Md5(md5), []);
            && w.a == Counting(0x01, 0x22) && w.b == Counting(0x89, 0x22)
            && w.c == Counting(0xfe, -0x22) && w.d == Counting(0x76, -0x22)
    ensures var w := Fold(Sha1(sha1), []);
            && w.a == Counting(0x01, 0x22) && w.b == Counting(0x89, 0x22)
            && w.c == Counting(0xfe, -0x22) && w.d == Counting(0x76, -0x22) && w.e == Counting(0xf0, -0x0f)
  {
  }

  /** With the integer part `k`, the word is the first bits, below `n`, of the square root of `p`. */
  ghost predicate RootFraction(w: nat, k: nat, p: nat, n: nat) {
    && w < n && k * k <= p < (k + 1) * (k + 1)
    && (k * n + w) * (k * n + w) <= p * n * n < (k * n + w + 1) * (k * n + w + 1)
  }

  /** SHA-256 starts from the square roots of the first eight primes (section 5.3.3 of FIPS 180-4). */
  lemma Sha256Start(compress: (Words8, seq<Byte>) -> Words8)
    ensures var w, n := Fold(Sha256(compress), []), 0x1_0000_0000;
            && RootFraction(w.a, 1, 2, n) && RootFraction(w.b, 1, 3, n) && RootFraction(w.c, 2, 5, n)
            && RootFraction(w.d, 2, 7, n) && RootFraction(w.e, 3, 11, n) && RootFraction(w.f, 3, 13, n)
            && RootFraction(w.g, 4, 17, n) && RootFraction(w.h, 4, 19, n)
  {
  }

  /** SHA-512 from more bits of the same roots, and SHA-384 from the roots of the next eight primes. */
  lemma Sha512Start(compress: (Words8, seq<Byte>) -> Words8)
    ensures var w, n := Fold(Sha512(compress), []), 0x1_0000_0000_0000_0000;
            && RootFraction(w.a, 1, 2, n) && RootFraction(w.b, 1, 3, n) && RootFraction(w.c, 2, 5, n)
            && RootFraction(w.d, 2, 7, n) && RootFraction(w.e, 3, 11, n) && RootFraction(w.f, 3, 13, n)
            && RootFraction(w.g, 4, 17, n) && RootFraction(w.h, 4, 19, n)
    ensures var w, n := Fold(Sha384(compress), []), 0x1_0000_0000_0000_0000;
            && RootFraction(w.a, 4, 23, n) && RootFraction(w.b, 5, 29, n) && RootFraction(w.c, 5, 31, n)
            && RootFraction(w.d, 6, 37, n) && RootFraction(w.e, 6, 41, n) && RootFraction(w.f, 6, 43, n)
            && RootFraction(w.g, 6, 47, n) && RootFraction(w.h, 7, 53, n)
  {
  }

  // ---- The padding ----

  /** The message, 0x80, zeros and the bit length in `field` bytes, up to a multiple of `block` bytes. */
  ghost predicate PaddedTo(s: seq<Byte>, message: seq<Byte>, block: nat, field: nat, little: bool)
    requires block > 0
  {
    && |s| % block == 0 && |s| >= |message| + 1 + field && s[..|message|] == message && s[|message|] == 0x80
    && (forall i :: |message| < i < |s| - field ==> s[i] == 0)
    && Number(s[|s| - field..], little) == 8 * |message| % ByteWeight(field)
  }

  lemma Pads<St>(alg: Algorithm<St>, message: seq<Byte>)
    ensures PaddedTo(Padded(alg, message), message, alg.Block(), alg.Field(), alg.littleEndian)
  {
    hide LengthField, Number, ZeroCount, ByteWeight;
    var s, length := Padded(alg, message), LengthField(alg, |message|);
    assert s[|s| - alg.Field()..] == length;
    LengthSpelled(alg, |message|);
  }

  lemma LengthSpelled<St>(alg: Algorithm<St>, n: nat)
    ensures Number(LengthField(alg, n), alg.littleEndian) == 8 * n % ByteWeight(alg.Field())
  {
    hide BigEndian, ToBigEndian, Reversed, ByteWeight;
    CounterIsField(alg);
    var x := n * 8 % alg.CounterSize();
    ToBigEndianValue(x, alg.Field());
    ReversedTwice(ToBigEndian(x, alg.Field()));
  }

  lemma CounterIsField<St>(alg: Algorithm<St>)
    ensures alg.CounterSize() == ByteWeight(alg.Field())
  {
    assert ByteWeight(4) == 0x1_0000_0000;
    assert ByteWeight(8) == 0x1_0000_0000_0000_0000;
    assert ByteWeight(12) == 0x1_0000_0000_0000_0000_0000_0000;
    assert ByteWeight(16) == 0x1_0000_0000_0000_0000_0000_0000_0000_0000;
  }

  /** Each hash pads as its standard says: only MD5 writes the length least significant byte first. */
  lemma PaddingsStandard(md5: (Words4, seq<Byte>) -> Words4, sha1: (Words5, seq<Byte>) -> Words5,
                         sha2: (Words8, seq<Byte>) -> Words8, message: seq<Byte>)
    ensures PaddedTo(Padded(Md5(md5), message), message, 64, 8, true)
    ensures PaddedTo(Padded(Sha1(sha1), message), message, 64, 8, false)
    ensures PaddedTo(Padded(Sha256(sha2), message), message, 64, 8, false)
    ensures PaddedTo(Padded(Sha512(sha2), message), message, 128, 16, false)
    ensures PaddedTo(Padded(Sha384(sha2), message), message, 128, 16, false)
  {
    hide Padded, PaddedTo;
    Pads(Md5(md5), message);
    Pads(Sha1(sha1), message);
    Pads(Sha256(sha2), message);
    Pads(Sha512(sha2), message);
    Pads(Sha384(sha2), message);
  }

  lemma Sha256Length(compress: (Words8, seq<Byte>) -> Words8, message: seq<Byte>)
    ensures |Digest(Sha256(compress), message)| == 32
  {
    hide Fold, Padded;
  }

  // ---- However the message is cut into updates, the digest is the standard's and has its length ----

  method Md5Chunks(compress: (Words4, seq<Byte>) -> Words4, chunks: seq<seq<Byte>>) returns (digest: seq<Byte>)
    ensures digest == Digest(Md5(compress), Concat(chunks)) && |digest| == 16
    ensures var w := Fold(Md5(compress), Padded(Md5(compress), Concat(chunks)));
            Spells(digest, 4, [w.a, w.b, w.c, w.d], true)
  {
    hide Fold, Padded, Concat, Spells;
    digest := HashChunks(Md5(compress), chunks);
    ghost var w := Fold(Md5(compress), Padded(Md5(compress), Concat(chunks)));
    Md5Spelled(compress, w);
  }

  method Sha1Chunks(compress: (Words5, seq<Byte>) -> Words5, chunks: seq<seq<Byte>>) returns (digest: seq<Byte>)
    ensures digest == Digest(Sha1(compress), Concat(chunks)) && |digest| == 20
    ensures var w := Fold(Sha1(compress), Padded(Sha1(compress), Concat(chunks)));
            Spells(digest, 4, [w.a, w.b, w.c, w.d, w.e], false)
  {
    hide Fold, Padded, Concat, Spells;
    digest := HashChunks(Sha1(compress), chunks);
    ghost var w := Fold(Sha1(compress), Padded(Sha1(compress), Concat(chunks)));
    Sha1Spelled(compress, w);
  }

  method Sha256Chunks(compress: (Words8, seq<Byte>) -> Words8, chunks: seq<seq<Byte>>) returns (digest: seq<Byte>)
    ensures digest == Digest(Sha256(compress), Concat(chunks)) && |digest| == 32
    ensures var w := Fold(Sha256(compress), Padded(Sha256(compress), Concat(chunks)));
            Spells(digest, 4, [w.a, w.b, w.c, w.d, w.e, w.f, w.g, w.h], false)
  {
    hide Fold, Padded, Concat, Spells;
    digest := HashChunks(Sha256(compress), chunks);
    ghost var w := Fold(Sha256(compress), Padded(Sha256(compress), Concat(chunks)));
    EightSpelled(w, 4);
  }

  method Sha512Chunks(compress: (Words8, seq<Byte>) -> Words8, chunks: seq<seq<Byte>>) returns (digest: seq<Byte>)
    ensures digest == Digest(Sha512(compress), Concat(chunks)) && |digest| == 64
    ensures var w := Fold(Sha512(compress), Padded(Sha512(compress), Concat(chunks)));
            Spells(digest, 8, [w.a, w.b, w.c, w.d, w.e, w.f, w.g, w.h], false)
  {
    hide Fold, Padded, Concat, Spells;
    digest := HashChunks(Sha512(compress), chunks);
    ghost var w := Fold(Sha512(compress), Padded(Sha512(compress), Concat(chunks)));
    EightSpelled(w, 8);
  }

  method Sha384Chunks(compress: (Words8, seq<Byte>) -> Words8, chunks: seq<seq<Byte>>) returns (digest: seq<Byte>)
    ensures digest == Digest(Sha384(compress), Concat(chunks)) && |digest| == 48
    ensures var w := Fold(Sha384(compress), Padded(Sha384(compress), Concat(chunks)));
            Spells(digest, 8, [w.a, w.b, w.c, w.d, w.e, w.f], false)
  {
    hide Fold, Padded, Concat, Spells;
    digest := HashChunks(Sha384(compress), chunks);
    ghost var w := Fold(Sha384(compress), Padded(Sha384(compress), Concat(chunks)));
    Sha384Spelled(compress, w);
  }
}
