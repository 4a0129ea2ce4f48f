# A verified model of nt61-rs cryptography, caches and kernel I/O

The model covers four groups of components of an NT-6.1-like kernel written in Rust:

- **Big numbers and RSA** (`crypto/rsa.rs`): base-2^64 arithmetic with its carry, borrow, shift and division
  loops; modular powers and inverses; the primality test; which generated keys work; CRT decryption; PKCS#1 v1.5
  and PSS padding; signatures end to end.
- **Ciphers and hashes** (`crypto/cipher.rs`, `crypto/hash.rs`): AES with its field, tables and key schedules;
  CBC, CTR and GCM; the buffering and padding of MD5, SHA-1 and SHA-2; HMAC.
- **Caches** (`fs/cache.rs`, `fs/cache_complete.rs`, `fs/cache_manager.rs`): an index-linked LRU block cache in
  front of a disk, a size-bounded file cache, and a buffer pool with its manager.
- **Kernel I/O** (`io/iocp.rs`, `io/pipe.rs`, `fs/locking.rs`): completion ports as interleaved thread steps,
  pipes with reused slots, byte-range and opportunistic locks.

## How it is built

Loops that update vectors or buffers are methods with invariants, proved against functions or stated outright;
objects that the kernel mutates are classes whose `Valid()` every method keeps, so it holds in every reachable
state; the completion port is a step relation over program counters, and its theorems range over every run.

| files | contents |
|---|---|
| `Wrappers`, `Arith`, `Bits`, `Bytes`, `ByteRanges`, `Lists` | option and result types, arithmetic, bit operations on naturals, byte strings, ranges cut into blocks, lists |
| `NumberTheory`, `Polynomials` | primes and congruences, roots of polynomials modulo a prime |
| `BigUint`, `BigUintDiv`, `BigUintMod`, `BigUintBytes` | the limb arithmetic |
| `RsaPadding`, `RsaPss`, `Rsa`, `RsaSignature` | paddings, CRT, encryption and signatures |
| `Primality`, `RsaKeys` | the primality test, and when generated keys work |
| `AesField`, `AesTables`, `AesSbox`, `Aes`, `AesCipher`, `AesKeys` | AES |
| `Cbc`, `Ctr`, `BinaryPolynomials`, `Gf128`, `Gf128Field`, `Gcm` | the modes of operation, with the field of GCM |
| `Hash`, `HashAlgorithms`, `Hmac` | streaming hashes, the five algorithms and HMAC |
| `CacheState`, `CacheInvariant`, `CacheView`, `CacheManager`, `CacheRun` | the block cache |
| `FileCache`, `BufferPool`, `BufferManager` | the other two caches |
| `Iocp`, `Pipe`, `Locking` | the kernel I/O objects |

`dafny verify dfyconfig.toml` checks everything.

## Choices a reader should know

- Limbs, bytes of the RSA code and lengths are natural numbers with their bounds written out; the block ciphers
  use bit vectors. Wrap-around is modelled where it can show: `BigUint.Sub` below zero, the hash length counters,
  the completion port's counters, the GCM length block, saturating lock ranges.
- Random bytes, hash functions in RSA padding, compression functions and the disk are parameters. A disk read or
  write transfers everything asked for. A clock is a counter that grows.
- A block's place on disk does not depend on the file (`fs/cache.rs:427`, `fs/cache.rs:473-480`), so two files
  that use one block number would overwrite each other. The store theorems are therefore about files that read
  and write block numbers of their own; read-ahead may run into another file's blocks.
- Slots of the block cache are handed out once and then change hands only by eviction; a slot whose block was
  invalidated is never used again (`fs/cache.rs:327-333`, `fs/cache.rs:611-629`). `CacheManager.CacheManager.Exhausted`
  names the states in which no slot can be had; a read or write fails exactly there, if its range holds an uncached block.
- The other two caches write back to an offset that ignores the file as well (`fs/cache_manager.rs:493-495`,
  `fs/cache_complete.rs:166-168`). Their contracts say which blocks a flush may change, and "on disk" is claimed only
  where nothing of another key stands.
- Where the code falls short of what its comments suggest, the contract says exactly when it does what:
  `RsaKeys.DeriveKey` (unchecked primes), `Primality.ModulusLength` (key lengths that are no multiple of sixteen),
  `RsaSignature.DecryptEncrypt` (plaintexts that do not fit are lost), `CacheView.MissWrites` (partial writes to
  uncached blocks), `CacheManager.CacheManager.PinBlock` (pinning without reading), `CacheRun.FailsWornOut` (slots
  wear out), `BufferManager.BufferManager.WriteBlock` (write-through flushes before it marks),
  `BufferPool.BufferPool.MarkDirty` (free buffers can be marked), `Locking.HoldersAdmittedExactly` and
  `Locking.RefusedInsideOnly`. `RsaKeys.SamePrimeTwice`, `Primality.NineAccepted`, `CacheRun.PartialWriteOnMiss`,
  `CacheRun.PinOnMiss`, `CacheRun.WearOut`, `BufferManager.WriteThroughLost`, `BufferManager.FlushClobbers`,
  `FileCache.FlushCollides`, `BufferPool.FreeBufferMarked`, `Locking.LastByteLockedTwice` and
  `Locking.OverlapAdmitted` show failures in concrete runs.

## Model

| member | source | states |
|---|---|---|
| `BigUint.Add` | nt61/src/crypto/rsa.rs:426-457 | the limbs of the sum spell exactly a + b, with no leading zero limb, for operands of any lengths |
| `BigUint.Sub` | nt61/src/crypto/rsa.rs:459-482 | a - b when a >= b; otherwise the difference modulo 2^(64 times the limbs of a), which is what the dropped borrow leaves |
| `BigUint.Mul` | nt61/src/crypto/rsa.rs:484-504 | the product; each step fits 128 bits and the carry slot written after a row was still zero |
| `BigUint.WideMulAdd` | nt61/src/crypto/rsa.rs:490-492 | limb times limb plus limb plus carry never exceeds 128 bits and splits into low and high limb |
| `BigUint.Cmp` | nt61/src/crypto/rsa.rs:613-631 | the sign of the comparison is that of the values, for normalized operands or operands of equal length |
| `BigUintDiv.Shl` | nt61/src/crypto/rsa.rs:654-672 | multiplication by 2^bits for every shift, across limb boundaries |
| `BigUintDiv.Shr` | nt61/src/crypto/rsa.rs:585-611 | division by 2^bits rounded down, for every shift |
| `BigUintDiv.BitLength` | nt61/src/crypto/rsa.rs:638-645 | the number of significant bits of the value |
| `BigUintDiv.BitOfValue` | nt61/src/crypto/rsa.rs:647-651 | the bit read from a limb is that bit of the value |
| `BigUintDiv.LongDivisionDivides` | nt61/src/crypto/rsa.rs:566-573 | the shift-and-subtract recurrence divides: after each bit, quotient and remainder are those of the bits seen so far |
| `BigUintDiv.DivRem` | nt61/src/crypto/rsa.rs:560-583 | q * b + r = a and r < b for every non-zero b; division by zero returns (0, a) |
| `BigUintDiv.Div` | nt61/src/crypto/rsa.rs:552-554 | the quotient, zero for a zero divisor |
| `BigUintDiv.Mod` | nt61/src/crypto/rsa.rs:506-508 | the remainder, the dividend itself for a zero divisor |
| `BigUintMod.ModExp` | nt61/src/crypto/rsa.rs:510-524 | base^exponent mod modulus for every exponent and modulus; an exponent of zero gives 1 even for modulus 1 |
| `BigUintMod.ModInverse` | nt61/src/crypto/rsa.rs:526-550 | the result times a is congruent to gcd(modulus, a), so for every modulus above 1 it is the inverse of a exactly when that gcd is 1; a zero modulus counts as equality |
| `BigUintMod.NextCoefficient` | nt61/src/crypto/rsa.rs:536-542 | t - q * newt modulo the modulus in both the direct and the wrap-around branch |
| `BigUintBytes.FromBytes` | nt61/src/crypto/rsa.rs:387-400 | the value is the big-endian number of the bytes, whatever their count |
| `BigUintBytes.ToBytes` | nt61/src/crypto/rsa.rs:402-411 | the shortest big-endian spelling of the value, one zero byte for zero |
| `BigUintBytes.ByteLen` | nt61/src/crypto/rsa.rs:413-424 | the length of that spelling |
| `NumberTheory.RsaExponents` | nt61/src/crypto/rsa.rs:39-49 | x^(e*d) is congruent to x modulo p * q for every x, also one that p or q divides |
| `RsaKeys.DeriveKey` | nt61/src/crypto/rsa.rs:34-60 | decrypting with the numbers derived from two primes takes every number below the modulus back from its ciphertext exactly if the primes differ, neither is two, and 65537 is invertible modulo (p-1)(q-1); exactly then they are related as those of a key; the code checks none of this |
| `RsaKeys.SamePrimeTwice` | nt61/src/crypto/rsa.rs:34-60 | for every prime drawn twice, no number from that prime on is decrypted, since the recovered value lies below the prime for every ciphertext |
| `RsaKeys.RecoversExactly` | nt61/src/crypto/rsa.rs:34-84 | the exact condition of DeriveKey for every public exponent and every pair of primes |
| `RsaKeys.PrimeTwoValue` | nt61/src/crypto/rsa.rs:46-84 | with one prime two and the other odd, the recovered value is odd whatever the ciphertext, because an exponent reduced modulo one is zero |
| `RsaKeys.CommonCiphertext` | nt61/src/crypto/rsa.rs:39-47 | if e and (p-1)(q-1) have a common factor, another number below the modulus has the ciphertext of one, so no private key could undo the encryption |
| `Primality.IsProbablyPrime` | nt61/src/crypto/rsa.rs:702-745 | an odd number above three is accepted exactly if every base drawn passes the strong test, so an odd prime above three exactly if it divides no base drawn; smaller and even numbers are decided outright |
| `Primality.PrimePasses` | nt61/src/crypto/rsa.rs:723-740 | a base passes for an odd prime exactly if the prime does not divide it |
| `Primality.TrivialBasesPass` | nt61/src/crypto/rsa.rs:723-740 | one and minus one pass for every odd number above two |
| `Primality.NineAccepted` | nt61/src/crypto/rsa.rs:702-745 | nine is accepted if only the base one is drawn |
| `Primality.Round` | nt61/src/crypto/rsa.rs:722-741 | one round decides exactly whether a^d is one or a^(d 2^i) is minus one for some i below r |
| `Primality.SplitTwos` | nt61/src/crypto/rsa.rs:717-720 | the halving loop splits n - 1 into its odd part and the number of twos |
| `Primality.RandomOdd` | nt61/src/crypto/rsa.rs:686-700 | the candidate is odd, fills its bytes and has its two highest bits set |
| `Primality.ModulusLength` | nt61/src/crypto/rsa.rs:29-42 | the product of two such candidates has the requested number of bits exactly if that is a multiple of sixteen; otherwise it is longer |
| `Rsa.Difference` | nt61/src/crypto/rsa.rs:77-82 | m1 - m2 modulo p in both branches of the sign test |
| `Rsa.CrtIsPower` | nt61/src/crypto/rsa.rs:74-84 | recombining the two half-size powers gives c^d mod n, for every c |
| `Rsa.Recombine` | nt61/src/crypto/rsa.rs:77-84 | the recombined number lies below n, is m1 modulo p and m2 modulo q, and is the only such number |
| `Rsa.PrivatePower` | nt61/src/crypto/rsa.rs:72-84 | what decryption computes before unpadding, for every key: the two half-size powers combined; for a valid key that is c^d mod n |
| `Rsa.Encrypt` | nt61/src/crypto/rsa.rs:105-110 | the ciphertext is the shortest spelling of the padded plaintext raised to e modulo n |
| `Rsa.Decrypt` | nt61/src/crypto/rsa.rs:71-87 | the unpadded bytes of that number, for every key; for a valid key, of c^d mod n |
| `Rsa.PowerBytesUndo` | nt61/src/crypto/rsa.rs:71-110 | raising to e and to d in either order gives back the bytes without their leading zeros, for every number below n |
| `RsaPadding.EncryptPad` | nt61/src/crypto/rsa.rs:138-160 | the block type 2 layout around the random filler, or nothing when the data does not fit |
| `RsaPadding.UnpadEncryptPadded` | nt61/src/crypto/rsa.rs:138-160 | unpadding returns the data of every padded block, through a conversion that drops the leading zero byte |
| `RsaPadding.UnpadExactly` | nt61/src/crypto/rsa.rs:252-262 | data other than nothing is recovered exactly from 0x02, bytes other than zero, a zero and the data; whatever is not so framed unpads to nothing |
| `RsaPadding.SignPad` | nt61/src/crypto/rsa.rs:162-188 | the block type 1 encoding, refused exactly for digests of an unsupported length or too long for the key |
| `RsaPadding.DigestInfoDer` | nt61/src/crypto/rsa.rs:225-248 | for each supported length, prefix and digest are the DER encoding of the algorithm identifier of SHA-1, SHA-256, SHA-384 or SHA-512 and of the digest (section 9.2 of RFC 8017) |
| `RsaPadding.VerifyPad` | nt61/src/crypto/rsa.rs:200-223 | accepts exactly the encodings of the digest, for any number of filler bytes, that are long enough |
| `RsaPss.Mgf1` | nt61/src/crypto/rsa.rs:312-324 | xors the MGF1 stream into the mask in place, for every length |
| `RsaPss.PssEncode` | nt61/src/crypto/rsa.rs:264-310 | the EMSA-PSS encoding for any hash and salt, whose last 33 bytes are the hash of eight zeros, digest and salt and then 0xbc, and exactly when it is refused |
| `RsaPss.PssVerify` | nt61/src/crypto/rsa.rs:326-373 | accepts exactly the encodings of the digest with some salt of the given length, after restoring dropped zeros |
| `RsaPss.ChecksExact` | nt61/src/crypto/rsa.rs:338-372 | the checks on the unmasked block are together equivalent to being an encoding |
| `RsaPss.EncodingPassesFor` | nt61/src/crypto/rsa.rs:326-373 | an encoding passes for another digest and salt length exactly when the length is the one used and the hash of eight zeros, digest and salt is the same for both digests |
| `RsaSignature.DecryptEncrypt` | nt61/src/crypto/rsa.rs:71-110 | decryption returns the plaintext exactly when it fits with three bytes of framing or is empty; a longer one is padded to nothing and lost |
| `RsaSignature.SignPkcs` | nt61/src/crypto/rsa.rs:89-94 | the signature at full modulus length, refused exactly when the encoding is |
| `RsaSignature.VerifyPkcs` | nt61/src/crypto/rsa.rs:112-118 | accepts exactly when the recovered bytes are an encoding of the digest |
| `RsaSignature.SignVerifyPkcs` | nt61/src/crypto/rsa.rs:89-118 | a signature verifies for another digest exactly when both have the same DigestInfo string |
| `RsaSignature.SignVerifyPkcsSupported` | nt61/src/crypto/rsa.rs:89-118 | for digests of a supported length that means: exactly for the digest that was signed |
| `RsaSignature.SignPss` | nt61/src/crypto/rsa.rs:96-101 | the PSS signature for any salt, refused exactly when the encoding is |
| `RsaSignature.VerifyPss` | nt61/src/crypto/rsa.rs:120-135 | accepts exactly when the recovered bytes are a PSS encoding of the digest |
| `RsaSignature.SignVerifyPss` | nt61/src/crypto/rsa.rs:96-135 | a PSS signature verifies for a digest and salt length exactly when the length is the one used and the hash of eight zeros, digest and salt is that of the signed digest, so always for its own |
| `RsaSignature.SignVerifyPssOnly` | nt61/src/crypto/rsa.rs:96-135 | with a hash that does not collide on digests with the salt, it verifies for the signed digest and salt length and for nothing else |
| `RsaSignature.CollisionFreeHash` | nt61/src/crypto/rsa.rs:282-287 | for every salt there is a hash without such collisions |
| `RsaSignature.RecoverSigned` | nt61/src/crypto/rsa.rs:89-135 | the public exponent recovers every encoded message below the modulus from its signature |
| `AesField.Gmul` | nt61/src/crypto/cipher.rs:805-825 | the product in the field of AES, by doubling and adding |
| `AesField.TimesXorLeft` | nt61/src/crypto/cipher.rs:805-825 | that product is linear in its first factor |
| `AesField.TimesXorRight` | nt61/src/crypto/cipher.rs:805-825 | and in its second |
| `AesField.Unmixes` | nt61/src/crypto/cipher.rs:144-170 | the sums of products with 14, 11, 13, 9 undo those with 2, 3, 1, 1, by linearity of the product in each factor |
| `AesTables.SboxInverse` | nt61/src/crypto/cipher.rs:827-863 | the second table inverts the first, for every byte |
| `AesSbox.SboxDefinition` | nt61/src/crypto/cipher.rs:827-844 | each entry of the table is the affine image of the field inverse (section 5.1.1 of FIPS 197) |
| `AesSbox.ProductIsTimes` | nt61/src/crypto/cipher.rs:805-825 | eight rounds of the multiplication loop spelled out are the product |
| `Aes.ShiftRowsFormula` | nt61/src/crypto/cipher.rs:104-122 | row r moves r columns to the left |
| `Aes.AddRoundKey` | nt61/src/crypto/cipher.rs:86-90 | xors the key into the block in place |
| `Aes.SubstituteBytes` | nt61/src/crypto/cipher.rs:92-96 | substitutes every byte in place |
| `Aes.InvSubstituteBytes` | nt61/src/crypto/cipher.rs:98-102 | substitutes every byte back in place |
| `Aes.MixInPlace` | nt61/src/crypto/cipher.rs:144-156 | mixes the four columns in place |
| `Aes.UnmixInPlace` | nt61/src/crypto/cipher.rs:158-170 | unmixes the four columns in place |
| `Aes.MixColumnsBack` | nt61/src/crypto/cipher.rs:144-170 | unmixing undoes mixing on every block |
| `Aes.SubBytesBack` | nt61/src/crypto/cipher.rs:92-102 | substituting back undoes substituting on every block |
| `Aes.ShiftRowsBack` | nt61/src/crypto/cipher.rs:104-142 | shifting back undoes shifting on every block |
| `AesCipher.EncryptBlock` | nt61/src/crypto/cipher.rs:56-69 | the rounds in place compute the cipher, for any number of round keys |
| `AesCipher.DecryptBlock` | nt61/src/crypto/cipher.rs:71-84 | the inverse rounds in place compute the inverse cipher |
| `AesCipher.CipherBack` | nt61/src/crypto/cipher.rs:56-84 | decryption inverts encryption for every block, any round keys and any number of rounds, so for AES-128 and AES-256 |
| `AesKeys.Constants` | nt61/src/crypto/cipher.rs:33-33 | the round constants are the powers of x in the field |
| `AesKeys.ExpandKey128` | nt61/src/crypto/cipher.rs:30-54 | the eleven round keys follow the recurrence of section 5.2 of FIPS 197: by words, and by bytes, where bytes 13, 14, 15 and 12 of a round key, substituted, and the round constant enter the first four bytes of the next and each other byte adds the one four before it; the first round key is the key |
| `AesKeys.ExpandKey256` | nt61/src/crypto/cipher.rs:192-230 | the fifteen round keys follow that recurrence for eight-word keys, by words and by bytes: each grows from the one two before, and the last four bytes of the one before enter rotated and with a constant in even rounds, plainly in odd ones |
| `Cbc.Encrypt` | nt61/src/crypto/cipher.rs:462-483 | chains the blocks; refuses exactly misaligned input |
| `Cbc.CipherBlocks` | nt61/src/crypto/cipher.rs:470-480 | ciphertext block i is the cipher of plaintext block i plus ciphertext block i - 1, or plus the IV for the first one |
| `Cbc.Decrypt` | nt61/src/crypto/cipher.rs:485-508 | unchains the blocks; refuses exactly misaligned input |
| `Cbc.DecryptedEncrypted` | nt61/src/crypto/cipher.rs:462-571 | decryption inverts encryption over every aligned length |
| `Cbc.RoundTrip` | nt61/src/crypto/cipher.rs:525-571 | encrypting and then decrypting returns the plaintext, or the error for misaligned input |
| `Ctr.IncrementCounter` | nt61/src/crypto/cipher.rs:603-610 | the carrying increment in place |
| `Ctr.IncrementValue` | nt61/src/crypto/cipher.rs:603-610 | the increment adds one modulo 256^n to the big-endian counter |
| `Ctr.CounterValue` | nt61/src/crypto/cipher.rs:590-610 | after i blocks the counter holds its start plus i modulo 2^128 |
| `Ctr.CtrMode.Process` | nt61/src/crypto/cipher.rs:590-601 | xors the key stream into the data in place and moves the counter by the blocks begun, partial ones included |
| `Ctr.StreamedTwice` | nt61/src/crypto/cipher.rs:590-601 | processing twice from the same counter restores the data |
| `Ctr.StreamedInPieces` | nt61/src/crypto/cipher.rs:621-632 | processing in two calls is processing in one, when the first ends at a block boundary |
| `Ctr.IncrementIsInc32` | nt61/src/crypto/cipher.rs:757-764 | the 128-bit increment is the 32-bit one of section 6.2 of NIST SP 800-38D exactly until the last four bytes overflow |
| `Ctr.CounterIsCounter32` | nt61/src/crypto/cipher.rs:651-688 | from the counter block that GCM starts with, both run alike for 2^32 - 2 blocks |
| `Gf128.Gf128Mul` | nt61/src/crypto/cipher.rs:773-803 | the multiplication on two 64-bit halves computes the 128-bit product of section 6.3 of NIST SP 800-38D |
| `Gf128.JoinNext` | nt61/src/crypto/cipher.rs:790-796 | shifting and reducing the halves is shifting and reducing the 128-bit number |
| `Gf128.MulXorLeft` | nt61/src/crypto/cipher.rs:773-803 | the product is linear in its first operand |
| `Gf128.MulXorRight` | nt61/src/crypto/cipher.rs:773-803 | and in its second |
| `Gf128Field.MulIsRemainder` | nt61/src/crypto/cipher.rs:773-803 | the bits of the product are the remainder, and the only one, of the carry-less product of the operands' bits modulo x^128 + x^7 + x^2 + x + 1 |
| `Gf128Field.NextShifts` | nt61/src/crypto/cipher.rs:790-796 | one shift of the loop is multiplication by x modulo that polynomial |
| `BinaryPolynomials.RemainderUnique` | nt61/src/crypto/cipher.rs:773-803 | a polynomial has one remainder modulo that polynomial |
| `Gcm.ComputeGhash` | nt61/src/crypto/cipher.rs:727-745 | GHASH of the padded associated data, the padded ciphertext and the length block |
| `Gcm.LengthsSpelled` | nt61/src/crypto/cipher.rs:739-743 | the last block hashed spells the bit length of the associated data in its first eight bytes and that of the text in its last eight, modulo 2^64 |
| `Gcm.GhashInputInjective` | nt61/src/crypto/cipher.rs:727-745 | for lengths below 2^61 bytes, no two pairs of associated data and text give the same blocks to hash |
| `Gcm.ComputeTag` | nt61/src/crypto/cipher.rs:748-755 | the tag is the encrypted first counter block plus that hash |
| `Gcm.Encrypt` | nt61/src/crypto/cipher.rs:664-688 | ciphertext and tag of SP 800-38D's structure, for every length |
| `Gcm.Decrypt` | nt61/src/crypto/cipher.rs:692-722 | returns a plaintext exactly when the tag is the right one |
| `Gcm.RoundTrip` | nt61/src/crypto/cipher.rs:664-722 | decrypting what was encrypted returns it, for every key, nonce, plaintext and associated data |
| `Gcm.CryptedIsGctr` | nt61/src/crypto/cipher.rs:664-688 | for every plaintext length that section 5.2.1.1 of NIST SP 800-38D allows, the key stream is the standard's |
| `Hash.Hasher.Update` | nt61/src/crypto/hash.rs:379-405 | the message taken in grows by the data; whole blocks are compressed in order, the rest waits in the buffer, whose other bytes are arbitrary |
| `Hash.Hasher.Finalize` | nt61/src/crypto/hash.rs:407-429 | the digest of the padded message, whether the padding needs one more block or two |
| `Hash.HashChunks` | nt61/src/crypto/hash.rs:24-74 | however a message is cut into updates, the result is the standard's digest of the whole, for the narrow and the wide hashes, either byte order and every length |
| `HashAlgorithms.Md5Chunks` | nt61/src/crypto/hash.rs:15-74 | MD5 however the message is cut, as sixteen bytes that spell the four final words least significant byte first |
| `HashAlgorithms.Sha1Chunks` | nt61/src/crypto/hash.rs:244-303 | SHA-1 likewise, as twenty bytes that spell the five final words most significant byte first |
| `HashAlgorithms.Sha256Chunks` | nt61/src/crypto/hash.rs:367-429 | SHA-256 likewise, as thirty-two bytes that spell the eight final words |
| `HashAlgorithms.Sha512Chunks` | nt61/src/crypto/hash.rs:518-586 | SHA-512 likewise, as sixty-four bytes that spell the eight final words |
| `HashAlgorithms.Sha384Chunks` | nt61/src/crypto/hash.rs:746-772 | SHA-384 likewise, as forty-eight bytes that spell the first six final words |
| `HashAlgorithms.CountingStart` | nt61/src/crypto/hash.rs:16-22 | MD5 and SHA-1 start from the bytes 01 23 .. ef fe dc .. 10, and SHA-1 also from f0 e1 d2 c3, least significant first |
| `HashAlgorithms.Sha256Start` | nt61/src/crypto/hash.rs:367-378 | the initial words of SHA-256 are the first 32 bits of the fractions of the square roots of the first eight primes |
| `HashAlgorithms.Sha512Start` | nt61/src/crypto/hash.rs:518-533 | those of SHA-512 are 64 bits of the same roots, those of SHA-384 of the roots of the next eight primes |
| `HashAlgorithms.PaddingsStandard` | nt61/src/crypto/hash.rs:52-74 | each hash pads a message with 0x80, zeros and its bit length to whole blocks of 64 or 128 bytes; only MD5 writes the length least significant byte first |
| `Hash.ZerosFit` | nt61/src/crypto/hash.rs:52-66 | the padding ends at a block boundary |
| `Hash.ZerosLeast` | nt61/src/crypto/hash.rs:281-295 | with the fewest zeros that allow it |
| `Hash.PadBuffer` | nt61/src/crypto/hash.rs:568-571 | the terminating bit and the zeros overwrite whatever the buffer held |
| `Hmac.MixKey` | nt61/src/crypto/hash.rs:787-805 | a pad block with the key xor-ed into its start is the zero-filled key xor-ed with the pad |
| `Hmac.UsedKey` | nt61/src/crypto/hash.rs:790-805 | a key longer than a block is replaced by its digest |
| `Hmac.HmacSha256.constructor` | nt61/src/crypto/hash.rs:786-817 | both hashers have taken in their pad blocks |
| `Hmac.HmacSha256.Update` | nt61/src/crypto/hash.rs:819-821 | the text grows by the data |
| `Hmac.HmacSha256.Finalize` | nt61/src/crypto/hash.rs:823-827 | the HMAC of section 2 of RFC 2104 |
| `Hmac.HmacChunks` | nt61/src/crypto/hash.rs:786-827 | that HMAC, however the text is cut into updates, for every key length |
| `CacheManager.CacheManager.constructor` | nt61/src/fs/cache.rs:278-304 | an empty cache stands for what the disk holds |
| `CacheManager.CacheManager.AddToLru` | nt61/src/fs/cache.rs:530-542 | the links spell the list with the block in front |
| `CacheManager.CacheManager.RemoveFromLru` | nt61/src/fs/cache.rs:544-563 | the links spell the list without the block |
| `CacheManager.CacheManager.MoveToLruHead` | nt61/src/fs/cache.rs:565-571 | the links spell the list with the block moved to the front |
| `CacheManager.CacheManager.TouchBlock` | nt61/src/fs/cache.rs:442-449 | list order stays the order of last touch |
| `CacheManager.CacheManager.FlushBlock` | nt61/src/fs/cache.rs:416-440 | a dirty block is written back and clean; the store clients see does not change |
| `CacheManager.CacheManager.EvictLru` | nt61/src/fs/cache.rs:370-382 | the victim is the least recently touched evictable block; there is none only if no listed block is evictable |
| `CacheManager.CacheManager.EvictBlock` | nt61/src/fs/cache.rs:350-368 | eviction takes the least recently touched evictable block, and no other, out of table and list without changing the store; there is none exactly if every listed block is pinned |
| `CacheManager.CacheManager.Allocate` | nt61/src/fs/cache.rs:326-347 | a slot for a new block, which still shows what the slot held; refused exactly if every slot has been handed out and every listed block is pinned, which includes an empty list |
| `CacheManager.CacheManager.ExhaustedUnpinned` | nt61/src/fs/cache.rs:326-368 | without pins no slot can be had exactly if every slot has been handed out and every block dropped since |
| `CacheManager.CacheManager.MarkDirty` | nt61/src/fs/cache.rs:402-414 | the block is counted and queued once, and dirty afterwards unless write-through has flushed it; a block that was dirty already stays dirty even in write-through mode |
| `CacheManager.CacheManager.Lookup` | nt61/src/fs/cache.rs:306-324 | finds exactly the cached keys and makes the block the most recent one |
| `CacheManager.CacheManager.Readahead` | nt61/src/fs/cache.rs:452-490 | fetching ahead, also into blocks of other files, does not change the store; it reaches the end of the window unless no slot can be had, and then caches nothing; while the slots never used suffice, the whole window is cached |
| `CacheState.WindowGrows` | nt61/src/fs/cache.rs:147-164 | a reader that jumps to a block and goes on in sequence is read ahead from the third further block on, in windows of 8, 16 and then 32 blocks |
| `CacheManager.CacheManager.WritebackDirty` | nt61/src/fs/cache.rs:493-528 | write-back does not change the store, takes all, half or at most sixteen blocks off the queue by pressure and leaves those blocks clean, reports how many it wrote, and in the flush-everything branch leaves nothing dirty |
| `CacheManager.CacheManager.FlushAll` | nt61/src/fs/cache.rs:602-609 | nothing stays dirty and the disk holds the whole store |
| `CacheManager.CacheManager.ProcessInvalidations` | nt61/src/fs/cache.rs:585-596 | terminates although flushing may queue notifications; exactly the notified blocks are gone, the queue is empty and the store is unchanged |
| `CacheManager.CacheManager.InvalidateFile` | nt61/src/fs/cache.rs:611-629 | exactly the blocks of the file are gone, written back first |
| `CacheManager.CacheManager.PinBlock` | nt61/src/fs/cache.rs:764-775 | pinning a cached block changes nothing that clients see; a block that is not cached then shows the slot's leftovers as clean data, and the cache stays coherent exactly if those are what the store held |
| `CacheManager.CacheManager.UnpinBlock` | nt61/src/fs/cache.rs:777-785 | one pin less, if there is any; nothing that clients see changes |
| `CacheManager.CacheManager.WriteBlock` | nt61/src/fs/cache.rs:707-727 | the store after writing part of one block: over its old bytes if it was cached, over the slot's leftovers if not; fails exactly if the block is not cached and no slot can be had |
| `CacheManager.CacheManager.CcRead` | nt61/src/fs/cache.rs:651-697 | the bytes read are those of the store, across evictions inside the call; fails exactly if a block of the range is not cached at the start and no slot can be had at the start |
| `CacheManager.CacheManager.CcWrite` | nt61/src/fs/cache.rs:699-731 | the bytes written are in the store and other blocks are untouched; fails exactly if a block of the range is not cached and no slot can be had at the start, and then stops before the first such block; it is a plain write when the blocks written in part are cached at the start and the slots not yet handed out suffice to reach the last of them, and always when no slot can be had |
| `CacheView.MissWrites` | nt61/src/fs/cache.rs:712-720 | writing part of a block is a plain write exactly if it was cached or the slot's leftovers happened to be right |
| `CacheRun.PartialWriteOnMiss` | nt61/src/fs/cache.rs:712-720 | one byte written to an uncached block replaces the disk's other bytes of that block |
| `CacheRun.PinOnMiss` | nt61/src/fs/cache.rs:764-775 | pinning an uncached block shows the slot's zeros where the disk holds sevens |
| `CacheRun.WearOut` | nt61/src/fs/cache.rs:326-333 | reading one block and invalidating its file, as often as there are slots, leaves a cache that can read nothing |
| `CacheRun.Run` | nt61/src/fs/cache.rs:651-757 | every run of reads, writes, read-ahead, write-back, flushes, invalidations and mode changes, by files that own the blocks they read and write, has the outcomes of a plain block store, and each operation fails exactly in the states named for CcRead and CcWrite |
| `CacheRun.FailsWornOut` | nt61/src/fs/cache.rs:651-731 | in a run without pins, a read or write of at least a byte fails exactly where every slot has been handed out and every block dropped, and after it every later one fails too |
| `CacheRun.WornOutStays` | nt61/src/fs/cache.rs:326-333 | no operation brings a worn-out cache back |
| `CacheInvariant.TouchKeeps` | nt61/src/fs/cache.rs:442-449 | touching keeps list, index, slot states, dirty tracking and recency in step |
| `CacheInvariant.FlushKeeps` | nt61/src/fs/cache.rs:416-440 | so does flushing |
| `CacheInvariant.DirtyKeeps` | nt61/src/fs/cache.rs:402-414 | so does marking dirty |
| `CacheInvariant.PinKeeps` | nt61/src/fs/cache.rs:764-785 | so does pinning and unpinning |
| `CacheInvariant.RemoveKeeps` | nt61/src/fs/cache.rs:544-563 | so does dropping a block |
| `CacheInvariant.InsertKeeps` | nt61/src/fs/cache.rs:326-347 | so does entering one |
| `CacheState.PushFrontLinks` | nt61/src/fs/cache.rs:530-542 | the link updates of an insertion at the head keep an acyclic doubly linked list |
| `CacheState.UnlinkLinks` | nt61/src/fs/cache.rs:544-563 | so do those of a removal anywhere |
| `Iocp.StepKeeps` | nt61/src/io/iocp.rs:133-227 | every step of every thread keeps the invariant of the port |
| `Iocp.ConcurrencyBounded` | nt61/src/io/iocp.rs:157-218 | in every reachable state the active counter equals the number of slot holders, at most the limit |
| `Iocp.UnlimitedCounted` | nt61/src/io/iocp.rs:184-186 | without a limit it equals that number modulo 2^32 |
| `Iocp.PopsInOrder` | nt61/src/io/iocp.rs:133-205 | at most 4096 packets are queued, and packets are popped in the order they were posted |
| `Iocp.PacketsConserved` | nt61/src/io/iocp.rs:133-227 | packets counted as posted, plus one pushed but not counted, are those counted as retrieved, queued or on their way to a caller |
| `Iocp.DeliveredOnce` | nt61/src/io/iocp.rs:198-227 | every popped packet is carried by exactly one thread or was returned to one caller, never both |
| `Iocp.QuietPort` | nt61/src/io/iocp.rs:133-227 | with no caller inside, no slot is held and every posted packet was returned or is queued |
| `Iocp.GetDelivers` | nt61/src/io/iocp.rs:157-227 | from every reachable state with the lock and a slot free, a get that runs while no other thread moves can always be completed; however it runs, when it has returned it has handed the oldest packet to its caller, counted it and left everything else as it was, or the queue was empty and nothing has changed |
| `Iocp.PostAppends` | nt61/src/io/iocp.rs:133-145 | so can a post, which has appended and counted its packet exactly if fewer than 4096 were queued, and changed nothing otherwise |
| `Iocp.GetWaits` | nt61/src/io/iocp.rs:164-183 | with every slot taken, a get that runs alone stays in its claiming loop and changes nothing |
| `Iocp.NeverStuck` | nt61/src/io/iocp.rs:133-227 | in every reachable state, a thread inside a call can take a step, or the holder of the lock it waits for can |
| `FileCache.FileCache.Read` | nt61/src/fs/cache_complete.rs:57-73 | a hit returns the latest data of the key, counts the access and moves the key to the end of the list; a miss changes nothing, the buffer included |
| `FileCache.FileCache.Touch` | nt61/src/fs/cache_complete.rs:143-148 | the list stays a duplicate-free ordering of the keys by last use |
| `FileCache.FileCache.Write` | nt61/src/fs/cache_complete.rs:75-102 | fails exactly if the data alone exceeds the maximum, and then has emptied the cache; otherwise it drops least recently used entries, no more than it takes, and the data is the latest of its key; the disk changes only where a dirty entry stands |
| `FileCache.FileCache.EvictLru` | nt61/src/fs/cache_complete.rs:151-164 | drops the least recently used entry, written to its offset if dirty, and nothing else; only an empty cache has none |
| `FileCache.FileCache.FlushDirtyPages` | nt61/src/fs/cache_complete.rs:104-131 | nothing stays dirty, the latest data of every key was the last written back for it, and it is on disk unless something written back for another key overlaps it; the disk changes only where a dirty entry stands |
| `FileCache.FlushCollides` | nt61/src/fs/cache_complete.rs:166-174 | entries of two files at one offset go to the same place on disk, so after a flush one of them is not there |
| `FileCache.FileCache.Invalidate` | nt61/src/fs/cache_complete.rs:133-141 | forgets exactly that key, and says whether it was cached |
| `BufferPool.BufferPool.constructor` | nt61/src/fs/cache_manager.rs:128-150 | all buffers are free, listed once |
| `BufferPool.BufferPool.Allocate` | nt61/src/fs/cache_manager.rs:153-178 | one more reference, or a buffer from the free list; refused exactly by an exhausted pool |
| `BufferPool.BufferPool.Release` | nt61/src/fs/cache_manager.rs:181-195 | one reference less; the last one of a clean buffer frees it |
| `BufferPool.BufferPool.MarkDirty` | nt61/src/fs/cache_manager.rs:198-208 | keeps the pool in order exactly if the buffer is not free |
| `BufferPool.FreeBufferMarked` | nt61/src/fs/cache_manager.rs:198-208 | marking a free buffer leaves it both on the free list, next to be handed out, and on the dirty list |
| `BufferPool.BufferPool.FreeBuffer` | nt61/src/fs/cache_manager.rs:211-222 | free list and mapped buffers stay a partition of all ids |
| `BufferPool.BufferPool.ClearDirty` | nt61/src/fs/cache_manager.rs:230-235 | after a transfer the dirty list is again exactly the dirty buffers |
| `BufferManager.BufferManager.FlushBuffer` | nt61/src/fs/cache_manager.rs:479-503 | a dirty buffer is written to its offset and clean |
| `BufferManager.BufferManager.FlushList` | nt61/src/fs/cache_manager.rs:506-535 | flushing listed buffers cleans exactly those; each offset then holds the data of a listed buffer that stands there, its own if no other has the same offset, and offsets of no listed buffer are as before |
| `BufferManager.BufferManager.FlushAll` | nt61/src/fs/cache_manager.rs:506-516 | nothing stays dirty; the disk changes at the offsets of dirty buffers only, and holds their data there |
| `BufferManager.BufferManager.FlushFile` | nt61/src/fs/cache_manager.rs:519-535 | no buffer of the file stays dirty and the data of those that were is on disk; other files keep their buffers, and other offsets what they held |
| `BufferManager.BufferManager.InvalidateFile` | nt61/src/fs/cache_manager.rs:621-644 | no buffer is mapped for the file, and the data of those that were dirty is on disk; other files keep their buffers, and other offsets what they held |
| `BufferManager.BufferManager.WriteBlock` | nt61/src/fs/cache_manager.rs:444-467 | the bytes go over the old page on a hit and over the next free buffer's leftovers on a miss, and no other page or key changes; in write-back mode the block is then mapped and dirty; in write-through mode it reaches the disk exactly if it was dirty already, and is unmapped unless it was in use |
| `BufferManager.WriteThroughLost` | nt61/src/fs/cache_manager.rs:444-467 | a write-through write to an unmapped block succeeds and is neither cached nor on disk |
| `BufferManager.BufferManager.Write` | nt61/src/fs/cache_manager.rs:428-476 | in write-back mode every byte of a write that succeeds can be read back, and it succeeds exactly if there are free buffers for the unmapped blocks of the range; other bytes of cached blocks are as before; a block outside the range reads as before if it was cached, or if no dirty buffer and no block of the range stands at its offset; in write-through mode it fails only with no free buffer |
| `BufferManager.BufferManager.Read` | nt61/src/fs/cache_manager.rs:373-425 | the bytes returned are those cached before, or else the disk's, and are cached afterwards; what clients see of any block stays the same; it succeeds exactly if there are free buffers for the unmapped blocks of the range |
| `BufferManager.BufferManager.Readahead` | nt61/src/fs/cache_manager.rs:549-590 | every block of the file that begins in the sixteen blocks' worth of bytes after the offset is cached, or no buffer is free, and no cached data changes |
| `BufferManager.BufferManager.CheckFlushThreshold` | nt61/src/fs/cache_manager.rs:538-547 | flushes everything exactly if at least four fifths of the mapped buffers are dirty, and else changes nothing |
| `BufferManager.FlushClobbers` | nt61/src/fs/cache_manager.rs:479-503 | a byte written for one file and flushed is read for another file whose block at that offset is not cached |
| `Pipe.PipeTable.CreateAnonymous` | nt61/src/io/pipe.rs:84-124 | new ids that no pipe ever had, in the first free slot |
| `Pipe.PipeTable.SlotForId` | nt61/src/io/pipe.rs:128-142 | each id of a live pipe resolves to its own slot and direction, any other id to nothing |
| `Pipe.PipeTable.Read` | nt61/src/io/pipe.rs:146-164 | the oldest buffered bytes; per pipe, bytes read and bytes buffered stay the bytes accepted, in order |
| `Pipe.PipeTable.Write` | nt61/src/io/pipe.rs:168-187 | as many bytes as fit into 65536; the rest is not accepted |
| `Pipe.PipeTable.CloseEnd` | nt61/src/io/pipe.rs:192-209 | the slot is reclaimed exactly when both ends are closed |
| `Locking.LockManager.AcquireLock` | nt61/src/fs/locking.rs:148-178 | granted exactly if no lock of another process on the file, one of the two exclusive, shares a byte below the last with it or has it strictly inside while empty (or the other way round), under a key never used before |
| `Locking.LockManager.ReleaseLock` | nt61/src/fs/locking.rs:180-187 | exactly the lock with that key goes |
| `Locking.LockManager.IsLocked` | nt61/src/fs/locking.rs:189-220 | refused exactly if a lock of another process covers the whole range and is exclusive or the access writes |
| `Locking.BytesExcluded` | nt61/src/fs/locking.rs:61-82 | no byte below the last is covered by locks of two processes of which one is exclusive |
| `Locking.ConflictsExactly` | nt61/src/fs/locking.rs:61-82 | two locks conflict exactly if their processes differ, one is exclusive, and they share a byte below the last or one is empty and lies strictly inside the other, for all ranges |
| `Locking.CoversExactly` | nt61/src/fs/locking.rs:84-89 | a lock covers a range exactly if it holds all its bytes below the last; a range that is empty after saturation, if it starts in the lock or at its end |
| `Locking.LastByteLockedTwice` | nt61/src/fs/locking.rs:148-220 | the last byte is the exception, since range ends saturate: two processes acquire it exclusively, and then each is refused on its own byte |
| `Locking.HoldersAdmittedExactly` | nt61/src/fs/locking.rs:189-220 | in every table without conflicts, exclusive holders are admitted to a range their lock covers, exactly if the range is not empty after saturation |
| `Locking.RefusedInsideOnly` | nt61/src/fs/locking.rs:84-89 | a foreign lock that rules an access out refuses it exactly if it holds every byte of it below the last; of the accesses empty after saturation it refuses those that start in it or at its end |
| `Locking.OverlapAdmitted` | nt61/src/fs/locking.rs:84-89 | so an access to bytes 5 to 14 passes a foreign exclusive lock on bytes 0 to 9 |
| `Locking.LockManager.RequestOplock` | nt61/src/fs/locking.rs:222-247 | granted exactly if the file has none, since none is ever left breaking |
| `Locking.LockManager.BreakOplock` | nt61/src/fs/locking.rs:249-284 | breaks exactly an oplock that blocks the access, and afterwards none blocks it or needs a break for it; after a break for a write the oplock is gone, after one for a read it is level 2 or read and still blocks writes |
| `Locking.BreaksExactly` | nt61/src/fs/locking.rs:101-125 | an access breaks exactly the oplocks that block it, unless a break is under way |
| `Locking.LockManager.ReleaseOplock` | nt61/src/fs/locking.rs:292-305 | exactly the oplock with that key goes |
| `Locking.LockManager.ReleaseProcessLocks` | nt61/src/fs/locking.rs:307-320 | exactly what the process holds goes |
| `Locking.LockManager.ReleaseFileLocks` | nt61/src/fs/locking.rs:322-325 | exactly what is held on the file goes |

## Left out

- CacheManager.CacheManager.CcWrite: a write that ends inside a cached block is not claimed to be plain when the slots not yet handed out do not suffice to reach that block, because it may be evicted before it is reached; what it then gets is exact in CacheView.MissWrites.
- CacheRun.Run: pinning is not among the operations of a run, because pinning an uncached block already breaks the store (CacheManager.CacheManager.PinBlock says when); a run may start with pinned blocks. Files that read or write each other's blocks are excluded, for the reason above.
- BufferManager.BufferManager.Write: reading back is not promised in write-through mode, because such a write may be dropped (BufferManager.BufferManager.WriteBlock says when); that mode may also succeed with no free buffer, when blocks of the range are given back on the way.
- FileCache.FileCache.EvictLru: a failed write-back, which the code ignores, is not modelled; disk writes succeed.
- Hash.HashChunks: the compression functions themselves (rounds and constants of MD5, SHA-1, SHA-256, SHA-512) are parameters.
- Pipe.PipeTable.CreateAnonymous: ids are unbounded, so running out of 64-bit ids is not modelled; neither are the event words that wake waiters.
- Iocp.StepKeeps: memory orderings weaker than one global order of the atomic steps, and the reading of the clock behind a timeout (giving up is always possible after finding the queue empty).
- The loop of prime generation, which draws until a candidate is accepted; `RsaKeys.DeriveKey` starts from two primes, while the code may accept a composite (`Primality.IsProbablyPrime` says when).
- LFU and ARC eviction, statistics and percentages of `fs/cache.rs`; the dirty thresholds are an arbitrary choice of branch.
- Views, the lazy writer's schedule and the statistics of `fs/cache_manager.rs`; flushing by age is `FlushList` on the aged buffers.
- The port table and handle association of `io/iocp.rs`, and the handle wrappers of `io/pipe.rs`: they would only add easy members.
- ECB, RC4, DES and triple DES of `crypto/cipher.rs`, and the CNG and CryptoAPI shells around them.
- Offsets and sizes near 2^64 in `fs/cache.rs` and `fs/cache_manager.rs`: byte positions are unbounded naturals.
- Everything else in the repository: boot, drivers, memory, scheduling, other file systems and I/O paths.
