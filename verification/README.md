# hypepool native code: a verified model

hypepool puts native crypto and codec libraries behind a mining pool. This project models the
parts of those libraries that carry an algorithm of their own and proves, for all inputs, what
each is there for. `dafny verify dfyconfig.toml` checks everything; nothing here executes the
original code.

Loops and in-place updates of the source are methods over arrays, fields and locals. Each is
proved against a specification function, and the laws of that function are lemmas; where both
sides rest on one definition, further lemmas say bytes, places and order without it. Hash,
compression and permutation functions are parameters, constrained only in the length of what
they return, except where a property is about them (the SHA-256 rounds, the AES rounds).

## Components

- **Ed25519 scalars and points** (`Slide`, `Radix16`, `ScalarMult`, over `Group`): the sliding
  window recoding with its carry loop, both radix-16 carry loops, and the scalar
  multiplications built on them, in any abelian group. A point in any of the
  coordinate systems of the source is one group element; `Group.Abelian` is the only thing
  asked of the group operations.
- **Field limbs** (`FieldLimbs`, `FieldBytes`): `fe_mul` and `fe_tobytes` on `int32` and `int64`
  newtypes, so that every operation is also proved not to overflow.
- **CryptoNote signatures** (`Ed25519`, `Signatures`, `StealthKeys`): plain and ring signatures,
  key derivation and transaction proofs. `Ed25519.Curve` gathers the group, the base point of
  prime order l, the point encoding with its partial inverse, and the two hashes. Random scalars
  are arguments. `CyclicCurve` shows that all that is asked of a curve can be met.
- **Monero addresses** (`WideInt`, `Varint`, `Positional`, `Base58`, `Address`): wide
  multiplication and division, the variable-length integer, block base58, and the checksummed
  address.
- **Merkle tree hash** (`MerkleTree`), **Lyra2 row schedule** (`Lyra2`).
- **NeoScrypt** (`FastKdf`, `Blake2s`, `NeoBlockMix`): the mirrored ring buffer, the lazy
  two-block buffer, the block mixer with its shortcuts.
- **SHA-256, HMAC, PBKDF2, scrypt** (`Sha256Block`, `Sha256`, `Hmac`, `Pbkdf2`, `BlockMix`,
  `Smix`, `Scrypt`) against FIPS 180-4, RFC 2104, RFC 8018 and RFC 7914; `Sha256Vector` takes the
  message "abc" through all of SHA-256.
- **OpenAES** (`AesField`, `AesBlock`, `AesContainer`, `AesContext`): rounds over any type with
  an xor and a linear doubling (bytes being one), ECB and CBC, the container and its context.
- Shared: `Wrappers` (optional results), `Numbers` (positional values, powers), `Bits` (masks as
  arithmetic), `Rows` (flat arrays read as rows), `Buffers` (byte copies and xors).

## Where the code and its comments differ

- `fe_tobytes` (crypto-ops.c:1005-1031) argues with |q| <= 1; within the stated limb bounds q can
  be -2, exactly when the value is below -(2^255 - 19) (`FieldBytes.QuotientMinusTwo`,
  `FieldBytes.MinusTwoReached`). The result is still canonical, which is what
  `FieldBytes.FeToBytes` proves.
- In `fe_tobytes` the shift `h4 << 6` leaves the 32-bit range exactly when bit 127 of the
  canonical value is set (`FieldBytes.FourthLimbOverflows`, `FieldBytes.FourthLimbReached`), and
  no other shift can (`FieldBytes.JoinsFit`); the model lets it wrap, and the stored low byte does
  not depend on it.
- `decode_block` (base58.cpp:173) says its `order` never overflows. The last, unused
  multiplication of an 11-letter block does (`Base58.OrderFits`); no test reads that product.
- `slide` says nothing of its range; above 2^255 it can lose a carry (`Slide.AllOnesLosesCarry`);
  `Slide.SlideExact` says exactly when.
- `read_varint` returns a positive count on a varint that is cut off, so `decode_addr` accepts
  some addresses it would not print (`Address.TruncatedTagAccepted`); `Address.AddressCanonical`
  says which.
- `neoscrypt_blake2s` always hashes a key block and carries only one counter word;
  `Blake2s.DigestMeetsRfc` says exactly when that is the standard's keyed hash.
- Lyra2's step choices do not reach every row for every row count;
  `Lyra2.OddPassCoverage` and `Lyra2.EvenPassCoverage` give the exact conditions, and
  `Lyra2.SixRowsMissed` a row count that fails.
- `check_tx_proof` does not check that A is in the prime-order subgroup; `StealthKeys.HonestExact`
  says that all honest proofs about A pass exactly when it is, and
  `CyclicCurve.HonestProofRefused` is one that does not.

## Model

| member | source | states |
|---|---|---|
| Slide.SlideCorrect | src/Hashing/libcryptonote/crypto/crypto-ops.c:1143-1173 | for every byte string with a clear top bit, of any length, the recoding has the value of the scalar, every digit is 0 or odd in -15..15, and any two nonzero digits are at least five places apart |
| Slide.RecodeValue | src/Hashing/libcryptonote/crypto/crypto-ops.c:1143-1173 | the recoded digits still sum to the scalar whenever the scalar is at most half the range, so no carry falls off the top |
| Slide.RecodeExact | src/Hashing/libcryptonote/crypto/crypto-ops.c:1152-1172 | for any bits and an incoming carry, the recoding is worth their value and the carry, less 2^n times the carry that leaves the top |
| Slide.SlideExact | src/Hashing/libcryptonote/crypto/crypto-ops.c:1143-1173 | for every byte string: the value is kept if and only if no carry leaves the top, which one scan over the bits in steps of one and five decides; otherwise exactly 2^bits is missing |
| Slide.RecodeSlid | src/Hashing/libcryptonote/crypto/crypto-ops.c:1143-1173 | digit size and spacing hold for every scalar, even one that loses its top carry |
| Slide.AllOnesLosesCarry | src/Hashing/libcryptonote/crypto/crypto-ops.c:1158-1166 | a scalar of all one bits, which is at least 2^255 for 256 bits, is recoded to the value -1: the carry loop drops the carry off the top |
| Slide.BitsValue | src/Hashing/libcryptonote/crypto/crypto-ops.c:1148-1150 | the bits written by the first loop have the value of the scalar |
| Slide.Carry | src/Hashing/libcryptonote/crypto/crypto-ops.c:1160-1166 | the carry loop adds one to the digits from k on and touches nothing below k |
| Slide.AbsorbWindow | src/Hashing/libcryptonote/crypto/crypto-ops.c:1153-1171 | the middle loop folds the following bits into digit i, which leaves the digits below alone and yields the window of the specification |
| Slide.SlideBits | src/Hashing/libcryptonote/crypto/crypto-ops.c:1152-1172 | the two nested loops compute the recoding of the bits in place |
| Slide.Slide | src/Hashing/libcryptonote/crypto/crypto-ops.c:1143-1173 | the whole function computes the recoding of its bytes for every 256-bit input |
| Radix16.FromBytesCorrect | src/Hashing/libcryptonote/crypto/crypto-ops.c:1950-1961 | the byte-wise carry loop yields digits in -8..8 whose radix-16 value is the scalar, for a[31] <= 127 |
| Radix16.RecodingsAgree | src/Hashing/libcryptonote/crypto/crypto-ops.c:1552-1567 | the nibble-wise carry loop of ge_scalarmult_base yields digit for digit what the byte-wise loop of ge_scalarmult yields, for both carries that occur and any top byte |
| Radix16.RecodeBytes | src/Hashing/libcryptonote/crypto/crypto-ops.c:1950-1961 | the recoding loop of ge_scalarmult, on the array e |
| Radix16.RecodeNibbles | src/Hashing/libcryptonote/crypto/crypto-ops.c:1552-1567 | the recoding loop of ge_scalarmult_base produces the same digits |
| ScalarMult.DsmPrecomp | src/Hashing/libcryptonote/crypto/crypto-ops.c:1175-1187 | the table holds the odd multiples s, 3s, ..., 15s |
| ScalarMult.DoubleLoop | src/Hashing/libcryptonote/crypto/crypto-ops.c:2015-2041 | for any two slid digit arrays the double-and-add loop returns the sum of both values times their points, using only odd multiples |
| ScalarMult.DoubleScalarMultPrecomp | src/Hashing/libcryptonote/crypto/crypto-ops.c:2003-2042 | for any two strings of 32 bytes, a A + b B in any abelian group with 2^256 taken off a scalar whose top carry slide loses, and exactly a A + b B below 2^255; with the fixed table it is also ge_double_scalarmult_base_vartime |
| ScalarMult.Select | src/Hashing/libcryptonote/crypto/crypto-ops.c:1515-1533 | the moves over the table and the conditional negation give d times the point for every d in -8..8 |
| ScalarMult.GeScalarMult | src/Hashing/libcryptonote/crypto/crypto-ops.c:1943-2001 | the single-pass Horner loop returns a times A for every a with a[31] <= 127 |
| ScalarMult.EvenOdd | src/Hashing/libcryptonote/crypto/crypto-ops.c:1569-1583 | the digits at even places plus sixteen times those at odd places make the value |
| ScalarMult.GeScalarMultBase | src/Hashing/libcryptonote/crypto/crypto-ops.c:1544-1584 | odd digits, times 16, even digits over the table returns a times the base point: the same function of a as the Horner loop |
| ScalarMult.Mul8 | src/Hashing/libcryptonote/crypto/crypto-ops.c:2044-2051 | three doublings are multiplication by eight |
| FieldLimbs.PlaceValue | src/Hashing/libcryptonote/crypto/crypto-ops.c:403-512 | a row of the schoolbook product, with its factors of 19 and 2, is worth its weight times the other operand less a multiple of 2^255 - 19 |
| FieldLimbs.ColumnsValue | src/Hashing/libcryptonote/crypto/crypto-ops.c:378-522 | the ten column sums are congruent to the product of the operands modulo 2^255 - 19 |
| FieldLimbs.CarriesLow | src/Hashing/libcryptonote/crypto/crypto-ops.c:541-567 | the first carries keep the value exactly and bring the limbs down, with no 64-bit overflow |
| FieldLimbs.CarriesHigh | src/Hashing/libcryptonote/crypto/crypto-ops.c:569-582 | the last carries, with the wrap of 19 times the top one, keep the value modulo the prime and meet the 1.01 bounds |
| FieldLimbs.FeMul | src/Hashing/libcryptonote/crypto/crypto-ops.c:346-594 | on limbs within 1.65 times 2^26 and 2^25 nothing overflows its 32-bit or 64-bit intermediate, the result is within 1.01 times 2^25 and 2^24, and it is congruent to the product; the output may alias either input |
| FieldBytes.Quotient | src/Hashing/libcryptonote/crypto/crypto-ops.c:1055-1065 | the estimate q of the comment is the exact quotient: the value less q primes lies in 0..p-1 for every limb vector within 1.1 times 2^26 and 2^25 |
| FieldBytes.QuotientExact | src/Hashing/libcryptonote/crypto/crypto-ops.c:1005-1031 | the inequality behind that estimate, from the ten floor divisions |
| FieldBytes.QuotientMinusTwo | src/Hashing/libcryptonote/crypto/crypto-ops.c:1010-1031 | the estimate is -2, which the comment rules out, exactly for the values below minus one prime |
| FieldBytes.MinusTwoReached | src/Hashing/libcryptonote/crypto/crypto-ops.c:1010-1031 | such a value within the stated bounds: all limbs 0 but h9 = -36909875 |
| FieldBytes.Settle | src/Hashing/libcryptonote/crypto/crypto-ops.c:1068-1080 | adding 19 q and carrying leaves limbs in their exact ranges and the value unchanged but for the dropped top carry |
| FieldBytes.JoinsFit | src/Hashing/libcryptonote/crypto/crypto-ops.c:1090-1121 | seven of the eight joining shifts stay inside 32 bits |
| FieldBytes.FourthLimbOverflows | src/Hashing/libcryptonote/crypto/crypto-ops.c:1102-1102 | the shift of h4 by 6 leaves the 32-bit range exactly when bit 127 of the canonical value is set |
| FieldBytes.FourthLimbReached | src/Hashing/libcryptonote/crypto/crypto-ops.c:1102-1102 | an input within the bounds for which it does: all limbs 0 but h4 = 2^25 |
| FieldBytes.Reduce | src/Hashing/libcryptonote/crypto/crypto-ops.c:1055-1088 | from any input within the bounds the quotient and the carries reach the limbs of the canonical value, and the shift overflows exactly when its bit 127 is set |
| FieldBytes.JoinByteSum | src/Hashing/libcryptonote/crypto/crypto-ops.c:1090-1121 | the or and the 32-bit shift lose nothing of the stored byte |
| FieldBytes.StoreBytes | src/Hashing/libcryptonote/crypto/crypto-ops.c:1090-1121 | the 32 assignments write the joined bytes of the limbs in order |
| FieldBytes.FeToBytes | src/Hashing/libcryptonote/crypto/crypto-ops.c:1005-1122 | the 32 bytes encode the unique representative in 0..2^255-20 |
| FieldBytes.EncodingDecides | src/Hashing/libcryptonote/crypto/crypto-ops.c:1005-1031 | two encodings are equal exactly when the encoded numbers are congruent |
| Ed25519.HashToEcInSubgroup | src/Hashing/libcryptonote/crypto/crypto.cpp:367-375 | the point hashed to lies in the subgroup of prime order because of the final multiplication by eight |
| Ed25519.Response | src/Hashing/libcryptonote/crypto/crypto.cpp:205-247 | the response s = k - n x mod l closes the verification equation for any base in the subgroup, in both argument orders the code uses |
| Signatures.ChallengeMatches | src/Hashing/libcryptonote/crypto/crypto.cpp:243-246 | hash, subtract, test for zero accepts exactly when the hash modulo l is the expected challenge |
| Signatures.GenerateSignature | src/Hashing/libcryptonote/crypto/crypto.cpp:205-226 | the challenge is the hash of prefix, key and commitment, and the response is k - c x mod l |
| Signatures.CheckSignature | src/Hashing/libcryptonote/crypto/crypto.cpp:228-247 | accepts exactly the signatures that decode, have reduced scalars and satisfy the equation |
| Signatures.SignatureComplete | src/Hashing/libcryptonote/crypto/crypto.cpp:205-247 | every signature so generated with the key of its public key is accepted, for every nonce and hash |
| Signatures.SignatureDecides | src/Hashing/libcryptonote/crypto/crypto.cpp:228-247 | what is hashed is prefix, key and c P + r G in that order, and the hash is compared with c: a hash right on these bytes alone is accepted, and one right on all others is not |
| Signatures.SignatureReduced | src/Hashing/libcryptonote/crypto/crypto.cpp:235-240 | adding l to either half makes a signature that is refused |
| Signatures.SignatureSound | src/Hashing/libcryptonote/crypto/crypto.cpp:228-247 | two accepted signatures with one commitment and different challenges give the secret: (c - c') P = (r' - r) G |
| Signatures.DrawMembers | src/Hashing/libcryptonote/crypto/crypto.cpp:433-458 | the signing loop fills the commitment buffer and the challenge sum for every member and draws the others |
| Signatures.GenerateRingSignature | src/Hashing/libcryptonote/crypto/crypto.cpp:401-462 | fails exactly when the image or a foreign key does not decode, and otherwise writes the closed ring |
| Signatures.CheckRingSignature | src/Hashing/libcryptonote/crypto/crypto.cpp:464-504 | accepts exactly the rings whose members all decode with reduced scalars and whose challenges sum to the hash |
| Signatures.SignerEntryAgrees | src/Hashing/libcryptonote/crypto/crypto.cpp:438-456 | at the signer the commitments k G and k Hp are those the verifier recomputes from the response |
| Signatures.BuffersAgree | src/Hashing/libcryptonote/crypto/crypto.cpp:401-504 | signer and verifier fill the same commitment buffer, for every ring size and signer index |
| Signatures.RingEquationHolds | src/Hashing/libcryptonote/crypto/crypto.cpp:459-461 | the signer's response makes all the challenges sum to the hash of that buffer modulo l |
| Signatures.RingComplete | src/Hashing/libcryptonote/crypto/crypto.cpp:401-504 | every ring signature generated with P = x G and I = x Hp(P) is accepted, for every ring size, signer index, nonces and hash |
| Signatures.RingLayout | src/Hashing/libcryptonote/crypto/crypto.cpp:464-504 | the hashed bytes are the prefix and 64 for each member, c P + r G and then r Hp(P) + c I |
| Signatures.RingDecides | src/Hashing/libcryptonote/crypto/crypto.cpp:464-504 | a ring is accepted exactly when it is well formed and the hash has the residue of the sum of its challenges, so none is accepted under every hash |
| Signatures.RingHashes | src/Hashing/libcryptonote/crypto/crypto.cpp:464-504 | the hash is taken of exactly that buffer |
| Signatures.ChallengeCounts | src/Hashing/libcryptonote/crypto/crypto.cpp:495-500 | every member's challenge counts once in the sum |
| Signatures.RingSound | src/Hashing/libcryptonote/crypto/crypto.cpp:464-504 | special soundness: two accepted rings with one buffer under hashes of different residue give a member's secret, for its key and for the image alike |
| Signatures.RingReduced | src/Hashing/libcryptonote/crypto/crypto.cpp:483-485 | adding l to any member's half makes a ring that is refused |
| StealthKeys.GenerateKeyDerivation | src/Hashing/libcryptonote/crypto/crypto.cpp:137-150 | fails exactly when the key does not decode, and otherwise encodes eight times the product |
| StealthKeys.DerivationIs | src/Hashing/libcryptonote/crypto/crypto.cpp:137-150 | the derivation is the encoding of 8 sec P and lies in the subgroup of prime order for every P |
| StealthKeys.DerivePublicKey | src/Hashing/libcryptonote/crypto/crypto.cpp:164-182 | the derived public key, or nothing when the base key does not decode |
| StealthKeys.DeriveSecretKey | src/Hashing/libcryptonote/crypto/crypto.cpp:184-190 | the derived secret, reduced modulo l |
| StealthKeys.DerivationsAgree | src/Hashing/libcryptonote/crypto/crypto.cpp:137-150 | both sides obtain the same derivation 8 a r G |
| StealthKeys.DerivedKeysMatch | src/Hashing/libcryptonote/crypto/crypto.cpp:152-190 | the derived secret times G is the derived public key, for every output index |
| StealthKeys.DerivedScalarBytes | src/Hashing/libcryptonote/crypto/crypto.cpp:152-162 | the bytes hashed for one-byte and two-byte indices |
| StealthKeys.DerivedScalarsDiffer | src/Hashing/libcryptonote/crypto/crypto.cpp:152-162 | two derivations of one length, or two indices, have different scalars under some hash |
| StealthKeys.GenerateTxProof | src/Hashing/libcryptonote/crypto/crypto.cpp:249-297 | produces a proof exactly when R, A and D decode: the challenge over both commitments and the response for it |
| StealthKeys.CheckTxProof | src/Hashing/libcryptonote/crypto/crypto.cpp:299-365 | accepts exactly the proofs that decode, have reduced scalars and satisfy both equations |
| StealthKeys.TxDecides | src/Hashing/libcryptonote/crypto/crypto.cpp:299-365 | what is hashed is message, D, c R + r G and c D + r A in that order, and the hash is compared with c |
| StealthKeys.TxReduced | src/Hashing/libcryptonote/crypto/crypto.cpp:299-365 | adding l to either half makes a proof that is refused |
| StealthKeys.TxSound | src/Hashing/libcryptonote/crypto/crypto.cpp:299-365 | two proofs with the same commitments and different challenges give one secret for both equations |
| StealthKeys.HonestExact | src/Hashing/libcryptonote/crypto/crypto.cpp:249-365 | for any A: every proof the generator makes about A, for every hash, message, secret and nonce, is accepted if and only if A lies in the subgroup of prime order |
| StealthKeys.TxProofComplete | src/Hashing/libcryptonote/crypto/crypto.cpp:249-365 | every proof generated with R = r G, D = r A is accepted when A lies in the prime-order subgroup |
| CyclicCurve.HonestProofRefused | src/Hashing/libcryptonote/crypto/crypto.cpp:249-365 | a concrete curve, point and nonce for which the checker refuses what the generator makes: the integers modulo 8 l, A = 1, r = 1, k = 0 |
| WideInt.Mul128 | src/Hashing/libcryptonote/common/int-util.h:78-102 | hi 2^64 + lo is the exact product of any two 64-bit words, despite every wrap on the way |
| WideInt.DivWithRemainder | src/Hashing/libcryptonote/common/int-util.h:104-108 | the remainder is joined above the dividend by or and the whole is divided; for a 32-bit dividend and a remainder below the divisor that is one step of long division with a 32-bit quotient |
| WideInt.Div128By32 | src/Hashing/libcryptonote/common/int-util.h:111-126 | quotient times divisor plus remainder is the 128-bit dividend, with the remainder below the divisor |
| WideInt.DivisionInverts | src/Hashing/libcryptonote/common/int-util.h:78-126 | dividing a product by its nonzero 32-bit factor gives back the other factor and remainder 0 |
| Varint.WriteVarint | src/Hashing/libcryptonote/common/varint.h:66-79 | the loop appends the encoding of its number |
| Varint.ReadVarint | src/Hashing/libcryptonote/common/varint.h:92-119 | for every number of bits and every word at least that wide, the loop agrees with the specification in count, value and both error codes |
| Varint.ReadEncode | src/Hashing/libcryptonote/common/varint.h:66-119 | reading a written number returns its length and the number, whatever follows |
| Varint.ReadCanonical | src/Hashing/libcryptonote/common/varint.h:92-119 | an accepted varint whose last byte has a clear high bit is the one encoding of its value |
| Varint.ReadTruncated | src/Hashing/libcryptonote/common/varint.h:97-100 | an accepted varint whose last byte has its high bit set can only be cut off by the end of the input |
| Varint.ReadEnds | src/Hashing/libcryptonote/common/varint.h:92-119 | an accepted varint ends in a clear high bit exactly when some byte of the input has one |
| Varint.ReadFits | src/Hashing/libcryptonote/common/varint.h:104-111 | what is read always fits in the bits that are left |
| Varint.ReadErrors | src/Hashing/libcryptonote/common/varint.h:101-107 | the two error codes |
| Varint.EncodeSmall | src/Hashing/libcryptonote/common/varint.h:66-78 | the bytes of numbers below 2^14 |
| Varint.EncodeInjective | src/Hashing/libcryptonote/common/varint.h:66-78 | different numbers have different encodings |
| Base58.ReverseAlphabet | src/Hashing/libcryptonote/common/base58.cpp:55-80 | the reverse table holds the digit of every letter and -1 for every other character |
| Base58.AlphabetLetters | src/Hashing/libcryptonote/common/base58.cpp:48-49 | the alphabet string lists the letter of every digit in order |
| Base58.ReverseLetter | src/Hashing/libcryptonote/common/base58.cpp:48-80 | looking up the letter of a digit gives the digit back |
| Base58.SizesInverse | src/Hashing/libcryptonote/common/base58.cpp:50-105 | the encoded and decoded size tables undo each other |
| Base58.LoadBigEndian | src/Hashing/libcryptonote/common/base58.cpp:107-126 | the fall-through switch reads the big-endian value of one to eight bytes |
| Base58.StoreBigEndian | src/Hashing/libcryptonote/common/base58.cpp:128-134 | the low bytes of the number, most significant first |
| Base58.SwapBytes | src/Hashing/libcryptonote/common/base58.cpp:128-134 | the eight bytes of the word, the most significant first |
| Base58.WriteDigits | src/Hashing/libcryptonote/common/base58.cpp:139-149 | the digit loop writes right to left and never left of its block |
| Base58.EncodeBlockInto | src/Hashing/libcryptonote/common/base58.cpp:136-149 | the block's letters land in their place and everything around them stays |
| Base58.OverflowExact | src/Hashing/libcryptonote/common/base58.cpp:167-170 | the two tests on the wrapped sum and the high word hold exactly when the true sum reaches 2^64 |
| Base58.OrderFits | src/Hashing/libcryptonote/common/base58.cpp:173-173 | the 64-bit order is the power of 58 it stands for if and only if at most ten letters have been read, against the comment that it never overflows |
| Base58.DecodeBlockFrom | src/Hashing/libcryptonote/common/base58.cpp:151-182 | accepts exactly the well-sized alphabet strings whose base-58 value is below 256^size, and returns their bytes |
| Base58.BlockRoundTrip | src/Hashing/libcryptonote/common/base58.cpp:136-182 | decoding an encoded block of one to eight bytes gives it back |
| Base58.BlockCanonical | src/Hashing/libcryptonote/common/base58.cpp:136-182 | encoding an accepted block gives the string back, so no two strings decode alike |
| Base58.SizesMinimal | src/Hashing/libcryptonote/common/base58.cpp:50-52 | the encoded size of a block is the least number of letters that holds its bytes |
| Base58.BlockExamples | src/Hashing/libcryptonote/common/base58.cpp:136-150 | 57 is 1z, 255 is 5Q, and eight bytes 255 are jpXCZedGfVQ |
| Base58.EncodeExample | src/Hashing/libcryptonote/common/base58.cpp:185-207 | a full block and a rest, each on its own |
| Base58.EncodeData | src/Hashing/libcryptonote/common/base58.cpp:185-206 | all full blocks and the rest, written in place |
| Base58.DecodeString | src/Hashing/libcryptonote/common/base58.cpp:208-238 | all full blocks and the rest, or failure as soon as one fails |
| Base58.DecodeEncode | src/Hashing/libcryptonote/common/base58.cpp:185-238 | decode(encode(d)) = d for every byte string |
| Base58.EncodeDecode | src/Hashing/libcryptonote/common/base58.cpp:185-238 | whenever decode accepts s, encode of the result is s |
| Address.EncodeAddr | src/Hashing/libcryptonote/common/base58.cpp:240-248 | tag, data and checksum in base58 |
| Address.DecodeAddr | src/Hashing/libcryptonote/common/base58.cpp:250-270 | fails on bad base58, on no room for a checksum, on a wrong checksum and on a bad tag, in that order |
| Address.AddressRoundTrip | src/Hashing/libcryptonote/common/base58.cpp:240-270 | decode_addr(encode_addr(tag, data)) returns exactly the tag and the data, for every 64-bit tag, data and checksum hash |
| Address.AddressBytes | src/Hashing/libcryptonote/common/base58.cpp:240-247 | the bytes behind the letters: tag, data and four bytes of their hash |
| Address.PrintAndRead | src/Hashing/libcryptonote/common/base58.cpp:240-270 | the two calls in a row return the tag and the data |
| Address.AddressCanonical | src/Hashing/libcryptonote/common/base58.cpp:240-270 | an accepted address is the encoding of what it decodes to if and only if some byte before the checksum is below 128 |
| Address.TruncatedTagAccepted | src/Hashing/libcryptonote/common/base58.cpp:263-266 | for every hash the address of the one byte 0x80 with its checksum is accepted as tag 0 with no data, and the address of that is another |
| MerkleTree.TreeHashCnt | src/Hashing/libcryptonote/crypto/tree-hash.c:48-67 | the largest power of two strictly below count |
| MerkleTree.FillBottom | src/Hashing/libcryptonote/crypto/tree-hash.c:97-102 | the first 2 cnt - count leaves stay and the others pair up |
| MerkleTree.HalveInPlace | src/Hashing/libcryptonote/crypto/tree-hash.c:105-108 | halving in place never overwrites a node it still has to read |
| MerkleTree.HalveCell | src/Hashing/libcryptonote/crypto/hash.c:46-50 | a hash whose output is part of its own input is that of the input as it was, and only the output cell changes |
| MerkleTree.HashUp | src/Hashing/libcryptonote/crypto/tree-hash.c:104-111 | the loop of halvings ends in the root of the recursive definition |
| MerkleTree.LevelsIsRoot | src/Hashing/libcryptonote/crypto/tree-hash.c:104-111 | hashing level by level is hashing half by half, for every power of two |
| MerkleTree.TreeHash | src/Hashing/libcryptonote/crypto/tree-hash.c:69-113 | equals the recursive Merkle root for every count from 1 to 2^28 |
| MerkleTree.SmallTrees | src/Hashing/libcryptonote/crypto/tree-hash.c:69-113 | the trees of one to six leaves, written out |
| MerkleTree.TreeCollision | src/Hashing/libcryptonote/crypto/tree-hash.c:69-113 | different lists of one length with one root contain a collision: two different pairs with one hash among those hashed for the two roots, for any pair hash |
| MerkleTree.TreeRootInjective | src/Hashing/libcryptonote/crypto/tree-hash.c:69-113 | with an injective pair hash, equal counts and equal roots mean equal leaves |
| Lyra2.Setup | src/Hashing/libmultihash/Lyra2.c:145-164 | the do-while loop fills the rows 2, 3, ... in order, each from the row before it and row* |
| Lyra2.SetupDistinct | src/Hashing/libmultihash/Lyra2.c:145-164 | row*, prev and row are pairwise different and row* is already filled, at every step |
| Lyra2.RowStarNext | src/Hashing/libmultihash/Lyra2.c:150-162 | step, gap and window follow the closed form; row* returns to 0 exactly when the window is used up |
| Lyra2.StepThree | src/Hashing/libmultihash/Lyra2.c:150-164 | the step in a window from 4 on is the neighbour of half the window that three divides |
| Lyra2.SetupExample | src/Hashing/libmultihash/Lyra2.c:150-164 | the first seven calls as (prev, row*, row) |
| Lyra2.SetupCoverage | src/Hashing/libmultihash/Lyra2.c:145-164 | row* visits every row of the window exactly once before the window doubles |
| Lyra2.WanderPass | src/Hashing/libmultihash/Lyra2.c:172-191 | one time pass stops, visits what the step dictates, and leaves the matrix of those visits |
| Lyra2.Wander | src/Hashing/libmultihash/Lyra2.c:168-192 | all the passes, each from the matrix and the row the last one left |
| Lyra2.WanderOrder | src/Hashing/libmultihash/Lyra2.c:169-193 | place k of the first pass and every second one after it is k (nRows/2 - 1) mod nRows; the others count down, from the last row if nRows divides 2^64 |
| Lyra2.WanderExample | src/Hashing/libmultihash/Lyra2.c:169-193 | two passes over four rows call by call |
| Lyra2.OddPassCoverage | src/Hashing/libmultihash/Lyra2.c:171-191 | a pass with the step nRows/2 - 1 visits every row once if and only if nRows is a multiple of 4, or odd and no multiple of 3 |
| Lyra2.SixRowsMissed | src/Hashing/libmultihash/Lyra2.c:171-191 | with 6 rows a pass with step 2 does not visit every row once |
| Lyra2.EvenPassCoverage | src/Hashing/libmultihash/Lyra2.c:171-191 | a pass with the step -1 visits every row once if and only if nRows divides 2^64 |
| Lyra2.PowerOfTwoCoverage | src/Hashing/libmultihash/Lyra2.c:171-191 | every power of two from 4 on meets both conditions |
| Lyra2.WanderCoverage | src/Hashing/libmultihash/Lyra2.c:168-192 | for those row counts every pass of the whole run visits every row exactly once |
| FastKdf.MirroredRead | src/Hashing/libmultihash/neoscrypt.c:1000-1007 | reading straight on from the pointer is reading around the ring |
| FastKdf.Fill | src/Hashing/libmultihash/neoscrypt.c:973-995 | whole copies, the cut copy and the tail make a mirrored ring of the repeated input |
| FastKdf.RingXorAt | src/Hashing/libmultihash/neoscrypt.c:1014-1023 | which ring byte each output byte lands on, before and after the wrap |
| FastKdf.ModifySalt | src/Hashing/libmultihash/neoscrypt.c:1014-1023 | the xor and the two copies change the ring modulo 256 and restore B[256..288) = B[0..32), for every pointer |
| FastKdf.NextPointer | src/Hashing/libmultihash/neoscrypt.c:1009-1012 | the masked byte sum is the sum modulo 256 |
| FastKdf.Mix | src/Hashing/libmultihash/neoscrypt.c:997-1025 | after any number of iterations the buffer mirrors the ring of the specification and the pointer is the ring's |
| FastKdf.RunStarts | src/Hashing/libmultihash/neoscrypt.c:973-995 | before the iterations the pointer is 0 and byte i is salt byte i modulo its length |
| FastKdf.RunLaw | src/Hashing/libmultihash/neoscrypt.c:998-1028 | one iteration: the pointer becomes the byte sum of the hash of 64 and 32 bytes from the old pointer on, and the 32 bytes from the new pointer on are xor'ed with the hash, all indices modulo 256 |
| FastKdf.SumConcat | src/Hashing/libmultihash/neoscrypt.c:1009-1012 | the pointer adds up the bytes |
| FastKdf.Emit | src/Hashing/libmultihash/neoscrypt.c:1027-1040 | both exits give ring[(pointer + i) mod 256] xor the repeated password byte i, and write no more |
| FastKdf.OutputLaw | src/Hashing/libmultihash/neoscrypt.c:1027-1040 | output byte i is the ring byte i places from the pointer xor password byte i modulo its length |
| FastKdf.FastKdf | src/Hashing/libmultihash/neoscrypt.c:960-1042 | the function on straight buffers equals the one on the ring, for any PRF, password of 64 bytes or more and salt of 32 or more |
| Blake2s.DigestMeetsRfc | src/Hashing/libmultihash/neoscrypt.c:882-949 | the code meets section 3.3 of RFC 7693 for every compression if and only if there is a key and the byte total stays below 2^32 |
| Blake2s.SmallInputs | src/Hashing/libmultihash/neoscrypt.c:911-949 | keyed inputs of up to two blocks, call by call |
| Blake2s.InitialWords | src/Hashing/libmultihash/neoscrypt.c:911-925 | the initial value is that of SHA-256, low byte first |
| Blake2s.InitialParameters | src/Hashing/libmultihash/neoscrypt.c:911-925 | digest length, key length, fanout and depth enter by xor |
| Blake2s.BlocksSplit | src/Hashing/libmultihash/neoscrypt.c:882-909 | compressing whole blocks early changes nothing as long as some bytes are held back |
| Blake2s.LastCall | src/Hashing/libmultihash/neoscrypt.c:942-945 | the result is always a compression flagged last at the counter of all the data |
| Blake2s.State.Update | src/Hashing/libmultihash/neoscrypt.c:882-909 | an update of any size only appends to the message and never compresses a block that could be the last |
| Blake2s.State.CompressFirst | src/Hashing/libmultihash/neoscrypt.c:889-898 | one compression absorbs the first block and keeps the rest in order |
| Blake2s.State.Finish | src/Hashing/libmultihash/neoscrypt.c:935-945 | the state becomes the hash of everything taken in |
| Blake2s.Hash | src/Hashing/libmultihash/neoscrypt.c:911-949 | the keyed hash of the padded key block followed by the input |
| NeoBlockMix.MixOne | src/Hashing/libmultihash/neoscrypt.c:1060-1072 | the branch for r = 1 gives the standard shuffle |
| NeoBlockMix.MixTwo | src/Hashing/libmultihash/neoscrypt.c:1074-1097 | the branch for r = 2 gives the standard shuffle by one swap |
| NeoBlockMix.MixGeneral | src/Hashing/libmultihash/neoscrypt.c:1099-1112 | the general loop gives the same shuffle for every r |
| NeoBlockMix.BlkMix | src/Hashing/libmultihash/neoscrypt.c:1046-1113 | all three branches compute the mixing of section 4 of RFC 7914, for any mixer |
| Sha256Block.ShortForms | src/Hashing/libmultihash/sha256.h:91-92 | the shortened Ch and Maj are the functions of section 4.1.2 of FIPS 180-4 |
| Sha256Block.Sigma0Is | src/Hashing/libmultihash/sha256.h:93-98 | the large sigma 0 of the standard, in shifts alone |
| Sha256Block.Sigma1Is | src/Hashing/libmultihash/sha256.h:93-98 | the large sigma 1 of the standard, in shifts alone |
| Sha256Block.LowSigma0Is | src/Hashing/libmultihash/sha256.h:93-98 | the small sigma 0 of the standard, in shifts alone |
| Sha256Block.LowSigma1Is | src/Hashing/libmultihash/sha256.h:93-98 | the small sigma 1 of the standard, in shifts alone |
| Sha256Block.TruthTables | src/Hashing/libmultihash/sha256.h:91-92 | choice and majority by their truth tables |
| Sha256Block.TurnedStep | src/Hashing/libmultihash/sha256.h:101-113 | two stores into the turned array move all eight variables one place along |
| Sha256Block.AtIsIndex | src/Hashing/libmultihash/sha256.h:107-113 | where variable j stands before round i is the index the macro computes |
| Sha256Block.BytesWord | src/Hashing/libmultihash/sha256.h:12-30 | writing a word that was read from four bytes gives them back |
| Sha256Block.Rndr | src/Hashing/libmultihash/sha256.h:100-113 | a round with rotating indices is a round of section 6.2.2 |
| Sha256Block.Prepare | src/Hashing/libmultihash/sha256.h:127-130 | the array W is the message schedule |
| Sha256Block.Transform | src/Hashing/libmultihash/sha256.h:119-209 | the in-place transform is the compression of the standard |
| Sha256Vector.Constants0 | src/Hashing/libmultihash/sha256.h:136-143 | the first eight constants are the fractions of the cube roots of the first eight primes; seven more members do the other 56 |
| Sha256Vector.InitialState | src/Hashing/libmultihash/sha256.h:219-235 | the initial state is the fractions of the square roots of the first eight primes |
| Sha256Vector.AbcDigest | src/Hashing/libmultihash/sha256.h:119-318 | the digest of "abc", through padding, schedule and all 64 rounds |
| Sha256.FoldConcat | src/Hashing/libmultihash/sha256.h:263-274 | compressing in two runs is compressing in one |
| Sha256.AddBits | src/Hashing/libmultihash/sha256.h:248-255 | the two-word counter is exact modulo 2^64, across its carry, for any size_t length |
| Sha256.AddWords | src/Hashing/libmultihash/sha256.h:252-255 | the carry found by comparison is the true carry |
| Sha256.Waiting | src/Hashing/libmultihash/sha256.h:245-246 | the low counter word gives the number of bytes in the buffer |
| Sha256.Context.Update | src/Hashing/libmultihash/sha256.h:237-278 | an update of any size, empty ones included, keeps the context the hash of the whole message |
| Sha256.Context.Blocks | src/Hashing/libmultihash/sha256.h:263-277 | the started block, the whole blocks and the rest |
| Sha256.Context.WholeBlocks | src/Hashing/libmultihash/sha256.h:269-274 | the loop compresses exactly the whole blocks |
| Sha256.Context.PadMessage | src/Hashing/libmultihash/sha256.h:280-300 | the two updates add exactly the padding of section 5.1.1 |
| Sha256.Context.Final | src/Hashing/libmultihash/sha256.h:306-318 | the digest of everything taken in |
| Sha256.HashPieces | src/Hashing/libmultihash/sha256.h:219-318 | a message in any pieces has the digest of the whole |
| Sha256.LengthExact | src/Hashing/libmultihash/sha256.h:280-300 | below 2^61 bytes the padding ends with the exact length in bits |
| Hmac.HmacContext.Init | src/Hashing/libmultihash/sha256.h:320-354 | both running hashes start from the padded key, a long key being hashed first |
| Hmac.HmacContext.Update | src/Hashing/libmultihash/sha256.h:356-363 | the text grows by the input |
| Hmac.HmacContext.Final | src/Hashing/libmultihash/sha256.h:365-382 | the result is the HMAC of RFC 2104 of key and text |
| Hmac.MacPads | src/Hashing/libmultihash/sha256.h:320-382 | the two pads byte by byte |
| Hmac.LongKey | src/Hashing/libmultihash/sha256.h:320-382 | a key longer than a block stands for its digest |
| Hmac.ZeroPaddedKey | src/Hashing/libmultihash/sha256.h:320-382 | a zero behind a shorter key changes nothing |
| Pbkdf2.Iterate | src/Hashing/libmultihash/sha256.h:416-428 | T is the xor of U_1 to U_c |
| Pbkdf2.WriteBlock | src/Hashing/libmultihash/sha256.h:407-435 | each turn writes the next 32 bytes, or what is left, of the derived key |
| Pbkdf2.Pbkdf2 | src/Hashing/libmultihash/sha256.h:389-439 | the buffer holds PBKDF2 of section 5.2 of RFC 8018 and nothing past it changes |
| Pbkdf2.DerivedSteps | src/Hashing/libmultihash/sha256.h:389-439 | byte k comes from block k / 32 + 1, whose first MAC takes the salt and the big-endian block number and whose others take the one before |
| Pbkdf2.DerivedOnce | src/Hashing/libmultihash/sha256.h:389-439 | with one iteration the first 32 bytes are one MAC |
| BlockMix.BlockMixRow | src/Hashing/libmultihash/scryptn.c:132-142 | block k of the mixing is the standard's Y at its even-odd source |
| BlockMix.BlockMixSteps | src/Hashing/libmultihash/scryptn.c:118-144 | the mixing unrolled: a chain from the last block on, even blocks before odd ones |
| BlockMix.BlockMixSalsa8 | src/Hashing/libmultihash/scryptn.c:118-144 | the interleaved writes are the shuffle of section 4 of RFC 7914, for every r |
| Smix.Index | src/Hashing/libmultihash/scryptn.c:146-156 | two words and a mask give the whole last block modulo N, for N a power of two |
| Smix.LowModulo | src/Hashing/libmultihash/scryptn.c:146-156 | the words above the second do not matter modulo a power of two |
| Smix.IndexWords | src/Hashing/libmultihash/scryptn.c:146-156 | the index is two words, 16 and 15 from the end, modulo N |
| Smix.RoMixSteps | src/Hashing/libmultihash/scryptn.c:166-215 | both loops step by step |
| Smix.Fill | src/Hashing/libmultihash/scryptn.c:180-193 | the unrolled first loop fills V with the successive mixings and ends with X in place |
| Smix.MixAll | src/Hashing/libmultihash/scryptn.c:195-210 | the unrolled second loop ends in scryptROMix; V is not written |
| Smix.MixWords | src/Hashing/libmultihash/scryptn.c:166-215 | smix on words equals scryptROMix of section 5 of RFC 7914, for every r >= 1 and every power of two N > 1 |
| Scrypt.DecodeEncode | src/Hashing/libmultihash/scryptn.c:176-214 | words written to bytes read back unchanged |
| Scrypt.SMix | src/Hashing/libmultihash/scryptn.c:166-215 | smix on bytes |
| Scrypt.ScryptNR1 | src/Hashing/libmultihash/scryptn.c:220-246 | the whole function is scrypt with p = 1 and the input as its own salt |
| Scrypt.ScryptMac | src/Hashing/libmultihash/scryptn.c:220-246 | the result is one MAC over the mixed block |
| Scrypt.LowByteFirst | src/Hashing/libmultihash/scryptn.c:176-214 | words are read and written low byte first |
| AesField.ByteLaws | src/Hashing/libcryptonote/crypto/oaes_lib.c:358-391 | bytes under xor and the doubling by 0x1b obey the laws the proofs use |
| AesField.DoubleIsXtime | src/Hashing/libcryptonote/crypto/oaes_lib.c:358-391 | the doubling is a shift with 0x1b put back when a bit falls out |
| AesField.Meet | src/Hashing/libcryptonote/crypto/oaes_lib.c:393-431 | the factors of the two mixings multiply, as polynomials, to one on the diagonal and to nothing off it |
| AesField.UnmixMix | src/Hashing/libcryptonote/crypto/oaes_lib.c:393-431 | the inverse column mixing undoes the mixing |
| AesBlock.UnshiftShift | src/Hashing/libcryptonote/crypto/oaes_lib.c:302-356 | the inverse row shift undoes the shift |
| AesBlock.BackIs | src/Hashing/libcryptonote/crypto/oaes_lib.c:1141-1255 | the inverse rounds walk back through the states of the encryption, from the last key down |
| AesBlock.DecryptEncrypt | src/Hashing/libcryptonote/crypto/oaes_lib.c:1024-1255 | block decryption undoes block encryption, for any round keys and any number of them from two on |
| AesBlock.EncryptStates | src/Hashing/libcryptonote/crypto/oaes_lib.c:1024-1139 | the cipher by its states: each byte of a round from the diagonal of the one before, the factors 2, 3, 1, 1, and the round key; the last round does not mix |
| AesBlock.EncryptBlock | src/Hashing/libcryptonote/crypto/oaes_lib.c:1024-1139 | the in-place round loop computes the cipher of section 5.1 of FIPS 197 and touches nothing else |
| AesBlock.DecryptBlock | src/Hashing/libcryptonote/crypto/oaes_lib.c:1141-1255 | the in-place inverse round loop computes the inverse cipher of section 5.3 |
| AesContainer.UnchainChain | src/Hashing/libcryptonote/crypto/oaes_lib.c:1300-1430 | unchaining the chained blocks gives the data back, in ECB and in CBC |
| AesContainer.StripPadded | src/Hashing/libcryptonote/crypto/oaes_lib.c:1432-1450 | removing the padding gives the message back |
| AesContainer.OpenSeal | src/Hashing/libcryptonote/crypto/oaes_lib.c:1257-1453 | decrypting an encrypted message returns it if the option word is one of the two modes, and refuses the header if not |
| AesContainer.SealHeader | src/Hashing/libcryptonote/crypto/oaes_lib.c:1257-1300 | the first 32 bytes |
| AesContainer.SealBlock | src/Hashing/libcryptonote/crypto/oaes_lib.c:1300-1324 | each block is encrypted after the xor, in CBC, of the 16 bytes before it |
| AesContainer.PaddedAt | src/Hashing/libcryptonote/crypto/oaes_lib.c:1300-1310 | the message is filled up with the bytes 1, 2, 3, ... |
| AesContainer.NextVector | src/Hashing/libcryptonote/crypto/oaes_lib.c:1300-1324 | the next vector is the end of what was sealed last, in CBC |
| AesContainer.HeaderExact | src/Hashing/libcryptonote/crypto/oaes_lib.c:1363-1405 | exactly which first bytes are accepted |
| AesContainer.StripExact | src/Hashing/libcryptonote/crypto/oaes_lib.c:1432-1450 | padding is removed exactly from data that ends in 1, 2, ..., p |
| AesContainer.OpenSealAll | src/Hashing/libcryptonote/crypto/oaes_lib.c:1257-1453 | the same for every message of a sequence that chains the vector |
| AesContext.EncryptBlocks | src/Hashing/libcryptonote/crypto/oaes_lib.c:1300-1324 | the block loop of oaes_encrypt, in place behind the header |
| AesContext.DecryptBlocks | src/Hashing/libcryptonote/crypto/oaes_lib.c:1411-1430 | the block loop of oaes_decrypt, in place, each block unmasked with the one before it |
| AesContext.RemovePad | src/Hashing/libcryptonote/crypto/oaes_lib.c:1432-1450 | strips exactly the byte runs 1, 2, ..., p and refuses any other ending |
| AesContext.Context.SetOption | src/Hashing/libcryptonote/crypto/oaes_lib.c:960-1022 | leaves exactly one of the two modes set, with its vector, and refuses other options |
| AesContext.Context.Encrypt | src/Hashing/libcryptonote/crypto/oaes_lib.c:1257-1327 | the length alone as a 64-bit sum, an error, or the sealed message and the vector for the next one |
| AesContext.Context.Decrypt | src/Hashing/libcryptonote/crypto/oaes_lib.c:1329-1453 | every error case in the order of the code, or the opened container |
| AesContext.Exchange | src/Hashing/libcryptonote/crypto/oaes_lib.c:1257-1453 | any sequence of messages through two contexts that share a key arrives unchanged |

## Left out

- Slide.SlideCorrect: asks for a clear top bit, because above half the range a carry can be lost; `Slide.SlideExact` says exactly when.
- Slide.RecodeValue: speaks of scalars up to half the range, for the same reason.
- ScalarMult.Select: the constant-time moves are conditional assignments, so timing is not modelled.
- ScalarMult.DoubleLoop: `ge_double_scalarmult_base_vartime` differs only in the point formats of its fixed table, which are one group element here.
- Signatures.GenerateRingSignature: an `abort` is a false result, and the debug-only assertions and the allocation of the buffer are not modelled.
- Signatures.CheckRingSignature: the scalar arithmetic of the `sc_` functions is arithmetic modulo l; their limb code is not modelled.
- Ed25519.HashToEcInSubgroup: the map from a hash to a curve point is a parameter that may return any point.
- StealthKeys.GenerateTxProof: the debug-only checks of its inputs are not modelled.
- MerkleTree.FillBottom: the leaves are hashed as pairs of nodes, not as 64 bytes.
- Base58.StoreBigEndian: the byte swap is the loop that lays out the word's bytes, not the masks and shifts of the platform.
- Lyra2.Setup: the sponge operations on rows are parameters, and so are absorbing and squeezing before and after the two loops.
- Lyra2.WanderPass: asks for a row count of at most 2^63, so that the 64-bit row sum wraps only for the step -1.
- FastKdf.FastKdf: asks for 64 bytes of password and 32 of salt, because the code copies that many whatever the lengths say.
- Blake2s.Hash: the digest length is at most 32 and the key at most 64 bytes, the sizes of the code's buffers; a little-endian machine is taken for granted.
- NeoBlockMix.BlkMix: the choice between Salsa and ChaCha and the round count are one parameter, and X and Y do not overlap.
- Sha256.Context.Final: the clearing of the context afterwards is not modelled.
- Sha256.LengthExact: the standard defines no digest from 2^64 bits on; there the code takes the length modulo 2^64.
- Pbkdf2.Pbkdf2: an iteration count of zero, which the standard excludes, gives what a count of one gives.
- Smix.MixWords: the scratch areas X, Y, Z and V are separate arrays, not parts of one allocation.
- Scrypt.ScryptNR1: asks for r below 2^25; from there on 128 r wraps in the code's 32-bit arithmetic and its scratch areas overlap.
- AesBlock.EncryptBlock: the key schedule is not modelled; any round keys do.
- AesBlock.DecryptEncrypt: the substitution tables are any pair where one undoes the other, and the product tables are their defining sums of doublings.
- AesContext.Context.Encrypt: a call that would write past its buffer because the 64-bit sum of lengths wrapped is excluded.
- AesContext.Context.Decrypt: a well-formed header that claims padding over no data is excluded, since the code then reads before its buffer, and so is a container shorter than its header with an output said to be longer than memory; what a failed call leaves in the output buffer is not stated.
- Point decompression, field inversion, squaring and `sc_reduce`: limb code of the same kind as `fe_mul`, or outside the recodings modelled here.
- `check_key`, `generate_keys` and `generate_key_image`: one call each to operations modelled above.
- `LYRA2_old`, BLAKE-256 streaming in `blake256.c`, the private SHA-256 of `dcrypt.c`: each departs from the specification its twin meets.
- CryptoNight, SIMD and assembly paths, huge pages, random sources, the large constant tables.
- The chained multi-hashes (x11, x13, quark and others): straight-line calls to libraries outside the repository.
- The C# pool, stratum server, daemon client and command line: networking and threads; share submission and job creation are unfinished there.
- Timing, side channels, clearing of memory and allocation failure.
