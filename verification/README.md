# Proofs about the proof-of-concept crypto modules

This project models the algebraic core of the repository's proof-of-concept
modules and proves what they promise for every input.  Hashes, extendable-output
functions, pseudo-random functions, stream ciphers and the BLAKE3 compression are
arbitrary functions with fixed output lengths; nothing is assumed about them but
their types.

**ML-KEM-768** (FIPS 203).  `MlKemField` to `MlKem` are the mathematics:
`NttReduces` shows that entry pair i of the transform is the polynomial modulo
X^2 - gamma_i, `InttNtt` and `NttIntt` that the two transforms are inverse,
`FastMultiplication` that the transform computes the negacyclic product.
`DecryptIff` is the main theorem: decryption returns the message if and only if
every coefficient of the exact noise (learning-with-errors terms and both
compression errors) stays in the window that its message bit allows, -832 to 832
for a zero and -832 to 831 for a one.  `KemCorrect` and
`KemAcceptsOnlyEncapsulations` carry this to decapsulation with implicit
rejection.  `MlKemImpl`, `MlKemPacking` and `MlKemPkeImpl` are the C form: loops
that update 16-bit arrays in place, each method equal to its function.  Their
intermediates have machine-word types whose every operation is checked to fit.

**Feldman secret sharing.**  `PrimeField` proves Fermat's little theorem,
`FeldmanPoly` that a polynomial with as many roots as coefficients vanishes and
that Lagrange's formula is exact.  `Feldman` is the plain-integer form:
`AcceptedIff` says that a share passes the check exactly when it is the committed
polynomial's value, `DealRoundTrip` that dealing, checking and reconstructing fit
together.  `FeldmanBinding` is verifiability against any dealer: whatever the
published commitments are, powers of the generator or not, two sets of enough
shares that pass the check reconstruct to the same secret (`AcceptedSharesAgree`).
That P and Q are prime is the only hypothesis; the order of the generator 4 is
proved from it.  `FeldmanLimbs`, `FeldmanModMul` and
`FeldmanImpl` are the C form on four 64-bit limbs with carries, borrows, wrapped
128-bit differences and aliased operands, equal to the plain form.

**codex32** (BIP-93).  `Codex32Checksum` shows that the checksum register is
linear and never forgets a difference, so every change within 13 (long code: 15)
consecutive symbols is detected, that one symbol more can go unnoticed, and that
a created checksum always verifies.  `Codex32Packing` has the two bit-packing
loops and their round trip.  `Codex32` puts them together: `EncodeRoundTrip` says
exactly when decoding returns what was encoded, `CorruptionRejected` that a
corrupted string is refused.

**Merkle tree.**  The bottom-up construction with promoted lone nodes equals the
recursive tree hash of section 2.1 of RFC 6962; every authentication path
verifies; an accepted path proves the sector or exhibits two different strings,
one hashed for the tree and one for the check, with the same digest; and two
volumes of any sizes with the same root are equal or exhibit such a pair.

`MerkleImpl` is the C form, a table of levels of fixed height and a path written
into a buffer; `LevelCount` says how many sectors a table can hold.

**BLAKE3.**  `Blake3` is the form over a list of chunks, `Blake3Impl` the C form: a
recursion over byte ranges that writes chaining values into arrays.  The two agree
for every input length, key, flag base and output length.  `RootIsTree` shows that
the root is the tree over the chaining values of all chunks, each hashed once under
its own index, and `TopBinds` that no chaining value is left out of the tree.
`Blake3Binding.HashBinds` shows that equal digests of inputs of any lengths mean
equal inputs, or two different compression calls, one made for each input, agree.

**AES-256.**  `Gf256` proves that the multiplication of GF(2^8) is associative and
distributive, that x^256 = x, and so that the inversion x^254 and the S-box are
bijections.  `Aes` shows that the two MixColumns matrices are inverse and that
decryption inverts encryption for all round keys.  `AesImpl` has both forms: the
generated tables with the key schedule and round loops, and the branch-free one
over arrays; both compute the encryption of `Aes`.

**HCTR2.**  `GfDot` shows that the masked four-limb multiplication equals the
bigint one, that the result fits 128 bits, and that times x^128 it is the
carry-less product up to a multiple of the POLYVAL polynomial.  `Hctr2` shows
that the two directions are inverse for every tweak and every message of at least
16 bytes, and that no two inputs of the hash are encoded alike.  `Hctr2Impl` is
the C form over buffers, which may be shared.

**Adiantum.**  The byte-carry addition is addition modulo 2^128, the byte-borrow
subtraction undoes it, and decryption inverts encryption exactly on messages of
at least 16 bytes, for any stream and hash.  `WithAes` instantiates both modes
with AES-256, so nothing about the block cipher is left as a hypothesis.

**Rollback counter.**  `Rollback` models the counter as a class and a run as a
sequence of commits and requests.  The hardware value is monotone exactly on runs
that never commit at the last 64-bit value; on those no two commits share a
counter, and an older snapshot is refused wherever a newer one is accepted.
`CommitLoopIff` says that the commit loop uses no counter twice exactly up to 2^64
commits, `NoWrapIff` that a run may go on to the last value and commit there without
using a counter twice exactly if it never committed there before.

**Keyslot records.**  `AfSplit` shows that merging undoes splitting and splitting
undoes merging for every diffusion, length and stripe count, and that damage to one
stripe changes the material unless the diffusion collides.  `AfSplitImpl` is the C
form over rows of a buffer.  `Keyslot` writes and opens records: a record opens to
the flags and key put into it exactly when it has at most fourteen stripes, a
labeled one provided that no earlier slot opens; what still opens after a change
outside the tag exhibits a tag collision.

**What the functions hold.**  The specification functions are fixed in turn by
modules that restate their results on bytes and bits, with every index, tag, order
and constant in figures.  `MlKemFormat` gives the key equation t = A s + e and the
two ciphertext equations with each noise polynomial as the sample of its own PRF
index; `FeldmanDealing` the dealt values as sums of powers, and the hiding that the
random coefficients provide: fewer shares than the threshold are, for every other
secret, shares of a dealing of that secret (`FewSharesHide`).  `Codex32Vectors`
derives what the two targets and the initial register spell and decodes both
published BIP-93 strings to their seeds.  `MerkleFormat` shows that the root is the
RFC 6962 tree head over the sectors and the bottom-up path the RFC 6962 audit path;
`Blake3Format` gives every digest byte from a tree over byte positions;
`Hctr2Format` the equations of the mode and the layout of the hashed string;
`AesFormat` the S-box, key schedule and rounds as FIPS 197 prints them;
`KeyslotFormat` each field of a record and the order in which bytes are drawn.

Where code and documentation differ, the model follows the code:

* `from5_trunc` is documented to drop at most four pad bits; for arbitrary symbol
  counts it drops up to seven (`Codex32Packing.SevenBitsDropped`).  At most four are
  dropped exactly for the counts that packing produces (`DroppedBits`).
* `encode` checks neither the identifier's length nor that the threshold and the
  share index are single characters; `CHARSET.index` is a substring search, so a
  threshold such as 54 is encoded as one symbol (`Codex32.LongThresholdEncoded`).
  `EncodeRoundTrip` gives the exact condition.
* The branch of `main` that should reduce an unreduced secret is empty, and
  `poly_eval` in C subtracts the modulus only once per step.  A secret of 2 Q is
  evaluated to Q, one of Q + 1 correctly (`FeldmanImpl.UnreducedSecrets`).  For
  coefficients up to 2^256 - Q the value is right exactly when the last sum is below
  2 Q (`FeldmanImpl.PolyEval`); `OnceEvalExact` is the condition for all 256-bit
  coefficients.
* `powmod` returns 1 for a zero exponent even modulo 1.  `reduce512` loops forever
  for a zero modulus (`FeldmanModMul.ZeroModulusNeverExits`), which is therefore
  excluded.
* Where two share points coincide the Python reconstruction raises an error; the
  C reconstruction silently drops the terms without an inverse
  (`FeldmanImpl.ReconstructLimbs`, `FeldmanImpl.CoincidingPoints`).
* The rollback description has a mount compare the stored counter with the
  hardware; but a commit binds the value before the increment, so on every run
  without a commit at the last value every stored snapshot, the live one included,
  differs from the value the hardware then holds
  (`Rollback.NoSnapshotVerifiesAtPresent`).  The increment in C wraps after
  2^64 - 1; then a counter can serve twice (`Rollback.WrappedCounterRepeats`) and an
  old snapshot can verify at the present value (`Rollback.WrappedSnapshotVerifies`).
  The Python increment does not wrap; its commits stop at 2^64, which does not fit
  eight bytes.
* Adiantum in Python accepts messages shorter than a block and returns 16 bytes,
  from which the message cannot be recovered (`Adiantum.DecryptEncryptIff`).
* A table of 16 levels is documented to be enough for 2^16 sectors; it is enough
  for exactly 2^15 (`MerkleImpl.LevelCount`).
* The C form of splitting stirs only whole 32-byte sections.  It agrees with the
  Python form on multiples of 32; on other lengths the end of the material is found
  unchanged in the last stripe (`AfSplitImpl.TailUnstirred`).
* `byte_decode` with 12 bits does not reduce modulo q, unlike ByteDecode_12 of
  section 4.2.1 of FIPS 203; the model keeps values up to 4095, for which the
  following multiplication still fits its 32-bit words (`MlKemImpl.PairProduct`).

## Model

| member | source | states |
|---|---|---|
| MlKemImpl.InitTables | verification/mlkem_poc.c:140-156 | the tables hold 17^bitrev7(i) and 17^(2 bitrev7(i) + 1) modulo q |
| MlKemImpl.NttInPlace | verification/mlkem_poc.c:158-171 | the in-place nested loops leave the forward transform of the old contents, root index included |
| MlKemImpl.InttInPlace | verification/mlkem_poc.c:173-187 | the in-place inverse loops and the final scaling leave the inverse transform |
| MlKemImpl.PairProduct | verification/mlkem_poc.c:193-195 | for 12-bit operands the pair formula stays within 32-bit words in every step |
| MlKemImpl.BaseMulInto | verification/mlkem_poc.c:189-197 | pairwise products modulo X^2 - gamma_i, also for unreduced 12-bit inputs |
| MlKemField.LeafConst | verification/mlkem_poc.c:150-155 | gamma_i is the constant of leaf i of the splitting tree |
| MlKemField.MirrorRoots | verification/mlkem_poc.c:164-179 | the roots of mirrored blocks multiply to -1, so each inverse layer can undo its forward layer |
| MlKemNtt.NttReduces | verification/mlkem_poc.c:158-171 | entries 2i and 2i + 1 are the two coefficients of f modulo X^2 - gamma_i |
| MlKemNtt.BlocksUndo | verification/mlkem_poc.c:173-185 | an inverse layer undoes its forward layer up to a factor of two |
| MlKemNtt.InttNtt | verification/mlkem_poc.c:158-187 | the inverse transform after the forward one is the identity on all reduced polynomials |
| MlKemNtt.NttIntt | verification/mlkem_poc.c:158-187 | the forward transform after the inverse one is the identity |
| MlKemRing.ProductReduces | verification/mlkem_reference.py:82-88 | reducing the schoolbook product agrees with multiplying the reductions |
| MlKemRing.FastMultiplication | verification/mlkem_poc.c:158-197 | transform, pairwise product and inverse transform give the product modulo X^256 + 1 and q |
| MlKemCoding.DecodeOfEncode | verification/mlkem_poc.c:249-268 | byte_decode undoes byte_encode for every width |
| MlKemCoding.EncodeOfDecode | verification/mlkem_poc.c:249-268 | byte_encode undoes byte_decode |
| MlKemCoding.CompressionBound | verification/mlkem_poc.c:243-247 | decompressing a compressed value moves it by at most the rounding bound, modulo q, for 1, 4 and 10 bits |
| MlKemCoding.CompressOfDecompress | verification/mlkem_poc.c:243-247 | compression undoes decompression |
| MlKemCoding.OneBitDecision | verification/mlkem_poc.c:243-247 | the one-bit rounding returns the bit exactly when the noise lies in its window |
| MlKemCoding.Cbd2Small | verification/mlkem_poc.c:233-241 | sampled noise coefficients lie between -2 and 2 |
| MlKemPacking.EncodeInto | verification/mlkem_poc.c:250-257 | the bit loop at any offset of a buffer writes the encoding and nothing else |
| MlKemPacking.DecodeFrom | verification/mlkem_poc.c:259-268 | the bit loop reads the decoding from any offset |
| MlKemNoise.MatrixCancels | verification/mlkem_poc.c:294-333 | the products with the matrix cancel between key generation and the transposed use in encryption |
| MlKemPkeImpl.SampleNoise | verification/mlkem_poc.c:223-241 | the sampling loop fills the array with the noise polynomial |
| MlKemPkeImpl.PkeKeygenInto | verification/mlkem_poc.c:280-301 | both key buffers hold the keys of the functional form |
| MlKemPkeImpl.PkeEncryptInto | verification/mlkem_poc.c:303-337 | the buffer holds the ciphertext of the functional form |
| MlKemPkeImpl.PkeDecryptInto | verification/mlkem_poc.c:339-359 | the buffer holds the plaintext of the functional form |
| MlKem.DecodedIsNoisy | verification/mlkem_poc.c:280-359 | decryption computes the message polynomial plus the noise, exactly, for every key, message and randomness |
| MlKem.DecryptBit | verification/mlkem_poc.c:303-359 | a message bit survives if and only if its noise coefficient is in the window |
| MlKem.DecryptIff | verification/mlkem_poc.c:303-359 | decryption returns the message if and only if all 256 noise coefficients are harmless |
| MlKem.KemCorrect | verification/mlkem_poc.c:363-400 | with harmless noise decapsulation returns the encapsulated key and does not reject |
| MlKem.KemAcceptsOnlyEncapsulations | verification/mlkem_poc.c:383-400 | a ciphertext is accepted if and only if it encapsulates some message with harmless noise, with its key; all others give J(z, c) |
| MlKemFormat.RootValues | verification/mlkem_poc.c:140-156 | the first roots of the two tables: 1729, 2580 and 17; 17 and -17 |
| MlKemFormat.EncodedBit | verification/mlkem_poc.c:249-257 | bit p of the packed bytes is bit p % d of coefficient p / d, lowest bits first |
| MlKemFormat.CompressNearest | verification/mlkem_poc.c:243-244 | compression gives the nearest multiple, modulo 2^d; there are no ties |
| MlKemFormat.DecompressNearest | verification/mlkem_poc.c:246-247 | decompression gives the nearest integer, the upper one at a tie |
| MlKemFormat.MessageCoefficients | verification/mlkem_poc.c:332-333 | message bit j becomes the coefficient 0 or 1665 |
| MlKemFormat.SampledCoefficient | verification/mlkem_poc.c:233-241 | coefficient i is the sum of bits 4i and 4i + 1 less the sum of the next two |
| MlKemFormat.SecretKey | verification/mlkem_poc.c:287-300 | the secret key holds the transforms of the samples of PRF indices 0, 1 and 2 under the second half of G(d, 3) |
| MlKemFormat.PublicKey | verification/mlkem_poc.c:287-299 | the public key holds the transforms of A s + e, e from PRF indices 3 to 5, and the seed of A |
| MlKemFormat.CiphertextU | verification/mlkem_poc.c:313-326 | entry i of u is sum_j A_ji y_j + e1_i in the ring, y from PRF indices 0 to 2 and e1 from 3 to 5, in ten bits |
| MlKemFormat.CiphertextV | verification/mlkem_poc.c:328-336 | v is sum_j t_j y_j + e2 + mu in the ring, e2 from PRF index 6, in four bits, for every generated key |
| MlKemFormat.DecapsulationKey | verification/mlkem_poc.c:363-370 | the decapsulation key is secret key, public key, its hash and z |
| MlKemFormat.Encapsulation | verification/mlkem_poc.c:372-381 | key and encryption randomness are the two halves of G(m, H(ek)) |
| PrimeField.FermatInverse | verification/feldman_poc.c:82-84 | a^(p-2) is the inverse of a modulo a prime p |
| PrimeField.PowersAgree | verification/feldman_reference.py:36-42 | powers of an element of prime order agree exactly when the exponents agree modulo the order |
| FeldmanPoly.Vanishes | verification/feldman_reference.py:44-54 | a polynomial with no more coefficients than roots is zero everywhere modulo the prime |
| FeldmanPoly.Interpolation | verification/feldman_reference.py:44-54 | Lagrange's formula gives the polynomial's value at every point |
| Feldman.Poly | verification/feldman_reference.py:24-28 | the Horner loop computes f(x) modulo Q |
| Feldman.VerifyShare | verification/feldman_reference.py:36-42 | the loop decides whether g^y, for a share value of any sign, equals the product of the commitment powers modulo P |
| Feldman.FourHasOrder | verification/feldman_reference.py:20-22 | four has order q in the group of a safe prime 2q + 1 |
| Feldman.AcceptedIff | verification/feldman_reference.py:11-16 | against honest commitments a share is accepted if and only if it is f(i) modulo q, although the exponents i^j are reduced modulo q |
| Feldman.VerifyAcceptsExactlyValues | verification/feldman_reference.py:36-42 | the same for the built-in group, from primality alone |
| Feldman.Reconstruct | verification/feldman_reference.py:44-54 | the nested loops compute Lagrange's sum at zero, or fail when a denominator has no inverse |
| Feldman.SolvableIff | verification/feldman_reference.py:44-54 | reconstruction fails if and only if two points coincide modulo Q |
| Feldman.ReconstructsSecret | verification/feldman_reference.py:44-54 | enough shares at distinct points give f(0), for every threshold and polynomial |
| Feldman.VerifiedSharesAgree | verification/feldman_reference.py:36-54 | shares that pass the check against commitments to f reconstruct to f(0) |
| FeldmanBinding.ReconstructionOpens | verification/feldman_reference.py:36-54 | against any commitments the reconstructed value is the logarithm of the squared first commitment to the squared generator |
| FeldmanBinding.AcceptedSharesAgree | verification/feldman_reference.py:2-9 | against any commitments two sets of enough passing shares at distinct points reconstruct to the same secret |
| Feldman.DealRoundTrip | verification/feldman_reference.py:30-54 | every dealt share is accepted and any t of them give back the secret |
| FeldmanDealing.Parameters | verification/feldman_reference.py:20-22 | P is 2^255 + 196479, Q is half of P - 1, and the generator is 4 |
| FeldmanDealing.DealtCoefficients | verification/feldman_reference.py:30-31 | the coefficients are the secret and the first t - 1 random ones, each modulo Q |
| FeldmanDealing.DealtShare | verification/feldman_reference.py:24-32 | share k is k + 1 with secret + sum_j rand_j (k + 1)^(j + 1) modulo Q |
| FeldmanDealing.DealtCommitment | verification/feldman_reference.py:33 | commitment j is 4 to the power of coefficient j modulo P |
| FeldmanDealing.FewSharesHide | verification/feldman_reference.py:30-34 | any t - 1 shares of a dealing, at indices below Q, are for every other secret also shares of a dealing of that secret |
| FeldmanLimbs.UCmp | verification/feldman_poc.c:28-30 | limb-wise comparison decides the order of the 256-bit numbers |
| FeldmanLimbs.UAdd | verification/feldman_poc.c:32-33 | addition modulo 2^256, operands possibly aliased |
| FeldmanLimbs.USub | verification/feldman_poc.c:34-35 | subtraction modulo 2^256 with the borrow taken from a wrapped 128-bit word |
| FeldmanLimbs.AddMod | verification/feldman_poc.c:37-38 | the sum cut to 256 bits, less the modulus if it is not below it |
| FeldmanLimbs.AddOnceReduces | verification/feldman_poc.c:37-38 | that is the sum modulo m if and only if the cut sum is below 2 m and m divides what was cut off |
| FeldmanModMul.ZeroModulusNeverExits | verification/feldman_poc.c:52-58 | for a zero modulus the exit test of the inner loop is never met |
| FeldmanModMul.Reduce512 | verification/feldman_poc.c:40-61 | the exact remainder of every 512-bit product by every nonzero modulus; the inner loop terminates |
| FeldmanModMul.MulMod | verification/feldman_poc.c:62-72 | the exact product modulo m with no overflow in any limb or carry |
| FeldmanModMul.PowMod | verification/feldman_poc.c:73-81 | the exact power modulo m for every m above one |
| FeldmanModMul.InvMod | verification/feldman_poc.c:82-84 | the Fermat power, which is the inverse modulo a prime |
| FeldmanImpl.PolyEval | verification/feldman_poc.c:89-95 | for coefficients up to 2^256 - Q it is f(x) modulo Q if and only if the last sum is below 2 Q |
| FeldmanImpl.OnceEvalExact | verification/feldman_poc.c:89-95 | for all 256-bit coefficients it is f(x) modulo Q if and only if the last sum ends below 2 Q and the wrapped steps cancel |
| FeldmanImpl.UnreducedSecrets | verification/feldman_poc.c:128-132 | a secret of 2 Q is not reduced at any point, a secret of Q + 1 is |
| FeldmanImpl.VerifyShareLimbs | verification/feldman_poc.c:96-109 | the limb check decides the same equation as the plain one |
| FeldmanImpl.ReconstructLimbs | verification/feldman_poc.c:142-162 | the limb reconstruction, for any number of shares, equals the plain sum |
| FeldmanImpl.CoincidingPoints | verification/feldman_poc.c:142-162 | two shares at one point cannot be solved, and the sum without their terms is zero |
| Codex32Checksum.Polymod | verification/codex32_reference.py:24-45 | both register loops compute the run of the step function |
| Codex32Checksum.StepLinear | verification/codex32_reference.py:28-32 | one step is linear over exclusive or |
| Codex32Checksum.CreatedVerifies | verification/codex32_reference.py:48-61 | a created checksum always verifies and both sides pick the same code |
| Codex32Checksum.BurstDetected | verification/codex32_reference.py:24-61 | any change within 13 (long: 15) consecutive symbols of a valid string makes it invalid |
| Codex32Checksum.WiderBurstCanPass | verification/codex32_reference.py:24-61 | within one symbol more, every valid string has a different valid neighbour |
| Codex32Packing.To5 | verification/codex32_reference.py:64-76 | the loop gives the base-32 digits of the zero-padded big-endian number |
| Codex32Packing.From5Trunc | verification/codex32_reference.py:79-89 | the loop gives the whole bytes of the symbols |
| Codex32Packing.DroppedBits | verification/codex32_reference.py:79-89 | at most four bits are dropped if and only if some byte string packs to that many symbols |
| Codex32Packing.SevenBitsDropped | verification/codex32_reference.py:79-89 | three symbols can differ in seven bits and unpack to the same byte |
| Codex32Packing.PackingRoundTrip | verification/codex32_reference.py:64-89 | unpacking undoes packing for every byte string |
| Codex32.EncodeRoundTrip | verification/codex32_reference.py:92-110 | decoding returns exactly the encoded inputs if and only if the header has its proper shape |
| Codex32.EncodeSucceeds | verification/codex32_reference.py:92-96 | every proper header over the alphabet is encoded, for every payload |
| Codex32.LongThresholdEncoded | verification/codex32_reference.py:92-110 | the threshold 54 is encoded and not decoded again |
| Codex32.CorruptionRejected | verification/codex32_reference.py:99-110 | a change within one window of an accepted string is rejected |
| Codex32Vectors.TargetsSpell | verification/codex32_reference.py:20-21 | the two targets spell secretshare32 and secretshare32ex |
| Codex32Vectors.InitialIsPrefix | verification/codex32_reference.py:27 | the initial register is a one followed by the expanded prefix ms |
| Codex32Vectors.FirstVector | verification/codex32_reference.py:123-128 | every string that reads in lower case like the first published one decodes to its threshold, identifier, index and 16 bytes |
| Codex32Vectors.SecondVector | verification/codex32_reference.py:130-135 | the same for the long published string and its 64 bytes |
| Merkle.BuildLevels | verification/merkle_reference.py:27-43 | the nested loops build the levels of the specification |
| Merkle.Root | verification/merkle_reference.py:45-46 | the root is the recursive tree hash, and an empty volume has none |
| Merkle.BottomUpIsTree | verification/merkle_reference.py:27-46 | pairing with lone-node promotion equals splitting at the largest power of two below n |
| Merkle.AuthPath | verification/merkle_reference.py:48-62 | the loop collects the siblings for any index, and for a sector of the volume the path of the tree |
| Merkle.VerifyPath | verification/merkle_reference.py:64-68 | the loop decides whether the path leads from the sector to the root |
| Merkle.PathVerifies | verification/merkle_reference.py:48-68 | every authentication path is accepted, for every volume size and index |
| Merkle.AcceptedMeansSector | verification/merkle_reference.py:64-68 | an accepted path of any shape proves the sector of that index, or exhibits a collision |
| Merkle.RootBindsVolume | verification/merkle_reference.py:3-12 | equal roots mean equal volumes, sizes included, or exhibit a collision |
| Merkle.VerifyBlob | verification/merkle_poc.c:88-100 | the check over the byte form decides the same as over the steps it encodes |
| Merkle.BlobRoundTrip | verification/merkle_poc.c:70-100 | the byte form of a path reads back as that path |
| MerkleFormat.RootIsTreeHead | verification/merkle_reference.py:18-46 | the root is the tree head of RFC 6962: 0, index in eight bytes and sector hashed at the leaves; 1, left and right hash above |
| MerkleFormat.PathIsAuditPath | verification/merkle_reference.py:48-62 | the path collected level by level is the audit path of RFC 6962, each sibling with its side, for every size and index |
| MerkleFormat.ClimbStep | verification/merkle_reference.py:64-68 | direction 0 hashes 1, digest, sibling; any other direction 1, sibling, digest |
| MerkleFormat.AcceptsOne | verification/merkle_reference.py:64-68 | paths of no and of one step are checked against these strings over the index-bound leaf |
| MerkleFormat.BlobEntry | verification/merkle_reference.py:85 | entry i of the byte form is byte 33 i as direction and the 32 bytes behind it |
| Blocks.LittleEndianByte | verification/merkle_reference.py:18-19 | byte i of a little-endian number is n / 256^i modulo 256 |
| MerkleImpl.LevelCount | verification/merkle_poc.c:21-24 | k + 1 levels are enough exactly for up to 2^k sectors |
| MerkleImpl.BuildLevelsInto | verification/merkle_poc.c:52-68 | the table's rows and counts are the levels, and the table's height is not exceeded |
| MerkleImpl.AuthPathInto | verification/merkle_poc.c:72-86 | the buffer holds the entries of the sibling path |
| MerkleImpl.ComputeRoot | verification/merkle_poc.c:102-107 | the last level's node is the recursive tree hash |
| MerkleImpl.PathAccepted | verification/merkle_poc.c:122-127 | the check over the written bytes accepts every path against the computed root |
| GfDot.DotBigint | verification/hctr2_reference.py:32-42 | the bigint loops compute dot, and no bit above 127 is left |
| GfDot.MaskIsFilled | verification/hctr2_poc.c:54-63 | zero minus a low bit is a word of that bit |
| GfDot.GfDotLimbs | verification/hctr2_poc.c:42-72 | the masked four-limb loops compute the same 128 bits |
| GfDot.DotFits | verification/hctr2_reference.py:32-42 | after 128 halvings the upper 128 bits are zero |
| GfDot.DotIsProduct | verification/hctr2_reference.py:28-42 | dot times x^128 plus a multiple of the POLYVAL polynomial is the carry-less product |
| Hctr2.XctrBytes | verification/hctr2_reference.py:69-76 | the counter loop gives the keystream, byte by byte |
| Hctr2.HashInputInjective | verification/hctr2_reference.py:62-67 | different pairs of tweak and message are never hashed as one string |
| Hctr2.DecryptEncrypt | verification/hctr2_reference.py:86-106 | decryption inverts encryption for every tweak and message |
| Hctr2.EncryptDecrypt | verification/hctr2_reference.py:86-106 | encryption inverts decryption |
| Hctr2Format.HashChains | verification/hctr2_reference.py:44-50 | each block is added to the hash so far and the sum multiplied by the key, from zero |
| Hctr2Format.BitOfNumber | verification/hctr2_reference.py:44-50 | bit j of the bytes of a little-endian number is bit j of the number |
| Hctr2Format.WholeLayout | verification/hctr2_reference.py:62-67 | the hashed string for whole blocks: 16 |tweak| + 2, padded tweak, message |
| Hctr2Format.PartialLayout | verification/hctr2_reference.py:62-67 | and for a partial last block: 16 |tweak| + 3, padded tweak, message, a one and zeros |
| Hctr2Format.EncryptEquations | verification/hctr2_reference.py:81-95 | the hash key encrypts zero, the separator is mm, uu and the encrypted number one added, and stream block i, from 1, encrypts the separator plus i |
| Hctr2Impl.PolyvalBuf | verification/hctr2_poc.c:86-100 | the buffer loop on limbs computes POLYVAL of the buffer |
| Hctr2Impl.HashBuffer | verification/hctr2_poc.c:118-134 | the zeroed buffer is filled with exactly the specified hash input |
| Hctr2Impl.XctrXor | verification/hctr2_poc.c:136-151 | the keystream is added to the source, also in place, and nothing else changes |
| Hctr2Impl.Crypt | verification/hctr2_poc.c:153-176 | the one routine enciphers and deciphers as the functions do, also in place |
| PowersOfTwo.SplitUnique | verification/blake3_poc.c:115-120 | p is the split of n if and only if it is a power of two with p < n <= 2p |
| PowersOfTwo.SplitByBitLength | verification/blake3_reference.py:74 | the bit-length expression gives that power as well |
| Blake3.OutputPrefix | verification/blake3_reference.py:50-57 | a shorter output is a prefix of a longer one |
| Blake3.SubtreeIsTree | verification/blake3_reference.py:70-77 | the recursion over chunks is the tree over their chaining values, each chunk under its own index |
| Blake3.RootIsTree | verification/blake3_reference.py:79-88 | the root node of the hash is the top of the tree over all chunks of the data |
| Blake3.TopBinds | verification/blake3_reference.py:70-88 | different chaining values give different tops, or a parent node of one tree collides with one of the other |
| Blake3Binding.HashBinds | verification/blake3_reference.py:61-88 | for flag bases without the start and parent bits, equal digests mean equal inputs, or two different calls made for the two inputs have one chaining value |
| Blake3.PieceAt | verification/blake3_reference.py:79-88 | chunk i is the data from 1024 i on, and only the last one is short |
| Blake3.PiecesSplit | verification/blake3_poc.c:122-142 | cutting the byte range at whole chunks cuts the chunk list at the same place |
| Blake3Impl.LeftLen | verification/blake3_poc.c:115-120 | the doubling loop finds the largest power of two below the chunk count |
| Blake3Impl.ChunkOutputC | verification/blake3_poc.c:94-113 | the block loop gives the chunk's output node |
| Blake3Impl.SubtreeCvC | verification/blake3_poc.c:122-142 | the recursion over byte ranges gives the chaining value of the chunk list |
| Blake3Impl.OutRoot | verification/blake3_poc.c:75-85 | the output loop fills the whole destination with the root bytes |
| Blake3Impl.Blake3C | verification/blake3_poc.c:144-160 | the pointer-range hash equals the chunk-list hash |
| Blake3Impl.RootBytesList | verification/blake3_reference.py:50-57 | appending and cutting blocks gives the same root bytes |
| Blake3Format.LoadLayout | verification/blake3_reference.py:41-45 | byte k of word i of a block is byte 4i + k of the data, or zero behind its end |
| Blake3Format.WordByteBits | verification/blake3_reference.py:55 | byte k of a word is the word divided by 256^k, modulo 256 |
| Blake3Format.ChunkOutputIs | verification/blake3_reference.py:61-68 | the blocks of a chunk are compressed in order under the chunk's index, with flag 1 on the first and 2 on the last |
| Blake3Format.RootIs | verification/blake3_reference.py:70-88 | the root node is the only chunk, or the left and the right value of the tree over byte positions under flag 4 and length 64 |
| Blake3Format.DigestByte | verification/blake3_reference.py:50-57 | byte j of any digest is byte j % 4 of word j % 64 / 4 of the root node under counter j / 64 and flag 8 |
| Gf256.GfMul | verification/adiantum_reference.py:104-113 | the shift-and-add loop computes the field product |
| Gf256.MulAssociates | verification/adiantum_reference.py:104-113 | the product is associative |
| Gf256.Frobenius | verification/adiantum_reference.py:104-113 | the 256th power of every element is the element |
| Gf256.InverseProduct | verification/adiantum_reference.py:116-124 | x times x^254 is one for every x but zero |
| Gf256.InvInvolution | verification/adiantum_reference.py:116-124 | inversion is its own inverse |
| Gf256.GfInv | verification/adiantum_reference.py:116-124 | square-and-multiply computes x^254 |
| Gf256.SboxInverse | verification/adiantum_reference.py:127-138 | the S-box is a bijection |
| AesImpl.MakeSbox | verification/adiantum_reference.py:127-134 | the generated table holds the S-box |
| AesImpl.MakeInvSbox | verification/adiantum_reference.py:135-138 | inverting the table fills every entry of the inverse |
| AesImpl.KeySchedule | verification/adiantum_reference.py:144-156 | the word loop gives the fifteen round keys |
| AesImpl.EncryptBlock | verification/adiantum_reference.py:180-187 | the table-driven round loop computes the encryption |
| AesImpl.DecryptBlock | verification/adiantum_reference.py:190-197 | the table-driven inverse loop computes the decryption |
| Aes.ShiftRowsInverse | verification/adiantum_reference.py:159-164 | the two row shifts undo each other |
| Aes.MixColumnsInverse | verification/adiantum_reference.py:167-177 | mixing with (14, 11, 13, 9) undoes mixing with (2, 3, 1, 1), and the other way round |
| Aes.DecryptEncrypt | verification/adiantum_reference.py:180-197 | for all round keys and blocks decryption inverts encryption and encryption decryption |
| AesFormat.TimesX | verification/adiantum_reference.py:104-113 | doubling shifts and adds 1b when the top bit moves out |
| AesFormat.SboxBits | verification/adiantum_reference.py:127-134 | each bit of the S-box is the sum of five bits of the inverse and a bit of 63 |
| AesFormat.SboxExample | verification/adiantum_reference.py:127-134 | the S-box takes 53 to ed and 0 to 63 |
| AesFormat.ExpandedBytes | verification/adiantum_reference.py:144-156 | every byte of the 240-byte schedule from bytes 3, 4, 7 and 32 places before it, with the seven round constants |
| AesFormat.RoundByte | verification/adiantum_reference.py:159-185 | byte r of column c after a round, from the four shifted S-box values, a row of the printed matrix and the round key |
| AesFormat.EndBytes | verification/adiantum_reference.py:180-187 | the first addition of a round key, and the last round without mixing |
| AesImpl.SboxCt | verification/ctaes_poc.c:53-58 | the arithmetic S-box is the table's |
| AesImpl.SmallProducts | verification/ctaes_poc.c:60-64 | the masked doubling gives the products by 2 and 3 |
| AesImpl.ShiftRowsCt | verification/ctaes_poc.c:90-96 | the row loop through a temporary shifts the rows in place |
| AesImpl.MixColumnsCt | verification/ctaes_poc.c:98-110 | the column loop mixes in place |
| AesImpl.KeyExpand | verification/ctaes_poc.c:69-85 | the expanded bytes are the round keys in order, round constants included |
| AesImpl.EncryptCt | verification/ctaes_poc.c:112-125 | the branch-free encryption computes the same function as the table-driven one |
| Adiantum.AddIsModular | verification/adiantum_reference.py:252-256 | byte addition with carry is addition of the numbers modulo 2^128 |
| Adiantum.AddSubInverse | verification/adiantum_poc.c:153-167 | the byte-carry and byte-borrow loops undo each other |
| Adiantum.AddInPlace | verification/adiantum_poc.c:154-158 | the in-place loop adds and leaves the rest of the buffer alone |
| Adiantum.SubInPlace | verification/adiantum_poc.c:159-167 | the in-place loop subtracts and leaves the rest of the buffer alone |
| Adiantum.DecryptEncryptIff | verification/adiantum_reference.py:252-275 | decryption returns the message if and only if it has at least 16 bytes |
| Adiantum.EncryptDecrypt | verification/adiantum_reference.py:252-275 | encryption inverts decryption |
| Adiantum.EncryptEquations | verification/adiantum_reference.py:248-261 | the enciphered block, a one and seven zeros select the stream added to the rest; the hash of the result is subtracted |
| Adiantum.EncryptInto | verification/adiantum_poc.c:203-224 | the buffer form enciphers as the function does, also in place |
| Adiantum.DecryptInto | verification/adiantum_poc.c:226-247 | the buffer form deciphers as the function does, also in place |
| WithAes.Hctr2RoundTrip | verification/hctr2_reference.py:86-106 | HCTR2 over AES-256 round-trips for every key, tweak and message of at least a block |
| WithAes.AdiantumRoundTrip | verification/adiantum_reference.py:252-275 | so does Adiantum |
| Rollback.NvCounter.Increment | verification/monotcounter_poc.c:56-58 | the counter moves on by one and wraps at 2^64 |
| Rollback.NvCounter.TrySet | verification/monotcounter_poc.c:59 | a value not above the current one is refused and changes nothing |
| Rollback.CtEq16 | verification/monotcounter_poc.c:43-44 | the accumulated difference is zero exactly for equal tags |
| Rollback.Verify | verification/monotcounter_poc.c:46-54 | both the marker and the tag have to match |
| Rollback.CommitAll | verification/monotcounter_reference.py:60-69 | the commit loop is a run of commit steps |
| Rollback.LoopCounters | verification/monotcounter_reference.py:60-69 | entry k of the loop from value v holds counter v + k modulo 2^64, root k and the tag of both |
| Rollback.MonotoneIff | verification/monotcounter_reference.py:37-50 | the hardware value never moves back and moves on at commits exactly on runs that do not wrap |
| Rollback.RunOrdered | verification/monotcounter_reference.py:60-69 | on every such run the committed counters increase and stay below the hardware |
| Rollback.CountersDistinct | verification/monotcounter_reference.py:10-11 | on such runs no one-time-key counter serves two commits |
| Rollback.CommitLoopIff | verification/monotcounter_poc.c:75-82 | from any 64-bit value the commit loop uses no counter twice if and only if it makes at most 2^64 commits |
| Rollback.NoWrapIff | verification/monotcounter_poc.c:56-59 | a run never committed at the last value if and only if it can go on to commit there with all counters distinct |
| Rollback.WrappedCounterRepeats | verification/monotcounter_poc.c:58 | a run that wraps commits twice under one counter |
| Rollback.SnapshotVerifiesIff | verification/monotcounter_reference.py:30-34 | a snapshot verifies at exactly its own counter, and with a forged marker only if the tags coincide |
| Rollback.NoSnapshotVerifiesAtPresent | verification/monotcounter_reference.py:60-73 | on runs without a wrapping commit no stored snapshot verifies at the value the hardware then holds |
| Rollback.WrappedSnapshotVerifies | verification/monotcounter_poc.c:56-58 | after a wrapping commit an old snapshot can verify at that value |
| Rollback.OlderSnapshotRejected | verification/monotcounter_reference.py:79-84 | an older snapshot is refused wherever a newer one is accepted |
| AfSplit.DiffuseBytes | verification/keyslotaf_reference.py:84-92 | the section loop, with a short last section, gives the diffusion |
| AfSplit.DiffusionCollision | verification/keyslotaf_reference.py:84-92 | different strings diffused alike hold different sections with digests that agree where they are used |
| AfSplit.Lcg.Rand | verification/keyslotaf_reference.py:35-40 | the generator's next bytes, and its state after them |
| AfSplit.SplitBlob | verification/keyslotaf_reference.py:97-106 | the loop draws the stripes in order and closes the sum |
| AfSplit.MergeBlob | verification/keyslotaf_reference.py:108-112 | the loop merges the slices of any blob; on whole stripes that is the merge |
| AfSplit.MergeSplit | verification/keyslotaf_reference.py:97-112 | merging gives the material back, for every diffusion, length and random stripes |
| AfSplit.SplitMerge | verification/keyslotaf_reference.py:97-112 | splitting the merged material with the same random stripes gives the blob back |
| AfSplit.DamagedStripe | verification/afsplit_poc.c:92-104 | a change to one stripe changes the merged material, always in the last one and otherwise unless the two mergings stir different strings to one in the same later round |
| KeyslotFormat.IndexIsBigEndian | verification/keyslotaf_reference.py:90 | the section index stands big-endian in four bytes |
| KeyslotFormat.DiffusedByte | verification/keyslotaf_reference.py:84-92 | byte j of the diffusion is byte j % 32 of the digest of index and section j / 32 |
| KeyslotFormat.OneStripe | verification/keyslotaf_reference.py:97-106 | a single stripe is the material itself |
| KeyslotFormat.TwoStripes | verification/keyslotaf_reference.py:97-106 | two stripes are the random one, and the material plus the diffusion of it |
| KeyslotFormat.NextStripe | verification/keyslotaf_reference.py:101-105 | every further stripe is added to the state before it is stirred |
| KeyslotFormat.StripeAt | verification/keyslotaf_reference.py:97-106 | stripe i stands at i times the length; the last one closes the sum |
| KeyslotFormat.Generator | verification/keyslotaf_reference.py:35-40 | each byte is the high byte of the next state 1664525 s + 1013904223 modulo 2^32 |
| AfSplitImpl.DiffuseInto | verification/afsplit_poc.c:30-42 | whole sections are diffused and the rest of the destination is not written |
| AfSplitImpl.SplitInto | verification/afsplit_poc.c:44-55 | the rows are the split of the key, and nothing outside them changes |
| AfSplitImpl.MergeInto | verification/afsplit_poc.c:57-67 | the destination holds the merge of the rows |
| AfSplitImpl.FormsAgree | verification/afsplit_poc.c:30-67 | both forms split and merge alike on lengths that are multiples of 32 |
| AfSplitImpl.TailUnstirred | verification/afsplit_poc.c:30-55 | on other lengths the end of the material is copied into the last stripe |
| AfSplitImpl.ClosedSplit | verification/afsplit_poc.c:44-67 | merging the rows gives the key back for every length |
| Keyslot.Chacha20 | verification/keyslotaf_reference.py:57-75 | the block loop with its two counter words adds the keystream |
| Keyslot.AddLabeled | verification/keyslotaf_reference.py:115-133 | the record written in pieces has head, ciphertext and tag in their places, drawn in order |
| Keyslot.AddBare | verification/keyslotaf_reference.py:135-147 | the same for a record without a head |
| Keyslot.OpenLabeled | verification/keyslotaf_reference.py:149-162 | the search returns what the first slot with a matching tag gives, an error if there is no stripe |
| Keyslot.OpenBare | verification/keyslotaf_reference.py:164-176 | only the slot chosen by the passphrase is tried |
| Keyslot.FirstSlotWins | verification/keyslotaf_reference.py:149-162 | the first slot whose tag matches decides, whatever later slots hold |
| Keyslot.LabeledRoundTripIff | verification/keyslotaf_reference.py:115-162 | opening returns the flags and the key if and only if there are at most 14 stripes, when no earlier slot opens |
| Keyslot.BareRoundTripIff | verification/keyslotaf_reference.py:135-176 | the same without the proviso |
| Keyslot.TamperedSlot | verification/keyslotaf_reference.py:149-162 | if a record changed outside its tag still opens, the keys derived from the passphrases and salts give its two contents one tag |
| Keyslot.DomainsSeparate | verification/keyslotaf_reference.py:115-147 | labeled and bare records never tag the same message |
| Keyslot.HeadBindsStripes | verification/keyslotaf_reference.py:120-127 | the tagged head determines the number of stripes and the salt |
| KeyslotFormat.BlobLayout | verification/keyslotaf_reference.py:118-119 | the split material is the flags byte and the volume key |
| KeyslotFormat.DrawOrder | verification/keyslotaf_reference.py:115-119 | salt, padding and stripes are drawn in this order, without gaps |
| KeyslotFormat.CryptedByte | verification/keyslotaf_reference.py:57-75 | byte j is added to byte j % 64 of stream block j / 64, its number in two words |
| KeyslotFormat.HeadBytes | verification/keyslotaf_reference.py:121-127 | magic, version, derivation, stripes, cost 256, length 65 and salt at their offsets |
| KeyslotFormat.LabeledBytes | verification/keyslotaf_reference.py:115-133 | head, ciphertext under bytes 0 to 39 of the derived key, tag of all before it under bytes 40 to 71, padding |
| KeyslotFormat.BareBytes | verification/keyslotaf_reference.py:135-147 | salt, ciphertext, tag of VCKSbare and all before it, padding |
| KeyslotFormat.SlotOfPassphrase | verification/keyslotaf_reference.py:178-180 | the slot is the first digest byte of VCKSloc and the passphrase modulo 8 |

## Left out

- The sponge, SHAKE rejection sampling and the SHA-2 and SHA-3 functions: arbitrary functions; that sample_ntt terminates with 256 values below q is assumed by its type.
- The probability that the ML-KEM noise is harmless: the theorem is about each run, not about a distribution.
- kem_keygen, kem_encaps and kem_decaps copy between buffers around the K-PKE routines; they are modelled on values (`MlKem.KemKeygen`, `MlKem.KemEncaps`, `MlKem.KemDecaps`), so their memcpy offsets appear as slices.
- The hybrid combiner, test-vector plumbing and every self-check in a main function.
- FeldmanImpl.VerifyShareLimbs: read-only operands are passed as values, not as pointers.
- Codex32.Decode: only the ASCII part of the built-in lower method is modelled.
- Merkle.VerifyBlob: a blob whose length is not a multiple of 33, which the C form would read past its end, is excluded.
- Hctr2Impl.HashBuffer: tweaks and messages beyond the fixed buffer, which the C form would overrun, are excluded.
- Blake3.Hash: the compression function is arbitrary, so its round function and permutation are not modelled; the derive-key and keyed front ends only choose a key and flags.
- Adiantum.Encrypt: the hash of tweak and message (Poly1305 and NH) and the stream are arbitrary functions, so their arithmetic is not modelled.
- AesImpl.EncryptBlock: that the branch-free form runs in constant time is a claim about timing.
- Rollback.Verify: the tag is an arbitrary function of counter and state root, so forging a tag is outside the model.
- AfSplitImpl.SplitInto: the random stripes are a parameter, so the generator of the C form is not modelled.
- AfSplit.DiffuseBytes: strings beyond 2^37 bytes, whose section index does not fit four bytes, are excluded.
- Keyslot.AddLabeled: 65536 stripes and more, which do not fit the two-byte field, are excluded.
- MerkleImpl.BuildLevelsInto: the number of sectors is a parameter, where the source has the constant 8.
- The Ed25519 group law and the remaining proof-of-concept modules are not part of this model.
