# ElectionGuard ballot encryption: a verified model

This project models the ballot-encryption core of ElectionGuard C++ and proves what that code is for: the chapter
"Ballot encryption" of the ElectionGuard Specification 0.95.0, from the word arithmetic at the bottom to the chain of
ballot codes at the top. Run `dafny verify dfyconfig.toml` in this directory to check every proof.

The layers, lowest first:

- **Arithmetic and groups.** `Arith` and `ModGroup` are the mathematics: powers, remainders, Bezout, and the subgroup of
  prime order q modulo p, whose exponents are read modulo q. `ElementQ`, `ElementP`, `Hex`, `FixedBase` and
  `UInt128Words` are the code's fast forms: carry-corrected 256-bit words, list products, the hex printer and parser, the
  windowed fixed-base table in Montgomery form with its cache, and 128-bit arithmetic on 64-bit words (with `Bits` for
  bitwise operations). Each is proved to compute the plain operation, or exactly where it does not.
- **Hashing and nonces.** `Hashing` is the delimited text that is fed to SHA-256, `NonceSequence` the derived nonces.
- **Encryption and proofs.** `ElGamal`, `HashedElGamal`, `Precomputed` and `ChaumPedersen`: encryption, homomorphic
  accumulation, decryption, hashed ElGamal, the six constructors of the zero-or-one proof and the selection-limit proof,
  with their verifiers.
- **Shared state.** `PrecomputeBuffers` and `AsyncQueues` hold the precomputed-value queues and the two-lock linked queue,
  each as a class and as a state machine over all interleavings of its locked steps.
- **Ballots.** `Manifests` (validity, placeholders, ballot styles), `Plaintexts` (validity and normalisation), `Ballots`
  (encrypted contests and ballots with their checks), `ContestEncryption` and `BallotEncryption` (the encryption of
  contests and ballots), `CastVotes` (the votes cast are the votes that decrypt), `NonceOrigins` (no nonce is derived for
  two places), `CompactBallots` and `CompactIntegrity` (what a stored ballot code protects), `ProofKeys` (what the ballot verifier's map of results decides), `HashRollUp`
  (what the hash of a ballot commits to) and `BallotCodeChain` (the encryption mediator). `Sorting` and `Permutations`
  support them.

How it is built: each operation that works step by step is a method with loops, or a method of a class, and is proved equal
to a specification function; the theorems are lemmas about those functions. Values that the code draws at random or takes
from a queue are inputs of the specification functions and ghost results of the methods, so a theorem about "every draw"
covers every run.

## What is assumed

- SHA-256 and HMAC are arbitrary functions. No theorem assumes that SHA-256 is injective: where a conclusion needs it, the
  conclusion exhibits the colliding texts instead.
- The group: Q = 2^256 - 189 is prime, P = Q * R + 1 is larger than 2^320, g differs from one and has order dividing Q, and
  the public key is any element of that subgroup (of the form g^s where something is decrypted). This is the predicate
  `ElementP.Standard`. Nothing else is assumed about P, not even that it is prime.
- The bignum library performs exact integer and Montgomery operations; `modExp` reads an exponent of 512 bits.
- `rand_q` returns any value below Q; system timestamps are positive; integer fields and container sizes are below 2^64.
- `std::sort` is modelled as one fixed sorting function. `Sorting.SortIsDetermined` says exactly when every sorting
  algorithm agrees with it, and `BallotEncryption.SelectionOrderIsDeterminate` for which contests that is so.

## Where the code is not what one would expect

- `add_mod_q` adds one too much for some operands above Q. `ElementQ.AddSubExactness` gives the exact condition, for
  `sub_mod_q` too.
- The bounds checks are strict at zero, so a proof with a zero challenge or response is rejected. All completeness
  theorems are equivalences with these zeros on the right-hand side, and cover ciphertexts of a wrong plaintext as well.
- Placeholder orders come from a 32-bit maximum. `Manifests.PlaceholdersFollowSelections` gives the exact condition under
  which placeholders come last, `Manifests.PlaceholdersShareNoOrder` the one under which no placeholder takes the order of
  a selection, and `Manifests.PlaceholderOrderCollides` a valid contest for which neither holds.
- `toHex` prints zero as "00", which `fromHex` refuses (`Hex.HexRoundTrip`).
- Hashed ElGamal without padding loses data beyond 2^32 bytes (`HashedElGamal.UnpaddedRoundTrip`), and the length that
  goes into its key blocks wraps to zero for multiples of 2^24 blocks (`HashedElGamal.LengthWraps`). The 512 bytes that
  are sealed for a contest are far below both.
- The votes allowed by a contest without a title are not used, only its number of seats (`CastVotes.UntitledLimit`).
- A description that repeats a selection identifier counts one vote twice (`Plaintexts.NormalisationKeepsTotals`).
- Validation does not ask for bits. A valid contest with two seats and three votes allowed passes two or three votes for
  one selection, and encryption then fails (`ContestEncryption.ValidatedButRefused`).
- The ballot verifier files its proof results under string keys, contest id or contest id, "-" and selection id; of two
  results under one key only the later one counts (`ProofKeys.LastResultsCount`). It decides whether all proofs are valid
  exactly when the keys are distinct (`ProofKeys.MapDecidesExactly`), that is, when no contest id equals another's id, "-"
  and selection id and no two such texts are equal (`ProofKeys.BallotKeysDistinct`). A valid manifest can break that:
  `ProofKeys.AcceptedWithFailedProof` shows ballots for contests "a" (with selection "b") and "a-b" that are accepted with
  a failed proof for "b".
- Hashed texts are fields joined by "|", which identifiers may contain. The hashes of contests and ballots still commit to
  their ciphertexts exactly as long as the identifiers of the two sides contain equally many delimiters
  (`HashRollUp.ContestCommits`, `HashRollUp.BallotHashCommits`), and so do the hashes of descriptions
  (`Manifests.SelectionHashBinds`, `Manifests.ContestHashBinds`); `HashRollUp.DelimiterInIdHidesSelection` shows two
  contests with different numbers of selections that hash the same text.

## Model

| member | source | states |
|---|---|---|
| ElementQ.AddSubExactness | src/electionguard/group.cpp:644-753 | The results of add_mod_q and sub_mod_q are the sum and the difference modulo Q if and only if no branch for operands above Q was taken (both operands at most Q, or sum below 2^256 - 1; subtrahend at most minuend or Q). |
| ElementQ.AddModQWords | src/electionguard/group.cpp:644-695 | The carry-corrected 256-bit addition computes the specified value in every branch, and the exact sum modulo Q for operands up to and including Q. |
| ElementQ.SubModQWords | src/electionguard/group.cpp:711-753 | The borrow-corrected subtraction, exact whenever the subtrahend is at most Q. |
| ElementQ.APlusBCModQWords | src/electionguard/group.cpp:755-783 | Product, five-word sum and reduction give (a + b*c) mod Q for all 256-bit operands. |
| ElementQ.SubFromQWords | src/electionguard/group.cpp:785-793 | Q - a, with Q itself for a = 0 and the wrapped word for a above Q. |
| ElementQ.AddModQList | src/electionguard/group.cpp:697-709 | The list sum is the fold of add_mod_q, and an empty list is an error. |
| ElementQ.SumModQIsSum | src/electionguard/group.cpp:697-709 | The fold over any list of values up to Q is the mathematical sum modulo Q. |
| ElementP.MulModPList | src/electionguard/group.cpp:567-595 | The list product with a reduction at every step is the product of all factors modulo P. |
| ElementP.PowModPIsExp | src/electionguard/group.cpp:597-628 | On subgroup elements pow_mod_p is exponentiation with the exponent modulo q, up to the 512-bit width. |
| ElementP.PowModPReads | src/electionguard/group.cpp:597-607 | For any exponent the power is the one to its low 512 bits. |
| ElementP.ValidResidueIsResidue | src/electionguard/group.cpp:206-215 | isValidResidue holds exactly for the elements strictly between 0 and P whose Q-th power is one. |
| ModGroup.Group.ExpInjective | src/electionguard/group.cpp:609-628 | Discrete logarithms in the subgroup are unique modulo q. |
| ModGroup.Group.FormInjective | src/electionguard/chaum_pedersen.cpp:233-245 | With equal exponents of K, two values g^x * K^y agree exactly when their exponents of g agree modulo q. |
| FixedBase.LookupTable.constructor | src/electionguard/lookup_table.hpp:94-126 | The nested loops leave in row i, column j the Montgomery form of base^(j * 256^i), for every i below 32 and 1 <= j < 256. |
| FixedBase.LookupTable.PowModP | src/electionguard/lookup_table.hpp:54-92 | Multiplying the entries picked by the non-zero exponent bytes yields base^e mod p for every 256-bit e. |
| FixedBase.NextByte | src/electionguard/lookup_table.hpp:72-86 | One exponent byte more multiplies the Montgomery result by exactly the entry that byte selects; a zero byte changes nothing. |
| FixedBase.LookupTableContext.GetBaseLookupTable | src/electionguard/lookup_table.hpp:179-188 | Whatever the cache holds, the table returned is the one of the requested base, and cached tables stay. |
| FixedBase.LookupTableContext.PowModP | src/electionguard/lookup_table.hpp:164-173 | The cached fixed-base power equals base^e mod p. |
| FixedBase.PowModP | src/electionguard/group.cpp:609-628 | Whether the base is marked as fixed decides only how the power is found: the tables and modular exponentiation give the same value for every base and 256-bit exponent. |
| UInt128Words.CarryIsLess | include/karamel/FStar_UInt128_Verified.h:17-25 | The branch-free carry is one exactly when a < b. |
| UInt128Words.MasksMean | include/karamel/FStar_UInt_8_16_32_64.h:37-57 | The 64-bit masks are all ones exactly when a = b, respectively a >= b, and zero otherwise. |
| UInt128Words.AddIsExact | include/karamel/FStar_UInt128_Verified.h:28-52 | Two-word addition with the constant-time carry is exact modulo 2^128. |
| UInt128Words.SubIsExact | include/karamel/FStar_UInt128_Verified.h:55-85 | Two-word subtraction is exact modulo 2^128. |
| UInt128Words.ShiftLeftIsExact | include/karamel/FStar_UInt128_Verified.h:124-170 | Shifting left by any s < 128 multiplies by 2^s modulo 2^128. |
| UInt128Words.ShiftRightIsExact | include/karamel/FStar_UInt128_Verified.h:173-219 | Shifting right by any s < 128 divides by 2^s. |
| UInt128Words.ComparisonsAreExact | include/karamel/FStar_UInt128_Verified.h:222-267 | All five comparisons agree with the 128-bit values, and the two masks are all ones exactly when their comparison holds. |
| UInt128Words.Mul32IsExact | include/karamel/FStar_UInt128_Verified.h:282-306 | The 64 by 32 bit product is exact. |
| UInt128Words.MulWideIsExact | include/karamel/FStar_UInt128_Verified.h:310-343 | The 64 by 64 bit schoolbook product is exact: no intermediate sum overflows. |
| Bits.HighestDigit | include/karamel/FStar_UInt128_Verified.h:17-20 | The top bit of a bitwise operation is the operation on the top bits. |
| Hex.BytesToHex | src/electionguard/convert.hpp:183-200 | The byte loop with its leading-zero flag prints exactly the big-endian value, two digits a byte without leading zero bytes. |
| Hex.ToHexInjective | src/electionguard/group.cpp:226-239 | toHex gives different texts for different numbers. |
| Hex.SanitizeHexString | src/electionguard/convert.hpp:170-181 | Leading zeros and blanks go, an odd length is repaired with one zero, and an empty rest is an error. |
| Hex.TrimmedIs | src/electionguard/convert.hpp:170-181 | What is cut off is a front of zeros and blanks, and the rest begins with neither. |
| Hex.CaseDoesNotMatter | src/electionguard/convert.hpp:56-80 | Hex texts that differ only in the case of their digits have one value. |
| Hex.HexToBytes | src/electionguard/convert.hpp:56-80 | Byte i is what stoi reads from the i-th pair; on hex digits the bytes have the value of the text. |
| Hex.BytesToElement | src/electionguard/group.cpp:427-500 | Copying `size` bytes of the little-endian limbs into a zeroed element keeps the value; too many bytes or a value above the modulus are errors. |
| Hex.FromHex | src/electionguard/group.cpp:250-258 | On hex text the parser returns its value or the range error, for both element types. |
| Hex.HexRoundTrip | src/electionguard/group.cpp:375-402 | Parsing what was printed returns the number if and only if it is positive, for every number up to the modulus. |
| Hashing.HashElemsStreaming | src/electionguard/hash.cpp:60-73 | The streaming updates hash exactly the delimited text of the items, with "null" for an empty list. |
| Hashing.DelimitedInjective | src/electionguard/hash.cpp:250-257 | Texts without the delimiter are determined by their delimited encoding. |
| Hashing.HashBinds | src/electionguard/hash.cpp:60-80 | Equal hashes of items without the delimiter mean equal rendered items, or the two hashed texts are a collision. |
| Hashing.TextFixesFields | src/electionguard/hash.cpp:60-73 | When only the first field may contain the delimiter, equal texts have equal fields if and only if they have equally many, and that holds if and only if their first fields contain equally many delimiters. |
| Hashing.CleanFrontFixesFields | src/electionguard/hash.cpp:60-73 | When only the last of a fixed number of fields may contain the delimiter, equal texts have equal fields. |
| Hashing.HashFixesItems | src/electionguard/hash.cpp:60-80 | Equal hashes of items of which only the first may contain the delimiter: the two texts collide, or the items print the same exactly when they are equally many, and that is so exactly when the first ones contain equally many delimiters. |
| Hashing.FieldsFixed | src/electionguard/hash.cpp:60-73 | Two equal texts have the same fields if and only if these contain equally many delimiters, one by one, whatever they contain. |
| Hashing.HashFixesFields | src/electionguard/hash.cpp:60-80 | Equal hashes of any items: the two texts collide, or what the items print is the same exactly when it contains equally many delimiters, item by item. |
| Hashing.NumericItemsFixed | src/electionguard/hash.cpp:60-80 | Equal hashes of equally many elements and numbers determine each of them, or the two texts collide. |
| Hashing.ManyBinds | src/electionguard/hash.cpp:126-248 | A printed vector of elements determines them all, or the two texts hashed for the vectors collide. |
| Hashing.NumberInjective | src/electionguard/hash.cpp:126-248 | Printed numbers contain no delimiter and differ from each other, zero's "null" included. |
| Hashing.HexClean | src/electionguard/hash.cpp:126-248 | Printed elements never contain the delimiter. |
| NonceSequence.Nonces.Get | src/electionguard/nonces.cpp:30-34 | The nonce at an index depends on the stored seed and the index alone, and moves the counter behind it, modulo 2^64. |
| NonceSequence.Nonces.Next | src/electionguard/nonces.cpp:42-42 | The nonce at the counter, which advances. |
| NonceSequence.Nonces.GetRange | src/electionguard/nonces.cpp:67-76 | A slice of the sequence that leaves the counter behind it, or nothing at all and the counter unchanged when the slice is empty or its end index wraps past 2^64. |
| NonceSequence.NonceBinds | src/electionguard/nonces.cpp:30-34 | Equal nonces come from one stored seed and one index, or the two texts hashed for them collide: a sequence repeats no nonce. |
| NonceSequence.SeedBinds | src/electionguard/nonces.cpp:14-28 | A stored seed determines the seed it was made from and what its header prints, whatever that is, up to a collision. |
| NonceOrigins.NonceDeterminesPlace | src/electionguard/encrypt.cpp:276-280 | Selections with one derived nonce, on any ballots, are the same described selection of the same described contest of one ballot with one ballot nonce and manifest, or two texts hashed on the way collide. |
| NonceOrigins.NoncesAreDerived | src/electionguard/encrypt.cpp:585-646 | Every selection of an encrypted ballot that used no precomputed bundle carries the nonce derived for its place. |
| NonceOrigins.ContestSecretsDiffer | src/electionguard/encrypt.cpp:428-434 | The nonce of a contest and the seed of its proof differ, and the nonce of its sealed data differs from that of every selection, unless two hashed texts collide. |
| ElGamal.EncryptIsEncryption | src/electionguard/elgamal.cpp:214-254 | Both encryption functions encrypt the bit (m = 1), and they encrypt the message itself exactly when m is that bit modulo Q. |
| ElGamal.ElGamalAdd | src/electionguard/elgamal.cpp:256-272 | The loop computes the componentwise products modulo P; an empty list is an error. |
| ElGamal.AccumulationIsHomomorphic | src/electionguard/elgamal.cpp:256-272 | The accumulation of encryptions of any messages encrypts their sum under the sum of the nonces. |
| ElGamal.AccumulationIgnoresOrder | src/electionguard/elgamal.cpp:256-272 | Accumulating a permutation gives the same ciphertext. |
| ElGamal.InverseInSubgroup | src/electionguard/elgamal.cpp:176-178 | In the subgroup the power P - 2 is the inverse, because Q divides P - 1. |
| ElGamal.DecryptRecovers | src/electionguard/elgamal.cpp:158-205 | Decryption returns 0 or 1 for every encryption of 0 or 1 modulo Q, and the failure value for every other message. |
| HashedElGamal.PadToBoundary | src/electionguard/elgamal.cpp:451-502 | Length prefix, text and zero bytes; truncation and both length errors as specified. |
| HashedElGamal.HashedElGamalEncrypt | src/electionguard/elgamal.cpp:446-553 | The whole ciphertext as a function of the triple used: one from the buffer if there is one, else the nonce's, and none is taken on an error. Text and returned data, XORed, are the key blocks of the session key. |
| HashedElGamal.Decrypt | src/electionguard/elgamal.cpp:354-437 | The decryption loop and the padding scan compute the specified result in every error case, which the inversion theorems below make exact. |
| HashedElGamal.MaskedTwice | src/electionguard/elgamal.cpp:388-407 | Masking with the same key blocks twice restores the bytes. |
| HashedElGamal.MaskedIsMaskedBy | src/electionguard/elgamal.cpp:521-541 | Every byte of the data differs from its byte of the text by exactly its byte of the key block: nothing is left unmasked. |
| HashedElGamal.KeyBlockBinds | src/electionguard/hmac.cpp:19-39 | A key block determines session key, seed, length and counter, or two named inputs of HMAC have one value: no two blocks are masked alike. |
| HashedElGamal.LengthWraps | src/electionguard/elgamal.cpp:524-528 | The length in bits is zero exactly for multiples of 2^24 blocks, where all key blocks are the same. |
| HashedElGamal.SessionKeyBinds | src/electionguard/elgamal.cpp:518-519 | The session key determines g^r and K^r, or the two hashed texts collide. |
| HashedElGamal.MacBinds | src/electionguard/elgamal.cpp:543-550 | The MAC determines its key, the pad and all data, or two named inputs of HMAC have one value. |
| HashedElGamal.PaddedDecryptionInverts | src/electionguard/elgamal.cpp:354-437 | Decrypting 512 bytes with padding returns a message if and only if the ciphertext is the encryption of that message over its pad: any other data, padding or MAC is refused. |
| HashedElGamal.UnpaddedDecryptionInverts | src/electionguard/elgamal.cpp:354-437 | The same without padding, for data of every length below 2^32. |
| HashedElGamal.AcceptedDataAgree | src/electionguard/elgamal.cpp:370-384 | Two ciphertexts over one pad that are accepted with one MAC hold the same data, or two named inputs of HMAC have one value. |
| HashedElGamal.PaddedRoundTrip | src/electionguard/elgamal.cpp:354-553 | For K = g^s, decrypting with padding returns the message, or its first 510 bytes where truncation is allowed; encryption fails exactly otherwise; the MAC check never fires. |
| HashedElGamal.UnpaddedRoundTrip | src/electionguard/elgamal.cpp:354-553 | Without padding encryption succeeds exactly for multiples of 32 bytes, and the message comes back unchanged if and only if it is not empty and shorter than 2^32 bytes. |
| HashedElGamal.TripleSeals | src/electionguard/elgamal.cpp:509-518 | A well-formed precomputed triple gives the ciphertext its exponent would, so both round trips hold on that path. |
| Precomputed.GeneratedAreFor | src/electionguard/precompute_buffers.cpp:64-132 | Generated triples and quadruples satisfy the relations consumers rely on. |
| Precomputed.ForMeansGenerated | src/electionguard/precompute_buffers.cpp:64-132 | Values satisfying the relations are the generated ones, so consumers may not distinguish them. |
| ChaumPedersen.BranchBalance | src/electionguard/chaum_pedersen.cpp:233-245 | For a branch with any opening of its commitments the pad equation always holds, and the data equation holds exactly when the exponents of g balance modulo q. |
| ChaumPedersen.MakeZeroIsValid | src/electionguard/chaum_pedersen.cpp:306-335 | The random zero proof verifies exactly for ciphertexts of zero without zero challenges or responses. |
| ChaumPedersen.MakeOneIsValid | src/electionguard/chaum_pedersen.cpp:410-438 | The random one proof verifies exactly for ciphertexts of one, including the case where sub_mod_q starts from Q. |
| ChaumPedersen.MakeZeroSeededIsValid | src/electionguard/chaum_pedersen.cpp:337-370 | The seeded zero proof, where the simulated branch divides through the exponent Q - c even for c = 0. |
| ChaumPedersen.MakeOneSeededIsValid | src/electionguard/chaum_pedersen.cpp:440-466 | The seeded one proof verifies exactly for ciphertexts of one. |
| ChaumPedersen.PrecomputedProofs | src/electionguard/chaum_pedersen.cpp:372-506 | With well-formed precomputed values both proofs are the ones fresh exponents would give. |
| ChaumPedersen.MakeIsValid | src/electionguard/chaum_pedersen.cpp:143-186 | On all six construction paths, for a ciphertext of any message: a proof is made exactly for plaintexts 0 and 1, and it verifies if and only if the claimed plaintext is the message modulo Q and c0, c1, v0, v1 are not zero. |
| ChaumPedersen.DisjunctiveSpecialSoundness | src/electionguard/chaum_pedersen.cpp:197-250 | Two accepting transcripts with the same commitments and different challenges yield a nonce that explains the ciphertext as an encryption of zero or of one. |
| ChaumPedersen.DisjunctiveChallengeBinds | src/electionguard/chaum_pedersen.cpp:230-232 | Equal challenges were taken over the same base hash, ciphertext and four commitments, or the two texts of seven items collide. |
| ChaumPedersen.AcceptedProofsBind | src/electionguard/chaum_pedersen.cpp:188-270 | Two accepted proofs with one challenge are about one ciphertext and hold the same commitments, or those texts collide. |
| ChaumPedersen.SeededSecretsDiffer | src/electionguard/chaum_pedersen.cpp:337-348 | The three secrets of a seeded proof differ from each other, or two hashed texts collide. |
| ChaumPedersen.SeededSecretsBind | src/electionguard/chaum_pedersen.cpp:337-348 | None of them is used for two seeds, or two hashed texts collide. |
| ChaumPedersen.LimitExponent | src/electionguard/chaum_pedersen.cpp:640-651 | c * L formed by mul_mod_p is the true integer, because it stays below P and within the width given to modExp. |
| ChaumPedersen.MakeConstantIsValid | src/electionguard/chaum_pedersen.cpp:575-651 | The selection-limit proof, buffered or not, verifies if and only if the ciphertext encrypts the limit modulo Q and c and v are not zero. |
| ChaumPedersen.ConstantSpecialSoundness | src/electionguard/chaum_pedersen.cpp:613-651 | Two accepting transcripts with the same commitments and limit extract a nonce under which the ciphertext encrypts exactly that limit. |
| ChaumPedersen.ConstantChallengeBinds | src/electionguard/chaum_pedersen.cpp:614-645 | Equal challenges of the selection-limit proof were taken over the same base hash, ciphertext and commitments, or the two texts collide. |
| ChaumPedersen.AcceptedLimitsBind | src/electionguard/chaum_pedersen.cpp:614-645 | Two accepted selection-limit proofs with one challenge are about one ciphertext with the same commitments, or those texts collide. |
| ChaumPedersen.LimitSecretBinds | src/electionguard/chaum_pedersen.cpp:571-612 | Selection-limit proofs from different seeds have different commitments, or two hashed texts collide. |
| PrecomputeBuffers.PrecomputeBufferContext.Init | src/electionguard/precompute_buffers.cpp:188-199 | Allows populating and sets the maximum, 5000 for zero, leaving the queues alone. |
| PrecomputeBuffers.PrecomputeBufferContext.PopulateOnce | src/electionguard/precompute_buffers.cpp:213-242 | One locked iteration appends one well-formed bundle, and two triples on every third iteration. |
| PrecomputeBuffers.PrecomputeBufferContext.Populate | src/electionguard/precompute_buffers.cpp:201-248 | Run alone it terminates after max(1, max - s) iterations with that many new bundles and 2 * ceil(n / 3) triples, keeps what was queued, and keeps the queues well formed for the key. |
| PrecomputeBuffers.PrecomputeBufferContext.GetTwoTriplesAndAQuadruple | src/electionguard/precompute_buffers.cpp:259-273 | Takes the oldest bundle, or reports that there is none. |
| PrecomputeBuffers.PrecomputeBufferContext.GetTriple | src/electionguard/precompute_buffers.cpp:275-289 | Takes the oldest triple, or reports that there is none. |
| PrecomputeBuffers.PrecomputeBufferContext.EmptyQueues | src/electionguard/precompute_buffers.cpp:291-302 | Empties both queues item by item. |
| PrecomputeBuffers.RunInvariant | src/electionguard/precompute_buffers.cpp:188-302 | Over every interleaving of the locked steps by any number of callers the queues stay first-in first-out, every pushed item is well formed for its caller's key, and each caller has generated two triples per third iteration. |
| PrecomputeBuffers.QueuedItemsMatchKey | src/electionguard/precompute_buffers.cpp:201-302 | In every state of every run: if all pushes since the last emptying used one key, everything queued is well formed for that key. |
| PrecomputeBuffers.NothingTwice | src/electionguard/precompute_buffers.cpp:201-302 | In every state of every run: generated items are the dispensed and discarded ones followed by the queued ones, in order, so nothing is handed out twice or lost. |
| AsyncQueues.AsyncQueue.Push | src/electionguard/async.hpp:131-143 | Filling the dummy and linking a new one appends the value. |
| AsyncQueues.AsyncQueue.Pop | src/electionguard/async.hpp:165-192 | Removes and returns the oldest value, if any. |
| AsyncQueues.RunInvariant | src/electionguard/async.hpp:113-192 | With every memory access a step of its own, under all interleavings: the chain from head to tail holds the unpopped values in order and ends in one dummy node, partly filled while a push is under way. |
| AsyncQueues.PopsFollowPushes | src/electionguard/async.hpp:113-192 | At every moment of every run the popped values are a prefix of the pushed ones. |
| AsyncQueues.PopIsOldest | src/electionguard/async.hpp:165-192 | Each pop returns the oldest value pushed and not yet popped. |
| AsyncQueues.AnswersAreCorrect | src/electionguard/async.hpp:113-117 | Emptiness is answered correctly, and the second comparison inside a pop never finds the queue empty. |
| AsyncQueues.PopIsNotStuck | src/electionguard/async.hpp:165-192 | A pop under way never follows an empty link. |
| Sorting.SortSorts | src/electionguard/ballot.cpp:602-617 | Sorting by sequence order permutes and orders. |
| Sorting.SortIsDetermined | src/electionguard/ballot.cpp:602-617 | Every way of sorting gives the same sequence if and only if different items have different sequence orders. |
| Manifests.ContestIsValid | src/electionguard/manifest.cpp:1241-1291 | Counting sets decides exactly whether the seats fit, and candidate ids, selection ids and sequence orders are non-empty and distinct. |
| Manifests.ManifestIsValid | src/electionguard/manifest.cpp:1656-1791 | The nested loops with their early exit decide exactly the validity of a manifest. |
| Manifests.SelectionHashBinds | src/electionguard/manifest.cpp:956-960 | Selection descriptions with one hash agree in identifier, order and candidate if and only if their identifiers contain equally many delimiters, or the two texts collide. |
| Manifests.ContestHashBinds | src/electionguard/manifest.cpp:1109-1131 | Contest descriptions with one hash agree in every hashed field, titles and selection hashes included, if and only if their four free texts contain equally many delimiters, or two texts collide. |
| Manifests.GenerateContestsWithPlaceholders | src/electionguard/manifest.cpp:1992-2019 | Every contest gets one placeholder per seat, numbered from its 32-bit maximum plus one. |
| Manifests.PlaceholdersFollowSelections | src/electionguard/manifest.cpp:2000-2014 | Placeholders have distinct orders, and they come after every selection if and only if there are none or all selection orders are below 2^32 - 1. |
| Manifests.PlaceholdersShareNoOrder | src/electionguard/manifest.cpp:2000-2014 | No placeholder takes the order of a selection if and only if no selection order lies within the numberElected values from the first placeholder order on. |
| Manifests.PlaceholderIdsDistinct | src/electionguard/manifest.cpp:2057-2063 | The identifiers generated for the placeholders of a contest are distinct. |
| Manifests.PlaceholderIdGivesOrder | src/electionguard/manifest.cpp:2057-2063 | The identifiers generated for a placeholder name its contest and its number: equal ones belong to one contest and one order. |
| Manifests.PlaceholderOrderCollides | src/electionguard/manifest.cpp:2000-2014 | A valid contest with a selection at order 2^32 - 1 whose placeholder shares the order of another selection. |
| Manifests.ValidManifestGives | src/electionguard/manifest.cpp:1855-1860 | The internal manifest of a valid manifest has distinct contest orders and ids, distinct selection ids and one placeholder per seat. |
| Manifests.GetContestsFor | src/electionguard/manifest.cpp:1935-1959 | The nested loops and the sort compute the contests that ContestsForCounts characterises. |
| Manifests.StyleFound | src/electionguard/manifest.cpp:1925-1933 | The style lookup returns the first style with the identifier asked for, and fails exactly when no style has it. |
| Manifests.ContestsForCounts | src/electionguard/manifest.cpp:1935-1959 | For any manifest: an error exactly when no style has the identifier or the first one with it names no district; otherwise every contest as often as that style names its district, in sequence order. |
| Manifests.ContestsForStyle | src/electionguard/manifest.cpp:1935-1959 | For distinct orders and a first style with the identifier that names no district twice, the result is exactly the contests of its districts, each once, strictly increasing. |
| Plaintexts.CheckValidity | src/electionguard/ballot.cpp:464-514 | The counting loop computes the outcome that ContestValidityMeans characterises. |
| CastVotes.ContestValidityMeans | src/electionguard/ballot.cpp:464-514 | Exactly when each of the five outcomes occurs: an over-vote if and only if more places are marked than there are seats, or the 64-bit sum of votes exceeds the votes allowed. |
| Plaintexts.EmplaceMissingSelections | src/electionguard/encrypt.cpp:207-230 | The nested search yields, for each description in order, the first selection with its id or an explicit zero. |
| Plaintexts.EmplaceMissingContests | src/electionguard/encrypt.cpp:232-256 | The same for the contests of the ballot's style. |
| Plaintexts.ChosenIsFirst | src/electionguard/encrypt.cpp:213-221 | The vote kept for an id is the first one cast for it. |
| Plaintexts.NormalisedTwice | src/electionguard/encrypt.cpp:207-230 | Normalising a contest is idempotent, also when the description repeats an id. |
| Plaintexts.NormalisedBallotTwice | src/electionguard/encrypt.cpp:232-256 | Normalising a ballot is idempotent when contest ids are distinct. |
| Plaintexts.NormalisationKeepsTotals | src/electionguard/encrypt.cpp:207-230 | Normalisation increases no contest's vote total if and only if the description's selection ids are distinct. |
| Ballots.MadeSelectionIsValid | src/electionguard/ballot.cpp:261-378 | A selection made from an encryption of its plaintext passes its own check exactly when its proof has no zero response. |
| Ballots.BallotNonceSeedBinds | src/electionguard/ballot.cpp:1046-1051 | The seed of a ballot's nonces determines manifest hash, ballot id, whatever it contains, and ballot nonce, or the two hashed texts collide. |
| Ballots.MakeContest | src/electionguard/ballot.cpp:648-686 | Hash, accumulation, aggregate nonce and proof over the sorted selections, with the next buffered triple if there is one; no selections is an error. |
| Ballots.ContestIsValidEncryption | src/electionguard/ballot.cpp:700-758 | Recomputes hash and accumulation and checks the limit proof, exactly as specified; a contest without selections is an error. |
| Ballots.AggregateEncrypts | src/electionguard/ballot.cpp:762-782 | The accumulation of the sorted selections encrypts the sum of their plaintexts under the aggregate nonce. |
| Ballots.MadeContestIsValid | src/electionguard/ballot.cpp:648-758 | A contest made from encryptions of any plaintexts passes its check if and only if they add up to the number elected modulo Q and challenge and response are not zero. |
| Ballots.BallotIsValidEncryption | src/electionguard/ballot.cpp:1055-1096 | The loop that fills the map of proof results decides the specified validity; it throws exactly when it has to hash a ballot without contests or a contest without selections. |
| Ballots.AllTrueMeans | src/electionguard/ballot.cpp:1074-1095 | The map is all true if every check is, and only if when no two checks share a key. |
| ProofKeys.LastResultsCount | src/electionguard/ballot.cpp:1074-1095 | The map is all true exactly when, for every key, the last result filed under it is. |
| ProofKeys.MapDecidesExactly | src/electionguard/ballot.cpp:1074-1095 | For a list of keys, the map decides for all results whether every one of them is true if and only if the keys are distinct. |
| ProofKeys.BallotKeysDistinct | src/electionguard/ballot.cpp:1074-1087 | The keys of a ballot are distinct if and only if contest ids are, no contest id equals a contest id, "-" and one of its selection ids, and no two such texts are equal. |
| ProofKeys.UnambiguousBallotIsValid | src/electionguard/ballot.cpp:1009-1096 | With such ids a ballot in strictly increasing order is accepted if and only if all proofs of all its contests verify. |
| ProofKeys.OverwrittenFailure | src/electionguard/ballot.cpp:1074-1095 | Where a contest id is the key of a selection of an earlier contest, a verifying ballot stays accepted when that selection's proof is replaced by zeros, although the selection then fails its own check. |
| ProofKeys.AmbiguousIsValid | src/electionguard/manifest.cpp:1656-1791 | A manifest with contests "a" (selection "b") and "a-b" passes validation. |
| ProofKeys.AcceptedWithFailedProof | src/electionguard/ballot.cpp:1055-1096 | For that manifest every ballot that encryptBallot returns with verification stays accepted with a failed proof for selection "b" of contest "a". |
| Ballots.OrderedBallotIsValid | src/electionguard/ballot.cpp:1009-1096 | A ballot made from contests in strictly increasing order passes its hash comparison: it is accepted if all proofs verify, and with distinct keys only if. |
| Ballots.UnorderedBallotNeedsCollision | src/electionguard/ballot.cpp:1009-1072 | A ballot made from contests in another order than the getter's is accepted only if the two texts it is made and checked with are different and collide. |
| HashRollUp.SelectionCommits | src/electionguard/ballot.cpp:382-389 | Equal selection hashes mean equal ciphertexts, description hashes and printed ids, whatever the ids contain, or two texts hashed for the selections collide. |
| HashRollUp.ContestCommits | src/electionguard/ballot.cpp:784-797 | Unless two texts hashed for them collide, two contests with consistent hashes and one contest hash hold the same ciphertexts in the same order if and only if they have equally many selections, and that is so if and only if their object ids contain equally many delimiters; then the description hashes and printed ids agree too. |
| HashRollUp.BallotHashCommits | src/electionguard/ballot.cpp:1135-1149 | Unless two texts hashed for them collide, two ballots with consistent hashes and one ballot hash hold the same ciphertexts in the same places if and only if they have equally many contests and, place by place, selections, and that is so if and only if their object ids and those of their contests contain equally many delimiters; then the manifest hashes and printed ids agree too. |
| HashRollUp.DelimiterInIdHidesSelection | src/electionguard/ballot.cpp:784-797 | Two contests with consistent hashes, two selections and one, that hash the same text because one id holds the delimiter: equal hashes, different ciphertexts, no collision. |
| HashRollUp.ValidIsConsistent | src/electionguard/ballot.cpp:1055-1096 | A ballot that passes its check with contests that pass theirs has consistent hashes at every level, and the manifest hash it is checked with. |
| HashRollUp.AcceptedSelectionsAgree | src/electionguard/ballot.cpp:354-378 | Two accepted selections with one hash were checked with their own description hashes, which are equal, and have one ciphertext, or texts hashed for them collide. |
| HashRollUp.AcceptedContestsAgree | src/electionguard/ballot.cpp:700-758 | Two accepted contests with one hash and equally many accepted selections were checked with one description hash and have the same ciphertexts and the same stored accumulation, or texts collide. |
| HashRollUp.AcceptedContestAccumulates | src/electionguard/ballot.cpp:700-758 | In an accepted contest of encryptions the stored accumulation encrypts their sum under the sum of their nonces. |
| ContestEncryption.EncryptSelection | src/electionguard/encrypt.cpp:260-338 | The selection as a function of the next bundle, or of fresh random values when none is queued, with every error case. |
| ContestEncryption.EncryptReal | src/electionguard/encrypt.cpp:447-482 | The loop over the normalised selections encrypts the planned bits, zeros for an over-vote, and counts the votes. |
| ContestEncryption.EncryptPlaceholders | src/electionguard/encrypt.cpp:484-506 | The loop over the placeholders selects exactly as many as votes are missing, or all of them for an over-vote. |
| ContestEncryption.EncryptContest | src/electionguard/encrypt.cpp:407-550 | The whole contest, or its first error, as a function of the plaintext, the description, the nonce seed and what was drawn; bundles and triples leave the queues in order. |
| ContestEncryption.PlanTotal | src/electionguard/encrypt.cpp:447-506 | For any description and contest, the bits to encrypt add up to the number elected if and only if the placeholders can make up for the missing votes, or match the seats of an over-vote. |
| ContestEncryption.PlanReachesLimit | src/electionguard/encrypt.cpp:407-506 | For every contest that passes validation, full, partial or over-voted, with distinct ids and one placeholder per seat: the values to encrypt add up to exactly the number elected if and only if the votes to encrypt do not exceed it, which holds whenever all of them are bits. |
| ContestEncryption.ValidatedButRefused | src/electionguard/encrypt.cpp:260-275 | A valid contest with two seats and three votes allowed: two or three votes for one selection pass validation, and encryptContest fails with the error of encryptSelection. |
| ContestEncryption.EncryptedSelectionMeans | src/electionguard/encrypt.cpp:260-338 | Encryption succeeds exactly for a bit under the description's id with a usable nonce and, if verified, a proof without zeros; the result encrypts the bit and its own check succeeds exactly without zeros. |
| ContestEncryption.ContestSucceeds | src/electionguard/encrypt.cpp:407-550 | Without verification encryptContest returns a contest if and only if the contest passes validation (possibly as an over-vote), there is something to encrypt, every value to encrypt is a bit, and no fresh selection derives the nonce zero, for any election and whatever was drawn. |
| ContestEncryption.EncryptedContestIsValid | src/electionguard/encrypt.cpp:527-550 | For any mix of precomputed and fresh selections the accumulation encrypts the sum of the bits, and the contest passes its check if and only if that sum is the number elected and nothing is zero. |
| ContestEncryption.ContestEndToEnd | src/electionguard/encrypt.cpp:407-550 | With distinct ids and one placeholder per seat: the accumulation encrypts the number elected, every check of the contest passes exactly without zeros, and encryptContest with verification returns a contest exactly when it does without (see ContestSucceeds) and nothing is zero, and then the same one. |
| ContestEncryption.EncryptedVotesDecrypt | src/electionguard/encrypt.cpp:447-506 | The secret key decrypts every selection of an encrypted contest to exactly the bit planned for it. |
| CastVotes.VotesAreEncrypted | src/electionguard/encrypt.cpp:407-506 | What was cast is what decrypts: every selection of an encrypted contest stands under its own id and decrypts to the vote of the first selection cast under it, or zero if there is none; to zero, exactly if the contest is over its limit. |
| CastVotes.SeatsAreFilled | src/electionguard/encrypt.cpp:484-506 | With distinct ids and one placeholder per seat, all decrypted values are bits and add up to the number of seats, and the placeholders take, in order, exactly the seats that the selections leave. |
| CastVotes.CastVotesSucceed | src/electionguard/encrypt.cpp:407-550 | In terms of the votes cast alone, exactly when encryptContest without verification returns a contest: right id, not too many selections, something to encrypt, only bits unless over the limit, and no fresh selection with the nonce zero. |
| CastVotes.ExtendedDataOfVotes | src/electionguard/encrypt.cpp:508-518 | The sealed data that decrypts is that of an over-vote exactly if the contest is over its limit. |
| CastVotes.UntitledLimit | src/electionguard/manifest.cpp:1992-2019 | For a contest without a title the limit is the number of seats, whatever votes it allows. |
| ContestEncryption.ExtendedDataRecovers | src/electionguard/encrypt.cpp:508-518 | The secret key recovers the first 510 bytes of the extended data of an encrypted contest. |
| ContestEncryption.DrawnIsHonest | src/electionguard/encrypt.cpp:282-321 | What encryption takes from buffers filled for the election's key satisfies the hypotheses of the theorems. |
| BallotEncryption.EncryptEach | src/electionguard/encrypt.cpp:552-583 | The loop over the style's contests encrypts each with the next bundles and the next two triples of the queues. |
| BallotEncryption.EncryptBallot | src/electionguard/encrypt.cpp:585-646 | The ballot, or its first error, as a function of what was drawn; no item of a queue is used twice on a ballot. |
| BallotEncryption.BallotSucceeds | src/electionguard/encrypt.cpp:585-646 | For distinct contest ids encryptBallot without verification returns a ballot if and only if its style has contests and every normalised contest has something to encrypt, only bits, and no fresh selection that derives the nonce zero. |
| BallotEncryption.ContestsInOrder | src/electionguard/encrypt.cpp:552-583 | Encrypted contests arrive in the strictly increasing order in which the ballot later sorts them. |
| BallotEncryption.BallotEndToEnd | src/electionguard/encrypt.cpp:585-646 | A ballot built by encryptBallot always passes its own hash comparisons: with verification it is returned exactly when it is without and no challenge or response is zero, and then it is the same ballot. |
| CastVotes.BallotVotesAreEncrypted | src/electionguard/encrypt.cpp:585-646 | The same for whole ballots: in every contest of the style each selection decrypts to the vote cast for it in the first contest under that id on the ballot, or to zero if there is none or those votes are over the limit. |
| BallotEncryption.VerifiedIsValid | src/electionguard/encrypt.cpp:585-646 | For any election and any draws, a ballot returned with verification passes its own check, and so do all of its contests and selections. |
| BallotEncryption.ValidManifestSuffices | src/electionguard/manifest.cpp:1855-1860 | A valid manifest and a style that names no district twice meet the hypotheses of BallotEndToEnd and BallotSucceeds, and the ballot's contests are exactly those of the style with its id. |
| BallotEncryption.SelectionOrderIsDeterminate | src/electionguard/ballot.cpp:602-617 | For the encryption of a valid contest, every way of sorting its selections gives the sequence that is hashed if and only if no placeholder takes the order of a selection. |
| CompactBallots.CompressPlaintextBallot | src/electionguard/ballot_compact.cpp:232-248 | The nested loops flatten all votes and write-ins in order. |
| CompactBallots.ExpandCompactPlaintextBallot | src/electionguard/ballot_compact.cpp:277-305 | The nested loops with a running index rebuild the contests of the style; reading past either vector is an error. |
| CompactBallots.CompactRoundTrip | src/electionguard/ballot_compact.cpp:232-305 | Expanding a compressed normalised ballot returns every id, vote and write-in; only the placeholder flag of a selection is cleared. |
| CompactBallots.FreshBallots | src/electionguard/encrypt.cpp:585-646 | Without precomputed bundles two encryptions of a ballot agree in everything but proofs and sealed data, whatever randomness they drew and whenever they ran. |
| CompactBallots.CompactRegenerates | src/electionguard/ballot_compact.cpp:307-337 | With no bundle queued in either run, expanding a compact ballot never reports a mismatch: it recomputes the same ciphertexts, hashes and ballot code. |
| CompactBallots.CompactExpands | src/electionguard/ballot_compact.cpp:307-337 | For a compact ballot that was made with good descriptions and honest draws, the regenerated ballot always encrypts again, and the expansion returns it if and only if none of its new proofs holds a zero challenge or response. |
| CompactBallots.ExpansionChecksCode | src/electionguard/ballot_compact.cpp:327-336 | For every compact ballot and whatever is drawn, the ballot encrypted again is returned if and only if its code is the stored one; another code is reported as a mismatch. |
| CompactBallots.BallotFields | src/electionguard/encrypt.cpp:619-625 | An encrypted ballot carries the ids, manifest hash, nonce, code seed and timestamp it was made with. |
| CompactIntegrity.EqualCodesEqualCiphertexts | src/electionguard/ballot_compact.cpp:307-337 | Two compact ballots of one style with one code that both expand give the same ciphertexts place by place, whatever else was stored or drawn, or texts hashed for them collide. |
| CompactIntegrity.CodeProtectsVotes | src/electionguard/ballot_compact.cpp:307-337 | Their stored votes then count the same in every contest: a compact ballot whose votes were changed so as to count differently is refused, or texts collide. |
| CompactBallots.EncryptCompactBallot | src/electionguard/encrypt.cpp:648-659 | Normalises, encrypts and compresses, or returns the first error; with an empty bundle queue no precomputed bundle is used. |
| CompactBallots.ExpandCompactCiphertextBallot | src/electionguard/ballot_compact.cpp:307-337 | Expands, encrypts again with verification and compares the codes, as specified in every error case. |
| BallotCodeChain.MakeMediator | src/electionguard/encrypt.cpp:117-127 | A mediator is made if and only if the hashes of manifest and context are equal, although their printed forms are compared. |
| BallotCodeChain.EncryptionMediator.Encrypt | src/electionguard/encrypt.cpp:137-160 | The ballot is encrypted with the code of everything encrypted before, the device hash at first; success extends the chain by its timestamp and hash, an error leaves it. |
| BallotCodeChain.EncryptionMediator.CompactEncrypt | src/electionguard/encrypt.cpp:162-185 | The same for compact ballots: the chain grows by the timestamp and the hash of the encryption of the normalised ballot. |
| BallotCodeChain.CodeTextsInjective | src/electionguard/ballot_code.cpp:23-28 | The text hashed for a code determines the previous code, the timestamp and the ballot hash. |
| BallotCodeChain.LastCodeDeterminesRun | src/electionguard/encrypt.cpp:137-185 | The last code and the number of ballots determine every timestamp, every ballot hash and the first seed, unless two texts hashed in these runs collide. |
| BallotCodeChain.DeviceHashDeterminesDevice | src/electionguard/ballot_code.cpp:16-21 | The first seed determines the device, whatever its location contains (an empty one prints like "null"), or the two hashed texts collide. |

## Left out

- Secrecy, zero knowledge, quality of randomness, timing and erasure of memory: the theorems are about correctness and soundness.
- HACL* bignum, SHA-256, HMAC and the DRBG: exact operations and arbitrary functions, as listed above.
- The JSON text of over-votes and write-ins (getOvervoteAndWriteIns): an arbitrary function of the contest gives the bytes that are sealed.
- JSON, BSON and MessagePack serialisation, dates, logging, the C interface and the .NET bindings.
- add_mod_p: its carry branch mixes the offsets of the two moduli, and nothing in the core calls it.
- Cloning of objects: entities are values; `Copied` keeps the one effect of a copy that encryption sees, the derivation of votesAllowed.
- Selections without a proof and contests without one: the encryption functions always compute them.
- Nonces.get with a header string: not used by ballot encryption.
- CompactBallots.EncryptCompactBallot: normalisation dereferences the ballot style before its existence is checked; for a style that does not exist, where the code's behaviour is undefined, the model returns an error.
- PrecomputeBuffers.PrecomputeBufferContext.Populate: the int counter of iterations is unbounded here; only its remainder by three matters.
- FixedBase.LookupTableContext.GetBaseLookupTable: sequential; the semaphore around it releases at once, so concurrent use is not modelled.
- AsyncSemaphore, ThreadPool, wait_all and the condition variable of the queue: blocking and scheduling are not modelled.
- 8-, 16- and 32-bit masks: the same expressions as the 64-bit ones.
- Manifest metadata (titles beyond their hashes, contact information, parties' names) and the manifest's own hash, which is a parameter.
- CompactBallots.CompactRegenerates: says nothing for runs that use precomputed bundles, whose nonces are not derived from the ballot nonce.
