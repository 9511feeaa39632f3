# Verified model of a CKKS library's exact arithmetic

The library computes on encrypted vectors with the CKKS scheme. Under the floating-point surface lies
exact integer arithmetic: lazily reduced Montgomery words, in-place negacyclic transforms, residue
number systems with special primes, signed permutations, and a pool of worker threads that runs the
kernels. This project models that part in Dafny and proves what it is supposed to do.

`dafny verify dfyconfig.toml` checks everything.

## How the model is laid out

Code that overwrites buffers is a method over arrays (or a class with the source's fields) whose
postcondition equates the new contents with a specification function of the old ones. What the library
promises is then a lemma about those functions. Machine words are integers with the wrap-around, the
sign extension, the 128-bit products and the truncations written out; the lemmas prove that nothing
overflows where the source relies on it.

| cluster | modules |
|---|---|
| words and buffers | Congruence, Montgomery, Kernels |
| transforms | BitReversal, Polynomial, NttReference, NttLoops, Tables, NttTheory, NttInverse, NegacyclicProduct, Transform |
| parameters | Arithmetic, NumberTheory, DerivedParameters, Precomputed |
| residue number system | ResidueBase, BaseExtension, ModDown, Rescale, Partitions, KeySwitching, Interpolation, SwitchedRows, SwitchedDivision, SwitchedKeys, BigInteger, Reconstruction |
| ciphertexts | Ciphertexts, Relinearization |
| permutations | Rotation, Cycles, SlotOrder, SlotRotation |
| linear transforms | Rings, MatrixProduct, Butterflies, Stages, ButterflyLoops, TwiddleFactors, SlotTransform, Chebyshev |
| primality | Primality, Lucas, QuadraticResidues, Jacobi, LucasTest, PrimeTest, RefusedPrimes |
| worker pool | Batches, WorkerPool |

## Assumptions

- The number of coefficients is a power of two, at least 2; slot counts are powers of two.
- Moduli are odd and below 2^60 (4q <= 2^62 is what the kernels need), and pairwise coprime wherever
  a residue number system is used. The base is taken below moduli id 0, whose top prime repeats a
  special prime (src/ckks/parameters.cpp:49-51); key switching is kept off it
  (src/ckks/parameters.cpp:174-183).
- The chain and coefficient loops of a polynomial are run one after another; that running them on the
  pool gives the same memory is the theorem about the pool.
- Operations on ciphertexts that act on slots (rotate, multiply, add) are exact slot operations over an
  arbitrary commutative ring; scale and rounding are not modelled, and noise only where a key is
  switched.
- Sampled polynomials (secrets, errors, the random half of a key) are arbitrary inputs.

## Where the code falls short of its purpose

- is_prime takes every 64-bit number, but is not exact on all of them, and refuses some primes.
  - From 2^63 on, modulus_power narrows the number to a signed word and reduces by 2^64 minus the number
    (Arithmetic.ModulusPower). Below 2^63 miller_rabin_test is the strong probable prime test
    (Primality.WordsExact); from there on it refuses, for instance, the prime 71 * 2^57 + 1
    (RefusedPrimes.LargeRefused).
  - The Lucas loop multiplies in signed 128-bit words. It is exact if (abs(D) + 1)(n - 1)^2 + n < 2^127
    (Lucas.WordsArePairs), for instance below 2^60 with abs(D) at most 126 (LucasTest.ExactBelow); the prime
    29 * 2^57 + 1, below 2^62, passes all bases and is refused there (RefusedPrimes.SmallRefused).
  - jacobi_symbol is exact if modulus + input % modulus < 2^63 (Jacobi.WordSymbolExact), and not, for
    instance, for the modulus 2^64 - 1 (Jacobi.WordSymbolDiffers).
  - lucas_probable_prime_test never returns for an odd square above 3 (LucasTest.SquareNeverEnds); below 2^62
    it returns for every other number (LucasTest.SearchEndsUnlessSquare).
- Conjugation and rotation by one less than 2N: get_jump reads every shift congruent to -1 modulo 2N as
  conjugation, get_ntt_permutation only the delta -1 itself. The coefficient form and the transform form
  of a rotation agree for every delta except the others in that residue class (Rotation.RotationCommutes);
  for those they differ in every slot (Rotation.RotationDisagrees, Rotation.RotationValuesDiffer).
- rescale_once_ leaves the canonical residue whenever x_0 <= x + 2q, in particular if the removed modulus is
  at most twice the remaining one (Rescale.RescaleRounds); Rescale.CanonicalUnlessNegative says exactly when
  it leaves a negative word of the right class instead. The 60-bit prime that the presets put above their
  40-bit chains is far larger, and Rescale.NotCanonicalBelow is an input with two of the library's primes.
- apply_butterfly computes the stage it is given exactly if the inner count is at most the radix, or one
  outer pass closes a full turn (ButterflyLoops.LoopsExact). Every stage of the two transforms is of that
  kind, so there it does no harm (ButterflyLoops.CoeffToSlot, ButterflyLoops.SlotToCoeff).
- BigInt subtraction is exact exactly if the difference is not negative (BigInteger.Minus).
- modulus_invert answers 0 for every negative input, invertible or not (Arithmetic.ModulusInvert).

## Model

| member | source | states |
|---|---|---|
| Montgomery.ShiftExact | src/montgomery/unit.h:15-23 | the logical shift of the sign-extended 128-bit sum, truncated to 64 bits, is the exact signed quotient, also where the product is negative |
| Montgomery.MontExact | src/montgomery/unit.h:15-23 | for signed operands whose quotient fits a word, mont_mult_scalar returns a t with t * 2^62 congruent to the product modulo q and between the product and q * (2^62 - 1) above it |
| Montgomery.MontLazy | src/montgomery/unit.h:13-23 | operands in [0, 2q) give a result in [0, 2q) that stands for their product, whenever 4q is at most 2^62 and k is -1/q |
| Montgomery.MontMeaning | src/montgomery/unit.h:15-23 | an operand that carries the radix makes the Montgomery product the plain product |
| Montgomery.ExitIsMultByOne | src/montgomery/unit.h:25-31 | leaving the domain, which forms x * k in 64 bits, equals multiplying by one for every x |
| Kernels.Run | src/montgomery/compound.cpp:6-91 | every kernel loop stores its scalar operation of the old contents at every place and reads nothing it has already overwritten, also in place |
| NttLoops.AdvanceFour | src/operation/ntt.cpp:83-115 | the hand-unrolled body performs four consecutive butterflies of the block, nothing else changes |
| NttLoops.BlockLoop | src/operation/ntt.cpp:60-119 | one block: both loop forms turn its halves into the butterfly results and leave the rest of the buffer alone |
| NttLoops.Ntt | src/operation/ntt.cpp:46-134 | the level-order in-place loops leave exactly the depth-first remainder tree of the input, whether or not input and output are one buffer |
| NttLoops.Intt | src/operation/ntt.cpp:177-272 | the loops leave exactly the level-by-level joining of the input with the inverse roots consumed in sequence |
| NttReference.SplitForest | src/operation/ntt.cpp:54-133 | level order and depth-first order of the butterflies give the same buffer |
| NttTheory.ForwardButterfly | src/operation/ntt.cpp:66-73 | one butterfly on words in [0, 2q) stays in [0, 2q) without 64-bit wrap-around and stands for x + wy and x - wy |
| NttTheory.PointAtNode | src/ckks/derived_parameters.cpp:35-46 | below the node with heap index 2^l + b every slot's point, raised to half the block length, is plus or minus psi to the bit-reversed index, the sign telling the halves of the block apart |
| NttTheory.Evaluation | src/operation/ntt.cpp:46-134 | slot j of the transform is congruent to f(psi^(2 bitrev(j) + 1)) and lies in [0, 2q), for every size, root and input in [0, 2q) |
| NttTheory.PointPower | src/operation/ntt.cpp:46-134 | every slot's point is a root of X^N + 1 |
| BitReversal.ReverseIntegerBits | src/ckks/encode.cpp:11-23 | bit i of the result is bit length - 1 - i of the index, and the result has no other bits |
| BitReversal.RevBit | src/ckks/encode.cpp:11-23 | the reversal that all the bit-reversed orders are stated with has bit i where the index has bit length - 1 - i |
| BitReversal.BitReverseOrder | src/ckks/derived_parameters.cpp:8-17 | the scatter through the reversal is a gather through it, since the reversal is its own inverse |
| BitReversal.RevNode | src/ckks/derived_parameters.cpp:35-41 | the reversal of heap index 2^l + b is 2^(L-l-1) * (2 rev(b) + 1), which orders the roots by tree node |
| NttInverse.PaintAt | src/ckks/precomputed.cpp:15-31 | intt meets each node with exactly the root position that ntt used for it, level by level |
| NttInverse.ButterflyUndo | src/operation/ntt.cpp:188-197 | a backward butterfly on multiples of a forward butterfly's outputs returns twice the inputs, in [0, 2q) |
| NttInverse.LevelUndo | src/operation/ntt.cpp:201-271 | one level of intt undoes the matching level of ntt up to a factor of two |
| NttInverse.RoundTrip | src/operation/ntt.cpp:177-272 | intt after ntt multiplies by N, for any lazily reduced representatives of any multiple of the transform |
| Transform.ToNtt | src/ckks/core_ntt.cpp:91-102 | in place or not, the chain holds the transform of the input entered into the Montgomery domain |
| Transform.ToIntt | src/ckks/core_ntt.cpp:131-150 | the chain holds the inverse transform divided by N and taken out of the domain |
| Transform.NttFormValue | src/ckks/core_ntt.cpp:91-102 | slot j after to_ntt_ is congruent to R f(psi^(2 bitrev(j) + 1)), in [0, 2q) |
| Transform.CoeffFormMeaning | src/ckks/core_ntt.cpp:131-150 | from any representatives of c times a transform, to_intt_ leaves words in [0, q] that stand for c times the coefficients without the radix |
| Transform.TransformRoundTrip | src/ckks/core_ntt.cpp:91-150 | to_intt_ after to_ntt_ returns every coefficient modulo q in [0, q], and q itself only for a coefficient congruent to 0 |
| Transform.NegacyclicMultiplication | src/montgomery/unit.cpp:5-10 | transforming two polynomials, mont_mult slot by slot and transforming back gives their product in Z_q[X]/(X^N + 1) |
| NegacyclicProduct.ProductValue | src/montgomery/unit.cpp:5-10 | the value of the negacyclic product is the product of the values at every z with z^N = -1 |
| Arithmetic.EuclidBounded | src/arithmetic/arithmetic.cpp:17-23 | every coefficient of the Euclidean loop stays within the modulus, by the Bezout and opposite-sign invariant |
| Arithmetic.ModulusInvert | src/arithmetic/arithmetic.cpp:10-31 | for x >= 0 the answer is nonzero exactly if x is invertible and then is the reduced inverse; negative inputs answer 0 |
| Arithmetic.ModulusMultiply | src/arithmetic/arithmetic.cpp:33-38 | congruent to the product, reduced for non-negative factors |
| Arithmetic.ModulusPower | src/arithmetic/arithmetic.cpp:40-58 | binary exponentiation refines plain exponentiation modulo the modulus that is in force: an unsigned modulus from 2^63 on is narrowed by modulus_multiply, so the residues are taken modulo 2^64 minus it; exponents below 1 answer 1 |
| Arithmetic.PowerSeries | src/arithmetic/arithmetic.cpp:144-157 | entry i is the reduced i-th power, and there is always at least one entry |
| Arithmetic.CalculateK | src/arithmetic/arithmetic.cpp:159-167 | for every odd q with 4q at most 2^62 the k returned satisfies k q = -1 modulo 2^62 |
| Arithmetic.PositiveModulo | src/arithmetic/arithmetic.cpp:271-273 | the truncating remainder is moved into [0, modulus) |
| DerivedParameters.FindRoot | src/arithmetic/arithmetic.cpp:97-113 | for every prime q with 2n dividing q - 1 the search ends with psi^n = -1 modulo q |
| DerivedParameters.SomeBelow | src/arithmetic/arithmetic.cpp:103-110 | the search always meets a suitable base, because a polynomial has no more roots modulo a prime than its degree |
| DerivedParameters.GetBackwardPaint | src/ckks/precomputed.cpp:15-31 | the list is the heap indices of the nodes in the order in which intt uses them |
| DerivedParameters.CountInverse | src/ckks/derived_parameters.cpp:26-26 | coeff_count_inverse_ times N is the radix modulo q |
| DerivedParameters.Derive | src/ckks/derived_parameters.cpp:19-50 | for every prime q with 2N dividing q - 1 and 4q at most 2^62, all tables are what the transforms need, for one root psi with psi^N = -1 |
| Precomputed.ProductMultR | src/ckks/precomputed.cpp:98-107 | the radix times the product of the special primes, modulo every chain |
| Precomputed.ProductEntered | src/ckks/core_key.cpp:128-129 | entering a secret with that table gives P times the secret in the Montgomery domain, in [0, 2q) |
| Precomputed.PInverseMultR | src/ckks/precomputed.cpp:109-121 | one row per special prime from the last one down; entry i times that prime is the radix modulo modulus i, and reduced, wherever that inverse exists |
| Precomputed.RescaleScale | src/ckks/precomputed.cpp:123-137 | for all c and i, wherever modulus c is invertible modulo q, the modulus c + 1 + i: entry i of row c lies in [0, q), and times modulus c it is 2^62 modulo q |
| Precomputed.InversesBelow | src/ckks/precomputed.cpp:280-291 | read from entry moduli_id on, the rows are exactly the constants that mod_down needs below the top level, even where the dropped top prime has no inverse |
| ResidueBase.UniqueValue | src/ckks/core_key_switch.cpp:21-56 | at most one number below the product of coprime moduli has given residues |
| BaseExtension.StageStep | src/ckks/core_key_switch.cpp:33-55 | for residues in [0, q_i] one round fixes one digit and keeps the pending rows congruent to the value so far, in [0, 2q) |
| BaseExtension.MixedRadixDigits | src/ckks/core_key_switch.cpp:21-56 | from residues in [0, q_i], as to_intt_ leaves them, with q_0 at most 2 q_j: all digits but the first are below their moduli, the mixed-radix value has those residues and is at most the product; if the first residue is reduced it is the only such number in [0, product) |
| BaseExtension.RnsToMrs | src/ckks/core_key_switch.cpp:21-56 | the in-place rounds leave, coefficient by coefficient, the last stage |
| BaseExtension.LiftedMeaning | src/ckks/core_key_switch.cpp:92-107 | the word of an extended modulus stands for R times the mixed-radix value so far, in [0, 2q) |
| BaseExtension.ModUp | src/ckks/core_key_switch.cpp:92-107 | mod_up before its transform leaves that word in every row of the extended base |
| BaseExtension.ExactBaseExtension | src/ckks/core_key_switch.cpp:21-107 | for residues in [0, q_i] every extended modulus receives R X in [0, 2q) for one integer X with those residues, at most the product, and the only one below the product if the first residue is reduced |
| BaseExtension.MakePartitionParameters | src/ckks/precomputed.cpp:325-382 | for coprime moduli the three tables hold the inverses and multiples of the partial products that the two loops need |
| ModDown.QuotientWindow | src/montgomery/compound.cpp:45-52 | the quotient word of a difference, negative ones included, stays strictly between -q/2 and 3q/2 |
| ModDown.MakeUnsigned | src/montgomery/compound.cpp:85-91 | the final kernel returns the canonical residue of every word in that window |
| ModDown.RoundMeaning | src/ckks/core_key_switch.cpp:128-153 | one round divides the represented integer by the removed prime, rounding down once or twice, and exactly if the removed word is reduced |
| ModDown.ModDownQuotient | src/ckks/core_key_switch.cpp:110-160 | every remaining modulus receives the canonical residue of one common integer between floor(X/P) - 2 and floor(X/P), and floor(X/P) itself for one special prime, if no special prime exceeds four thirds of one removed after it |
| ModDown.Divide | src/ckks/core_key_switch.cpp:124-155 | the rounds in place on the rows, then the final kernel, leave that word for every coefficient |
| Rescale.RoundingBit | src/montgomery/unit.cpp:67-71 | floor(X/q_0) plus the rounder bit is X/q_0 rounded to nearest |
| Rescale.RescaleRounds | src/ckks/core_rescale.cpp:5-25 | for any integer with the given residues in [0, q_i] the word represents the nearest integer to X/q_0, and is its canonical residue whenever q_0 is at most 2 q_j |
| Rescale.RescaleWithTable | src/ckks/precomputed.cpp:123-137 | rescaling with row c of the computed table divides by modulus c: on every later modulus the word stands for the one integer nearest to X over modulus c, and is its canonical residue if modulus c is at most twice the other |
| Rescale.CanonicalUnlessNegative | src/ckks/core_rescale.cpp:5-25 | the word is the canonical residue of the nearest integer to X/q_0, unless x_0 > x + 2q and (q - u) R <= (x_0 - x - 2q) scale with u the quotient modulo q, not counting u = q - 1 with x_0 > q_0 / 2; exactly then it is negative, and q below that residue; x_0 <= x + 2q is enough for the canonical residue |
| Rescale.NotCanonicalBelow | src/ckks/core_rescale.cpp:17-22 | for the 60-bit prime 1152921504606683137 above the 40-bit prime 1099510054913, both of the tables for N = 2^14, a concrete input gives -52249109749 |
| Rescale.RescaleOnce | src/ckks/core_rescale.cpp:5-25 | the six kernels leave that word in every row, from a buffer with one row more |
| Partitions.GetPartitions | src/ckks/parameters.cpp:325-360 | with n the chain count over the special count s, rounded up: n partitions; partition p holds exactly the chains from chains - (n - p) s up to chains - (n - p - 1) s, cut at 0, in ascending order, hence at least one and at most s, and carries the index of the key's partition at the same distance from the end |
| Partitions.SameIndices | src/ckks/parameters.cpp:334-360 | a ciphertext below the key's level uses the key's partitions restricted to the chains that are left, under the same indices |
| Partitions.Owner | src/ckks/parameters.cpp:334-360 | every chain lies in exactly one partition |
| KeySwitching.KeyRow | src/ckks/core_key.cpp:139-165 | the kernels leave error - a s, plus P s_from on the partition's own chains |
| KeySwitching.KeyWordMeaning | src/ckks/core_key.cpp:147-164 | that word is canonical and makes b R + a s stand for the error, plus P s_from for the owner |
| KeySwitching.SwitchRow | src/ckks/core_key_switch.cpp:305-342 | mont_mult for the first partition, then mont_mult_add and reduction, accumulate the lazily reduced sum of all products |
| KeySwitching.AccumulatedMeaning | src/ckks/core_key_switch.cpp:324-336 | the accumulator stays in [0, 2q) and stands for the sum of the products |
| KeySwitching.KeyPairsBelowLevel | src/data/data.cpp:82-86 | the pairs that a ciphertext at or below the key's level selects hide the errors, and the pair of the owner of chain i also P s_from |
| KeySwitching.KeyPairsAtSpecial | src/ckks/core_key.cpp:147-164 | modulo a special prime all selected pairs hide their errors only |
| KeySwitching.SwitchingIdentity | src/ckks/core_key_switch.cpp:293-342 | from the key relation at one modulus, before mod_down X0 + X1 S = P x F + sum of D_i E_i; special primes have no owner; SwitchedKeys derives the hypotheses |
| KeySwitching.KeySwitchingIdentity | src/ckks/core_key_switch.cpp:293-346 | the same at every transform slot, from the extended rows before the transform of mod_up; SwitchedKeys derives the hypotheses |
| Interpolation.SlotsDetermine | src/operation/ntt.cpp:46-134 | polynomials with congruent values in all slots have congruent coefficients |
| Interpolation.CoeffFormValue | src/ckks/core_ntt.cpp:131-150 | to_intt_ of arbitrary words in [0, 2q) leaves words in [0, q] whose polynomial has in every slot the value that the slot stands for |
| SwitchedRows.RowIdentity | src/ckks/core_key_switch.cpp:293-346 | modulo X^N + 1, coefficient by coefficient: after to_intt_, X0 + X1 S = P x F + sum of D_p E_p modulo every modulus |
| SwitchedDivision.SpecialsDivide | src/ckks/core_key_switch.cpp:110-160 | what vanishes modulo every special prime is a multiple of their product |
| SwitchedDivision.DivisionSwitches | src/ckks/core_key_switch.cpp:110-160 | rows with that identity leave mod_down as residues of two integer polynomials with Y0 + Y1 S = x F + error on every chain, the error being one integer polynomial: the sum of products less the two remainders, divided by P exactly |
| SwitchedDivision.ErrorBound | src/ckks/core_key_switch.cpp:293-346 | P times each coefficient of the error is at most N E (sum of the bounds of the D_p) + 3P + 3P N S for errors up to E and a secret up to S |
| SwitchedKeys.Lift | src/ckks/core_key_switch.cpp:21-107 | for digits in [0, q] the words of rns_to_mrs and mod_up for a partition stand, modulo every modulus of the extended base, for one integer of at most the partition's product with the digits as residues |
| SwitchedKeys.KeySlot | src/ckks/core_key.cpp:128-165 | the words of create_key_switching_key, selected for a ciphertext at or below the key's level, hide the errors modulo every chain and special prime, and the owner's pair P times the old secret modulo every chain |
| SwitchedKeys.KeySwitches | src/ckks/core_key_switch.cpp:293-367 | from the key's words and the words of rns_to_mrs and mod_up, for digits in [0, q], to the words that mod_down leaves: they are the residues of integer polynomials with Y0 + Y1 S = x F + error on every chain |
| SwitchedKeys.KeySwitchingIsCorrect | src/ckks/core_key_switch.cpp:293-367 | the same with the bound: P times every coefficient of the error is at most N E (sum of the products of the partitions) + 3P + 3P N S |
| SwitchedKeys.PartBelowSpecials | src/ckks/parameters.cpp:343-357 | where no chain exceeds a special prime, the product of a partition is at most P, as it has no more chains than there are special primes |
| SwitchedKeys.SwitchingErrorIsSmall | src/ckks/core_key_switch.cpp:293-367 | then every coefficient of the error of a key switch is at most N (n E + 3 S) + 3 for n partitions, n being the chain count over the special count, rounded up |
| Ciphertexts.Multiply | src/ckks/core.cpp:284-314 | the kernels leave the two products and the reduced sum of the cross products |
| Ciphertexts.MultiplyStands | src/ckks/core.cpp:284-314 | rows that stand for a0, a1 and b0, b1 give rows that stand for a0 b0, a0 b1 + a1 b0 and a1 b1, lazily reduced |
| Ciphertexts.ProductOfLinears | src/ckks/core.cpp:284-314 | those three, taken at the secret, are (a0 + a1 S)(b0 + b1 S) modulo X^N + 1 and q |
| Ciphertexts.DecryptDuo | src/ckks/core.cpp:169-194 | the row holds the reduced sum of z0 and the transform of z1 times the secret taken back |
| Ciphertexts.DecryptDuoMeans | src/ckks/core.cpp:169-194 | decrypt_duo returns the canonical residues of z0 + z1 S modulo X^N + 1 |
| Ciphertexts.DecryptTrio | src/ckks/core.cpp:124-167 | the row holds the sum of the three terms, the last one times the secret squared in the domain |
| Ciphertexts.DecryptTrioMeans | src/ckks/core.cpp:124-167 | decrypt_trio returns the canonical residues of c0 + c1 S + c2 S^2 modulo X^N + 1 |
| Relinearization.FormsAreDigits | src/ckks/core_key_switch.cpp:393-408 | what create_key_switcher_from_ntt hands on, for whatever lazily reduced words, are digits in [0, q], for which key switching is proved |
| Relinearization.KeySwitchingFromNtt | src/ckks/core_key_switch.cpp:393-408 | key switching is correct from any words in [0, 2q) in transform form, with the same bound |
| Relinearization.SomePolynomial | src/ckks/core.cpp:713-741 | all rows of words in [0, 2q) stand for some integer polynomial, so the next results leave no ciphertext out |
| Relinearization.AddSwitched | src/ckks/core.cpp:727-736 | one output row: to_intt_, then the reduced sum with the switched row |
| Relinearization.SquaredSecret | src/ckks/core_key.cpp:172-194 | the word of the squared secret, entered with the table of P, stands for P S^2 in [0, 2q), as the key needs it |
| Relinearization.RelinearizationIsCorrect | src/ckks/core.cpp:713-741 | for rows that stand for c0, c1, c2 and a key for S^2: canonical words with z0 + z1 S = c0 + c1 S + c2 S^2 + error on every chain modulo X^N + 1, one integer error for all chains, within the bound of key switching |
| Relinearization.MultiplicationIsCorrect | src/ckks/core.cpp:124-194 | decrypt_trio of the product of two ciphertexts returns the product of what they decrypt to, modulo X^N + 1 and every chain; decrypt_duo of the relinearized product returns it plus one integer error, within the bound of key switching, and within N (n E + 3 S) + 3 where no chain exceeds a special prime |
| BigInteger.Multiply | src/arithmetic/big_int.cpp:44-66 | the carry loop computes the product with a word, without leading zero limbs |
| BigInteger.Divide | src/arithmetic/big_int.cpp:73-109 | quotient and remainder by a word, from the top limb down |
| BigInteger.Plus | src/arithmetic/big_int.cpp:111-135 | the sum of numbers of any lengths |
| BigInteger.Minus | src/arithmetic/big_int.cpp:137-164 | for every two numbers the difference modulo 2^64 to the number of limbs of the first; it is the difference exactly if that is not negative, and too large by that power if it is negative and the second has no more limbs |
| BigInteger.GreaterEqual | src/arithmetic/big_int.cpp:181-194 | decides the comparison of the values |
| Reconstruction.MontgomeryModulus | src/arithmetic/big_int.cpp:196-217 | the canonical value of data / 2^62 modulo the modulus, after exactly floor(data / (modulus 2^62)) subtractions |
| Reconstruction.DecodeParameters.constructor | src/parameter/decode.cpp:5-51 | the reversers are 1 modulo their own chain and 0 modulo the others, the half is Q / 2 and the product constant is -1/Q modulo 2^62 |
| Reconstruction.Reconstruct | src/arithmetic/arithmetic.cpp:169-197 | the integer agrees with every residue, lies in [-(Q+1)/2, (Q-3)/2], and for n chains needs fewer than n/4 subtractions |
| Reconstruction.ConstantStep | src/parameter/decode.cpp:43-50 | multiplying r - k_i keeps the product the inverse of the product of the moduli modulo the radix |
| Rotation.GetJump | src/ckks/encode.cpp:44-56 | the jump is 5^(2N - shift) modulo 2N, or the shift itself for 2N - 1 |
| Rotation.GetPermutationAndSign | src/ckks/encode.cpp:513-526 | coefficient i goes to jump i modulo N with the sign of the quotient, with all 32- and 64-bit wrap-around |
| Rotation.TargetExact | src/ckks/encode.cpp:522-522 | the 32-bit product may wrap while its value modulo 2N stays exact |
| Rotation.PlaceInjective | src/ckks/encode.cpp:521-525 | no two coefficients share a place |
| Rotation.PlaceSurjective | src/ckks/encode.cpp:521-525 | every place is taken |
| Rotation.RotatePolynomial | src/ckks/encode.cpp:567-573 | the scatter with signs leaves the rotated polynomial |
| Rotation.RotatedValue | src/ckks/encode.cpp:513-573 | its value at z is the value of the original at z^jump, wherever z^N = -1 |
| Rotation.FiveOrder | src/ckks/encode.cpp:49-54 | 5^(2^k) = 1 modulo 2^(k+2) |
| Rotation.GetNttPermutation | src/ckks/encode.cpp:528-557 | slot j takes the value of the bit-reversed (i - diff) / power for i = bitrev(j) |
| Rotation.SlotExponent | src/ckks/encode.cpp:540-545 | taking that slot multiplies the slot's exponent 2i + 1 by the jump modulo 2N |
| Rotation.RotationCommutes | src/ckks/encode.cpp:513-587 | permuting transform values equals transforming the rotated polynomial, for every 32-bit delta on which the two forms mean the same rotation, among them all of [0, N) and -1 |
| Rotation.RotationDisagrees | src/ckks/encode.cpp:513-557 | for every other delta the two forms mean different exponents in every slot |
| Rotation.ExactOrder | src/arithmetic/arithmetic.cpp:97-113 | a root psi with psi^N = -1 has exact order 2N |
| Rotation.RotationValuesDiffer | src/ckks/encode.cpp:513-587 | for every other delta and the polynomial X the permuted transform and the transform of the rotated polynomial differ modulo q in every slot |
| Cycles.Pigeonhole | src/ckks/encode.cpp:91-127 | distinct numbers below n are at most n, and n of them only if none is missing |
| Cycles.GetPermutationCycles | src/ckks/encode.cpp:91-127 | each element is listed once, each followed by its image within its cycle, cycles started from the least index left |
| SlotOrder.ConjugatePermutations | src/ckks/encode.cpp:129-144 | always a bijection, and g p1 = p2 g whenever the cycle lengths match in order |
| SlotOrder.PlacesApart | src/ckks/encode.cpp:171-185 | the positions of the slots and of their conjugates are pairwise different, as pre_permute needs |
| SlotOrder.EncodePositions | src/ckks/encode.cpp:345-361 | the buffer of encode_complex before its transform: slot s is at the even complex position x with 2x + 1 = 5^s modulo 2^(e+1), and at any two positions that add up to 2h - 1 the entries are conjugates of each other, so that all 2h positions are filled and the polynomial is real |
| SlotOrder.EncodePermutation | src/ckks/encode.cpp:345-356 | the two permutations are inverse to each other, and the first sends slot s to the even x with 2x + 1 = 5^s modulo 2^(e+1) |
| SlotRotation.RotationMovesSlots | src/ckks/encode.cpp:44-361 | from the result of EncodePermutation alone: the jump of a rotation by delta takes the exponent of slot s to that of slot s - delta modulo the number of slots, and the jump of the conjugation to that of the mirrored position, where encode_complex has put the conjugate |
| SlotRotation.RotationMovesValues | src/ckks/encode.cpp:513-573 | rotating the polynomial by delta moves every slot by delta: at the point of slot s it takes the value that the original takes at the point of slot s - delta, for any root of X^N + 1 modulo q |
| SlotRotation.ConjugationMovesValues | src/ckks/encode.cpp:513-573 | the conjugation takes at the point of slot s the value that the original takes at the mirrored position |
| SlotOrder.SameShape | src/ckks/encode.cpp:129-144 | matching lists with the same cycle lengths conjugate |
| SlotOrder.InvertPermutation | src/ckks/encode.cpp:146-154 | inverse on both sides |
| SlotOrder.CircularShiftPermutation | src/ckks/encode.cpp:25-42 | one step left in the left half and right in the right half, and a permutation |
| SlotOrder.FoldCanonPermutation | src/ckks/encode.cpp:76-89 | index x stands for the exponent 2x + 1 modulo 2n and the permutation divides exponents by five |
| SlotOrder.FiveExactOrder | src/ckks/encode.cpp:76-89 | 5^j = 1 modulo 2^(n+2) only if 2^n divides j |
| SlotOrder.ShapesMatch | src/ckks/encode.cpp:25-89 | at every power-of-two size both permutations have two cycles of half the size, so the cycle lengths match |
| SlotOrder.SlotRoot | src/ckks/precomputed.cpp:50-60 | the encoder stores slot s at the index whose odd exponent is 5^s modulo 2n |
| SlotOrder.EveryPosition | src/ckks/encode.cpp:171-185 | the slots and their conjugates fill every complex position exactly once |
| SlotOrder.PrePermute | src/ckks/encode.cpp:171-185 | every slot is in place, its conjugate (same real part, negated imaginary part) at the mirrored place, and nothing is overwritten later |
| SlotOrder.PermuteAfterIfft | src/ckks/encode.cpp:492-503 | every requested slot is read from its place |
| SlotOrder.ReadsBack | src/ckks/encode.cpp:171-503 | reading back where pre_permute wrote gives every slot again |
| MatrixProduct.ExtractDiagonals | src/processor/parallel.h:38-74 | the flat output holds, diagonal by diagonal, the matrix entries at the rows and columns of the masked indices |
| MatrixProduct.WalkDown | src/ckks/engine_multiply_matrix.cpp:69-98 | walking down from any start, modulo n, meets every column once, so the sums agree |
| MatrixProduct.MultiplyPlainMatrix | src/ckks/engine_multiply_matrix.cpp:56-105 | for every matrix and vector over a commutative ring, the baby steps and giant steps add up to the ordinary product |
| MatrixProduct.LoopCounts | src/ckks/engine_multiply_matrix.cpp:10-12 | with a power-of-two slot count the loop counts multiply to it |
| Butterflies.FuseStep | src/operation/bootstrap.cpp:153-180 | the accumulating loops over centers and slots leave at every unit the three contributions of the stage before |
| Butterflies.FusedAct | src/operation/bootstrap.cpp:153-180 | fused diagonals act as the butterfly after the diagonals they were made from |
| Butterflies.StepFuses | src/operation/bootstrap.cpp:161-180 | a step composes its butterfly with the diagonals before it; no two units share a place, and every place that is reached is a center of the next step |
| Stages.UnitIndex | src/operation/bootstrap.cpp:162-162 | the truncating quotient of index * radix_count by radix_index is exact for negative indices too |
| Stages.StagesCover | src/operation/bootstrap.h:23-40 | both radix splits share out exactly all levels |
| Stages.StagesBalanced | src/operation/bootstrap.h:23-40 | the shares of two stages differ by at most one level; coeff_to_slot has the larger ones last, slot_to_coeff first |
| Stages.CoeffToSlotStage | src/operation/bootstrap.cpp:143-181 | the stage's matrix is the composition of its radix-2 butterflies with halving jumps |
| Stages.SlotToCoeffStage | src/operation/bootstrap.cpp:220-257 | the stage's matrix is the composition of its radix-2 butterflies with doubling jumps |
| Stages.ScaleStage | src/operation/bootstrap.cpp:183-191 | scaling every diagonal scales the stage's matrix |
| Stages.GetCoeffToSlotTwiddles | src/operation/bootstrap.cpp:124-198 | every stage computes its share of the levels, the last one times the constant |
| Stages.GetSlotToCoeffTwiddles | src/operation/bootstrap.cpp:200-263 | every stage computes its share of the levels |
| Stages.AllStages | src/operation/bootstrap.cpp:124-263 | the stages one after another are all butterflies of the network, times the constant |
| ButterflyLoops.GetStageLoopCounts | src/operation/bootstrap.cpp:265-278 | the inner count is 2 to half the rounded-up bit length plus the shift, the outer count the twiddle count plus one divided by it |
| ButterflyLoops.LoopsBalanced | src/operation/bootstrap.cpp:265-278 | without shift the counts of a stage of radix R multiply to 2R, and the inner one equals the outer one or is twice it |
| ButterflyLoops.VisitsOnce | src/ckks/engine_bootstrap.cpp:170-185 | the loops visit no unit twice |
| ButterflyLoops.VisitsCondition | src/ckks/engine_bootstrap.cpp:170-185 | skipping (0, 0) they visit exactly the units between -R and R if and only if the inner count is at most R |
| ButterflyLoops.UnshiftedVisits | src/operation/bootstrap.cpp:265-278 | without shift they do so for every stage with at least one level and for no other |
| ButterflyLoops.RotateVector | src/ckks/engine_bootstrap.cpp:856-870 | the scatter is the rotation by delta, for every delta down to -2n |
| ButterflyLoops.ApplyButterfly | src/ckks/engine_bootstrap.cpp:155-215 | for any stage, rotation and shift the loops add up the units from the first after (0, 0) to the last |
| ButterflyLoops.LoopsExact | src/ckks/engine_bootstrap.cpp:155-215 | the loops compute the stage's matrix times the vector, for all stages and vectors, exactly if the inner count is at most the radix R, or there is one outer pass and (2R - 1) rotations are a full turn |
| ButterflyLoops.ShortLoops | src/ckks/engine_bootstrap.cpp:155-215 | the first case, for every stage of that shape |
| ButterflyLoops.LongLoops | src/ckks/engine_bootstrap.cpp:155-215 | the second case: the extra unit that is visited is the missed one a full turn on |
| ButterflyLoops.FullTurn | src/operation/bootstrap.cpp:124-263 | a stage without levels, which more stages than levels produce, is always in the second case |
| ButterflyLoops.CoeffToSlot | src/ckks/engine_bootstrap.cpp:331-354 | for every number of stages the loop over the stages computes the whole network times the constant |
| ButterflyLoops.SlotToCoeff | src/ckks/engine_bootstrap.cpp:405-434 | for every number of stages the loop over the stages computes the whole network |
| TwiddleFactors.JoinUndoesSplit | src/operation/bootstrap.cpp:59-113 | a butterfly of get_inverse_twiddle_factor after the one of get_twiddle_factor on the same level doubles every slot, if their roots are inverse to each other |
| TwiddleFactors.SplitUndoesJoin | src/operation/bootstrap.cpp:59-113 | the same in the other order |
| SlotTransform.GetTwiddleFactor | src/operation/bootstrap.cpp:35-76 | every level holds the butterflies whose roots are powers of five, masked and scaled to the level |
| SlotTransform.GetInverseTwiddleFactor | src/operation/bootstrap.cpp:78-122 | the same with the levels in the opposite order and the root on the other side |
| SlotTransform.UpperExponent | src/operation/bootstrap.cpp:89-113 | in the upper half of a block the root is the opposite one, since 5^(2^h) = 1 + 2^(h+2) modulo 2^(h+3) |
| SlotTransform.JoinsEvaluate | src/operation/bootstrap.cpp:78-122 | after h levels every block of 2^h slots holds the values of the polynomial whose bit-reversed coefficients it held |
| SlotTransform.SlotToCoeffEvaluates | src/operation/bootstrap.cpp:200-263 | slot_to_coeff evaluates: slot j of the network is the value at zeta^(5^j) of the polynomial that has the slots as coefficients in bit-reversed order, for any root zeta of -1 of that order in any commutative ring |
| SlotTransform.CoeffToSlotInverts | src/operation/bootstrap.cpp:124-263 | coeff_to_slot takes these values back: the two networks, in either order, multiply every slot by the number of slots |
| Chebyshev.ProductFormula | src/ckks/engine_advanced.cpp:132-137 | T(m+n) + T(m-n) = 2 T(m) T(n) over any commutative ring |
| Chebyshev.MakeChebyshevBasis | src/ckks/engine_advanced.cpp:87-147 | refused exactly if 2^level is below max_power; otherwise every inner product finds a positive level, and entry i is T_i of the input, at most c levels below it exactly if i is at most 2^c |
| Primality.MillerRabin | src/arithmetic/prime.cpp:735-763 | for every 64-bit number the answer is the test on the narrowed words; below 2^63 it accepts exactly the strong probable primes to the base that the base does not divide |
| Primality.WordsExact | src/arithmetic/prime.cpp:735-763 | below 2^63 the test on words is the strong probable prime test |
| Primality.StrongWritten | src/arithmetic/prime.cpp:735-763 | with n - 1 = d 2^s and d odd, n is a strong probable prime to base a exactly if a^d = 1 or one of a^d, a^(2d), ..., a^(2^(s-1) d) is -1 modulo n |
| Primality.PrimePasses | src/arithmetic/prime.cpp:735-763 | a prime is a strong probable prime for every base between 1 and the prime; with WordsExact, miller_rabin_test refuses no prime below 2^63 |
| RefusedPrimes.Proth | src/arithmetic/prime.cpp:735-763 | k 2^m + 1 with k < 2^m is prime if some a has a^(k 2^(m-1)) = -1: how the refused numbers below are known to be prime |
| RefusedPrimes.LargeRefused | src/arithmetic/prime.cpp:735-763 | 71 * 2^57 + 1, above 2^63, is prime and miller_rabin_test refuses it for base 2 |
| RefusedPrimes.SmallRefused | src/arithmetic/prime.cpp:696-733 | 29 * 2^57 + 1, below 2^62, is prime and passes all fifteen bases; the search stops at D = -11, the 128-bit products wrap around, and the last u is not 0, so is_prime refuses it |
| NumberTheory.Fermat | src/arithmetic/prime.cpp:747-750 | a^(q-1) = 1 modulo a prime |
| NumberTheory.TooManyRoots | src/arithmetic/arithmetic.cpp:103-110 | a polynomial with more roots modulo a prime than its degree has leading coefficient zero |
| Lucas.AddPairs | src/arithmetic/prime.cpp:720-729 | the addition formulas of the Lucas sequences |
| Lucas.ModulusHalf | src/arithmetic/prime.cpp:687-694 | the reduced half modulo an odd modulus, wherever number + modulus stays below 2^127 |
| Lucas.Ladder | src/arithmetic/prime.cpp:715-732 | the answer is whether the last u of the rounds on signed 128-bit words is 0; if (abs(D) + 1)(n - 1)^2 + n < 2^127 it is whether U_(n+1) = 0 modulo n |
| Lucas.RoundFits | src/arithmetic/prime.cpp:720-729 | under that bound no intermediate value of a round leaves the 128-bit word |
| Lucas.WordsArePairs | src/arithmetic/prime.cpp:715-732 | under that bound the words are (U_j, V_j) modulo n for every binary prefix j of n + 1 |
| Lucas.Frobenius | src/arithmetic/prime.cpp:696-733 | (1 + sqrt d)^n = 1 + d^((n-1)/2) sqrt d modulo an odd prime n |
| Lucas.PrimePasses | src/arithmetic/prime.cpp:696-733 | U_(n+1) = 0 modulo an odd prime n for which D is a non-residue |
| QuadraticResidues.SymbolTimes | src/arithmetic/prime.cpp:662-676 | the symbol is multiplicative in the numerator |
| QuadraticResidues.EulerCriterion | src/arithmetic/prime.cpp:652-685 | modulo an odd prime n the symbol of a is a^((n-1)/2) |
| QuadraticResidues.SymbolTwo | src/arithmetic/prime.cpp:667-670 | the symbol of two is 1 exactly for n = 1 or 7 modulo 8 |
| QuadraticResidues.Reciprocity | src/arithmetic/prime.cpp:672-675 | quadratic reciprocity for odd positive numbers, coprime or not |
| Jacobi.SymbolDenominator | src/arithmetic/prime.cpp:652-685 | the symbol is multiplicative in the denominator |
| Jacobi.SymbolIsJacobi | src/arithmetic/prime.cpp:652-685 | the symbol is the product of Euler's symbols over the prime factors |
| Jacobi.ComputeJacobi | src/arithmetic/prime.cpp:652-685 | for every 64-bit input and modulus the loop computes the symbol of the numerator that positive_modulo leaves on signed words; it is the Jacobi symbol for every odd modulus for which modulus + input % modulus stays below 2^63 |
| Jacobi.WordSymbolExact | src/arithmetic/arithmetic.cpp:271-273 | modulus + input % modulus < 2^63 makes the numerator congruent to the input and the symbol the Jacobi symbol |
| Jacobi.WordSymbolDiffers | src/arithmetic/prime.cpp:652-657 | for the modulus 2^64 - 1, which becomes -1, and input 2 the answer is 0 where the Jacobi symbol is 1 |
| LucasTest.LucasProbablePrimeTest | src/arithmetic/prime.cpp:696-733 | the search stops at the first candidate with word symbol -1 and the answer is whether the last u of the 128-bit rounds is 0; if n + abs(D) < 2^63 and (abs(D) + 1)(n - 1)^2 + n < 2^127 then D is 1 modulo 4, at least 5 in size and the smallest such number with Jacobi symbol -1, the answer is whether U_(n+1) = 0 modulo n for the Q with D = 1 - 4Q, and every prime is accepted |
| LucasTest.ExactBelow | src/arithmetic/prime.cpp:696-733 | numbers below 2^60, the range of the library's moduli, meet both bounds for every D between -126 and 126 |
| LucasTest.SearchExact | src/arithmetic/prime.cpp:707-713 | up to a candidate with n + abs(D) < 2^63 the search works with the true symbols |
| LucasTest.SearchEndsUnlessSquare | src/arithmetic/prime.cpp:707-713 | for odd n with 3 < n < 2^62 the search for D ends exactly if n is not a square |
| LucasTest.SquareNeverEnds | src/arithmetic/prime.cpp:707-713 | for no odd square of the 64-bit range does the search end |
| LucasTest.NearNumber | src/arithmetic/prime.cpp:710-713 | every residue modulo an odd n is met by some 4j + 1 with abs(j) at most n / 2 |
| LucasTest.SomeCandidate | src/arithmetic/prime.cpp:707-713 | an odd n above 3 that is not a square has a candidate 5, -7, 9, -11, ... below 2n in size with Jacobi symbol -1 |
| LucasTest.PrimeAccepted | src/arithmetic/prime.cpp:696-733 | U_(n+1) = 0 modulo a prime n for every D = 1 modulo 4 of symbol -1 |
| PrimeTest.TrialDivision | src/arithmetic/prime.cpp:599-624 | exact: the answer is whether the number is prime |
| PrimeTest.IsPrime | src/arithmetic/prime.cpp:596-632 | for every 64-bit number: exact up to 2^20; beyond, the answer is whether all fifteen bases accept the words and the last Lucas word is 0; from 2^20 to 2^63 an accepted number is odd and, for every prime p below 48, not divisible by p and a strong probable prime to p; below 2^63 no prime is refused for which the D of the search meets n + abs(D) < 2^63 and (abs(D) + 1)(n - 1)^2 + n < 2^127 |
| PrimeTest.WordsPassExact | src/arithmetic/prime.cpp:625-629 | below 2^63 the fifteen tests on words are the fifteen strong probable prime tests |
| PrimeTest.BasesWritten | src/arithmetic/prime.cpp:593-594 | the tests of the whole list accept exactly if miller_rabin_test accepts for every prime below 48 |
| RefusedPrimes.SecondBaseNeeded | src/arithmetic/prime.cpp:593-629 | 1194649 = 1093^2 is a strong probable prime to base 2 and not to base 3, and the search for D never ends on it: the second base is what lets is_prime refuse it |
| Batches.TaskBalancer.Add | src/parallel/task_balancer.cpp:5-14 | tasks with one destination get one affinity, numbered in order of first appearance |
| Batches.TaskBalancer.PopAll | src/parallel/task_balancer.cpp:16-19 | returns all tasks in order, balanced by destination, and leaves the balancer empty |
| Batches.OwnEffect | src/processor/parallel.cpp:16-21 | running a task among independent ones gives what it gives when only its own destination has changed |
| Batches.OwnAssigned | src/parallel/worker.cpp:83-86 | a worker's list holds all tasks of its destinations, in order |
| WorkerPool.SenderKeepsFitAt | src/parallel/worker.cpp:77-105 | a step of send_tasks, wait or the destructor moves the sender and every worker to matching positions of the handshake |
| WorkerPool.AdvanceFits | src/parallel/worker.cpp:10-47 | a step of a worker keeps it at a matching position of the handshake |
| WorkerPool.SenderKeepsInv | src/parallel/worker.cpp:77-105 | a step of the sending thread keeps the invariant of every run |
| WorkerPool.WaitReturned | src/parallel/worker.cpp:98-105 | when wait returns, memory is what running the batch in order gives and every task has run |
| WorkerPool.PoolIsSafe | src/parallel/worker.cpp:10-105 | in every interleaving no semaphore exceeds one; when wait returns the log holds each task of the batch exactly once and nothing else, tasks with one destination in order, and memory is that of sequential execution |
| WorkerPool.SomeoneMoves | src/parallel/worker.cpp:10-105 | no deadlock: some thread can move until the last worker is joined |
| WorkerPool.StepDecreases | src/parallel/worker.cpp:10-105 | every step of every thread lowers the number of steps that are left |
| WorkerPool.EveryRunEnds | src/parallel/worker.cpp:10-105 | every run has at most a number of steps that depends on the program alone, and one that cannot go on has returned from every wait, stopped and joined all workers, and left the memory of sequential execution |

## Left out

- Floating point: the Fourier transforms, twisters, scales, deviations, conversion between doubles and residues, and the sine and rounding approximations have no exact specification. Slot values and twiddle factors are elements of an arbitrary commutative ring, and the tables of get_phi and get_inverse_phi are taken to hold the powers of a root.
- Noise growth beyond the error of one key switch or relinearization, sampling and the random number generator: sampled polynomials are arbitrary inputs.
- Flexible chains and even moduli: the branches are inactive, because the flexible chain's scale bit is always 0 (src/ckks/parameters.cpp:268-270).
- The single-threaded processor (src/processor/single.cpp), which runs the same kernels in plain loops: kernels run in the chain loops of src/processor/parallel.cpp.
- find_stage and the stream barriers, which group operations into stages: a stage is a batch of tasks, none of which touches the destination of a task with another destination.
- The other forms of the same loops: mod_up_single, the key switchers for one prime per partition, rescale_twice_, the real-valued pre_permute and permute_after_ifft, and the form of apply_butterfly that groups outer passes by equal rotations.
- Homomorphic operations as operations on slots: a product is proved as a product of polynomials, up to decryption; where linear transforms are concerned rotation, multiplication and addition are taken to be exact on slots. Encryption, rotation of ciphertexts and rescaling of a product are not put together with it.
- Prime tables and the choice of alternating primes, which use extended-precision floats; find_the_next_prime, find_cyclic_root and find_generator.
- Memory ownership, view offsets into extended polynomials, engine overloads, argument checks and their messages.
- NttLoops.Ntt: pointers are indices into one array, and the root pointer is a position in a sequence.
- Butterflies.FuseStep: a stage is a sequence of sequences updated place by place; the swap of the two vectors is an assignment.
- BigInteger.Divide: operator/ and operator% run the same loop and are one method here; limb vectors are sequences.
- Reconstruction.MontgomeryModulus: k is the constant of the modulus, as the decode parameters supply it; a modulus without that relation is not considered.
- ModDown.ModDownQuotient: special primes whose sizes differ by more than a third in the wrong order of removal are not considered; removal in ascending order always satisfies the condition.
- Rotation.RotationCommutes: sizes up to 2^29, so that 2N fits the 32-bit arithmetic of the source.
- Lucas.Ladder: a signed 128-bit sum or product that leaves its word wraps around here; C++ leaves it undefined.
- Jacobi.ComputeJacobi: the sum modulus + remainder wraps around here in the same way.
- LucasTest.LucasProbablePrimeTest: numbers on which the search for D does not end are excluded, because the source does not return on them.
- LucasTest.SearchEndsUnlessSquare: for odd numbers from 2^62 on that are not squares it is not decided whether the search on words ends.
- PrimeTest.IsPrime: a number above 2^20 that passes all fifteen bases is required to be one on which the search ends; that no square of the 64-bit range passes them is not proved.
- SwitchedKeys.KeySwitchingIsCorrect: the first modulus of a partition is at most twice the others, which keeps the mixed-radix digits in range; a partition with a much larger first modulus is not considered.
- SwitchedKeys.SwitchingErrorIsSmall: a chain above a special prime is not considered; there the bound of SwitchedKeys.KeySwitchingIsCorrect holds.
- WorkerPool.PoolIsSafe: each step of the model is one atomic action of a thread; the memory model of the machine is not modelled, the semaphores are taken to synchronise.
