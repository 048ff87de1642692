# Exact arithmetic of the lattice stack

This project models the exact integer arithmetic under the homomorphic-encryption schemes of the repository and
proves what the layers promise each other, for every degree, every number of moduli, every number of parties:

- **Ring kernel.** Word and big-integer arithmetic, Barrett and Montgomery reduction, the in-place radix-2 negacyclic
  transform, multiplication and Galois automorphisms in Z_q[X]/(X^N + 1), reconstruction from residues, exact division,
  modulus switching and rounding.
- **Lattice layer.** RLWE encryption and decryption, hybrid key switching, relinearization, Galois application, gadget
  decomposition, RGSW encryption and the external product, with explicit noise terms and bounds.
- **Schemes.** BGV slots, parameters and modulus switching; BFV scaling, decoding and tensor-and-rescale products, and
  when they decode.
- **Protocols.** Collective public, relinearization and Galois keys, collective bootstrapping, and verifiable secret
  sharing with reconstruction.

## How it is built

Machine words are subset types of `int`, so every assignment carries the proof that the value fits. In-place loops of
the repository are methods over arrays, or classes whose fields are reassigned, each proved equal to a specification
function. Residue polynomials are `Residues(a, moduli)` of integer polynomials `a`; the ring laws of Z[X]/(X^N + 1)
(`Negacyclic`, `Substitution`, `Evaluation`) are proved once, protocol and ciphertext identities are exact integer
identities, and congruence enters only through `Residues`. Methods over residues take the integer polynomials behind
their inputs as ghost parameters; `Crt.LiftResidues` says that every reduced polynomial has one.
The modules `KeySwitchRun`, `SchemeRun`, `CollectiveRun`, `ThresholdRun` and `VssRun` compose the operations from end to
end and state what comes out of the whole.

The moduli are distinct primes wherever the code relies on it (`PrimeBasis`, `Ring.Sound`), operands are reduced where
`sub_mod` and `neg_mod` need it, and sampled values (masks, errors, uniform elements) are parameters, with bounds where
a bound matters. `fresh_error_bound` is the constant 20. Group elements of the commitment scheme are represented by
their logarithms in a group of prime order L; L is a parameter with `GroupOrder(L)`.

## Model

| member | source | states |
|---|---|---|
| `Reduce.AddMod` | crates/phantom-ring/src/reduce/mod.rs:17-20 | for any two words, the reduced residue of their sum |
| `Reduce.SubMod` | crates/phantom-ring/src/reduce/mod.rs:23-29 | the residue of the difference whenever the subtraction does not underflow; reduced when the minuend is |
| `Reduce.NegMod` | crates/phantom-ring/src/reduce/mod.rs:32-38 | the reduced residue of the negative of a value up to the modulus |
| `Reduce.MulMod` | crates/phantom-ring/src/reduce/mod.rs:41-43 | for any two words, the remainder of the exact 128-bit product |
| `Reduce.PowMod` | crates/phantom-ring/src/reduce/mod.rs:46-57 | square-and-multiply is congruent to the power, and equals its remainder for a modulus of at least 2 |
| `Reduce.InvMod` | crates/phantom-ring/src/reduce/mod.rs:60-62 | Fermat inversion: modulo a prime the result times the value is 1 |
| `Reduce.InvertsAllIffPrime` | crates/phantom-ring/src/reduce/mod.rs:60-62 | every non-zero residue is inverted if and only if the modulus is prime |
| `Barrett.MulWide128` | crates/phantom-ring/src/reduce/barrett.rs:102-127 | the two halves are the exact 256-bit product, with every carry and index in range |
| `Barrett.QuotientEstimate` | crates/phantom-ring/src/reduce/barrett.rs:66-92 | the reciprocal estimate of the quotient is exact or one too small |
| `Barrett.New` | crates/phantom-ring/src/reduce/barrett.rs:49-59 | accepted exactly for a modulus of at least 2, with the rounded-down reciprocal of 2^128 |
| `Barrett.Reduce` | crates/phantom-ring/src/reduce/barrett.rs:66-92 | value mod m for every value below m 2^64; what the estimate leaves is below 2m, so at most one correction is made |
| `Montgomery.NegInvModPow2_64` | crates/phantom-ring/src/reduce/montgomery.rs:105-111 | six Newton steps give -m^-1 modulo 2^64 for every odd m |
| `Montgomery.New` | crates/phantom-ring/src/reduce/montgomery.rs:44-59 | accepted exactly for odd moduli below 2^63 |
| `Montgomery.Redc` | crates/phantom-ring/src/reduce/montgomery.rs:62-76 | t R^-1 mod m, reduced, for every t below m R; the intermediate sum stays below 2^128 |
| `Montgomery.ToMontgomery` | crates/phantom-ring/src/reduce/montgomery.rs:79-81 | the reduced residue of a R for any word a |
| `Montgomery.FromMontgomery` | crates/phantom-ring/src/reduce/montgomery.rs:84-86 | undoes the factor R |
| `Montgomery.Mul` | crates/phantom-ring/src/reduce/montgomery.rs:94-98 | a b mod m for all words a and b |
| `BigUints.Cmp` | crates/phantom-ring/src/bignum.rs:110-120 | orders numbers by value |
| `BigUints.ValInjective` | crates/phantom-ring/src/bignum.rs:103-108 | limbs without a zero on top are a unique representation |
| `BigUints.Add` | crates/phantom-ring/src/bignum.rs:122-137 | exact sum, again normalized |
| `BigUints.Sub` | crates/phantom-ring/src/bignum.rs:144-161 | exact difference of a larger and a smaller number, again normalized |
| `BigUints.MulU64` | crates/phantom-ring/src/bignum.rs:163-178 | exact product with a word |
| `BigUints.DivmodU64` | crates/phantom-ring/src/bignum.rs:183-195 | quotient and remainder of division by a word |
| `BigUints.CheckedToU128` | crates/phantom-ring/src/bignum.rs:69-74 | the value, or nothing exactly when it needs more than 128 bits |
| `BigUints.ShlLimbs` | crates/phantom-ring/src/bignum.rs:81-88 | multiplication by a power of 2^64 |
| `BigUintDivision.BitLength` | crates/phantom-ring/src/bignum.rs:198-203 | the position just above the highest set bit: 2^(r-1) <= value < 2^r |
| `BigUintDivision.BitAt` | crates/phantom-ring/src/bignum.rs:206-211 | bit n of the value, for any n |
| `BigUintDivision.Shl` | crates/phantom-ring/src/bignum.rs:215-235 | multiplication by a power of two, across limb boundaries |
| `BigUintDivision.Divmod` | crates/phantom-ring/src/bignum.rs:247-270 | self = q d + r with 0 <= r < d for all multi-limb operands |
| `BigUintDivision.DivisionUnique` | crates/phantom-ring/src/bignum.rs:247-270 | both division routines return the same limbs |
| `NttTables.PrimitiveRootOfOrder` | crates/phantom-ring/src/ntt/table.rs:133-158 | returns the one root the two-pass search settles on, or reports that neither pass finds any |
| `NttTables.FoundUnique` | crates/phantom-ring/src/ntt/table.rs:133-158 | the search is deterministic: tables for the same degree and modulus share their root |
| `NttTables.FoundIff` | crates/phantom-ring/src/ntt/table.rs:133-158 | the search is complete: it finds a root exactly when some c below 10 000 is a non-residue modulo q, or is itself of order 2N |
| `NttTables.CandidateExists` | crates/phantom-ring/src/ntt/table.rs:133-158 | modulo every prime below 99 990 000 there is such a c, for every degree |
| `NonResidues.SomeNonResidue` | crates/phantom-ring/src/ntt/table.rs:146-155 | every odd prime has a non-residue, because x^((q-1)/2) - 1 has too few roots |
| `NonResidues.LeastIsSmall` | crates/phantom-ring/src/ntt/table.rs:135-147 | the least non-residue n satisfies n (n - 1) <= q |
| `NttTables.OrderGivesMinusOne` | crates/phantom-ring/src/ntt/table.rs:133-158 | modulo a prime, h^2N = 1 and h^N != 1 give h^N = -1 |
| `NttTables.PowerTable` | crates/phantom-ring/src/ntt/table.rs:123-131 | entry j is the j-th power of the root modulo q |
| `NttTables.New` | crates/phantom-ring/src/ntt/table.rs:34-67 | the table and its constants; over a prime it is built exactly when 2N divides q - 1 and the search has a candidate below 10 000, and below 99 990 000 exactly when 2N divides q - 1 |
| `NttTables.TableRoot` | crates/phantom-ring/src/ntt/table.rs:34-67 | over a prime a table holds a primitive 2N-th root with the inverses of the root and of N |
| `Ntt.ReverseBits` | crates/phantom-ring/src/ntt/cpu.rs:158-165 | the bit-reversed index |
| `Dft.Rev2Involution` | crates/phantom-ring/src/ntt/cpu.rs:158-165 | reversing the bits twice is the identity |
| `Ntt.BitReversePermute` | crates/phantom-ring/src/ntt/cpu.rs:149-156 | in place, every position holds the value of its bit-reversed position |
| `Dft.StageStep` | crates/phantom-ring/src/ntt/cpu.rs:131-145 | a butterfly stage carries the block invariant from blocks of h to blocks of 2h values |
| `Ntt.Radix2NttInplace` | crates/phantom-ring/src/ntt/cpu.rs:122-147 | for every power-of-two length n, a root with root^(n/2) = -1 modulo q and any words, A[k] becomes sum a[j] root^(jk) modulo q, in place |
| `NttTransforms.ForwardTransformInPlace` | crates/phantom-ring/src/ntt/cpu.rs:74-83 | the buffer becomes the values at the odd powers of psi, reduced |
| `NttTransforms.InverseTransformInPlace` | crates/phantom-ring/src/ntt/cpu.rs:99-108 | the buffer becomes the scaled, untwisted inverse sums, reduced |
| `NttTransforms.NegacyclicForward` | crates/phantom-ring/src/ntt/mod.rs:22-28 | values at psi^(2j+1) in place; a buffer of another length is refused unchanged |
| `NttTransforms.NegacyclicInverse` | crates/phantom-ring/src/ntt/mod.rs:33-39 | inverse in place; a buffer of another length is refused unchanged |
| `NttTransforms.InverseUndoesForward` | crates/phantom-ring/src/ntt/mod.rs:22-39 | inverse after forward gives back the coefficients modulo q |
| `NttTransforms.ForwardUndoesInverse` | crates/phantom-ring/src/ntt/mod.rs:22-39 | forward after inverse gives back the values modulo q |
| `NttTransforms.ValuesMultiply` | crates/phantom-ring/src/ring.rs:212-233 | negacyclic convolution theorem: multiplying values multiplies polynomials in Z_q[X]/(X^N+1) |
| `Rings.New` | crates/phantom-ring/src/ring.rs:34-52 | a context over checked moduli; only an empty list is refused |
| `Rings.Ring.MulResidue` | crates/phantom-ring/src/ring.rs:98-104 | the fast and the plain path give the same reduced product for any words |
| `Rings.Ring.AddAssign` | crates/phantom-ring/src/ring.rs:107-117 | component-wise ring sum in place; a shape mismatch leaves the operand unchanged |
| `Rings.Ring.SubAssign` | crates/phantom-ring/src/ring.rs:127-137 | component-wise difference in place for any minuend and a reduced subtrahend; the ring difference when the minuend is reduced |
| `Rings.Ring.NegAssign` | crates/phantom-ring/src/ring.rs:147-156 | component-wise negation in place, for reduced operands |
| `Rings.Ring.ScalarMulAssign` | crates/phantom-ring/src/ring.rs:166-175 | every component multiplied by the scalar, in place |
| `Rings.Ring.CoeffwiseMul` | crates/phantom-ring/src/ring.rs:185-196 | coefficient by coefficient, the remainder of the product |
| `Rings.Ring.SchoolbookMulComponent` | crates/phantom-ring/src/ring.rs:287-302 | the loop over all pairs leaves the reduced negacyclic product |
| `Rings.Ring.Mul` | crates/phantom-ring/src/ring.rs:212-233 | the reduced negacyclic product in every component, transform or not: exactly what schoolbook multiplication returns |
| `Rings.Ring.SchoolbookMul` | crates/phantom-ring/src/ring.rs:239-247 | the reduced negacyclic product in every component, without assuming primes |
| `Rings.Ring.ApplyAutomorphism` | crates/phantom-ring/src/ring.rs:264-285 | the residues of a(X^k); for the power-of-two degrees exactly the odd k are accepted |
| `Automorphisms.OddIsCoprime` | crates/phantom-ring/src/ring.rs:264-285 | the gcd test accepts every odd element |
| `Automorphisms.WritesEachPositionOnce` | crates/phantom-ring/src/ring.rs:264-285 | the scatter loop writes every output position exactly once |
| `Automorphisms.SubstInverse` | crates/phantom-ring/src/ring.rs:264-285 | every accepted automorphism is undone by that of the inverse element |
| `Automorphisms.GcdDivides` | crates/phantom-ring/src/ring.rs:307-313 | the recursion's result divides both arguments |
| `Substitution.SubstMul` | crates/phantom-ring/src/ring.rs:264-302 | sigma_k(a b) = sigma_k(a) sigma_k(b) for odd k |
| `Substitution.SubstCompose` | crates/phantom-ring/src/ring.rs:264-285 | sigma_k after sigma_l is sigma_(k l) |
| `Substitution.SubstMod` | crates/phantom-ring/src/ring.rs:264-285 | sigma_k depends only on k modulo 2N |
| `Negacyclic.MulAssoc` | crates/phantom-ring/src/ring.rs:287-302 | the negacyclic product is associative |
| `Negacyclic.MulComm` | crates/phantom-ring/src/ring.rs:287-302 | the negacyclic product is commutative |
| `Rns.ResMul` | crates/phantom-ring/src/ring.rs:212-233 | products of residues are the residues of the integer product |
| `RnsExtension.ReduceBelow` | crates/phantom-ring/src/rns/extension.rs:111-113 | repeated subtraction ends below Q after at most k - 1 rounds |
| `RnsExtension.ReconstructTrueValues` | crates/phantom-ring/src/rns/extension.rs:63-118 | for every coefficient the integer in [0, Q) with the given residues, for any number of distinct primes |
| `Crt.CrtIs` | crates/phantom-ring/src/rns/extension.rs:63-118 | that integer is unique |
| `RnsExtension.ExtendBasis` | crates/phantom-ring/src/rns/extension.rs:41-54 | the residues of the reconstructed integers modulo the target basis |
| `RnsExtension.CrtBasisConstant` | crates/phantom-ring/src/rns/extension.rs:132-155 | Q / q_i modulo each target; an index out of range is refused |
| `RnsExtension.CrtLiftConstant` | crates/phantom-ring/src/rns/extension.rs:171-200 | G_i modulo each target; an index out of range is refused |
| `Crt.LiftSumCorrect` | crates/phantom-ring/src/rns/extension.rs:171-200 | sum of G_i (x mod q_i) is x modulo Q |
| `RnsExtension.FloorDivideResidues` | crates/phantom-ring/src/rns/extension.rs:211-218 | the residues of floor(Q / divisor) |
| `RnsExtension.ReconstructCenteredValues` | crates/phantom-ring/src/rns/extension.rs:275-295 | the signed representatives, or CrtOverflow exactly when one needs more than 127 bits |
| `Crt.CenteredLiftResidues` | crates/phantom-ring/src/rns/extension.rs:275-295 | the signed representatives have the residues they were read from |
| `RnsExtension.EmbedCenteredCoeffs` | crates/phantom-ring/src/rns/extension.rs:255-264 | the residues of signed coefficients; empty input is refused |
| `RnsExtension.ExtendBasisCentered` | crates/phantom-ring/src/rns/extension.rs:241-244 | the residues of the signed values in the target basis, with the overflow case |
| `RnsExtension.CenteredExtensionRoundTrip` | crates/phantom-ring/src/rns/extension.rs:241-244 | a signed polynomial that fits both bases survives the extension |
| `RnsRescale.DropLastModulus` | crates/phantom-ring/src/rns/rescale.rs:11-18 | the polynomial without its last component; a single component is refused |
| `RnsRescale.ModDown` | crates/phantom-ring/src/rns/rescale.rs:50-84 | floor(X / P) modulo every q_j, for the X in [0, QP) the residues stand for |
| `RnsRescale.ModDownMeaning` | crates/phantom-ring/src/rns/rescale.rs:50-84 | on the residues of any integer polynomial the result is that polynomial divided by P, rounded down |
| `RnsRescale.ModulusSwitchDown` | crates/phantom-ring/src/rns/rescale.rs:116-165 | the residues of X' with 0 <= q_L X' - X < q_L t and X' = X modulo t, for the X in [0, Q); the refusals |
| `RnsRescale.SwitchUnique` | crates/phantom-ring/src/rns/rescale.rs:98-115 | those two conditions determine X' |
| `RnsRescale.SwitchNearestIff` | crates/phantom-ring/src/rns/rescale.rs:101-102 | X' is a closest number congruent to X if and only if 2 corr <= q_L t, for the correction corr known from X before the call |
| `RnsRescale.CorrectionFromResidues` | crates/phantom-ring/src/rns/rescale.rs:139-147 | that correction depends only on the residues of X modulo q_L and t, by the code's formula a1 + q_L k |
| `RnsRescale.RescaleAndRound` | crates/phantom-ring/src/rns/rescale.rs:202-262 | round(t v / Q), halves away from zero, of the signed value v modulo QP |
| `RnsRescale.RoundDivNearest` | crates/phantom-ring/src/rns/rescale.rs:202-262 | the rounded quotient is within one half of the exact one |
| `RnsRescale.RoundDivTies` | crates/phantom-ring/src/rns/rescale.rs:202-262 | rounding is odd and takes halves away from zero |
| `RnsRescale.DecodeScaledValue` | crates/phantom-ring/src/rns/rescale.rs:287-322 | round(t v / Q) modulo t of the signed value v modulo Q |
| `RnsRescale.DecodeDelta` | crates/phantom-ring/src/rns/rescale.rs:287-322 | a value congruent to floor(Q/t) m + e decodes to m whenever 2 (t |e| + (Q mod t) m) < Q |
| `Rlwe.Decrypt` | crates/phantom-lattice/src/rlwe/decryptor.rs:20-38 | c_0 + c_1 s + c_2 s^2 + ... for any number of components; the refusals |
| `Rlwe.EncryptSecret` | crates/phantom-lattice/src/rlwe/encryptor.rs:50-58 | (m - a s + e, a) |
| `Rlwe.SecretEncryptionPhase` | crates/phantom-lattice/src/rlwe/encryptor.rs:50-58 | a fresh secret-key encryption decrypts to exactly m + e |
| `Rlwe.EncryptPublic` | crates/phantom-lattice/src/rlwe/encryptor.rs:59-70 | (m + b u + e1, a u + e2) |
| `Rlwe.GeneratePublicKey` | crates/phantom-lattice/src/rlwe/keygen.rs:55-69 | b = -(a s + e) |
| `Rlwe.PublicEncryptionPhase` | crates/phantom-lattice/src/rlwe/encryptor.rs:59-70 | a fresh public-key encryption decrypts to exactly m + e1 + e2 s - e u |
| `Rgsw.FreshPublicKeyNoise` | crates/phantom-lattice/src/noise.rs:53-58 | that noise is within fresh_public_key_noise_bound for ternary u and s |
| `SchemeRun.PublicRun` | crates/phantom-lattice/src/rlwe/encryptor.rs:59-70 | key generation, public encryption and decryption give m + e1 + e2 s - e u |
| `Rlwe.Multiply` | crates/phantom-lattice/src/rlwe/evaluator.rs:54-70 | every component of the product is the sum of its component products, for ciphertexts of any degrees; exactly the non-empty lists of components of the ring's shape are accepted |
| `Rlwe.RepresentedFits` | crates/phantom-lattice/src/rlwe/evaluator.rs:171-179 | every non-empty list of residues of ring elements, over any number of moduli, passes the ciphertext check |
| `Rlwe.ProductPhase` | crates/phantom-lattice/src/rlwe/evaluator.rs:54-70 | the product decrypts to the product of what its factors decrypt to |
| `KeySwitch.RebaseTernarySecret` | crates/phantom-lattice/src/rlwe/keyswitch.rs:240-270 | the same ternary secret in another ring; refused exactly when a residue is not 0, 1 or q_0 - 1 |
| `KeySwitch.TernaryRead` | crates/phantom-lattice/src/rlwe/keyswitch.rs:240-270 | a ternary secret is read off one component without loss |
| `KeySwitch.ScalePolyPerComponent` | crates/phantom-lattice/src/rlwe/keyswitch.rs:217-226 | component constants that are residues of one integer scale by that integer |
| `KeySwitch.GenerateKeySwitchKey` | crates/phantom-lattice/src/rlwe/keyswitch.rs:108-152 | row j is (-a_j s + e_j + (QP/q_j) s_old, a_j); the refusals |
| `KeySwitch.GeneratedRows` | crates/phantom-lattice/src/rlwe/keyswitch.rs:108-152 | such rows encrypt the scaled old secret under the new one with error e_j, exactly |
| `KeySwitchMath.DigitsRecompose` | crates/phantom-lattice/src/rlwe/keyswitch.rs:183-206 | the digits weighted by Q/q_j sum to c1 modulo Q |
| `KeySwitch.Switch` | crates/phantom-lattice/src/rlwe/keyswitch.rs:158-212 | (c0 + floor(sum d_j b_j / P), floor(sum d_j a_j / P)) for the product P of the key's moduli beyond Q; the refusals |
| `KeySwitchMath.KeySwitchCorrect` | crates/phantom-lattice/src/rlwe/keyswitch.rs:108-212 | modulo Q the result decrypts to c0 + c1 s_old + eta with P eta = sum d_j e_j - r_b - r_a s, remainders in [0, P) |
| `Evaluator.KeySwitchDecrypts` | crates/phantom-lattice/src/rlwe/keyswitch.rs:158-212 | decryption is preserved up to eta, and P |eta| <= N B sum(q_j - 1) + (P - 1)(N + 1) for |e| <= B and ternary s |
| `KeySwitchRun.SwitchRun` | crates/phantom-lattice/src/rlwe/keyswitch.rs:158-212 | what key switching returns decrypts under the new secret to c0 + c1 s_old + eta, P eta = sum d_j e_j - r_b - r_a s, for every key over Q P with such rows |
| `KeySwitchMath.SwitchBoundGrows` | crates/phantom-lattice/src/rlwe/keyswitch.rs:158-212 | the bound on P eta is (P - 1)(N + 1), and N B (q - 1) more for every modulus q |
| `Evaluator.Relinearize` | crates/phantom-lattice/src/rlwe/evaluator.rs:82-106 | c2 switched and added to (c0, c1); unchanged without a key; the refusals |
| `Evaluator.RelinearizeCorrect` | crates/phantom-lattice/src/rlwe/evaluator.rs:82-106 | relinearization preserves c0 + c1 s + c2 s^2 modulo Q up to eta, with P |eta| <= N B sum(q_j - 1) + (P - 1)(N + 1) for ternary s and errors within B |
| `KeySwitchRun.RelinearizeRun` | crates/phantom-lattice/src/rlwe/evaluator.rs:82-106 | what relinearization returns decrypts to c0 + c1 s + c2 s^2 + eta |
| `KeySwitchRun.MultiplyRun` | crates/phantom-lattice/src/rlwe/evaluator.rs:54-106 | key generation, product, relinearization and decryption give the product of the two decryptions plus eta |
| `Evaluator.GenerateHybridRelinearizationKey` | crates/phantom-lattice/src/rlwe/keygen.rs:91-115 | the rows encrypt a representative of s^2 modulo Q under the secret read from the first component; non-ternary secrets are refused |
| `Evaluator.ApplyGaloisAutomorphism` | crates/phantom-lattice/src/rlwe/evaluator.rs:123-147 | both components substituted, then switched; unchanged without a key; the refusals |
| `Evaluator.GaloisCorrect` | crates/phantom-lattice/src/rlwe/evaluator.rs:123-147 | the result decrypts to the substituted plaintext modulo Q up to eta, with the same bound on P |eta| |
| `KeySwitchRun.GaloisRun` | crates/phantom-lattice/src/rlwe/evaluator.rs:123-147 | what Galois application returns decrypts to sigma_k(c0 + c1 s) + eta |
| `KeySwitchRun.GeneratedKeyFor` | crates/phantom-lattice/src/rlwe/keyswitch.rs:108-152 | generated keys are keys of this kind |
| `Evaluator.GenerateHybridGaloisKey` | crates/phantom-lattice/src/rlwe/keygen.rs:141-166 | the rows encrypt sigma_k(s) exactly, which is again ternary; non-ternary secrets are refused |
| `Gadget.NewParams` | crates/phantom-lattice/src/rgsw/decomposition.rs:54-62 | accepted exactly for a base of 1 to 62 bits and at least one level |
| `Gadget.Decompose` | crates/phantom-lattice/src/rgsw/decomposition.rs:97-129 | the digits of all residues as the code cuts them, in modulus-major order, in every component |
| `Gadget.DigitsMeet` | crates/phantom-lattice/src/rgsw/decomposition.rs:97-129 | while the shifts fit a word they are the base-B digits |
| `Gadget.TrueDigitsIff` | crates/phantom-lattice/src/rgsw/decomposition.rs:54-112 | the digits of every word are its base-B digits if and only if (levels - 1) base_log < 64 |
| `Gadget.Recompose` | crates/phantom-lattice/src/rgsw/decomposition.rs:148-185 | the weighted sum of the digits, with the weights as the code computes them; the refusals |
| `Gadget.WeightsMeet` | crates/phantom-lattice/src/rgsw/decomposition.rs:165-180 | while the shifts fit 128 bits those weights are B^level G_j |
| `Gadget.GadgetRecomposes` | crates/phantom-lattice/src/rgsw/decomposition.rs:97-185 | sum of B^level G_j digit is x modulo Q when every modulus is at most B^levels |
| `Gadget.GadgetTruncates` | crates/phantom-lattice/src/rgsw/decomposition.rs:97-185 | in general recomposing keeps of each residue what is below B^levels |
| `Gadget.RecomposeDecompose` | crates/phantom-lattice/src/rgsw/decomposition.rs:97-185 | recompose of decompose is the identity on all polynomials if and only if every modulus is at most B^levels |
| `Rgsw.ScaleByBasePowerAndLift` | crates/phantom-lattice/src/rgsw/ciphertext.rs:101-119 | the polynomial times the weight of (level, index) in every component |
| `Rgsw.Encrypt` | crates/phantom-lattice/src/rgsw/ciphertext.rs:39-83 | two blocks of rows encrypting m and m s times every gadget weight, in digit order |
| `Rgsw.ExternalProduct` | crates/phantom-lattice/src/rgsw/external_product.rs:25-52 | the two digit-row dot products, added, as far as there are both digits and rows |
| `Rgsw.ExternalProductCorrect` | crates/phantom-lattice/src/rgsw/external_product.rs:25-52 | the result decrypts to m (c0 + c1 s) plus the digits times the rows' errors, modulo Q |
| `Rgsw.ExternalProductDecrypts` | crates/phantom-lattice/src/rgsw/external_product.rs:25-52 | the same for what `ExternalProduct` returns on rows that `Encrypt` made, while the shifts fit |
| `SchemeRun.ExternalProductRun` | crates/phantom-lattice/src/rgsw/external_product.rs:25-52 | RGSW encryption, external product and decryption give m (c0 + c1 s) plus the row noise |
| `Rgsw.ExternalProductMessage` | crates/phantom-lattice/src/rgsw/external_product.rs:11-24 | for an input encrypting mu with noise e the result encrypts m mu with noise m e plus the row noise |
| `Rgsw.ExternalProductNoise` | crates/phantom-lattice/src/noise.rs:96-108 | that noise is within external_product_noise_bound |
| `Rgsw.RingProductAttained` | crates/phantom-lattice/src/noise.rs:31-33 | the product bound N a b is attained, so no smaller one holds |
| `Rgsw.FreshNoiseAttained` | crates/phantom-lattice/src/noise.rs:57-62 | the fresh public-key bound is 40 N + 20 and is attained |
| `Rgsw.ExternalNoiseGrows` | crates/phantom-lattice/src/noise.rs:96-108 | without levels the bound is that of m e, and each level adds two products of a digit and a fresh error |
| `Batching.NewParams` | crates/phantom-schemes/src/bgv/params.rs:17-41 | accepted exactly for a plaintext modulus above 1 and below every ciphertext modulus |
| `Batching.BgvParams.RotationElement` | crates/phantom-schemes/src/bgv/params.rs:64-73 | 5 to the shift taken modulo the row width, modulo 2N |
| `Batching.SlotExponents` | crates/phantom-schemes/src/bgv/encoder.rs:173-185 | row 0 holds the powers of 5, row 1 their negatives |
| `Slots.SlotsEnumerateOddResidues` | crates/phantom-schemes/src/bgv/encoder.rs:173-185 | every odd residue modulo 2N is the exponent of exactly one slot |
| `Slots.FiveOrder` | crates/phantom-schemes/src/bgv/encoder.rs:173-185 | no power of 5 below 2^k is 1 modulo 2^(k+2) |
| `Slots.SlotPosition` | crates/phantom-schemes/src/bgv/encoder.rs:192-194 | a slot's position is inside the buffer and is where the transform puts its exponent |
| `Batching.EncodeBatched` | crates/phantom-schemes/src/bgv/encoder.rs:115-139 | a plaintext in [0, t) whose slots hold the values, zero-padded; for a prime t below 99 990 000 accepted exactly when t = 1 modulo 2N and the values fit |
| `Batching.BatchableIff` | crates/phantom-schemes/src/bgv/encoder.rs:115-137 | a prime plaintext modulus supports batching exactly when it is 1 modulo 2N and the root search has a candidate |
| `Batching.DecodeBatched` | crates/phantom-schemes/src/bgv/encoder.rs:143-167 | every slot's value modulo t of component 0 read as signed |
| `Batching.BatchRoundTrip` | crates/phantom-schemes/src/bgv/encoder.rs:115-167 | decoding gives back every encoded list if and only if t - 1 <= q_0 / 2 |
| `SchemeRun.BatchRun` | crates/phantom-schemes/src/bgv/encoder.rs:115-167 | encoding and decoding slots gives back the values modulo t, zero-padded |
| `Batching.SignedDecodingExact` | crates/phantom-schemes/src/bgv/encoder.rs:196-207 | reading back a residue works for every value of [0, t) if and only if t - 1 <= q_0 / 2 |
| `Batching.DecodeSignedResidue` | crates/phantom-schemes/src/bgv/encoder.rs:196-207 | the centered representative modulo t |
| `Batching.DecodedValue` | crates/phantom-schemes/src/bgv/encoder.rs:143-167 | a plaintext within q_0/2 decodes to its own slot values modulo t |
| `Slots.SlotwiseProduct` | crates/phantom-schemes/src/bgv/encoder.rs:115-167 | multiplying plaintexts multiplies every slot |
| `Slots.RotationMovesSlots` | crates/phantom-schemes/src/bgv/params.rs:64-73 | X -> X^(5^s) rotates both rows left by s |
| `Slots.RowSwapMovesSlots` | crates/phantom-schemes/src/bgv/params.rs:79-81 | X -> X^(2N-1) swaps the rows |
| `Batching.RowSwapSlots` | crates/phantom-schemes/src/bgv/params.rs:79-81 | the automorphism of the row-swap element swaps the rows |
| `Batching.RotatedSlots` | crates/phantom-schemes/src/bgv/params.rs:64-75 | the automorphism of the rotation element for a shift moves both rows left by that shift |
| `Batching.EncodeU64` | crates/phantom-schemes/src/bgv/encoder.rs:77-92 | the values modulo t as coefficients, zero-padded; too many are refused |
| `Batching.DecodeU64` | crates/phantom-schemes/src/bgv/encoder.rs:95-108 | component 0 read as signed, modulo t |
| `SchemeRun.CoefficientRun` | crates/phantom-schemes/src/bgv/encoder.rs:77-110 | encoding and decoding coefficients gives back the values modulo t, zero-padded |
| `BgvModulusSwitch.SwitchNextReal` | crates/phantom-schemes/src/bgv/modulus_switch.rs:55-66 | every component switched to the smaller basis; the refusals |
| `BgvModulusSwitch.NextParams` | crates/phantom-schemes/src/bgv/modulus_switch.rs:70-76 | the same parameters without the last modulus; a single modulus is refused |
| `BgvModulusSwitch.SwitchSecretKey` | crates/phantom-schemes/src/bgv/modulus_switch.rs:82-84 | the same secret over the smaller basis |
| `BgvModulusSwitch.ModulusSwitchCorrect` | crates/phantom-schemes/src/bgv/modulus_switch.rs:55-84 | for q_L = 1 modulo t the decrypted value v becomes v' = v modulo t with q_L |v'| < |v| + q_L t (N + 1) |
| `SchemeRun.ModulusSwitchRun` | crates/phantom-schemes/src/bgv/modulus_switch.rs:55-85 | parameters, key and ciphertext switched, then decrypted: the old value modulo t, with the explicit size bound |
| `BgvModulusSwitch.SwitchKeepsIff` | crates/phantom-schemes/src/bgv/modulus_switch.rs:55-84 | switching keeps every message if and only if q_L = 1 modulo t |
| `Bfv.ScaleByDelta` | crates/phantom-schemes/src/bfv/encryptor.rs:146-158 | the plaintext times floor(Q/t) in every component |
| `Bfv.EncryptSecretReal` | crates/phantom-schemes/src/bfv/encryptor.rs:102-116 | (Delta m + e - a s, a) |
| `Bfv.EncryptPublicReal` | crates/phantom-schemes/src/bfv/encryptor.rs:117-133 | (Delta m + b u + e0, a u + e1) |
| `Bfv.RealEncryptionPhase` | crates/phantom-schemes/src/bfv/encryptor.rs:102-116 | a fresh ciphertext decrypts to exactly Delta m + e |
| `Bfv.BfvDecodes` | crates/phantom-schemes/src/bfv/encryptor.rs:96-136 | decoding Delta m + e modulo Q returns m, coefficient by coefficient, while 2 (t |e| + (Q mod t) m) < Q |
| `SchemeRun.BfvRun` | crates/phantom-schemes/src/bfv/encryptor.rs:96-136 | encryption, decryption and decoding give back the message |
| `Bfv.AddPlainReal` | crates/phantom-schemes/src/bfv/evaluator.rs:60-79 | Delta m2 added to the first component, the others kept; the refusals |
| `Bfv.AddPlainPhase` | crates/phantom-schemes/src/bfv/evaluator.rs:60-79 | adding a plaintext adds Delta m2 to the decrypted value |
| `Bfv.MulReal` | crates/phantom-schemes/src/bfv/evaluator.rs:111-150 | the three tensor components of the [0, Q) representatives, rescaled by t/Q and rounded; misfitting components and an empty P are refused |
| `Bfv.TensorIsExact` | crates/phantom-schemes/src/bfv/evaluator.rs:111-150 | for P >= 4 N Q these are round(t D / Q) of the exact integer tensor D |
| `Bfv.ProductPhaseReal` | crates/phantom-schemes/src/bfv/evaluator.rs:111-150 | Q times the product's phase is t times the product of the phases plus the rounding errors at 1, s and s^2 |
| `Bfv.RoundingErrorBound` | crates/phantom-schemes/src/bfv/evaluator.rs:111-150 | for ternary s those rounding errors are at most Q (1 + N + N^2) / 2 |
| `BfvProduct.WrapBound` | crates/phantom-schemes/src/bfv/evaluator.rs:111-150 | the phase of a ciphertext with components in [0, Q) exceeds Delta m + e by at most N + 1 multiples of Q |
| `BfvProduct.ProductNoise` | crates/phantom-schemes/src/bfv/evaluator.rs:111-150 | t times the product's phase is Q M1 M2 plus a noise given exactly, where M_i is m_i plus the wraps times t |
| `BfvProduct.ProductDecodes` | crates/phantom-schemes/src/bfv/evaluator.rs:111-150 | decoding the product returns m1 m2 modulo t while the noise budget, which counts the wraps modulo Q, is below Q^2 |
| `BfvProduct.BudgetIs` | crates/phantom-schemes/src/bfv/evaluator.rs:111-150 | the budget is 4 Q N M E + 2 N E^2 + t Q (1 + N + N^2) for M = t - 1 + t (N + 1), E = t B + (Q mod t)(t - 1) |
| `SchemeRun.BfvProductRun` | crates/phantom-schemes/src/bfv/evaluator.rs:111-150 | product, decryption and decoding give m1 m2 modulo t |
| `Shares.NewSession` | crates/phantom-multiparty/src/common/session.rs:89-107 | accepted exactly for a threshold between 1 and the number of participants |
| `Shares.SessionState.AdvanceRound` | crates/phantom-multiparty/src/common/session.rs:135-137 | the next round, saturating, nothing else changed |
| `Shares.NewShare` | crates/phantom-multiparty/src/common/shares.rs:68-87 | a share bound to the session, which passes its checks; strangers are refused |
| `Shares.Share.CheckForSession` | crates/phantom-multiparty/src/common/shares.rs:140-151 | passes exactly for the right session, protocol, round, kind and a participant of the session |
| `Shares.ShareAggregator.AddShare` | crates/phantom-multiparty/src/common/shares.rs:173-180 | adds exactly this share in participant order, or reports the first failed check or a duplicate and changes nothing |
| `Shares.ShareAggregator.AllShares` | crates/phantom-multiparty/src/common/shares.rs:215-220 | all collected shares exactly when there are at least threshold of them |
| `Shares.ShareAggregator.Aggregate` | crates/phantom-multiparty/src/common/shares.rs:199-209 | the first threshold shares only |
| `ThresholdRun.CollectThenAll` | crates/phantom-multiparty/src/common/shares.rs:173-220 | collecting any list of valid shares of distinct participants gives all of them exactly when they reach the threshold |
| `Shares.OrderIndependent` | crates/phantom-multiparty/src/common/shares.rs:173-220 | the same shares added in any order leave the same entries |
| `Hybrid.QpParams` | crates/phantom-multiparty/src/common/hybrid.rs:110-124 | the ring over Q followed by P; an empty P is refused |
| `Hybrid.TernaryShare` | crates/phantom-multiparty/src/common/hybrid.rs:139-141 | for a ternary secret the secret that is read is the secret itself |
| `Hybrid.QpCkgContribution` | crates/phantom-multiparty/src/common/hybrid.rs:129-150 | e_i - a s_i over QP for the ternary secret read from the first component; the refusals |
| `Hybrid.AggregateQpPublicKey` | crates/phantom-multiparty/src/common/hybrid.rs:154-170 | the sum of all contributions beside the common a |
| `Collective.PublicKeyRelation` | crates/phantom-multiparty/src/common/hybrid.rs:129-170 | b + a s = sum e_i for s = sum s_i and any number of parties |
| `Hybrid.GkgRowContributions` | crates/phantom-multiparty/src/common/hybrid.rs:176-226 | row j is (QP/q_j) sigma_k(s_p) + e_j - a_j s_p; an empty P, even elements and non-ternary secrets are refused |
| `Collective.CollectiveGaloisRow` | crates/phantom-multiparty/src/common/hybrid.rs:176-226 | the summed row encrypts g sigma_k(s) under s = sum s_p with error sum e_p, exactly |
| `Hybrid.CollectiveGaloisKey` | crates/phantom-multiparty/src/common/hybrid.rs:176-226 | the summed rows are a key-switching key from sigma_k(s) to s |
| `Hybrid.RkgRound1RowContributions` | crates/phantom-multiparty/src/common/hybrid.rs:230-271 | row j is (b u + e0 + (QP/q_j) s_p, a u + e1); an empty P and non-ternary secrets are refused |
| `Hybrid.RkgRound2RowContributions` | crates/phantom-multiparty/src/common/hybrid.rs:276-313 | row j is (s_p h0 + b v + e2, s_p h1 + a v + e3); an empty P and non-ternary secrets are refused |
| `Collective.RkgIdentity` | crates/phantom-multiparty/src/common/hybrid.rs:230-313 | Key0 + Key1 s = g s^2 + (s U e_pk + s E0 + s^2 E1 + V e_pk + E2 + s E3), exactly |
| `Collective.CollectiveRelinearizationRow` | crates/phantom-multiparty/src/common/hybrid.rs:129-313 | that identity for the sums over any number of parties that contribute to every round |
| `Hybrid.CollectiveRelinearizationKey` | crates/phantom-multiparty/src/common/hybrid.rs:230-313 | the summed rows are a key-switching key from s^2 to s |
| `MpbgvRkg.CreateShareRound1` | crates/phantom-multiparty/src/mpbgv/rkg.rs:111-175 | one row per modulus and level: (b u + t e0 + g s_p, a u + t e1) for the gadget weight g |
| `MpbgvRkg.CreateShareRound2` | crates/phantom-multiparty/src/mpbgv/rkg.rs:198-246 | rows (s_p H0 + b v + t e2, s_p H1 + a v + t e3), bound to the next round |
| `MpbgvRkg.SumRows` | crates/phantom-multiparty/src/mpbgv/rkg.rs:269-298 | row by row the sum over every collected share; too few shares, none, or uneven shares are refused |
| `MpbgvRkg.CollectiveBgvRow` | crates/phantom-multiparty/src/mpbgv/rkg.rs:111-262 | the summed BGV row encrypts g s^2 with noise a multiple of t |
| `CollectiveRun.CollectedRound1` | crates/phantom-multiparty/src/mpbgv/rkg.rs:184-187 | created round-1 shares, collected in any order, are what the summation needs |
| `CollectiveRun.CollectedRound2` | crates/phantom-multiparty/src/mpbgv/rkg.rs:251-262 | created round-2 shares, collected in any order, are what the summation needs |
| `CollectiveRun.CollectiveKeyRun` | crates/phantom-multiparty/src/mpbgv/rkg.rs:111-298 | from the created shares of the same parties in both rounds, arriving in any two orders, the summed rows are residues of a key with Key0 + Key1 s = g s^2 + t noise |
| `ThresholdRun.KeyRun` | crates/phantom-multiparty/src/mpbgv/rkg.rs:111-298 | both rounds collected and summed: the key exists exactly when the threshold is reached, and then Key0 + Key1 s = g s^2 + t noise |
| `CollectiveRun.CollectiveKeyRows` | crates/phantom-multiparty/src/common/hybrid.rs:129-313 | the rows of such a run are a key-switching key from s^2 to s for the collective secret |
| `CollectiveRun.HybridContributionsFit` | crates/phantom-multiparty/src/common/hybrid.rs:230-313 | hybrid contributions are the shares of such a run with unscaled errors |
| `CollectiveRun.CreatedRound1` | crates/phantom-multiparty/src/mpbgv/rkg.rs:111-175 | a share that `CreateShareRound1` returns is a round-1 share of the run |
| `CollectiveRun.CreatedRound2` | crates/phantom-multiparty/src/mpbgv/rkg.rs:198-246 | a share that `CreateShareRound2` returns is a round-2 share of the run |
| `InteractiveBootstrap.CreateShare` | crates/phantom-multiparty/src/mpbgv/interactive_bootstrap.rs:101-165 | (c1 s_i + t e0 - M, t e1 - a s_i + M) with the mask modulo t; the refusals |
| `InteractiveBootstrap.AggregateRefreshed` | crates/phantom-multiparty/src/mpbgv/interactive_bootstrap.rs:172-218 | (u + sum h1, a) for the masked value u read modulo t from component 0; the refusals |
| `InteractiveBootstrap.BootstrapCorrect` | crates/phantom-multiparty/src/mpbgv/interactive_bootstrap.rs:101-218 | for n parties the output decrypts to exactly m + t (E1 + w), 0 <= w <= n; the input's noise is gone |
| `InteractiveBootstrap.BootstrapDecodes` | crates/phantom-multiparty/src/mpbgv/interactive_bootstrap.rs:172-218 | decoding the output returns m while the fresh noise fits |
| `CollectiveRun.CollectedRefresh` | crates/phantom-multiparty/src/mpbgv/interactive_bootstrap.rs:101-218 | created shares, collected in any order, are what the aggregation needs |
| `CollectiveRun.BootstrapRun` | crates/phantom-multiparty/src/mpbgv/interactive_bootstrap.rs:101-218 | from created shares arriving in any order to the decryption of the aggregated ciphertext |
| `ThresholdRun.RefreshRun` | crates/phantom-multiparty/src/mpbgv/interactive_bootstrap.rs:101-218 | collected and aggregated: the refreshed ciphertext exists exactly when the threshold is reached, and then decrypts to m + t (E1 + w) |
| `ScalarField.EmbedCentered` | crates/phantom-multiparty/src/vss/scalar_embed.rs:18-32 | the value modulo L; only the integer without an absolute value is refused |
| `ScalarField.RecoverIff` | crates/phantom-multiparty/src/vss/scalar_embed.rs:64-95 | recovery returns k if and only if |k| is within the bound and k embeds as the scalar |
| `ScalarField.RecoverEmbed` | crates/phantom-multiparty/src/vss/scalar_embed.rs:18-95 | recovery after embedding is the identity within the bound |
| `VssPolynomials.Sample` | crates/phantom-multiparty/src/vss/polynomial.rs:47-79 | constant terms congruent to the secret, everything else as sampled; the refusals |
| `VssPolynomials.Evaluate` | crates/phantom-multiparty/src/vss/polynomial.rs:95-107 | every coordinate and the blinding polynomial at x, by Horner's method, reduced |
| `VssPolynomials.Commit` | crates/phantom-multiparty/src/vss/polynomial.rs:129-148 | one commitment to each degree's vector and blinding; a generator mismatch is refused |
| `VssPolynomials.CommitmentsEvaluate` | crates/phantom-multiparty/src/vss/share.rs:246-255 | the commitments evaluated at x commit to the evaluations at x, exactly |
| `VssShares.CreateShare` | crates/phantom-multiparty/src/vss/polynomial.rs:114-117 | the dealer's polynomial at the recipient's identifier |
| `VssShares.VerifyEquation` | crates/phantom-multiparty/src/vss/share.rs:256-299 | accepts exactly when sum g_j v_j + h rho = sum C_k x^k in the group; each refusal in its order |
| `VssShares.Verify` | crates/phantom-multiparty/src/vss/share.rs:166-181 | the same check, against the share's own dealer only |
| `VssShares.VerifyCombined` | crates/phantom-multiparty/src/vss/share.rs:230-244 | the same check for a combined share |
| `VssShares.HonestShareVerifies` | crates/phantom-multiparty/src/vss/share.rs:166-181 | every honest share satisfies the equation against honest commitments |
| `VssShares.TamperedBlinding` | crates/phantom-multiparty/src/vss/share.rs:256-299 | an honest share with its blinding changed modulo L is refused |
| `VssShares.TamperedValue` | crates/phantom-multiparty/src/vss/share.rs:256-299 | an honest share with one coordinate changed modulo L is refused |
| `VssShares.CombineCommitments` | crates/phantom-multiparty/src/vss/share.rs:88-110 | the degree-wise sum of all dealers' commitments; no set is refused, and the first set that does not fit decides which error is returned |
| `VssShares.CombinedShareVerifies` | crates/phantom-multiparty/src/vss/share.rs:230-244 | sums of verified shares satisfy the equation against the combined commitments, for any set of dealers |
| `VssShares.ShareAccumulator.AddVerifiedShare` | crates/phantom-multiparty/src/vss/share.rs:327-350 | accepts exactly a verified share of a new dealer and adds it; a dealer is marked as seen even when its share fails verification |
| `VssShares.ShareAccumulator.Finalize` | crates/phantom-multiparty/src/vss/share.rs:359-361 | the sums of the accepted shares' values and blindings |
| `VssReconstruct.LagrangeCoefficientAtZero` | crates/phantom-multiparty/src/vss/reconstruct.rs:15-35 | the Lagrange coefficient modulo L, or DuplicateParticipant exactly when another point coincides with this one |
| `Lagrange.Interpolation` | crates/phantom-multiparty/src/vss/reconstruct.rs:54-88 | from at least as many distinct points as coefficients, the weighted values give the constant term |
| `Lagrange.CoefficientsSumToOne` | crates/phantom-multiparty/src/vss/reconstruct.rs:15-35 | the coefficients sum to 1 |
| `VssReconstruct.ReconstructSecret` | crates/phantom-multiparty/src/vss/reconstruct.rs:54-88 | every coordinate's interpolated scalar read back as a small integer; each guard gives its own error |
| `VssReconstruct.ReconstructionCorrect` | crates/phantom-multiparty/src/vss/reconstruct.rs:54-88 | for any dealers and at least t distinct participants a coordinate reconstructs to the dealers' sum when within the bound |
| `VssReconstruct.DistinctIdentifiers` | crates/phantom-multiparty/src/vss/reconstruct.rs:68-75 | distinct word-size identifiers are distinct evaluation points |
| `VssRun.Deal` | crates/phantom-multiparty/src/vss/polynomial.rs:47-148 | a dealer's sampled polynomial, its commitments and its share for every recipient belong together |
| `VssRun.SumOverPermuted` | crates/phantom-multiparty/src/vss/share.rs:327-350 | sums over the dealers do not depend on their order |
| `VssRun.Accumulate` | crates/phantom-multiparty/src/vss/share.rs:307-362 | an accumulator accepts the honest shares of distinct dealers in any order of arrival and finalizes their sums |
| `VssRun.FinalSums` | crates/phantom-multiparty/src/vss/share.rs:327-362 | what it finalizes are the sums of the dealers' polynomials at the participant's identifier, whatever the order |
| `VssRun.FinalShareVerifies` | crates/phantom-multiparty/src/vss/share.rs:230-244 | such a final share satisfies the equation against the commitments of the same dealers combined in any order |
| `VssRun.Run` | crates/phantom-multiparty/src/vss/reconstruct.rs:37-88 | whole runs: with a different order of arrival for every participant and another for the commitments, every combined check passes and any at least t participants reconstruct exactly the sum of the secrets when it is within the bound |

## Findings

Properties that the repository states, or that its callers would expect, and that hold only under a condition. Each has
an input for which it fails and the exact condition under which it holds.

| property | source | fails for | holds exactly when |
|---|---|---|---|
| Every modulus the library accepts has the inverses `inv_mod` computes | crates/phantom-ring/src/reduce/mod.rs:60-62, crates/phantom-ring/src/modulus.rs:13-18 | `Reduce.InvModNeedsPrime`: value 2 modulo 9 | the modulus is prime: `Reduce.InvertsAllIffPrime` |
| `modulus_switch_down` returns the closest number congruent to X | crates/phantom-ring/src/rns/rescale.rs:101-102 | `RnsRescale.SwitchNotNearest`: X = 2, q = 7, t = 3 gives 2, and -1 is closer | 2 ((-X mod q_L) + q_L ((X + floor(-X / q_L)) mod t)) <= q_L t: `RnsRescale.SwitchNearestIff` |
| Modulus switching leaves the decrypted message unchanged | crates/phantom-ring/src/rns/rescale.rs:86-92, crates/phantom-schemes/src/bgv/modulus_switch.rs:6-14 | `BgvModulusSwitch.LosesMinusOne`: c0 = Q - 1, c1 = 0 | q_L = 1 modulo t: `BgvModulusSwitch.SwitchKeepsIff` |
| `decode_batched` inverts `encode_batched` | crates/phantom-schemes/src/bgv/encoder.rs:141-142 | `Batching.LargeModulusLoses`: the constant plaintext t - 1 | t - 1 <= q_0 / 2: `Batching.BatchRoundTrip` |
| `recompose` inverts `decompose`, for shifts within a word | crates/phantom-lattice/src/rgsw/decomposition.rs:145-148 | `Gadget.TopPartLost`: a residue q_c - 1 with q_c above B^levels | every modulus is at most B^levels: `Gadget.RecomposeDecompose` |
| Every accepted pair of base and levels cuts words into base-B digits | crates/phantom-lattice/src/rgsw/decomposition.rs:54-62, crates/phantom-lattice/src/rgsw/decomposition.rs:112-115 | `Gadget.WideShiftAccepted`: base_log 62 with 3 levels, where digit 2 of 2^60 comes out as 1 | (levels - 1) base_log < 64: `Gadget.TrueDigitsIff` |

One more behaviour follows the code rather than a reader's expectation: a share that fails verification still marks its
dealer as seen, so that dealer's correct share is refused afterwards (`VssShares.ShareAccumulator.AddVerifiedShare`,
crates/phantom-multiparty/src/vss/share.rs:341-344).

## Left out

- Everything in floating point or complex numbers: CKKS slots and scheme, evaluation-mod bootstrapping, noise budgets in bits.
- Random sampling, hashing, the derivation of common elements and generators, and the group's own arithmetic: inputs of the model.
- Wire formats, share encodings, transcripts, session identifiers, the replay guard and parameter builders. A share's payload is the decoded rows.
- Shares.NewShare: the payload is a value and not bytes, so the refusal of an empty byte string is not modelled; no encoding of rows is empty.
- Zeroing of secrets on drop, reuse of scratch buffers, and the transparent (identity) modes of the schemes.
- Hiding, smudging sizes and security tables: not correctness properties.
- Rings.Ring.ApplyAutomorphism: requires reduced coefficients, as every ring operation returns them; the index product i k is over unbounded integers; machine overflow of `usize` for very large elements is not modelled.
- Rings.Ring.AddAssign: in-place polynomial operations act on a field of type `seq`; a whole polynomial elsewhere is a value, so aliasing between polynomials is not modelled.
- Rgsw.ExternalProductNoise: the noise bounds are over unbounded integers, where the code computes them in 64-bit words.
- Gadget.Decompose: a shift of a word by its width or more takes the remainder of the amount, as builds without overflow checks do; builds with them stop instead.
- KeySwitch.Switch: requires that the key's ring starts with the moduli of Q and has the same degree, which the code does not check.
- Evaluator.Relinearize: the same requirement on the key.
- Evaluator.ApplyGaloisAutomorphism: the same requirement on the key.
- InteractiveBootstrap.CreateShare: the plaintext mask has one value per coefficient; the sampler that guarantees it is not part of this model.
- Packing, rotation by coefficients, slot sums and the linear evaluator wrappers: they only add easy members.
- `mul_noise_bound` of the BFV noise module: it omits the wrap-around terms of the ciphertext, so no claim is made about it; `BfvProduct.ProductBudget` includes them.
