# Anonymous revocation: a verified model

A Dafny model of the revocation mechanisms benchmarked by this repository, with proofs of what
they are for. `dafny verify dfyconfig.toml` checks everything.

**The CL-RSA-B accumulator** (`accumulators/cl-rsa-b`, `accumulators/common`). The issuer holds a
value modulo n = p * q and removes an element by taking a root of the value with the trapdoor
phi = (p-1) * (q-1). Each holder carries a witness, a root of the value for its own element, and
repairs it after a removal with the extended Euclidean algorithm.

- `Arithmetic`, `Modular`, `Fermat`, `Rsa`, `Roots`: gcd and Bezout, the three `BigNumber`
  operations (`modmul`, `invert`, `modpow` with exponents of either sign) and their laws, Fermat's
  little theorem, Chinese remaindering, trapdoor roots, and the orders that safe primes give. None
  of it is assumed.
- `Updates`: what one update computes, for every key, value, witness and Bezout pair; removal
  sequences; why revocation takes effect and is final.
- `CLRSAB` (`Accumulator.dfy`): the accumulator object and the caller's element list, changed in
  place, with the trait's default loops next to the overrides.
- `Runs`: arbitrary interleavings of issuer operations and holders that consume the published
  updates in order, each at its own pace; who stays live, and that every live holder can catch up.
- `HashToPrime`, `HashedRuns`: the element hash, and why no inversion can fail on its outputs in
  any run.
- `MembershipProof`: challenge, prover, verifier; completeness and its converse, extraction with the
  exact condition on the commitments, response sizes.
- `ChallengeBinding`: which inputs the challenge depends on, and that a proof is good for one nonce.
- `Blinding`: when two outputs of the prover share a commitment or a mask, and what two answers with
  one sample give to the extraction.
- `Presentations`: who passes the proof verifier in a run: live holders, revoked holders, and the
  public value presented as a witness.
- `BenchClRsaB`: the two benchmark scenarios end to end.

**The signed-pairs mechanism** (`src/bench_bbs_bpp.rs`, `src/bench_ecdsa.rs`): `GapProof` is the
range statement over Pedersen differences, `GapLists` the tiling gap lists, the scan and the
24-byte encoding. The fixed identifiers of the benchmark are arbitrary 64-bit values here.

**The benchmark runner** (`src/runner.rs`, `src/types.rs`): `Runner` is the batch scheduler,
`Stats` the two sort-and-round pipelines.

## Assumptions

- The code never compares the two primes and never tests that a sampled residue is a unit. Both
  are standing assumptions where a theorem needs them: `Key.Valid` asks for p != q, and
  `UnitResidue` or `QuadraticResidue` for a unit sample. Issuance and removal need neither unit
  samples nor unit values. Where revocation has to take effect, the value is other than 1: the value
  1 is its own root for every element.
- Random choices (primes, residues, blindings, masks) are parameters, so every statement holds for
  every choice. BLAKE3 and BigNumber's byte encoding are arbitrary functions.
- `modpow` with a negative exponent on a number without an inverse is decided inside the BigNumber
  library, which is not part of this model. The model returns 0 there; no theorem rests on it.
- `extended_gcd` belongs to the BigNumber library too. That an update gives the right witness, and
  that a revoked holder's first update fails, is proved for every Bezout pair. That later updates
  never repair a revoked witness also uses two facts about the pair that the extended Euclidean
  algorithm gives (`ExtendedGcd`, `LibraryPair`): |b| <= x for the second coefficient b, and (1, 0)
  when the element is a proper divisor of what was removed.
- The counter that `hash_to_prime` appends (hash.rs:6) is a `usize`; its eight bytes in `Counter` are
  those of a 64-bit platform.
- `debug_assert!` is off in the release profile, so no operation here requires what only such an
  assertion checks. `expect` and `unwrap` do abort in release and are preconditions; `HashToPrime`
  proves that the inversions among them never fail.

## Where the code and its comments differ

- The comment above the last test of `verify_mem_proof` (zk_positive.rs:313) asks for an absolute
  value. The branch below it picks the non-positive one of s_alpha and -s_alpha, so the comparison
  never rejects. The model follows the code: `VerifyMemProof` is exactly the four equations, and it
  gives the intended answer if and only if they fail or s_alpha is inside the bound; "intended" is
  about this absolute-value test alone. `AcceptedBeyondBound` gives accepted proofs outside it
  for every valid witness, and `HonestResponseBounds` shows that the intended test would also accept
  every honest proof.
- The comment on `verify_mem_proof` (zk_positive.rs:217) says that it checks that an element has been
  accumulated. Its acceptance says less, in two ways that are stated exactly.
  - It does not test that the commitments are coprime to n. The conclusions of `Extraction` hold if
    and only if the one commitment they are about is (`UnitIffCoprime`: gcd 1 with n), which a
    verifier can compute before the equations. `VerifyZeroProof` is the input that shows it:
    commitments 0 are accepted for every value unless their challenge is 0, and `ZeroTranscripts`
    meets every hypothesis of `Extraction` and none of its conclusions.
  - It does not ask for an element other than 1. The value is its own first root, so the item 1 is
    accepted with the public value as witness (`ItemOneIsAccepted`); it is the only item accepted
    with it, up to the challenge 0 (`ValueAsWitness`). For its own element a revoked holder is
    rejected in every run, up to the challenge 0 (`RevokedHolderIsRejected`), because the prover's
    output is accepted if and only if the witness is valid (`AcceptedIffVerifies`,
    `AcceptedIffVerifiesOrZero`).
- `hash_to_k_bits` (zk_positive.rs:21-27) absorbs the encodings one after the other without
  separators. With encodings of one length the challenge binds every number (`EverythingIsBound`);
  without that, two numbers can trade places (`LengthsMatter`). The extra bytes, absorbed last, are
  bound whatever the encoding (`ExtraIsBound`).
- The comment on `bench_reps` (runner.rs:39) speaks of a multiple of the batch size. The code makes
  `bench_reps` timed calls, and it does so exactly when that number rounded up to a multiple of the
  batch size fits 32 bits (`RunCase`, `WrapLosesACall`).
- The overrides of the batch operations publish an update where the trait's defaults return none.
  Both effects are stated.

## Model

| member | source | states |
|---|---|---|
| `Arithmetic.ExtendedGcd` | accumulators/cl-rsa-b/src/accumulator.rs:61 | the loop returns the gcd with Bezout coefficients, the second bounded by the first number; a proper divisor of the second number gets the pair (1, 0) |
| `Modular.UnitIffCoprime` | accumulators/cl-rsa-b/src/accumulator.rs:86 | `invert` succeeds exactly on numbers coprime to the modulus |
| `Modular.PowAdd` | accumulators/cl-rsa-b/src/accumulator.rs:64-68 | exponents add, negative ones included |
| `Modular.PowMul` | accumulators/cl-rsa-b/src/accumulator.rs:64-68 | a power of a power multiplies exponents, negative ones included |
| `Modular.PowProduct` | accumulators/cl-rsa-b/src/zk_positive.rs:107-116 | a power of a product is the product of powers |
| `Fermat.FermatLittle` | accumulators/cl-rsa-b/src/helpers.rs:4-9 | a^(p-1) = 1 modulo a prime, for a not divisible by it |
| `Rsa.ChineseRemainder` | accumulators/cl-rsa-b/src/accumulator.rs:32-34 | residues of n that agree modulo both primes are equal |
| `Rsa.EulerFixesEveryResidue` | accumulators/cl-rsa-b/src/accumulator.rs:32-34 | a^(1 + m*phi) = a for every residue, units or not |
| `Roots.RootIsRoot` | accumulators/cl-rsa-b/src/accumulator.rs:84-90 | trapdoor issuance yields an x-th root of every residue, non-units included |
| `Roots.RootIsUnique` | accumulators/cl-rsa-b/src/positive.rs:5-8 | a residue verifies for x if and only if it is the issued witness |
| `Roots.RootOfRoot` | accumulators/cl-rsa-b/src/subtractive.rs:18-20 | removing x then y takes the root that removing x*y takes |
| `Roots.QuadraticResidueOrder` | accumulators/cl-rsa-b/src/helpers.rs:4-13 | with safe primes the order of a quadratic residue divides p'q' |
| `Roots.NoSmallOrder` | accumulators/cl-rsa-b/src/helpers.rs:4-13 | a power below min(p', q') of a quadratic residue is 1 only for the residue 1 |
| `Updates.UpdateResult` | accumulators/cl-rsa-b/src/accumulator.rs:57-68 | for every Bezout pair the updated witness is the x-th root of the new value raised to gcd(x, xtilde) |
| `Updates.UpdateKeepsWitness` | accumulators/cl-rsa-b/src/accumulator.rs:57-68 | if x and xtilde are coprime the update gives exactly the witness issued afresh for the new value |
| `Updates.RevokedUpdateIsNewValue` | accumulators/cl-rsa-b/src/accumulator.rs:57-68 | if x divides xtilde the release-mode update yields the new value itself |
| `Updates.UpdatedVerifiesIffCoprime` | accumulators/cl-rsa-b/src/accumulator.rs:57-68 | safe primes, quadratic residue other than 1: the updated witness verifies if and only if x and xtilde are coprime |
| `Updates.RemovalInvalidatesOldWitnesses` | accumulators/cl-rsa-b/src/subtractive.rs:18-21 | a removal changes the value, and no witness for any element that verified before still does |
| `Updates.BatchReachesLoopValue` | accumulators/cl-rsa-b/src/subtractive.rs:52-62 | one root of the raw product reaches the value of one root per element, repeated items included |
| `Updates.RemovalsIgnoreOrder` | accumulators/common/src/accumulator/subtractive.rs:24-26 | removals in any order reach one value |
| `Updates.UpdatesConfluent` | accumulators/cl-rsa-b/src/accumulator.rs:57-68 | updating removal by removal, with any Bezout pairs, gives the witness of one update with the product |
| `Updates.PrimeAgainstProduct` | accumulators/cl-rsa-b/src/subtractive.rs:57 | the gcd of a prime and a product of primes is the prime if it is a factor, and 1 if not |
| `Updates.RevokedForever` | accumulators/cl-rsa-b/src/accumulator.rs:57-68 | after an update that removed its element, no sequence of later library updates makes a witness verify again, batches that remove the element once more included |
| `Updates.RevocationInstance` | accumulators/cl-rsa-b/src/accumulator.rs:57-68 | a concrete key, value and pair of elements that meet the hypotheses of the theorem above, with its conclusions |
| `CLRSAB.Without` | accumulators/cl-rsa-b/src/subtractive.rs:21 | `retain` keeps exactly the elements that are not removed |
| `CLRSAB.WithoutKeepsCount` | accumulators/cl-rsa-b/src/subtractive.rs:21 | a kept element stays as often as it was in the list |
| `CLRSAB.WithoutKeepsOrder` | accumulators/cl-rsa-b/src/subtractive.rs:21 | the survivors of a list in two parts are those of the parts, one after the other: order is kept |
| `CLRSAB.WithoutTwice` | accumulators/common/src/accumulator/subtractive.rs:24-26 | filtering item by item leaves the list that filtering at once leaves |
| `CLRSAB.BatchMatchesLoopInAnyOrder` | accumulators/cl-rsa-b/src/subtractive.rs:46-63 | the batch over one order of the items and the loop over any other reach the same value and list |
| `CLRSAB.FoldReducedIsProduct` | accumulators/cl-rsa-b/src/additive.rs:30 | folding with reduction modulo phi gives the reduced full product |
| `CLRSAB.ReducedBatchRoot` | accumulators/cl-rsa-b/src/additive.rs:30-34 | the root for the reduced product is a root for the unreduced product |
| `CLRSAB.Accumulator.NewWithElements` | accumulators/cl-rsa-b/src/accumulator.rs:30-40 | for every sampled number: the items are ignored, the accumulator is valid, the trapdoor is phi; the value is the sample times itself modulo n, a quadratic residue and a unit when the sample is a unit |
| `CLRSAB.Accumulator.Update` | accumulators/cl-rsa-b/src/accumulator.rs:42-72 | insertions change nothing; a removal yields u^b * value^a for a Bezout pair of the two elements |
| `CLRSAB.Accumulator.WitnessMem` | accumulators/cl-rsa-b/src/accumulator.rs:74-96 | the issued witness is the trapdoor root and verifies |
| `CLRSAB.Accumulator.VerifyMem` | accumulators/cl-rsa-b/src/positive.rs:5-8 | for an element the trapdoor inverts, accepts exactly the witness that would be issued for the current value |
| `CLRSAB.Accumulator.Insert` | accumulators/cl-rsa-b/src/additive.rs:7-20 | appends the element, leaves the value, returns a witness that verifies |
| `CLRSAB.Accumulator.InsertBatch` | accumulators/cl-rsa-b/src/additive.rs:22-35 | appends exactly the items and leaves the value; the batch product stays in the scratch copy |
| `CLRSAB.Accumulator.DefaultInsertBatch` | accumulators/common/src/accumulator/additive.rs:11-21 | same list and value as the override, no update |
| `CLRSAB.Accumulator.Remove` | accumulators/cl-rsa-b/src/subtractive.rs:7-24 | the new value is the root of the old one and raised to the item is the old one; the list loses exactly the item |
| `CLRSAB.Accumulator.UpdateAfterRemove` | accumulators/cl-rsa-b/src/subtractive.rs:26-44 | same as removal, publishing the removed item |
| `CLRSAB.Accumulator.RemoveBatch` | accumulators/cl-rsa-b/src/subtractive.rs:46-63 | value and list of the one-by-one loop; publishes the raw product, which never enters the caller's list |
| `CLRSAB.Accumulator.UpdateAfterRemoveBatch` | accumulators/cl-rsa-b/src/subtractive.rs:65-78 | value and list of the one-by-one loop; publishes the raw product, which never enters the caller's list |
| `CLRSAB.Accumulator.DefaultRemoveBatch` | accumulators/common/src/accumulator/subtractive.rs:18-28 | the loop reaches the value and the list that the override is stated with |
| `CLRSAB.Accumulator.DefaultUpdateAfterRemoveBatch` | accumulators/common/src/accumulator/subtractive.rs:30-40 | the loop reaches the value and the list that the override is stated with |
| `Runs.StepKeepsInv` | accumulators/cl-rsa-b/src/subtractive.rs:7-78 | every event keeps the log consistent and every live holder's witness valid for the value it has caught up with |
| `Runs.RunSafety` | accumulators/cl-rsa-b/src/accumulator.rs:42-96 | in every state of every run each holder with a witness issued and not removed since is live, its witness is the one issued afresh, and verifies against the current value once caught up |
| `Runs.StepHolders` | accumulators/cl-rsa-b/src/subtractive.rs:7-78 | every event keeps every holder that it neither issues for nor removes; an update moves its own holder by exactly one published entry and changes nothing else |
| `Runs.LiveIffIssued` | accumulators/cl-rsa-b/src/subtractive.rs:7-78 | in every state of every run a holder is live if and only if it was issued a witness and not removed since |
| `Runs.CatchesUp` | accumulators/cl-rsa-b/src/accumulator.rs:42-72 | from every state of every run a live holder catches up by its own updates alone, one per missed entry, and then verifies |
| `Runs.CatchUpInOneUpdate` | accumulators/cl-rsa-b/src/subtractive.rs:57-62 | in every state of every run a lagging live holder catches up in one update with the product of what it missed |
| `Runs.RevocationInRuns` | accumulators/cl-rsa-b/src/subtractive.rs:7-78 | in every state of every run a revoked holder that applies everything published still does not verify, later batches with its element included |
| `Runs.Perform` | accumulators/cl-rsa-b/src/subtractive.rs:7-78 | the accumulator's methods, `update_after_remove` and its batch form included, carry out the issuer events of the runs: same value, list, published update and issued witness |
| `Runs.PerformApply` | accumulators/cl-rsa-b/src/accumulator.rs:42-72 | the accumulator's `update` carries out the holder event of the runs |
| `HashToPrime.MarkedRange` | accumulators/cl-rsa-b/src/hash.rs:11-14 | a digest with the two bits set is an odd number strictly between 2^192 and 2^256 |
| `HashToPrime.HashToPrime` | accumulators/cl-rsa-b/src/hash.rs:4-21 | the loop returns the first prime candidate for its input, inside the range |
| `HashToPrime.AttemptChain` | accumulators/cl-rsa-b/src/hash.rs:5-19 | the first attempt is the input, a later one the 32 marked digest bytes of the attempt before, each followed by eight bytes that decode to the counter |
| `HashToPrime.FirstAttemptIsInjective` | accumulators/cl-rsa-b/src/hash.rs:5-7 | two inputs have one first attempt if and only if they are equal |
| `HashToPrime.InputsAreKeptApart` | accumulators/cl-rsa-b/src/hash.rs:5-14 | for two different inputs some hash gives different first candidates |
| `HashToPrime.CandidateBytes` | accumulators/cl-rsa-b/src/hash.rs:11-14 | a candidate is the hash of its attempt, byte by byte, but for the two low bits that are set |
| `HashToPrime.HashIsDetermined` | accumulators/cl-rsa-b/src/hash.rs:10-20 | one input has one prime |
| `HashToPrime.HashedPrimeInverts` | accumulators/cl-rsa-b/src/lib.rs:14-15 | with 1536-bit safe primes every prime of that range is below p' and q' and invertible modulo phi |
| `HashToPrime.InversionsNeverFail` | accumulators/cl-rsa-b/src/subtractive.rs:18 | inversion succeeds for every hashed element, every raw product and every reduced product |
| `HashedRuns.RunContinues` | accumulators/cl-rsa-b/src/subtractive.rs:16-18 | any run goes on with any applicable event over hashed elements, and all its inversions succeed |
| `HashedRuns.HashedRun` | accumulators/cl-rsa-b/src/additive.rs:14-34 | every sequence of insertions and removals of hashed elements is a run in which no inversion fails |
| `Runs.HolderCanApply` | accumulators/cl-rsa-b/src/accumulator.rs:57-61 | a lagging holder can always take its next step |
| `MembershipProof.HashToKBits` | accumulators/cl-rsa-b/src/zk_positive.rs:13-34 | the absorbing loop computes the challenge function, below 2^256 |
| `ChallengeBinding.ProofChallengeBytes` | accumulators/cl-rsa-b/src/zk_positive.rs:13-34 | the challenge is 32 output bytes, big-endian, for g, h, c_e, c_u, c_r, the four masks and the extra bytes in this order |
| `ChallengeBinding.SameChallengesIffAbsorbed` | accumulators/cl-rsa-b/src/zk_positive.rs:21-33 | two inputs have one challenge under every extendable-output function if and only if the absorbed bytes are equal |
| `ChallengeBinding.ExtraIsBound` | accumulators/cl-rsa-b/src/zk_positive.rs:27 | other extra bytes give other challenges, whatever the encoding of numbers |
| `ChallengeBinding.EverythingIsBound` | accumulators/cl-rsa-b/src/zk_positive.rs:21-27 | with encodings of one length, equal challenges under every extendable-output function mean equal parameters, numbers and extra bytes |
| `ChallengeBinding.BigEndianIsFixedCode` | accumulators/cl-rsa-b/src/zk_positive.rs:21-25 | big-endian bytes of one length meet the hypothesis of the theorem above |
| `ChallengeBinding.LengthsMatter` | accumulators/cl-rsa-b/src/zk_positive.rs:21-25 | an injective encoding of varying length under which two numbers trade places without changing any challenge |
| `ChallengeBinding.OneChallengePerProof` | accumulators/cl-rsa-b/src/zk_positive.rs:301-306 | a proof whose c_u is coprime to n satisfies the equations for one challenge only |
| `ChallengeBinding.AcceptedForOneNonce` | accumulators/cl-rsa-b/src/zk_positive.rs:218-326 | a proof accepted with one nonce is accepted with another if and only if its challenge is the same, for c_u coprime to n |
| `MembershipProof.ParamsAreUnits` | accumulators/cl-rsa-b/src/zk_positive.rs:71-78 | both parameters are quadratic residues and units; g is the sample times itself modulo n, h a power of g |
| `MembershipProof.VerifyMemProof` | accumulators/cl-rsa-b/src/zk_positive.rs:218-326 | accepts exactly when the four equations hold for the recomputed challenge; that is the intended answer if and only if the equations fail or the absolute value of s_alpha is below the bound |
| `MembershipProof.AcceptedBeyondBound` | accumulators/cl-rsa-b/src/zk_positive.rs:313-323 | for every valid witness, proofs made with an alpha mask far outside its range are accepted although s_alpha is not inside the intended bound |
| `MembershipProof.Completeness` | accumulators/cl-rsa-b/src/zk_positive.rs:102-215 | every honest proof satisfies the equations for the challenge the verifier recomputes, for all samples, masks and extra bytes |
| `Blinding.SameCommitments` | accumulators/cl-rsa-b/src/zk_positive.rs:107-156 | two presentations share a commitment or mask if and only if the differences of what went into it cancel; with one witness c_u is the same exactly when h to the difference of the blindings is 1 |
| `Blinding.SameMasks` | accumulators/cl-rsa-b/src/zk_positive.rs:157-163 | the same for the two masks that are powers of commitments |
| `Blinding.HonestTranscripts` | accumulators/cl-rsa-b/src/zk_positive.rs:107-187 | two honest answers with one sample meet the hypotheses of the extraction, with the item and the blindings as quotients, and unblinding c_u gives the witness |
| `MembershipProof.AcceptedIffPowersAgree` | accumulators/cl-rsa-b/src/zk_positive.rs:301-306 | the prover's output for any item and unit is accepted if and only if the value and the unit to the item have equal powers to the challenge |
| `MembershipProof.AcceptedIffVerifies` | accumulators/cl-rsa-b/src/zk_positive.rs:218-326 | converse of completeness: for a challenge coprime to phi the prover's output is accepted if and only if the witness is valid |
| `MembershipProof.AcceptedIffVerifiesOrZero` | accumulators/cl-rsa-b/src/zk_positive.rs:218-326 | safe primes above the challenge range, quadratic residues: the prover's output is accepted if and only if the witness is valid or the challenge is 0 |
| `MembershipProof.DividedEquations` | accumulators/cl-rsa-b/src/zk_positive.rs:291-311 | two accepting transcripts with the same commitments give the four divided equations, each under the condition that its own commitment is coprime to n |
| `MembershipProof.Openings` | accumulators/cl-rsa-b/src/zk_positive.rs:291-311 | with no divisibility, the response differences times the inverse of the challenge difference open c_r and c_e if and only if these are coprime to n, and express the value over c_u if and only if c_u is, for a positive alpha difference |
| `MembershipProof.OpensIffUnit` | accumulators/cl-rsa-b/src/zk_positive.rs:291-300 | a commitment of two accepting transcripts has an opening at all if and only if it is coprime to n |
| `MembershipProof.OpeningRelation` | accumulators/cl-rsa-b/src/zk_positive.rs:307-311 | every opening of c_r satisfies one relation between the two bases |
| `MembershipProof.ExtractedRoot` | accumulators/cl-rsa-b/src/zk_positive.rs:301-306 | with the alpha quotient and the beta condition alone, the unblinded c_u is a root of the value if and only if c_u is coprime to n, for a positive quotient |
| `MembershipProof.Extraction` | accumulators/cl-rsa-b/src/zk_positive.rs:291-311 | each commitment opens to the quotients of its own two response differences, with the relation between the bases and the root: each under its own divisibility only, and if and only if its own commitment is coprime to n |
| `MembershipProof.ZeroProofEquations` | accumulators/cl-rsa-b/src/zk_positive.rs:291-311 | with all commitments 0 the equations hold for every modulus, value and base if and only if challenge and s_alpha are positive |
| `MembershipProof.VerifyZeroProof` | accumulators/cl-rsa-b/src/zk_positive.rs:218-326 | a run of the verifier on commitments 0: accepted, inside the intended bound too, if and only if the challenge is not 0 |
| `MembershipProof.ZeroTranscripts` | accumulators/cl-rsa-b/src/zk_positive.rs:291-311 | two such transcripts meet every hypothesis of the extraction for every quotient, yet neither commitment opens and there is no root |
| `MembershipProof.HonestResponseBounds` | accumulators/cl-rsa-b/src/zk_positive.rs:119-185 | the absolute value of s_alpha is under the verifier's limit, and every other response within twice its mask range |
| `MembershipProof.RangeEnds` | accumulators/cl-rsa-b/src/zk_positive.rs:96-138 | the sampling ranges reach exactly from their least to their greatest sample |
| `Presentations.LiveHolderIsAccepted` | accumulators/cl-rsa-b/src/zk_positive.rs:102-326 | in every state of every run a caught-up live holder passes the proof verifier |
| `Presentations.RevokedHolderIsRejected` | accumulators/cl-rsa-b/src/zk_positive.rs:217-326 | in every state of every run a revoked holder that applied everything published passes the proof verifier if and only if its challenge is 0 |
| `Presentations.ItemOneIsAccepted` | accumulators/cl-rsa-b/src/zk_positive.rs:217-326 | the item 1 with the public value as witness is accepted for every in-range sample, inside the intended bound too |
| `Presentations.ValueAsWitness` | accumulators/cl-rsa-b/src/zk_positive.rs:217-326 | with the public value as witness an item up to min(p', q') is accepted if and only if it is 1 or the challenge is 0 |
| `Presentations.RevokedUpdatePresents` | accumulators/cl-rsa-b/src/accumulator.rs:57-68 | the witness a revoked holder's update computes presents the item 1 and, up to the challenge 0, no other |
| `BenchClRsaB.WitnessUpdateCase` | src/bench_cl_rsa_b.rs:26-88 | for every batch size the update-then-verify closure returns true if and only if the holder is not among the revoked |
| `BenchClRsaB.ProofCase` | src/bench_cl_rsa_b.rs:57-117 | the prove-then-verify closure always returns true |
| `GapProof.RangeStatementEncodesGap` | src/bench_bbs_bpp.rs:170-282 | the rebuilt differences open to handle-lower-1 and upper-handle-1, and both are in range if and only if the handle is strictly between and near both bounds |
| `GapProof.StatementIffCommitted` | src/bench_bbs_bpp.rs:166-200 | for a credential the composite statement is true of the prover's three commitments and of no others |
| `GapProof.CommitmentHides` | src/bench_bbs_bpp.rs:173-175 | every value opens every commitment under exactly one blinding, when h has an inverse |
| `GapProof.CommitmentBinds` | src/bench_bbs_bpp.rs:173-175 | one blinding opens a commitment to one scalar only, when g has an inverse |
| `GapProof.WitnessOpensIffOrdered` | src/bench_bbs_bpp.rs:274-279 | the wrapping 64-bit witness is the opened scalar if and only if the identifiers are strictly ordered |
| `GapLists.FindInTiles` | src/bench_bbs_bpp.rs:494 | on a tiling list the scan succeeds exactly on covered identifiers and returns the only gap that contains them |
| `GapLists.BuildHolderUpdateGaps` | src/bench_bbs_bpp.rs:455-467 | exactly n tiling gaps of two identifiers, three in gap n/2; the identifier is strictly inside that gap, which the scan finds |
| `GapLists.BuildEcdsaGaps` | src/bench_ecdsa.rs:45-62 | exactly n tiling gaps of ten identifiers; the identifier is strictly inside gap n/2, which the scan finds |
| `GapLists.EncodeGap` | src/bench_ecdsa.rs:31-37 | the buffer holds the three numbers, eight big-endian bytes each |
| `GapLists.EncodingRoundTrip` | src/bench_ecdsa.rs:31-37 | decoding inverts encoding for all 64-bit triples |
| `GapLists.EncodingOrder` | src/bench_ecdsa.rs:31-37 | byte order of encodings is lexicographic order of triples; the encoding is injective |
| `Stats.R2IsNearest` | src/types.rs:74 | rounding gives a whole number of hundredths, the nearest one, ties away from zero |
| `Stats.PercentileIndexIsNearest` | src/types.rs:69-72 | the index is the nearest rank to p percent of the last index, ties upward |
| `Stats.RoundThenSort` | src/runner.rs:176-180 | rounding then sorting equals sorting then rounding |
| `Stats.StatsAreSamples` | src/types.rs:47-74 | the runner's list is the rounded durations in increasing order; every percentile is its entry at the nearest rank, a tie moving up; the mean times the count is within half a hundredth per sample of the sum and lies between the extremes |
| `Stats.PercentileIsNearestRank` | src/types.rs:69-72 | exactly one entry is at the nearest rank to p percent of the last index, and it is the percentile |
| `Stats.DescribedOnce` | src/types.rs:47-66 | that description leaves one list and one value for every order statistic |
| `Stats.StatsIgnoreOrder` | src/types.rs:47-66 | samples and statistics depend only on the multiset of durations |
| `Runner.WrapLosesACall` | src/runner.rs:158 | a run of the scheduler with 2^32 - 1 repetitions in batches of two makes one call too few |
| `Runner.ResultMeaning` | src/runner.rs:175-200 | all-verified is the conjunction and proof bytes the maximum over the timed calls; list and statistics describe their durations |
| `Runner.BatchSizes` | src/runner.rs:132-166 | number, size and total leave one way to split the calls: full batches and the rest in the last one |
| `Runner.RunCase` | src/runner.rs:127-200 | warm-up plus timed calls; ceil(total/batch) batches that add up to them, all but the last full; all repetitions are made if and only if the rounded-up total fits 32 bits; the result is that of exactly the timed calls |
| `Runner.Run` | src/runner.rs:116-208 | one result per case in order, each from its own calls |

## Left out

- The KB21 benchmark and the server benchmarks: drivers over libraries whose code is not in the repository.
- The inside of BBS signatures, Bulletproofs++, ECDSA and longfellow-zk: only the statements they prove are used.
- Whether `hash_to_prime` ever meets a prime: depends on BLAKE3; its model takes the index of a prime candidate as a ghost argument.
- Primality tests, safe-prime generation and sampling distributions, and any probability, zero-knowledge or hardness claim.
- Non-membership witnesses and witnesses without the trapdoor: unimplemented in the code.
- A missing trapdoor, a missing element for a removal update and a non-invertible element abort the program; here they are preconditions.
- The serialisation of numbers by BigNumber is an arbitrary function; the sizes reported by the benchmarks are not modelled.
- Floating point: durations and statistics are exact reals. The standard deviation is left out, being a square root.
- Timing, sleeping, temperature polling, memory readings, filtering and labelling of cases, tables, CSV and JSON.
- Runs.RevocationInRuns: no later removal publishes exactly the holder's element alone; there the loop returns the pair (0, 1), so each such removal leaves the old witness in place and multiplies 1 plus the defect by x, and a long series of them is not covered. Later batches with the element are.
- Presentations.RevokedHolderIsRejected: the same later removals as `Runs.RevocationInRuns`; it speaks of what `prove_mem` outputs, not of other proofs.
- That accepting responses divide as the integer openings ask: it follows from a hardness assumption only. Without it, `MembershipProof.Openings` gives the openings with exponents modulo phi, of the commitments coprime to n.
