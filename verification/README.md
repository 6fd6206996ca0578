# Verification of a STARK prover and verifier

A Dafny model of the STARK components in `stark-stir-fips-security/crates`: the FRI/STIR low-degree test with its
prover and verifier, the four Merkle tree forms, division by X^m - 1 and the DEEP quotients, the cubic, sextic and
octic extension towers over Goldilocks, multilinear extensions, and the execution traces with their constraints.

The main theorem is completeness of the low-degree test (`FriCompleteness.Completeness`, and
`FriCompleteness.ProveAndVerify` on the methods themselves): for every word of low degree, every schedule of powers
of two, both modes, and with or without coefficient commitment, `deep_fri_verify` accepts what `deep_fri_prove`
sends if and only if d_final is at most the last layer's size. It rests on `FriVerifier.DeepFriVerify`, which
gives the verdict on every proof whatsoever, honest or not, well formed or not, and on `FriQueries.DeepFriProve`,
which relates the prover's output to an honest run.

What acceptance says about any proof, honest or not, is in `FriSoundness`. When the roots a proof sends are those of
trees over some words, whatever those words are, an accepted query finds the protocol's relations on the words
themselves at the positions the seed gives it, or one of its openings and the tree hash two different inputs to one
digest; queries that reach every fibre force the second committed word to be the fold of the first
(`FriSoundness.StirQuerySound`, `ClassicQuerySound`, `EveryFibreSound`, `OodSound`, `CoeffSound`). The positions are
pinned to the oracle's words (`FriPositions`), the seed to everything committed (`FriBinding`, `FriChallenges`), an
accepted opening to the tree's leaf (`MerkleReads`), and a leaf to its values (`FriLeaves`).

The hypotheses of both directions about field, domains, component maps and serialization are met by the sextic tower
over Goldilocks (`GoldilocksSetup.SexticSetupValid`, `GoldilocksTranscript.SexticSound`), which is a field
(`GoldilocksField.GoldilocksSexticIsField`), as is the octic one.

How the parts are modelled:

- Rings and fields are records of operations with their laws as named predicates (`Rings`); every algebraic result
  holds over any such record. `GoldilocksField` proves that 2^64 - 2^32 + 1 is prime, that the integers modulo it are
  a field, and that 7 is neither a square nor a cube there, so both towers are fields; `FrobeniusPower` proves that
  Frobenius is the p-th power on every element of either tower.
- The radix-2 domains and the inverse transform of the polynomial library are contracts: `Domains.ValidDomain`,
  omega_(n/m) = omega_n^m (`FriSetup.DomainsNest`) for sizes up to 2^32, sizes rounded up to a power of two
  (`FriSetup.DomainRounds`), and the inverse transform that undoes evaluation. `GoldilocksSetup` exhibits such domains
  as the powers of 7. Ground-field twiddle factors are their images in the extension field.
- Where the source splits extension values into ground-field components, transforms each and recombines, the methods
  do the same; `ExtTransform.IfftByComponents` proves this equal to the transform over the extension field.
- The hash is an uninterpreted function of a label, numbers and children. Openings are bound by computing two
  different hash inputs with one digest; no collision resistance is assumed. `Hashing.LabelBytesInjective` shows that
  the 32-byte label serialization separates the inputs.
- The transcript is an append-only log and every challenge a function of the log and its tag; the pseudorandom
  word of a query is a function of seed and counter, and the position is what masking and reducing make of it.
- Loops over buffers keep their arrays (`Fft`, `Deep.BatchInverse`, `Mle`), objects keep their fields
  (`MerkleChannel.MerkleTreeChannel`, `Streaming.StreamingMerkleSpine`, `Mle.MLE`, `FriSetup.Transcript`), and each
  method is proved against a function or a relation whose properties are separate lemmas.
- In the verifier a failing `unwrap`, `assert` or index is the third verdict, `Abort`. `FriAcceptance.Outcome` lists
  the checks in the source's order, each with its verdict; `FriAcceptance.OutcomeIs` shows that it accepts exactly what
  the declarative relation `FriAcceptance.Accepts` describes and that a well-shaped proof never stops it. `unwrap` and
  `expect` on values the prover computes itself are preconditions, and an `ok` result where the source returns none
  (`Deep.BatchInverse`, `Deep.ComputeDeepQuotient`).

Where the code and its documentation disagree the code is modelled:

- The comment on `compute_hash_rollup_final_state` equates it with the last state of a trace of the same length; the
  code gives the state one absorption later. The two agree exactly when the last leaf read is s - s^2 for the last
  state s (`Air.FinalStateIff`, and `Air.CompareFinalStates` on the methods); leaves 0, 1 separate them
  (`Air.FinalStateDiffers`).
- The comment in `build_fibonacci_trace` gives two transitions, c0' = c1 and c1' = c0 + c1; only the second is
  constrained. `AirDetermined.FibonacciIff` says exactly which tables satisfy it and `AirDetermined.FibonacciDetermined`
  that they are the builder's exactly when they also meet the first.
- `MLE::fold_last` fixes variable 0 under the file's own bit convention; `Mle.FoldFixesIff` says exactly when `fold`
  fixes the variable it is asked to.
- `StreamingMerkleSpine::finalise` pairs the last node of each odd level with itself; the test compares it with
  padding by copies of the last leaf. The two have one root for every combine function and all leaves exactly when
  the leaf count is a power of two, or odd with (n + 1) / 2 again such a count (`LeafPadding.LeafPaddingIff`).

`dafny verify dfyconfig.toml` verifies the whole project.

## Model

| member | source | states |
|---|---|---|
| FriCompleteness.Completeness | stark-stir-fips-security/crates/deep_ali/src/fri.rs:2133-2707 | Every honest proof for a word of degree below d_final times the product of the factors has the shape the verifier relies on, and is accepted if and only if d_final is at most the last layer's size: STIR and classic mode, with and without coefficient commitment, any schedule, any query counts, any hash and any challenge oracle whose first point is usable |
| FriCompleteness.ProveAndVerify | stark-stir-fips-security/crates/deep_ali/src/fri.rs:1897-2707 | Running the prover and then the verifier on a low-degree word ends in acceptance if d_final fits the last layer, and in rejection, never a panic, if it does not |
| FriVerifier.DeepFriVerify | stark-stir-fips-security/crates/deep_ali/src/fri.rs:2133-2707 | The loops with their early exits end in exactly the verdict of the checks in the order made, on every proof: any claimed size, any list lengths, missing values included; so they accept exactly the proofs the acceptance relation describes, an accepted proof has every query where the oracle's word for its counter puts it, and no proof of the right shape makes them panic |
| FriAcceptance.OutcomeIs | stark-stir-fips-security/crates/deep_ali/src/fri.rs:2133-2707 | The first check in order that does not accept decides: none exactly when the acceptance relation holds, and on a proof of the right shape it is never a panic |
| FriAcceptance.StirVerdictIs | stark-stir-fips-security/crates/deep_ali/src/fri.rs:2373-2515 | The checks of one STIR query, in order, accept exactly when the query is in order, and cannot panic when no opening names more levels than its tree has |
| FriAcceptance.ClassicVerdictIs | stark-stir-fips-security/crates/deep_ali/src/fri.rs:2526-2703 | The checks of one classic query, in order, accept exactly when all lists reach far enough and the query is in order, and cannot panic when besides no opening names more levels than its tree has |
| FriSoundness.StirQuerySound | stark-stir-fips-security/crates/deep_ali/src/fri.rs:2373-2515 | Whatever words the first two roots commit to, an accepted STIR query finds, at its base index, the fold of the first word at the verifier's challenge equal to the second word, or with one layer to the final polynomial, unless one of its openings and the tree hash different inputs to one digest |
| FriSoundness.EveryFibreSound | stark-stir-fips-security/crates/deep_ali/src/fri.rs:2373-2515 | When the accepted queries reach every fibre and none collides, the second committed word is the fold of the first; with a single layer the fold is the codeword of the d_final coefficients sent |
| FriSoundness.ClassicQuerySound | stark-stir-fips-security/crates/deep_ali/src/fri.rs:2526-2703 | Whatever tables the layer roots commit to, an accepted classic query whose openings collide with no tree finds at its positions the committed ground-field word in the first table, the DEEP identity in every table, and each fold value equal to the next table's value or to the final polynomial's, through the coefficient tuple on a committed last layer |
| FriSoundness.OodSound | stark-stir-fips-security/crates/deep_ali/src/fri.rs:2241-2271 | In an accepted STIR proof the polynomial that takes a layer's out-of-domain values on the coset of its point takes at the folding challenge the next layer's first value, or the final polynomial's value at the last point |
| FriSoundness.CoeffSound | stark-stir-fips-security/crates/deep_ali/src/fri.rs:2273-2326 | In an accepted proof with a coefficient commitment the committed tuples fold at the batching challenge to a word of at most d_final coefficients, unless the tuples sent collide with them |
| FriPositions.LandsIff | stark-stir-fips-security/crates/deep_ali/src/fri.rs:1043-1050 | Every word of the oracle has exactly one position congruent modulo n0 to its residue below the next power of two, and it is the one queries are made at |
| FriPositions.LandsOnPower | stark-stir-fips-security/crates/deep_ali/src/fri.rs:1043-1050 | For a power of two n0 it is the position n0 divides the difference of word and position by |
| FriPositions.IndexAtIs | stark-stir-fips-security/crates/deep_ali/src/fri.rs:2534-2547 | In every layer a query sits below the layer's size at the remainder of its first position |
| FriPositions.AcceptedSeated | stark-stir-fips-security/crates/deep_ali/src/fri.rs:2373-2547 | In every accepted proof query number q lies where the oracle's word for counter q under the seed drawn from the proof's own commitments puts it, fibre positions and later layers included |
| FriPositions.HonestSeated | stark-stir-fips-security/crates/deep_ali/src/fri.rs:1733-1756 | So it does in every honest proof |
| FriBinding.StatementBinds | stark-stir-fips-security/crates/deep_ali/src/fri.rs:1104-1128 | When the numbers used are absorbed injectively two statements are absorbed alike if and only if public inputs hash, size, schedule, seed and both flags are equal |
| FriBinding.StartBinds | stark-stir-fips-security/crates/deep_ali/src/fri.rs:2143-2153 | The log the first challenge is drawn from determines the statement and the first root |
| FriBinding.LayersBind | stark-stir-fips-security/crates/deep_ali/src/fri.rs:2164-2196 | The log a folding challenge is drawn from determines the statement and every message before it, for lists of equal lengths |
| FriBinding.SeedBinds | stark-stir-fips-security/crates/deep_ali/src/fri.rs:2143-2230 | The log the query seed is drawn from determines the statement and every commitment, for lists of equal lengths |
| FriBinding.DegreeBinds | stark-stir-fips-security/crates/deep_ali/src/fri.rs:1125 | Statements over extensions of different degrees differ |
| FriBinding.AsciiBinds | stark-stir-fips-security/crates/deep_ali/src/fri.rs:1114-1118 | Two ASCII tags are absorbed alike only when they are equal |
| FriChallenges.ChallengesFresh | stark-stir-fips-security/crates/deep_ali/src/fri.rs:1369-1383 | Every component of the first point, of each folding challenge, of the batching challenge and the query seed has a point of the oracle of its own: another answer there replaces that component and changes no other draw |
| FriChallenges.SubTagInjective | stark-stir-fips-security/crates/deep_ali/src/fri.rs:1369-1383 | Labels of different component numbers differ |
| FriChallenges.DigitsRead | stark-stir-fips-security/crates/deep_ali/src/fri.rs:1376-1378 | The component number in a label is written in decimal: reading the digits gives it back |
| FriChallenges.FirstPointFits | stark-stir-fips-security/crates/deep_ali/src/fri.rs:1440-1442 | The prover's first point is usable, nonzero in STIR mode and off the domain otherwise, whenever some component squeezed for it after the first is nonzero |
| FriLeaves.ClassicLeafBinds | stark-stir-fips-security/crates/deep_ali/src/fri.rs:1353-1358 | A classic leaf determines value, fold value and quotient when elements are serialized injectively to one length |
| FriLeaves.StirLeafBinds | stark-stir-fips-security/crates/deep_ali/src/fri.rs:1361-1363 | A STIR leaf determines its value |
| FriLeaves.CoeffLeafBinds | stark-stir-fips-security/crates/deep_ali/src/fri.rs:865-867 | A coefficient leaf determines its tuple among those of its width |
| FriLeaves.TreesApart | stark-stir-fips-security/crates/deep_ali/src/fri.rs:1067-1078 | No leaf or node input of one tree of a proof is an input of another of its trees |
| FriQueries.RefsArePlaced | stark-stir-fips-security/crates/deep_ali/src/fri.rs:1744-1750 | In every reference the child position is below the factor and differs from the index by a multiple of it, and the parent index is the next layer's index |
| FriSetup.TreeArityIsLargest | stark-stir-fips-security/crates/deep_ali/src/fri.rs:1093-1102 | The arity is the largest power of two up to 128 and up to the request that divides the size, or two |
| FriQueries.DeepFriProve | stark-stir-fips-security/crates/deep_ali/src/fri.rs:1897-2052 | The proof is that of an honest run: each layer folds the one before, each root is the tree's over the layer's leaves, each challenge is read off the log at its place, and every query sits where the oracle's word under the replayed seed puts it |
| FriProver.FriBuildTranscript | stark-stir-fips-security/crates/deep_ali/src/fri.rs:1395-1715 | The builder's layers form an honest run: words, folds, out-of-domain values, roots and the challenges drawn before each layer (for a committed last layer, after the coefficient root) |
| FriQueries.ReplaySeed | stark-stir-fips-security/crates/deep_ali/src/fri.rs:1936-1985 | Replaying the commitments on a fresh transcript reaches the log of the run, so the query seed is the one the verifier derives |
| FriVerifier.ReplayTranscript | stark-stir-fips-security/crates/deep_ali/src/fri.rs:2143-2230 | The verifier's transcript yields the same first point, folding challenges, batching challenge, interpolants and query seed as functions of the proof's commitments, for every commitment list long enough to index; it stops only on a zero first point in STIR mode |
| FriQueries.StirProveProximityQueries | stark-stir-fips-security/crates/deep_ali/src/fri.rs:1810-1890 | Payload number q lands at the oracle's word for counter q, masked and reduced, names that fibre's positions, carries the word's values at those positions with their packed leaf, and the second layer's value over them |
| FriQueries.ProveClassic | stark-stir-fips-security/crates/deep_ali/src/fri.rs:1721-1805 | Payload number q starts at the oracle's word for counter q, masked and reduced, continues at its remainders by the layer sizes, and carries openings of f0 and of every layer for the values at those positions |
| FriQueries.QueryRefs | stark-stir-fips-security/crates/deep_ali/src/fri.rs:1733-1756 | The chain of positions i, i mod n/m, ... with child position and parent index at every layer |
| FriQueries.ExtEvalsToCoeffs | stark-stir-fips-security/crates/deep_ali/src/fri.rs:873-905 | Splitting into ground-field components, transforming each and recombining gives the inverse transform over the extension field; a single value is its own coefficient |
| FriProver.ComputeQLayer | stark-stir-fips-security/crates/deep_ali/src/fri.rs:254-335 | f(z) by Horner on the inverse transform, and the quotient (f(x) - f(z)) / (x - z) at every domain point |
| FriProver.ComputeSLayer | stark-stir-fips-security/crates/deep_ali/src/fri.rs:772-788 | Every point receives the folded value of its fibre |
| FriProver.StillOff | stark-stir-fips-security/crates/deep_ali/src/fri.rs:254-335 | A point off a domain is off the domain of m-th powers, so one check of z serves every layer |
| FriCompleteness.FoldedPolynomial | stark-stir-fips-security/crates/deep_ali/src/fri.rs:669-770 | The folded word's inverse transform is the fold of the word's inverse transform, zero-padded |
| FriCompleteness.OodFolds | stark-stir-fips-security/crates/deep_ali/src/fri.rs:2241-2271 | Folding the out-of-domain interpolant gives the next word's polynomial at z^m, for every word |
| FriCompleteness.WordDegree | stark-stir-fips-security/crates/deep_ali/src/fri.rs:1474-1560 | The word entering layer ell has at most d_final times the product of the factors still to come coefficients |
| FriCompleteness.TuplesLow | stark-stir-fips-security/crates/deep_ali/src/fri.rs:2273-2326 | The committed tuples fold to a word of at most d_final coefficients whatever the batching challenge |
| FriCompleteness.TupleEntry | stark-stir-fips-security/crates/deep_ali/src/fri.rs:2642-2665 | The coefficient tuple over position i mod q, evaluated at the i-th domain point, is the word's i-th entry |
| FriCompleteness.FibreFolds | stark-stir-fips-security/crates/deep_ali/src/fri.rs:2439-2453 | The fibre opened in a STIR query interpolates and folds to the next word's entry over it |
| FriCompleteness.QuotientTimes | stark-stir-fips-security/crates/deep_ali/src/fri.rs:2625-2640 | The sent quotient times x - z is f(x) - f(z) whenever x is not z |
| FriVerifier.CheckStirQuery | stark-stir-fips-security/crates/deep_ali/src/fri.rs:2373-2515 | One STIR query ends as its checks say in order: rejected at the first of position, indices, packed opening, second-layer opening and fold that fails, stopped at an opening with too many levels, accepted exactly when all hold, and then it lies where the oracle's word for its counter puts it |
| FriVerifier.CheckClassicQuery | stark-stir-fips-security/crates/deep_ali/src/fri.rs:2526-2703 | One classic query ends as its checks say in order: positions, ground-field opening, then layer by layer opening, DEEP identity and fold; a missing entry stops it where the code indexes it; accepted exactly when all hold, and then it starts where the oracle's word for its counter puts it |
| FriVerifier.CheckOodFold | stark-stir-fips-security/crates/deep_ali/src/fri.rs:2241-2271 | The fold at the out-of-domain point is compared with the next layer's first value, or with the final polynomial at the last point |
| FriVerifier.CheckTuples | stark-stir-fips-security/crates/deep_ali/src/fri.rs:2300-2325 | Tuples pass exactly when they hash to the committed root and fold to a word of at most d_final coefficients; the root is compared first, and more tuples than a domain can have stop the check |
| FriSetup.BindStatement | stark-stir-fips-security/crates/deep_ali/src/fri.rs:1104-1128 | Appends public inputs, sizes, schedule and mode flags, in that order, and nothing else: what these items determine is stated by `FriBinding.StatementBinds` |
| FriSetup.Transcript.AbsorbExt | stark-stir-fips-security/crates/transcript/src/lib.rs:182-190 | Absorbing an extension element appends its components one by one and nothing else |
| FriSetup.Transcript.Challenge | stark-stir-fips-security/crates/deep_ali/src/fri.rs:1369-1383 | A challenge is a function of the log and the tag; the log is left alone |
| FriSetup.LayerSizesFromSchedule | stark-stir-fips-security/crates/deep_ali/src/fri.rs:1022-1032 | The list of sizes n0, n0/m0, n0/(m0 m1), ... for every n0, and whether each division comes out even |
| FriSetup.GoodScheduleIff | stark-stir-fips-security/crates/deep_ali/src/fri.rs:1022-1032 | A schedule is usable exactly when its factors are powers of two, each at least two, whose product divides the first domain's size |
| FriSetup.OpenLeaf | stark-stir-fips-security/crates/deep_ali/src/fri.rs:1775-1800 | The opening of any leaf of a finalized tree passes the verifier's leaf check |
| FriSetup.LeafChecksBind | stark-stir-fips-security/crates/deep_ali/src/fri.rs:2414-2440 | No two values pass the leaf check at one index under one root without two different hash inputs of equal digest, whatever lengths the paths have |
| FriSetup.TreeConfigCovers | stark-stir-fips-security/crates/deep_ali/src/fri.rs:1093-1102 | The arity picked for a layer with the depth computed for it never runs past its arity list |
| Arith.NextPowerIsLeast | stark-stir-fips-security/crates/deep_ali/src/fri.rs:1043-1050 | next_power_of_two of n is at most every power of two not below n |
| Arith.NextPowerOfTwo | stark-stir-fips-security/crates/deep_ali/src/fri.rs:1043-1050 | The result is a power of two not below n, and below 2n unless it is one |
| Fft.FftInPlace | stark-stir-fips-security/crates/deep_ali/src/fri.rs:416-458 | The array ends as X[k] = sum over j of x[j] root^(jk) for every power-of-two length and every root with root^(n/2) = -1, and as the butterfly network of its old contents for any other multiplier |
| Fft.BitReversePermute | stark-stir-fips-security/crates/deep_ali/src/fri.rs:421-431 | The swap loop leaves at k what was at the bit reversal of k |
| Fft.BitReverseInvolution | stark-stir-fips-security/crates/deep_ali/src/fri.rs:405-412 | Reversing twice gives the index back |
| Fft.RunStage | stark-stir-fips-security/crates/deep_ali/src/fri.rs:437-455 | One in-place stage writes exactly the butterfly of the array before it |
| Fft.StageAdvances | stark-stir-fips-security/crates/deep_ali/src/fri.rs:433-455 | A butterfly stage turns pairs of half-size transforms into one transform |
| Fft.NetworkIsDft | stark-stir-fips-security/crates/deep_ali/src/fri.rs:416-458 | The butterfly network with a proper root is the discrete Fourier transform |
| Polynomials.Orthogonality | stark-stir-fips-security/crates/deep_ali/src/fri.rs:713-751 | The powers of a nontrivial character of a root of unity sum to zero |
| Polynomials.DftInversion | stark-stir-fips-security/crates/deep_ali/src/fri.rs:713-751 | Transforming with the root and then with its inverse multiplies by the length |
| FriLayers.InterpolateCosetExt | stark-stir-fips-security/crates/deep_ali/src/fri.rs:713-751 | The polynomial returned takes the given value at every point of the shifted coset (a zero shift is read as one) |
| FriLayers.InterpolateStirCoset | stark-stir-fips-security/crates/deep_ali/src/fri.rs:467-501 | The polynomial returned takes the given value at every zeta^j z |
| FriLayers.RawRecovers | stark-stir-fips-security/crates/deep_ali/src/fri.rs:467-501 | On a list of exactly m values what the code computes for any list is the interpolant, and takes the given value at every point |
| FriCompleteness.OodInterpolantIs | stark-stir-fips-security/crates/deep_ali/src/fri.rs:2165-2190 | The polynomial the verifier folds is the interpolant of the received values on the coset of the layer's point |
| Folding.InterpolantRecovers | stark-stir-fips-security/crates/deep_ali/src/fri.rs:713-751 | Interpolating a polynomial's values on a coset gives its coefficients back |
| FriLayers.CosetCoefficients | stark-stir-fips-security/crates/deep_ali/src/fri.rs:467-501 | On a coset whose m-th power is y the interpolated coefficients are the polynomial reduced modulo X^m - y |
| Folding.ReducedModuloBinomial | stark-stir-fips-security/crates/deep_ali/src/fri.rs:337-390 | A polynomial is its reduction plus X^m - y times a quotient, at every point |
| FriLayers.FoldOfCodeword | stark-stir-fips-security/crates/deep_ali/src/fri.rs:669-770 | Extracting coset coefficients of a codeword and folding by alpha gives the codeword, over the domain of m-th powers, of the polynomial with coefficients sum over k of alpha^k a[tm+k] |
| Folding.FoldLength | stark-stir-fips-security/crates/deep_ali/src/fri.rs:753-770 | At most D m coefficients fold to at most D |
| FriLayers.OodConsistency | stark-stir-fips-security/crates/deep_ali/src/fri.rs:337-390 | For nonzero z the interpolated out-of-domain coefficients are f reduced modulo X^m - z^m, and combine with powers of alpha to the folded polynomial at z^m |
| FriLayers.EvaluateOodCoset | stark-stir-fips-security/crates/deep_ali/src/fri.rs:337-390 | Values of the word's polynomial on {zeta^j z} and the coefficients interpolating them |
| FriLayers.ExtractAllCosetCoefficients | stark-stir-fips-security/crates/deep_ali/src/fri.rs:669-706 | One coefficient tuple per position of the next layer, that of the fibre above it |
| FriLayers.InterpolationFold | stark-stir-fips-security/crates/deep_ali/src/fri.rs:753-770 | Each tuple evaluated at the challenge |
| FriLayers.BatchedDegreeCheck | stark-stir-fips-security/crates/deep_ali/src/fri.rs:810-857 | Split into components, the check accepts if and only if the tuples folded by beta, padded to the domain, have no coefficient from d_final to their number on; the empty list is accepted |
| Domains.LowDegreeIff | stark-stir-fips-security/crates/deep_ali/src/fri.rs:840-856 | A word comes from at most D coefficients if and only if its inverse transform vanishes from D on |
| Domains.DegreeOkIff | stark-stir-fips-security/crates/deep_ali/src/fri.rs:840-856 | On a word that fills its domain the check's coefficient range means degree below D |
| ExtTransform.IfftByComponents | stark-stir-fips-security/crates/deep_ali/src/fri.rs:885-904 | Coefficient k of the inverse transform over the extension field is recombined from the k-th coefficients of the components' ground-field transforms |
| ExtTransform.IfftOfExt | stark-stir-fips-security/crates/deep_ali/src/fri.rs:885-904 | The loop over components computes the inverse transform over the extension field |
| FriLayers.ExtPow | stark-stir-fips-security/crates/deep_ali/src/fri.rs:144-160 | Square-and-multiply is the power |
| FriLayers.Horner | stark-stir-fips-security/crates/deep_ali/src/fri.rs:907-916 | Horner's loop is evaluation |
| MerkleChannel.MerkleTreeChannel.PushLeaf | stark-stir-fips-security/crates/merkle/src/lib.rs:376-388 | Appends the domain-separated hash of the leaf at its own index and changes no other level |
| MerkleChannel.MerkleTreeChannel.Finalize | stark-stir-fips-security/crates/merkle/src/lib.rs:422-475 | The stored levels become those of the padded mixed-arity tree over the pushed leaves, and its root is returned |
| MerkleChannel.MerkleTreeChannel.Open | stark-stir-fips-security/crates/merkle/src/lib.rs:477-511 | The opening lists, level by level, the other members of the group on the way up, the last node standing in for missing ones |
| MerkleChannel.MerkleTreeChannel.VerifyOpening | stark-stir-fips-security/crates/merkle/src/lib.rs:753-798 | On any opening: rejects at the first level with too few siblings, panics at a level beyond the arity list, and accepts exactly when no level is either and the recomputed top is the root |
| Merkle.OpeningVerdictIs | stark-stir-fips-security/crates/merkle/src/lib.rs:753-798 | The level-by-level verdict accepts exactly the openings whose levels all have arities and whose climb ends at the root, and panics on none whose levels all have arities |
| Merkle.Completeness | stark-stir-fips-security/crates/merkle/src/lib.rs:422-798 | Every opened leaf of a finalized tree verifies against its root, for any leaf count and any mix of arities that covers it, padding included |
| MerkleChannel.MerkleDepth | stark-stir-fips-security/crates/deep_ali/src/fri.rs:949-958 | The number of levels of one arity needed: the arity to that power reaches the leaf count, to one power less it does not |
| MerkleChannel.DepthIsLeast | stark-stir-fips-security/crates/deep_ali/src/fri.rs:949-958 | k levels are enough if and only if the leaf count is at most the arity's k-th power |
| MerkleChannel.DepthCovers | stark-stir-fips-security/crates/deep_ali/src/fri.rs:949-958 | That many equal arities reduce the leaves to one node, so finalize terminates inside its arity list |
| Merkle.Binding | stark-stir-fips-security/crates/merkle/src/lib.rs:753-798 | From two openings with non-empty paths, one index and different leaves that verify against one root, two different hash inputs with equal digest are computed |
| Merkle.LastLevelsDiffer | stark-stir-fips-security/crates/merkle/src/lib.rs:101-110 | Openings of different path lengths end in hash inputs with different levels, so they differ |
| Merkle.ValueBinding | stark-stir-fips-security/crates/merkle/src/lib.rs:805-812 | From two different serialized values opened at one index, with paths of any lengths below 2^32 - 1 and empty ones included, two different hash inputs with equal digest are computed: the two leaf inputs, a leaf input and a node input, or the pair found on the way up |
| Merkle.ByteBinding | stark-stir-fips-security/crates/merkle/src/lib.rs:101-110 | When levels, positions and label fit their fields the colliding inputs are two different byte strings with equal hash |
| Merkle.ValueByteBinding | stark-stir-fips-security/crates/merkle/src/lib.rs:101-110 | The same for values: the colliding inputs are two different byte strings with equal hash, for paths of any lengths below 2^32 - 1 |
| MerkleReads.LeafCheckReads | stark-stir-fips-security/crates/merkle/src/lib.rs:753-812 | A value accepted at an index under a finalized tree's root, with a path of any length, is the tree's value there, so the index is below the leaf count, or the computed pair are different hash inputs with one digest |
| MerkleReads.IndexPastEnd | stark-stir-fips-security/crates/merkle/src/lib.rs:780-785 | An opening of the tree's path length whose index lies past the padded bottom level is accepted only with two different hash inputs of equal digest, computed level by level |
| MerkleReads.NodeInputInjective | stark-stir-fips-security/crates/merkle/src/lib.rs:780-792 | Equal node inputs have equal arity, tree label, level modulo 2^32, position and children of one length |
| MerkleReads.LeafInputInjective | stark-stir-fips-security/crates/merkle/src/lib.rs:805-812 | Leaf inputs are equal if and only if arity, tree label, position and values are |
| MerkleReads.LeafLevelIsLargest | stark-stir-fips-security/crates/merkle/src/lib.rs:112 | Leaves carry the largest 32-bit level, so no node input below that level is a leaf input |
| MerkleReads.ValuesBind | stark-stir-fips-security/crates/merkle/src/lib.rs:422-475 | Two lists of equally many values under one root are equal, or their trees hash different inputs to one digest at a place both have |
| Hashing.LabelByte | stark-stir-fips-security/crates/merkle/src/lib.rs:101-110 | Byte j of each eight-byte field of the label is digit j in base 256 of arity, level, position and tree label, in that order |
| Hashing.LabelBytesInjective | stark-stir-fips-security/crates/merkle/src/lib.rs:101-110 | Distinct labels that fit their fields never serialize to the same prefix, whatever follows |
| MerkleChannel.MerkleTreeChannel.CommitCompact | stark-stir-fips-security/crates/merkle/src/lib.rs:528-684 | For every power-of-two leaf count the root is that of the full tree although the bottom binary levels are not stored |
| MerkleChannel.MerkleTreeChannel.OpenCompact | stark-stir-fips-security/crates/merkle/src/lib.rs:686-747 | The opening equals the full tree's, the bottom levels rebuilt from the leaves |
| MerkleChannel.FoldChunk | stark-stir-fips-security/crates/merkle/src/lib.rs:242-293 | The two-buffer loop leaves the root of the binary subtree over the chunk |
| MerkleChannel.SkipIsLargest | stark-stir-fips-security/crates/merkle/src/lib.rs:528-545 | The number of levels not stored is the largest up to ten that the bottom has binary and the leaf count has doublings |
| MerkleChannel.RebuildChunkLevels | stark-stir-fips-security/crates/merkle/src/lib.rs:295-341 | The rebuilt levels are those of the binary subtree over the chunk that holds the index |
| MerkleCompact.ChunkIsSlice | stark-stir-fips-security/crates/merkle/src/lib.rs:295-341 | The levels of a chunk's subtree are slices of the full tree's levels |
| MerkleCompact.BuildSplits | stark-stir-fips-security/crates/merkle/src/lib.rs:528-684 | The full tree is its bottom binary levels followed by the tree over the level the compact form stores |
| MerkleCompact.CompactPathIsFull | stark-stir-fips-security/crates/merkle/src/lib.rs:686-747 | Bottom siblings found inside the chunk followed by the stored levels' path are the full tree's path |
| Dns.MerkleBuild | stark-stir-fips-security/crates/cairo-bench/src/dns.rs:80-98 | The levels start with the leaves and end with one node; node p of each next one combines nodes 2p and 2p + 1 in that order, the last node of an odd level itself twice |
| Dns.MerklePath | stark-stir-fips-security/crates/cairo-bench/src/dns.rs:104-114 | The recorded siblings, the node itself where it has none |
| Dns.MerkleVerify | stark-stir-fips-security/crates/cairo-bench/src/dns.rs:116-133 | Accepts exactly when the root recomputed from leaf, index and path is the given one |
| Dns.RoundTrip | stark-stir-fips-security/crates/cairo-bench/src/dns.rs:80-133 | For every non-empty leaf list and every index the recorded path recomputes the root |
| Dns.ProveInclusion | stark-stir-fips-security/crates/cairo-bench/src/dns.rs:138-155 | Build, record a path, verify: always accepted |
| Dns.Binding | stark-stir-fips-security/crates/cairo-bench/src/dns.rs:116-133 | Two different leaves with equal index, equal non-zero path length and one recomputed root exhibit a collision of the combine function |
| Dns.InnerNodeAccepted | stark-stir-fips-security/crates/cairo-bench/src/dns.rs:104-133 | In every tree with more than one leaf the node over any leaf is accepted with the rest of the leaf's path |
| Dns.BindingIff | stark-stir-fips-security/crates/cairo-bench/src/dns.rs:116-133 | At any index, for two path lengths, every combine function binds leaves (two accepted ones are equal or exhibit a collision) if and only if the lengths are equal |
| Dns.LengthsMatter | stark-stir-fips-security/crates/cairo-bench/src/dns.rs:116-133 | For any index and any two different path lengths there are two different leaves accepted under one root by a combine function without collisions |
| Streaming.StreamingMerkleSpine.PushLeaf | stark-stir-fips-security/crates/deep_ali/src/streaming.rs:171-197 | The slots stay the binary counter over all leaves pushed so far, with the new leaf appended |
| Streaming.StreamingMerkleSpine.Finalise | stark-stir-fips-security/crates/deep_ali/src/streaming.rs:201-233 | The result is the root of the level-by-level tree over all leaves, none when there are none |
| Streaming.StreamedRoot | stark-stir-fips-security/crates/deep_ali/src/streaming.rs:171-233 | Pushing any list of leaves and finalising gives the batch root |
| Streaming.SlotIsPerfectSubtree | stark-stir-fips-security/crates/deep_ali/src/streaming.rs:171-197 | Slot i is occupied exactly when bit i of the leaf count is set, and holds the root of the perfect subtree over its block of leaves |
| Streaming.ResidentIsPopCount | stark-stir-fips-security/crates/deep_ali/src/streaming.rs:236-242 | Occupied slots number the set bits of the leaf count, at most floor(log2 n) + 1 |
| Streaming.StreamingMerkleSpine.ResidentHashes | stark-stir-fips-security/crates/deep_ali/src/streaming.rs:240-242 | Counts the occupied slots, at most floor(log2 n) + 1 |
| Streaming.DrainIsRoot | stark-stir-fips-security/crates/deep_ali/src/streaming.rs:201-233 | Draining the slots with a running carry gives the root of the nodes they stand for |
| LeafPadding.LeafPaddingIff | stark-stir-fips-security/crates/deep_ali/src/streaming.rs:192-233 | For a given leaf count the result agrees with padding by copies of the last leaf, for every combine function and all leaves, if and only if the count is a power of two or odd with (n + 1) / 2 again such a count |
| LeafPadding.BenignPads | stark-stir-fips-security/crates/deep_ali/src/streaming.rs:280-293 | For such counts the padded tree has the same root, over any node type |
| LeafPadding.BenignIff | stark-stir-fips-security/crates/deep_ali/src/streaming.rs:192-233 | Such counts are those with n - 1 a block of ones followed by zeros in binary |
| Streaming.NotLeafPadding | stark-stir-fips-security/crates/deep_ali/src/streaming.rs:201-233 | At six leaves the result differs from padding with copies of the last leaf |
| Quotient.PolyDivZh | stark-stir-fips-security/crates/deep_ali/src/lib.rs:190-228 | The descending loop fills in the quotient coefficients q[k] = a[k+m] + q[k+m] |
| Quotient.DivisionIdentity | stark-stir-fips-security/crates/deep_ali/src/lib.rs:190-228 | Dividend = (X^m - 1) q + r at every point |
| Quotient.DivisionCoefficients | stark-stir-fips-security/crates/deep_ali/src/lib.rs:190-228 | The same identity coefficient by coefficient, with lengths |a| - m and m |
| Quotient.RemainderCoeff | stark-stir-fips-security/crates/deep_ali/src/lib.rs:190-228 | Remainder coefficient k is the dividend's coefficient k plus the quotient's |
| Quotient.ExactIff | stark-stir-fips-security/crates/deep_ali/src/lib.rs:190-228 | The quotient is exact if and only if the dividend vanishes on all m-th roots of unity, if and only if the remainder is zero |
| Quotient.DeepAliMergeEvals | stark-stir-fips-security/crates/deep_ali/src/lib.rs:449-480 | The result c has at most n - n_trace coefficients; with some remainder of n_trace coefficients (x^n_trace - 1) c + rem + t = a s + e at every domain point; and (x^n_trace - 1) c + t = a s + e holds at every point if and only if t = a s + e holds at every trace row |
| Quotient.QuotientIff | stark-stir-fips-security/crates/deep_ali/src/lib.rs:449-480 | The result is the quotient if and only if the merged constraint vanishes on the trace domain |
| Deep.BatchInverse | stark-stir-fips-security/crates/deep_ali/src/tower_field.rs:91-111 | Succeeds if and only if the product is invertible; then every entry is replaced by its inverse, otherwise nothing changes |
| Deep.ProductInvertible | stark-stir-fips-security/crates/deep_ali/src/tower_field.rs:91-111 | In a field the product is invertible if and only if no entry is zero |
| Deep.PowU64 | stark-stir-fips-security/crates/deep_ali/src/tower_field.rs:74-88 | Square-and-multiply is the power |
| Deep.EvalBasePoly | stark-stir-fips-security/crates/deep_ali/src/tower_field.rs:113-122 | Horner over ground coefficients is evaluation of the embedded polynomial |
| Deep.ComputeDeepQuotient | stark-stir-fips-security/crates/deep_ali/src/deep.rs:5-27 | Succeeds if and only if z is off the domain; then entry i is (f(x_i) - v) / (x_i - z) |
| Deep.ComputeDeepQuotientMulti | stark-stir-fips-security/crates/deep_ali/src/deep.rs:29-53 | Succeeds if and only if z is off the domain; then the multi-column form is the lambda-combination of the single ones, and times x - z the lambda-combination of values minus claims |
| Deep.ClaimIff | stark-stir-fips-security/crates/deep_ali/src/deep.rs:5-27 | Off the domain, for every bound D at least the degree of f and below the domain's size, the quotient vector comes from at most D coefficients if and only if the claimed value is the true one |
| QuadExt.KaratsubaIsSchoolbook | stark-stir-fips-security/crates/deep_ali/src/sextic_ext.rs:199-205 | The three-product multiply is the schoolbook product modulo u^2 - beta |
| QuadExt.QuadRingIsRing | stark-stir-fips-security/crates/deep_ali/src/sextic_ext.rs:293-345 | The pairs form a commutative ring over any commutative base |
| QuadExt.QuadSqIsProduct | stark-stir-fips-security/crates/deep_ali/src/sextic_ext.rs:249-255 | sq equals self-multiply |
| QuadExt.TimesConjugate | stark-stir-fips-security/crates/deep_ali/src/sextic_ext.rs:166-173 | An element times its conjugate is its norm |
| QuadExt.QuadNormMultiplicative | stark-stir-fips-security/crates/deep_ali/src/sextic_ext.rs:171-173 | The norm of a product is the product of the norms |
| QuadExt.QuadInvertSound | stark-stir-fips-security/crates/deep_ali/src/sextic_ext.rs:239-247 | invert returns a value exactly when the norm is invertible, and then it is the inverse |
| QuadExt.QuadFieldIff | stark-stir-fips-security/crates/deep_ali/src/sextic_ext.rs:239-247 | Every nonzero element is inverted if and only if beta is not a square in the base field |
| CubicExt.CubeMulIsApply | stark-stir-fips-security/crates/deep_ali/src/cubic_ext.rs:165-175 | Cubic multiply is polynomial multiplication modulo X^3 - W |
| CubicExt.CubeRingIsRing | stark-stir-fips-security/crates/deep_ali/src/cubic_ext.rs:266-313 | The triples form a commutative ring over any commutative base |
| CubicExt.CubeSqIsProduct | stark-stir-fips-security/crates/deep_ali/src/cubic_ext.rs:216-225 | sq equals self-multiply |
| CubicExt.TimesAdjugate | stark-stir-fips-security/crates/deep_ali/src/cubic_ext.rs:177-214 | An element times its adjugate is its norm |
| CubicNorm.CubeNormMultiplicative | stark-stir-fips-security/crates/deep_ali/src/cubic_ext.rs:177-190 | The norm of a product is the product of the norms, over any commutative base |
| CubicExt.CubeInvertSound | stark-stir-fips-security/crates/deep_ali/src/cubic_ext.rs:204-214 | invert returns a value exactly when the norm is invertible, and then it is the inverse |
| CubicNorm.CubeFieldIff | stark-stir-fips-security/crates/deep_ali/src/cubic_ext.rs:204-214 | Every nonzero element is inverted if and only if W is not a cube in the base field |
| CubicNorm.RootHasNoInverse | stark-stir-fips-security/crates/deep_ali/src/cubic_ext.rs:204-214 | When s is a cube root of W the element alpha - s has no inverse |
| Towers.SexticValid | stark-stir-fips-security/crates/deep_ali/src/sextic_ext.rs:85-95 | The fast nonresidue multiply equals full multiplication by the nonresidue |
| Towers.OcticValid | stark-stir-fips-security/crates/deep_ali/src/octic_ext.rs:77-124 | At each of the three levels the fast nonresidue multiply equals full multiplication |
| Towers.SexticFrobeniusHom | stark-stir-fips-security/crates/deep_ali/src/sextic_ext.rs:257-270 | Frobenius preserves sums, products and one on the cubic and sextic extensions |
| Towers.OcticFrobeniusHom | stark-stir-fips-security/crates/deep_ali/src/octic_ext.rs:37-124 | Frobenius preserves sums, products and one at each of the three levels |
| Towers.FrobeniusOfAlpha | stark-stir-fips-security/crates/deep_ali/src/cubic_ext.rs:227-243 | Frobenius of alpha is alpha to the ground field's order, namely omega alpha |
| Towers.FrobeniusOfGen | stark-stir-fips-security/crates/deep_ali/src/sextic_ext.rs:257-270 | Frobenius of the generator is the generator to the ground field's order |
| Towers.CubicFrobeniusOrder | stark-stir-fips-security/crates/deep_ali/src/cubic_ext.rs:227-243 | Three applications on the cubic extension are the identity |
| Towers.SexticFrobeniusOrder | stark-stir-fips-security/crates/deep_ali/src/sextic_ext.rs:257-270 | Three applications on the sextic extension are conjugation |
| FrobeniusPower.OcticFrobeniusOrder | stark-stir-fips-security/crates/deep_ali/src/octic_ext.rs:37-124 | Four applications on the octic extension are conjugation, eight the identity |
| FrobeniusPower.SexticFrobeniusIsPower | stark-stir-fips-security/crates/deep_ali/src/sextic_ext.rs:257-270 | On a ground level of prime characteristic p Frobenius of every sextic element is its p-th power |
| FrobeniusPower.OcticFrobeniusIsPower | stark-stir-fips-security/crates/deep_ali/src/octic_ext.rs:37-124 | The same for every octic element |
| GoldilocksField.FpIsPrimeGround | stark-stir-fips-security/crates/deep_ali/src/tower_field.rs:156-190 | The integers modulo p meet what these two ask of the ground level |
| PrimeCharacteristic.PowerOfSum | stark-stir-fips-security/crates/deep_ali/src/cubic_ext.rs:227-243 | In characteristic p the p-th power of a sum is the sum of the p-th powers |
| TowerFields.SexticFieldIff | stark-stir-fips-security/crates/deep_ali/src/sextic_ext.rs:239-247 | Over a field the sextic tower inverts every nonzero element if and only if 7 is neither a square nor a cube |
| TowerFields.OcticFieldIff | stark-stir-fips-security/crates/deep_ali/src/octic_ext.rs:37-124 | Over the Goldilocks ground field's laws the octic tower inverts every nonzero element if and only if 7 is not a square |
| SevenPowers.HalfOrderPower | stark-stir-fips-security/crates/deep_ali/src/octic_ext.rs:42-45 | 7^((p-1)/2) = -1 modulo p = 2^64 - 2^32 + 1 |
| SevenPowers.ThirdOrderPower | stark-stir-fips-security/crates/deep_ali/src/cubic_ext.rs:227-243 | 7^((p-1)/3) is a primitive cube root of unity, not one |
| GoldilocksField.GoldilocksIsPrime | stark-stir-fips-security/crates/deep_ali/src/octic_ext.rs:23-24 | 2^64 - 2^32 + 1 is prime |
| GoldilocksField.FpIsField | stark-stir-fips-security/crates/deep_ali/src/tower_field.rs:156-190 | The integers modulo it are a field: the extended Euclidean inverse exists for every nonzero element |
| GoldilocksField.SevenNotSquare | stark-stir-fips-security/crates/deep_ali/src/octic_ext.rs:29-30 | No element squares to 7 |
| GoldilocksField.SevenNotCube | stark-stir-fips-security/crates/deep_ali/src/sextic_ext.rs:62-70 | No element cubes to 7 |
| GoldilocksField.FpIsGround | stark-stir-fips-security/crates/deep_ali/src/tower_field.rs:156-190 | The integers modulo p satisfy every law the towers ask of their ground level |
| GoldilocksField.GoldilocksSexticIsField | stark-stir-fips-security/crates/deep_ali/src/sextic_ext.rs:62-97 | The sextic extension over Goldilocks is a field: invert succeeds on every nonzero element |
| GoldilocksField.GoldilocksOcticIsField | stark-stir-fips-security/crates/deep_ali/src/octic_ext.rs:1-124 | So is the octic one |
| SexticBasis.SexticHasBasis | stark-stir-fips-security/crates/deep_ali/src/sextic_ext.rs:257-291 | Splitting a sextic element into components and recombining is the identity and linear over the ground field |
| GoldilocksSetup.FpDomainValid | stark-stir-fips-security/crates/deep_ali/src/fri.rs:885-890 | The radix-2 domain of any size up to 2^32, generated by 7^((p-1)/n), meets the domain contract |
| GoldilocksSetup.OmegaNests | stark-stir-fips-security/crates/deep_ali/src/fri.rs:2344-2351 | The generator of the domain of size q is the m-th power of that of size m q |
| GoldilocksSetup.SexticSetupValid | stark-stir-fips-security/crates/deep_ali/src/fri.rs:2133-2136 | The sextic tower over Goldilocks with these domains meets every hypothesis prover and verifier make, for any hash and challenge oracles |
| GoldilocksTranscript.NumbersApartIff | stark-stir-fips-security/crates/deep_ali/src/fri.rs:64-66 | Over Goldilocks elements are absorbed injectively, and numbers below a bound exactly when the bound is at most p |
| GoldilocksTranscript.SexticSerializes | stark-stir-fips-security/crates/deep_ali/src/fri.rs:64-66 | Over Goldilocks elements are serialized injectively to eight bytes each, as the leaf theorems ask |
| GoldilocksTranscript.SexticSound | stark-stir-fips-security/crates/deep_ali/src/fri.rs:2133-2136 | With any hash of fixed digest length the sextic tower over Goldilocks meets every hypothesis of the theorems on committed words |
| GoldilocksTranscript.SeedsAlikeIff | stark-stir-fips-security/crates/deep_ali/src/fri.rs:1104-1128 | So two 64-bit seeds make one statement if and only if they agree modulo p |
| Mle.EvalIsSum | stark-stir-fips-security/crates/mle/src/lib.rs:51-73 | The pairwise fold equals the sum over indices of value times the product of r_i or 1 - r_i by bit i |
| Mle.EvalAtBits | stark-stir-fips-security/crates/mle/src/lib.rs:51-73 | On Boolean points evaluation is the table entry |
| Mle.MLE.Eval | stark-stir-fips-security/crates/mle/src/lib.rs:51-73 | The in-place loop computes that evaluation and leaves the table alone |
| Mle.FoldBuffer | stark-stir-fips-security/crates/mle/src/lib.rs:79-95 | Overwriting the buffer it reads, the pairwise loop leaves the pairwise fold of the old contents |
| Mle.FoldStrided | stark-stir-fips-security/crates/mle/src/lib.rs:134-162 | The strided loop leaves the table with variable i fixed, overwriting the buffer it reads |
| Mle.MLE.FoldLast | stark-stir-fips-security/crates/mle/src/lib.rs:79-95 | Combines entries 2j and 2j+1: variable 0 is fixed, whatever the method's name says |
| Mle.MLE.Fix | stark-stir-fips-security/crates/mle/src/lib.rs:101-128 | The half of the table in which the bit has the given value |
| Mle.MLE.Fold | stark-stir-fips-security/crates/mle/src/lib.rs:134-162 | The table with the variable the code folds fixed to the point |
| Mle.FoldVarIsPartial | stark-stir-fips-security/crates/mle/src/lib.rs:134-162 | Evaluating the folded table is evaluating the original with the coordinate inserted |
| Mle.FixIsPartial | stark-stir-fips-security/crates/mle/src/lib.rs:101-128 | Evaluating the fixed table is evaluating the original with the bit inserted |
| Mle.FoldFixesIff | stark-stir-fips-security/crates/mle/src/lib.rs:134-138 | fold(i, r) fixes variable i, for every table and point, if and only if i < n - 1 or there is one variable |
| Mle.FoldLastMisses | stark-stir-fips-security/crates/mle/src/lib.rs:79-95 | With two or more variables fold(n - 1, r) does not fix variable n - 1 |
| Air.BuildFibonacciTrace | stark-stir-fips-security/crates/deep_ali/src/air_workloads.rs:179-198 | The trace meets the one constraint on every row but the last, for every length |
| Air.BuildPoseidonChainTrace | stark-stir-fips-security/crates/deep_ali/src/air_workloads.rs:249-295 | The trace of states and powers meets all constraints on every row but the last, for every length; what they say of the entries is `AirLaws.PoseidonTableIff` and `AirLaws.PoseidonEnds` |
| Air.BuildRegisterMachineTrace | stark-stir-fips-security/crates/deep_ali/src/air_workloads.rs:347-385 | The trace meets all constraints on every row but the last, for every length |
| Air.BuildCairoSimpleTrace | stark-stir-fips-security/crates/deep_ali/src/air_workloads.rs:413-451 | The trace meets all constraints on every row but the last, for every length |
| Air.BuildHashRollupTrace | stark-stir-fips-security/crates/deep_ali/src/air_workloads.rs:486-514 | The trace meets all constraints on every row but the last, for every length and leaf list |
| Air.EvalPoseidonConstraints | stark-stir-fips-security/crates/deep_ali/src/air_workloads.rs:298-328 | The nested loops fill in the sixteen constraint values; each plus what the row predicts is the entry that stands in the table (`AirLaws.PoseidonValues`) |
| Air.RollupDetermined | stark-stir-fips-security/crates/deep_ali/src/air_workloads.rs:506-514 | Any table meeting the rollup constraints from index 0 and state 0 has the builder's index and state columns |
| Air.RollupFinalState | stark-stir-fips-security/crates/deep_ali/src/air_workloads.rs:539-547 | So its last state is the state after n - 1 absorptions |
| AirDetermined.RollupIff | stark-stir-fips-security/crates/deep_ali/src/air_workloads.rs:506-514 | From zero starts the constraints hold exactly of the tables with the builder's counter and the states their leaf column leads to, squared on every row but the last; the leaf column is free |
| AirDetermined.FibonacciIff | stark-stir-fips-security/crates/deep_ali/src/air_workloads.rs:196-198 | The constraint holds exactly of the tables whose second column adds up the first |
| AirDetermined.FibonacciFree | stark-stir-fips-security/crates/deep_ali/src/air_workloads.rs:196-198 | Any first column with any start of the second extends to a satisfying table |
| AirDetermined.FibonacciDetermined | stark-stir-fips-security/crates/deep_ali/src/air_workloads.rs:179-198 | A satisfying table that starts at 1, 1 is the builder's if and only if its first column repeats the second one row later |
| AirDetermined.RegisterIff | stark-stir-fips-security/crates/deep_ali/src/air_workloads.rs:347-385 | Constraints and first row together hold exactly of the builder's table |
| AirDetermined.PoseidonIff | stark-stir-fips-security/crates/deep_ali/src/air_workloads.rs:249-328 | Constraints and first state hold exactly of the tables with the builder's states on every row and its powers on every row but the last, where nothing constrains them |
| AirLaws.PoseidonTableIff | stark-stir-fips-security/crates/deep_ali/src/air_workloads.rs:225-328 | The constraints hold exactly of the tables whose auxiliary columns are second, third and fourth powers of state plus round constant and whose next state has as entry j the sum over m of the seventh powers divided by j + m + 6 |
| AirLaws.MdsIsReciprocal | stark-stir-fips-security/crates/deep_ali/src/air_workloads.rs:235-247 | In a field where i + j + 6 is not zero the matrix entry times it is one |
| AirLaws.RoundConstantIs | stark-stir-fips-security/crates/deep_ali/src/air_workloads.rs:225-233 | The wrapping steps are one reduction modulo 2^64 of (row A + column) B |
| AirLaws.PoseidonValues | stark-stir-fips-security/crates/deep_ali/src/air_workloads.rs:298-328 | Off the trace too: each constraint value plus the predicted sum, square, cube or fourth power is the table's entry |
| AirLaws.PoseidonEnds | stark-stir-fips-security/crates/deep_ali/src/air_workloads.rs:249-295 | The builder starts from 1, 2, 3, 4 and has the powers in its last row as well |
| AirLaws.RegisterTableIff | stark-stir-fips-security/crates/deep_ali/src/air_workloads.rs:347-385 | The constraints hold exactly when register j becomes r_j r_(j+1) + r_(j+2), cyclically, and the last the inner product of the two halves |
| AirLaws.RegisterValue | stark-stir-fips-security/crates/deep_ali/src/air_workloads.rs:373-385 | Off the trace too: each constraint value plus that prediction is the next row's entry |
| AirLaws.FibonacciValue | stark-stir-fips-security/crates/deep_ali/src/air_workloads.rs:196-198 | Off the trace too: the constraint value plus both entries of the row is the next row's second entry |
| AirLaws.CairoValues | stark-stir-fips-security/crates/deep_ali/src/air_workloads.rs:441-451 | Off the trace too: each constraint value plus the counted, kept or multiplied prediction is the entry |
| AirLaws.RollupValues | stark-stir-fips-security/crates/deep_ali/src/air_workloads.rs:506-514 | Off the trace too: each constraint value plus counter step, square or absorption is the entry |
| AirLaws.RegistersStart | stark-stir-fips-security/crates/deep_ali/src/air_workloads.rs:347-351 | The builder starts from 1 to 8 |
| AirLaws.FibonacciNumbers | stark-stir-fips-security/crates/deep_ali/src/air_workloads.rs:179-194 | Row i of the builder holds the Fibonacci numbers i and i + 1 |
| AirLaws.CairoNumbers | stark-stir-fips-security/crates/deep_ali/src/air_workloads.rs:413-439 | Row i of the builder holds i, 100 + i, 100, i + 1, i + 2, their product twice, and zero |
| AirLaws.RollupNumbers | stark-stir-fips-security/crates/deep_ali/src/air_workloads.rs:486-504 | Row i of the builder holds i, the leaf, and the state with its square, all computed over the integers and reduced |
| AirDetermined.CairoIff | stark-stir-fips-security/crates/deep_ali/src/air_workloads.rs:413-451 | The constraints hold exactly of the tables that count up two registers, keep a third, and on every row but the last multiply the operands |
| Air.ComputeHashRollupFinalState | stark-stir-fips-security/crates/deep_ali/src/air_workloads.rs:539-547 | The loop absorbs the first n leaves |
| Air.FinalStateIff | stark-stir-fips-security/crates/deep_ali/src/air_workloads.rs:530-547 | The function at n equals the last state s of the n-row trace if and only if the leaf read at n - 1 is s - s^2 |
| Air.CompareFinalStates | stark-stir-fips-security/crates/deep_ali/src/air_workloads.rs:486-547 | Running both methods they agree if and only if the leaf read at n - 1 is s - s^2; past the end of the leaf list, in a field, if and only if s is 0 or 1 |
| Air.StateIgnoresLater | stark-stir-fips-security/crates/deep_ali/src/air_workloads.rs:539-547 | s depends on the first n - 1 leaves only, so each prefix has exactly one such last leaf |
| Air.FinalStateDiffers | stark-stir-fips-security/crates/deep_ali/src/air_workloads.rs:530-547 | On leaves 0, 1 the two-row trace ends in state zero and the function returns one, against the documentation comment |

## Left out

- Probabilistic soundness of the low-degree test and collision resistance of the hashes: completeness, exact acceptance, what acceptance entails of committed words, and collision extraction are proved instead.
- FriSoundness.StirQuerySound: asks that the first root be that of a tree over some word of the proof's size, a power of two; how many queries catch a word far from every codeword is a counting argument over random seeds and not part of this model.
- FriSoundness.ClassicQuerySound: relates the committed tables entry by entry at the queried positions; it does not say that fold values are the folds of their fibres, which no check of that mode compares.
- FriSoundness.OodSound: asks for as many out-of-domain values as the factor; of longer lists the verifier uses the first entries of a larger network (`FriLayers.InterpolateStirCoset`).
- FriBinding.SeedBinds: asks for lists of equal lengths, because the transcript does not absorb the lengths of the out-of-domain lists and of the final polynomial.
- FriBinding.StatementBinds: asks that the numbers used be absorbed injectively; over Goldilocks that is when they are below p (`GoldilocksTranscript.NumbersApartIff`), and a 64-bit seed from p on is absorbed as its residue (`GoldilocksTranscript.SeedsAlikeIff`).
- Hash functions, ground-field arithmetic in Montgomery form, the random generator and the polynomial library's transforms: parameters or contracts.
- `deep_ali_merge_general`, the blinded merge and the low-degree extension of constraints: not part of this model; the quotient property is stated on `poly_div_zh` and `deep_ali_merge_evals`.
- The branches for parallel execution: each pair of branches is modelled by its sequential loop.
- FriSetup.Transcript.Challenge: does not model the label bytes of the sponge backends, because challenges are arbitrary functions of log and tag.
- FriSetup.Transcript.AbsorbExt: does not model the Poseidon backend, whose challenges change its state.
- FriVerifier.DeepFriVerify: asks for a non-empty schedule of powers of two of at least two, a parameter of the verifier and not part of the proof; panics in the logging or from machine-word overflow are not modelled.
- FriQueries.DeepFriProve: asks for a first challenge that is nonzero (STIR) or off the first domain (classic), because the source divides by zero otherwise (`FriChallenges.FirstPointFits` says when it cannot happen); the trace hash handed to the trees is ignored by them and not modelled.
- FriCompleteness.Completeness: trees are modelled without the Poseidon-accelerated leaf compression, a compile-time alternative.
- Merkle.Binding: says nothing about empty paths, which are accepted whenever leaf equals root (values are bound for them too, by `Merkle.ValueBinding`), nor about surplus siblings, which the verifier ignores.
- Merkle.ValueBinding: asks for paths of fewer than 2^32 - 1 levels, so that the 32-bit level neither wraps nor meets the leaf label; the protocol's trees have at most 32.
- Hashing.LabelBytesInjective: labels are compared after truncation of the level to 32 bits, so it asks that levels fit.
- Streaming.StreamingMerkleSpine.PushLeaf: does not model wrap-around of the machine-word leaf counter.
- Spilling column stores, memory budgets, proof-size accounting, floating-point soundness estimates, the legacy folds and `fri_verify_query`: easy members or not used by prover and verifier.
- HTTP, sessions, storage, JSON and the domain-name record encoding in `dns.rs`: input and output plumbing.
