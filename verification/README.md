# A verified model of PoComp

PoComp records what goes in and out of a compute pod, commits to it, and lets an auditor check the pod's
limits from the commitments alone.  This project models its deterministic core in Dafny and proves what the
pieces promise, one by one and together.

- **The F251 matrix engine** (`Field251`, `Matrices`, `Elimination`, `RankTheorems`, `FlatMatrix`, `CuPow`,
  `NoiseDraw`, `StripedExecution`): Gauss-Jordan rank in place on a flat u16 buffer, noise drawn from an
  extendable-output function by rejection sampling, striped multiplication with a cumulative transcript, and a
  low-rank decode that recovers the product exactly.  `CudaExecutor` models the second implementation, with
  centred int8 operands and int32 accumulation, and refines it to the first.
- **The gateway epoch protocol** (`Gateway`, `GatewayProtocol`, `GatewayTime`, `GatewayRecords`,
  `GatewayCompleteness`): a class whose methods are the lock regions, and a state machine over all interleavings of
  requests, journal failures, dropped requests and seal calls.
- **Relations, commitment and sampling** (`Relation`, `RelationTheorems`, `RelationSemantics`, `RelationErrors`,
  `Commitment`, `MerklePadding`, `Sampling`, `Ordering`): the evaluators against the Pod and Task relations stated on
  the ledger alone, with the error of each refusal, the prover's derived statement map against the verifier's
  field-by-field check, and what a Merkle root does and does not determine.
- **Poseidon2** (`Poseidon2`, `Poseidon2Reference`, `Poseidon2Inverse`, `Poseidon2Merkle`): the permutation over an
  arbitrary prime field with arbitrary round constants, its inverse, and the half-split Merkle fold.
- **Bundles and the auditor** (`Verifier`, `CuPowRelation`, `CuPowMinimum`, `CuPowVerifier`, `Auditor`, `EndToEnd`):
  acceptance as an exact condition, and what it implies from the proofs down to one ledger.

`NumberTheory` and `Sums` hold the arithmetic (Euclid's lemma, Fermat's little theorem, exchange of sums), `Bytes` and
`Selections` the encodings of integers and what a filter keeps; `Types`, `CuPowTypes`, `CuPowErrors`, `Outcomes` and
`Integers` hold the wire types, results and machine integers.

Hashes, signatures and canonical encodings are function parameters.  Where a theorem needs them not to collide,
it says so about the inputs actually hashed, never about all inputs.  The streams of the noise function
(SHAKE256, section 6.2 of FIPS 202) are arbitrary infinite byte sequences with enough residues below 251; that
longer outputs extend shorter ones (appendix A.2 of FIPS 202) is what makes one stream per input a fair model.
The linear layers are those of section 5 of IACR ePrint 2023/323.  The clock and the outcome of every journal
write are parameters of the step that reads them.

Some promises hold only under a condition, which is stated exactly.  A sealed epoch is ordered in time if and
only if no request saw its own clock step back between its ingress and its upstream call
(`GatewayTime.SealedOrderExactly`; the clock may step back between requests).  A Merkle root alone determines its
ledger up to doubled tails (`MerklePadding.SameRootExactly`); with the leaf count, or with the sequence numbers
that validated ledgers carry, it determines it (`RootDeterminesLeaves`, `RootDeterminesNumbered`).  The auditor's
journal equals what it released exactly when no failed append leaves text (`Auditor.JournalExactly`).  The signed
saturation minimum is met for the whole MACs the certified rate completes; against the unrounded rate accepted work
can fall short by less than one MAC, and `CuPowMinimum.MinimumKeptExactly` says for which signed terms it cannot.  The tensor product is exact up to inner dimension 137438 and
not beyond (`CudaExecutor.MmExactlyUpTo`).

Run `dafny verify dfyconfig.toml` to check everything.

## Model

| member | source | states |
|---|---|---|
| Elimination.UndoApply | crates/pocomp-protocol/src/cupow.rs:287-309 | every swap, scaling and row subtraction of the elimination has an inverse step |
| Elimination.StepKeepsKernel | crates/pocomp-protocol/src/cupow.rs:287-309 | each elimination step keeps {x : Mx = 0} exactly |
| Elimination.PivotReduced | crates/pocomp-protocol/src/cupow.rs:283-314 | one column of the loop extends the reduced shape by a pivot column that is a unit vector |
| Elimination.ReducedForm | crates/pocomp-protocol/src/cupow.rs:278-317 | the rank the loop counts is the number of pivots of a row-equivalent reduced matrix |
| RankTheorems.RankIsColumnsIff | crates/pocomp-protocol/src/cupow.rs:278-317 | the rank equals the column count if and only if only x = 0 satisfies Mx = 0 |
| RankTheorems.RankIsRowsIff | crates/pocomp-protocol/src/cupow.rs:278-317 | the rank equals the row count if and only if only y = 0 satisfies yM = 0 |
| RankTheorems.RankFactorises | crates/pocomp-protocol/src/cupow.rs:278-317 | every matrix is a product of two factors of inner dimension rank |
| RankTheorems.RankIsLeast | crates/pocomp-protocol/src/cupow.rs:278-317 | no factorisation has a smaller inner dimension, so the loop computes the true rank |
| RankTheorems.WideHasKernel | crates/pocomp-protocol/src/cupow.rs:278-317 | a matrix with more columns than rows has a nonzero kernel vector |
| CuPow.SwapRows | crates/pocomp-protocol/src/cupow.rs:287-292 | the element-wise swap loop on the flat buffer is the row swap, also when both rows are the same |
| CuPow.PivotInPlace | crates/pocomp-protocol/src/cupow.rs:287-310 | swap, scaling and clearing on the flat u16 buffer are one pivot step on the matrix, with every product within u16 |
| CuPow.MatrixRank | crates/pocomp-protocol/src/cupow.rs:278-317 | the in-place Gauss-Jordan method returns the rank of the matrix the buffer encodes |
| Field251.InverseF251 | crates/pocomp-protocol/src/cupow.rs:319-331 | the square-and-multiply loop returns the 249th power, the inverse of every nonzero residue |
| NoiseDraw.DeriveMatrix | crates/pocomp-protocol/src/cupow.rs:333-363 | byte-at-a-time rejection sampling yields the first rows*columns residues of the stream |
| NoiseDraw.AnyBatchDraws | ops/cupow_cuda_executor.py:60-76 | filtering any long enough prefix and truncating gives the same residues, whatever batch sizes are tried |
| NoiseDraw.DeriveCupowNoise | crates/pocomp-protocol/src/cupow.rs:370-431 | returns the four factors that the first of the 65536 retries with full ranks draws, each from the stream of its own seed, workload, operation id, label and retry, and the exhaustion error exactly when no retry does |
| NoiseDraw.SelectedNoiseExactly | crates/pocomp-protocol/src/cupow.rs:370-431 | a selection of factors is right if and only if the four buffers are the first residues of the e-left, e-right, f-left and f-right streams of one retry, of full rank, and no earlier retry gives such |
| NoiseDraw.InputsDiffer | crates/pocomp-protocol/src/cupow.rs:342-349 | the bytes absorbed by the XOF determine seed, workload, operation id, label and retry |
| NoiseDraw.DrawExactly | crates/pocomp-protocol/src/cupow.rs:350-362 | a draw is, in order, exactly what some first bytes of its stream leave below 251 |
| NoiseDraw.SelectedNoiseKernels | crates/pocomp-protocol/src/cupow.rs:417-428 | accepted factors fit the n-by-n shape, and E = E_L*E_R has exactly the kernel of E_R and exactly the rank asked for (same for F) |
| RankTheorems.NoiseKernel | crates/pocomp-protocol/src/cupow.rs:417-428 | a left factor of full column rank adds nothing to the kernel of the product |
| RankTheorems.FullLeftFactorKeepsRank | crates/pocomp-protocol/src/cupow.rs:417-428 | and keeps the rank: the product has the rank of the right factor |
| FlatMatrix.New | crates/pocomp-protocol/src/cupow.rs:34-49 | construction succeeds exactly for nonempty, fully sized buffers of residues |
| FlatMatrix.ViewIsRowMajor | crates/pocomp-protocol/src/cupow.rs:51-53 | cell (i, j) of a matrix is byte i*columns+j of its buffer |
| FlatMatrix.ViewInjective | crates/pocomp-protocol/src/cupow.rs:22-49 | two well-formed encodings of one matrix are equal |
| FlatMatrix.AddF251Exactly | crates/pocomp-protocol/src/cupow.rs:433-446 | on buffers of any bytes and any lengths, addition succeeds exactly when the matrices have cells and the shorter buffer has one byte for each, and then is matrix addition mod 251 in residues |
| FlatMatrix.SubtractF251Meaning | crates/pocomp-protocol/src/cupow.rs:448-461 | subtraction on buffers is matrix subtraction mod 251 and keeps well-formedness |
| Matrices.MulAssoc | crates/pocomp-protocol/src/cupow.rs:547-551 | matrix products mod 251 associate |
| Matrices.MulAddLeft | crates/pocomp-protocol/src/cupow.rs:531-551 | matrix products mod 251 distribute over a sum on the left |
| Matrices.MulAddRight | crates/pocomp-protocol/src/cupow.rs:531-551 | matrix products mod 251 distribute over a sum on the right |
| Matrices.StripesJoin | crates/pocomp-protocol/src/cupow.rs:539-545 | the product over a column range is the sum of the products over its two parts |
| Matrices.DecodeRecoversProduct | crates/pocomp-protocol/src/cupow.rs:547-555 | subtracting A*F and E*(B+F) from the noisy product leaves A*B, for all factors of matching shape |
| CuPow.MatmulF251 | crates/pocomp-protocol/src/cupow.rs:468-487 | on operands of any bytes, also 251 to 255 and surplus ones: the product of their residues mod 251, the operation error exactly on a dimension mismatch, and the shape error exactly when the product has no cells |
| CuPow.StripeProduct | crates/pocomp-protocol/src/cupow.rs:489-508 | the stripe loop multiplies exactly the chosen columns and rows |
| StripedExecution.ExecuteCupow | crates/pocomp-protocol/src/cupow.rs:515-562 | on operands and factors of any bytes: succeeds exactly on matching shapes with cells, operands with a byte for each cell (surplus bytes unread), nonzero factor ranks and a tile dividing n, and otherwise returns the first error in the order of the checks; transcript entry k is the product of the first (k+1)*tile columns and rows; the decoded output is A*B |
| StripedExecution.ExecutionDetermined | crates/pocomp-protocol/src/cupow.rs:515-562 | that description leaves exactly one possible result |
| StripedExecution.LastEntryIsProduct | crates/pocomp-protocol/src/cupow.rs:539-546 | the last transcript entry is the full noisy product |
| StripedExecution.CoarserTranscript | crates/pocomp-protocol/src/cupow.rs:539-546 | the transcript for tile t*m is every m-th entry of the one for tile t |
| CudaExecutor.RankF251 | ops/cupow_cuda_executor.py:79-98 | the row-wise second implementation computes the same rank |
| CudaExecutor.XofMatrix | ops/cupow_cuda_executor.py:49-76 | filter-and-double batching returns the matrix the Rust loop draws, and terminates |
| CudaExecutor.Noise | ops/cupow_cuda_executor.py:101-117 | the second retry loop selects the same retry and the same four factors, those of the first full-rank retry of the labelled streams |
| CudaExecutor.Centered | ops/cupow_cuda_executor.py:120-122 | centring gives the representative in [-125, 125] |
| CudaExecutor.PartialSumsFit | ops/cupow_cuda_executor.py:125-131 | whichever of the centred products an accumulator has added, in any order, their sum fits int32 for inner dimension up to 137438 |
| CudaExecutor.MmF251IsMul | ops/cupow_cuda_executor.py:125-131 | up to that dimension centring, wrapping int32 accumulation and floor-mod 251 equal the product mod 251 |
| CudaExecutor.MmExactlyUpTo | ops/cupow_cuda_executor.py:125-131 | they agree on all operands of inner dimension n if and only if n is at most 137438 |
| CudaExecutor.WideProductWraps | ops/cupow_cuda_executor.py:125-131 | beyond it a row and a column of 125s give a wrapped, different product |
| CudaExecutor.ExecuteItem | ops/cupow_cuda_executor.py:146-193 | rejects the items the script rejects, for the first thing wrong, and runs the others on the first full-rank noise of their own streams, with the engine's transcript and decoded output for n up to 137438 |
| CudaExecutor.CudaMatchesRust | ops/cupow_cuda_executor.py:146-193 | on equal noise and tile both executors return the same transcript and decoded output |
| CuPowRelation.AddUpWork | crates/pocomp-protocol/src/cupow.rs:177-190 | the fold with its mutable id set and checked additions computes the specified fold |
| CuPowRelation.WorkExact | crates/pocomp-protocol/src/cupow.rs:98-116 | the fold succeeds exactly on distinct, valid items and totals their cubes; fewer than 2^64 items never overflow |
| CuPowRelation.ImageDigestExactly | crates/pocomp-protocol/src/cupow.rs:271-276 | splitting at the last mark accepts exactly the strings that end in the mark and 64 hex digits |
| CuPowRelation.CapacityExact | crates/pocomp-protocol/src/cupow.rs:222-238 | for u64 inputs no checked product overflows, and the rounded comparisons decide a clause without quotients: every whole number of MACs the rate completes is within the budget, and the work is the signed share of it |
| CuPowRelation.EvaluatesExactly | crates/pocomp-protocol/src/cupow.rs:127-261 | the evaluator accepts exactly the statements of the relation over unbounded integers |
| CuPowRelation.RefusesExactly | crates/pocomp-protocol/src/cupow.rs:127-261 | every other statement is refused with the error of the first clause it fails, in the order of the checks |
| CuPowRelation.AcceptedWork | crates/pocomp-protocol/src/cupow.rs:222-269 | an accepted statement reports the sum of n^3 over distinct ids, the largest whole number of MACs the rate completes, a saturation at least the minimum, and work within budget; against the unrounded rate the saturation is less than ppm millionths of one MAC too high and less than one ppm too low |
| CuPowMinimum.ShortfallBelowOneMac | crates/pocomp-protocol/src/cupow.rs:222-238 | accepted work falls short of the signed share of the unrounded rate by less than that share of one MAC |
| CuPowMinimum.MinimumKeptExactly | crates/pocomp-protocol/src/cupow.rs:177-238 | all statements accepted under given terms meet the signed share of the unrounded rate if and only if the least multiple of 1024^3 that reaches the rounded requirement meets it, or is not accepted itself; both are known from the terms before any work exists |
| CuPowMinimum.MinimumCanBeMissed | crates/pocomp-protocol/src/cupow.rs:127-269 | such terms exist: the evaluator accepts one 1024-wide product at full saturation for a rate that does a billionth of a MAC more |
| Sampling.SelectsBelowThreshold | crates/pocomp-protocol/src/sampling.rs:8-33 | in every branch the rule selects exactly the draws below floor(2^64*num/den) |
| Sampling.SelectedCount | crates/pocomp-protocol/src/sampling.rs:8-33 | it selects exactly floor(2^64*num/den) of the 2^64 draws |
| Sampling.SelectionMonotone | crates/pocomp-protocol/src/sampling.rs:8-33 | a higher rate selects every draw a lower rate selects |
| Sampling.SampledTaskIds | crates/pocomp-protocol/src/sampling.rs:36-47 | the filter keeps exactly the sampled ids |
| Sampling.SampledExactly | crates/pocomp-protocol/src/sampling.rs:36-47 | in their order and as often as they occur, the ids drawn below floor(2^64*num/den), and no others |
| Sampling.DrawIsHashed | crates/pocomp-protocol/src/sampling.rs:20-29 | the draw is the big-endian number in the first eight digest bytes of the framed seed, epoch id and task id |
| Sampling.SampleInputsDiffer | crates/pocomp-protocol/src/sampling.rs:20-25 | the hashed bytes determine seed, epoch id and task id |
| Commitment.FrameInjective | crates/pocomp-protocol/src/commitment.rs:32-40 | the length-framed hash input determines domain and payload |
| Commitment.FrameIs | crates/pocomp-protocol/src/commitment.rs:32-40 | the hashed bytes part by part: prefix, eight-byte big-endian length, domain, length, payload |
| Commitment.ComputeGatewayRoot | crates/pocomp-protocol/src/commitment.rs:119-134 | the level loop computes the recursive Merkle root |
| MerklePadding.RootIsPaddedTree | crates/pocomp-protocol/src/commitment.rs:119-134 | the root is that of a perfect halving tree over the leaves with odd tails doubled |
| MerklePadding.RootIsFramedTree | crates/pocomp-protocol/src/commitment.rs:107-134 | down to the hashed bytes: the root of a leaf, and of a left and a right half, is the digest of the leaf's or of the two roots' frame in its own domain |
| MerklePadding.PaddedExtends | crates/pocomp-protocol/src/commitment.rs:127-129 | doubling odd tails extends the list to the least power of two |
| MerklePadding.SameRootExactly | crates/pocomp-protocol/src/commitment.rs:107-134 | two ledgers have one root if and only if their padded forms agree (no collisions among the hashed inputs) |
| MerklePadding.SameRootPrefix | crates/pocomp-protocol/src/commitment.rs:107-134 | ledgers with one root are prefixes of one another |
| MerklePadding.RootDeterminesLeaves | crates/pocomp-protocol/src/commitment.rs:107-134 | root and leaf count together determine the ledger |
| MerklePadding.RootDeterminesNumbered | crates/pocomp-protocol/src/commitment.rs:107-134 | so do root and sequence numbers: numbered ledgers with one root are equal, whatever their lengths |
| MerklePadding.OddLeafDuplicates | crates/pocomp-protocol/src/commitment.rs:127-129 | with neither the root does not: [a,b,c] and [a,b,c,c] share one |
| Relation.AccountLeaves | crates/pocomp-protocol/src/relation.rs:206-243 | the accounting loop computes the specified totals or the specified first error |
| Relation.GroupLeaves | crates/pocomp-protocol/src/relation.rs:341-356 | the grouping loop computes the specified map or the specified first error |
| Relation.GroupFromKeepsBTree | crates/pocomp-protocol/src/relation.rs:341-356 | the map's keys stay ascending and duplicate-free, the order BTreeMap iterates in |
| Ordering.BeforeExactly | crates/pocomp-protocol/src/relation.rs:341 | the keys' order: the strings agree up to a point where the first ends or has the smaller character |
| RelationTheorems.AccountExact | crates/pocomp-protocol/src/relation.rs:206-243 | accounting succeeds exactly on fitting leaves without overflow and returns eight times the lengths per direction |
| RelationTheorems.GroupExact | crates/pocomp-protocol/src/relation.rs:341-356 | grouping succeeds exactly when programs match and no task repeats a direction, and loses no leaf |
| RelationTheorems.CompleteIffPaired | crates/pocomp-protocol/src/relation.rs:357-362 | the map is complete if and only if every leaf has its counterpart |
| RelationSemantics.GatewayExact | crates/pocomp-protocol/src/relation.rs:180-244 | the gateway check accepts exactly the ledgers the signed root commits to, with leaves that fit the epoch and totals that fit u64 |
| RelationSemantics.PodAcceptsExactly | crates/pocomp-protocol/src/relation.rs:251-307 | the Pod evaluator accepts exactly the Pod relation: ledger, exact bit totals, erasure interval, compute without rounding, erasure certificate |
| RelationSemantics.PodOutcomeExactly | crates/pocomp-protocol/src/relation.rs:291-306 | an accepted Pod is reported compliant if and only if the erasure is an audited physical one and both bounds are signed, with eight bits per recorded byte in each direction |
| RelationErrors.PodRefusesExactly | crates/pocomp-protocol/src/relation.rs:163-287 | every other Pod input is refused with the error of the first constraint that fails, down to the first leaf that does not fit |
| RelationSemantics.PairsExact | crates/pocomp-protocol/src/relation.rs:367-392 | the pair checks accept if and only if each ingress precedes its egress in the ledger and in time and all leaves are within their caps |
| RelationSemantics.PairTasksExact | crates/pocomp-protocol/src/relation.rs:316-392 | everything before the statements accepts exactly the ledgers whose tasks are one ingress and one later egress leaf of the program within the limits |
| RelationSemantics.TaskAcceptsExactly | crates/pocomp-protocol/src/relation.rs:315-452 | the Task evaluator accepts exactly the Task relation, stated on the ledger: one statement per sampled task and no other, with input the digest of the ingress leaf, output that of the egress leaf, and the program, epoch and versions of the input |
| RelationSemantics.TaskOutcomeExactly | crates/pocomp-protocol/src/relation.rs:436-452 | an accepted Task input is reported compliant if and only if both bounds are signed, with the exact bits by direction, half as many tasks as leaves, and in ascending order the ids of the ledger drawn below the threshold |
| RelationErrors.TaskRefusesExactly | crates/pocomp-protocol/src/relation.rs:315-434 | every other Task input is refused with the error of the first constraint that fails: header, program, grouping, count, the first wrong pair in key order, statements |
| RelationErrors.DerivationRefusesExactly | crates/pocomp-protocol/src/relation.rs:18-53 | the derivation succeeds exactly on well-paired ledgers of the program and epoch and refuses the others with the error of the first constraint that fails |
| RelationTheorems.AcceptsExactlyDerived | crates/pocomp-protocol/src/relation.rs:394-434 | after pairing, the supplied map is accepted if and only if it equals the derived one |
| RelationTheorems.DerivedReverifies | crates/pocomp-protocol/src/relation.rs:18-84 | the derived map always re-verifies |
| RelationTheorems.DerivedMapMonotone | crates/pocomp-protocol/src/relation.rs:55-83 | raising the sampling rate only adds entries to the derived map |
| RelationTheorems.AcceptedTotals | crates/pocomp-protocol/src/relation.rs:341-392 | on acceptance leaves are twice the tasks, bits are eight times the lengths, and each direction stays within tasks times its cap |
| Poseidon2.Permute | crates/pocomp-protocol/src/poseidon2.rs:131-149 | the in-place rounds on a three-element array compute the permutation |
| Poseidon2Reference.PermutationIsLayers | crates/pocomp-protocol/src/poseidon2.rs:113-149 | the permutation is one external layer, four full rounds, the partial rounds and four full rounds, each one formula per element |
| Poseidon2Merkle.PermutationCompression | crates/pocomp-protocol/src/poseidon2.rs:176-181 | the fold compresses with the first element of the permutation |
| Poseidon2.SboxIsFifthPower | crates/pocomp-protocol/src/poseidon2.rs:113-115 | the squaring chain is the fifth power |
| Poseidon2.SboxInverse | crates/pocomp-protocol/src/poseidon2.rs:113-115 | with 5 coprime to p-1 an explicit root exponent inverts the S-box both ways |
| Poseidon2Inverse.ExternalUndone | crates/pocomp-protocol/src/poseidon2.rs:117-122 | the external layer, of determinant 4, is undone |
| Poseidon2Inverse.InternalUndone | crates/pocomp-protocol/src/poseidon2.rs:124-129 | the internal layer, of determinant 7, is undone |
| Poseidon2Inverse.PermutationUndone | crates/pocomp-protocol/src/poseidon2.rs:131-149 | the explicit inverse run undoes the permutation on every field triple |
| Poseidon2Inverse.PermutationRedone | crates/pocomp-protocol/src/poseidon2.rs:131-149 | and the permutation undoes the inverse run, so it is a bijection |
| Poseidon2Merkle.LeavesInjective | crates/pocomp-protocol/src/poseidon2.rs:151-160 | domain, length slot and power-of-two padding lose nothing |
| Poseidon2Merkle.HashFields | crates/pocomp-protocol/src/poseidon2.rs:168-185 | the half-split loop terminates and computes, over the level laid out position by position, the root that compresses the roots of its even and of its odd positions last |
| Poseidon2Merkle.RootIsInterleaved | crates/pocomp-protocol/src/poseidon2.rs:171-183 | the half-split fold is that root: even positions against odd ones, with a tag that adds the number of folds to the domain |
| Poseidon2Merkle.HashDigestsExactly | crates/pocomp-protocol/src/poseidon2.rs:162-200 | the hash is the little-endian encoding of the root over the two little-endian halves of each digest |
| Poseidon2Merkle.RootInjective | crates/pocomp-protocol/src/poseidon2.rs:171-183 | the fold drops nothing between levels of one size |
| Poseidon2Merkle.SameHeight | crates/pocomp-protocol/src/poseidon2.rs:171-183 | the depth-tagged third input tells trees of different sizes apart |
| Poseidon2Merkle.FieldsInjective | crates/pocomp-protocol/src/poseidon2.rs:168-185 | field lists of any lengths with one hash are equal under a collision-free compression |
| Poseidon2Merkle.LimbsInjective | crates/pocomp-protocol/src/poseidon2.rs:189-198 | the 128-bit limb split loses nothing in a field of at least 2^128 elements |
| Poseidon2Merkle.HashDigestsInjective | crates/pocomp-protocol/src/poseidon2.rs:189-200 | digest lists of any lengths with one hash are equal under a collision-free compression |
| Poseidon2Merkle.HashDigestsSeparateDomains | crates/pocomp-protocol/src/poseidon2.rs:177-200 | for lists of equal length the hash determines the domain as well |
| Gateway.Ledger.ReserveTask | crates/pocomp-gateway/src/main.rs:224-244 | reserves exactly fresh ids on an open ledger, and changes nothing else |
| Gateway.Ledger.AppendLeaf | crates/pocomp-gateway/src/main.rs:128-176 | inside the epoch and before the seal, journal first, then ledger: one leaf with the message's own direction, times, length and content; every failure of the journal write leaves the ledger as it was |
| Gateway.Ledger.AbortEpoch | crates/pocomp-gateway/src/main.rs:246-250 | withdraws the reserved id and aborts the epoch |
| Gateway.Ledger.Seal | crates/pocomp-gateway/src/main.rs:299-337 | seals exactly when nothing is active and nothing aborted, and returns the leaves of the ledger under a signed statement of their root and count |
| Gateway.SealedResponseSeals | crates/pocomp-gateway/src/main.rs:318-337 | the response the seal theorems speak of is, field by field, that statement, its signature and these leaves |
| GatewayProtocol.StepKeeps | crates/pocomp-gateway/src/main.rs:128-337 | every step of every request, failure, drop or seal keeps the protocol invariant |
| GatewayProtocol.InvAlong | crates/pocomp-gateway/src/main.rs:128-337 | the invariant holds in every state of every interleaving |
| GatewayProtocol.SealImpliesPaired | crates/pocomp-gateway/src/main.rs:299-337 | a successful seal means one ingress and one later egress leaf per task, sequences 0..n-1, and a journal equal to the ledger |
| GatewayProtocol.SealedStaysPut | crates/pocomp-gateway/src/main.rs:137-141 | a sealed ledger never changes again |
| GatewayProtocol.SealsAgree | crates/pocomp-gateway/src/main.rs:299-337 | later seals return the same leaves, root and signature |
| GatewayProtocol.JournalHasLedger | crates/pocomp-gateway/src/main.rs:162-174 | in every state of every run, also of failed and aborted epochs, each leaf of the ledger has its record in the journal |
| GatewayProtocol.NoSealAfterFailure | crates/pocomp-gateway/src/main.rs:194-217 | once a task has failed, been dropped or aborted no seal succeeds, also before the abort runs |
| GatewayProtocol.SealSucceedsExactly | crates/pocomp-gateway/src/main.rs:299-320 | in every run a seal call succeeds if and only if every accepted request has run to its end |
| GatewayProtocol.Perform | crates/pocomp-gateway/src/main.rs:128-337 | the class methods carry out exactly the steps of the state machine |
| GatewayTime.SealedOrderExactly | crates/pocomp-gateway/src/main.rs:252-297 | a sealed epoch is ordered in time if and only if each request read, at the start of its upstream call, a clock not behind the one it read at the end of its ingress message |
| GatewayTime.SealedInTimeOrder | crates/pocomp-gateway/src/main.rs:83-89 | so a clock that never steps back is enough |
| GatewayTime.ClockTurnedBack | crates/pocomp-gateway/src/main.rs:83-89 | a concrete run in which the clock steps back inside one request seals a ledger out of order |
| GatewayRecords.DoneRecords | crates/pocomp-gateway/src/main.rs:252-297 | the two leaves of a request that is done have the lengths and contents it appended and the four times it read |
| GatewayRecords.StepsOnce | crates/pocomp-gateway/src/main.rs:252-297 | a request takes each of these steps at most once, so those are the only values there are |
| GatewayRecords.SealedLeavesAreAppends | crates/pocomp-gateway/src/main.rs:128-176 | a sealed ledger is the run's appends, all of them and in their order, with their tasks, directions, lengths and contents |
| GatewayRecords.SealedBits | crates/pocomp-protocol/src/relation.rs:206-243 | the bit totals of a sealed epoch are eight times the bytes its requests appended in each direction |
| GatewayCompleteness.SealedValidates | crates/pocomp-protocol/src/relation.rs:180-244 | the gateway check accepts a sealed epoch if and only if its byte counts do not overflow, with exact totals |
| GatewayCompleteness.SealedPairsIff | crates/pocomp-protocol/src/relation.rs:315-392 | a sealed epoch passes pairing, order and caps if and only if it is ordered in time and within the limits |
| GatewayCompleteness.SealedRunAccepted | crates/pocomp-protocol/src/relation.rs:315-452 | a sealed run is accepted with the statement map derived from it if and only if no request saw its own clock step back and the ledger is within the limits |
| Verifier.ValidateTaskProofSet | crates/pocomp-verifier/src/lib.rs:219-235 | the loop with its seen set computes the specified check |
| Verifier.TaskProofSetExact | crates/pocomp-verifier/src/lib.rs:219-235 | accepts exactly the lists with one proof, under its own id, for each expected statement |
| Verifier.VerifyEachTaskProof | crates/pocomp-verifier/src/lib.rs:291-300 | the loop over the proofs returns the first failure |
| Verifier.BundleAcceptedExactly | crates/pocomp-verifier/src/lib.rs:243-310 | a bundle is accepted exactly when its parts agree under the two keys and the pinned executables answered verified for both relation statements and for each expected task statement once |
| Verifier.BundleAssuranceExactly | crates/pocomp-verifier/src/lib.rs:302-309 | an accepted bundle is called compliant if and only if its erasure is an audited physical one and both bounds are signed |
| Verifier.BundleRefusesExactly | crates/pocomp-verifier/src/lib.rs:243-300 | every other bundle is refused with the first error: versions, signatures and agreement, the two relation proofs, the proof set, the first task proof not accepted |
| EndToEnd.OneRootOneLedger | crates/pocomp-protocol/src/relation.rs:202-244 | two ledgers validated under one signed root are equal, with equal bit totals |
| EndToEnd.AcceptedBundleHasOneLedger | crates/pocomp-verifier/src/lib.rs:243-310 | with sound proofs and no collisions an accepted bundle has one ledger satisfying the Pod and the Task relation, one verified proof for each task of it drawn below the threshold, with that task's ingress digest as input and egress digest as output, and the assurance the Pod relation gives |
| EndToEnd.BundleSpeaksOfSealedLedger | crates/pocomp-verifier/src/lib.rs:243-310 | if only seals of the gateway's epochs sign under its key, the one ledger of an accepted bundle is the sealed ledger of one of those epochs |
| Auditor.AuditorState.IssueChallengeAt | crates/pocomp-cupow-auditor/src/main.rs:77-106 | issues once, inside the epoch, with a nonzero seed, after the journal is synced, and otherwise names the first reason against it |
| Auditor.AuditorState.AcceptCompletion | crates/pocomp-cupow-auditor/src/main.rs:108-140 | accepts once, in time, exactly the completions that satisfy the relation's clause, unchanged but for the time of receipt, and otherwise names the first reason against it |
| Auditor.ReleasesOneExchange | crates/pocomp-cupow-auditor/src/main.rs:77-140 | over every sequence of calls, clock readings and journal failures at most one challenge and then one completion are released, and both satisfy the relation's clauses |
| Auditor.ReleasedAsAsked | crates/pocomp-cupow-auditor/src/main.rs:77-140 | every released receipt carries the seed and time, or the roots, digest, work and time, of one call of the run |
| Auditor.ExchangeCompletes | crates/pocomp-cupow-auditor/src/main.rs:77-140 | while nothing was released, a timely request with a nonzero seed and a timely matching completion release both receipts |
| Auditor.ReleasedIsJournaled | crates/pocomp-cupow-auditor/src/main.rs:69-75 | a released receipt is in the journal |
| Auditor.JournalExactly | crates/pocomp-cupow-auditor/src/main.rs:69-75 | the journal is exactly what was released if and only if no call that passed the clock, time and match checks had its write fail after text went out |
| Auditor.JournalMayHoldUnreleased | crates/pocomp-cupow-auditor/src/main.rs:101-103 | after one failed sync the journal holds a challenge nobody received, before the released one |
| Auditor.ReleasedPairCompletesStatement | crates/pocomp-protocol/src/cupow.rs:198-220 | with a released pair, the statement satisfies the relation exactly when contract and erasure do |
| CuPowVerifier.AcceptsExactly | crates/pocomp-verifier/src/lib.rs:318-353 | accepts exactly with five signatures, the unbounded relation and the pinned executable's answer that it verified this statement |
| CuPowVerifier.RefusesExactly | crates/pocomp-verifier/src/lib.rs:318-353 | every other bundle is refused for versions and signatures first, then the relation, then the proof |
| CuPowVerifier.ReleasedBundleAccepted | crates/pocomp-verifier/src/lib.rs:318-353 | a bundle around a released pair is accepted exactly when its contract, erasure certificate and proof are |

## Left out

- SHA-256, SHAKE256 and Ed25519 themselves; collision-freedom and signature correctness are hypotheses where used.
- SP1 and zkTorch proving and verifying; an accepted relation proof is assumed to have an extractable witness
  (`EndToEnd.SoundFor`), and what a zkTorch proof says about the model it runs is not part of this model.
- JSON and postcard encodings, HTTP routing, tokio plumbing, file creation and permissions, the seal route's
  authorization header, body persistence and the commitment service: they appear only as steps that may fail.
- A journal file left by an earlier process: the gateway starts with an empty one, as a fresh epoch does.
- Torn journal text is a marker in the line list; where exactly a write was cut is not modelled.
- CuPow.MatmulF251: leaves out operands built by deserialisation that the loops would index out of bounds (a panic);
  `StripedExecution.ExecuteCupow` leaves out only noise factors of that kind, and its own operands may have any length.
- FlatMatrix.SubtractF251Meaning: asks for residues; `execute_cupow` only subtracts sums and products, which are.
- NoiseDraw.DeriveMatrix: asks for a stream with enough residues below 251, because the loop does not end otherwise.
- CudaExecutor.ExecuteItem: says what is returned for n up to 137438 only; beyond, where accumulation can wrap,
  `CudaExecutor.WideProductWraps` shows the promise fails.  GPU scheduling and tensor memory are not part of this model.
- CudaExecutor.Noise: accepts ranks the Rust function refuses (rank at least n), as the script does.
- CuPowRelation.EvaluatesExactly: for item lists of fewer than 2^64 entries, which a Rust vector cannot exceed; the
  same bound stands on leaf and digest lists elsewhere.
- Poseidon2.Permute: the concrete round constants and the BN254 modulus; every prime field and constant table of
  the right shape is covered instead.
- Poseidon2Merkle.HashDigestsSeparateDomains: for lists of equal length, as the tag adds domain and depth; lists of
  different lengths under different domains are not claimed to differ.
- Strings are sequences of code points, compared as such; UTF-8 is not modelled.  Where a hashed input holds a string,
  its bytes are given (`NoiseDraw.NoiseKey`) or come from an arbitrary encoding (`Sampling.HashedDraw`).
- The relations are about any draw function, of which `Sampling.HashedDraw` is the source's.
- The KZG matrix digest, the task artifact ids, key loading, the command line, the CUDA runner's files, the Python
  adapters, the exporter and the cloud scripts: glue whose properties can be read off single bodies.
- The physical assumptions (calibration, erasure, channel bounds) behind the assurance label.
