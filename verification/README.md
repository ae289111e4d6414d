# Doxa rollup: a verified model

A Dafny model of the parts of the Doxa rollup that every other part relies on, with proofs that
hold for all inputs, all tree depths and all runs.

* **Merkle trees** (`MerkleSpec`, `MerkleTree`). The sparse append-only tree stores leaves, partial
  layers and a table of empty-subtree hashes, and updates them path by path, range by range or
  sparsely. Every operation is proved to leave exactly the layers of the recursive tree over the
  zero-padded leaves, so all update strategies agree, every proof verifies, and the self-check
  decides whether the stored layers are right.
* **Scalars, Schnorr and the circuit witness** (`Modular`, `Scalar`, `BitOps`, `ScalarCodec`, `Bits`,
  `Curve`, `Witness`, `WireChecks`, `WitnessFailures`, `Quintic`). Five-limb Montgomery arithmetic with its carries, byte decoding,
  double-and-add, signing and verifying, the 80-gate witness chain with its offset point, the
  wire-to-bit wiring and what its constraints admit, and the exponent chains behind square roots and the Legendre symbol.
* **Batches** (`Encoding`, `BatchPrinter`, `BatchParser`). The server prints a batch; the sync
  service parses it at byte offsets. The two share no code; parsing a printed batch is proved to
  give back the printed commitments, nullifiers and root.
* **The sync service** (`SyncSpec`, `SyncTheorems`, `SyncRuns`, `SyncReplays`, `StateSync`, `SyncService`, `Deposits`,
  `PoolConfig`). The state object is a class proved against a value-level transition system; an
  invariant of every run gives the two-layer proofs of confirmed commitments, the conservation of
  nullifiers, the state tree and every answer a client gets. Deposits and the config tree follow their
  event streams.
* **Accounts** (`Account`). The asset tree with its mirror map, and the withdrawal slots.
* **The emitted Yul** (`Yul`, `YulPermutation`, `PlainPoseidon`). 256-bit words with wrap-around; the
  packed matrix and the lazily reduced partial rounds are proved equal to the eagerly reduced
  permutation, and that one to plain Poseidon when the tables of the fast rounds factor the matrix.

Hashing is a parameter (`Hasher`): nothing is assumed about it except in `FoldBinds`,
`RootBindsLeaves`, `EmptyRootMeansZeroLeaves` and `OutsideProofFails`, which assume that it is
injective. A real digest type is finite and no hash into it is injective, so each of the first three
also has a form without the assumption, which names the level of the path at which two different
pairs have the same hash (`FoldBindsOrCollides`, `RootBindsOrCollides`, `EmptyRootOrCollides`).
The curve is an
abelian group of prime order (`PrimeOrderGroup`) whose doubling and whose x-coordinate comparison
are partial as in the code (`WitnessFailures` also assumes that only equal and opposite points share an x
coordinate); the fields are given by `IsExtension` and, for the Legendre symbol, `BaseField`, and
`WireChecks` assumes that the Goldilocks field has no zero divisors. Round constants and matrix tables
are arbitrary values in range. Panics are modelled as `None` or `Err` where the source can reach
them, and a read of a non-canonical limb is excluded by the `Readable` predicates, which every
printed batch satisfies.

## Findings

* `insert_batch` checks the range only after it has extended the leaves. It answers `IndexError`, and
  the tree stops being valid, exactly when the batch size divides the leaf count, the tree is not
  full and the batch does not fit (`Merkle.MerkleTree.InsertBatch`); three leaves for an empty tree of
  depth 1 do it (`Merkle.OverlongBatch`). A batch of a power of two that divides the leaf count of a
  tree with room does it exactly when it is larger than the whole tree (`Merkle.AlignedBatchFits`).
* `merkle_proof` accepts any index. The proof it returns verifies exactly when the index is inside
  the tree or the tree has the root of the empty tree (`MerkleSpec.ProofVerifiesExactly`). The proof
  for position 2 of a tree of depth 1 with one nonzero leaf does not (`MerkleSpec.OutsideProofExample`).
* `insert_subpool_at_position` does not check the number of leaves for subpool 1: inserting it again
  succeeds and lands at the next free position (`PoolConfig.MainPoolConfigTree.InsertSubpoolAtPosition`
  has the exact condition, `PoolConfig.SubpoolOneTwice` an input). Only a debug build notices, through
  the `debug_assert_eq!` at doxa-client/src/pool_config.rs:173, and panics.
* Splitting the deposit history into windows is harmless exactly when, for every note that becomes
  available, the last block that mentions it carries its strongest event (`Deposits.SplitsAgreeExactly`); histories of the
  contract satisfy this, a note made available again after a withdrawal does not
  (`Deposits.DisorderlyHistory`).
* A nullifier is pending under the batch that brought it last. If two pending batches carry the same
  nullifier, confirming the first leaves it pending under the second (`SyncRuns.SharedNullifierRun`). All
  nullifiers of a confirmed batch are spent exactly when each was spent before or was brought last by
  that batch (`SyncTheorems.ConfirmedBatchFullySpent`).
* A confirmed commitment that a later submission holds again is reported pending
  (`SyncRuns.ReprintedCommitmentRun`). At the end of a run it is confirmed exactly when some event
  confirmed the batch that had located it last and no later event brought it again
  (`SyncRuns.ConfirmedExactly`).
* Repeating a submission changes nothing (`SyncReplays.RepeatedSubmission`), repeating a proof does: the
  loop over proven batches looks only among the pending ones, so the batch is parsed and confirmed again
  and its root takes another leaf of the state tree (`SyncReplays.RepeatedProofAppends`;
  `SyncReplays.UnchangedExactly` has the exact condition for every event).
* The limb constraints of the signature gadget are field equations and leave bit 318 open. They admit
  a hash limb plus the prime where that fits in 64 bits, and six differences in the last limb
  (`WireChecks.LimbChecksExactly`); with bit 318 clear and no hash limb below 2^32 - 1 the wires are
  exactly the challenge (`WireChecks.ClearBitReadsChallenge`).
* `repeated_square(v, 0)` squares once. The comment in the quintic `sqrt` says `2^63 - 2^32` where the
  code computes the exponent `2^63 - 2^31`, which is the right one; the model follows the code.
* A padding slot of a withdrawal proves the default leaf exactly while the asset tree has a free leaf
  or has the empty root (`Account.PadSlot`); a full tree of depth 1 shows the failure
  (`Account.FullTreePadding`).

## Model

| member | source | states |
|---|---|---|
| MerkleSpec.WidthIsCeiling | doxa-trees/src/tree.rs:139-224 | a stored layer has the leaf count divided by 2^level, rounded up |
| MerkleSpec.RootIsPaddedRoot | doxa-trees/src/tree.rs:123-137 | the sparse root is the textbook root, by halves, of the zero-padded leaf sequence |
| MerkleSpec.FourLeaves | doxa-trees/src/tree.rs:123-137 | the root over four leaves, and over three, written out |
| MerkleSpec.PathReachesRoot | doxa-trees/src/merkle_proof.rs:9-52 | siblings and direction bits of any position inside the tree fold its leaf (or zero) to the root |
| MerkleSpec.FoldBindsOrCollides | doxa-trees/src/merkle_proof.rs:46-52 | for any hash a verifying path of full length carries the tree's own leaf and siblings, or collides with the tree's path at some level |
| MerkleSpec.FoldBinds | doxa-trees/src/merkle_proof.rs:46-52 | with an injective hash a verifying path of full length carries the tree's own leaf and siblings |
| MerkleSpec.RootBindsOrCollides | doxa-trees/src/tree.rs:123-137 | for any hash two trees with the same node agree on each leaf below it, or collide on that leaf's path |
| MerkleSpec.RootBindsLeaves | doxa-trees/src/tree.rs:123-137 | with an injective hash equal roots have equal padded leaves |
| MerkleSpec.ProofVerifiesExactly | doxa-trees/src/merkle_proof.rs:9-52 | the proof for any index verifies if and only if the index is inside, or the root is the empty one |
| MerkleSpec.EmptyRootMeansZeroLeaves | doxa-trees/src/tree.rs:123-137 | with an injective hash the root is the empty one if and only if all leaves are zero |
| MerkleSpec.ZeroLeavesHaveEmptyRoot | doxa-trees/src/tree.rs:123-137 | for any hash all-zero leaves, however many, have the root of the empty tree |
| MerkleSpec.EmptyRootOrCollides | doxa-trees/src/tree.rs:123-137 | for any hash a nonzero leaf under the empty root comes with a collision on its path |
| MerkleSpec.OutsideProofFails | doxa-trees/src/merkle_proof.rs:9-37 | with an injective hash the proof for an outside position fails for every tree with a nonzero leaf |
| MerkleSpec.OutsideProofExample | doxa-trees/src/merkle_proof.rs:9-37 | an outside position whose proof does not verify |
| MerkleSpec.PathFoldsAfterChange | doxa-trees/src/tree.rs:238-251 | one path serves both roots: siblings taken before a leaf change fold the new leaf to the new root |
| Merkle.VerifyProof | doxa-trees/src/merkle_proof.rs:46-52 | accepts exactly when the fold reaches the carried root |
| Merkle.MerkleTree.constructor | doxa-trees/src/tree.rs:35-53 | an empty tree of any depth from 1 is valid |
| Merkle.MerkleTree.Leaf | doxa-trees/src/tree.rs:59-70 | the returned leaf folds to the root along its position's path; an error exactly for empty positions, whose padded leaf is zero |
| Merkle.MerkleTree.Stored | doxa-trees/src/tree.rs:72-107 | stored node or default hash: always the recursive node of its zero-padded range |
| Merkle.MerkleTree.MerklePath | doxa-trees/src/tree.rs:72-107 | the recursive siblings of the asked levels, for occupied and empty positions |
| Merkle.MerkleTree.Root | doxa-trees/src/tree.rs:123-137 | the recursive root of the padded leaves |
| Merkle.MerkleTree.Proof | doxa-trees/src/merkle_proof.rs:9-37 | leaf or zero, siblings, bits, position, number of leaves and root; it verifies for every index inside the tree |
| Merkle.MerkleTree.UpdateMerklePath | doxa-trees/src/tree.rs:139-224 | rewriting one path turns the layers of one leaf sequence into those of the changed one |
| Merkle.MerkleTree.UpdateLeaf | doxa-trees/src/tree.rs:238-251 | replaces one leaf and keeps the tree valid, or fails with IndexError and changes nothing |
| Merkle.MerkleTree.Insert | doxa-trees/src/tree.rs:253-262 | appends and keeps the tree valid, or reports a full tree and changes nothing |
| Merkle.MerkleTree.RebuildTree | doxa-trees/src/tree.rs:226-236 | makes any layers valid and changes nothing on a valid tree |
| Merkle.MerkleTree.InsertBatch | doxa-trees/src/tree.rs:264-293 | which sizes give which answer; on success the tree of single inserts; valid afterwards if and only if the answer is not IndexError |
| Merkle.DividesIsMultiple | doxa-trees/src/tree.rs:270-277 | the size check accepts exactly the sizes of which the leaf count is a multiple |
| Merkle.AlignedBatchFits | doxa-trees/src/tree.rs:264-293 | a batch of 2^k that divides the leaf count of a tree with room fits if and only if k is at most the depth, and else damages the tree |
| Merkle.OverlongBatch | doxa-trees/src/tree.rs:264-293 | a refused batch that leaves an invalid tree |
| Merkle.MerkleTree.UpdateConsecutivePaths | doxa-trees/src/tree.rs:295-393 | updating any range that covers the changed and new positions gives the layers of the leaves, filled up with zeros if the range ends beyond them; or it fails before writing |
| Merkle.MerkleTree.UpdateSparsePaths | doxa-trees/src/tree.rs:395-461 | the sparse update gives the layers of the changed leaves, for any set of positions |
| Merkle.SameLeavesSameTree | doxa-trees/src/tree.rs:238-461 | valid trees with equal leaves are equal, so single, batched and sparse updates agree in any order |
| Merkle.MerkleTree.VerifyLayers | doxa-trees/src/verification.rs:16-42 | reports the lowest layer that is not the recursive one, or that there is none |
| Merkle.MerkleTree.RecomputeRoot | doxa-trees/src/verification.rs:55-79 | the root recomputed from the leaves is the recursive root |
| Merkle.MerkleTree.Verify | doxa-trees/src/verification.rs:10-79 | on a non-empty tree the self-check succeeds if and only if the tree is valid, and else names the lowest wrong layer |
| Merkle.ComputeRootNative | doxa-server/src/prover_service/subtree_root.rs:165-182 | folding 2^d leaves in place gives the recursive root and the textbook root |
| Scalars.AddInner | doxa-client/src/schnorr.rs:68-79 | the sum modulo 2^320, limb by limb |
| Scalars.SubInner | doxa-client/src/schnorr.rs:81-93 | the exact difference with the borrow that tells whether it is negative |
| Scalars.AddMod | doxa-client/src/schnorr.rs:95-99 | the sum modulo the group order |
| Scalars.SubMod | doxa-client/src/schnorr.rs:101-104 | the difference modulo the group order |
| Scalars.NegMod | doxa-client/src/schnorr.rs:106-108 | the negation modulo the group order |
| Scalars.MontyRow | doxa-client/src/schnorr.rs:111-133 | one outer step is an exact division by 2^64 (the dropped limb is zero) and stays below a + n; no product wraps |
| Scalars.MontyMul | doxa-client/src/schnorr.rs:111-140 | for a < n and any 320-bit b a reduced r with r * 2^320 congruent to a * b |
| Scalars.MontyProductIsUnique | doxa-client/src/schnorr.rs:111-140 | there is only one such r |
| Scalars.MulMod | doxa-client/src/schnorr.rs:142-145 | two Montgomery products give a * b modulo n |
| ScalarCodec.Decode | doxa-client/src/schnorr.rs:157-184 | for a buffer of any length a scalar exactly when the little-endian value is below n, and that value |
| ScalarCodec.DecodeReduce | doxa-client/src/schnorr.rs:186-212 | for a buffer of any length the little-endian value modulo n, through 39-byte chunks |
| ScalarCodec.FromHash | doxa-client/src/schnorr.rs:216-224 | clears the two top bits of the last limb; the result is below n |
| Bits.ToBitArr | doxa-client/src/schnorr.rs:58-66 | the 319 little-endian bits of the value |
| Bits.BitsGiveValue | doxa-client/src/schnorr.rs:58-66 | bits read from a value sum to its remainder modulo 2^length |
| Curve.ScalarMul | doxa-client/src/ecgfp5.rs:225-245 | double-and-add gives the multiple by the 319 low bits of any scalar, so by a reduced scalar itself, and never doubles the neutral point |
| Curve.SchnorrChallenge | doxa-client/src/schnorr.rs:366-386 | the challenge is the hash of R's encoding, Q's encoding and the message, limb 4 modulo 2^62 |
| Curve.Sign | doxa-client/src/schnorr.rs:390-405 | for every key, nonce and message the verifier's equation holds of the signature, with the challenge written out |
| Curve.VerifySignature | doxa-client/src/schnorr.rs:408-424 | for any response accepts exactly when the encoding of s*G + e*Q is that of R, with s taken by its 319 low bits and e the written-out challenge |
| Curve.SignatureBalances | doxa-client/src/schnorr.rs:390-424 | s*G + e*Q is k*G if and only if s is k - d*e modulo the order |
| Curve.OnlyTheResponseVerifies | doxa-client/src/schnorr.rs:390-424 | with an injective encoding the verifier accepts exactly the response the signer computes |
| Witness.StepCorrect | doxa-client/src/plonky2_gadgets/signature.rs:1498-1519 | a step doubles and adds the selected points: the closed form of the next bit, or the failure the code has |
| Witness.LastStepCorrect | doxa-client/src/plonky2_gadgets/signature.rs:1498-1519 | the undoubled last step removes 2^319 times the offset |
| Witness.ComputeGateWitness | doxa-client/src/plonky2_gadgets/signature.rs:1485-1540 | four steps keep the accumulator on the closed form, and it fails only when a step does |
| Witness.SetSchnorrWitness | doxa-client/src/plonky2_gadgets/signature.rs:1548-1589 | for any scalars the 80 gates end at s*G + e*Q by their 319 low bits, and complete exactly when no step meets a point it cannot handle and the result encodes to cr |
| Witness.GadgetHashesTheSame | doxa-client/src/plonky2_gadgets/signature.rs:1393-1399 | the gadget's hash input, wire by wire, is the list the signer and the verifier hash |
| Witness.SignatureWitness | doxa-client/src/plonky2_gadgets/signature.rs:1548-1589 | for a signature and its challenge the witness completes exactly when the verifier accepts and no step fails, and then passes the gadget's limb constraints on the hash of the gadget's own input |
| Witness.WiresReadBack | doxa-client/src/plonky2_gadgets/signature.rs:1408-1418 | the wire index formula reads the selector wires as the little-endian bits of e |
| Witness.ReconstructedIsLimb | doxa-client/src/plonky2_gadgets/signature.rs:1421-1431 | the two 32-bit sums of limb k give limb k |
| Witness.WitnessPassesLimbChecks | doxa-client/src/plonky2_gadgets/signature.rs:1421-1462 | limbs 0 to 3 equal the hash, limb 4 differs by 0, 2^62, 2^63 or 3*2^62, and the constraints hold |
| WitnessFailures.StepFailsExactly | doxa-client/src/plonky2_gadgets/signature.rs:1498-1519 | for the key d*G and the offset t*G a step fails if and only if its factor a has 2a = d, 2a = -d or a = 0 modulo the order, the last one a = d or a = -d |
| WitnessFailures.NoFailureExactly | doxa-client/src/plonky2_gadgets/signature.rs:1485-1589 | no step fails if and only if none of these congruences holds at any of the 320 steps |
| WireChecks.LimbChecksExactly | doxa-client/src/plonky2_gadgets/signature.rs:1421-1462 | the converse: limbs 0 to 3 are the hash limbs or these plus the prime, limb 4 differs by one of six values, and nothing else passes |
| WireChecks.ClearBitReadsChallenge | doxa-client/src/plonky2_gadgets/signature.rs:1416-1462 | with bit 318 clear and no hash limb below 2^32 - 1 the constraints force exactly the challenge |
| WireChecks.TwoReadings | doxa-client/src/plonky2_gadgets/signature.rs:1416-1418 | with bit 318 open a last hash limb between 2^62 and 2^63 passes with two readings |
| Quintic.RepeatedSquare | doxa-client/src/ecgfp5.rs:312-318 | the power 2^n, for n from 1; one squaring for n = 0 |
| Quintic.HalfPower | doxa-client/src/ecgfp5.rs:407-417 | the squaring chain computes the power (p-1)/2 |
| Quintic.HalfNormPower | doxa-client/src/ecgfp5.rs:330-361 | chain and Frobenius maps compute the power (r-1)/2 for r = 1+p+p^2+p^3+p^4 |
| Quintic.NormIsBase | doxa-client/src/ecgfp5.rs:365-368 | the norm x^r has only a constant coefficient |
| Quintic.Sqrt | doxa-client/src/ecgfp5.rs:325-381 | for nonzero x a root exactly when one exists, and its square is x |
| Quintic.BaseLegendre | doxa-client/src/ecgfp5.rs:406-418 | the power (p-1)/2 decides: zero for zero, one for other squares, minus one for elements without a root |
| Quintic.Legendre | doxa-client/src/ecgfp5.rs:424-444 | the same for the extension, each case if and only if; the assertion on the other coefficients holds |
| Quintic.NormIsSquare | doxa-client/src/ecgfp5.rs:325-444 | a nonzero element is a square exactly when its norm is one in the base field |
| Quintic.LegendreDecidesSqrt | doxa-client/src/ecgfp5.rs:325-444 | on nonzero elements the half power of the norm is one exactly when the square root function finds a root |
| Encoding.HashToBytes32 | doxa-state-sync/src/contract.rs:8-20 | the big-endian limbs, one after another |
| Encoding.WordsAreBigEndian | doxa-state-sync/src/contract.rs:8-20 | the most significant byte of 32- and 64-bit words comes first |
| Encoding.Bytes32ToHash | doxa-state-sync/src/contract.rs:29-53 | succeeds exactly when all limbs are canonical, with those limbs |
| Encoding.HashRoundTrip | doxa-state-sync/src/contract.rs:8-53 | decoding an encoded digest gives it back |
| Encoding.BytesRoundTrip | doxa-state-sync/src/contract.rs:8-53 | encoding what canonical bytes decode to gives the bytes back |
| Encoding.HashBytesInjective | doxa-state-sync/src/contract.rs:8-20 | different digests have different bytes |
| Encoding.RawToPreimage | doxa-state-sync/src/contract.rs:133-140 | swaps the halves of every limb |
| Encoding.SwapTwice | doxa-state-sync/src/contract.rs:133-149 | swapping twice restores the bytes |
| Encoding.U256ToHash | doxa-state-sync/src/contract.rs:90-105 | succeeds exactly when all four words are canonical, with those words, and else names the first that is not |
| Encoding.U256RoundTrip | doxa-state-sync/src/contract.rs:69-105 | a digest survives the trip through a uint256 |
| BatchPrinter.BatchPoseidonRoot | doxa-server/src/batch_helper.rs:152-170 | exactly for full batches with 512 commitments, the recursive root of the commitments in slot order |
| BatchPrinter.LeafAt | doxa-server/src/batch_helper.rs:152-170 | leaf j of a slot is the j-th output commitment of its proof |
| BatchPrinter.PushFields | doxa-server/src/batch_helper.rs:173-179 | appends low and high word of every element |
| BatchPrinter.PiPreimageWords | doxa-server/src/batch_helper.rs:133-149 | the words of root, common inputs once, and every proof's own inputs in slot order |
| BatchPrinter.PiPreimageBytes | doxa-server/src/batch_helper.rs:115-122 | the same as big-endian bytes |
| BatchPrinter.PrintedWordOrder | doxa-server/src/batch_helper.rs:115-179 | printed element k is its low word, then its high word, each most significant byte first |
| BatchPrinter.HeaderAt | doxa-server/src/batch_helper.rs:133-149 | the header holds the root, then the first proof's eight common inputs |
| BatchPrinter.FieldWindow | doxa-server/src/batch_helper.rs:133-149 | any window of a slot's printed fields is the same window of its public inputs |
| BatchParser.ReadDigest | doxa-state-sync/src/sync.rs:822-827 | decodes the 32 bytes at an offset |
| BatchParser.PrintedDigest | doxa-state-sync/src/sync.rs:822-827 | four printed elements are read back as their digest |
| BatchParser.PrintedFlag | doxa-state-sync/src/sync.rs:829-833 | a printed element is read as true exactly when it is nonzero |
| BatchParser.PrintedTxReadable | doxa-state-sync/src/sync.rs:627-681 | parsing a printed private batch never panics, and the header gives the printed root |
| BatchParser.ParsedTxLeaves | doxa-state-sync/src/sync.rs:635-654 | the parser recovers the printed output commitments in leaf order |
| BatchParser.ParsedTxNullifiers | doxa-state-sync/src/sync.rs:656-672 | it recovers exactly the nullifiers of the slots that are not fake, in order |
| BatchParser.PrintedBridgeReadable | doxa-state-sync/src/sync.rs:683-729 | parsing a printed bridge batch never panics, and the header gives the printed root |
| BatchParser.ParsedBridgeLeaves | doxa-state-sync/src/sync.rs:691-716 | the parser recovers the printed commitments, withdrawals then deposits |
| BatchParser.ParsedBridgeNullifiers | doxa-state-sync/src/sync.rs:697-722 | it recovers exactly the nullifiers of the slots that are not fake |
| SyncSpec.StepKeepsInv | doxa-state-sync/src/sync.rs:208-286 | every submission and every proven batch keeps the invariant of the sync state |
| SyncSpec.RunKeepsInv | doxa-state-sync/src/sync.rs:208-286 | so does every run |
| SyncSpec.StepKeepsRecords | doxa-state-sync/src/sync.rs:808-818 | every recorded preimage has a header that can be read, so confirming never panics |
| SyncTheorems.PathsConcatenate | doxa-state-sync/src/state.rs:222-252 | a subtree path followed by the path of its root is one path of the joint tree |
| SyncTheorems.ConfirmedHasProofs | doxa-state-sync/src/state.rs:222-252 | in every state with the invariant a confirmed commitment has both verifying proofs |
| SyncTheorems.ConfirmedPathsJoin | doxa-state-sync/src/state.rs:143-157 | when the header root is the subtree root the two paths prove position batch * 512 + leaf |
| SyncTheorems.PrintedEventParses | doxa-state-sync/src/state.rs:143-157 | print, parse, rebuild: the subtree rebuilt from a printed batch has the printed header root |
| SyncTheorems.ConfirmMovesNullifiers | doxa-state-sync/src/state.rs:180-193 | confirming moves a batch's nullifiers from pending to confirmed and loses none |
| SyncTheorems.StepLosesNoNullifier | doxa-state-sync/src/sync.rs:208-286 | an event adds exactly the nullifiers of the preimage it applies |
| SyncTheorems.RunConservesNullifiers | doxa-state-sync/src/sync.rs:208-286 | over every run known nullifiers are the initial ones and those brought; confirmed ones stay |
| SyncTheorems.PendingUnderLastMarker | doxa-state-sync/src/state.rs:218-220 | in every run a pending nullifier is pending under the batch that brought it last |
| SyncTheorems.ConfirmationSpendsExactly | doxa-state-sync/src/state.rs:180-193 | after a confirmation a known nullifier is spent if and only if it was before or the confirmed batch brought it last |
| SyncTheorems.ConfirmedBatchFullySpent | doxa-state-sync/src/state.rs:180-193 | all nullifiers of a confirmed batch are spent if and only if each was spent before or was brought last by that batch |
| SyncTheorems.SharedNullifierStaysPending | doxa-state-sync/src/state.rs:180-220 | a nullifier of two pending batches survives the confirmation of the first |
| SyncTheorems.StepKeepsConfirmedExactly | doxa-state-sync/src/state.rs:199-216 | a confirmed commitment is pending after an event if and only if the event brings it again and does not confirm it at once |
| SyncTheorems.RunKeepsConfirmedExactly | doxa-state-sync/src/state.rs:199-216 | it stays confirmed through a run if and only if no event does that |
| SyncTheorems.ReprintedCommitmentIsPending | doxa-state-sync/src/state.rs:199-216 | a confirmed commitment that becomes pending again |
| SyncTheorems.RunRecords | doxa-state-sync/src/sync.rs:208-286 | after every run the batches on record are the initial ones and those the run put there |
| SyncTheorems.SubmittedIsRecorded | doxa-state-sync/src/sync.rs:325-363 | every submitted batch is on record after the run |
| SyncTheorems.EveryRunServesProofs | doxa-state-sync/src/state.rs:222-252 | after every run from the initial state confirmed commitments have their proofs |
| SyncReplays.UnchangedExactly | doxa-state-sync/src/sync.rs:224-363 | an event changes nothing if and only if it submits a batch pending or confirmed under its kind, or proves one that cannot be confirmed or is pending under the other kind only |
| SyncReplays.RepeatedSubmission | doxa-state-sync/src/sync.rs:338-362 | repeating a submission already handled, anywhere later, changes nothing then and in the rest of the run |
| SyncReplays.RepeatedProofAppends | doxa-state-sync/src/sync.rs:224-286 | a proof of a batch that is not pending, as after its confirmation, puts its root in the state tree again, every time |
| SyncReplays.PendingExactly | doxa-state-sync/src/state.rs:175-180 | at the end of a run a batch is pending if and only if some event put it on record and none confirmed it since |
| SyncReplays.RootsExactly | doxa-state-sync/src/state.rs:195 | after every run the known state roots are the initial ones and those the confirming events carried |
| SyncReplays.InitialRootsExactly | doxa-state-sync/src/state.rs:110-111 | from the initial state: the empty tree's root and the confirmed ones |
| SyncRuns.StateTreeMirrors | doxa-state-sync/src/state.rs:115-130 | after every run the state tree holds the header roots of exactly the confirming events, in order |
| SyncRuns.LocatedByLast | doxa-state-sync/src/state.rs:199-216 | a commitment is located in the batch that brought it last |
| SyncRuns.ConfirmedExactly | doxa-state-sync/src/state.rs:161-173 | at the end of a run a commitment is confirmed if and only if some event confirmed the batch that had located it last and no later event brought it |
| SyncRuns.SpentExactly | doxa-state-sync/src/state.rs:180-193 | at the end of a run a nullifier is spent if and only if some event confirmed the batch that had brought it last |
| SyncRuns.BatchConfirmedExactly | doxa-state-sync/src/state.rs:175-180 | at the end of a run a batch is confirmed under a kind if and only if some event confirmed it as such |
| SyncRuns.SharedNullifierRun | doxa-state-sync/src/state.rs:180-220 | two submissions and the proof of the first: a nullifier of the second is not spent, even when the first carries it too |
| SyncRuns.ReprintedCommitmentRun | doxa-state-sync/src/state.rs:199-216 | submission, proof, and a submission of the same leaves under another commitment: confirmed, then pending again |
| SyncRuns.OnesParse | doxa-state-sync/src/sync.rs:627-681 | a printed batch of 64 proofs that both runs can be made of |
| StateSync.ConfirmedAnswerVerifies | doxa-state-sync/src/state.rs:222-252 | after every run the returned paths verify from the commitment and the batch root; the error answer is unreachable |
| StateSync.PrintedRunsProveCommitments | doxa-state-sync/src/state.rs:143-252 | after every run of batches printed by the server a confirmed commitment is a printed output commitment, and the joined path proves it at position batch * 512 + leaf |
| SyncService.CommitmentAfterRun | doxa-state-sync/src/state.rs:222-252 | the service handles events to the end or the first failure, then answers Confirmed, Pending and NotFound exactly as the handled events say, with two verifying paths that meet for printed batches |
| SyncService.NullifierAfterRun | doxa-state-sync/src/state.rs:254-262 | likewise for nullifiers: unknown, confirmed and pending with its batch, each with its exact condition on the events |
| SyncService.BatchAfterRun | doxa-state-sync/src/state.rs:264-285 | likewise for batches: unknown and confirmed with their exact conditions, never unknown after a submission |
| SyncService.StateRootAfterRun | doxa-state-sync/src/state.rs:115-142 | the local state root is that of the confirmed header roots in the order of their events |
| StateSync.StateSyncState.constructor | doxa-state-sync/src/state.rs:87-113 | the initial state with the given hasher, the empty root confirmed |
| StateSync.StateSyncState.AddPendingCommitment | doxa-state-sync/src/state.rs:199-216 | locates a commitment and writes it into the pending leaves if the index is below 512 |
| SyncSpec.MarkEffect | doxa-state-sync/src/state.rs:218-220 | recording nullifiers puts exactly these under the batch, over earlier batches, and leaves the others |
| StateSync.StateSyncState.ApplyTxPreimage | doxa-state-sync/src/sync.rs:627-681 | rejects a short preimage, else adds exactly the leaves and nullifiers the parser finds |
| StateSync.StateSyncState.ApplyBridgePreimage | doxa-state-sync/src/sync.rs:683-729 | the same for bridge batches |
| StateSync.StateSyncState.InsertStateTreeLeaf | doxa-state-sync/src/state.rs:115-123 | appends the root and indexes it, or fails and changes nothing |
| StateSync.StateSyncState.BuildSubtree | doxa-state-sync/src/state.rs:145-151 | 512 inserts give a valid subtree over exactly these leaves; none of them fails |
| StateSync.StateSyncState.MarkConfirmed | doxa-state-sync/src/state.rs:161-173 | marks exactly the commitments of the batch |
| StateSync.StateSyncState.MoveNullifiers | doxa-state-sync/src/state.rs:182-193 | moves exactly the nullifiers of the batch |
| StateSync.StateSyncState.ConfirmBatch | doxa-state-sync/src/state.rs:125-197 | succeeds exactly when the state tree has room; the whole confirmation, or nothing |
| StateSync.StateSyncState.Handle | doxa-state-sync/src/sync.rs:224-286 | one event is one step of the transition system; it fails exactly for a proof of a batch on record when the state tree is full, and changes nothing exactly when idle |
| StateSync.StateSyncState.HandleAll | doxa-state-sync/src/sync.rs:208-286 | a window of events is a run of it, up to and including the first event that fails |
| StateSync.StateSyncState.SubtreeProof | doxa-state-sync/src/state.rs:300-315 | the subtree's proof at the commitment's leaf index, exactly when there is a subtree |
| StateSync.StateSyncState.GetCommitmentStatus | doxa-state-sync/src/state.rs:222-252 | which answer is given in which state, with both proofs |
| Deposits.FetchLogs | doxa-state-sync/src/sync.rs:1041-1080 | for any chunk size from 1 the loop ends and returns the logs of every block of the range once, in order |
| Deposits.DepositIndex.SyncDeposits | doxa-state-sync/src/sync.rs:536-623 | three fetches and passes are the window function, whatever the chunk size |
| Deposits.WindowNote | doxa-state-sync/src/sync.rs:577-620 | per note: the last record wins, then the strongest event of the window |
| Deposits.GenesisStatus | doxa-state-sync/src/sync.rs:577-620 | in one pass, by the logs alone: the last record of each note made available, withdrawn if any log says so, else validated if any does, else pending |
| Deposits.SplitsAgreeExactly | doxa-state-sync/src/sync.rs:536-623 | all splits into consecutive windows equal one genesis pass if and only if the history is orderly |
| Deposits.WellFormedHistoriesSplit | doxa-state-sync/src/sync.rs:536-623 | histories where each note is available once, first, and validated before withdrawn, may be split anywhere |
| Deposits.DisorderlyHistory | doxa-state-sync/src/sync.rs:577-620 | a history whose result depends on the split |
| Deposits.DepositIndex.Follow | doxa-state-sync/src/sync.rs:536-623 | genesis sync and any polls leave the genesis pass over the blocks up to the highest head, and no further |
| Deposits.DepositsAfterPolls | doxa-state-sync/src/state.rs:287-293 | after any polls exactly the last record of each note available up to the highest head, with the status of its strongest event, from a block on |
| PoolConfig.MainPoolConfigTree.InsertSubpoolAtPosition | doxa-client/src/pool_config.rs:142-179 | when it succeeds, what it inserts (the zero leaf for a zero root), and when the leaf is at position id |
| PoolConfig.SubpoolOneTwice | doxa-client/src/pool_config.rs:142-179 | an accepted insertion that lands at the wrong position |
| PoolConfig.MainPoolConfigTree.SubpoolProof | doxa-client/src/pool_config.rs:182-199 | the proof at the id for a zero root, else at the indexed position of the commitment |
| PoolConfig.LastWithFinds | doxa-client/src/pool_config.rs:142-199 | a nonzero leaf is indexed at its own position if and only if no later subpool has the same leaf |
| PoolConfig.MainPoolConfigTree.RegisteredProof | doxa-client/src/pool_config.rs:182-199 | for every registered subpool the proof exists, carries its leaf, verifies, and is at its position, each with its exact condition |
| PoolConfig.Rebuild | doxa-state-sync/src/sync.rs:506-521 | succeeds if and only if the ids are 1 to k and fit; leaf i is zero for a zero root and else the commitment of i and its root; all roots zero give the empty root |
| PoolConfig.UninitialisedTree | doxa-client/src/pool_config.rs:167-171 | a config tree without an initialised subpool has the root of the empty tree |
| PoolConfig.LongestPrefixUnique | doxa-state-sync/src/sync.rs:445-479 | the longest seen prefix is determined by the seen ids |
| PoolConfig.SubpoolIndex.Assign | doxa-state-sync/src/sync.rs:446-479 | registers, buffers or ignores: next is one past the longest seen prefix, the buffer holds the later seen ids |
| PoolConfig.SubpoolIndex.AssignAll | doxa-state-sync/src/sync.rs:445-479 | the same for any sequence of events, in any order and with repetitions; known roots are kept |
| PoolConfig.SubpoolIndex.UpdateRoots | doxa-state-sync/src/sync.rs:495-504 | the last update of an id wins, other roots are unchanged |
| PoolConfig.SubpoolIndex.SyncConfigTree | doxa-state-sync/src/sync.rs:445-521 | every root after a poll; the rebuild succeeds if and only if the ids are consecutive and fit; with updates of registered subpools only, it fails only when the tree is too small |
| PoolConfig.SubpoolIndex.GenesisConfigTree | doxa-state-sync/src/sync.rs:445-521 | the genesis sync gives every registered subpool the contract's root and rebuilds unless the tree is too small; every leaf is written out |
| Account.AccountStateTree.constructor | doxa-client/src/account.rs:243-250 | the default asset takes leaf 0; map and tree agree |
| Account.AccountStateTree.InsertAsset | doxa-client/src/account.rs:289-311 | appends a new asset that is not the default while there is room; map and tree agree |
| Account.AccountStateTree.UpdateAsset | doxa-client/src/account.rs:315-332 | rewrites the leaf of a known asset and returns the previous amount; map and tree agree |
| Account.AccountStateTree.InsertOrUpdateAsset | doxa-client/src/account.rs:336-343 | when it panics, and otherwise which of the two it does |
| Account.AccountStateTree.AmountWithProof | doxa-client/src/account.rs:348-357 | the amount in the map is the one the tree proves at the asset's index |
| Account.WithdrawSlot | doxa-client/src/plonky2_gadgets/withdraw_tx/targets.rs:218-235 | the captured proof is the one of the asset's position; it folds the old leaf to the root before and the new leaf to the root after |
| Account.PadSlot | doxa-client/src/plonky2_gadgets/withdraw_tx/targets.rs:236-239 | the default leaf folds to the unchanged root if and only if the tree has a free leaf or the empty root |
| Account.FullTreePadding | doxa-client/src/plonky2_gadgets/withdraw_tx/targets.rs:236-239 | a full asset tree whose padding slot does not fold to the root |
| Account.ComputeWithdrawalSlots | doxa-client/src/plonky2_gadgets/withdraw_tx/targets.rs:194-255 | panics exactly on a default, unknown or overdrawn asset; seven chained slots from accin's root to accout's under the same hash; balances drop by what is taken, all else unchanged |
| Yul.Sbox7 | doxa-solidity/scripts/gen_poseidon_goldilocks.py:182-202 | the seventh power modulo P of inputs below 2^65, without wrapping |
| Yul.Unpack | doxa-solidity/scripts/gen_poseidon_goldilocks.py:204-258 | three sums below 2^86 are recovered from one word |
| Yul.Mds | doxa-solidity/scripts/gen_poseidon_goldilocks.py:204-258 | the packed matrix gives lane i as the circulant read from lane i around, plus 8 times lane 0 for i = 0, modulo P |
| Yul.RowIsAround | doxa-solidity/scripts/gen_poseidon_goldilocks.py:140-142 | a row of coefficients is the circulant read from its own position around, plus the corner |
| Yul.YulFullRound | doxa-solidity/scripts/gen_poseidon_goldilocks.py:364-393 | a full round in place equals the field's full round, after reducing the lanes when asked |
| Yul.Round0 | doxa-solidity/scripts/gen_poseidon_goldilocks.py:260-299 | the specialised round equals the full round on zero capacity lanes |
| YulPermutation.PackU64Words | doxa-solidity/scripts/gen_poseidon_goldilocks.py:167-176 | four 64-bit values per word |
| YulPermutation.PackedLanes | doxa-solidity/scripts/gen_poseidon_goldilocks.py:328-362 | shifting and masking recovers every packed value |
| YulPermutation.MdsPartialInit | doxa-solidity/scripts/gen_poseidon_goldilocks.py:301-326 | agrees with the eager initial matrix, without wrapping |
| YulPermutation.FastPartialRound | doxa-solidity/scripts/gen_poseidon_goldilocks.py:328-362 | a lazy round agrees with the eager one modulo P lane by lane within the growing bound; nothing wraps |
| YulPermutation.PartialBlock | doxa-solidity/scripts/gen_poseidon_goldilocks.py:423-438 | the 22 lazy rounds agree with the eager ones and lane 0 is canonical |
| YulPermutation.SettledIsEager | doxa-solidity/scripts/gen_poseidon_goldilocks.py:364-393 | reducing the lanes in round 26 gives exactly the eager lanes |
| YulPermutation.Compress | doxa-solidity/scripts/gen_poseidon_goldilocks.py:440-532 | for digests a and b packed into two words the emitted code gives the packed first four lanes of the permutation of a, b and four zeros |
| YulPermutation.HoldsOnce | doxa-solidity/scripts/gen_poseidon_goldilocks.py:479-489 | every word holds exactly one sequence of four 64-bit elements, the first in the low bits |
| YulPermutation.DigestWord | doxa-state-sync/src/contract.rs:69-78 | the word of a digest as the client packs it is one that compress reads as that digest |
| PlainPoseidon.RoundTracks | doxa-solidity/scripts/gen_poseidon_goldilocks.py:328-362 | a fast partial round is the plain one, up to the block power and the constants still carried |
| PlainPoseidon.FastIsPlain | doxa-solidity/scripts/gen_poseidon_goldilocks.py:423-438 | with factored tables the 22 fast partial rounds are the 22 plain ones: all constants, S-box on lane 0, matrix |
| PlainPoseidon.PermutationIsPoseidon | doxa-solidity/scripts/gen_poseidon_goldilocks.py:440-532 | with factored tables the emitted permutation is plain Poseidon of 30 rounds |

## Left out

- Poseidon and Keccak as concrete functions: constants are arbitrary values in range.
- PlainPoseidon.PermutationIsPoseidon: that the generator's numbers are factored tables is a hypothesis (`Factored`), a finite computation on 64-bit constants.
- Plonky2 gates as polynomial constraints, recursion, proof wrapping, serialisation and randomness.
- The curve formulas, point encoding and the constants of the offset point: group laws and "this point is minus 2^319 times the offset" are hypotheses.
- RPC, HTTP, SQL and locking: the provider is a sequence of blocks or of events; failures of calls are not modelled.
- Iteration order of hash maps: where the source iterates over one, the model uses a set or the order of the event sequence.
- Overflow of 64-bit block numbers and subpool ids; a chunk size of zero, with which `fetch_logs` does not end.
- On-chain subpool roots that are not canonical: `sync_config_tree` then stops before the rebuild; the model's roots are decoded.
- Merkle.MerkleTree.UpdateConsecutivePaths: a range that leaves a gap after the stored leaves is excluded, as by the source's debug assertion.
- `new_from_asset_map` and `is_fresh`: `new` already seeds asset 0, so neither works as a round trip; the other account fields (nonce, keys) of a withdrawal.
- `slot_exists_out` as the circuit uses it: the model states the slots on native leaves, where a zero amount keeps its own leaf.
- The 256-bit width of amounts: subtraction is checked for underflow, and amounts only decrease.
- The 256-bit addition-chain gadget and the transaction circuits' wiring.
- Non-canonical internal words of field elements: `hash_to_bytes32` prints the raw word, the model's elements are canonical.
- Quintic.Sqrt: the zero argument is excluded, since the code inverts zero there.
