# Engram in Dafny

Engram is a proof-of-storage protocol. Providers seal files into chained values under a Merkle root, and prove in a
folded arithmetic circuit that they still know the challenged chunks. Workers drawn by a stake-weighted lottery read
the providers' blobs from a data-availability layer and give each deal a verdict. An aggregator reconciles the workers'
results and settles the epoch with one leaf per deal under a Merkle root.

This project models that protocol from the chunk bytes to the settlement leaf and proves what its parts promise, for
all inputs. Loops and objects of the original are methods and classes here, each proved against a specification
function; the properties are lemmas about those functions.

## How the model is cut

| files | part |
|---|---|
| `Wrappers`, `Lists`, `Numbers`, `Bytes`, `Field`, `Hashing` | optional values and outcomes, slices, arithmetic, byte strings, the scalar field, hash compositions and collision finders |
| `R1cs`, `Poseidon2`, `Gadgets`, `GadgetSynthesis` | the constraint system, the permutation, and the gadgets that must mean it |
| `MerkleTree`, `Chunking`, `Storage`, `Sealing` | the sealed sector |
| `StepCircuit`, `StepSynthesis`, `EpochRun`, `EngramProve` | one challenge as constraints, its synthesis, runs of N challenges, the honest prover |
| `Nmt`, `DataRoot` | namespaced trees and the data root a guest recomputes |
| `KeccakTree`, `SettlementTree` | the off-circuit tree and what its leaves commit to |
| `Lottery`, `Rotation`, `Duty` | drawing workers, runs of the draw, and what is booked on the workers over a run |
| `Verdicts`, `Reconcile`, `Aggregate` | joining results, settling an epoch at once or fold by fold, the state chain |
| `Blobs`, `Membership`, `ShardVerification`, `EpochCoverage` | filtering blobs, the registry, one cell's verdicts, exact coverage |
| `Publishing`, `Network` | a whole epoch over the open layer, decoys included |
| `Clock`, `Derivation` | the schedule, challenge spreading, cell derivation |

Hashes (`hash_2` where its inside is not the subject, keccak, SHA-256) are parameters: total functions about which
nothing is assumed. Binding theorems therefore never assume injectivity. Each computes a candidate collision from the
two objects compared: `Genuine` says that a candidate, if there is one, really is two different inputs with one digest,
and the theorem says that without a candidate the objects are equal.

A circuit is a `Shape`, the growing list of rank-one constraints that a setup would fix, plus an assignment. For every
gadget there is the shape, a soundness lemma over every satisfying assignment, and a synthesis method that records
exactly that shape and computes the honest values. A verified proof is read as "each step's constraints hold and the
states are chained".

## What turned out not to hold

The code is modelled as it is. Where a comment or the intent says more than the code does, a lemma shows the input and
another gives the exact condition.

- Sealing does not bind the length of a file: a trailing zero byte changes nothing (`PaddingIsInvisible`). What a root
  fixes is the sector with its zeros, and nothing past its end (`SealedRootExactly`), so files that fit and have one root
  are the same file exactly when they are of one length (`SealingBindsExactly`), in particular when they fill their
  chunks (`SealingBinds`).
- Zeros that were sealed after the end of a short file cannot be proved: sealing pads, reading a chunk back does not, so
  the prover stops at the first challenge the file does not hold in full (`SealedNotAlwaysReadable`, `ProveEpoch`).
- Starting a digest at the length keeps byte strings apart that have as many limbs (`DigestBinds`). With different numbers
  of limbs it rules out nothing by itself (`LengthMayBeAFold`); `DigestExactly` is the exact condition.
- Inclusion in a namespaced tree guesses a sibling's side from its namespaces. A right neighbour that consists of the
  node's own namespace only is taken for a left one, so an honest proof is refused (`SameNamespaceNeighbour`) unless the
  two hash alike; the exact condition is `InclusionExactly`. A node that holds a whole namespace is never affected
  (`CompleteProofAccepted`). The shares are joined before any sibling is looked at, so only the leaves of a single node
  can be proved at all (`AcceptedIsANode`, `UnalignedRunRefused`).
- The range proof's `start` and `end` are never looked at, so they are not part of the model.
- The data root of nothing is 32 zero bytes, where section 2.1 of RFC 6962 hashes the empty string; `DataRootIsStandard`
  is the exact condition, and every non-empty list agrees (`LevelRootIsMth`).
- The off-circuit Merkle root alone does not fix the list (`CountMatters`); lists of one root are equal exactly when they
  are of one length (`RootAndCountBind`).
- A suspended worker sits out only while enough others are out of suspension for all places (`SuspendedSitOut`,
  `StruckSitsOut`); otherwise suspensions do not count at all (`TooFewAwake`).
- The adaptive cap of the lottery is described as leaving room at any size. Rounding down loses room, in small networks
  (`CapFallsShort`) and in large ones (`CapFallsShortInLargeNetwork`); `CapLeavesRoomExactly` says when, for every size.
- Folding deadline by deadline equals aggregating at once when full coverage is asked for (`IncrementalEqualsBatch`),
  except in an epoch of no deadlines (`NoDeadlines`). Without full coverage a deadline nobody answered for is accepted at
  once and refused as a fold (`UnansweredDeadline`); the exact condition is `IncrementalExactly`.
- The last count check in `aggregate_epoch` is described as unreachable. One key in two cells reaches it
  (`OneKeyInTwoCells`); `CoverageIsExact` says which refusal every other registry meets.
- A provider that lost its data still passes exactly if its sealed root is all 0xff, since that is the filler it posts
  (`PayloadVerifies`).
- A replayed membership log does not fix its entries. A field shorter than 32 bytes is one with its zero-padded form
  (`ShortFieldsPadAlike`), longer fields lose the boundary between them (`LongFieldsLoseBoundary`), and a prefix may
  happen to replay to the genesis value; `ReplayBinds` is the exact condition for any entries and `SizedReplayBinds` for
  fields of at most 32 bytes.

## Model

| member | source | states |
|---|---|---|
| Poseidon2.Poseidon2Permutation | circuit/core_primitives/src/poseidon2.rs:125-175 | three round loops (4 full, 56 partial, 4 full) sharing one constant counter run the single indexed sequence of 64 rounds |
| Poseidon2.Pow5Means | circuit/core_primitives/src/poseidon2.rs:117-121 | the S-box is the fifth power modulo the field |
| Poseidon2.RoundMeans | circuit/core_primitives/src/poseidon2.rs:136-172 | each round in numbers: rounds 4 to 59 raise only the first element and weigh the last three times, the other eight raise all three and weigh it twice |
| Poseidon2.PermutationMeans | circuit/core_primitives/src/poseidon2.rs:125-175 | one mixing of the input with the full matrix, then 64 rounds |
| R1cs.ConstraintSystem.AllocVar | circuit/core_primitives/src/poseidon2_gadget.rs:13-25 | a new variable extends the assignment, records itself in the shape and disturbs no old constraint |
| R1cs.ConstraintSystem.AddConstraint | circuit/core_primitives/src/poseidon2_gadget.rs:27-70 | a constraint is recorded, and the system is satisfied afterwards exactly when it was and the constraint holds |
| R1cs.ConstraintSystem.AllocBits | circuit/prover/src/proving.rs:303-303 | strict decomposition allocates the canonical bits and keeps a satisfied system satisfied |
| Gadgets.Pow5Sound | circuit/core_primitives/src/poseidon2_gadget.rs:13-25 | every assignment satisfying the three products carries the fifth power |
| Gadgets.PermutationSound | circuit/core_primitives/src/poseidon2_gadget.rs:73-198 | every assignment satisfying the permutation's constraints carries the native permutation of its inputs |
| Gadgets.Hash2Sound | circuit/core_primitives/src/poseidon2_gadget.rs:201-221 | every satisfying assignment carries the native two-to-one hash |
| Gadgets.Hash4Sound | circuit/core_primitives/src/poseidon2_gadget.rs:223-236 | every satisfying assignment carries the native four-to-one hash |
| Gadgets.ChainSound | circuit/core_primitives/src/poseidon2_gadget.rs:286-308 | every satisfying assignment carries the native left fold from zero |
| Gadgets.SwapMeaning | circuit/core_primitives/src/poseidon2_gadget.rs:238-284 | with a boolean condition the two swap constraints hold exactly for the swapped, or unswapped, pair |
| Gadgets.SwapSound | circuit/core_primitives/src/poseidon2_gadget.rs:238-284 | every satisfying assignment of the swap carries the pair in the order the condition asks for |
| GadgetSynthesis.PermutationGadget | circuit/core_primitives/src/poseidon2_gadget.rs:73-198 | synthesis records the permutation's shape, computes the native values and leaves a satisfied system satisfied |
| GadgetSynthesis.Hash2Gadget | circuit/core_primitives/src/poseidon2_gadget.rs:201-221 | the same for the two-to-one hash |
| GadgetSynthesis.Hash4Gadget | circuit/core_primitives/src/poseidon2_gadget.rs:223-236 | the same for the four-to-one hash |
| GadgetSynthesis.ConditionalSwapGadget | circuit/core_primitives/src/poseidon2_gadget.rs:238-284 | the same for the conditional swap |
| GadgetSynthesis.HashChainGadget | circuit/core_primitives/src/poseidon2_gadget.rs:286-308 | the same for the hash chain |
| MerkleTree.Build | circuit/core_primitives/src/merkle_tree.rs:21-45 | the level loop builds every level and the root of a tree on a power-of-two number of leaves |
| MerkleTree.RootIsTree | circuit/core_primitives/src/merkle_tree.rs:21-45 | the levels end in the tree over left half and right half, for every height |
| MerkleTree.GenerateProof | circuit/core_primitives/src/merkle_tree.rs:48-64 | the proof is the sibling path and the index's bits |
| MerkleTree.VerifyMerkleProof | circuit/core_primitives/src/merkle_tree.rs:68-93 | accepts exactly the openings whose bits spell the index and whose climb ends at the root |
| MerkleTree.PathOpens | circuit/core_primitives/src/merkle_tree.rs:21-93 | every leaf's generated path climbs to the root |
| MerkleTree.ClimbBinds | circuit/core_primitives/src/merkle_tree.rs:68-93 | an accepted opening shows the leaf at its index, or a collision |
| MerkleTree.RootBinds | circuit/core_primitives/src/merkle_tree.rs:21-45 | equal roots mean equal leaves, or a collision |
| Chunking.LimbsInjective | circuit/core_primitives/src/chunking.rs:34-44 | chunks of one length are fixed by their 31-byte limbs |
| Chunking.LimbAt | circuit/core_primitives/src/chunking.rs:34-44 | every limb, the last short one included, is the little-endian value of its own window and below 256 to its length |
| Chunking.LimbsDecode | circuit/core_primitives/src/chunking.rs:34-44 | the limbs decode back to the bytes, 31 from each and the rest from the last, for every length |
| Chunking.LimbsEncode | circuit/core_primitives/src/chunking.rs:34-44 | any limbs are those of the bytes they decode to exactly when each fits its window |
| Chunking.FoldLimbs | circuit/core_primitives/src/chunking.rs:51-57 | the loop is the hash fold that starts at the byte length |
| Chunking.DigestExactly | circuit/core_primitives/src/chunking.rs:46-63 | two byte strings of any lengths have one digest exactly when the shorter's limbs end the longer's and the longer's other limbs fold to the shorter's length, or a collision |
| Chunking.DigestBinds | circuit/core_primitives/src/chunking.rs:46-63 | byte strings of as many limbs have one digest exactly when they are equal, or a collision |
| Chunking.LengthMayBeAFold | circuit/core_primitives/src/chunking.rs:46-57 | 31 bytes whose limb turns the length 62 into 31 can be put in front of any 31 bytes without changing the digest |
| Storage.ProverStorage.InsertState | circuit/prover/src/storage.rs:73-75 | writes one state; an index outside the table changes nothing |
| Storage.ProverStorage.InsertReplica | circuit/prover/src/storage.rs:85-87 | writes one replica; an index outside the table changes nothing |
| Sealing.FillChunk | circuit/prover/src/sealing.rs:136-147 | however short the single reads, the buffer takes the next bytes of the file until it is full or the file ends, and the reader moves on by as many |
| Sealing.ReadChunk | circuit/prover/src/sealing.rs:86-92 | the reused buffer holds the chunk after the ones read before, zeros after the end of the file |
| Sealing.SealSectorStreaming | circuit/prover/src/sealing.rs:56-131 | one pass over the file fills storage with every state, every replica and the tree of the sealed sector |
| Sealing.StatesAreFold | circuit/prover/src/sealing.rs:78-117 | the states are the running fold of the replicas, from the replica id on |
| Sealing.SealedChunksBind | circuit/prover/src/sealing.rs:86-122 | sealed roots are equal exactly when the chunks and the replica ids are, or a collision shows in tree, state chain, replica or limb fold |
| Sealing.SealedRootExactly | circuit/prover/src/sealing.rs:86-147 | for any two files: equal roots exactly when replica ids and the bytes of the sector are equal, zeros after the end of a short file included, or a collision |
| Sealing.SealingBindsExactly | circuit/prover/src/sealing.rs:86-147 | files that fit and seal to one root are the same file exactly when they are of one length, or a collision |
| Sealing.SealingBinds | circuit/prover/src/sealing.rs:86-122 | hence full-size files of one chunk count and size with one sealed root are the same file of the same replica, or a collision |
| Sealing.PaddingIsInvisible | circuit/prover/src/sealing.rs:86-93 | a trailing zero byte leaves the sealed root of any file as it is |
| StepCircuit.PublicSound | circuit/prover/src/proving.rs:104-164 | the public section carries the folded values over and counts one up |
| StepCircuit.ReplicaSound | circuit/prover/src/proving.rs:166-256 | satisfying limbs, states and index give the native replica of the chunk and the native state transition |
| StepCircuit.ChallengeSound | circuit/prover/src/proving.rs:258-351 | the opened index is forced to be one more than the low bits of the native seed |
| StepCircuit.PathSound | circuit/prover/src/proving.rs:353-434 | the leaf hashes up to the public root along the forced index, native climb and all |
| StepCircuit.AccumulateSound | circuit/prover/src/proving.rs:436-466 | the accumulator absorbs the native hash of index, state and replica |
| StepCircuit.StepSound | circuit/prover/src/proving.rs:99-477 | step soundness: any assignment satisfying every constraint opens the challenged leaf natively and ends in the native next state |
| StepSynthesis.Synthesize | circuit/prover/src/proving.rs:99-477 | synthesis records one shape fixed by the configuration whatever the values, and the assigned values satisfy it exactly when they are honest |
| EpochRun.Poseidon2Chain | circuit/prover/src/bin/engram_prove.rs:41-47 | the host's loop is the hash fold the circuit constrains |
| EpochRun.DerivedIsLowBits | circuit/prover/src/bin/engram_prove.rs:51-67 | for a power-of-two chunk count up to 2^63 the host's derivation through 64 bits equals the circuit's low bits, shifted by one |
| EpochRun.RunProgress | circuit/prover/src/proving.rs:515-563 | after k satisfied steps the public context is unchanged, the counter is k more, the accumulator is the native fold |
| EpochRun.RunStep | circuit/prover/src/proving.rs:515-563 | step k of any satisfying run opens the leaf the host derives for challenge k + 1 against the run's own root |
| EpochRun.RunSafety | circuit/prover/src/proving.rs:533-563 | whole-run safety for every number of steps: the final state field by field, the accumulator being the hash fold from the replica id over what was opened, every opening, every challenged index |
| EpochRun.OpeningBinds | circuit/core_primitives/src/chunking.rs:51-63 | an accepted opening against a sealed root carries the sealed chunk's limbs and previous state, or a collision |
| EpochRun.Possession | circuit/prover/src/proving.rs:99-477 | a satisfying run against a sealed root holds, in each step, exactly the challenged chunk's limbs, which decode to the chunk's bytes, or its own values exhibit a collision |
| EngramProve.HeightNeeded | circuit/prover/src/bin/engram_prove.rs:106-114 | the height the prover demands is the height of the tree, for every power of two |
| EngramProve.SealedOpens | circuit/prover/src/bin/engram_prove.rs:137-166 | sealing completeness: what sealing stored opens every challenge |
| EngramProve.SealedNotAlwaysReadable | circuit/prover/src/storage.rs:106-122 | after sealing every chunk has its state, and exactly those the file holds in full can be read back |
| EngramProve.AssembleChallenge | circuit/prover/src/bin/engram_prove.rs:143-166 | from a file that holds the derived chunk in full, the witness assembled from storage is the sealed opening of that chunk |
| EngramProve.ProveStep | circuit/prover/src/proving.rs:99-477 | an honest step satisfies the circuit and ends in the native next state |
| EngramProve.ProveEpoch | circuit/prover/src/bin/engram_prove.rs:79-175 | for every file, full or short: the honest prover makes a run exactly when the height given is the tree's, there is a challenge, and the file holds every challenged chunk in full; and the run satisfies the circuit |
| Nmt.BytesRoundTrip | sp1_verify/guest/src/nmt.rs:82-102 | smallest namespace, largest namespace, digest, at their offsets; hash bytes decode to the hash they came from, only 90 bytes decode, and re-encoding gives them back |
| Nmt.PreimageLayout | sp1_verify/guest/src/nmt.rs:127-156 | a node hashes a one, the left child and the right child at their offsets, a leaf a zero and the share |
| Nmt.HashShares | sp1_verify/guest/src/nmt.rs:183-197 | shares are hashed in order up to the first fault, which is reported |
| Nmt.CheckSharesMeans | sp1_verify/guest/src/nmt.rs:183-197 | exactly the long enough shares in namespace order pass |
| Nmt.RunTreeOfJoinLevel | sp1_verify/guest/src/nmt.rs:225-237 | joining one level, an odd last node carried up, keeps the tree that splits at the largest power of two below the length, for every run |
| Nmt.RunShape | sp1_verify/guest/src/nmt.rs:210-240 | over 2^h shares that tree is perfect; over more, up to twice as many, its left part is the perfect tree over the first 2^h |
| Nmt.PerfectIsRunTree | sp1_verify/guest/src/nmt.rs:210-240 | a perfect tree is the tree the verifier builds over its own leaves |
| Nmt.PerfectTreeVerifies | sp1_verify/guest/src/nmt.rs:174-240 | all leaves of a perfect tree in namespace order are accepted against its root with no siblings |
| Nmt.FoldWithSiblings | sp1_verify/guest/src/nmt.rs:210-240 | the loop computes the hash of one tree: the tree over the run that splits at the largest power of two below its length, then the siblings attached |
| Nmt.VerifyInclusion | sp1_verify/guest/src/nmt.rs:174-204 | the verdict, error cases in their order, by the recursive tree over the shares with the siblings attached, against the root |
| Nmt.VerifyCompleteness | sp1_verify/guest/src/nmt.rs:251-259 | refuses exactly when some sibling's namespaces meet the wanted one |
| Nmt.VerifyNamespaceComplete | sp1_verify/guest/src/nmt.rs:263-272 | inclusion first, completeness second |
| Nmt.HashBounds | sp1_verify/guest/src/nmt.rs:144-157 | an honest node's smallest and largest namespaces bound every leaf below it |
| Nmt.EqualHashFits | sp1_verify/guest/src/nmt.rs:127-157 | a proof tree with the root of an honest tree has its shape and shares, or a collision shows |
| Nmt.AcceptedIsANode | sp1_verify/guest/src/nmt.rs:174-240 | accepted shares are the leaves of one node of the honest tree, which splits at the largest power of two below their number, and the siblings are the hashes along one path up from it, or a collision |
| Nmt.NamespaceComplete | sp1_verify/guest/src/nmt.rs:127-272 | namespace completeness: accepted shares are the leaves of one node, a contiguous run of the honest tree's leaves, and no leaf outside has the namespace, or a collision |
| Nmt.UnalignedRunRefused | sp1_verify/guest/src/nmt.rs:206-240 | a run that is no node, such as the middle two of four leaves, has no accepted proof whatever the siblings, or a collision |
| Nmt.InclusionExactly | sp1_verify/guest/src/nmt.rs:210-240 | an honest inclusion proof passes exactly when every neighbour lies on the side its namespaces suggest or hashes like the node beside it, or a collision on the path |
| Nmt.SameNamespaceNeighbour | sp1_verify/guest/src/nmt.rs:210-240 | of two different shares of one namespace the left one cannot be proved included |
| Nmt.CompleteProofAccepted | sp1_verify/guest/src/nmt.rs:263-272 | in a tree in namespace order the honest proof of a node holding all of a namespace is accepted |
| DataRoot.BinaryMerkleRoot | sp1_verify/guest/src/nmt.rs:290-311 | the level loop with the odd node carried is the level-by-level root |
| DataRoot.ComputeDataRoot | sp1_verify/guest/src/nmt.rs:279-288 | the data root is the standard's tree hash of the row and column roots, and zeros for none |
| DataRoot.NodeLayout | sp1_verify/guest/src/nmt.rs:290-311 | a node hashes a one, its left child and its right child |
| DataRoot.DataRootIsStandard | sp1_verify/guest/src/nmt.rs:279-294 | the data root is the standard's tree hash exactly when there is a root to hash, or the empty string hashes to zeros |
| DataRoot.LevelRootIsMth | sp1_verify/guest/src/nmt.rs:279-311 | building level by level equals splitting at the largest power of two below n (RFC 6962, section 2.1), for every non-empty list |
| DataRoot.MthBinds | sp1_verify/guest/src/nmt.rs:279-311 | equal roots of non-empty lists mean equal lists, lengths included, or a collision |
| DataRoot.DataRootBinds | sp1_verify/guest/src/nmt.rs:279-288 | one data root commits to the sequence of row and column roots |
| KeccakTree.MerkleRoot | common/src/engram_common/crypto.py:87-99 | the loop over padded levels is the recursive root; no leaves give zero |
| KeccakTree.NodeLayout | common/src/engram_common/crypto.py:83-84 | a node hashes a one, its left child and its right child |
| KeccakTree.RootIsTree | common/src/engram_common/crypto.py:87-99 | the level loop builds the tree of the least height that holds the list, left half first, a missing right half replaced by the left one, for every non-empty list |
| KeccakTree.MerkleProof | common/src/engram_common/crypto.py:102-120 | the loop collects the sibling path; an index past the padding of the list fails at its first sibling |
| KeccakTree.MerkleVerify | common/src/engram_common/crypto.py:123-135 | accepts exactly when the climb by the index's bits ends at the root |
| KeccakTree.PathVerifies | common/src/engram_common/crypto.py:87-135 | every index's proof verifies, for every non-empty list, odd sizes included, and an index on the padding proves the last leaf |
| KeccakTree.RootBinds | common/src/engram_common/crypto.py:87-99 | lists of digests of one length have one root exactly when they are equal, or a collision |
| KeccakTree.NewSlotTree | common/src/engram_common/crypto.py:160-164 | a slot tree is made exactly for capacities zero or a power of two |
| KeccakTree.SlotTree.Set | common/src/engram_common/crypto.py:166-167 | rewrites one slot and no other |
| KeccakTree.SlotTree.Clear | common/src/engram_common/crypto.py:169-170 | zeroes one slot and no other |
| KeccakTree.SlotTree.Proof | common/src/engram_common/crypto.py:172-177 | the path of a slot, which climbs from the slot's content to the root |
| KeccakTree.SlotUpdateKeepsPath | common/src/engram_common/crypto.py:143-178 | after a slot is rewritten its old path climbs from the new content to the new root |
| SettlementTree.BodyInjective | aggregator/src/aggregator/aggregate.py:40-76 | hence one body is one leaf |
| SettlementTree.BodyRoundTrip | aggregator/src/aggregator/aggregate.py:40-76 | every leaf is read back from its 133 bytes, field by field at its offset, numbers big-endian |
| SettlementTree.AcceptedLeafIsListed | common/src/engram_common/crypto.py:65-135 | a tagged leaf that verifies against a list's root is in the list, for any path length and index, or a collision: no inner node passes for a leaf |
| SettlementTree.EqualRootsEqualTrees | common/src/engram_common/crypto.py:65-99 | equal roots mean equal trees, or a collision |
| SettlementTree.RootAndCountBind | common/src/engram_common/crypto.py:65-99 | lists with one root are equal exactly when they are of one length, or a collision |
| SettlementTree.CountMatters | common/src/engram_common/crypto.py:87-99 | for every odd number of leaves above one, repeating the last leaf keeps the root |
| SettlementTree.RedeemedLeafWasSettled | aggregator/src/aggregator/aggregate.py:40-76 | a settlement record that verifies against the root was settled, as a record, or a collision |
| Lottery.SelectedCount | worker/src/worker/lottery.py:209-253 | a lottery fills exactly min(r, pool) places with different workers, whatever the filters dropped and whatever the stakes |
| Lottery.EligibleMeans | worker/src/worker/lottery.py:211-229 | on the fields of the records: who may be drawn are the workers out of suspension, of those the rested ones, of those the ones with room, each condition dropped when it leaves fewer than the places, in pool order |
| Lottery.SuspendedSitOut | worker/src/worker/lottery.py:78-79 | while enough workers are out of suspension for all places, every drawn one is |
| Lottery.TooFewAwake | worker/src/worker/lottery.py:211-215 | otherwise suspensions do not count: the draw is the one with nobody suspended |
| Lottery.LotLayout | worker/src/worker/lottery.py:239-241 | behind the beacon four bytes say the shard and two the draw, and 128 bits of the digest are taken |
| Lottery.NextDrawn | worker/src/worker/lottery.py:231-247 | place j goes to the worker, of the eligible ones not drawn yet, on whose stretch of the running total of stakes the j-th random value falls, and to the first when they have no stake |
| Lottery.WinnerStretch | worker/src/worker/lottery.py:239-247 | with non-negative stakes a position wins exactly for the residues in its stretch of the running total |
| Lottery.StakeShare | worker/src/worker/lottery.py:235-247 | exactly stake-many of the residues pick a given position |
| Lottery.FindWinner | worker/src/worker/lottery.py:242-247 | the running-total loop stops at the first position past the value |
| Lottery.DrawWorkers | worker/src/worker/lottery.py:231-247 | the shrinking-list loop draws what the specification draws |
| Lottery.FilterPool | worker/src/worker/lottery.py:211-229 | three filters, each dropped when it leaves fewer than r, and which of them were dropped; what they keep is `EligibleMeans` |
| Lottery.Book | worker/src/worker/lottery.py:249-251 | the chosen workers are dated and counted, no other record changes |
| Lottery.WorkerLottery | worker/src/worker/lottery.py:180-253 | the call returns the selection made on the records before it and updates exactly the chosen records, the counts and the statistics |
| Lottery.WorkerEntry.RecordOutcome | worker/src/worker/lottery.py:297-315 | one outcome takes a record to the specified next one |
| Lottery.MissesAreTheRun | worker/src/worker/lottery.py:309-315 | for every history of outcomes of a worker that starts clean, the counter is the current run of misses modulo the threshold, and identity, stake and last assignment are untouched |
| Lottery.SuspendedByTheLatestStrike | worker/src/worker/lottery.py:297-315 | for every such history the suspension dates from the latest miss that completed a whole threshold of misses in a row, whatever was delivered since, and is untouched if there was none |
| Rotation.BusyCount | worker/src/worker/lottery.py:81-83 | no more workers are busy than recent calls could have chosen |
| Rotation.RotationBound | worker/src/worker/lottery.py:144-161 | with the required number of workers out of suspension the cooldown is never relaxed over any run, and a worker's cells are at least cooldown + 1 deadlines apart |
| Rotation.RotationNeeds | worker/src/worker/lottery.py:144-161 | the required number is sharp: a full load that never relaxes uses that many different workers |
| Rotation.CountsNeverPassCap | worker/src/worker/lottery.py:209-251 | no assignment count passes the cap over a run in which the cap is observed |
| Rotation.CapLeavesRoomExactly | worker/src/worker/lottery.py:119-141 | for every number of workers, the cap leaves room for every place exactly when the places are no more than the workers or rounding down loses nothing: an even division under the r/n share, enough slack in twentieths beyond |
| Rotation.CapFallsShort | worker/src/worker/lottery.py:119-141 | three cells for pairs out of four workers do not fit under the cap |
| Rotation.CapFallsShortInLargeNetwork | worker/src/worker/lottery.py:119-141 | 39 cells for pairs out of 41 workers do not fit under the cap |
| Rotation.Assign | worker/src/worker/lottery.py:180-253 | one call on the worker objects extends a run by one call and keeps records, counts and run in step, and the relaxed-cap flag says whether that call passed over the cap |
| Duty.DrawShard | worker/src/worker/lottery.py:180-253 | one call on the worker objects draws by the specification, dates exactly those drawn and counts them |
| Duty.BookOutcome | worker/src/worker/lottery.py:297-315 | books on one drawn worker that it delivered exactly if it is not dead, and leaves the others as they are |
| Duty.RecordIsHistory | worker/src/worker/lottery.py:297-315 | over any run a worker's record is the history of its own jobs |
| Duty.LiveIsNeverSuspended | orchestrator/src/orchestrator/scenarios.py:60-64 | over any run a worker that is not dead is never suspended and has no miss once it was drawn |
| Duty.DeadIsSuspended | orchestrator/src/orchestrator/scenarios.py:60-63 | over any run a dead worker that starts clean has one miss for each job past the last group of three, and its suspension ends eight deadlines after the job that completed that group |
| Duty.StruckSitsOut | worker/src/worker/lottery.py:211-215 | after a strike no call before the suspension ends draws the worker while enough others are out of suspension, whatever it delivered since |
| Duty.DeadComesInThrees | worker/src/worker/lottery.py:45-56 | so the jobs of a dead worker come in groups of three with eight deadlines without one after each, while enough others are out of suspension |
| Duty.ServedIsRun | worker/src/worker/lottery.py:180-253 | runs with outcomes booked are runs as rotation and the cap are proved about |
| Verdicts.ReconcileIsJoin | common/src/engram_common/verdict.py:39-41 | reconciling two verdicts is the least upper bound in the order of evidence |
| Verdicts.ReconcileOutcomes | common/src/engram_common/verdict.py:28-41 | one pass is enough to pass, one failure without a pass to fail, and nothing comes of nothing |
| Reconcile.MergeInto | aggregator/src/aggregator/reconcile.py:149-160 | the dictionary loop merges keywise, the stronger verdict winning |
| Reconcile.ReconcileShardResults | aggregator/src/aggregator/reconcile.py:103-161 | the loop is the fold of single steps, first failure first |
| Reconcile.ReconciledMeans | aggregator/src/aggregator/reconcile.py:103-161 | results are accepted exactly when each is complete and no two disagree on registry or cell size, and the outcome is keywise the strongest verdict |
| Reconcile.OneSnapshotFailure | aggregator/src/aggregator/reconcile.py:103-147 | results of one registry are refused for their counts or not at all |
| Reconcile.Refusal | aggregator/src/aggregator/reconcile.py:103-147 | the refusal is that of the first result not consistent with those before it: another registry than the first result's is a snapshot mismatch, anything else a mismatch of counts |
| Reconcile.ReconciledIgnoresOrder | aggregator/src/aggregator/reconcile.py:103-161 | permuting or repeating results changes neither acceptance nor outcome |
| Reconcile.OneTruthfulSuffices | aggregator/src/aggregator/reconcile.py:103-161 | one truthful result among results never above the truth yields the truth |
| Aggregate.SortKeys | aggregator/src/aggregator/aggregate.py:242-242 | the keys once each in increasing order |
| Aggregate.SortedKeysSorts | aggregator/src/aggregator/aggregate.py:242-242 | the specified order lists exactly the keys, strictly increasing |
| Aggregate.HashLeaves | aggregator/src/aggregator/aggregate.py:255-255 | the root over the leaf digests, or a refusal when some leaf cannot be encoded |
| Aggregate.SumSizes | aggregator/src/aggregator/aggregate.py:280-280 | the loop adds up the cells' sizes |
| Aggregate.Saturation | aggregator/src/aggregator/aggregate.py:299-302 | the loop finds the largest reported saturation, zero without any |
| Aggregate.MaxSaturationMeans | aggregator/src/aggregator/aggregate.py:299-302 | that value is reported by some result and exceeded by none |
| Aggregate.AggregateEpoch | aggregator/src/aggregator/aggregate.py:185-332 | the outcome, refusals in their order, public values field by field; what the leaves pay is `LeafPays`, what the fields carry `PublishedValues` |
| Aggregate.AcceptedCoversGrid | aggregator/src/aggregator/aggregate.py:220-287 | an accepted epoch covers exactly the grid, its count is the sum of cell sizes and the number of leaves, one leaf per key with the strongest verdict |
| Aggregate.LeafIsStrongest | aggregator/src/aggregator/aggregate.py:241-254 | each leaf of an accepted epoch, with or without full coverage, carries the strongest verdict any result gives its key |
| Aggregate.LeafPays | aggregator/src/aggregator/aggregate.py:241-254 | each leaf of an accepted epoch, read off the results: 10^12 wei and 16 of 16 challenges exactly if some result passes its key, 10^13 slashed exactly if none does and some fails it |
| Aggregate.EpochPays | aggregator/src/aggregator/aggregate.py:241-254 | the rewards add up to 10^12 times the number of keys some result passes, the slashes to 10^13 times the number failed and never passed |
| Aggregate.PublishedValues | aggregator/src/aggregator/aggregate.py:255-328 | what was asked with comes out each in its own field, with the roots over the leaves and over the results and the next link of the state chain |
| Aggregate.AggregatedIgnoresOrder | aggregator/src/aggregator/aggregate.py:185-332 | permuting or repeating results changes nothing but the batch root |
| Aggregate.BatchRootExactly | aggregator/src/aggregator/aggregate.py:316-316 | batch roots over as many results are equal exactly when the results' roots are, in order, or a collision |
| Aggregate.BatchRootSeesOrder | aggregator/src/aggregator/aggregate.py:316-316 | swapping two results with different roots, anywhere in any list, changes the batch root, or a collision |
| Aggregate.FoldDeadline | aggregator/src/aggregator/aggregate.py:136-162 | folds exactly the results of its deadline and registry that cover every shard, first fault first |
| Aggregate.FirstFaultAt | aggregator/src/aggregator/aggregate.py:143-152 | the refusal is that of the first result of another deadline or registry, the deadline looked at first |
| Aggregate.AggregateEpochIncremental | aggregator/src/aggregator/aggregate.py:165-182 | folds of one registry are concatenated and aggregated |
| Aggregate.IncrementalExactly | aggregator/src/aggregator/aggregate.py:136-182 | for any list of groups and whether or not full coverage is asked for: folding and aggregating succeeds exactly when there is a group, the batch succeeds and every group covers every shard, and then with one outcome |
| Aggregate.IncrementalEqualsBatch | aggregator/src/aggregator/aggregate.py:136-182 | with full coverage asked for and at least one deadline, folding succeeds exactly when aggregating the concatenation does, with one outcome |
| Aggregate.NoDeadlines | aggregator/src/aggregator/aggregate.py:171-172 | with no deadlines at once succeeds and incrementally fails |
| Aggregate.UnansweredDeadline | aggregator/src/aggregator/aggregate.py:136-182 | without full coverage an unanswered deadline is accepted at once and refused as a fold |
| Aggregate.OnlySettledLeavesRedeem | aggregator/src/aggregator/aggregate.py:241-255 | a leaf that verifies against an accepted epoch's results root is one of its leaves, or a collision |
| Aggregate.PublicValuesBindLeaves | aggregator/src/aggregator/aggregate.py:255-328 | results root and count together fix the leaves, or a collision |
| Aggregate.StateChainBinds | aggregator/src/aggregator/aggregate.py:306-312 | two histories of any lengths have one state root exactly when the shorter ends the longer and the rest leads back to genesis, so histories of one length are equal, or a collision |
| Aggregate.StateLayout | aggregator/src/aggregator/aggregate.py:306-312 | previous root, epoch in eight little-endian bytes, results root, commitment and registry at their offsets |
| Aggregate.HistoryIsChain | aggregator/src/aggregator/aggregate.py:306-312 | accepted epochs that each start from the root published before publish the state chain over their records |
| Aggregate.OneRootOneHistory | aggregator/src/aggregator/aggregate.py:306-312 | two histories of as many accepted epochs with one state root settled the same results roots, or a collision |
| Blobs.FilterBlobs | common/src/engram_common/blob.py:203-280 | the ladder keeps what the specification keeps, and every dropped blob is counted on one rung |
| Blobs.PassesMeans | common/src/engram_common/blob.py:233-270 | a blob passes exactly when its whole header is the wanted one, its key is expected and its signer is the registered one |
| Blobs.BestIsEarliest | common/src/engram_common/blob.py:233-280 | per expected key the kept blob passes every rung and none that does is earlier |
| Blobs.FilterIgnoresOrderAndJunk | common/src/engram_common/blob.py:203-280 | with distinct positions, reordering or adding blobs that do not pass changes nothing |
| Blobs.JunkIsInvisible | common/src/engram_common/blob.py:233-280 | inserting blobs that do not pass, anywhere, changes nothing |
| Blobs.ForeignSignerFails | common/src/engram_common/blob.py:262-270 | a blob with an unregistered or foreign signer does not pass |
| Blobs.MemoryDA.Submit | common/src/engram_common/da.py:133-143 | appends at the current height under the next index of that block; wrong sizes are refused |
| Blobs.MemoryDA.Read | common/src/engram_common/da.py:145-147 | everything in the namespace and the half-open range, junk included |
| Blobs.ReadHasDistinctPositions | common/src/engram_common/da.py:133-147 | what is read back has distinct positions |
| Membership.ReplayLog | common/src/engram_common/membership.py:74-87 | the loop is the hash chain over padded entries |
| Membership.EntryLayout | common/src/engram_common/membership.py:60-87 | the name from the front of its 32 bytes, the two fields at the end of theirs, zeros between |
| Membership.ReplayBinds | common/src/engram_common/membership.py:74-87 | for any entries: two logs have one value exactly when the shorter adds the bytes of the end of the longer and the longer starts with entries that replay to genesis, or a collision |
| Membership.SizedReplayBinds | common/src/engram_common/membership.py:62-87 | with fields of at most 32 bytes, logs of one length have one value exactly when zero padding makes them equal, or a collision |
| Membership.ShortFieldsPadAlike | common/src/engram_common/membership.py:74-87 | an empty field and a zero byte replay alike |
| Membership.LongFieldsLoseBoundary | common/src/engram_common/membership.py:74-87 | a byte moved across the boundary of fields that fill 32 bytes leaves the value as it is |
| Membership.ExpectedForMeans | common/src/engram_common/membership.py:119-127 | a cell expects exactly the deals of its deadline and shard, in key order |
| Membership.VerifyRegistry | common/src/engram_common/membership.py:138-147 | a registry passes exactly when epoch and replayed value match |
| ShardVerification.VerifyShard | worker/src/worker/verify.py:145-236 | the loop over expected deals produces the specified result of the cell |
| ShardVerification.ExpectedFromRegistry | worker/src/worker/verify.py:126-142 | the expected list comes from a matching registry or not at all |
| ShardVerification.VerdictsOverMeans | worker/src/worker/verify.py:196-218 | the verdicts' keys are the expected deals' keys, and of deals sharing a key the last decides |
| ShardVerification.VerifiedJudges | worker/src/worker/verify.py:196-218 | with distinct keys every expected deal is judged on the blob kept for it |
| ShardVerification.VerdictLayout | worker/src/worker/verify.py:221-224 | provider, deal and one byte: 0 for none, 1 for absent, 2 for failed, 3 for passed |
| ShardVerification.CellRootBinds | worker/src/worker/verify.py:220-236 | a cell's results root commits to its verdicts: maps of as many verdicts have one root exactly when they are equal, or a collision |
| EpochCoverage.SizesAddUp | aggregator/src/aggregator/aggregate.py:280-287 | the cells' sizes add up to the deals of those cells |
| EpochCoverage.CoverageIsExact | aggregator/src/aggregator/aggregate.py:202-287 | what becomes of results of one registry that cover the grid, exactly: a count mismatch for a key twice in one cell, a refusal for a key of the wrong size, a coverage gap for a key in two cells, and otherwise acceptance that settles each grid deal once |
| EpochCoverage.OneKeyInTwoCells | aggregator/src/aggregator/aggregate.py:280-287 | two deals of one key in two cells pass every check but the last |
| Publishing.PublishedMembers | orchestrator/src/orchestrator/harness.py:196-210 | publishing adds one bundle for each online deal and nothing else |
| Publishing.DecoyMembers | orchestrator/src/orchestrator/harness.py:212-223 | decoys add only blobs with the attacker's signature |
| Publishing.PayloadVerifies | worker/src/worker/verify.py:110-123 | a posted bundle verifies exactly unless the data was lost and the sealed root is not the filler itself |
| Publishing.WindowIsFaithful | orchestrator/src/orchestrator/scenarios.py:33-63 | whatever was on the layer before, whatever in the window does not pass, and however many decoys came, what is read for a cell holds every online deal's bundle and nothing else that passes |
| Publishing.FaithfulJudges | worker/src/worker/verify.py:110-218 | from such blobs a deal is absent if offline, failed if lost, passed otherwise |
| Network.WorkTellsTruth | orchestrator/src/orchestrator/scenarios.py:33-74 | a worker that reads its cell in the window gives every deal of it the verdict it deserves |
| Network.TruthfulEpochSettlesTruth | orchestrator/src/orchestrator/scenarios.py:77-113 | such workers on every cell settle every deal of the grid once, with the leaf it deserves: paid if its provider was online with the data, slashed if online without it, neither if silent |
| Network.SimNetwork.PublishBundles | orchestrator/src/orchestrator/harness.py:196-210 | the loop submits the bundles of the online deals |
| Network.SimNetwork.PublishDecoys | orchestrator/src/orchestrator/harness.py:212-223 | the loop submits the decoys |
| Network.SimNetwork.ServeShard | orchestrator/src/orchestrator/scenarios.py:49-73 | the ids are those of the lottery's selection for this shard, deadline and beacon; a drawn worker is dated and booked as delivering exactly if it is not dead, every other record is unchanged; the live ones all return the cell's verified result, and there is one exactly when one of them is alive |
| Network.SimNetwork.RunDeadline | orchestrator/src/orchestrator/scenarios.py:33-74 | one deadline yields truthful results for exactly the shards with a live drawn worker, and one call after the other takes the records and counts from those before to those after |
| Network.SimNetwork.RunAndFold | orchestrator/src/orchestrator/scenarios.py:94-98 | what one deadline's run yields, and the fold of exactly its results under its own number and the epoch's registry |
| Network.SimNetwork.FoldDeadlines | orchestrator/src/orchestrator/scenarios.py:89-98 | every deadline in turn is run and folded until one does not fold, and then some shard had no live drawn worker; otherwise every cell had one, and the folds hold its truthful results |
| Network.SimNetwork.RunEpoch | orchestrator/src/orchestrator/scenarios.py:77-113 | an epoch settles exactly when every cell had a live drawn worker, and then every grid deal once with the leaf it deserves, whatever the decoys and whatever else was on the layer that no registered provider had posted for its deadlines; its calls are one run over the records |
| Network.RoundsInOrder | orchestrator/src/orchestrator/scenarios.py:49-92 | the calls of an epoch come in the order of their deadlines, one for each shard and deadline |
| Network.EpochRotates | worker/src/worker/lottery.py:144-161 | over a whole epoch with the required number of workers out of suspension no worker is given two cells closer together than the cooldown allows |
| Clock.SlotOfInvertsSlotAt | common/src/engram_common/clock.py:69-82 | a height reads as a slot exactly while that slot's deadline is open |
| Clock.WindowIs | common/src/engram_common/clock.py:69-89 | a height lies in the window of its own slot exactly if what has passed of the deadline is at least the beacon delay and less than that plus the window |
| Clock.WindowOfSlot | common/src/engram_common/clock.py:77-89 | any slot opens at its place in the schedule, and its window starts the beacon delay later and is as long as the submission window |
| Clock.WindowsDisjoint | common/src/engram_common/clock.py:77-89 | no height lies in two submission windows |
| Clock.EpochGap | common/src/engram_common/clock.py:91-115 | consecutive epochs leave exactly what remains of the last deadline after its window |
| Derivation.SpreadChallenge | common/src/engram_common/crypto.py:189-222 | the loop lists one challenge per bucket number, none for non-positive counts |
| Derivation.ChallengeInRange | common/src/engram_common/crypto.py:189-222 | no challenge leaves the deal's own range |
| Derivation.OnePerBucket | common/src/engram_common/crypto.py:214-222 | with no more challenges than chunks each bucket holds its own challenge |
| Derivation.PlaceInBucket | common/src/engram_common/crypto.py:216-222 | inside its bucket the challenge lies where eight bytes of the hash of beacon, deal and number point |
| Derivation.MoreChallengesThanChunks | common/src/engram_common/crypto.py:216-222 | with more challenges than chunks the first take the chunks in turn and the rest the last one |
| Derivation.WindowIsChallenged | common/src/engram_common/crypto.py:189-222 | any (k + 1) buckets less one chunk in a row are hit by at least k challenges |
| Derivation.DerivedCellIsInGrid | common/src/engram_common/crypto.py:225-253 | every deal's derived cell lies in the grid |

## Left out

- Nova folding, Spartan compression, SP1 and Groth16: library cryptography; a verified run is read as satisfied, chained steps.
- The numeric Poseidon2 round constants and the check against reference vectors: the table is a parameter of 64 rows.
- The inside of `to_bits_le_strict`: one constraint stating the canonical bits stands for its range check.
- The witness loop for the seed's low bits in `synthesize` reads bytes; the model assigns the value of the linear combination it is constrained to.
- Storage experiments (`attack_drop_*`, `clone_for_attack`), timing, memory and I/O metrics, benchmarks, cost models, scripts and containers.
- Read errors other than the end of the file (sealing treats them as the end), opening files, FastAPI services, the Celestia JSON-RPC backend and its address decoding: a file is a byte sequence behind a reader, the layer is `MemoryDA`.
- Floating point: the cap ratio is an exact rational; `cooldown_deadlines` and the window safety report are not modelled, the cooldown is a parameter.
- Beacons: `derive_beacon` and the data roots behind it; a beacon is a parameter of each deadline.
- The coverage commitment of `prove_coverage` and its cycle counts: no verdict depends on them; without square roots its saturation is zero, as modelled.
- Reconciliation statistics (conflicts and upgrades), filter statistics beyond conservation, lottery statistics of the drops.
- Fixed-offset encodings of public values and blob headers, and share and fee arithmetic.
- The Solidity contracts, the circuit breaker, the Python sealing stand-ins.
- `replay` hashes the entries and not the deals, so nothing is claimed about the deals being committed on chain.
- Lottery.WorkerLottery: optional counts and statistics objects are always given; leaving them out means fresh ones whose updates are lost.
- MerkleTree.Build: the number of leaves is a power of two, which the original asserts before building.
- MerkleTree.VerifyMerkleProof: leaf indices are unbounded; a path of more than 64 levels shifts past the machine word in the original.
- KeccakTree.MerkleProof: indices are natural numbers; negative ones, which Python counts from the end, are not modelled.
- Network.SimNetwork.RunEpoch: exceptions other than coverage gaps are not caught in the original; here any refusal is an error result, and none but a coverage gap occurs.
