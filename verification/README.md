# zkasper, modelled in Dafny

zkasper proves Casper FFG finality with a chain of small recursive circuits. Each circuit is an ordinary
deterministic Rust checker; the claims that matter are global and live in comments. This project states those
claims about a model of the checkers and proves them for every input, every run and every depth.

## What is modelled

| part | modules |
|---|---|
| Merkle paths, batched multi-proofs, the sparse accumulator tree | `Merkle`, `MultiProof`, `ProofBuilding`, `AccTree` |
| formal group sums, the pairing accumulator, SSZ and accumulator digests | `FormalSums`, `Bls`, `UnitSums`, `PairingExact`, `Ssz`, `Containers`, `Accumulator`, `Folds`, `Splitting` |
| slot and group proofs, the committee proof | `SlotProof`, `SlotSound`, `SlotExact`, `NamedOnce`, `Tallies`, `GroupSound`, `GroupExact`, `Committee`, `CommitteeSound`, `CommitteeExact` |
| aggregation, justification and final proofs, finality runs | `Pipeline`, `Circuits`, `StreamSound`, `SlotCuts`, `AttestedCuts`, `EpochAtOnce`, `JustificationSound`, `Finality`, `UnprovedFinality`, `FoldsExact`, `CircuitsExact`, `FinalCompleteness`, `FinalizationExact`, `SmallEpoch`, `SmallFinal` |
| epoch diff and boundary opening | `EpochDiff`, `EpochDiffSound`, `DiffRecords`, `OverflowingDiff`, `Boundary` |
| the swap-or-not shuffle in all its forms, slot tables, registries | `DivMod`, `Words`, `SwapOrNot`, `ListShuffle`, `BitSlice`, `BitSliceShuffle`, `PlaneMajor`, `Bitmaps`, `Labels`, `Slots`, `Registries` |
| the FCR committee proof | `FcrCommittee`, `FcrSound`, `FcrExact` |
| the attestation collector | `Bitfields`, `Collector`, `IngestExact`, `Packing`, `SlotStream`, `LostVote`, `ComplementAccepted` |
| batched field and tree arithmetic, point packing | `Batching`, `SmallCurve`, `QuadTree`, `PointPacking` |
| wire formats | `Bytes`, `Publics`, `ProofWords`, `ProofExact`, `BoundaryFile`, `BoundaryDecode`, `BoundaryCache`, `CommitteeWire`, `Layouts` |

A circuit appears twice: as a method with the loops and updates of the Rust code, and as the function that
method is proved to compute (`VerifyAttestations` and `AttestedBy`, `VerifyAggregate` and `AggregateOf`, and so
on). The claims are lemmas about the function. Those named `...IsExact` say when a circuit accepts and what it then
publishes, in terms of its witness and its children alone; the `...Sound` modules say what an accepted run means, and
`FinalCompleteness` that honest work is accepted. Code that updates an object in place is a class (`AccTree`,
`SlotStream`, `Source`, `Cursor`, `Reader`, `PublicWriter`, `Cache`, `LazyAssignments`) or a method over an array
(the shuffles).

## Conventions

- A rejected witness, a panic or an error is `None`.
- `u64` additions and subtractions that the guests leave unchecked wrap (`WrappingAdd`, `WrappingSub`), as in a
  release build; `checked_add` and `checked_sub` reject. Other integers are unbounded.
- A slot mask is the set of its bits. A committee tree has depth 5 and 32 slots.
- Hashes are free constructors, so digests are injective and domains are apart by construction. That reading of
  the accumulator's hash is backed by `PointPacking`: the preimages themselves are injective and apart. SHA-256
  under the shuffle is an arbitrary function of (round, block), and the number of rounds is a parameter.
- The public key of the validator at accumulator position `i` is formal unit `i`; points, signatures and pairing
  products are formal integer combinations, so a key sum may have any coefficients. A Miller accumulator is the
  combination of (key, message) pairs with the signature sum, and the final exponentiation is the test that the two
  agree. The identity is never stored in a running sum, as in the code.
- A signature sum may have coefficients of either sign, but only on votes really cast. Those votes are the set
  `votes` in the soundness theorems; nothing else is assumed of a prover.
- A proof is the accepted run it attests to. A program of the prover's own may publish anything; an empty proof is
  rejected, as inside a guest. Program keys are distinct constants.
- `Commits(c, leaves, depth)` says that `c` commits to the root of a whole leaf vector and to the sum of its
  balances; `Registry(leaves)` that every leaf is empty or holds its own position's key. `Sound`, `Partition` and
  `Settled` predicates say what a count, a committee tree and a finished pairing mean, and are defined beside the
  lemmas that use them.
- Decompression of keys, the chain's depths and slots per epoch, and the STARK verdict on a child are parameters.

## Where comments or expectations and the code part

- `peek` says the cover is at least everyone heard. It is who is in a packed aggregate or heard alone
  (`SlotStream.SlotStream.Peek`); that is everyone heard for the message exactly when each of its aggregates meets
  no one covered when its turn comes, or holds no one who is not covered without it
  (`SlotStream.PeekCoversUnlessLost`). Two honest aggregates of validators 1, 2 and 2, 3 lose validator 3
  (`LostVote.HeardAndNotCovered`); a stream that does so is run (`LostVote.LoseOne`).
- The batch finalization checks as many proofs as it is given. A proof binds its output, and an output without one
  is bound by nothing, be it one no proof can satisfy (`Finality.ProofBindsOutput`); so both justifications are
  proved if and only if two proofs were supplied (`Finality.ProvedWhenTwoProofs`). One proved epoch diff and a state
  that records the boundary are enough for an accepted finalization with no proofs and no votes
  (`UnprovedFinality.AcceptedWithoutProofs`), and one is built (`UnprovedFinality.OneAcceptedWithoutProofs`).
- The committee guest reads its auxiliary count modulo 2^62, because the word arithmetic wraps
  (`CommitteeWire.WrappedCountIsRead`); the member count is exact (`CommitteeWire.ParsedIsEncoded`).
- Splitting the pairing preserves the accumulator exactly when no message's keys, and not all signatures, cancel
  (`Splitting.SplittingPreserves`): `miller_accumulator` has no value for a cancelled key. Two messages under one
  root, one validator less another and the reverse, have accumulators apart and none together
  (`Splitting.CancelledKeysHaveNone`).
- Groups accepted one by one are accepted as one list exactly when nobody is named by two of them and nothing
  cancels (`AttestedCuts.AcceptedAtOnce`): a validator may be named once in each group, but only once in a list.
- `build_multi_proof` answers for any positions, but above the dense part every node it reads is the empty subtree.
  Its proof holds against the tree's root exactly when the positions fit one tree and one of them lies under the
  dense part, or the tree is empty (`AccTree.AccTree.BuildMultiProof`).
- The batched reduction is said to publish the same aggregate. It does where no pair it adds shares an x-coordinate
  (`Batching.ReduceBatched`). It does not check that: a bucket of one point twice reduces to a point off the curve
  (`SmallCurve.TwiceIsOff`), and one such pair spoils the inverse of every other pair of its level
  (`Batching.BatchInverse`).
- The new registry total is committed as a 64-bit word, so the end of an epoch diff commits to the new leaves if
  and only if their total fits one (`EpochDiffSound.DiffKeepsTotal`). A balance of 2^64 - 1 joined by a balance of
  one is accepted and published with a total of zero (`OverflowingDiff.TotalIsLost`).
- A multi-proof pins indices modulo the tree's width: openings are accepted if and only if each is the tree's own
  leaf at the low digits of its index and the indices increase and share their high part, zero or not
  (`ProofBuilding.BatchExact`). An epoch diff inherits this: its indices name accumulator positions modulo the
  tree's width (`EpochDiffSound.DiffReplacesExactly`).
- An epoch diff never checks that a new key belongs to the position it is written at. The accumulator stays a
  registry if and only if the last key written at each position does (`EpochDiffSound.RegistrySurvives`).
- In the plane-major shuffle an index is computed by an unguarded subtraction that may wrap when a run has no whole
  block. It is then never used, so the shuffle is right for every size (`PlaneMajor.BitsliceShufflePlanes`).

## Model

| member | source | states |
|---|---|---|
| Merkle.ComputeRoot | crates/common/src/merkle.rs:9-26 | the loop climbs the path from a leaf to its root, side by index bit |
| Merkle.PathOpens | crates/common/src/merkle.rs:9-26 | a path that reaches the root of any leaf vector opens that vector's own leaf, beside its own siblings |
| Merkle.PathReaches | crates/common/src/merkle.rs:9-26 | a tree's own leaf and siblings do reach the root |
| Merkle.PathUpdates | crates/epoch-diff-guest/src/lib.rs:115-139 | one verified path update: the old leaf is the tree's and the new root is that of the vector with just that leaf replaced |
| MultiProof.BatchRootColumns | crates/common/src/merkle.rs:78-127 | the level scan with its cursors computes the specified level recursion, rejecting leftover auxiliaries |
| MultiProof.BatchRoot | crates/common/src/merkle.rs:50-68 | the same over (leaf, index) pairs |
| MultiProof.BatchSound | crates/common/src/merkle.rs:78-127 | soundness: any auxiliaries that reach the root of a depth-d tree open the tree's own leaves; indices increase, share index >> d, and their positions differ |
| ProofBuilding.BatchComplete | crates/witness-gen/src/acc_tree.rs:190-220 | completeness: the tree's leaves at any increasing set of positions with the listed auxiliaries reach the root, with none left over |
| ProofBuilding.BatchExact | crates/common/src/merkle.rs:50-127 | both directions: some auxiliaries carry openings to a tree's root if and only if they are the tree's own leaves at the low digits of increasing indices that share their high part |
| AccTree.ConsistentIsTree | crates/witness-gen/src/acc_tree.rs:106-144 | levels are consistent if and only if they are the Merkle tree of their bottom level |
| AccTree.ResizedNode | crates/witness-gen/src/acc_tree.rs:55-72 | padding with zero leaves changes no node of the full zero-padded tree |
| AccTree.AccTree.Build | crates/witness-gen/src/acc_tree.rs:55-91 | the stored tree is consistent and its root is that of the full 2^depth tree over the given leaves |
| AccTree.AccTree.FromRaw | crates/witness-gen/src/acc_tree.rs:94-102 | keeps stored levels as given, unchecked |
| AccTree.AccTree.VerifyConsistent | crates/witness-gen/src/acc_tree.rs:110-144 | accepts exactly the levels that are a Merkle tree |
| AccTree.AccTree.ReadRoot | crates/witness-gen/src/acc_tree.rs:149-155 | the root of the full zero-padded tree |
| AccTree.AccTree.GetSiblings | crates/witness-gen/src/acc_tree.rs:161-178 | the authentication path of a leaf in the full tree |
| AccTree.AccTree.GetNode | crates/witness-gen/src/acc_tree.rs:223-234 | the node of the full tree at every position, but the empty subtree for position 0 at and above the dense root |
| AccTree.AccTree.BuildMultiProof | crates/witness-gen/src/acc_tree.rs:190-220 | for any positions, in any order and repeated, exactly the auxiliaries the scan needs in this tree, or in the empty tree where none lies under the dense part; so they open this tree's leaves against its root if and only if the positions fit one tree and one lies under the dense part, or the tree is empty |
| AccTree.AccTree.UpdateLeaf | crates/witness-gen/src/acc_tree.rs:240-257 | in place: the tree of the same leaves with one replaced; the siblings returned authenticate the old leaf to the old root and the new leaf to the new |
| Ssz.NamesOne | crates/common/src/ssz.rs:161-222 | a signed message names at most one source and target |
| Containers.CheckpointIsContainer | crates/common/src/ssz.rs:161-168 | a checkpoint's leaf is the root of the tree over its epoch and its root, in that order |
| Containers.LinkIsContainer | crates/common/src/ssz.rs:172-190 | the checkpoint digest is the root of the tree over source and target |
| Containers.AttestationIsContainer | crates/common/src/ssz.rs:195-222 | the attestation data root is the depth-3 tree root of slot, index, block root, source and target |
| Containers.SignedRootIs | crates/common/src/bls.rs:47-56 | the message signed is the root of the tree over that root and the domain |
| Containers.HeaderIsContainer | crates/common/src/ssz.rs:229-242 | the block header root is the depth-3 tree root of its five fields |
| Containers.ValidatorIsContainer | crates/common/src/ssz.rs:66-80 | the validator record's root is the depth-3 tree root of its eight fields |
| Containers.ListIsContainer | crates/common/src/ssz.rs:132-134 | a list's root is the tree root of its data root and its length |
| Containers.StateFieldsInPlace | crates/common/src/ssz.rs:244-254 | the state's block roots, state roots and validators are the fields the circuits open, by their place in the field list |
| Bls.AggregatePoints | crates/common/src/bls.rs:98-104 | the group sum, rejecting where a partial sum cancels |
| Bls.MergeMessages | crates/common/src/bls.rs:302-349 | merging messages by root: distinct roots, each key in its root's entry, all signatures in one sum |
| Bls.PairAll | crates/common/src/bls.rs:351-372 | the product of one pairing per distinct message, rejecting an identity key |
| Bls.ProductIsKeys | crates/common/src/bls.rs:281-373 | pairing merged messages gives what pairing each key with its own message would |
| Bls.ComputeMillerAccumulator | crates/common/src/bls.rs:281-373 | the two passes compute the accumulator of all messages, order of discovery immaterial |
| SlotProof.ReadSlot | crates/slot-proof-guest/src/lib.rs:226-342 | one slot: primary first, signers and absentees taken out of the committee key, balance counted with the code's wrap and checks |
| SlotProof.VerifyAttestations | crates/slot-proof-guest/src/lib.rs:196-386 | the slots loop, the distinctness sort and both openings decide as the slot-by-slot specification |
| SlotExact.SlotIsExact | crates/slot-proof-guest/src/lib.rs:226-342 | slot reading, both directions: read if and only if it has one primary message for the link that names no one, minority aggregates for the link that each name someone, keys that add and come out one by one, and no more balance absent than present; what it adds is the whole list of names, leaves, balance and messages, each over the container root of its data |
| PairingExact.MillerIsExact | crates/common/src/bls.rs:281-373 | an accumulator exists if and only if every message has keys that add up and signatures on the curve, nothing lies outside the subgroup and nothing cancels; it then pairs every vote as often as the keys do and holds it as often as the signatures do |
| GroupExact.GroupIsExact | crates/slot-proof-guest/src/lib.rs:196-386 | a group, both directions: some openings of two trees make a list of slots accepted if and only if its slots increase and can be read, nobody is named twice, names and committees are the trees' own, and its messages pair; it counts the committees less the absentees, and every vote as often as it was paired and signed |
| GroupExact.GroupProofIsExact | crates/slot-proof-guest/src/lib.rs:74-110 | a group proof is accepted if and only if its commitment opens and its slots are verified, and what it publishes |
| GroupExact.SlotProofIsExact | crates/slot-proof-guest/src/lib.rs:34-52 | a slot proof is accepted if and only if moreover every vote of its messages is paired as often as it was signed |
| SlotSound.SlotConserves | crates/slot-proof-guest/src/lib.rs:227-330 | conservation: however the key is split over messages, the keys pushed by a slot weigh the committee less its absentees, under every measure |
| SlotSound.SlotCounts | crates/slot-proof-guest/src/lib.rs:227-330 | the balance counted is the committee's less its absentees', one mask bit is set, and every absentee is listed for opening |
| SlotSound.SlotsConserve | crates/slot-proof-guest/src/lib.rs:226-330 | the same over a whole list of slots |
| NamedOnce.OpenedApart | crates/slot-proof-guest/src/lib.rs:332-360 | an accepted opening of named validators has distinct indices and positions, each with the leaf the tree holds there |
| NamedOnce.GroupNamesOnce | crates/slot-proof-guest/src/lib.rs:332-360 | across all slots of an accepted group no validator is named twice, and each is named with its own leaf |
| GroupSound.AttestedIsSound | crates/slot-proof-guest/src/lib.rs:196-386 | whatever the witness, an accepted list counts exactly the balance weighed by the keys it pairs, each validator at most as often as its committees seat it, only for the agreed link |
| Tallies.SoundCountsAdd | crates/aggregation-guest/src/lib.rs:146-175 | counts over disjoint masks add: no balance wraps, no validator reaches two |
| Tallies.SettledCount | crates/slot-proof-guest/src/lib.rs:34-52 | once the pairing settles, the counted balance is at most that of a set of distinct validators who each voted for the link |
| Committee.VerifyCommittee | crates/common/src/committee.rs:210-297 | the one-pass sums and the tree of slots compute the specified output or reject |
| Committee.TreeRoot | crates/common/src/committee.rs:101-121 | the level loop gives the Merkle root over all 32 slots |
| CommitteeSound.FairMembersPartition | crates/common/src/committee.rs:239-290 | opened members make a partition: one bucket each, key and balance of a bucket sum the same members, buckets within the total, no sum wraps |
| CommitteeSound.CommitteePartitions | crates/common/src/committee.rs:210-297 | an accepted committee proof publishes the root of such a partition of the committed registry |
| CommitteeExact.CommitteeIsExact | crates/common/src/committee.rs:210-297 | some auxiliaries make a committee witness accepted if and only if it names the committed tree and total, and its members increase, lie in slots below 32 and are the tree's own leaves |
| CommitteeExact.CommitteesAreMembers | crates/common/src/committee.rs:239-297 | what it publishes: the commitment and epoch it was given, and the root over 32 leaves, each the keys once and the committed balances of exactly the members given that slot, or empty |
| Circuits.FoldAllGroups | crates/aggregation-guest/src/lib.rs:146-175 | the fold over group proofs computes the specified fold, rejecting at the first bad child or repeated slot |
| Circuits.VerifyAggregate | crates/aggregation-guest/src/lib.rs:49-189 | the aggregation guest computes the specified output or rejects |
| Circuits.VerifyJustification | crates/justification-guest/src/lib.rs:58-210 | the justification guest computes the specified output or rejects |
| Circuits.VerifyStreamFinal | crates/stream-final-guest/src/lib.rs:60-357 | the final guest computes the specified output or rejects |
| Circuits.CountEpoch | crates/stream-final-guest/src/lib.rs:122-252 | aggregate, late groups and inline tail are one running count |
| FoldsExact.GroupsFoldExactly | crates/aggregation-guest/src/lib.rs:146-175 | a fold goes through if and only if every group was published by the group guest against what was agreed and no slot is counted twice, and comes to the sum of balances, the union of slots and every vote's totals |
| FoldsExact.SlotsFoldExactly | crates/justification-guest/src/lib.rs:136-175 | the same of slot proofs |
| CircuitsExact.AggregateIsExact | crates/aggregation-guest/src/lib.rs:49-189 | aggregation, both directions: accepted if and only if it stands on a proved predecessor, or diff and committee, its groups stand and no slot comes twice; it publishes where it stands and what all parts come to |
| CircuitsExact.JustificationIsExact | crates/justification-guest/src/lib.rs:58-210 | justification, both directions, with its flag exactly when three times the counted balance is at least twice the total |
| CircuitsExact.FinalIsExact | crates/stream-final-guest/src/lib.rs:60-357 | the final proof, both directions: accepted if and only if every part was verified, no slot comes twice, every vote is paired as often as signed, three times the balance is at least twice the total, and it follows on from a proved justification of the epoch before; it publishes those checkpoints and accumulators |
| FinalCompleteness.TwoThirdsFinalize | crates/stream-final-guest/src/lib.rs:86-356 | streaming completeness: over a committed registry, settled votes of two thirds of the total, a proved justification of the epoch before and a target block that still records that epoch's first slot always have a final proof |
| SmallFinal.TwoOfThreeFinalize | crates/stream-final-guest/src/lib.rs:86-356 | one is built in full, from justification, diff and committee to the tail: a validator with a third of the stake is absent and the epoch before is finalized |
| StreamSound.AggregatesAreSound | crates/aggregation-guest/src/lib.rs:49-189 | along any chain of folds of the guest's own program, every aggregate's count is sound over one committee partition |
| StreamSound.FinalCountIsSound | crates/stream-final-guest/src/lib.rs:86-252 | the whole epoch's count, from any start, is sound |
| StreamSound.FinalProofMeansTwoThirds | crates/stream-final-guest/src/lib.rs:86-263 | streaming soundness: an accepted final proof means distinct validators holding two thirds of the committed total each voted for exactly the published link |
| Splitting.GatherPermutes | crates/common/src/bls.rs:302-349 | the order of messages changes neither the keys merged nor the signatures summed, nor whether a message is refused |
| Splitting.MillerPermutes | crates/common/src/bls.rs:281-373 | nor the accumulator, nor whether there is one |
| Splitting.SplittingPreserves | crates/common/src/bls.rs:281-394 | for any split of messages into groups with accumulators, pairing all at once in any order is defined exactly when nothing cancels, and is then the product of the groups |
| Splitting.CancelledKeysHaveNone | crates/common/src/bls.rs:351-357 | two groups over one message, one validator's key less another's and the reverse, each have an accumulator and have none together |
| SlotCuts.SlotIsAlone | crates/slot-proof-guest/src/lib.rs:226-342 | reading a slot after others is reading it alone and adding, as long as slots increase; otherwise it is refused |
| SlotCuts.ReadIsTogether | crates/slot-proof-guest/src/lib.rs:226-342 | a list of slots is read exactly when its slots increase and each reads alone, and then comes to their sum |
| SlotCuts.TallyPermutes | crates/slot-proof-guest/src/lib.rs:226-342 | that sum's balance, mask and gathered keys and signatures do not depend on the order |
| SlotCuts.CutChangesNothing | crates/aggregation-guest/src/lib.rs:146-175 | for every way to share increasing slots out among groups of increasing slots, interleaved or not, folded in any order: read at once exactly when the groups are, with the same balance, mask and gathered sides, and the accumulator, when nothing cancels, is the groups' product |
| SlotCuts.ReadPartsIncrease | crates/aggregation-guest/src/lib.rs:146-175 | groups whose folds are not refused share out slots that do increase in some order |
| AttestedCuts.AcceptedAtOnce | crates/slot-proof-guest/src/lib.rs:196-386 | groups accepted apart, of slots shared out anyhow, are accepted as one list under some openings against the same trees if and only if no index is named by two groups, all named agree above the tree's width, and nothing cancels; the list then counts the groups' balance, mask and product |
| EpochAtOnce.AggregateCounts | crates/aggregation-guest/src/lib.rs:49-189 | every link of an aggregate chain counts exactly its groups' slots and those below it, each once, and its accumulator holds what they gather |
| EpochAtOnce.EpochReadsAtOnce | crates/stream-final-guest/src/lib.rs:133-252 | the balance, mask and product a final proof counts along the aggregate chain, late groups and tail are those of all its slots read as one list, and the pairing settles that list exactly when it settles the product, unless something cancels |
| EpochAtOnce.OneClaim | crates/slot-proof-guest/src/lib.rs:196-342 | where every group names one link and domain, that one list is a list of slots the group circuit reads |
| EpochAtOnce.FinalsAgree | crates/stream-final-guest/src/lib.rs:133-252 | two final proofs over the same slots, grouped, folded and ordered anyhow, count the same balance, mask and product |
| JustificationSound.ChainIsTotals | crates/justification-guest/src/lib.rs:80-196 | over any chain of folds the mask is the disjoint union and the balance the wrapped sum of all folded slot proofs |
| JustificationSound.ChainsAgree | crates/justification-guest/src/lib.rs:80-196 | two chains over the same slot proofs, batched and ordered anyhow, publish the same balance and mask |
| JustificationSound.ChainIsSettled | crates/justification-guest/src/lib.rs:80-196 | every link of a chain counts settled votes and no less than the link before |
| JustificationSound.FlagStaysOn | crates/justification-guest/src/lib.rs:136-209 | once justified, every later link of the chain is |
| JustificationSound.JustifiedMeansTwoThirds | crates/justification-guest/src/lib.rs:136-209 | the flag is set exactly when 3 * balance >= 2 * total, and the balance is within that of distinct validators who voted for the link |
| JustificationSound.QuorumsIntersect | crates/justification-guest/src/lib.rs:136-209 | two sets of validators with two thirds each share a third of the total |
| JustificationSound.ConflictMeansThird | crates/justification-guest/src/lib.rs:71-209 | two justified outputs with one accumulator and target epoch but different target roots: validators holding a third voted for both |
| Finality.ProofBindsOutput | crates/finalization-guest/src/lib.rs:20-58 | put under a key no justification proof has, an output of an accepted finalization is turned away if a proof came for it, and otherwise stays accepted with the same result |
| Finality.ProvedWhenTwoProofs | crates/finalization-guest/src/lib.rs:20-58 | with two proofs both named justifications were proved; and neither could be exchanged for one no proof fits exactly when two proofs came |
| Finality.ProofsMayBeMissing | crates/finalization-guest/src/lib.rs:20-58 | an accepted witness stays accepted with the same output without its proofs |
| UnprovedFinality.AcceptedWithoutProofs | crates/finalization-guest/src/lib.rs:14-186 | any proved diff of consecutive epochs and any state that still records the boundary make an accepted finalization whose two justifications no proof can satisfy |
| UnprovedFinality.OneAcceptedWithoutProofs | crates/finalization-guest/src/lib.rs:14-186 | such a finalization exists, with no votes counted |
| Finality.BatchFinality | crates/finalization-guest/src/lib.rs:14-186 | with two proofs: two thirds behind each link, the second from the finalized checkpoint to the next epoch's, one proved registry transition between the accumulators |
| Finality.FinalityRunHolds | crates/stream-final-guest/src/lib.rs:266-356 | along any run of final proofs back to a batch justification: epochs increase by one, each finalizes what the previous justified, accumulators chain, one program key throughout |
| Finality.FinalDiff | crates/stream-final-guest/src/lib.rs:86-120 | each final proof rests on one proved epoch diff between its two accumulators, from the state root it publishes |
| Finality.LeavesCarryOver | crates/stream-final-guest/src/lib.rs:86-120 | a committed leaf vector carries over to the next accumulator with exactly the diff's leaves replaced, while the total fits a word |
| Finality.FinalIsRecorded | crates/stream-final-guest/src/lib.rs:325-356 | the finalized root and state root a final proof publishes are those the justified state records for the boundary slot |
| Finality.BatchIsRecorded | crates/finalization-guest/src/lib.rs:14-186 | so are those a batch finalization publishes |
| FinalizationExact.FinalizationIsExact | crates/finalization-guest/src/lib.rs:14-186 | batch finalization, both directions: accepted under some paths if and only if the justifications a proof came for are proved, both are justified, the second goes from the first one's target to the epoch after it, one proved diff joins them, and the second target's header still records the first slot of the first target's epoch; and what it publishes |
| EpochDiff.VerifyEpochDiff | crates/epoch-diff-guest/src/lib.rs:21-203 | the mutation loop and both state openings compute the specified output or reject |
| EpochDiff.ValidatorRootPair | crates/common/src/ssz.rs:82-129 | sharing equal subtrees between the old and the new record changes neither root |
| EpochDiffSound.DiffReplacesExactly | crates/epoch-diff-guest/src/lib.rs:43-148 | for any indices: each position, indices read modulo the tree's width, ends as the last mutation to name it wrote it, no other leaf moves, and each mutation states what it overwrites |
| EpochDiffSound.DiffNamesOnce | crates/epoch-diff-guest/src/lib.rs:43-148 | where no position is named twice, each named leaf goes from the stated old value to the new |
| EpochDiffSound.FittingIndicesApart | crates/epoch-diff-guest/src/lib.rs:150-179 | indices of an accepted diff that fit the accumulator name different positions |
| EpochDiffSound.DiffKeepsTotal | crates/epoch-diff-guest/src/lib.rs:43-148 | the new root is that of the replaced leaves, and the new commitment commits to them and to their sum if and only if that sum fits a word |
| OverflowingDiff.TotalIsLost | crates/epoch-diff-guest/src/lib.rs:141-148 | an accepted diff whose new leaves sum to 2^64, and whose end does not commit to them |
| EpochDiffSound.SubtractionFits | crates/epoch-diff-guest/src/lib.rs:141-148 | while the vector's total fits a word, subtracting the old balance never underflows |
| EpochDiffSound.MutationsAreInStates | crates/epoch-diff-guest/src/lib.rs:150-179 | each named validator is in the first state with its old record (or absent if new) and in the second with its new one |
| DiffRecords.NewLeafIsRecords | crates/epoch-diff-guest/src/lib.rs:89-148 | the new leaf at a named position is read off the second state's record: the key in its first chunk, with its effective balance from its activation epoch to before its exit epoch and zero outside |
| DiffRecords.OldLeafIsRecords | crates/epoch-diff-guest/src/lib.rs:89-148 | the old leaf is read off the first state's record in the same way, or is empty for a new validator |
| DiffRecords.HonestDiffIsAccepted | crates/epoch-diff-guest/src/lib.rs:21-203 | completeness: any changes of distinct validators, read off records both states hold, have a diff that is accepted and commits to the changed leaves if their total fits |
| EpochDiffSound.RegistrySurvives | crates/epoch-diff-guest/src/lib.rs:131-139 | a registry stays one exactly when, at each position named, the last key written is the position's own |
| Boundary.GuardIsExact | crates/common/src/ssz.rs:297-349 | `b < h && h - b <= n` holds exactly when the ring cell of slot b still holds slot b, with a ring of n cells after the slots below h |
| Boundary.BoundaryStartsEpoch | crates/common/src/ssz.rs:297-330 | the slot the boundary is read at is the first of its epoch if and only if that slot's number fits a word |
| Boundary.CellHolds | crates/common/src/ssz.rs:244-279 | a cell of a ring written slot by slot holds its last writer's record, or is empty |
| Boundary.JoinedPathOpens | crates/common/src/ssz.rs:263-279 | a path as deep as the vector and the state together opens the vector's own entry |
| Boundary.BoundaryIsRecorded | crates/common/src/ssz.rs:297-349 | an accepted opening names the block root and the state root recorded for the boundary slot, in the justified block's own state |
| Boundary.BoundaryIsExact | crates/common/src/ssz.rs:297-349 | some paths open the boundary under a header exactly when the header is the justified block's, its state still records the slot, and the roots named are those recorded |
| SwapOrNot.SpecShuffledIndex | crates/shuffle-bench-guest/src/main.rs:191-208 | the specification's loop, in either direction, computes the permutation or its inverse |
| SwapOrNot.ShuffleIsSpecified | crates/shuffle-bench-guest/src/main.rs:191-208 | an index taken through the rounds as the specification words them, first round first, ends at the shuffled index, and read backwards at the committee position |
| SwapOrNot.TrajHashed | crates/shuffle-bench-guest/src/main.rs:237-252 | the descending trajectory with hoisted pivots ends at the index the specification maps back to the start |
| SwapOrNot.PositionInvertsShuffle | crates/fcr-committee-guest/src/lib.rs:218-267 | the rounds run backwards invert `compute_shuffled_index`, both ways |
| SwapOrNot.PlanIsRound | crates/shuffle-bench-guest/src/main.rs:300-304 | the two mirror runs of a round pair every position that moves with its flip, exactly once, and do not overlap |
| SwapOrNot.ShuffleIsInjective | crates/fcr-committee-guest/src/lib.rs:218-237 | neither direction maps two indices to one |
| ListShuffle.ShuffleList | crates/fcr-rule-guest/src/lib.rs:460-523 | the in-place list with its cached source byte and block is the round-by-round shuffle, in either direction |
| ListShuffle.ShuffleListFast | crates/bench-guest/src/main.rs:562-634 | the eight-pair unrolled form gives the same list and stays in bounds |
| ListShuffle.WholeSetShuffle | crates/shuffle-bench-guest/src/main.rs:353-385 | the form over a block-caching source gives the same list |
| ListShuffle.ShuffleMeetsSpecification | crates/fcr-rule-guest/src/lib.rs:457-523 | run backwards the list reads `input[compute_shuffled_index(i)]` at i, run forwards it is the inverse permutation |
| Words.Rev64Reverses | crates/shuffle-bench-guest/src/main.rs:395-402 | the masked exchanges reverse all 64 bits |
| Words.Rev64Involution | crates/shuffle-bench-guest/src/main.rs:395-402 | bit reversal undoes itself |
| Words.FunnelReadBit | crates/shuffle-bench-guest/src/main.rs:443-512 | the funnel read is the 64 bits at an offset into two words |
| Words.FunnelWriteBit | crates/shuffle-bench-guest/src/main.rs:443-512 | the funnel write replaces exactly those bits |
| Words.MaskedExchangeBit | crates/shuffle-bench-guest/src/main.rs:443-512 | the xor trick exchanges window and reversed word exactly where the mask is set |
| BitSlice.WindowsApart | crates/shuffle-bench-guest/src/main.rs:443-512 | the ascending window never shares a word with the descending word |
| BitSlice.ExchangedTrades | crates/shuffle-bench-guest/src/main.rs:443-512 | one word-parallel block trades the masked bits of the two mirrored windows and leaves every other bit |
| BitSlice.RunBlock | crates/shuffle-bench-guest/src/main.rs:443-512 | such a block is sixty-four single pairs of the run |
| BitSliceShuffle.BitsliceShuffle | crates/shuffle-bench-guest/src/main.rs:443-512 | every bitplane ends as the element-wise shuffle of itself, for every size |
| PlaneMajor.BitsliceShufflePlanes | crates/shuffle-bench-guest/src/main.rs:521-594 | the plane-major form gives the same planes, for every size |
| Bitmaps.TrajBitmap | crates/shuffle-bench-guest/src/main.rs:256-270 | reading ready bitmaps instead of hashing gives the same trajectory |
| Bitmaps.Bitmaps | crates/shuffle-bench-guest/src/main.rs:608-631 | hashing upper halves only makes the bitmaps ready: unhashed bits are read at fixed points alone |
| Labels.BitslicedLabels | crates/shuffle-bench-guest/src/main.rs:406-427 | init, either bit-sliced shuffle and read-back label each offset with the slot of its committee position |
| Labels.ListLabels | crates/shuffle-bench-guest/src/main.rs:289-295 | shuffling the label list does too |
| Labels.TrajectoryLabels | crates/shuffle-bench-guest/src/main.rs:256-270 | the bitmap trajectories do too |
| Labels.ReferenceLabels | crates/shuffle-bench-guest/src/main.rs:671-722 | and so does writing each position's slot to the offset the specification names |
| Labels.Selftest | crates/shuffle-bench-guest/src/main.rs:671-722 | all seven comparisons with the reference (hashed, bitmap and reversed-round maps, position list, label list, both bit-sliced forms) hold for every size, seed and number of rounds |
| Slots.SlotEncloses | crates/shuffle-bench-guest/src/main.rs:280-287 | a position's slot is the one whose floor boundaries enclose it; the cap is never needed |
| Slots.SlotSizes | crates/shuffle-bench-guest/src/main.rs:280-287 | slot sizes are n / slots or one more |
| Slots.CommitteeCount | crates/fcr-rule-guest/src/lib.rs:438-455 | one committee a slot for every 4096 validators, at least one and at most 64 |
| Slots.CommitteeSlot | crates/fcr-rule-guest/src/lib.rs:438-455 | whatever the committee count per slot, committee c lies inside the slot the position formula gives |
| Slots.AssignmentTable | crates/fcr-rule-guest/src/lib.rs:438-455 | every active validator gets the slot of its committee position, inactive ones none |
| Slots.TableIsExact | crates/fcr-rule-guest/src/lib.rs:438-455 | while slots fit a u32 the table entry is epoch * 32 + slot_of_position(committee_position) |
| Slots.SlotPopulation | crates/fcr-committee-guest/src/lib.rs:265-276 | n / slots active validators, or one more, attest in each slot |
| Registries.Materialize | crates/fcr-rule-guest/src/lib.rs:233-252 | the loops compute the base with changes written and flags turned over in order, or fail |
| Registries.RegistryReads | crates/fcr-rule-guest/src/lib.rs:233-252 | that fails exactly on an index out of range, and leaves each validator its last change and the parity of its toggles |
| Registries.ActiveIndices | crates/fcr-rule-guest/src/lib.rs:255-267 | the increasing list of exactly the validators whose balance after the changes is positive |
| Registries.ActiveMeansBalance | crates/fcr-rule-guest/src/lib.rs:233-267 | the validators listed active from a map of last changes are those with a positive balance once the changes are written in order |
| Registries.TableIsUnique | crates/fcr-rule-guest/src/lib.rs:386-405 | an epoch's seed and registry determine one table, so a cached table is the computed one |
| Registries.DutyIsCommitteeSlot | crates/fcr-rule-guest/src/lib.rs:415-433 | a duty between two slots is an active validator whose committee position's slot lies between them |
| Registries.LazyAssignments.EnsureTable | crates/fcr-rule-guest/src/lib.rs:386-405 | tabulates an epoch once; succeeds exactly when its seed and registry are known; changes no other table |
| Registries.LazyAssignments.IsInRange | crates/fcr-rule-guest/src/lib.rs:415-433 | the answer is the duty itself whatever was asked before; an error means an unknown epoch or validator |
| FcrCommittee.VerifyFcrCommittee | crates/fcr-committee-guest/src/lib.rs:79-192 | the opening loop, the shuffle loop and the tree compute the specified output or reject |
| FcrSound.ActiveSetIsPinned | crates/fcr-committee-guest/src/lib.rs:88-144 | strictly increasing, non-zero and summing to the total force the opened positions to be exactly those with a balance |
| FcrSound.PositionsIncrease | crates/fcr-committee-guest/src/lib.rs:88-144 | the opened set is in index order, as the specification lists it |
| FcrSound.SeatsAreTheShuffles | crates/fcr-committee-guest/src/lib.rs:145-190 | the published root is that of a partition seating each active validator once, in the slot the shuffle gives it |
| FcrSound.TableAgreesWithSeats | crates/fcr-rule-guest/src/lib.rs:438-455 | the confirmation rule's table and the proved committees assign the same slots |
| FcrExact.FcrIsExact | crates/fcr-committee-guest/src/lib.rs:79-192 | some auxiliaries make a witness accepted if and only if it names the committed tree and total, opens the whole active set in order, the library counts every balance in it, and an epoch has at most 32 slots |
| FcrExact.FcrPublishes | crates/fcr-committee-guest/src/lib.rs:145-192 | what it publishes: commitment, epoch, the number of positions with a balance, and the root over each slot's committee of exactly the validators the shuffle puts there |
| Collector.IngestKeepsInv | crates/witness-gen/src/attestation_collector.rs:237-292 | any run of honest responses keeps the invariant: every held signature is of exactly its recorded signers, closed slots hold nothing |
| Bitfields.BitIsDigit | crates/witness-gen/src/attestation_collector.rs:652-659 | bit i of a bitfield is binary digit i of the integer its bytes spell, lowest first |
| Collector.ResolveAttesting | crates/witness-gen/src/attestation_collector.rs:600-650 | the loops over committees and members resolve an attestation as specified |
| Collector.ResolveIsExact | crates/witness-gen/src/attestation_collector.rs:600-650 | by index: resolving fails exactly where the one committee is missing, and lists v exactly when v is a single attester of its committee, or has its bit set in its committee, or in a named committee whose bits start after those of all committees named before it |
| Collector.AttestsInARow | crates/witness-gen/src/attestation_collector.rs:632-646 | the bits run over all named committees in a row: who attests in one of them is who has a set bit in that row |
| IngestExact.IngestIsExact | crates/witness-gen/src/attestation_collector.rs:237-292 | an accepted attestation makes those it names heard for its message and nobody else; any other changes nothing, and only two kinds of faulty ones stop the feed |
| SlotStream.ReachedIsInv | crates/witness-gen/src/attestation_collector.rs:213-292 | so every state reachable from a new collector by feeding honest responses and forgetting slots has it |
| Collector.IngestOneHears | crates/witness-gen/src/attestation_collector.rs:237-335 | what is heard stays heard, and an accepted single attestation is heard |
| Packing.BySize | crates/witness-gen/src/attestation_collector.rs:386-389 | largest first and, among equals, in order of arrival |
| Packing.SortedDescends | crates/witness-gen/src/attestation_collector.rs:386-389 | that order is descending and has the same aggregates |
| Packing.Pack | crates/witness-gen/src/attestation_collector.rs:383-400 | greedy packing: exactly the aggregates that meet no one packed before them for their message; disjoint per message, and each one left out overlaps what was taken and is no larger than some aggregate taken |
| Packing.ResidualOf | crates/witness-gen/src/attestation_collector.rs:103-128 | what a bucket has left under a signature of just those signers, whichever way it is computed |
| Packing.Residuals | crates/witness-gen/src/attestation_collector.rs:402-419 | every bucket's residual, in any map order |
| SlotStream.SlotStream.Ingest | crates/witness-gen/src/attestation_collector.rs:237-292 | feeds attestations in order up to the first error, exactly as the step specification |
| SlotStream.SlotStream.AddSingle | crates/witness-gen/src/attestation_collector.rs:300-335 | a validator already in its bucket is not summed twice |
| SlotStream.Merge | crates/witness-gen/src/attestation_collector.rs:137-147 | all aggregates of a message under one signature sum |
| SlotStream.SumOfApart | crates/witness-gen/src/attestation_collector.rs:137-147 | disjoint honest aggregates merge to one signature of each of their signers once |
| SlotStream.SlotStream.Peek | crates/witness-gen/src/attestation_collector.rs:370-498 | the primary signature sums each covered validator once; the cover is exactly those in a packed aggregate of its message or heard alone for it, and is largest; named are exactly the committee minus the cover, each as the committee proof opens it; marginal balance is the support; succeeds whenever someone is heard and members are known; nothing for a closed slot |
| SlotStream.HeardIsCoveredUnlessLost | crates/witness-gen/src/attestation_collector.rs:383-419 | everyone heard for a message is covered exactly when each of its aggregates is taken in its turn or holds only validators covered without it |
| SlotStream.PeekCoversUnlessLost | crates/witness-gen/src/attestation_collector.rs:370-498 | the same of what peek returns |
| LostVote.HeardAndNotCovered | crates/witness-gen/src/attestation_collector.rs:370-498 | after two honest overlapping aggregates are ingested validator 3 is heard and any complement covers 1 and 2 only |
| LostVote.LoseOne | crates/witness-gen/src/attestation_collector.rs:237-498 | a well-formed stream of one committee ingests those two aggregates and `peek` returns a sound complement that names validator 3 |
| SlotStream.SlotStream.Close | crates/witness-gen/src/attestation_collector.rs:342-346 | returns what peek would and forgets the slot, or changes nothing |
| SlotStream.SlotStream.Forget | crates/witness-gen/src/attestation_collector.rs:502-506 | drops all a slot holds and closes it, other slots untouched |
| SlotStream.ForgottenStaysForgotten | crates/witness-gen/src/attestation_collector.rs:237-292 | no later history brings a forgotten slot back |
| ComplementAccepted.SlotIsTaken | crates/slot-proof-guest/src/lib.rs:226-342 | the circuit reads every sound complement: no sum degenerates, the key left is the cover's, the balance counted is the marginal one |
| ComplementAccepted.ComplementIsAccepted | crates/slot-proof-guest/src/lib.rs:196-386 | collector to circuit: over trees that hold the opened leaves, every sound complement has openings under which the circuit accepts it, counts exactly its marginal balance and its slot, and its pairing is settled |
| Batching.BatchInverse | crates/committee-bench-guest/src/main.rs:537-554 | each element's inverse, from one inversion, where none is zero; one zero turns every other result to zero, so the non-zero elements are inverted if and only if none or all are zero |
| Batching.HalvedKeepsSum | crates/committee-bench-guest/src/main.rs:497-534 | one level of neighbour additions of points on the curve keeps the left-to-right group sum, for even and odd lengths |
| Batching.ReduceLevel | crates/committee-bench-guest/src/main.rs:501-532 | overwriting the vector in place writes only over points already read |
| Batching.ReduceBatched | crates/committee-bench-guest/src/main.rs:497-534 | nothing for an empty bucket of points on the curve, else a point on the curve that is the left-to-right group sum when no pair added shares an x-coordinate; two points come to their chord in any case |
| SmallCurve.SixIsCurve | crates/committee-bench-guest/src/main.rs:513-525 | y^2 = x^3 + 4 over five elements meets the hypotheses of those results: a field, a curve closed under chords, and a group that tells its points apart |
| SmallCurve.FourReduce | crates/committee-bench-guest/src/main.rs:497-534 | a bucket of four on it reduces through two levels, no pair sharing an x |
| SmallCurve.TwiceIsOff | crates/committee-bench-guest/src/main.rs:513-525 | a point of it added to itself this way leaves the curve, whatever the inverse of zero |
| QuadTree.ScanLevel | crates/committee-bench-guest/src/main.rs:381-399 | one level of the scan: parents of the named nodes, all others empty |
| QuadTree.BatchRoot4 | crates/committee-bench-guest/src/main.rs:373-405 | the root of the whole four-ary tree padded with empty leaves; fails exactly when nothing is opened or the leaves span two trees |
| QuadTree.BelowIsOneTree | crates/committee-bench-guest/src/main.rs:373-405 | any non-empty set of leaves below 4^depth lies in one tree |
| PointPacking.PackPoint | crates/common/src/acc.rs:65-79 | the loop fills thirteen windows of the point |
| PointPacking.PackKeepsInteger | crates/common/src/acc.rs:65-79 | the windows are each below 2^60 and are the same 768-bit integer |
| PointPacking.PackIsInjective | crates/common/src/acc.rs:65-79 | two points that pack alike are one point |
| PointPacking.LeafInPlace | crates/committee-bench-guest/src/main.rs:471-490 | packing straight into the state fills the words the accumulator leaf hashes |
| PointPacking.LeafStateBinds | crates/common/src/acc.rs:94-109 | a leaf preimage determines point and balance |
| PointPacking.CommitmentStateBinds | crates/common/src/acc.rs:114-122 | a commitment preimage determines root and total |
| PointPacking.NodeStateBinds | crates/common/src/acc.rs:40-47 | a node preimage determines both children |
| PointPacking.DomainsApart | crates/common/src/acc.rs:19-22 | leaf, node and commitment preimages are never equal |
| Layouts.StatesInPlace | crates/common/src/acc.rs:40-122 | the sixteen words of each hashed state: windows and balance halves, two children, root and total halves, zeros, and the domain last |
| Publics.PublicBytes | crates/common/src/recursion.rs:288-327 | writes the fields in order, refusing more than 256 bytes |
| Publics.LayoutsFit | crates/common/src/types.rs:499-889 | the exact width of every output, all within 256 bytes |
| Publics.EncodeInjective | crates/common/src/types.rs:499-889 | outputs of one layout with equal bytes are equal, even behind different tails |
| Layouts.FieldsInPlace | crates/common/src/recursion.rs:293-327 | each field of a proof's outputs lies where the widths before it put it: numbers in eight bytes, lowest first, digests as four numbers, roots as they are |
| Publics.ChildPublicBytes | crates/common/src/recursion.rs:143-156 | the 64 public words as little-endian bytes, refusing a word wider than 32 bits |
| Publics.VerifyChild | crates/common/src/recursion.rs:223-263 | accepts exactly an uncompressed proof under the pinned circuit key, the expected program key, and the expected outputs padded with zeros |
| Layouts.ChildLayout | crates/common/src/recursion.rs:143-263 | a proof carries outputs exactly when words 3 to 6 name the program, words 7 to 70 hold the outputs in four bytes each, lowest first, then zeros, and the last four are the pinned circuit's |
| Publics.ChildBindsOutput | crates/common/src/recursion.rs:223-263 | a proof accepted for two outputs, each in the layout its program writes, was accepted for one program and one output |
| Publics.SplitInvertsJoin | crates/common/src/recursion.rs:192-217 | splitting succeeds on exactly the words that parts of the right lengths join to, and gives those parts |
| Publics.SplitAgreesWithChild | crates/common/src/recursion.rs:182-217 | the wrapper's and the verifier's readings of a proof agree on keys and publics |
| ProofWords.VarintRead | scripts/zisk_proof_bincode.py:31-37 | the variable-width integer reads back at every width |
| Layouts.VarintLayout | scripts/zisk_proof_bincode.py:31-37 | one byte below 251; above, the tag 251 to 254 and two to sixteen bytes, lowest first |
| ProofWords.WordsOfFile | scripts/zisk_proof_words.py:45-61 | the reader, with slices clipped at the end of the file, parses as specified |
| Layouts.VectorLayout | scripts/zisk_proof_bincode.py:40-41 | a vector is its length and then each number right after those before it |
| ProofWords.WordsRoundTrip | scripts/zisk_proof_bincode.py:44-90 | words to bincode to words is the identity on every vector the writer accepts, the optional count dropped |
| ProofExact.BincodeIsExact | scripts/zisk_proof_bincode.py:44-90 | words become a file if and only if they are the parts of one of the three kinds of proof laid flat, with or without their count, and then it is that proof's file, part by part |
| ProofExact.WordsAreSaid | scripts/zisk_proof_words.py:24-65 | the reader makes words of a file, whatever follows, if and only if it starts with a zero, its kind is known, its name is text and every number is a word; and which words |
| ProofWords.CountIsUnambiguous | scripts/zisk_proof_bincode.py:52-55 | a well-formed proof is never mistaken for one with a word count |
| BoundaryFile.WriteBody | crates/witness-gen/src/boundary_cache.rs:203-234 | the writer's loops produce the layout |
| Layouts.FileLayout | crates/witness-gen/src/boundary_cache.rs:203-245 | every field of a boundary file at its offset: magic, version, slot, checksum of the rest, 129 bytes a validator, then the committees, and nothing after |
| BoundaryFile.DecodeByCursor | crates/witness-gen/src/boundary_cache.rs:264-310 | the cursor's loops parse it, refusing truncation and leftovers |
| BoundaryFile.DecodeInvertsEncode | crates/witness-gen/src/boundary_cache.rs:203-310 | decode undoes encode for every registry and assignment, under any checksum |
| BoundaryDecode.DecodeIsExact | crates/witness-gen/src/boundary_cache.rs:203-310 | both directions: bytes decode to a registry and its committees if and only if they are the file the writer makes for them, but for flag bytes, of which only a one means slashed |
| BoundaryDecode.EncodeIsFlagged | crates/witness-gen/src/boundary_cache.rs:203-245 | the writer's own file is the one with flag bytes zero and one |
| BoundaryFile.LeftoverIsRefused | crates/witness-gen/src/boundary_cache.rs:298-303 | a body with anything after its last committee is refused, and only then |
| BoundaryFile.AppendedIsRefused | crates/witness-gen/src/boundary_cache.rs:264-310 | appended bytes are refused even under a matching checksum |
| BoundaryCache.Cache.Get | crates/witness-gen/src/boundary_cache.rs:113-132 | answers like a plain map of what can be read; deleting a damaged file changes no answer |
| BoundaryCache.Cache.Put | crates/witness-gen/src/boundary_cache.rs:139-145 | updates that map at one slot |
| BoundaryCache.Cache.Warm | crates/witness-gen/src/boundary_cache.rs:167-174 | the queue holds at most two, the newest last, none twice for a slot, all of them kept from before or the newest |
| BoundaryCache.Cache.ForgetBefore | crates/witness-gen/src/boundary_cache.rs:151-161 | restricts that map to the slots from the given one on |
| BoundaryCache.Cache.Holds | crates/witness-gen/src/boundary_cache.rs:104-106 | true exactly when a file is there, damaged or not |
| CommitteeWire.EncodeWords | crates/common/src/committee.rs:157-180 | the loops write header, members and auxiliaries |
| Layouts.WireHeader | crates/common/src/committee.rs:157-180 | the twelve header words and the length of the whole |
| Layouts.WireMember | crates/common/src/committee.rs:157-180 | member i in fifteen words: index, key, balance, slot |
| Layouts.WireAux | crates/common/src/committee.rs:157-180 | auxiliary i in four words after every member |
| CommitteeWire.ParseInvertsEncode | crates/common/src/committee.rs:157-229 | the guest reads back every witness the host lays out |
| CommitteeWire.ParsedIsEncoded | crates/common/src/committee.rs:210-229 | what the guest reads is that witness's own layout, but for the auxiliary count modulo 2^62 |
| CommitteeWire.ParseIsExact | crates/common/src/committee.rs:157-229 | both directions: words are read as a witness if and only if they are its own layout under any auxiliary count that is the real one modulo 2^62 |
| CommitteeWire.WrappedCountIsRead | crates/common/src/committee.rs:224-229 | a header naming 2^62 auxiliaries for none is accepted |

## Left out

- Field towers, Miller-loop formulas, hash-to-curve, Poseidon2 and SHA-256 internals: opaque or idealised here.
- `commit_fp12`: the commitment to a Miller accumulator is a free constructor; its sponge over 144 half limbs is not modelled.
- The confirmation rule `run`, its store and vote views, the FCR threshold proof and its verifier: their arithmetic is in an external crate that is not part of this model.
- The API worker, beacon client, artifact store, network naming, monitoring, cost models and benchmark drivers: no invariant to state.
- Guest entry points, bincode witness decoding, the rule witness's blob layout and word-slice reinterpretation: inputs arrive parsed.
- Native-mode acceptance of empty proofs, and the assertion that a baked key is set: only the in-guest branch with keys baked is modelled.
- Signing-domain computation: a message's domain is part of the message.
- Selection of attestations per checkpoint across slots in the collector: it repeats ingest and peek slot by slot.
- SlotStream.SlotStream.Peek: assumes node responses whose signatures are of the resolved signers, committees of a slot that share no validator, and one message a validator a slot; the order in which equally large messages are tried is left open.
- EpochDiffSound.MutationsAreInStates: says nothing of unnamed validators in the second state, because the two openings carry independent auxiliaries; the state path's length, which the code does not check, is part of the hypothesis.
- Finality.LeavesCarryOver: leaves open whether the new total fits a word; `DiffKeepsTotal` says what happens when it does not.
- BoundaryCache.Cache.Put: assumes the file write succeeds; a failed write is only logged and leaves the memory copy.
- BoundaryCache.Cache.constructor: takes a directory whose files are named for the slot they decode to, as this cache writes them.
- BoundaryFile.DecodeByCursor: memory reserved ahead for the counts a file names is not modelled.
- Batching.ReduceBatched: of a bucket of more than two points it claims nothing once a pair shares an x-coordinate; the slope is then the arbitrary inverse of zero times a difference of y, and may come out right by chance.
- Registries.Materialize: the slashed flags arrive as booleans, not as a packed bitset.
- ProofWords.WordsOfFile: whether a name is text is a parameter, for UTF-8 decoding.
- ListShuffle.WholeSetShuffle: list sizes fit a machine word.
- ComplementAccepted.ComplementIsAccepted: one slot at a time; `AttestedCuts.AcceptedAtOnce` says when slots accepted apart are accepted together.
- Publics.ChildBindsOutput: takes it that a program's key fixes the layout of its outputs; in `Pipeline` publics are typed, so bytes of different layouts that collide are outside that model.
- PlaneMajor.BitsliceShufflePlanes: indices, not pointers; that the source forms a pointer past its buffer from the wrapped index, without reading through it, is not modelled.
