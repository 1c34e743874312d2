# Prims: verified models

Prims is a sharded proof-of-stake chain with anonymous notes and WebAssembly contracts. This project models
the parts of it that decide things and proves what they are for.

- **Consensus** (`Voting`, `Accountability`, `Finality`, `Rewards`, `Proposer`, `PartitionTask`, `Mempool`): a
  block is final exactly when more than two thirds of the stake back it, and two final blocks of one height convict
  more than a third; rewards conserve every unit; proposers are elected in exact proportion to stake; the mempool
  keeps each sender's order under every interleaving.
- **Sharding** (`MixingDigest`, `EpochLog`, `StateRoots`, `Committees`, `BeaconChain`, `BeaconRuns`, `CrossShard`,
  `ShardSafety`): the digest separates payloads without any hash assumption; nobody registered is lost, and
  committees partition the active validators after every run; the state-root list refines a map; the cross-shard
  checker accepts exactly what the protocol can produce. `ShardSafety` joins committees and accountability.
- **Notes** (`MerkleLevels`, `MerkleCompletion`, `BlockMerkle`, `NoteMerkle`, `Notes`, `Transfer`): membership
  proofs verify if and only if they are the tree's own; what a root determines is stated exactly; the native
  transfer check is exact and is compared with the circuit's equalities.
- **Conversion** (`Conversion`): when each direction succeeds, round trip, ownership, and conservation between
  public balance and notes.
- **Contract storage** (`Keys`, `KeyOrder`, `Storage`, `StorageRuns`, `Database`, `ContractCalls`, `Deployments`):
  prefix scans are exact, storage roots agree with storage over every run, buffered execution refines
  write-through, and what is deployed stays and can be called.

`Wrappers`, `Bytes`, `ByteOrder`, `Types`, `Sorting`, `Division` and `Validators` hold what these share.

## Reading the model

- Objects that the program changes in place are classes; their methods and loops are proved against functions on
  values, and the theorems over whole runs are about those functions.
- SHA-256 is a parameter `sha` with 32-byte results. A theorem that needs collision resistance assumes it only of
  a named, finite set of payloads (`CollisionFree`), since no such function is injective on all inputs. Theorems
  without that hypothesis hold for every function. splitmix64 and the digest built on it are modelled to the bit.
- Ed25519 is a pair of uninterpreted predicates (`SignatureScheme`). Serialisation is a parameter, `encode` for
  transactions and `Codec` for records; where decoding matters its round trip is a stated hypothesis.
- Machine integers: amounts and stakes carry the type `U64`, so a value out of range would not verify. Wrapping
  operations are written out (`% TWO_64`, `% TWO_128`, `bv64`). Total stake is assumed to fit 64 bits where a
  theorem says so: the program adds it up with an operation that does not report overflow.
- Sizes, lengths, indices and shard numbers are `nat`. The shard count is positive and fixed during a run. Epochs
  are `nat`; the score takes their 64-bit word, and advancing wraps at 64 bits, as the unguarded addition does in
  a build without overflow checks.
- A Wasm contract is a function from the answers it received to its next action (write, read, finish or trap),
  run with an amount of fuel. This covers every deterministic contract and every point of trapping.
- The mempool is a state machine whose events are client sends and task receptions. Its queue of 1024 commands per
  partition refuses nothing: a send into a full queue waits, and so does not happen yet.
- A hash map that the program walks in no fixed order is walked in an arbitrary order.

Where the code promises less than one might expect, a failing input is given and the exact condition is proved:

| the expectation | fails at | holds if and only if |
|---|---|---|
| an accepted transfer creates the value it opens | `Transfer.RepeatedInputAccepted` | `Transfer.AcceptedTransferConservesIff` |
| the circuit's equalities balance amounts | `Transfer.CircuitMints` | `Transfer.CircuitBalancesIffGuarded`, `Transfer.CircuitBalancesIff` |
| the inflation reward is the pro-rata share | `Rewards.InflationTruncated` | `Rewards.InflationExact` |
| a note root determines its list | `NoteMerkle.RepeatedLastLeafKeepsRoot` | `NoteMerkle.NoteRootsEqualIffSameCompletion` |
| a block root determines its list | `BlockMerkle.RepeatedLastTransactionKeepsRoot` | `BlockMerkle.BlockRootsEqualIffSameCompletion` |
| contracts never share a storage key | `Keys.SharedKeyExample` | `Keys.SharedKeyIff` |

## Model

| member | source | states |
|---|---|---|
| Accountability.AccountableSafety | src/consensus/mod.rs:322-489 | Two collectors over one validator list, each offered only votes for its own block of one height: if both tallies finalise, the validators approving both hold more than a third of all stake, each of their vote pairs is an accepted double-vote proof, and slashing them strictly lowers the total stake (to less than two thirds of it at the full penalty) |
| Finality.FinalIffQuorumBacks | src/consensus/mod.rs:322-384 | After any votes offered, the block is final if and only if some set of staked voters, each with an approving first good vote, holds strictly more than two thirds of all stake |
| Finality.StoredIsFirstSigned | src/consensus/mod.rs:322-341 | After any votes offered, the collector holds for each staked voter its first good vote and nothing else: no forged vote is stored and no good first vote is lost |
| Finality.AdmissionExact | src/consensus/mod.rs:327-341 | A vote is admitted if and only if its voter has stake, it is properly signed and the voter has none stored; each error exactly when its cause is the first |
| Finality.UnanimityFinalises | src/consensus/mod.rs:377-384 | When everybody with stake approves, the block is final |
| Finality.EveryoneHoldsAll | src/consensus/mod.rs:369-375 | While active addresses are distinct, all staked voters together hold all stake |
| Accountability.OneBlockPerHeight | src/consensus/mod.rs:377-384 | While validators that never sign two blocks of one height hold at least two thirds of the stake, two finalised blocks of that height are the same block |
| ShardSafety.ShardAccountableSafety | src/sharding/mod.rs:100-138 | After any run of the beacon chain, two conflicting blocks finalised by one shard convict active validators that hold more than a third of that shard's stake and sit in no other shard |
| ShardSafety.ConflictConvicts | src/sharding/mod.rs:125-138 | The same for any committee of a state whose committees partition the active validators |
| Accountability.CollectedInvariant | src/consensus/mod.rs:322-341 | Whatever votes a collector is offered, it holds one verified vote per voter, each from a known staked validator and each one that was offered |
| Accountability.FirstVoteStays | src/consensus/mod.rs:335-339 | A stored vote is never replaced or lost, whatever is offered later |
| Accountability.SlashingLowersStake | src/consensus/mod.rs:465-489 | Slashing any set of double voters never raises total stake, lowers it as soon as they have any, and at 10000 basis points removes all of it |
| Voting.QuorumIntersection | src/consensus/mod.rs:377-384 | Two voter sets with strictly more than two thirds of the stake share strictly more than one third |
| Voting.TallyWithinTotal | src/consensus/mod.rs:343-366 | Approving plus rejecting stake is the stake of all who voted and never exceeds the total |
| Voting.VerifyVoteExact | src/consensus/mod.rs:676-694 | Verification says yes exactly for a 32-byte key, a 64-byte signature and a signature that the key accepts for the vote without it; every other answer exactly when its cause holds |
| Voting.ValidatorStakeExact | src/consensus/mod.rs:580-585 | An address has stake exactly when some entry with that address has positive stake |
| Voting.FirstStakedCounts | src/consensus/mod.rs:580-585 | The first such entry is the one that counts |
| Voting.DetectDoubleVoteExact | src/consensus/mod.rs:433-463 | Two votes convict if and only if they are good votes of one voter for different blocks of one height |
| Voting.HonestVoterNeverConvicted | src/consensus/mod.rs:433-463 | A voter who signs one block per height is convicted by no two votes |
| Voting.SlashTakesShare | src/consensus/mod.rs:465-489 | An accepted proof takes the stake's share in basis points rounded down, at least one unit and never more than the stake |
| Voting.VoteCollector.Tally | src/consensus/mod.rs:343-366 | In whatever order the map is walked, the tally is the stake of the approvers and of the rejecters, each counted once; it fails exactly when some voter has no stake; the checked additions never overflow while total stake fits 64 bits |
| Voting.VoteCollector.CollectVote | src/consensus/mod.rs:322-341 | The result is the first failing check in order, and only an accepted vote changes the collector, at its voter's key only |
| Voting.VoteCollector.constructor | src/consensus/mod.rs:310-312 | A collector starts empty |
| Voting.CountVote | src/consensus/mod.rs:350-361 | Adding one vote's stake to its side fits 64 bits and leaves a correct tally of one more voter |
| Voting.StakeOfUnion | src/consensus/mod.rs:580-585 | Stake of voter sets obeys inclusion and exclusion, although a repeated address counts only its first staked entry |
| Voting.SlashValidator | src/consensus/mod.rs:465-489 | Refused exactly for a penalty out of range or a proof about another validator, in that order; otherwise only the stake changes, and a staked validator loses some |
| Voting.PenaltyIsShare | src/consensus/mod.rs:483-487 | The penalty is the stake's share in basis points rounded down, at least one unit and never more than the stake |
| Rewards.DistributeVotingRewards | src/consensus/mod.rs:528-578 | Each error exactly when its cause holds; otherwise the rewards sum exactly to fees plus inflation, everyone gets the floor of its proportional share, and the first validators by address one unit more until the remainder, which is below their number, is used up |
| Rewards.RemainderBound | src/consensus/mod.rs:556-572 | The floors of the proportional shares sum to at most the pool and miss it by less than the number of participants |
| Rewards.FloorSharesBounds | src/consensus/mod.rs:556-566 | Scaled by the voting stake, the sum of floors is within one unit per participant of the exact product |
| Rewards.PayFloors | src/consensus/mod.rs:556-568 | The first loop pays each participant its floor, and the running total fits 64 bits and is the sum paid |
| Rewards.PayRemainder | src/consensus/mod.rs:570-573 | The second loop adds one unit to exactly the first rewards, raising the sum by exactly the remainder |
| Rewards.InflationExact | src/consensus/mod.rs:518-526 | The inflation reward is the exact rounded-down 2 percent share if and only if that share fits 64 bits |
| Rewards.InflationPerYear | src/consensus/mod.rs:491-526 | A stake of 10000 earns 200 in a year of 365 days |
| Rewards.ParticipantsAscend | src/consensus/mod.rs:547 | The participants are paid in ascending order of address |
| Rewards.InflationTruncated | src/consensus/mod.rs:523-525 | The failing input: half of all 64-bit stake over a century earns exactly 2^64 and is paid 0 |
| Rewards.TotalTransactionFees | src/consensus/mod.rs:510-516 | The fee sum is exact, and the overflow error is raised if and only if it does not fit 64 bits |
| Rewards.ParticipantsStaked | src/consensus/mod.rs:539-554 | The participants are exactly the staked validators with a vote, and their stake is zero exactly when there are none |
| Rewards.ParticipantsForgetOrder | src/consensus/mod.rs:539-547 | With distinct active addresses the participants, and so the payout, do not depend on the order of the validator list |
| Proposer.ExactlyProportional | src/consensus/mod.rs:597-633 | With distinct active addresses, each validator is elected by exactly as many of the total-stake draws as it has stake |
| Proposer.SelectProposerBySeed | src/consensus/mod.rs:597-633 | Fails exactly when nobody has stake; otherwise elects a staked validator of the list, the one that holds the reduced draw; the two later errors are never returned |
| Proposer.SeedBias | src/consensus/mod.rs:618-622 | With seeds of any width, such as the 128 bits taken, each validator is elected by its stake times the number of whole rounds of the total stake, and at most its stake more |
| Proposer.SeedsInRounds | src/consensus/mod.rs:618-622 | The seeds electing a validator are those of the whole rounds through the stake line plus those of the last part |
| Proposer.ProposerForgetsOrder | src/consensus/mod.rs:597-633 | With distinct active addresses every permutation of the input elects the same validator at every draw |
| Proposer.EligibleAscends | src/consensus/mod.rs:608 | The stake line is laid out in ascending order of address |
| Proposer.WalkSlices | src/consensus/mod.rs:624-632 | The cumulative loop finds the slice of the stake line that holds the draw, and fails only if none does |
| Proposer.SliceTotal | src/consensus/mod.rs:624-632 | Some slice holds a draw exactly when the draw is below the total stake |
| Proposer.SliceIsInterval | src/consensus/mod.rs:624-632 | A validator is elected exactly by the draws between the stake before it and that plus its own |
| Proposer.EligibleFacts | src/consensus/mod.rs:598-611 | The eligible validators are the staked ones and hold all the stake |
| Mempool.RunsAreFifo | src/consensus/mod.rs:84-175 | Under every interleaving of submissions, requests and receptions over any number of partitions, for every sender: taken, then pending, then queued transactions are exactly those accepted, in the order of acceptance |
| Mempool.SubmissionsAreAccepted | src/consensus/mod.rs:84-86 | While no queue can have filled up, every submission is accepted, in order |
| Mempool.ReceivingEmptiesTheQueue | src/consensus/mod.rs:87-94 | A partition that receives as often as its queue is long has taken in all that was accepted |
| Mempool.StepInOrder | src/consensus/mod.rs:87-135 | Every single event keeps that order for every sender |
| Mempool.BlockContents | src/consensus/mod.rs:234-269 | A block holds at most the maximum overall and at most 100 of any sender over all partitions; a transaction stays behind only if the block is full or its sender has 100 in it |
| Mempool.EarlierPartitionsFirst | src/consensus/mod.rs:239-266 | Partitions are served in order: when a later one gave anything, an earlier one holds back only transactions of senders with 100 in the block |
| Mempool.DrainedKeepsOrder | src/consensus/mod.rs:234-269 | Repeated takes with a positive maximum empty the pool, and each sender's transactions come out complete and in order |
| Mempool.BlockProgress | src/consensus/mod.rs:234-269 | Block and remainder add up to the pending count, a non-empty pool with a positive maximum yields a non-empty block, and otherwise nothing changes |
| Mempool.Mempool.TakeForBlock | src/consensus/mod.rs:234-269 | With no other client at work, the block is built from partitions in order, each asked for the room left, and the pools keep the rest |
| Mempool.Mempool.Add | src/consensus/mod.rs:164-175 | A transaction joins the end of its sender's partition and nothing else changes |
| Mempool.Mempool.CountPending | src/consensus/mod.rs:177-201 | The length request counts everything accepted and not given out, and empties every queue on the way |
| Mempool.Mempool.PartitionForAddress | src/consensus/mod.rs:142-152 | The wrapping fold of the address modulo the partition count, and 0 for the empty address |
| Mempool.AddressHashIsBase31 | src/consensus/mod.rs:147-149 | The fold is the address read as a number in base 31, modulo 2^64, so every byte counts |
| Mempool.OneByteAddresses | src/consensus/mod.rs:142-152 | One-byte addresses go to the partition of their byte, the empty address to the first |
| Mempool.Mempool.WithPartitionCount | src/consensus/mod.rs:64-82 | At least one partition, all distinct and empty |
| Mempool.Mempool.TakeFrom | src/consensus/mod.rs:245-266 | One request of the block loop takes one partition's selection and leaves the other partitions alone |
| Mempool.StepInPlace | src/consensus/mod.rs:142-175 | Every event keeps each transaction in the partition of its sender |
| Mempool.FullBlock | src/consensus/mod.rs:241-244 | Stopping once the block is full changes nothing: the partitions not asked would have given and kept the same |
| PartitionTask.MempoolPartition.SelectForBlock | src/consensus/mod.rs:95-124 | The selection loop with its counter map takes exactly the transactions with room left and fewer than 100 of their sender before them |
| PartitionTask.SelectionIsFifo | src/consensus/mod.rs:95-124 | For each sender, what is taken followed by what stays is what was pending, in order |
| PartitionTask.StaysBehind | src/consensus/mod.rs:103-121 | A transaction is left only in front of a full block or behind 100 of its own sender |
| PartitionTask.NoOvertaking | src/consensus/mod.rs:103-121 | While a sender still fits, none of its transactions has been left behind |
| PartitionTask.SelectionBounds | src/consensus/mod.rs:103-121 | A selection never exceeds the maximum, nor 100 of one sender |
| PartitionTask.SelectionSplits | src/consensus/mod.rs:95-124 | Selected and left transactions add up to the pending ones, and a positive maximum takes at least one |
| PartitionTask.MempoolPartition.Receive | src/consensus/mod.rs:90-132 | One turn of the task consumes the head of its queue and does what that command says |
| PartitionTask.MempoolPartition.Add | src/consensus/mod.rs:164-175 | A send into a full queue waits for room; the transaction then stands last |
| PartitionTask.MempoolPartition.Ask | src/consensus/mod.rs:247-266 | A request is answered after everything queued before it was handled |
| MixingDigest.SplitMix64Bijective | src/sharding/mod.rs:740-745 | splitmix64 is a bijection on 64-bit words, with its inverse written out |
| MixingDigest.DigestSeparatesOneByte | src/sharding/mod.rs:711-726 | Payloads that differ in exactly one byte have digests that differ in every 8-byte lane, for every seed and without any hash assumption |
| MixingDigest.SplitMix64Values | src/sharding/mod.rs:740-745 | The first outputs of splitmix64 for the seeds 0 and 1 |
| MixingDigest.DigestValue | src/sharding/mod.rs:711-726 | The digest of the bytes 1, 2 under the receipt seed, byte by byte |
| MixingDigest.ScoreValue | src/sharding/mod.rs:728-738 | The score of the bytes 1, 2 in epoch 1 |
| MixingDigest.DigestSeparatesSeeds | src/sharding/mod.rs:711-726 | One payload under two different seeds never has one digest |
| MixingDigest.AbsorbedSeparates | src/sharding/mod.rs:714-718 | The absorb loop keeps payloads that differ in one byte apart from the differing byte on |
| MixingDigest.DeterministicDigest | src/sharding/mod.rs:711-726 | The two loops compute the digest that the theorems are about |
| MixingDigest.AssignmentScore | src/sharding/mod.rs:728-738 | The score loop computes the score that the theorems are about |
| MixingDigest.ScoreSeparatesEpochs | src/sharding/mod.rs:728-738 | One address scores differently in any two different epochs |
| Committees.EpochScoresDiffer | src/sharding/mod.rs:578-588 | In any two different 64-bit epochs every address gets different scores for the committee sort |
| Committees.EpochScoresSeparate | src/sharding/mod.rs:578-588 | Within an epoch, addresses that differ in exactly one byte are never tied in the committee sort |
| MixingDigest.WordInjective | src/sharding/mod.rs:714-716 | The cast to a 64-bit word loses nothing below 2^64 |
| MixingDigest.ScoreSeparatesAddresses | src/sharding/mod.rs:728-738 | In one epoch, addresses that differ in exactly one byte never tie |
| BeaconChain.CommitteesPartitionActive | src/sharding/mod.rs:206-285 | After any run, while active addresses are distinct, whatever inactive entries repeat: each active validator sits in exactly one shard of the current epoch, nobody else sits anywhere, and committee sizes differ by at most one |
| BeaconChain.KeptCommitteesPartition | src/sharding/mod.rs:261-285 | Whenever the committee log is up to date and active addresses are distinct, the members read through it partition the active validators, with sizes at most one apart |
| BeaconChain.RunsKeepCommittees | src/sharding/mod.rs:207-242 | Over every run the committee log stays sorted with one entry per epoch and shard and is up to date for the current epoch |
| BeaconChain.RebuildCommittees | src/sharding/mod.rs:510-528 | Rebuilding an epoch deals that epoch afresh and leaves the committees of every other epoch alone |
| BeaconChain.MembersOf | src/sharding/mod.rs:261-285 | A shard's validators are the active ones whose address it was dealt, once each |
| BeaconChain.OrderForgotten | src/sharding/mod.rs:207-237 | The resulting state does not depend on the order in which validators are given, even when addresses repeat |
| BeaconRuns.RunsKeepValidators | src/sharding/mod.rs:207-237 | After any run the registered validators are those of the start or of the last replacement plus everyone registered since, in order of address, stake and lock |
| BeaconRuns.CommitteesOfReachedEpochs | src/sharding/mod.rs:251-259 | After any run there is a committee on record for exactly the epochs reached and the shards that exist |
| BeaconRuns.ShardLookups | src/sharding/mod.rs:261-285 | Reading a shard's validators is refused for an unknown shard, then for an epoch not reached; otherwise it gives active validators in order |
| BeaconChain.RootsRefineMap | src/sharding/mod.rs:461-553 | Over every run of register, replace, advance and store the root list stays sorted with unique keys and 32-byte roots, and a lookup returns the last stored root, else zeros once its epoch was reached, else nothing; the epoch counter wraps at 64 bits |
| BeaconChain.LookupAfter | src/sharding/mod.rs:228-242 | What each operation does to each lookup: a store changes its own key only, a rebuild only fills gaps of its epoch |
| BeaconChain.BeaconChain.StoreShardStateRoot | src/sharding/mod.rs:461-492 | Accepts exactly a known shard with a 32-byte root, reports the shard before the length, and a refused root changes nothing |
| BeaconChain.BeaconChain.OverwriteFirst | src/sharding/mod.rs:470-477 | The search updates the first matching entry in place and reports whether there was one |
| BeaconChain.BeaconChain.RebuildEpoch | src/sharding/mod.rs:510-528 | The method follows the state function that the run theorems are about |
| BeaconChain.BeaconChain.InitializeStateRoots | src/sharding/mod.rs:530-553 | The loop adds the empty root for each missing shard of the epoch and sorts |
| BeaconChain.BeaconChain.RegisterValidator | src/sharding/mod.rs:228-232 | Follows the state function for a registration |
| BeaconChain.BeaconChain.ReplaceValidators | src/sharding/mod.rs:234-237 | Follows the state function for a replacement |
| BeaconChain.BeaconChain.AdvanceEpoch | src/sharding/mod.rs:239-242 | Follows the state function for the next epoch, the counter wrapping at 64 bits |
| BeaconChain.BeaconChain.constructor | src/sharding/mod.rs:207-218 | Starts in the genesis state that every run starts from |
| StateRoots.StoredRefines | src/sharding/mod.rs:470-491 | Storing a root is a map update: the list stays well kept and no other key changes |
| StateRoots.EmptyRootIsZeros | src/sharding/mod.rs:18-19 | The empty root is 32 zero bytes |
| StateRoots.InitializedRefines | src/sharding/mod.rs:530-553 | Initialising an epoch adds zeros for its missing shards; roots already there win |
| Committees.BuildCommitteeAssignments | src/sharding/mod.rs:564-597 | The dealing loop gives each shard the addresses at its positions modulo the shard count, in score order |
| Committees.ShuffledAscends | src/sharding/mod.rs:584-588 | Lower scores are dealt first, and of equal scores the lower address |
| Committees.DealtPartition | src/sharding/mod.rs:590-596 | With distinct active addresses each of them is dealt to exactly one shard and no other address to any |
| Committees.DealtSize | src/sharding/mod.rs:590-596 | Each shard gets the quotient, and the first ones one more |
| Committees.DealtMembers | src/sharding/mod.rs:590-596 | A shard holds exactly the addresses at positions congruent to it |
| Committees.DealtBalanced | src/sharding/mod.rs:590-596 | Any two committees differ in size by at most one |
| Committees.ShuffledForgetsOrder | src/sharding/mod.rs:578-588 | The dealing order does not depend on the order of the input, even when addresses repeat |
| CrossShard.AcceptedIffReachable | src/sharding/mod.rs:296-369 | A prepared record with its transaction's own hash is accepted by the checker if and only if prepare, validate and commit can produce it |
| CrossShard.ValidateRouteExact | src/sharding/mod.rs:632-644 | A route is valid if and only if both shards exist and differ; each error when its cause is the first |
| CrossShard.StepsInOrder | src/sharding/mod.rs:315-369 | On a genuine prepared record, validation succeeds once and first, commit once and after it, and every other attempt gets its own error |
| CrossShard.TransactionHashSeparates | src/sharding/mod.rs:646-653 | Transactions whose encodings differ in exactly one byte have different hashes, with no hash assumption |
| CrossShard.HashIsNoProof | src/sharding/mod.rs:646-709 | Bytes hashed as a transaction and as a receipt never give the same digest |
| CrossShard.ReceiptPayloadInjective | src/sharding/mod.rs:692-707 | The bytes hashed for a receipt determine hash, route and phase |
| CrossShard.ReceiptPayloadBytes | src/sharding/mod.rs:698-707 | The hash, both shards with the high byte first, and the phase as 1, 2 or 3 |
| CrossShard.CheckReceiptErrors | src/sharding/mod.rs:382-409 | A refused receipt gets the first error in the order hash, route, proof |
| CrossShard.ValidateExecutionProofs | src/sharding/mod.rs:414-447 | Accepts exactly the records with a valid route, flags closed downwards and precisely the receipts built for those flags in order; an error names the first thing wrong |
| CrossShard.IsGloballyFinalized | src/sharding/mod.rs:449-459 | For accepted records, final exactly when committed |
| CrossShard.CheckReceiptExact | src/sharding/mod.rs:375-412 | A single receipt is accepted exactly when it is the one its phase builds |
| CrossShard.PhasesNeverShareProof | src/sharding/mod.rs:692-709 | The phases of one transaction and route never share a proof, with no hash assumption |
| CrossShard.RelabelledReceiptRefused | src/sharding/mod.rs:396-409 | A genuine receipt presented under another phase is refused with the proof error |
| CrossShard.StepsStayGenuine | src/sharding/mod.rs:315-369 | Every attempted step, accepted or refused, keeps a genuine record genuine |
| CrossShard.CrossShardExecution.ValidateTransaction | src/sharding/mod.rs:315-341 | Errors in order; a refused step leaves the record as it was |
| CrossShard.CrossShardExecution.CommitTransaction | src/sharding/mod.rs:343-369 | Errors in order; a refused step leaves the record as it was |
| NoteMerkle.VerifiesIffInTree | src/privacy/mod.rs:262-370 | For proofs of any length and index, while the payloads hashed on both sides do not collide: a proof verifies if and only if it is the tree's own proof for its index; its leaf is then in the list, at its index when that is below the leaf count, and nothing verifies against the empty tree |
| NoteMerkle.ProofsVerify | src/privacy/mod.rs:262-311 | The tree's own proof of every position verifies, whatever the hash; for indices below the leaf count this is the generated proof |
| NoteMerkle.NoteMerkleTree.GenerateProof | src/privacy/mod.rs:262-295 | The out-of-bounds error exactly from the leaf count on; otherwise the proof is that of the leaf's position, siblings of odd levels duplicated |
| NoteMerkle.NoteMerkleTree.VerifyProof | src/privacy/mod.rs:297-311 | Accepts exactly when the path leads to the root |
| NoteMerkle.NoteMerkleTree.ComputeRootFromProof | src/privacy/mod.rs:573-588 | The loop computes the end of the path |
| NoteMerkle.NoteMerkleTree.Root | src/privacy/mod.rs:313-325 | The level loop equals the recursive definition of the tree |
| NoteMerkle.NoteMerkleTree.BuildNextLevel | src/privacy/mod.rs:327-337 | One round equals one level of the recursive definition |
| NoteMerkle.NoteMerkleTree.Append | src/privacy/mod.rs:250-252 | Adds one leaf at the end |
| NoteMerkle.NoteMerkleTree.FromCommitments | src/privacy/mod.rs:246-248 | Keeps the leaves as given |
| NoteMerkle.TagsSpelled | src/privacy/mod.rs:339-370 | The three tags are the program's texts |
| NoteMerkle.NoteRootBinds | src/privacy/mod.rs:313-337 | Two note lists of one length have one root if and only if they are equal |
| NoteMerkle.NoteRootsEqualIffSameCompletion | src/privacy/mod.rs:313-337 | For lists of any lengths, equal roots if and only if the lists filled up by duplication are equal |
| NoteMerkle.RepeatedLastLeafKeepsRoot | src/privacy/mod.rs:331-334 | The family where different lists share a root: repeating the last leaf of an odd list |
| NoteMerkle.LastLeafVerifiesTwice | src/privacy/mod.rs:297-311 | In an odd list the index past the end verifies the last leaf as well, so different indices can open one leaf |
| MerkleCompletion.RootsEqualIffSameCompletion | src/privacy/mod.rs:313-337 | For levels of any lengths under any tag, equal roots if and only if the completed levels are equal, while no leaf is the hash of a pair |
| MerkleLevels.PathRunsInTree | src/privacy/mod.rs:297-311 | A path that ends in a node of the tree has the tree's hashes and siblings all the way down |
| MerkleLevels.PathClimbs | src/privacy/mod.rs:262-295 | Walking a position's own siblings shows the nodes of the tree at every height |
| MerkleLevels.RootBinds | src/privacy/mod.rs:313-337 | Equal roots over equally many leaf hashes if and only if the hashes agree position by position |
| BlockMerkle.BlockRootBinds | src/blockchain/hash.rs:33-62 | Blocks of equally many transactions have one root if and only if their transaction hashes agree position by position |
| BlockMerkle.BlockRootDetermines | src/blockchain/hash.rs:23-62 | With distinct encodings the root determines the transactions among all lists of that length |
| BlockMerkle.BlockRootsEqualIffSameCompletion | src/blockchain/hash.rs:33-62 | For blocks of any lengths, with distinct encodings none of which is empty or as long as a pair: equal roots if and only if the lists filled up by duplication are equal |
| BlockMerkle.RepeatedLastTransactionKeepsRoot | src/blockchain/hash.rs:41-47 | The family where different blocks share a root: repeating the last transaction of an odd list |
| BlockMerkle.CalculateMerkleRoot | src/blockchain/hash.rs:33-62 | The in-place level loop equals the recursive definition of the tree |
| BlockMerkle.HashPairs | src/blockchain/hash.rs:41-58 | Padding and hashing pair by pair equals one level of the recursive definition |
| Notes.CommitmentsBind | src/privacy/mod.rs:128-142 | Among openings whose payloads do not collide, equal commitments mean equal value, key and blinding |
| Notes.OpeningPayloadInjective | src/privacy/mod.rs:128-136 | The bytes hashed for a note determine value, key and blinding |
| Notes.OwnerTagSpelled | src/privacy/mod.rs:559-566 | The tag hashed in front of a spending key is the program's text |
| Notes.ViewingTagSpelled | src/privacy/mod.rs:197-199 | The tag hashed in front of a viewing key is the program's text |
| Notes.KeysBind | src/privacy/mod.rs:559-570 | While the tagged keys do not collide, a recipient key has one spending key |
| Notes.HintsBind | src/privacy/mod.rs:192-205 | While the tagged keys do not collide, a viewing hint has one viewing key |
| ByteOrder.LittleEndianRoundTrip | src/privacy/mod.rs:134 | Decoding a little-endian value gives it back whenever it fits the width |
| Notes.NewNote | src/privacy/mod.rs:106-126 | A note exists exactly for a positive value, a non-zero key and a non-zero blinding |
| Transfer.VerifyTransfer | src/privacy/mod.rs:595-668 | Accepts if and only if every note is well formed and committed to, every input leads to the root and inputs equal outputs plus fee as integers within 64 bits; an error names the first thing wrong |
| Transfer.CheckInput | src/privacy/mod.rs:615-634 | One input passes exactly when it is well formed, committed to and leads to the root; otherwise the first failing check is named |
| Transfer.CheckInputs | src/privacy/mod.rs:614-639 | The input loop succeeds exactly when all inputs hold and their sum fits, with that sum; otherwise it blames the first failing check of the first failing input |
| Transfer.CheckOutputs | src/privacy/mod.rs:641-654 | The same for outputs |
| Transfer.NativeIffCircuit | src/privacy/mod.rs:892-975 | The native check accepts exactly the witnesses that satisfy every equality of the circuit and have non-zero values, keys and blindings and totals within 64 bits |
| Transfer.CircuitMints | src/privacy/mod.rs:969-974 | The circuit's equalities alone are satisfied by an input of 5 beside outputs of 2^64 + 5, for every hash |
| Transfer.CircuitBalancesIffGuarded | src/privacy/mod.rs:969-974 | While the inputs fit 64 bits, as one input always does, a witness of the equalities balances as integers if and only if outputs plus fee fit 64 bits, which is the native check's overflow guard |
| Transfer.CircuitBalancesIff | src/privacy/mod.rs:969-974 | Without a bound on the inputs, it balances if and only if both sides wrap equally often |
| Transfer.AcceptedTransferConservesIff | src/privacy/mod.rs:595-668 | The value of the distinct notes that an accepted transfer opens is at most outputs plus fee, and equals it if and only if no two inputs open the same note, which the check does not look for |
| Transfer.RepeatedInputAccepted | src/privacy/mod.rs:614-639 | The failing input: any valid input given twice, beside two outputs of its value, is accepted and creates twice the value of the one note it opens |
| Transfer.RepeatsInflate | src/privacy/mod.rs:614-639 | The inputs sum to at least the value of the distinct notes they open, and to exactly that if and only if those are pairwise different |
| Transfer.AcceptedTransferSpendsTreeNotes | src/privacy/mod.rs:595-668 | Accepted against a tree's root, every input opens a note of that tree, at its index when that is below the leaf count; the amounts balance with each input counted as often as it is given |
| Conversion.RoundTrip | src/privacy/conversion.rs:67-181 | From an account whose hint is set exactly when it has notes: converting to a note with a spendable key and back with the proof of the new leaf always succeeds, and with a fresh commitment restores account and tree root; no hash assumption |
| Conversion.PublicToAnonSucceedsIff | src/privacy/conversion.rs:67-101 | Value can be hidden if and only if it is positive and at most the balance, recipient, blinding and viewing key are not zero, and the account has no hint or the key's own |
| Conversion.PublicToAnonResult | src/privacy/conversion.rs:103-116 | What it leaves, field by field: balance less the value, the hint, the commitment at the end, everything else unchanged, and the root of the tree with the new leaf |
| Conversion.PublicToAnonErrors | src/privacy/conversion.rs:72-101 | Each refusal names the first thing wrong, in the order of the checks |
| Conversion.AnonToPublicSucceedsIff | src/privacy/conversion.rs:119-159 | A note can be spent to the balance if and only if the key opens the proof's leaf, the proof leads to the root, account and tree list the note, and the balance has room |
| Conversion.AnonToPublicResult | src/privacy/conversion.rs:155-180 | What it leaves, field by field: balance plus the value, the note gone once from account and tree, the hint gone with the last note, everything else unchanged |
| Conversion.RemoveFirstSplits | src/privacy/conversion.rs:160-173 | Removal drops the first occurrence and leaves everything else in place and in order |
| Conversion.OnlyTheOwnerSpends | src/privacy/conversion.rs:119-136 | While payloads do not collide, a successful spend of a note names its value and blinding and the very key whose owner it was made for |
| Conversion.RunsConserveWealth | src/privacy/conversion.rs:67-181 | Any sequence of attempted conversions keeps public balance plus the value of tracked notes, while commitments bind |
| Conversion.RunsCount | src/privacy/conversion.rs:97-172 | For every commitment over any run, spends plus what is tracked equals creations plus what was tracked, in the account and in the tree |
| Conversion.OverflowUnreachable | src/privacy/conversion.rs:156-159 | When balance and notes together start within 64 bits, no run reaches the overflow error |
| Conversion.MissingTreeCommitmentUnreachable | src/privacy/conversion.rs:150-153 | A verified proof's note is in the tree, so its absence is never reported while payloads do not collide |
| Conversion.StepConservesWealth | src/privacy/conversion.rs:67-181 | One conversion, accepted or refused, keeps balance plus tracked value |
| Conversion.ConvertPublicToAnon | src/privacy/conversion.rs:67-117 | The method follows the conversion function that the run theorems are about, errors in order |
| Conversion.ConvertAnonToPublic | src/privacy/conversion.rs:119-181 | The method follows the conversion function that the run theorems are about, errors in order |
| ContractCalls.BufferedRefinesDirect | src/vm/mod.rs:548-596 | For every contract and every fuel, staging then committing gives the same answers to every read, the same end, and after a finished run the same database, slots and storage root, as writing each set directly; a run that traps anywhere fails |
| Deployments.DeployedIsCallable | src/storage/mod.rs:92-124 | Whatever is deployed can be called at once: the call is never refused and ends as direct execution on the deployed state does |
| Deployments.DeployedState | src/storage/mod.rs:107-124 | After a deployment the contract has its code and an empty root, its account has no balance, nonce or notes and the code's hash, and all other contracts and accounts are as before |
| Deployments.DeployExact | src/storage/mod.rs:92-105 | A deployment succeeds if and only if sender and code are not empty and the derived address has neither account nor contract |
| Deployments.AddressesBind | src/blockchain/hash.rs:14-21 | While payloads do not collide, equal contract addresses mean equal sender and equal code |
| Deployments.RunsKeepCode | src/storage/mod.rs:92-203 | Over every run, deployed code stays: no later deployment, write or other record replaces it |
| Deployments.BatchKeepsCode | src/storage/mod.rs:153-203 | A batch changes no contract's code and no account |
| Deployments.SetKeepsCode | src/storage/mod.rs:137-145 | A single write changes no contract's code and no account |
| Deployments.CallKeepsCode | src/vm/mod.rs:548-596 | A finished call changes no contract's code and no account |
| Deployments.WriteOnceCommits | src/vm/mod.rs:548-596 | A contract that writes one slot and finishes leaves what the direct write leaves |
| Deployments.SetThenGet | src/storage/mod.rs:137-151 | A read after a write sees it, and reads of other slots see what they saw before |
| Deployments.CallRefusedIff | src/vm/mod.rs:555-569 | A call is refused before it runs exactly for a blank method, a missing or unreadable contract, no fuel, or an account that is not a contract's, in that order |
| Deployments.ContractAccountExact | src/vm/mod.rs:128-144 | An account is a contract's exactly when it is stored, readable and has a code hash |
| ContractCalls.RunsStayInStep | src/vm/mod.rs:218-242 | From every point of a run on, buffered and direct execution stay in step |
| ContractCalls.CommittedAnswers | src/vm/mod.rs:233-242 | A read through the buffer equals a read of the database with the buffer committed |
| ContractCalls.CallTouchesOneContract | src/vm/mod.rs:548-596 | A call leaves every other contract of that address length as it was: slots, record and account |
| ContractCalls.ExecuteContractCall | src/vm/mod.rs:548-596 | Errors in order; any failure, a trap included, leaves the database exactly as it was |
| ContractCalls.WasmVM.SetStorage | src/vm/mod.rs:218-230 | A write only touches the buffer, and only for a contract account |
| ContractCalls.WasmVM.GetStorage | src/vm/mod.rs:233-242 | A read sees the buffer first and then the database |
| ContractCalls.WasmVM.Call | src/vm/mod.rs:584 | Serving the host calls one by one follows the run function of the theorems |
| ContractCalls.WasmVM.TakeStagedStorageWrites | src/vm/mod.rs:273-275 | Hands out the buffer and empties it |
| ContractCalls.WasmVM.WithContext | src/vm/mod.rs:61-69 | A machine starts with an empty buffer |
| StorageRuns.RunsKeepRoots | src/storage/mod.rs:92-203 | Over every run of deployments, single writes and batches, with other records written in between, each contract's root is the root of its slots and every slot belongs to a deployed contract |
| StorageRuns.BatchEqualsSingles | src/storage/mod.rs:137-203 | A non-empty batch equals its writes made one at a time in any order, errors included |
| StorageRuns.BatchTouchesOneContract | src/storage/mod.rs:153-203 | A batch leaves slots, record and account of every other contract of that address length as they were |
| StorageRuns.SetAfterBatch | src/storage/mod.rs:137-145 | A single write after a batch equals the batch with that write added |
| Storage.BatchIsSealed | src/storage/mod.rs:167-192 | The root a batch computes beforehand is the root of the database it leaves |
| Database.RocksDbStorage.Iter | src/storage/mod.rs:323-339 | The prefix scan that stops at the first mismatch returns every key with the prefix, in order |
| Database.RocksDbStorage.ScanFrom | src/storage/mod.rs:326-336 | The iterator loop returns the entries up to the first key without the prefix |
| Database.RocksDbStorage.ComputeContractStorageRoot | src/storage/mod.rs:205-226 | The single-write path hashes exactly the contract's slots in key order |
| Database.RocksDbStorage.HashEntries | src/storage/mod.rs:214-225 | The loop hashes stripped keys and values in the order given |
| Database.RocksDbStorage.CollectSlots | src/storage/mod.rs:166-173 | The batch path gathers exactly the contract's slots |
| Database.RocksDbStorage.GatherSlots | src/storage/mod.rs:169-172 | The loop maps stripped keys to values |
| Database.RocksDbStorage.HashSlots | src/storage/mod.rs:179-191 | The batch path hashes slots in key order to the same root as the single-write path |
| Database.RocksDbStorage.PutWrites | src/storage/mod.rs:193-196 | The batch puts exactly the writes under the contract's prefix |
| Database.RocksDbStorage.SetContractStorage | src/storage/mod.rs:137-145 | Refused for a missing contract with nothing changed; otherwise writes the slot and then the record with the new root |
| Database.RocksDbStorage.GetContractStorage | src/storage/mod.rs:147-151 | Refused for a missing contract; otherwise the stored slot, if any |
| Database.RocksDbStorage.CommitContractStorageBatch | src/storage/mod.rs:153-203 | Nothing for an empty batch; refused for a missing contract with nothing changed; otherwise all writes and the new root at once |
| Database.RocksDbStorage.DeployContract | src/storage/mod.rs:92-124 | Errors in order with nothing changed; otherwise record and account at the derived address |
| Bytes.LexExact | src/storage/mod.rs:323-331 | Key order spelled out: a prefix comes first, and otherwise the first different byte decides |
| KeyOrder.ScanFindsAll | src/storage/mod.rs:323-339 | In key order, keys with a prefix are not interrupted, so stopping at the first mismatch misses none |
| KeyOrder.PrefixBetween | src/storage/mod.rs:331-333 | A key between a prefix and a key with that prefix has the prefix too |
| Keys.EqualLengthsSeparate | src/storage/keys.rs:40-52 | Among addresses of one length, a scan of one contract never meets a slot of another |
| Keys.SharedKeyIff | src/storage/keys.rs:40-52 | For any two addresses: they can share a storage key if and only if one scan prefix extends the other |
| Keys.SharedKeyExample | src/storage/keys.rs:48-52 | Two different addresses, of different lengths, that share a storage key |
| Keys.PrefixesSpelled | src/storage/keys.rs:1-10 | The prefixes are the program's texts |
| Storage.DeployTagSpelled | src/blockchain/hash.rs:16-19 | The tag hashed in front of a deployment is the program's text |
| Keys.KindsSeparate | src/storage/keys.rs:24-52 | Account, contract and slot keys never coincide, and no scan of slots meets a record |

## Left out

- Network, gossip, peer scores, RPC server, rate limits, command line, explorer, setup ceremony and main loop: input and output around libraries.
- The internals of SHA-256, Ed25519, Groth16 and field arithmetic: parameters and uninterpreted predicates stand for them. `Transfer.NativeIffCircuit` compares with the equalities that `generate_constraints` enforces after its own call of the native check, not with a proof system.
- bincode, hex and JSON: serialisation is a parameter; errors of serialisation itself are not modelled.
- Wasmtime: instruction semantics, instantiation errors, metering and linear memory. Running out of fuel is one way to trap.
- Host calls other than storage reads and writes (balance, transfers, events, caller, block height): nothing about contract storage depends on them.
- RocksDB durability and I/O errors: the database is a map scanned in key order, and a write batch is one map update.
- Blocks, transactions, stakes, notes, viewing-key and height indexes in storage: they appear only as writes under their own kinds of key.
- Fork choice, chain weight, header and vote signing, `propose_block`, `select_proposer`: one expression or a wrapper each. The seed is an input of the proposer model.
- Governance updates of the shard count: runs have a fixed count, and that it is a power of two is not needed.
- `include_receipts_in_block`, `pending_transactions` and block-derived state roots: single calls of what is modelled.
- `UtxoTransaction::validate_basic`, transaction field checks and size limits: settled by reading one branch.
- Error texts: errors are constructors with the numbers they carry.
- Votes for other blocks or heights: the collector does not filter them, so that each collector was offered only votes for its own block is a hypothesis of `Accountability.AccountableSafety`.
- CrossShard.ValidateExecutionProofs: like the program, does not recompute the transaction hash; that the record carries its own hash is a hypothesis of `CrossShard.AcceptedIffReachable`.
- Duplicate validator addresses: registration does not remove them; theorems that need active addresses to be distinct say so.
- Double spending across transfers: the check looks at one transfer and keeps no record of spent notes; within one transfer see `Transfer.AcceptedTransferConservesIff`.
- Mempool.RunsAreFifo: counts a transaction as taken when its task gives it out; a client that stops waiting for the answer loses it, in the program too.
- Mempool.Mempool.TakeForBlock: is about one client at a time; other clients' sends in between are covered by `Mempool.RunsAreFifo` and not by the bounds on block contents.
