/** Accountable safety inside one shard: the collector of src/sharding/mod.rs over the committee that the
    beacon chain formed. */
module ShardSafety {
  import opened Bytes
  import opened Wrappers
  import opened Types
  import opened Validators
  import opened Voting
  import opened Accountability
  import opened BeaconChain

  /** The vote pairs of `culprits` are accepted double-vote proofs, and each of them is an active validator
      that sits in this shard and in no other. */
  ghost predicate Convicted(b: Beacon, shard: nat, scheme: SignatureScheme, first: Votes, second: Votes,
                            culprits: set<Bytes>)
  {
    forall k :: k in culprits ==>
      && k in first && k in second
      && DetectDoubleVote(scheme, first[k], second[k]) == Success(DoubleVoteProof(first[k], second[k]))
      && exists v :: v in b.validators && v.stake > 0 && v.address == k && SittingOnlyIn(b, v, shard)
  }

  /** Both blocks are final for this committee at this height. */
  ghost predicate ConflictFinal(
    committee: seq<Validator>, scheme: SignatureScheme, height: U64, hashA: Bytes, hashB: Bytes,
    offeredA: seq<ConsensusVote>, offeredB: seq<ConsensusVote>)
    requires TotalStake(committee) < TWO_64
  {
    && hashA != hashB && Endorses(offeredA, height, hashA) && Endorses(offeredB, height, hashB)
    && IsBlockFinalized(TallyOf(committee, Collected(scheme, committee, offeredA)), committee)
    && IsBlockFinalized(TallyOf(committee, Collected(scheme, committee, offeredB)), committee)
  }

  /** Two blocks of one height finalised by one shard's committee convict active validators that sit in that
      shard alone and hold more than a third of its stake. */
  lemma ConflictConvicts(
    b: Beacon, shard: nat, committee: seq<Validator>, scheme: SignatureScheme, height: U64,
    hashA: Bytes, hashB: Bytes, offeredA: seq<ConsensusVote>, offeredB: seq<ConsensusVote>)
    requires shard < b.shardCount && Partitioned(b)
    requires ValidatorsForShard(b, b.currentEpoch, shard) == Success(committee)
    requires TotalStake(committee) < TWO_64
    requires ConflictFinal(committee, scheme, height, hashA, hashB, offeredA, offeredB)
    ensures var first, second := Collected(scheme, committee, offeredA), Collected(scheme, committee, offeredB);
            var culprits := Approvers(first) * Approvers(second);
            && 3 * StakeOf(committee, culprits) > TotalStake(committee)
            && Convicted(b, shard, scheme, first, second, culprits)
  {
    hide ValidatorsForShard;
    AccountableSafety(scheme, committee, height, hashA, hashB, offeredA, offeredB, 10_000);
    CollectedInvariant(scheme, committee, offeredA);
    var first, second := Collected(scheme, committee, offeredA), Collected(scheme, committee, offeredB);
    forall k | k in Approvers(first) * Approvers(second)
      ensures exists v :: v in b.validators && v.stake > 0 && v.address == k && SittingOnlyIn(b, v, shard)
    {
      var v := StakedMember(committee, k);
      var s :| SittingOnlyIn(b, v, s);
      assert s == shard;
    }
  }

  /** After any run of the beacon chain, while active addresses are distinct, a conflict in a shard of the current
      epoch convicts more than a third of that shard's stake. */
  lemma ShardAccountableSafety(
    shardCount: nat, validators: seq<Validator>, ops: seq<Op>, shard: nat,
    scheme: SignatureScheme, height: U64, hashA: Bytes, hashB: Bytes,
    offeredA: seq<ConsensusVote>, offeredB: seq<ConsensusVote>)
    requires shard < shardCount
    ensures var b := Run(shardCount, validators, ops);
            var sitting := ValidatorsForShard(b, b.currentEpoch, shard);
            DistinctAddresses(Active(b.validators)) ==>
              && sitting.Success?
              && var committee := sitting.value;
                 (TotalStake(committee) < TWO_64
                  && ConflictFinal(committee, scheme, height, hashA, hashB, offeredA, offeredB)) ==>
                   var first, second := Collected(scheme, committee, offeredA), Collected(scheme, committee, offeredB);
                   var culprits := Approvers(first) * Approvers(second);
                   && 3 * StakeOf(committee, culprits) > TotalStake(committee)
                   && Convicted(b, shard, scheme, first, second, culprits)
  {
    hide Run, ValidatorsForShard, Convicted, DistinctAddresses, SittingOnlyIn, StakeOf, TotalStake, Collected;
    var b := Run(shardCount, validators, ops);
    CommitteesPartitionActive(shardCount, validators, ops);
    if DistinctAddresses(Active(b.validators)) {
      var committee := ValidatorsForShard(b, b.currentEpoch, shard).value;
      if TotalStake(committee) < TWO_64
         && ConflictFinal(committee, scheme, height, hashA, hashB, offeredA, offeredB) {
        ConflictConvicts(b, shard, committee, scheme, height, hashA, hashB, offeredA, offeredB);
      }
    }
  }

  lemma {:induction false} StakedMember(committee: seq<Validator>, address: Bytes) returns (v: Validator)
    requires ValidatorStake(committee, address).Some?
    ensures v in committee && v.stake > 0 && v.address == address
  {
    if committee[0].address == address && committee[0].stake > 0 {
      v := committee[0];
    } else {
      v := StakedMember(committee[1..], address);
    }
  }
}
