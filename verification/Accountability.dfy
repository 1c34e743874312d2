/** Two blocks finalised at one height name the validators to slash (src/consensus/mod.rs). */
module Accountability {
  import opened Bytes
  import opened Wrappers
  import opened Types
  import opened Voting

  /** A collector after it was offered `offered`, in order; refused votes change nothing. */
  function Collected(scheme: SignatureScheme, validators: seq<Validator>, offered: seq<ConsensusVote>): Votes {
    if offered == [] then map[]
    else
      var n := |offered| - 1;
      var before := Collected(scheme, validators, offered[..n]);
      if Admission(scheme, validators, before, offered[n]).Success?
      then before[offered[n].voter := offered[n]]
      else before
  }

  /** What every run of a collector keeps: one verified vote per known voter, and it was offered. */
  lemma {:induction false} CollectedInvariant(
    scheme: SignatureScheme, validators: seq<Validator>, offered: seq<ConsensusVote>)
    ensures forall k :: k in Collected(scheme, validators, offered) ==>
              var vote := Collected(scheme, validators, offered)[k];
              vote in offered && vote.voter == k
              && VerifyVote(scheme, vote) == Success(true) && ValidatorStake(validators, k).Some?
  {
    if offered != [] {
      CollectedInvariant(scheme, validators, offered[..|offered| - 1]);
    }
  }

  /** A voter's first admissible vote is the one that stays, whatever is offered afterwards. */
  lemma {:induction false} FirstVoteStays(
    scheme: SignatureScheme, validators: seq<Validator>, offered: seq<ConsensusVote>, more: seq<ConsensusVote>)
    ensures var before := Collected(scheme, validators, offered);
            var after := Collected(scheme, validators, offered + more);
            forall k :: k in before ==> k in after && after[k] == before[k]
  {
    if more == [] {
      assert offered + more == offered;
    } else {
      var n := |more| - 1;
      FirstVoteStays(scheme, validators, offered, more[..n]);
      assert (offered + more)[..|offered + more| - 1] == offered + more[..n];
    }
  }

  /** Every vote offered is for this block. */
  ghost predicate Endorses(offered: seq<ConsensusVote>, height: U64, blockHash: Bytes) {
    forall v :: v in offered ==> v.height == height && v.blockHash == blockHash
  }

  /** The validator list after each culprit was slashed with the proof its two votes make. */
  function SlashCulprits(validators: seq<Validator>, first: Votes, second: Votes, culprits: set<Bytes>,
                         penaltyBps: nat): (r: seq<Validator>)
    requires 1 <= penaltyBps <= 10_000
    requires forall k :: k in culprits ==> k in first && k in second && first[k].voter == k
  {
    if validators == [] then []
    else
      var v := validators[0];
      var v' := if v.address in culprits
                then SlashValidator(v, DoubleVoteProof(first[v.address], second[v.address]), penaltyBps).value
                else v;
      [v'] + SlashCulprits(validators[1..], first, second, culprits, penaltyBps)
  }

  lemma {:induction false} SlashingLowersStake(
    validators: seq<Validator>, first: Votes, second: Votes, culprits: set<Bytes>, counted: set<Bytes>,
    penaltyBps: nat)
    requires 1 <= penaltyBps <= 10_000
    requires forall k :: k in culprits ==> k in first && k in second && first[k].voter == k
    requires counted <= culprits
    ensures var after := TotalStake(SlashCulprits(validators, first, second, culprits, penaltyBps));
            && after <= TotalStake(validators)
            && (StakeOf(validators, counted) > 0 ==> after < TotalStake(validators))
            && (penaltyBps == 10_000 ==> after + StakeOf(validators, counted) <= TotalStake(validators))
  {
    if validators != [] {
      var v := validators[0];
      var counted' := if v.stake > 0 && v.address in counted then counted - {v.address} else counted;
      SlashingLowersStake(validators[1..], first, second, culprits, counted', penaltyBps);
      if v.address in culprits && v.stake > 0 && penaltyBps == 10_000 {
        assert v.stake * 10_000 / 10_000 == v.stake;
      }
    }
  }

  /** Two collectors over one validator list, each offered only votes for its own block of one height.
      If both tallies finalise, the validators who approved both blocks hold more than a third of all
      stake; each of their vote pairs is an accepted double-vote proof; slashing them lowers the total
      stake, and the full penalty leaves less than two thirds of it. */
  lemma AccountableSafety(
    scheme: SignatureScheme, validators: seq<Validator>, height: U64, hashA: Bytes, hashB: Bytes,
    offeredA: seq<ConsensusVote>, offeredB: seq<ConsensusVote>, penaltyBps: nat)
    requires TotalStake(validators) < TWO_64
    requires hashA != hashB && Endorses(offeredA, height, hashA) && Endorses(offeredB, height, hashB)
    requires 1 <= penaltyBps <= 10_000
    requires IsBlockFinalized(TallyOf(validators, Collected(scheme, validators, offeredA)), validators)
    requires IsBlockFinalized(TallyOf(validators, Collected(scheme, validators, offeredB)), validators)
    ensures var a, b := Collected(scheme, validators, offeredA), Collected(scheme, validators, offeredB);
            var culprits := Approvers(a) * Approvers(b);
            && 3 * StakeOf(validators, culprits) > TotalStake(validators)
            && (forall k :: k in culprits ==>
                  && a[k].voter == k
                  && DetectDoubleVote(scheme, a[k], b[k]) == Success(DoubleVoteProof(a[k], b[k])))
            && var after := TotalStake(SlashCulprits(validators, a, b, culprits, penaltyBps));
               after < TotalStake(validators)
               && (penaltyBps == 10_000 ==> 3 * after < 2 * TotalStake(validators))
  {
    var a, b := Collected(scheme, validators, offeredA), Collected(scheme, validators, offeredB);
    var culprits := Approvers(a) * Approvers(b);
    CollectedInvariant(scheme, validators, offeredA);
    CollectedInvariant(scheme, validators, offeredB);
    QuorumIntersection(validators, Approvers(a), Approvers(b));
    SlashingLowersStake(validators, a, b, culprits, culprits, penaltyBps);
  }

  /** No voter in `honest` has verifying votes for two different blocks among these votes. */
  ghost predicate SignsOneBlock(scheme: SignatureScheme, honest: set<Bytes>,
                                offeredA: seq<ConsensusVote>, offeredB: seq<ConsensusVote>)
  {
    forall v, w :: v in offeredA && w in offeredB && v.voter == w.voter && v.voter in honest
                   && VerifyVote(scheme, v) == VerifyVote(scheme, w) == Success(true)
      ==> v.blockHash == w.blockHash
  }

  /** The contrapositive: while those who sign at most one block per height keep two thirds of the stake,
      at most one block of a height is finalised. */
  lemma OneBlockPerHeight(
    scheme: SignatureScheme, validators: seq<Validator>, height: U64, hashA: Bytes, hashB: Bytes,
    offeredA: seq<ConsensusVote>, offeredB: seq<ConsensusVote>, honest: set<Bytes>)
    requires TotalStake(validators) < TWO_64
    requires Endorses(offeredA, height, hashA) && Endorses(offeredB, height, hashB)
    requires 3 * StakeOf(validators, honest) >= 2 * TotalStake(validators)
    requires SignsOneBlock(scheme, honest, offeredA, offeredB)
    requires IsBlockFinalized(TallyOf(validators, Collected(scheme, validators, offeredA)), validators)
    requires IsBlockFinalized(TallyOf(validators, Collected(scheme, validators, offeredB)), validators)
    ensures hashA == hashB
  {
    if hashA != hashB {
      var a, b := Collected(scheme, validators, offeredA), Collected(scheme, validators, offeredB);
      var culprits := Approvers(a) * Approvers(b);
      AccountableSafety(scheme, validators, height, hashA, hashB, offeredA, offeredB, 10_000);
      StakeOfUnion(validators, culprits, honest);
      CollectedInvariant(scheme, validators, offeredA);
      CollectedInvariant(scheme, validators, offeredB);
      forall k | k in culprits ensures k !in honest {
        assert a[k] in offeredA && b[k] in offeredB;
      }
      assert culprits * honest == {};
      StakeOfNone(validators);
    }
  }
}
