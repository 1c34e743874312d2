/** What a collector holds after any votes, and when they make a block final (src/consensus/mod.rs). */
module Finality {
  import opened Bytes
  import opened Wrappers
  import opened Types
  import opened Sorting
  import opened Validators
  import opened Voting
  import opened Accountability

  /** Which votes are admitted, and the error of every other: the first thing wrong. */
  lemma AdmissionExact(scheme: SignatureScheme, validators: seq<Validator>, votes: Votes, vote: ConsensusVote)
    ensures var r := Admission(scheme, validators, votes, vote);
            && (r.Success? <==> Staked(validators, vote.voter) && Signed(scheme, vote) && vote.voter !in votes)
            && (r == Failure(UnknownValidator) <==> !Staked(validators, vote.voter))
            && (r == Failure(InvalidVoterKeyLength)
                <==> Staked(validators, vote.voter) && (|vote.voter| != 32 || !scheme.isKey(vote.voter)))
            && (r == Failure(InvalidSignatureLength)
                <==> && Staked(validators, vote.voter)
                     && |vote.voter| == 32 && scheme.isKey(vote.voter) && |vote.signature| != 64)
            && (r == Failure(DuplicateVote)
                <==> Staked(validators, vote.voter) && Signed(scheme, vote) && vote.voter in votes)
            && (r == Failure(InvalidSignature)
                <==> && Staked(validators, vote.voter)
                     && |vote.voter| == 32 && scheme.isKey(vote.voter) && |vote.signature| == 64
                     && !scheme.accepts(vote.voter, vote.(signature := []), vote.signature))
  {
    VerifyVoteExact(scheme, vote);
    ValidatorStakeExact(validators, vote.voter);
  }

  /** The first good vote of a voter among those offered. */
  ghost function FirstSigned(scheme: SignatureScheme, offered: seq<ConsensusVote>, voter: Bytes)
    : Option<ConsensusVote>
  {
    if offered == [] then None
    else if offered[0].voter == voter && Signed(scheme, offered[0]) then Some(offered[0])
    else FirstSigned(scheme, offered[1..], voter)
  }

  lemma {:induction false} FirstSignedSnoc(
    scheme: SignatureScheme, offered: seq<ConsensusVote>, last: ConsensusVote, voter: Bytes)
    ensures FirstSigned(scheme, offered + [last], voter)
            == if FirstSigned(scheme, offered, voter).Some? then FirstSigned(scheme, offered, voter)
               else if last.voter == voter && Signed(scheme, last) then Some(last)
               else None
  {
    hide Signed;
    if offered == [] {
      assert [] + [last] == [last];
    } else {
      assert (offered + [last])[1..] == offered[1..] + [last];
      FirstSignedSnoc(scheme, offered[1..], last, voter);
    }
  }

  /** After any votes offered, the collector holds for each staked voter its first good vote, and nothing else:
      no forged vote is ever stored, and no good first vote of a staked voter is lost. */
  lemma {:induction false} StoredIsFirstSigned(
    scheme: SignatureScheme, validators: seq<Validator>, offered: seq<ConsensusVote>, voter: Bytes)
    ensures var votes, first := Collected(scheme, validators, offered), FirstSigned(scheme, offered, voter);
            && (voter in votes <==> Staked(validators, voter) && first.Some?)
            && (voter in votes ==> first == Some(votes[voter]))
  {
    hide Signed, Staked, Admission;
    if offered != [] {
      var init, last := offered[..|offered| - 1], offered[|offered| - 1];
      StoredIsFirstSigned(scheme, validators, init, voter);
      AdmissionExact(scheme, validators, Collected(scheme, validators, init), last);
      FirstSignedSnoc(scheme, init, last, voter);
      assert offered == init + [last];
    }
  }

  /** A set of staked voters whose first good vote approves. */
  ghost predicate Backs(
    scheme: SignatureScheme, validators: seq<Validator>, offered: seq<ConsensusVote>, backers: set<Bytes>)
  {
    forall k :: k in backers ==>
      var first := FirstSigned(scheme, offered, k);
      Staked(validators, k) && first.Some? && first.value.approve
  }

  lemma StakeOfSubset(validators: seq<Validator>, few: set<Bytes>, many: set<Bytes>)
    requires few <= many
    ensures StakeOf(validators, few) <= StakeOf(validators, many)
  {
    hide StakeOf;
    StakeOfUnion(validators, few, many - few);
    assert few + (many - few) == many && few * (many - few) == {};
    StakeOfNone(validators);
  }

  /** Liveness and safety of the two-thirds rule in one: after any votes offered, the block is final if and
      only if some set of staked voters whose first good votes approve holds strictly more than two thirds of
      all stake. */
  lemma FinalIffQuorumBacks(scheme: SignatureScheme, validators: seq<Validator>, offered: seq<ConsensusVote>)
    requires TotalStake(validators) < TWO_64
    ensures IsBlockFinalized(TallyOf(validators, Collected(scheme, validators, offered)), validators)
            <==> exists backers ::
                   && Backs(scheme, validators, offered, backers)
                   && 3 * StakeOf(validators, backers) > 2 * TotalStake(validators)
  {
    hide StakeOf, TotalStake, FirstSigned, Staked, Collected;
    var votes := Collected(scheme, validators, offered);
    var approvers := Approvers(votes);
    forall k | k in approvers
      ensures var first := FirstSigned(scheme, offered, k);
              Staked(validators, k) && first.Some? && first.value.approve
    {
      StoredIsFirstSigned(scheme, validators, offered, k);
    }
    assert Backs(scheme, validators, offered, approvers);
    if backers :| Backs(scheme, validators, offered, backers)
                  && 3 * StakeOf(validators, backers) > 2 * TotalStake(validators) {
      forall k | k in backers ensures k in approvers {
        StoredIsFirstSigned(scheme, validators, offered, k);
      }
      StakeOfSubset(validators, backers, approvers);
    }
  }

  /** While active addresses are distinct, all staked voters together hold all stake. */
  lemma {:induction false} EveryoneHoldsAll(validators: seq<Validator>, everyone: set<Bytes>)
    requires DistinctAddresses(Active(validators))
    requires forall v :: v in validators && v.stake > 0 ==> v.address in everyone
    ensures StakeOf(validators, everyone) == TotalStake(validators)
  {
    if validators != [] {
      var v, rest := validators[0], validators[1..];
      if v.stake > 0 {
        var active := Active(validators);
        assert active == [v] + Active(rest);
        assert active[1..] == Active(rest);
        FilterMembers(rest, IsActive);
        forall w | w in rest && w.stake > 0 ensures w.address in everyone - {v.address} {
          assert w in validators && w in Active(rest);
          var i :| 0 <= i < |Active(rest)| && Active(rest)[i] == w;
          assert active[i + 1] == w && active[0] == v;
        }
        EveryoneHoldsAll(rest, everyone - {v.address});
      } else {
        assert Active(validators) == Active(rest);
        forall w | w in rest && w.stake > 0 ensures w.address in everyone {
          assert w in validators;
        }
        EveryoneHoldsAll(rest, everyone);
      }
    }
  }

  /** In particular, when everybody with stake approves, the block is final. */
  lemma UnanimityFinalises(
    scheme: SignatureScheme, validators: seq<Validator>, offered: seq<ConsensusVote>, everyone: set<Bytes>)
    requires 0 < TotalStake(validators) < TWO_64 && DistinctAddresses(Active(validators))
    requires Backs(scheme, validators, offered, everyone)
    requires forall v :: v in validators && v.stake > 0 ==> v.address in everyone
    ensures IsBlockFinalized(TallyOf(validators, Collected(scheme, validators, offered)), validators)
  {
    EveryoneHoldsAll(validators, everyone);
    FinalIffQuorumBacks(scheme, validators, offered);
  }
}
