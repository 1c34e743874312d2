/** Votes, the vote collector, the stake tally, finality, double-vote proofs and slashing
    (src/consensus/mod.rs). */
module Voting {
  import opened Bytes
  import opened Wrappers
  import opened Types

  datatype ConsensusVote = ConsensusVote(
    height: U64,
    blockHash: Bytes,
    voter: Bytes,
    approve: bool,
    signature: Bytes)

  datatype VoteTally = VoteTally(approveStake: U64, rejectStake: U64, totalVotes: nat)

  datatype VoteError =
    | InvalidVoterKeyLength
    | InvalidSignatureLength
    | InvalidSignature
    | UnknownValidator
    | DuplicateVote

  /** Ed25519 as two uninterpreted predicates: which 32-byte strings decode to a key, and which
      signatures a key accepts for the vote without its signature. */
  datatype SignatureScheme = SignatureScheme(
    isKey: Bytes -> bool,
    accepts: (Bytes, ConsensusVote, Bytes) -> bool)

  function VerifyVote(scheme: SignatureScheme, vote: ConsensusVote): Result<bool, VoteError> {
    if |vote.voter| != 32 || !scheme.isKey(vote.voter) then Failure(InvalidVoterKeyLength)
    else if |vote.signature| != 64 then Failure(InvalidSignatureLength)
    else Success(scheme.accepts(vote.voter, vote.(signature := []), vote.signature))
  }

  /** What a good vote is: a key of 32 bytes, a signature of 64, and the key accepts the signature for the vote
      with its signature left out. */
  ghost predicate Signed(scheme: SignatureScheme, vote: ConsensusVote) {
    && |vote.voter| == 32 && scheme.isKey(vote.voter)
    && |vote.signature| == 64
    && scheme.accepts(vote.voter, vote.(signature := []), vote.signature)
  }

  /** Verification answers yes exactly for good votes, no only for a signature that a readable key refuses,
      and otherwise names the part that cannot be read, the key first. */
  lemma VerifyVoteExact(scheme: SignatureScheme, vote: ConsensusVote)
    ensures VerifyVote(scheme, vote) == Success(true) <==> Signed(scheme, vote)
    ensures VerifyVote(scheme, vote) == Failure(InvalidVoterKeyLength)
            <==> |vote.voter| != 32 || !scheme.isKey(vote.voter)
    ensures VerifyVote(scheme, vote) == Failure(InvalidSignatureLength)
            <==> |vote.voter| == 32 && scheme.isKey(vote.voter) && |vote.signature| != 64
    ensures VerifyVote(scheme, vote) == Success(false)
            <==> && |vote.voter| == 32 && scheme.isKey(vote.voter) && |vote.signature| == 64
                 && !scheme.accepts(vote.voter, vote.(signature := []), vote.signature)
  {
  }

  /** Some validator with this address has stake. */
  ghost predicate Staked(validators: seq<Validator>, address: Bytes) {
    exists v :: v in validators && v.address == address && v.stake > 0
  }

  /** The stake of the first validator with this address and a positive stake. */
  function ValidatorStake(validators: seq<Validator>, address: Bytes): (r: Option<U64>)
    ensures r.Some? ==> r.value > 0
  {
    if validators == [] then None
    else if validators[0].address == address && validators[0].stake > 0 then Some(validators[0].stake)
    else ValidatorStake(validators[1..], address)
  }

  lemma StakedCons(validators: seq<Validator>, address: Bytes)
    requires validators != []
    ensures Staked(validators, address)
            <==> (validators[0].address == address && validators[0].stake > 0) || Staked(validators[1..], address)
  {
    assert validators == [validators[0]] + validators[1..];
    assert validators[0] in validators;
  }

  /** An address has stake exactly when some entry gives it stake. */
  lemma {:induction false} ValidatorStakeExact(validators: seq<Validator>, address: Bytes)
    ensures ValidatorStake(validators, address).Some? <==> Staked(validators, address)
  {
    if validators != [] {
      StakedCons(validators, address);
      hide Staked;
      ValidatorStakeExact(validators[1..], address);
    }
  }

  /** The first such entry counts. */
  lemma {:induction false} FirstStakedCounts(validators: seq<Validator>, address: Bytes, i: nat)
    requires i < |validators| && validators[i].address == address && validators[i].stake > 0
    requires !Staked(validators[..i], address)
    ensures ValidatorStake(validators, address) == Some(validators[i].stake)
  {
    if i > 0 {
      StakedCons(validators[..i], address);
      hide Staked;
      assert validators[..i][1..] == validators[1..][..i - 1];
      FirstStakedCounts(validators[1..], address, i - 1);
    }
  }

  /** `total_active_stake` before it is narrowed to 64 bits. */
  function TotalStake(validators: seq<Validator>): nat {
    if validators == [] then 0 else validators[0].stake + TotalStake(validators[1..])
  }

  /** The stake behind a set of addresses: each address counts its first staked validator, once. */
  function StakeOf(validators: seq<Validator>, addresses: set<Bytes>): (r: nat)
    ensures r <= TotalStake(validators)
  {
    if validators == [] then 0
    else
      var v := validators[0];
      if v.stake > 0 && v.address in addresses
      then v.stake + StakeOf(validators[1..], addresses - {v.address})
      else StakeOf(validators[1..], addresses)
  }

  lemma {:induction false} StakeOfAdd(validators: seq<Validator>, addresses: set<Bytes>, a: Bytes)
    requires a !in addresses
    ensures var s := ValidatorStake(validators, a);
            StakeOf(validators, addresses + {a})
            == StakeOf(validators, addresses) + if s.Some? then s.value else 0
  {
    if validators != [] {
      var v, rest := validators[0], validators[1..];
      if v.stake > 0 && v.address == a {
        assert addresses + {a} - {a} == addresses;
      } else if v.stake > 0 && v.address in addresses {
        assert addresses + {a} - {v.address} == (addresses - {v.address}) + {a};
        StakeOfAdd(rest, addresses - {v.address}, a);
      } else {
        StakeOfAdd(rest, addresses, a);
      }
    }
  }

  /** Inclusion and exclusion for stake. */
  lemma {:induction false} StakeOfUnion(validators: seq<Validator>, a: set<Bytes>, b: set<Bytes>)
    ensures StakeOf(validators, a) + StakeOf(validators, b)
            == StakeOf(validators, a + b) + StakeOf(validators, a * b)
  {
    if validators != [] {
      var x, rest := validators[0].address, validators[1..];
      if validators[0].stake > 0 && x in a + b {
        assert (a - {x}) + (b - {x}) == a + b - {x};
        assert (a - {x}) * (b - {x}) == a * b - {x};
        StakeOfUnion(rest, a - {x}, b - {x});
        assert x !in a ==> a - {x} == a;
        assert x !in b ==> b - {x} == b;
        assert x !in a * b ==> a * b - {x} == a * b;
      } else {
        StakeOfUnion(rest, a, b);
      }
    }
  }

  type Votes = map<Bytes, ConsensusVote>

  ghost function Approvers(votes: Votes): set<Bytes> {
    set k | k in votes && votes[k].approve
  }

  ghost function Rejecters(votes: Votes): set<Bytes> {
    set k | k in votes && !votes[k].approve
  }

  /** When a vote is admitted, and the error it gets otherwise, in the order of the checks. */
  function Admission(scheme: SignatureScheme, validators: seq<Validator>, votes: Votes, vote: ConsensusVote)
    : Result<(), VoteError>
  {
    if ValidatorStake(validators, vote.voter).None? then Failure(UnknownValidator)
    else match VerifyVote(scheme, vote)
      case Failure(e) => Failure(e)
      case Success(ok) =>
        if !ok then Failure(InvalidSignature)
        else if vote.voter in votes then Failure(DuplicateVote)
        else Success(())
  }

  class VoteCollector {
    var votesByVoter: Votes

    constructor ()
      ensures votesByVoter == map[]
    {
      votesByVoter := map[];
    }

    method CollectVote(vote: ConsensusVote, validators: seq<Validator>, scheme: SignatureScheme)
      returns (r: Result<(), VoteError>)
      modifies this
      ensures r == Admission(scheme, validators, old(votesByVoter), vote)
      ensures r.Success? ==> votesByVoter == old(votesByVoter)[vote.voter := vote]
      ensures r.Failure? ==> votesByVoter == old(votesByVoter)
    {
      if ValidatorStake(validators, vote.voter).None? {
        return Failure(UnknownValidator);
      }
      var verified := VerifyVote(scheme, vote);
      if verified.Failure? {
        return Failure(verified.error);
      }
      if !verified.value {
        return Failure(InvalidSignature);
      }
      if vote.voter in votesByVoter {
        return Failure(DuplicateVote);
      }
      votesByVoter := votesByVoter[vote.voter := vote];
      return Success(());
    }

    /** The loop runs over a hash map, so in any order. The `U64` fields of the tally carry the proof that
        `checked_add` never fails. */
    method Tally(validators: seq<Validator>) returns (r: Result<VoteTally, VoteError>)
      requires forall k :: k in votesByVoter ==> votesByVoter[k].voter == k
      requires TotalStake(validators) < TWO_64
      ensures r.Failure? <==> exists k :: k in votesByVoter && ValidatorStake(validators, k).None?
      ensures r.Failure? ==> r.error == UnknownValidator
      ensures r.Success? ==> r.value == TallyOf(validators, votesByVoter)
    {
      hide Counted, StakeOf;
      var tally := VoteTally(0, 0, 0);
      var remaining := votesByVoter.Keys;
      NothingCounted(validators, votesByVoter);
      assert votesByVoter.Keys - remaining == {};
      while remaining != {}
        invariant remaining <= votesByVoter.Keys
        invariant forall k :: k in votesByVoter.Keys - remaining ==> ValidatorStake(validators, k).Some?
        invariant Counted(validators, votesByVoter, votesByVoter.Keys - remaining, tally)
      {
        var voter :| voter in remaining;
        var vote := votesByVoter[voter];
        var stake := ValidatorStake(validators, vote.voter);
        if stake.None? {
          return Failure(UnknownValidator);
        }
        ghost var counted := votesByVoter.Keys - remaining;
        CountVote(validators, votesByVoter, counted, tally, voter, stake.value);
        if vote.approve {
          tally := tally.(approveStake := tally.approveStake + stake.value);
        } else {
          tally := tally.(rejectStake := tally.rejectStake + stake.value);
        }
        tally := tally.(totalVotes := tally.totalVotes + 1);
        remaining := remaining - {voter};
        assert votesByVoter.Keys - remaining == counted + {voter};
      }
      assert votesByVoter.Keys - remaining == votesByVoter.Keys;
      AllCounted(validators, votesByVoter, tally);
      return Success(tally);
    }
  }

  /** A tally of the votes of some of the voters. */
  ghost predicate Counted(validators: seq<Validator>, votes: Votes, counted: set<Bytes>, tally: VoteTally) {
    && tally.approveStake == StakeOf(validators, Approvers(votes) * counted)
    && tally.rejectStake == StakeOf(validators, Rejecters(votes) * counted)
    && tally.totalVotes == |counted|
  }

  lemma NothingCounted(validators: seq<Validator>, votes: Votes)
    ensures Counted(validators, votes, {}, VoteTally(0, 0, 0))
  {
    StakeOfNone(validators);
    assert Approvers(votes) * {} == {} && Rejecters(votes) * {} == {};
  }

  /** One more vote fits in 64 bits and lands on its own side only. */
  lemma CountVote(
    validators: seq<Validator>, votes: Votes, counted: set<Bytes>, tally: VoteTally, voter: Bytes, stake: U64)
    requires Counted(validators, votes, counted, tally) && voter in votes && voter !in counted
    requires ValidatorStake(validators, voter) == Some(stake) && TotalStake(validators) < TWO_64
    ensures if votes[voter].approve
            then tally.approveStake + stake < TWO_64
                 && Counted(validators, votes, counted + {voter},
                            VoteTally(tally.approveStake + stake, tally.rejectStake, tally.totalVotes + 1))
            else tally.rejectStake + stake < TWO_64
                 && Counted(validators, votes, counted + {voter},
                            VoteTally(tally.approveStake, tally.rejectStake + stake, tally.totalVotes + 1))
  {
    hide StakeOf, Approvers, Rejecters, ValidatorStake, TotalStake;
    SidesGrow(votes, counted, voter);
    if votes[voter].approve {
      StakeOfAdd(validators, Approvers(votes) * counted, voter);
    } else {
      StakeOfAdd(validators, Rejecters(votes) * counted, voter);
    }
  }

  /** A vote joins its own side and leaves the other as it was. */
  lemma SidesGrow(votes: Votes, counted: set<Bytes>, voter: Bytes)
    requires voter in votes && voter !in counted
    ensures |counted + {voter}| == |counted| + 1
    ensures votes[voter].approve ==>
              && Approvers(votes) * (counted + {voter}) == Approvers(votes) * counted + {voter}
              && Rejecters(votes) * (counted + {voter}) == Rejecters(votes) * counted
    ensures !votes[voter].approve ==>
              && Rejecters(votes) * (counted + {voter}) == Rejecters(votes) * counted + {voter}
              && Approvers(votes) * (counted + {voter}) == Approvers(votes) * counted
    ensures voter !in Approvers(votes) * counted && voter !in Rejecters(votes) * counted
  {
  }

  lemma AllCounted(validators: seq<Validator>, votes: Votes, tally: VoteTally)
    requires TotalStake(validators) < TWO_64
    requires Counted(validators, votes, votes.Keys, tally)
    ensures tally == TallyOf(validators, votes)
  {
    assert Approvers(votes) * votes.Keys == Approvers(votes);
    assert Rejecters(votes) * votes.Keys == Rejecters(votes);
  }

  ghost function TallyOf(validators: seq<Validator>, votes: Votes): VoteTally
    requires TotalStake(validators) < TWO_64
  {
    VoteTally(StakeOf(validators, Approvers(votes)), StakeOf(validators, Rejecters(votes)), |votes|)
  }

  /** A tally never counts more stake than there is. */
  lemma TallyWithinTotal(validators: seq<Validator>, votes: Votes)
    requires TotalStake(validators) < TWO_64
    ensures var t := TallyOf(validators, votes);
            t.approveStake + t.rejectStake == StakeOf(validators, votes.Keys) <= TotalStake(validators)
  {
    var a, r := Approvers(votes), Rejecters(votes);
    StakeOfUnion(validators, a, r);
    assert a * r == {} && a + r == votes.Keys;
    StakeOfNone(validators);
  }

  lemma {:induction false} StakeOfNone(validators: seq<Validator>)
    ensures StakeOf(validators, {}) == 0
  {
    if validators != [] {
      StakeOfNone(validators[1..]);
    }
  }

  predicate IsBlockFinalized(tally: VoteTally, validators: seq<Validator>) {
    var total := TotalStake(validators);
    total != 0 && tally.approveStake * 3 > total * 2
  }

  /** Strictly more than two thirds twice leaves strictly more than one third in common. */
  lemma QuorumIntersection(validators: seq<Validator>, a: set<Bytes>, b: set<Bytes>)
    requires StakeOf(validators, a) * 3 > TotalStake(validators) * 2
    requires StakeOf(validators, b) * 3 > TotalStake(validators) * 2
    ensures StakeOf(validators, a * b) * 3 > TotalStake(validators)
  {
    StakeOfUnion(validators, a, b);
  }

  datatype DoubleVoteProof = DoubleVoteProof(firstVote: ConsensusVote, secondVote: ConsensusVote)

  datatype SlashingError =
    | DifferentVoters
    | DifferentHeights
    | SameBlockHash
    | InvalidFirstVote
    | InvalidSecondVote
    | InvalidPenaltyBps
    | ValidatorDoesNotMatchProof

  function DetectDoubleVote(scheme: SignatureScheme, first: ConsensusVote, second: ConsensusVote)
    : Result<DoubleVoteProof, SlashingError>
  {
    if first.voter != second.voter then Failure(DifferentVoters)
    else if first.height != second.height then Failure(DifferentHeights)
    else if first.blockHash == second.blockHash then Failure(SameBlockHash)
    else if VerifyVote(scheme, first) != Success(true) then Failure(InvalidFirstVote)
    else if VerifyVote(scheme, second) != Success(true) then Failure(InvalidSecondVote)
    else Success(DoubleVoteProof(first, second))
  }

  function Penalty(stake: U64, penaltyBps: nat): nat {
    var computed := stake * penaltyBps / 10_000;
    var atLeastOne := if computed < 1 then 1 else computed;
    if atLeastOne < stake then atLeastOne else stake
  }

  /** The penalty is the share in basis points rounded down, but never nothing. */
  lemma PenaltyIsShare(stake: U64, penaltyBps: nat)
    requires stake > 0 && 1 <= penaltyBps <= 10_000
    ensures var p := Penalty(stake, penaltyBps);
            && 1 <= p <= stake
            && stake * penaltyBps < 10_000 * (p + 1)
            && (10_000 * p <= stake * penaltyBps || (p == 1 && stake * penaltyBps < 10_000))
  {
    var x := stake * penaltyBps;
    ShareOfStake(stake, penaltyBps);
    assert 10_000 * (x / 10_000) <= x < 10_000 * (x / 10_000 + 1);
  }

  lemma ShareOfStake(stake: nat, penaltyBps: nat)
    requires penaltyBps <= 10_000
    ensures 0 <= stake * penaltyBps <= 10_000 * stake
  {
  }

  /** Refused exactly for a penalty out of range or a proof about somebody else; an accepted proof takes the
      penalty and nothing but the penalty. */
  function SlashValidator(validator: Validator, proof: DoubleVoteProof, penaltyBps: nat)
    : (r: Result<Validator, SlashingError>)
    ensures r.Success? <==> 1 <= penaltyBps <= 10_000 && validator.address == proof.firstVote.voter
    ensures r.Failure? ==>
              r.error == if 1 <= penaltyBps <= 10_000 then ValidatorDoesNotMatchProof else InvalidPenaltyBps
    ensures r.Success? ==> r.value.(stake := validator.stake) == validator && r.value.stake <= validator.stake
    ensures r.Success? && validator.stake > 0 ==> r.value.stake < validator.stake
  {
    if penaltyBps == 0 || penaltyBps > 10_000 then Failure(InvalidPenaltyBps)
    else if validator.address != proof.firstVote.voter then Failure(ValidatorDoesNotMatchProof)
    else if validator.stake == 0 then Success(validator)
    else Success(validator.(stake := validator.stake - Penalty(validator.stake, penaltyBps)))
  }

  /** An accepted proof takes the basis-point share of the stake, rounded down but never nothing. */
  lemma SlashTakesShare(validator: Validator, proof: DoubleVoteProof, penaltyBps: nat)
    requires 1 <= penaltyBps <= 10_000 && validator.address == proof.firstVote.voter && validator.stake > 0
    ensures var r := SlashValidator(validator, proof, penaltyBps);
            && r.Success?
            && var taken := validator.stake - r.value.stake;
               && 1 <= taken <= validator.stake
               && validator.stake * penaltyBps < 10_000 * (taken + 1)
               && (10_000 * taken <= validator.stake * penaltyBps
                   || (taken == 1 && validator.stake * penaltyBps < 10_000))
  {
    PenaltyIsShare(validator.stake, penaltyBps);
  }

  /** Two votes convict exactly when they are good votes of one voter for different blocks of one height. */
  lemma DetectDoubleVoteExact(scheme: SignatureScheme, first: ConsensusVote, second: ConsensusVote)
    ensures DetectDoubleVote(scheme, first, second) == Success(DoubleVoteProof(first, second))
            <==> && Signed(scheme, first) && Signed(scheme, second)
                 && first.voter == second.voter && first.height == second.height
                 && first.blockHash != second.blockHash
    ensures DetectDoubleVote(scheme, first, second).Success?
            ==> DetectDoubleVote(scheme, first, second).value == DoubleVoteProof(first, second)
  {
    VerifyVoteExact(scheme, first);
    VerifyVoteExact(scheme, second);
  }

  /** The voter has good votes for at most one block of every height. */
  ghost predicate SignsOneBlockPerHeight(scheme: SignatureScheme, voter: Bytes) {
    forall v, w {:trigger Signed(scheme, v), Signed(scheme, w)} ::
      Signed(scheme, v) && Signed(scheme, w) && v.voter == w.voter == voter && v.height == w.height
      ==> v.blockHash == w.blockHash
  }

  /** Whoever signs one block per height is never convicted, by no two votes. */
  lemma HonestVoterNeverConvicted(scheme: SignatureScheme, first: ConsensusVote, second: ConsensusVote)
    requires SignsOneBlockPerHeight(scheme, first.voter)
    ensures DetectDoubleVote(scheme, first, second).Failure?
  {
    DetectDoubleVoteExact(scheme, first, second);
  }
}
