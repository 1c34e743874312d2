/** Splitting fees and inflation among the validators that voted (src/consensus/mod.rs). */
module Rewards {
  import opened Bytes
  import opened Wrappers
  import opened Types
  import opened Sorting
  import opened Validators
  import opened Voting

  const ANNUAL_INFLATION_BPS := 200
  const SECONDS_PER_YEAR := 31_536_000

  datatype ValidatorReward = ValidatorReward(validator: Bytes, amount: U64)

  datatype RewardError = FeeOverflow | RewardOverflow | NoVotingStake

  function FeeSum(transactions: seq<Transaction>): nat {
    if transactions == [] then 0
    else FeeSum(transactions[..|transactions| - 1]) + transactions[|transactions| - 1].fee
  }

  lemma {:induction false} FeeSumGrows(transactions: seq<Transaction>, n: nat)
    requires n <= |transactions|
    ensures FeeSum(transactions[..n]) <= FeeSum(transactions)
    decreases |transactions| - n
  {
    if n < |transactions| {
      assert transactions[..n + 1][..n] == transactions[..n];
      FeeSumGrows(transactions, n + 1);
    } else {
      assert transactions[..n] == transactions;
    }
  }

  /** The overflow error is raised exactly when the exact sum does not fit 64 bits. */
  method TotalTransactionFees(transactions: seq<Transaction>) returns (r: Result<U64, RewardError>)
    ensures FeeSum(transactions) < TWO_64 ==> r == Success(FeeSum(transactions))
    ensures FeeSum(transactions) >= TWO_64 ==> r == Failure(FeeOverflow)
  {
    var acc: U64 := 0;
    for i := 0 to |transactions|
      invariant acc == FeeSum(transactions[..i])
    {
      assert transactions[..i + 1][..i] == transactions[..i];
      FeeSumGrows(transactions, i + 1);
      if acc + transactions[i].fee >= TWO_64 {
        return Failure(FeeOverflow);
      }
      acc := acc + transactions[i].fee;
    }
    assert transactions[..|transactions|] == transactions;
    return Success(acc);
  }

  /** The 128-bit product and the narrowing to 64 bits are written out. */
  function InflationReward(totalStake: U64, elapsedSecs: U64): U64 {
    if totalStake == 0 || elapsedSecs == 0 then 0
    else ((totalStake * ANNUAL_INFLATION_BPS * elapsedSecs) % TWO_128 / 10_000 / SECONDS_PER_YEAR) % TWO_64
  }

  lemma DivideTwice(x: nat)
    ensures x / 10_000 / SECONDS_PER_YEAR == x / (10_000 * SECONDS_PER_YEAR)
  {
  }

  lemma SmallQuotient(x: nat)
    requires x / (10_000 * SECONDS_PER_YEAR) < TWO_64
    ensures x % TWO_128 == x
  {
    DivisionBounds(x, 10_000 * SECONDS_PER_YEAR);
  }

  /** The reward is the exact pro-rata share of the yearly 2 percent, rounded down, precisely when that
      share fits 64 bits; the 128-bit product is then never the narrower place. */
  lemma InflationExact(totalStake: U64, elapsedSecs: U64)
    ensures var share := totalStake * ANNUAL_INFLATION_BPS * elapsedSecs / (10_000 * SECONDS_PER_YEAR);
            InflationReward(totalStake, elapsedSecs) == share <==> share < TWO_64
  {
    var x := totalStake * ANNUAL_INFLATION_BPS * elapsedSecs;
    DivideTwice(x);
    assert totalStake == 0 || elapsedSecs == 0 ==> x == 0;
    if x / (10_000 * SECONDS_PER_YEAR) < TWO_64 {
      SmallQuotient(x);
    }
  }

  /** A year earns 2 percent. */
  lemma InflationPerYear()
    ensures InflationReward(10_000, 365 * 24 * 60 * 60) == 200
  {
  }

  /** Past that point the reward is wrong: half of all 64-bit stake and a century give 2^64, truncated to 0. */
  lemma InflationTruncated()
    ensures var stake, century := 0x8000_0000_0000_0000, 100 * SECONDS_PER_YEAR;
            && InflationReward(stake, century) == 0
            && stake * ANNUAL_INFLATION_BPS * century / (10_000 * SECONDS_PER_YEAR) == TWO_64
  {
  }

  /** Which validators share the pool: staked and with a vote in the collector. */
  function Voted(votes: Votes): Validator -> bool {
    (v: Validator) => v.stake > 0 && v.address in votes
  }

  function Participants(validators: seq<Validator>, votes: Votes): seq<Validator> {
    Sort(Filter(validators, Voted(votes)), ByAddress)
  }

  function FloorShare(pool: nat, stake: nat, votingStake: nat): nat
    requires votingStake > 0
  {
    pool * stake / votingStake
  }

  function FloorShares(pool: nat, participants: seq<Validator>, votingStake: nat): nat
    requires votingStake > 0
  {
    if participants == [] then 0
    else
      var n := |participants| - 1;
      FloorShares(pool, participants[..n], votingStake) + FloorShare(pool, participants[n].stake, votingStake)
  }

  lemma Distribute(a: int, b: int, c: int)
    ensures a * (b + c) == a * b + a * c
  {
  }

  lemma TimesAtLeast(s: nat, a: int, b: int)
    requires a <= b
    ensures s * a <= s * b
  {
  }

  lemma DivisionBounds(x: nat, d: nat)
    requires d > 0
    ensures d * (x / d) <= x <= d * (x / d) + (d - 1)
  {
  }

  lemma ShareBounds(pool: nat, stake: nat, d: nat)
    requires d > 0
    ensures d * FloorShare(pool, stake, d) <= pool * stake <= d * FloorShare(pool, stake, d) + (d - 1)
  {
    DivisionBounds(pool * stake, d);
  }

  lemma NoStake()
    ensures TotalStake([]) == 0
  {
  }

  lemma AddBounds(d: nat, f: nat, g: nat, x: nat, y: nat, n: nat)
    requires d > 0
    requires d * f <= x <= d * f + n * (d - 1)
    requires d * g <= y <= d * g + (d - 1)
    ensures d * (f + g) <= x + y <= d * (f + g) + (n + 1) * (d - 1)
  {
    Distribute(d, f, g);
    Distribute(d - 1, n, 1);
  }

  lemma QuotientBounds(pool: nat, s: nat, floors: nat, n: nat)
    requires s > 0 && s * floors <= pool * s <= s * floors + n * (s - 1)
    requires n > 0
    ensures floors <= pool < floors + n
  {
    Distribute(s, floors, n);
    Distribute(n, s, -1);
    if pool < floors {
      TimesAtLeast(s, pool + 1, floors);
      Distribute(s, pool, 1);
    }
    if pool >= floors + n {
      TimesAtLeast(s, floors + n, pool);
    }
  }

  /** The shares rounded down fall short of the exact shares by less than one per participant. */
  lemma {:induction false} FloorSharesBounds(pool: nat, participants: seq<Validator>, votingStake: nat)
    requires votingStake > 0
    ensures var exact, floors := pool * TotalStake(participants), FloorShares(pool, participants, votingStake);
            votingStake * floors <= exact <= votingStake * floors + |participants| * (votingStake - 1)
  {
    hide TotalStake, FloorShare;
    if participants == [] {
      NoStake();
    } else {
      var n := |participants| - 1;
      var last := participants[n].stake;
      ShareBounds(pool, last, votingStake);
      FloorSharesBounds(pool, participants[..n], votingStake);
      TotalStakeSnoc(participants);
      Distribute(pool, TotalStake(participants[..n]), last);
      AddBounds(votingStake, FloorShares(pool, participants[..n], votingStake), FloorShare(pool, last, votingStake),
                pool * TotalStake(participants[..n]), pool * last, n);
    }
  }

  lemma {:induction false} TotalStakeSnoc(validators: seq<Validator>)
    requires validators != []
    ensures TotalStake(validators)
            == TotalStake(validators[..|validators| - 1]) + validators[|validators| - 1].stake
  {
    if |validators| > 1 {
      TotalStakeSnoc(validators[1..]);
      assert validators[1..][..|validators| - 2] == validators[..|validators| - 1][1..];
    }
  }

  /** What is left to hand out in single units. */
  lemma RemainderBound(pool: nat, participants: seq<Validator>)
    requires TotalStake(participants) > 0
    ensures var floors := FloorShares(pool, participants, TotalStake(participants));
            floors <= pool < floors + |participants|
  {
    var s := TotalStake(participants);
    var floors := FloorShares(pool, participants, s);
    FloorSharesBounds(pool, participants, s);
    QuotientBounds(pool, s, floors, |participants|);
  }

  lemma {:induction false} FloorSharesPrefix(pool: nat, participants: seq<Validator>, votingStake: nat, n: nat)
    requires votingStake > 0 && n <= |participants|
    ensures FloorShares(pool, participants[..n], votingStake) <= FloorShares(pool, participants, votingStake)
    decreases |participants| - n
  {
    if n < |participants| {
      assert participants[..n + 1][..n] == participants[..n];
      FloorSharesPrefix(pool, participants, votingStake, n + 1);
    } else {
      assert participants[..n] == participants;
    }
  }

  function RewardSum(rewards: seq<ValidatorReward>): nat {
    if rewards == [] then 0 else rewards[0].amount + RewardSum(rewards[1..])
  }

  lemma {:induction false} RewardSumAppend(rewards: seq<ValidatorReward>, last: ValidatorReward)
    ensures RewardSum(rewards + [last]) == RewardSum(rewards) + last.amount
  {
    if rewards != [] {
      assert (rewards + [last])[1..] == rewards[1..] + [last];
      RewardSumAppend(rewards[1..], last);
    }
  }

  lemma {:induction false} RewardSumUpdate(rewards: seq<ValidatorReward>, i: nat, amount: U64)
    requires i < |rewards|
    ensures rewards[i].amount <= RewardSum(rewards)
    ensures RewardSum(rewards[i := rewards[i].(amount := amount)])
            == RewardSum(rewards) - rewards[i].amount + amount
  {
    if i > 0 {
      RewardSumUpdate(rewards[1..], i - 1, amount);
      assert rewards[i := rewards[i].(amount := amount)][1..]
          == rewards[1..][i - 1 := rewards[1..][i - 1].(amount := amount)];
    }
  }

  /** The whole pool is paid out: each participant, in address order, gets its share rounded down, and the
      first ones one unit more. `U64` amounts carry the proof that nothing overflows. */
  ghost predicate FairSplit(pool: nat, participants: seq<Validator>, rewards: seq<ValidatorReward>) {
    var s := TotalStake(participants);
    && s > 0
    && |rewards| == |participants|
    && RewardSum(rewards) == pool
    && var remainder := pool - FloorShares(pool, participants, s);
       && 0 <= remainder < |participants|
       && forall i :: 0 <= i < |rewards| ==>
            && rewards[i].validator == participants[i].address
            && rewards[i].amount
               == FloorShare(pool, participants[i].stake, s) + if i < remainder then 1 else 0
  }

  /** Everyone was paid its share rounded down. */
  ghost predicate FloorsPaid(pool: nat, participants: seq<Validator>, rewards: seq<ValidatorReward>)
    requires TotalStake(participants) > 0
  {
    var s := TotalStake(participants);
    && |rewards| == |participants|
    && RewardSum(rewards) == FloorShares(pool, participants, s)
    && forall k :: 0 <= k < |rewards| ==>
         && rewards[k].validator == participants[k].address
         && rewards[k].amount == FloorShare(pool, participants[k].stake, s)
  }

  /** The first payout loop. */
  method PayFloors(pool: U64, participants: seq<Validator>)
    returns (rewards: seq<ValidatorReward>, distributed: U64)
    requires TotalStake(participants) > 0
    ensures FloorsPaid(pool, participants, rewards) && distributed == RewardSum(rewards)
  {
    hide FloorShare, TotalStake;
    var votingStake := TotalStake(participants);
    RemainderBound(pool, participants);
    rewards := [];
    distributed := 0;
    for i := 0 to |participants|
      invariant |rewards| == i
      invariant distributed == FloorShares(pool, participants[..i], votingStake) == RewardSum(rewards)
      invariant forall k :: 0 <= k < i ==>
        && rewards[k].validator == participants[k].address
        && rewards[k].amount == FloorShare(pool, participants[k].stake, votingStake)
    {
      var amount := FloorShare(pool, participants[i].stake, votingStake);
      assert participants[..i + 1][..i] == participants[..i];
      FloorSharesPrefix(pool, participants, votingStake, i + 1);
      RewardSumAppend(rewards, ValidatorReward(participants[i].address, amount));
      distributed := distributed + amount;
      rewards := rewards + [ValidatorReward(participants[i].address, amount)];
    }
    assert participants[..|participants|] == participants;
  }

  /** The second payout loop: one unit to each of the first `remainder` rewards. */
  method PayRemainder(floors: seq<ValidatorReward>, remainder: nat) returns (rewards: seq<ValidatorReward>)
    requires remainder <= |floors| && RewardSum(floors) + remainder < TWO_64
    ensures |rewards| == |floors| && RewardSum(rewards) == RewardSum(floors) + remainder
    ensures forall k :: 0 <= k < |floors| ==>
              && rewards[k].validator == floors[k].validator
              && rewards[k].amount == floors[k].amount + if k < remainder then 1 else 0
  {
    rewards := floors;
    for i := 0 to remainder
      invariant |rewards| == |floors|
      invariant RewardSum(rewards) == RewardSum(floors) + i
      invariant forall k :: 0 <= k < |rewards| ==>
        && rewards[k].validator == floors[k].validator
        && rewards[k].amount == floors[k].amount + if k < i then 1 else 0
    {
      RewardSumUpdate(rewards, i, rewards[i].amount);
      var amount: U64 := rewards[i].amount + 1;
      RewardSumUpdate(rewards, i, amount);
      rewards := rewards[i := rewards[i].(amount := amount)];
    }
  }

  method DistributeVotingRewards(
    validators: seq<Validator>, collector: VoteCollector, transactions: seq<Transaction>, elapsedSecs: U64)
    returns (r: Result<seq<ValidatorReward>, RewardError>)
    requires TotalStake(validators) < TWO_64
    ensures var participants := Participants(validators, collector.votesByVoter);
            var pool := FeeSum(transactions) + InflationReward(TotalStake(validators), elapsedSecs);
            match r
            case Failure(FeeOverflow) => FeeSum(transactions) >= TWO_64
            case Failure(RewardOverflow) => FeeSum(transactions) < TWO_64 <= pool
            case Failure(NoVotingStake) => pool < TWO_64 && participants == []
            case Success(rewards) => pool < TWO_64 && FairSplit(pool, participants, rewards)
  {
    hide FloorShare, InflationReward, FloorShares, RewardSum, FeeSum, TotalStake, Participants;
    var fees := TotalTransactionFees(transactions);
    if fees.Failure? {
      return Failure(fees.error);
    }
    var inflation := InflationReward(TotalStake(validators), elapsedSecs);
    if fees.value + inflation >= TWO_64 {
      return Failure(RewardOverflow);
    }
    var pool: U64 := fees.value + inflation;
    var participants := Participants(validators, collector.votesByVoter);
    ParticipantsStaked(validators, collector.votesByVoter);
    var votingStake := TotalStake(participants);
    if votingStake == 0 {
      return Failure(NoVotingStake);
    }
    RemainderBound(pool, participants);
    var floors, distributed := PayFloors(pool, participants);
    var rewards := PayRemainder(floors, pool - distributed);
    return Success(rewards);
  }

  lemma ParticipantsStaked(validators: seq<Validator>, votes: Votes)
    ensures var ps := Participants(validators, votes);
            && (forall v :: v in ps <==> v in validators && v.stake > 0 && v.address in votes)
            && (TotalStake(ps) == 0 <==> ps == [])
  {
    var ps, voted := Participants(validators, votes), Filter(validators, Voted(votes));
    FilterMembers(validators, Voted(votes));
    PermutationFacts(ps, voted);
    if ps != [] {
      assert ps[0] in voted;
    }
  }

  /** They are paid in ascending order of address. */
  lemma ParticipantsAscend(validators: seq<Validator>, votes: Votes)
    ensures var ps := Participants(validators, votes);
            forall i, j :: 0 <= i < j < |ps| ==> LexLe(ps[i].address, ps[j].address)
  {
    hide Sort;
    ByAddressOrder();
    SortSorted(Filter(validators, Voted(votes)), ByAddress);
    var ps := Participants(validators, votes);
    assert forall i, j :: 0 <= i < j < |ps| ==> ByAddress(ps[i], ps[j]);
  }

  lemma {:induction false} VotedAreActive(validators: seq<Validator>, votes: Votes)
    ensures Filter(Active(validators), Voted(votes)) == Filter(validators, Voted(votes))
  {
    if validators != [] {
      var v, rest := validators[0], Active(validators[1..]);
      VotedAreActive(validators[1..], votes);
      assert v.stake > 0 ==> Active(validators) == [v] + rest && ([v] + rest)[1..] == rest;
      assert v.stake == 0 ==> Active(validators) == rest;
    }
  }

  /** With distinct active addresses the payout does not depend on the order of the validator list. */
  lemma ParticipantsForgetOrder(a: seq<Validator>, b: seq<Validator>, votes: Votes)
    requires multiset(a) == multiset(b) && DistinctAddresses(Active(a))
    ensures Participants(a, votes) == Participants(b, votes)
  {
    FilterPermutation(a, b, Voted(votes));
    FilterDistinct(Active(a), Voted(votes));
    VotedAreActive(a, votes);
    DistinctAddressesSeparate(Filter(a, Voted(votes)));
    ByAddressOrder();
    SortForgetsOrder(Filter(a, Voted(votes)), Filter(b, Voted(votes)), ByAddress);
  }
}
