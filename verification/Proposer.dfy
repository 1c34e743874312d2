/** Stake-weighted proposer selection (src/consensus/mod.rs). */
module Proposer {
  import opened Bytes
  import opened ByteOrder
  import opened Wrappers
  import opened Types
  import opened Sorting
  import opened Division
  import opened Validators
  import opened Voting

  datatype SelectionError = NoEligibleValidator | ZeroTotalStake | SelectionFailed

  function Eligible(validators: seq<Validator>): seq<Validator> {
    Sort(Active(validators), ByAddress)
  }

  /** The validator whose slice of the stake line holds `draw`, slices laid out in list order. */
  function Slice(eligible: seq<Validator>, draw: nat): (r: Option<nat>)
    ensures r.Some? ==> r.value < |eligible|
  {
    if eligible == [] then None
    else if draw < eligible[0].stake then Some(0)
    else
      var rest := Slice(eligible[1..], draw - eligible[0].stake);
      if rest.None? then None else Some(rest.value + 1)
  }

  /** The proposer for a draw already reduced modulo the total stake. */
  function ProposerAt(validators: seq<Validator>, draw: nat): Option<Validator> {
    var eligible := Eligible(validators);
    var i := Slice(eligible, draw);
    if i.None? then None else Some(eligible[i.value])
  }

  /** Total: the only error is an input without positive stake; `SelectionFailed` is never returned. */
  method SelectProposerBySeed(validators: seq<Validator>, seed: Bytes)
    returns (r: Result<Validator, SelectionError>)
    requires |seed| == 32
    ensures TotalStake(validators) == 0 ==> r == Failure(NoEligibleValidator)
    ensures TotalStake(validators) > 0 ==>
              && r.Success? && r.value in validators && r.value.stake > 0
              && ProposerAt(validators, BigEndianNat(seed[..16]) % TotalStake(validators)) == Some(r.value)
  {
    hide BigEndianNat, Slice, TotalStake;
    EligibleFacts(validators);
    var eligible := Sort(Active(validators), ByAddress);
    if eligible == [] {
      return Failure(NoEligibleValidator);
    }
    var totalStake := TotalStake(eligible);
    if totalStake == 0 {
      return Failure(ZeroTotalStake);
    }
    var draw := BigEndianNat(seed[..16]) % totalStake;
    SliceTotal(eligible, draw);
    r := WalkSlices(eligible, draw);
    SlicedMember(eligible, draw);
  }

  lemma SlicedMember(eligible: seq<Validator>, draw: nat)
    requires Slice(eligible, draw).Some?
    ensures eligible[Slice(eligible, draw).value] in eligible
  {
  }

  /** The cumulative loop. */
  method WalkSlices(eligible: seq<Validator>, draw: nat) returns (r: Result<Validator, SelectionError>)
    ensures match Slice(eligible, draw)
            case Some(i) => r == Success(eligible[i])
            case None => r == Failure(SelectionFailed)
  {
    var cumulative := 0;
    assert eligible[0..] == eligible;
    for i := 0 to |eligible|
      invariant cumulative <= draw
      invariant var rest := Slice(eligible[i..], draw - cumulative);
                Slice(eligible, draw) == if rest.None? then None else Some(rest.value + i)
    {
      cumulative := cumulative + eligible[i].stake;
      if draw < cumulative {
        return Success(eligible[i]);
      }
      assert eligible[i..][1..] == eligible[i + 1..];
    }
    return Failure(SelectionFailed);
  }

  lemma {:induction false} TotalStakeAround(before: seq<Validator>, v: Validator, after: seq<Validator>)
    ensures TotalStake(before + [v] + after) == TotalStake(before + after) + v.stake
  {
    if before == [] {
      assert before + [v] + after == [v] + after && before + after == after;
    } else {
      assert (before + [v] + after)[1..] == before[1..] + [v] + after;
      assert (before + after)[1..] == before[1..] + after;
      TotalStakeAround(before[1..], v, after);
    }
  }

  lemma {:induction false} TotalStakePermutation(a: seq<Validator>, b: seq<Validator>)
    requires multiset(a) == multiset(b)
    ensures TotalStake(a) == TotalStake(b)
  {
    PermutationFacts(a, b);
    if a != [] {
      var i := HeadPosition(a, b);
      TotalStakePermutation(a[1..], b[..i] + b[i + 1..]);
      TotalStakeAround(b[..i], a[0], b[i + 1..]);
    }
  }

  lemma {:induction false} ActiveTotal(validators: seq<Validator>)
    ensures TotalStake(Active(validators)) == TotalStake(validators)
  {
    if validators != [] {
      ActiveTotal(validators[1..]);
      var v, rest := validators[0], Active(validators[1..]);
      assert v.stake > 0 ==> Active(validators) == [v] + rest && ([v] + rest)[1..] == rest;
      assert v.stake == 0 ==> Active(validators) == rest;
    }
  }

  lemma EligibleFacts(validators: seq<Validator>)
    ensures forall v :: v in Eligible(validators) <==> v in validators && v.stake > 0
    ensures TotalStake(Eligible(validators)) == TotalStake(validators)
    ensures Eligible(validators) == [] <==> TotalStake(validators) == 0
  {
    var active, eligible := Active(validators), Eligible(validators);
    FilterMembers(validators, IsActive);
    PermutationFacts(eligible, active);
    TotalStakePermutation(eligible, active);
    ActiveTotal(validators);
    if eligible != [] {
      assert eligible[0] in active;
    }
  }

  /** The stake line is laid out in ascending order of address. */
  lemma EligibleAscends(validators: seq<Validator>)
    ensures var eligible := Eligible(validators);
            forall i, j :: 0 <= i < j < |eligible| ==> LexLe(eligible[i].address, eligible[j].address)
  {
    hide Sort;
    ByAddressOrder();
    SortSorted(Active(validators), ByAddress);
    var eligible := Eligible(validators);
    assert forall i, j :: 0 <= i < j < |eligible| ==> ByAddress(eligible[i], eligible[j]);
  }

  lemma {:induction false} SliceTotal(eligible: seq<Validator>, draw: nat)
    ensures Slice(eligible, draw).Some? <==> draw < TotalStake(eligible)
  {
    if eligible != [] && draw >= eligible[0].stake {
      SliceTotal(eligible[1..], draw - eligible[0].stake);
    }
  }

  lemma {:induction false} SliceIsInterval(eligible: seq<Validator>, i: nat, draw: nat)
    requires i < |eligible|
    ensures Slice(eligible, draw) == Some(i)
            <==> TotalStake(eligible[..i]) <= draw < TotalStake(eligible[..i]) + eligible[i].stake
  {
    if i > 0 {
      assert eligible[..i][1..] == eligible[1..][..i - 1];
      if draw >= eligible[0].stake {
        SliceIsInterval(eligible[1..], i - 1, draw - eligible[0].stake);
      }
    }
  }

  ghost function Interval(lo: nat, hi: nat): (s: set<nat>)
    requires lo <= hi
    ensures |s| == hi - lo
    ensures forall d: nat :: d in s <==> lo <= d < hi
  {
    if lo == hi then {} else Interval(lo, hi - 1) + {hi - 1}
  }

  lemma {:induction false} PrefixWithin(eligible: seq<Validator>, i: nat)
    requires i < |eligible|
    ensures TotalStake(eligible[..i]) + eligible[i].stake <= TotalStake(eligible)
  {
    if i > 0 {
      assert eligible[..i][1..] == eligible[1..][..i - 1];
      PrefixWithin(eligible[1..], i - 1);
    }
  }

  /** The draws among `0 .. total` that elect `v`. */
  ghost function DrawsFor(validators: seq<Validator>, v: Validator): set<nat> {
    set d: nat | d < TotalStake(validators) && ProposerAt(validators, d) == Some(v)
  }

  /** Exactly proportional: of the `total` draws, each validator is elected by as many as it has stake. */
  lemma ExactlyProportional(validators: seq<Validator>, v: Validator)
    requires v in validators && DistinctAddresses(Active(validators))
    ensures |DrawsFor(validators, v)| == v.stake
  {
    hide ProposerAt, Slice, Eligible, DistinctAddresses, Active;
    var eligible := Eligible(validators);
    EligibleFacts(validators);
    if v.stake > 0 {
      var i :| 0 <= i < |eligible| && eligible[i] == v;
      var lo := TotalStake(eligible[..i]);
      PrefixWithin(eligible, i);
      forall d: nat ensures d in DrawsFor(validators, v) <==> d in Interval(lo, lo + v.stake) {
        ElectedInSlice(validators, i, d);
      }
      assert DrawsFor(validators, v) == Interval(lo, lo + v.stake);
    } else {
      forall d: nat ensures d !in DrawsFor(validators, v) {
        ElectedIsStaked(validators, d);
      }
      assert DrawsFor(validators, v) == {};
    }
  }

  lemma ElectedIsStaked(validators: seq<Validator>, draw: nat)
    ensures ProposerAt(validators, draw).Some? ==> ProposerAt(validators, draw).value.stake > 0
  {
    EligibleFacts(validators);
    var i := Slice(Eligible(validators), draw);
    assert i.Some? ==> Eligible(validators)[i.value] in Eligible(validators);
  }

  lemma ElectedInSlice(validators: seq<Validator>, i: nat, draw: nat)
    requires DistinctAddresses(Active(validators)) && i < |Eligible(validators)|
    ensures var eligible := Eligible(validators);
            ProposerAt(validators, draw) == Some(eligible[i])
            <==> TotalStake(eligible[..i]) <= draw < TotalStake(eligible[..i]) + eligible[i].stake
  {
    var eligible := Eligible(validators);
    EligibleDistinct(validators);
    SliceIsInterval(eligible, i, draw);
    var j := Slice(eligible, draw);
    assert j.Some? && eligible[j.value] == eligible[i] ==> j.value == i;
  }

  lemma EligibleDistinct(validators: seq<Validator>)
    requires DistinctAddresses(Active(validators))
    ensures DistinctAddresses(Eligible(validators))
  {
    DistinctAddressesPermutation(Active(validators), Eligible(validators));
  }

  /** With distinct active addresses every permutation of the input elects the same proposer at every draw. */
  lemma ProposerForgetsOrder(a: seq<Validator>, b: seq<Validator>, draw: nat)
    requires multiset(a) == multiset(b) && DistinctAddresses(Active(a))
    ensures ProposerAt(a, draw) == ProposerAt(b, draw)
  {
    FilterPermutation(a, b, IsActive);
    DistinctAddressesSeparate(Active(a));
    ByAddressOrder();
    SortForgetsOrder(Active(a), Active(b), ByAddress);
  }

  // ----- Seeds -----

  /** How many of the first `n` numbers, reduced modulo the total stake, elect `v`. */
  ghost function SeedsFor(validators: seq<Validator>, v: Validator, n: nat): nat
    requires TotalStake(validators) > 0
  {
    if n == 0 then 0
    else SeedsFor(validators, v, n - 1)
         + if ProposerAt(validators, (n - 1) % TotalStake(validators)) == Some(v) then 1 else 0
  }

  ghost function DrawsBelow(validators: seq<Validator>, v: Validator, n: nat): set<nat> {
    set d: nat | d < n && ProposerAt(validators, d) == Some(v)
  }

  lemma DrawsBelowStep(validators: seq<Validator>, v: Validator, n: nat)
    ensures |DrawsBelow(validators, v, n + 1)|
            == |DrawsBelow(validators, v, n)| + if ProposerAt(validators, n) == Some(v) then 1 else 0
  {
    hide ProposerAt;
    var fewer := DrawsBelow(validators, v, n);
    if ProposerAt(validators, n) == Some(v) {
      assert DrawsBelow(validators, v, n + 1) == fewer + {n};
    } else {
      assert DrawsBelow(validators, v, n + 1) == fewer;
    }
  }

  /** Whole rounds through the stake line, then a part of one. */
  lemma {:induction false} SeedsInRounds(validators: seq<Validator>, v: Validator, n: nat)
    requires TotalStake(validators) > 0
    ensures var total := TotalStake(validators);
            SeedsFor(validators, v, n)
            == n / total * |DrawsFor(validators, v)| + |DrawsBelow(validators, v, n % total)|
  {
    hide ProposerAt, TotalStake;
    var total, each := TotalStake(validators), |DrawsFor(validators, v)|;
    if n == 0 {
      UniqueQuotient(0, total, 0, 0);
      assert DrawsBelow(validators, v, 0) == {};
      assert 0 * each == 0;
    } else {
      var m := n - 1;
      SeedsInRounds(validators, v, m);
      DivisionStep(m, total);
      DrawsBelowStep(validators, v, m % total);
      if m % total + 1 == total {
        assert DrawsBelow(validators, v, total) == DrawsFor(validators, v);
        assert DrawsBelow(validators, v, 0) == {};
        OneMoreRound(m / total, each);
      }
    }
  }

  lemma OneMoreRound(q: nat, each: nat)
    ensures (q + 1) * each == q * each + each
  {
  }

  lemma SomeDraws(validators: seq<Validator>, v: Validator, n: nat)
    requires n <= TotalStake(validators)
    ensures |DrawsBelow(validators, v, n)| <= |DrawsFor(validators, v)|
  {
    hide ProposerAt;
    var some, all := DrawsBelow(validators, v, n), DrawsFor(validators, v);
    assert all == some + (all - some);
  }

  /** The bias of reducing a seed of any width: each validator is elected by its exact share of the seeds,
      its stake times the number of whole rounds, up to at most its stake more. */
  lemma SeedBias(validators: seq<Validator>, v: Validator, seeds: nat)
    requires TotalStake(validators) > 0 && v in validators && DistinctAddresses(Active(validators))
    ensures var rounds := seeds / TotalStake(validators);
            rounds * v.stake <= SeedsFor(validators, v, seeds) <= (rounds + 1) * v.stake
  {
    hide ProposerAt, TotalStake;
    var total := TotalStake(validators);
    SeedsInRounds(validators, v, seeds);
    ExactlyProportional(validators, v);
    SomeDraws(validators, v, seeds % total);
    OneMoreRound(seeds / total, v.stake);
  }
}
