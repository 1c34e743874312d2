/** Round-robin committees over validators sorted by score (src/sharding/mod.rs). */
module Committees {
  import opened Bytes
  import opened Types
  import opened Sorting
  import opened Division
  import opened Validators
  import opened EpochLog
  import MixingDigest

  type ShardCommitteeAssignment = Entry<seq<Bytes>>

  type Score = Bytes -> nat

  function AddressLe(score: Score): (Bytes, Bytes) -> bool {
    (a: Bytes, b: Bytes) => score(a) < score(b) || (score(a) == score(b) && LexLe(a, b))
  }

  /** Lower score first, then lower address. */
  function ByScore(score: Score): (Validator, Validator) -> bool {
    (v: Validator, w: Validator) => AddressLe(score)(v.address, w.address)
  }

  /** The score of the program in one epoch. */
  function EpochScore(epoch: nat): Score {
    (a: Bytes) => MixingDigest.ValueOf(MixingDigest.ScoreOf(MixingDigest.Word(epoch), a))
  }

  /** In any two different 64-bit epochs, every address is scored differently. */
  lemma EpochScoresDiffer(e: U64, f: U64, address: Bytes)
    requires e != f
    ensures EpochScore(e)(address) != EpochScore(f)(address)
  {
    hide MixingDigest.Word, MixingDigest.ScoreOf, MixingDigest.ValueOf;
    var x, y := MixingDigest.Word(e), MixingDigest.Word(f);
    if x == y {
      MixingDigest.WordInjective(e, f);
    }
    MixingDigest.ScoreSeparatesEpochs(x, y, address);
    if EpochScore(e)(address) == EpochScore(f)(address) {
      MixingDigest.ValueInjective(MixingDigest.ScoreOf(x, address), MixingDigest.ScoreOf(y, address));
    }
  }

  /** Within an epoch, addresses that differ in exactly one byte are never tied. */
  lemma EpochScoresSeparate(epoch: nat, a: Bytes, b: Bytes, i: nat)
    requires MixingDigest.OneByteApart(a, b, i)
    ensures EpochScore(epoch)(a) != EpochScore(epoch)(b)
  {
    hide MixingDigest.Word, MixingDigest.ScoreOf, MixingDigest.ValueOf;
    var w := MixingDigest.Word(epoch);
    MixingDigest.ScoreSeparatesAddresses(w, a, b, i);
    if EpochScore(epoch)(a) == EpochScore(epoch)(b) {
      MixingDigest.ValueInjective(MixingDigest.ScoreOf(w, a), MixingDigest.ScoreOf(w, b));
    }
  }

  function AddressOf(v: Validator): Bytes {
    v.address
  }

  /** The addresses to deal out, in dealing order. */
  function Shuffled(score: Score, validators: seq<Validator>): seq<Bytes> {
    Map(Sort(Active(validators), ByScore(score)), AddressOf)
  }

  /** What shard `shard` of `count` gets when `addresses` are dealt round robin. */
  function Dealt(addresses: seq<Bytes>, shard: nat, count: nat): seq<Bytes>
    requires count > 0
  {
    if addresses == [] then []
    else
      var n := |addresses| - 1;
      Dealt(addresses[..n], shard, count) + if n % count == shard then [addresses[n]] else []
  }

  function Assigned(score: Score, epoch: nat, count: nat, validators: seq<Validator>)
    : (r: seq<ShardCommitteeAssignment>)
    requires count > 0
    ensures |r| == count
    ensures forall s :: 0 <= s < count ==> r[s] == Entry(epoch, s, Dealt(Shuffled(score, validators), s, count))
  {
    seq(count, s requires 0 <= s < count => Entry(epoch, s, Dealt(Shuffled(score, validators), s, count)))
  }

  lemma DealtNothing(shard: nat, count: nat)
    requires count > 0
    ensures Dealt([], shard, count) == []
  {
  }

  lemma DealtStep(addresses: seq<Bytes>, i: nat, shard: nat, count: nat)
    requires i < |addresses| && count > 0
    ensures Dealt(addresses[..i + 1], shard, count)
            == if i % count == shard then Dealt(addresses[..i], shard, count) + [addresses[i]]
               else Dealt(addresses[..i], shard, count)
  {
    assert addresses[..i + 1][..i] == addresses[..i];
  }

  method BuildCommitteeAssignments(epoch: nat, shardCount: nat, validators: seq<Validator>)
    returns (assignments: seq<ShardCommitteeAssignment>)
    requires shardCount > 0
    ensures assignments == Assigned(EpochScore(epoch), epoch, shardCount, validators)
  {
    hide EpochScore, Dealt, Shuffled;
    assignments := [];
    for shardId := 0 to shardCount
      invariant |assignments| == shardId
      invariant forall s :: 0 <= s < shardId ==> assignments[s] == Entry(epoch, s, [])
    {
      assignments := assignments + [Entry(epoch, shardId, [])];
    }
    var shuffled := Shuffled(EpochScore(epoch), validators);
    forall s | 0 <= s < shardCount ensures Dealt(shuffled[..0], s, shardCount) == [] {
      DealtNothing(s, shardCount);
    }
    for index := 0 to |shuffled|
      invariant |assignments| == shardCount
      invariant forall s :: 0 <= s < shardCount ==>
        assignments[s] == Entry(epoch, s, Dealt(shuffled[..index], s, shardCount))
    {
      forall s | 0 <= s < shardCount
        ensures Dealt(shuffled[..index + 1], s, shardCount)
                == if index % shardCount == s then Dealt(shuffled[..index], s, shardCount) + [shuffled[index]]
                   else Dealt(shuffled[..index], s, shardCount)
      {
        DealtStep(shuffled, index, s, shardCount);
      }
      var shardId := index % shardCount;
      assignments := assignments[shardId := Entry(epoch, shardId, assignments[shardId].value + [shuffled[index]])];
    }
    assert shuffled[..|shuffled|] == shuffled;
    assert assignments == Assigned(EpochScore(epoch), epoch, shardCount, validators);
  }

  /** Committee sizes: everyone gets the quotient, the first shards one more. */
  lemma {:induction false} DealtSize(addresses: seq<Bytes>, shard: nat, count: nat)
    requires shard < count
    ensures |Dealt(addresses, shard, count)|
            == |addresses| / count + if shard < |addresses| % count then 1 else 0
  {
    if addresses != [] {
      var n := |addresses| - 1;
      DealtSize(addresses[..n], shard, count);
      DivisionStep(n, count);
    } else {
      UniqueQuotient(0, count, 0, 0);
    }
  }

  lemma {:induction false} DealtMembers(addresses: seq<Bytes>, shard: nat, count: nat, a: Bytes)
    requires shard < count
    ensures a in Dealt(addresses, shard, count)
            <==> exists i :: 0 <= i < |addresses| && addresses[i] == a && i % count == shard
  {
    if addresses != [] {
      var n := |addresses| - 1;
      var init := addresses[..n];
      DealtMembers(init, shard, count, a);
      assert forall i :: 0 <= i < n ==> init[i] == addresses[i];
      if i :| 0 <= i < |addresses| && addresses[i] == a && i % count == shard && i < n {
        assert init[i] == a;
      }
    }
  }

  lemma {:induction false} DealtDistinct(addresses: seq<Bytes>, shard: nat, count: nat)
    requires shard < count && Distinct(addresses)
    ensures Distinct(Dealt(addresses, shard, count))
  {
    if addresses != [] {
      var n := |addresses| - 1;
      DealtDistinct(addresses[..n], shard, count);
      DealtMembers(addresses[..n], shard, count, addresses[n]);
    }
  }

  lemma AddressOrder(score: Score)
    ensures TotalPreorder(AddressLe(score)) && TotalPreorder(ByScore(score))
    ensures forall s :: Separates(AddressLe(score), s)
  {
    LexLaws();
    var le := AddressLe(score);
    assert TotalPreorder(le);
    forall v: Validator, w: Validator ensures ByScore(score)(v, w) || ByScore(score)(w, v) {
      assert le(v.address, w.address) || le(w.address, v.address);
    }
    forall u: Validator, v: Validator, w: Validator | ByScore(score)(u, v) && ByScore(score)(v, w)
      ensures ByScore(score)(u, w)
    {
      assert le(u.address, v.address) && le(v.address, w.address);
    }
  }

  /** Sorting validators and reading off addresses is sorting the addresses. */
  lemma ShuffledSorted(score: Score, validators: seq<Validator>)
    ensures SortedBy(Shuffled(score, validators), AddressLe(score))
  {
    AddressOrder(score);
    SortSorted(Active(validators), ByScore(score));
  }

  /** Lower scores are dealt first, and of equal scores the lower address. */
  lemma ShuffledAscends(score: Score, validators: seq<Validator>)
    ensures var dealt := Shuffled(score, validators);
            forall i, j :: 0 <= i < j < |dealt| ==>
              score(dealt[i]) < score(dealt[j])
              || (score(dealt[i]) == score(dealt[j]) && LexLe(dealt[i], dealt[j]))
  {
    hide Shuffled;
    ShuffledSorted(score, validators);
    var dealt := Shuffled(score, validators);
    assert forall i, j :: 0 <= i < j < |dealt| ==> AddressLe(score)(dealt[i], dealt[j]);
  }

  /** The dealing order depends on the set of validators and not on the order of the input, even when
      addresses repeat. */
  lemma ShuffledForgetsOrder(score: Score, a: seq<Validator>, b: seq<Validator>)
    requires multiset(a) == multiset(b)
    ensures Shuffled(score, a) == Shuffled(score, b)
  {
    FilterPermutation(a, b, IsActive);
    var sa, sb := Sort(Active(a), ByScore(score)), Sort(Active(b), ByScore(score));
    assert multiset(sa) == multiset(sb);
    MapPermutation(sa, sb, AddressOf);
    ShuffledSorted(score, a);
    ShuffledSorted(score, b);
    AddressOrder(score);
    SortedUnique(Shuffled(score, a), Shuffled(score, b), AddressLe(score));
  }

  lemma ShuffledMembers(score: Score, validators: seq<Validator>)
    ensures forall a :: a in Shuffled(score, validators)
                        <==> exists v :: v in validators && v.stake > 0 && v.address == a
    ensures DistinctAddresses(Active(validators)) ==> Distinct(Shuffled(score, validators))
  {
    hide Sort, Filter, Distinct, DistinctAddresses;
    var sorted, shuffled := Sort(Active(validators), ByScore(score)), Shuffled(score, validators);
    FilterMembers(validators, IsActive);
    PermutationFacts(sorted, Active(validators));
    forall a ensures a in shuffled <==> exists v :: v in validators && v.stake > 0 && v.address == a {
      if a in shuffled {
        var i :| 0 <= i < |shuffled| && shuffled[i] == a;
        assert sorted[i] in sorted;
      }
      if v :| v in validators && v.stake > 0 && v.address == a {
        assert v in sorted;
        var i :| 0 <= i < |sorted| && sorted[i] == v;
        assert shuffled[i] == a;
      }
    }
    if DistinctAddresses(Active(validators)) {
      ShuffledDistinct(score, validators);
    }
  }

  lemma ShuffledDistinct(score: Score, validators: seq<Validator>)
    requires DistinctAddresses(Active(validators))
    ensures Distinct(Shuffled(score, validators))
  {
    hide Sort, Filter;
    DistinctAddressesPermutation(Active(validators), Sort(Active(validators), ByScore(score)));
  }

  /** Shard `s`, and no other, was dealt `a`. */
  ghost predicate OnlyIn(addresses: seq<Bytes>, s: nat, count: nat, a: Bytes) {
    s < count && forall t :: 0 <= t < count ==> (a in Dealt(addresses, t, count) <==> t == s)
  }

  /** With distinct active addresses, each of them is dealt to exactly one shard, and no other address is. */
  lemma DealtPartition(score: Score, validators: seq<Validator>, count: nat, a: Bytes)
    requires count > 0 && DistinctAddresses(Active(validators))
    ensures var shuffled := Shuffled(score, validators);
            (exists v :: v in validators && v.stake > 0 && v.address == a)
            <==> exists s :: OnlyIn(shuffled, s, count, a)
  {
    var shuffled := Shuffled(score, validators);
    ShuffledMembers(score, validators);
    forall t | 0 <= t < count
      ensures a in Dealt(shuffled, t, count)
              <==> exists i :: 0 <= i < |shuffled| && shuffled[i] == a && i % count == t
    {
      DealtMembers(shuffled, t, count, a);
    }
    if a in shuffled {
      var i :| 0 <= i < |shuffled| && shuffled[i] == a;
      assert forall j :: 0 <= j < |shuffled| && shuffled[j] == a ==> j == i;
      assert OnlyIn(shuffled, i % count, count, a);
    }
    if s :| OnlyIn(shuffled, s, count, a) {
      assert a in Dealt(shuffled, s, count);
    }
  }

  /** Any two committees differ in size by at most one. */
  lemma DealtBalanced(addresses: seq<Bytes>, s: nat, t: nat, count: nat)
    requires s < count && t < count
    ensures |Dealt(addresses, s, count)| <= |Dealt(addresses, t, count)| + 1
  {
    DealtSize(addresses, s, count);
    DealtSize(addresses, t, count);
  }
}
