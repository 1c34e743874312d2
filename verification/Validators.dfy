/** Orders on validators, and which validators are active. */
module Validators {
  import opened Bytes
  import opened Types
  import opened Sorting

  predicate ByAddress(v: Validator, w: Validator) {
    LexLe(v.address, w.address)
  }

  predicate IsActive(v: Validator) {
    v.stake > 0
  }

  /** `active_validators`. */
  function Active(validators: seq<Validator>): seq<Validator> {
    Filter(validators, IsActive)
  }

  lemma ByAddressOrder()
    ensures TotalPreorder(ByAddress)
  {
    LexLaws();
  }

  ghost predicate DistinctAddresses(validators: seq<Validator>) {
    forall i, j :: 0 <= i < j < |validators| ==> validators[i].address != validators[j].address
  }

  lemma DistinctAddressesSeparate(validators: seq<Validator>)
    requires DistinctAddresses(validators)
    ensures Separates(ByAddress, validators)
  {
    LexLaws();
  }

  lemma {:induction false} FilterDistinct(validators: seq<Validator>, p: Validator -> bool)
    requires DistinctAddresses(validators)
    ensures DistinctAddresses(Filter(validators, p))
  {
    if validators != [] {
      var v, rest := validators[0], Filter(validators[1..], p);
      FilterDistinct(validators[1..], p);
      FilterMembers(validators[1..], p);
      forall w | w in rest ensures w.address != v.address {
        var k :| 0 <= k < |validators[1..]| && validators[1..][k] == w;
        assert validators[k + 1] == w;
      }
    }
  }

  lemma DistinctAddressesPermutation(a: seq<Validator>, b: seq<Validator>)
    requires multiset(a) == multiset(b) && DistinctAddresses(a)
    ensures DistinctAddresses(b)
  {
    DistinctPermutation(a, b);
    PermutationFacts(a, b);
    forall i, j | 0 <= i < j < |b| ensures b[i].address != b[j].address {
      assert b[i] in a && b[j] in a;
    }
  }
}
