/** Who is registered and which committees are on record after any run of the beacon chain
    (src/sharding/mod.rs). */
module BeaconRuns {
  import opened Bytes
  import opened Wrappers
  import opened Types
  import opened Sorting
  import opened Validators
  import opened EpochLog
  import opened StateRoots
  import opened BeaconChain

  /** The validators a run leaves registered: those of the start, or of the last replacement, and everyone
      registered since. */
  function Registered(start: seq<Validator>, ops: seq<Op>): multiset<Validator> {
    if ops == [] then multiset(start)
    else
      var before := Registered(start, ops[..|ops| - 1]);
      match ops[|ops| - 1]
      case Register(v) => before + multiset{v}
      case Replace(vs) => multiset(vs)
      case Advance => before
      case Store(_, _, _) => before
  }

  /** By address, then stake, then lock. */
  ghost predicate Ascending(validators: seq<Validator>) {
    forall i, j :: 0 <= i < j < |validators| ==>
      var v, w := validators[i], validators[j];
      && LexLe(v.address, w.address)
      && (v.address == w.address ==> v.stake <= w.stake)
      && (v.address == w.address && v.stake == w.stake ==> v.lockedUntil <= w.lockedUntil)
  }

  lemma SortAscends(validators: seq<Validator>)
    ensures Ascending(Sort(validators, ValidatorLe))
  {
    hide Sort;
    ValidatorOrder();
    SortSorted(validators, ValidatorLe);
    var sorted := Sort(validators, ValidatorLe);
    assert forall i, j :: 0 <= i < j < |sorted| ==> ValidatorLe(sorted[i], sorted[j]);
  }

  lemma ValidatorsAfter(b: Beacon, op: Op)
    requires b.shardCount > 0
    ensures Apply(b, op).validators
            == match op
               case Register(v) => Sort(b.validators + [v], ValidatorLe)
               case Replace(vs) => Sort(vs, ValidatorLe)
               case _ => b.validators
  {
    hide NewCommittees, Sort;
  }

  /** Nobody registered is dropped, changed or invented, and the list is always in order. */
  lemma {:induction false} RunsKeepValidators(shardCount: nat, start: seq<Validator>, ops: seq<Op>)
    requires shardCount > 0
    ensures multiset(Run(shardCount, start, ops).validators) == Registered(start, ops)
    ensures Ascending(Run(shardCount, start, ops).validators)
  {
    hide Apply, Sort, Ascending, NewCommittees;
    if ops == [] {
      SortAscends(start);
      PermutationOfSort(start);
    } else {
      var init, last := ops[..|ops| - 1], ops[|ops| - 1];
      var b := Run(shardCount, start, init);
      RunsKeepValidators(shardCount, start, init);
      RunStep(shardCount, start, ops);
      ValidatorsAfter(b, last);
      match last
      case Register(v) =>
        SortAscends(b.validators + [v]);
        PermutationOfSort(b.validators + [v]);
      case Replace(vs) =>
        SortAscends(vs);
        PermutationOfSort(vs);
      case _ =>
    }
  }

  lemma PermutationOfSort(validators: seq<Validator>)
    ensures multiset(Sort(validators, ValidatorLe)) == multiset(validators)
  {
  }

  /** A run has committees on record for exactly the epochs it reached, one for each shard. */
  lemma {:induction false} CommitteesOfReachedEpochs(
    shardCount: nat, start: seq<Validator>, ops: seq<Op>, epoch: nat, shardId: nat)
    requires shardCount > 0
    ensures Find(Run(shardCount, start, ops).committees, epoch, shardId).Some?
            <==> epoch < TWO_64 && epoch <= Advances(ops) && shardId < shardCount
  {
    hide Apply, Find, CommitteesKept, Rebuilt, Run, Advances, NextEpoch;
    EpochOfRun(shardCount, start, ops);
    if ops == [] {
      GenesisCommittees(shardCount, start, epoch, shardId);
    } else {
      var init, last := ops[..|ops| - 1], ops[|ops| - 1];
      CommitteesOfReachedEpochs(shardCount, start, init, epoch, shardId);
      RunsKeepCommittees(shardCount, start, init);
      RunStep(shardCount, start, ops);
      CommitteesAfter(Run(shardCount, start, init), last, epoch, shardId);
      EpochOfRun(shardCount, start, init);
      AdvancesStep(ops);
      OneMoreEpoch(Advances(init), epoch);
      CurrentIsReached(Advances(init));
    }
  }

  lemma AdvancesStep(ops: seq<Op>)
    requires ops != []
    ensures Advances(ops) == Advances(ops[..|ops| - 1]) + if ops[|ops| - 1].Advance? then 1 else 0
  {
  }

  lemma GenesisCommittees(shardCount: nat, start: seq<Validator>, epoch: nat, shardId: nat)
    requires shardCount > 0
    ensures Find(Run(shardCount, start, []).committees, epoch, shardId).Some? <==> epoch == 0 && shardId < shardCount
    ensures Advances([]) == 0
  {
    hide NewCommittees, DealtNow;
    NoCommittees();
    RebuildCommittees(Beacon(shardCount, Sort(start, ValidatorLe), 0, [], []), 0);
    RebuiltCurrent(Beacon(shardCount, Sort(start, ValidatorLe), 0, [], []), 0, shardId);
  }

  lemma RebuiltCurrent(b: Beacon, epoch: nat, shardId: nat)
    requires b.shardCount > 0 && CommitteesKept(Rebuilt(b, epoch))
    ensures shardId < b.shardCount ==> Find(Rebuilt(b, epoch).committees, epoch, shardId).Some?
  {
    hide NewCommittees, DealtNow, Find;
  }

  lemma CommitteesAfter(b: Beacon, op: Op, epoch: nat, shardId: nat)
    requires CommitteesKept(b)
    ensures var after := Apply(b, op);
            && after.currentEpoch == (if op.Advance? then NextEpoch(b.currentEpoch) else b.currentEpoch)
            && (Find(after.committees, epoch, shardId).Some?
                <==> if op.Store? || epoch != after.currentEpoch then Find(b.committees, epoch, shardId).Some?
                     else shardId < b.shardCount)
  {
    hide NewCommittees, DealtNow, Find, Sort, NextEpoch, Initialized, Stored, UniqueKeys, SortedBy;
    if !op.Store? {
      var vs := match op
        case Register(v) => Sort(b.validators + [v], ValidatorLe)
        case Replace(vs) => Sort(vs, ValidatorLe)
        case _ => b.validators;
      var now := if op.Advance? then NextEpoch(b.currentEpoch) else b.currentEpoch;
      RebuildCommittees(b.(validators := vs), now);
      RebuiltCurrent(b.(validators := vs), now, shardId);
    }
  }

  /** Reading a shard's validators after a run: refused for a shard that does not exist, then for an epoch not
      reached; otherwise an ordered list of active validators. */
  lemma ShardLookups(shardCount: nat, start: seq<Validator>, ops: seq<Op>, epoch: nat, shardId: nat)
    requires shardCount > 0
    ensures var b := Run(shardCount, start, ops);
            var r := ValidatorsForShard(b, epoch, shardId);
            && (shardId >= shardCount ==> r == Failure(UnknownShard(InvalidShardId(shardId, shardCount))))
            && (shardId < shardCount && !(epoch < TWO_64 && epoch <= Advances(ops)) ==>
                  r == Failure(MissingCommitteeAssignment(epoch, shardId)))
            && (shardId < shardCount && epoch < TWO_64 && epoch <= Advances(ops) ==>
                  r.Success? && Ascending(r.value) && forall v :: v in r.value ==> v in b.validators && v.stake > 0)
  {
    hide Run, Find, Ascending, Advances;
    var b := Run(shardCount, start, ops);
    CommitteesOfReachedEpochs(shardCount, start, ops, epoch, shardId);
    if shardId < shardCount && Find(b.committees, epoch, shardId).Some? {
      var chosen := InCommittee(Find(b.committees, epoch, shardId).value);
      var members := Filter(Active(b.validators), chosen);
      SortAscends(members);
      PermutationFacts(Sort(members, ValidatorLe), members);
      FilterMembers(Active(b.validators), chosen);
      FilterMembers(b.validators, IsActive);
    }
  }
}
