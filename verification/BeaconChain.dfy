/** The beacon chain: validators, epochs, the committee log and the state-root log, over whole runs
    (src/sharding/mod.rs). */
module BeaconChain {
  import opened Bytes
  import opened Wrappers
  import opened Types
  import opened Sorting
  import opened Validators
  import opened EpochLog
  import opened StateRoots
  import opened Committees

  /** `sort_validators`: by address, then stake, then lock. */
  predicate ValidatorLe(v: Validator, w: Validator) {
    LexLe(v.address, w.address)
    && (v.address == w.address ==>
          v.stake < w.stake || (v.stake == w.stake && v.lockedUntil <= w.lockedUntil))
  }

  lemma ValidatorOrder()
    ensures TotalPreorder(ValidatorLe)
    ensures forall s :: Separates(ValidatorLe, s)
  {
    LexLaws();
  }

  datatype Beacon = Beacon(
    shardCount: nat,
    validators: seq<Validator>,
    currentEpoch: nat,
    committees: seq<ShardCommitteeAssignment>,
    roots: seq<ShardStateRoot>)

  function NewCommittees(b: Beacon, epoch: nat): seq<ShardCommitteeAssignment>
    requires b.shardCount > 0
  {
    Sort(Filter(b.committees, NotEpoch(epoch))
         + Assigned(EpochScore(epoch), epoch, b.shardCount, Active(b.validators)), KeyLe<seq<Bytes>>)
  }

  /** The state after `rebuild_epoch`. */
  function Rebuilt(b: Beacon, epoch: nat): (r: Beacon)
    requires b.shardCount > 0
    ensures r.shardCount == b.shardCount
  {
    b.(currentEpoch := epoch,
       committees := NewCommittees(b, epoch),
       roots := Initialized(b.roots, epoch, b.shardCount))
  }

  function Genesis(shardCount: nat, validators: seq<Validator>): (r: Beacon)
    requires shardCount > 0
    ensures r.shardCount == shardCount
  {
    Rebuilt(Beacon(shardCount, Sort(validators, ValidatorLe), 0, [], []), 0)
  }

  datatype Op =
    | Register(validator: Validator)
    | Replace(validators: seq<Validator>)
    | Advance
    | Store(epoch: nat, shardId: nat, root: Bytes)

  /** The 64-bit epoch counter wraps. */
  function NextEpoch(epoch: nat): nat {
    (epoch + 1) % TWO_64
  }

  predicate Accepted(shardCount: nat, shardId: nat, root: Bytes) {
    shardId < shardCount && |root| == SHARD_STATE_ROOT_LENGTH
  }

  function Apply(b: Beacon, op: Op): (r: Beacon)
    requires b.shardCount > 0
    ensures r.shardCount == b.shardCount
  {
    match op
    case Register(v) => Rebuilt(b.(validators := Sort(b.validators + [v], ValidatorLe)), b.currentEpoch)
    case Replace(vs) => Rebuilt(b.(validators := Sort(vs, ValidatorLe)), b.currentEpoch)
    case Advance => Rebuilt(b, NextEpoch(b.currentEpoch))
    case Store(epoch, shardId, root) =>
      if Accepted(b.shardCount, shardId, root) then b.(roots := Stored(b.roots, epoch, shardId, root)) else b
  }

  function Run(shardCount: nat, validators: seq<Validator>, ops: seq<Op>): (r: Beacon)
    requires shardCount > 0
    ensures r.shardCount == shardCount
  {
    hide Genesis, Apply;
    if ops == [] then Genesis(shardCount, validators)
    else Apply(Run(shardCount, validators, ops[..|ops| - 1]), ops[|ops| - 1])
  }

  // ----- Committees -----

  datatype ShardConsensusError = UnknownShard(error: BeaconChainError) | MissingCommitteeAssignment(epoch: nat, shardId: nat)

  function InCommittee(addresses: seq<Bytes>): Validator -> bool {
    (v: Validator) => v.address in addresses
  }

  function ValidatorsForShard(b: Beacon, epoch: nat, shardId: nat): Result<seq<Validator>, ShardConsensusError> {
    match ValidateShardId(shardId, b.shardCount)
    case Failure(e) => Failure(UnknownShard(e))
    case Success(_) =>
      match Find(b.committees, epoch, shardId)
      case None => Failure(MissingCommitteeAssignment(epoch, shardId))
      case Some(addresses) => Success(Sort(Filter(Active(b.validators), InCommittee(addresses)), ValidatorLe))
  }

  /** The addresses dealt to a shard in the current epoch. */
  ghost function DealtNow(b: Beacon, shardId: nat): seq<Bytes>
    requires b.shardCount > 0
  {
    Dealt(Shuffled(EpochScore(b.currentEpoch), Active(b.validators)), shardId, b.shardCount)
  }

  /** What every operation keeps of the committee log: sorted, one entry per key, and up to date for the
      current epoch. */
  ghost predicate CommitteesKept(b: Beacon) {
    && b.shardCount > 0
    && UniqueKeys(b.committees) && SortedBy(b.committees, KeyLe<seq<Bytes>>)
    && forall s :: 0 <= s < b.shardCount ==> Find(b.committees, b.currentEpoch, s) == Some(DealtNow(b, s))
  }

  lemma AssignedLog(score: Score, epoch: nat, count: nat, validators: seq<Validator>)
    requires count > 0
    ensures var entries := Assigned(score, epoch, count, validators);
            && UniqueKeys(entries)
            && (forall k :: k in AsMap(entries) <==> k.0 == epoch && k.1 < count)
            && (forall s :: 0 <= s < count ==>
                  AsMap(entries)[(epoch, s)] == Dealt(Shuffled(score, validators), s, count))
  {
    hide Dealt, Shuffled, AsMap;
    var entries := Assigned(score, epoch, count, validators);
    forall k ensures k in AsMap(entries) <==> k.0 == epoch && k.1 < count {
      MapKeys(entries, k);
      if k.0 == epoch && k.1 < count {
        assert KeyOf(entries[k.1]) == k;
      }
    }
    forall s | 0 <= s < count
      ensures AsMap(entries)[(epoch, s)] == Dealt(Shuffled(score, validators), s, count)
    {
      MapMembers(entries, entries[s]);
    }
  }

  /** Rebuilding an epoch deals that epoch afresh and leaves the committees of every other epoch alone. */
  lemma RebuildCommittees(b: Beacon, epoch: nat)
    requires b.shardCount > 0 && UniqueKeys(b.committees)
    ensures CommitteesKept(Rebuilt(b, epoch))
    ensures forall s :: s >= b.shardCount ==> Find(Rebuilt(b, epoch).committees, epoch, s) == None
    ensures forall e, s :: e != epoch ==>
              Find(Rebuilt(b, epoch).committees, e, s) == Find(b.committees, e, s)
  {
    hide AsMap, Find, UniqueKeys, SortedBy, Dealt, Shuffled, Assigned, EpochScore;
    var kept := Filter(b.committees, NotEpoch(epoch));
    var entries := Assigned(EpochScore(epoch), epoch, b.shardCount, Active(b.validators));
    DropEpoch(b.committees, epoch);
    AssignedLog(EpochScore(epoch), epoch, b.shardCount, Active(b.validators));
    AppendMap(kept, entries);
    AppendUnique(kept, entries);
    SortKeepsMap(kept + entries);
    var now := NewCommittees(b, epoch);
    forall s | 0 <= s < b.shardCount ensures Find(now, epoch, s) == Some(DealtNow(Rebuilt(b, epoch), s)) {
      FindIsLookup(now, epoch, s);
    }
    forall s: nat | s >= b.shardCount ensures Find(now, epoch, s) == None {
      FindIsLookup(now, epoch, s);
    }
    forall e, s | e != epoch ensures Find(now, e, s) == Find(b.committees, e, s) {
      FindIsLookup(now, e, s);
      FindIsLookup(b.committees, e, s);
    }
  }

  lemma StoreKeepsCommittees(b: Beacon, roots: seq<ShardStateRoot>)
    requires CommitteesKept(b)
    ensures CommitteesKept(b.(roots := roots))
  {
    hide Find, Dealt, Shuffled, EpochScore, UniqueKeys, SortedBy;
    var b' := b.(roots := roots);
    forall s | 0 <= s < b.shardCount ensures Find(b'.committees, b'.currentEpoch, s) == Some(DealtNow(b', s)) {
      assert DealtNow(b', s) == DealtNow(b, s);
    }
  }

  lemma ApplyKeepsCommittees(b: Beacon, op: Op)
    requires CommitteesKept(b)
    ensures CommitteesKept(Apply(b, op))
  {
    hide NewCommittees, Find, SortedBy, Initialized, Stored, DealtNow;
    match op
    case Register(v) => RebuildCommittees(b.(validators := Sort(b.validators + [v], ValidatorLe)), b.currentEpoch);
    case Replace(vs) => RebuildCommittees(b.(validators := Sort(vs, ValidatorLe)), b.currentEpoch);
    case Advance => RebuildCommittees(b, NextEpoch(b.currentEpoch));
    case Store(epoch, shardId, root) => StoreKeepsCommittees(b, Stored(b.roots, epoch, shardId, root));
  }

  lemma NoCommittees()
    ensures UniqueKeys<seq<Bytes>>([])
  {
  }

  lemma {:induction false} RunsKeepCommittees(shardCount: nat, validators: seq<Validator>, ops: seq<Op>)
    requires shardCount > 0
    ensures CommitteesKept(Run(shardCount, validators, ops))
  {
    hide CommitteesKept, Rebuilt, Apply;
    if ops == [] {
      NoCommittees();
      RebuildCommittees(Beacon(shardCount, Sort(validators, ValidatorLe), 0, [], []), 0);
    } else {
      RunsKeepCommittees(shardCount, validators, ops[..|ops| - 1]);
      ApplyKeepsCommittees(Run(shardCount, validators, ops[..|ops| - 1]), ops[|ops| - 1]);
    }
  }

  /** The members of a shard: the active validators whose address the shard was dealt, once each. */
  lemma MembersOf(b: Beacon, shardId: nat)
    requires CommitteesKept(b) && shardId < b.shardCount && DistinctAddresses(Active(b.validators))
    ensures var r := ValidatorsForShard(b, b.currentEpoch, shardId);
            && r.Success?
            && (forall v :: v in r.value <==> v in b.validators && v.stake > 0 && v.address in DealtNow(b, shardId))
            && |r.value| == |DealtNow(b, shardId)|
  {
    hide NewCommittees, Dealt, Shuffled, EpochScore, Find, UniqueKeys, SortedBy;
    var dealt := DealtNow(b, shardId);
    var active := Active(b.validators);
    FilterMembers(b.validators, IsActive);
    FilterDistinct(active, IsActive);
    var shuffled := Shuffled(EpochScore(b.currentEpoch), active);
    ShuffledMembers(EpochScore(b.currentEpoch), active);
    DealtDistinct(shuffled, shardId, b.shardCount);
    forall a | a in dealt ensures exists v :: v in active && v.address == a {
      DealtMembers(shuffled, shardId, b.shardCount, a);
      var i :| 0 <= i < |shuffled| && shuffled[i] == a;
      assert a in shuffled;
    }
    SelectedByAddress(active, dealt);
  }

  lemma SelectedByAddress(active: seq<Validator>, addresses: seq<Bytes>)
    requires DistinctAddresses(active) && Distinct(addresses)
    requires forall a :: a in addresses ==> exists v :: v in active && v.address == a
    ensures var members := Sort(Filter(active, InCommittee(addresses)), ValidatorLe);
            && (forall v :: v in members <==> v in active && v.address in addresses)
            && |members| == |addresses|
  {
    var chosen := Filter(active, InCommittee(addresses));
    var members := Sort(chosen, ValidatorLe);
    FilterMembers(active, InCommittee(addresses));
    PermutationFacts(members, chosen);
    FilterDistinct(active, InCommittee(addresses));
    DistinctAddressesPermutation(chosen, members);
    var named := Map(members, AddressOf);
    forall a ensures a in named <==> a in addresses {
      if a in named {
        var i :| 0 <= i < |named| && named[i] == a;
        assert members[i] in members;
      }
      if a in addresses {
        var v :| v in active && v.address == a;
        assert v in members;
        var i :| 0 <= i < |members| && members[i] == v;
        assert named[i] == a;
      }
    }
    SameMembersSameLength(named, addresses);
  }

  /** `v` is a member of shard `s` and of no other, in the current epoch. */
  ghost predicate SittingOnlyIn(b: Beacon, v: Validator, s: nat) {
    s < b.shardCount
    && forall t :: 0 <= t < b.shardCount ==>
         var members := ValidatorsForShard(b, b.currentEpoch, t);
         members.Success? && (v in members.value <==> t == s)
  }

  /** The committees of the current epoch partition the active validators: each sits in exactly one shard,
      nobody else sits anywhere, and committee sizes differ by at most one. */
  ghost predicate Partitioned(b: Beacon) {
    && (forall v :: v in b.validators && v.stake > 0 ==> exists s :: SittingOnlyIn(b, v, s))
    && (forall s, t :: 0 <= s < b.shardCount && 0 <= t < b.shardCount ==>
          var ms, mt := ValidatorsForShard(b, b.currentEpoch, s), ValidatorsForShard(b, b.currentEpoch, t);
          && ms.Success? && mt.Success?
          && |ms.value| <= |mt.value| + 1
          && forall v :: v in ms.value ==> v in b.validators && v.stake > 0)
  }

  lemma KeptCommitteesPartition(b: Beacon)
    requires CommitteesKept(b) && DistinctAddresses(Active(b.validators))
    ensures Partitioned(b)
  {
    hide Dealt, Shuffled, ValidatorsForShard, EpochScore;
    forall s | 0 <= s < b.shardCount
      ensures var r := ValidatorsForShard(b, b.currentEpoch, s);
              && r.Success? && |r.value| == |DealtNow(b, s)|
              && forall v :: v in r.value <==> v in b.validators && v.stake > 0 && v.address in DealtNow(b, s)
    {
      MembersOf(b, s);
    }
    forall s, t | 0 <= s < b.shardCount && 0 <= t < b.shardCount
      ensures |DealtNow(b, s)| <= |DealtNow(b, t)| + 1
    {
      DealtBalanced(Shuffled(EpochScore(b.currentEpoch), Active(b.validators)), s, t, b.shardCount);
    }
    forall v | v in b.validators && v.stake > 0 ensures exists s :: SittingOnlyIn(b, v, s) {
      var s := SeatOf(b, v);
      assert SittingOnlyIn(b, v, s);
    }
  }

  /** After any run, while the active validators' addresses are distinct, the committees partition them. */
  lemma CommitteesPartitionActive(shardCount: nat, validators: seq<Validator>, ops: seq<Op>)
    requires shardCount > 0
    ensures var b := Run(shardCount, validators, ops);
            DistinctAddresses(Active(b.validators)) ==> Partitioned(b)
  {
    hide Run, CommitteesKept, Partitioned, DistinctAddresses;
    var b := Run(shardCount, validators, ops);
    RunsKeepCommittees(shardCount, validators, ops);
    if DistinctAddresses(Active(b.validators)) {
      KeptCommitteesPartition(b);
    }
  }

  lemma SeatOf(b: Beacon, v: Validator) returns (s: nat)
    requires b.shardCount > 0 && DistinctAddresses(Active(b.validators)) && v in b.validators && v.stake > 0
    ensures s < b.shardCount
    ensures forall t :: 0 <= t < b.shardCount ==> (v.address in DealtNow(b, t) <==> t == s)
  {
    hide Dealt, Shuffled, EpochScore;
    var active := Active(b.validators);
    FilterMembers(b.validators, IsActive);
    FilterDistinct(active, IsActive);
    DealtPartition(EpochScore(b.currentEpoch), active, b.shardCount, v.address);
    s :| OnlyIn(Shuffled(EpochScore(b.currentEpoch), active), s, b.shardCount, v.address);
  }

  /** Nothing in the state depends on the order in which a validator list is given. */
  lemma OrderForgotten(b: Beacon, vs: seq<Validator>, ws: seq<Validator>)
    requires b.shardCount > 0 && multiset(vs) == multiset(ws)
    ensures Apply(b, Replace(vs)) == Apply(b, Replace(ws))
    ensures Genesis(b.shardCount, vs) == Genesis(b.shardCount, ws)
  {
    ValidatorOrder();
    SortForgetsOrder(vs, ws, ValidatorLe);
  }

  // ----- State roots -----

  /** The last root that a run stored under a key, if any. */
  function LastStored(shardCount: nat, ops: seq<Op>, epoch: nat, shardId: nat): Option<Bytes> {
    if ops == [] then None
    else
      var last := ops[|ops| - 1];
      if last.Store? && last.epoch == epoch && last.shardId == shardId && Accepted(shardCount, shardId, last.root)
      then Some(last.root)
      else LastStored(shardCount, ops[..|ops| - 1], epoch, shardId)
  }

  function Advances(ops: seq<Op>): nat {
    if ops == [] then 0 else Advances(ops[..|ops| - 1]) + if ops[|ops| - 1].Advance? then 1 else 0
  }

  /** What a lookup answers after a run: the last stored root, else zeros once the epoch was reached. */
  function Expected(shardCount: nat, ops: seq<Op>, k: Key): Option<Bytes> {
    var last := LastStored(shardCount, ops, k.0, k.1);
    if last.Some? then last
    else if k.0 <= Advances(ops) && k.0 < TWO_64 && k.1 < shardCount then Some(EMPTY_SHARD_STATE_ROOT)
    else None
  }

  lemma LookupInitialized(log: seq<ShardStateRoot>, epoch: nat, count: nat, k: Key)
    requires WellKept(log)
    ensures var after := Initialized(log, epoch, count);
            && WellKept(after)
            && Find(after, k.0, k.1)
               == if Find(log, k.0, k.1).None? && k.0 == epoch && k.1 < count then Some(EMPTY_SHARD_STATE_ROOT)
                  else Find(log, k.0, k.1)
  {
    hide WellKept, Initialized, EmptyRoots, Find, AsMap;
    InitializedRefines(log, epoch, count);
    EmptyRootsKeys(epoch, count, k);
    FindIsLookup(log, k.0, k.1);
    FindIsLookup(Initialized(log, epoch, count), k.0, k.1);
  }

  lemma LookupStored(log: seq<ShardStateRoot>, epoch: nat, shardId: nat, root: Bytes, k: Key)
    requires WellKept(log) && |root| == SHARD_STATE_ROOT_LENGTH
    ensures var after := Stored(log, epoch, shardId, root);
            && WellKept(after)
            && Find(after, k.0, k.1) == if k == (epoch, shardId) then Some(root) else Find(log, k.0, k.1)
  {
    hide WellKept, Stored, Find, AsMap;
    StoredRefines(log, epoch, shardId, root);
    FindIsLookup(log, k.0, k.1);
    FindIsLookup(Stored(log, epoch, shardId, root), k.0, k.1);
  }

  lemma CurrentIsReached(n: nat)
    ensures n % TWO_64 <= n && n % TWO_64 < TWO_64
  {
  }

  /** After one more advance, the epochs reached so far are those before and the current one. */
  lemma OneMoreEpoch(n: nat, epoch: nat)
    ensures NextEpoch(n % TWO_64) == (n + 1) % TWO_64 < TWO_64
    ensures epoch < TWO_64 ==> (epoch <= n + 1 <==> epoch <= n || epoch == (n + 1) % TWO_64)
  {
  }

  lemma {:induction false} EpochOfRun(shardCount: nat, validators: seq<Validator>, ops: seq<Op>)
    requires shardCount > 0
    ensures Run(shardCount, validators, ops).currentEpoch == Advances(ops) % TWO_64
  {
    hide NextEpoch, NewCommittees, Initialized, Stored;
    if ops != [] {
      EpochOfRun(shardCount, validators, ops[..|ops| - 1]);
      OneMoreEpoch(Advances(ops[..|ops| - 1]), 0);
    }
  }

  /** How one operation more changes what is expected of a lookup. */
  lemma ExpectedAfter(shardCount: nat, ops: seq<Op>, k: Key)
    requires ops != []
    ensures var op, before := ops[|ops| - 1], Expected(shardCount, ops[..|ops| - 1], k);
            Expected(shardCount, ops, k)
            == if op.Store? && Accepted(shardCount, op.shardId, op.root) && k == (op.epoch, op.shardId)
               then Some(op.root)
               else if before.None? && !op.Store? && k.0 == Advances(ops) % TWO_64 && k.1 < shardCount
               then Some(EMPTY_SHARD_STATE_ROOT)
               else before
  {
    var n := Advances(ops[..|ops| - 1]);
    OneMoreEpoch(n, k.0);
    CurrentIsReached(n);
  }

  /** Over every run the list stays sorted with unique keys and 32-byte roots, and its lookups are those of
      the map that the run describes. */
  lemma {:induction false} RootsRefineMap(shardCount: nat, validators: seq<Validator>, ops: seq<Op>, k: Key)
    requires shardCount > 0
    ensures var b := Run(shardCount, validators, ops);
            && WellKept(b.roots)
            && b.currentEpoch == Advances(ops) % TWO_64
            && Find(b.roots, k.0, k.1) == Expected(shardCount, ops, k)
  {
    hide WellKept, Find, Genesis, Apply, Expected, Advances, Run;
    EpochOfRun(shardCount, validators, ops);
    if ops == [] {
      GenesisLookup(shardCount, validators, k);
    } else {
      var init, last := ops[..|ops| - 1], ops[|ops| - 1];
      RootsRefineMap(shardCount, validators, init, k);
      RunStep(shardCount, validators, ops);
      LookupAfter(Run(shardCount, validators, init), last, k);
      ExpectedAfter(shardCount, ops, k);
    }
  }

  lemma RunStep(shardCount: nat, validators: seq<Validator>, ops: seq<Op>)
    requires shardCount > 0 && ops != []
    ensures Run(shardCount, validators, ops)
            == Apply(Run(shardCount, validators, ops[..|ops| - 1]), ops[|ops| - 1])
  {
    hide Genesis, Apply;
  }

  lemma GenesisLookup(shardCount: nat, validators: seq<Validator>, k: Key)
    requires shardCount > 0
    ensures var b := Run(shardCount, validators, []);
            WellKept(b.roots) && Find(b.roots, k.0, k.1) == Expected(shardCount, [], k)
  {
    hide WellKept, Find, NewCommittees, Initialized;
    NoRoots(k);
    LookupInitialized([], 0, shardCount, k);
  }

  lemma LookupAfter(b: Beacon, op: Op, k: Key)
    requires b.shardCount > 0 && WellKept(b.roots)
    ensures var after := Apply(b, op);
            && WellKept(after.roots)
            && after.currentEpoch == (if op.Advance? then NextEpoch(b.currentEpoch) else b.currentEpoch)
            && Find(after.roots, k.0, k.1)
               == if op.Store? && Accepted(b.shardCount, op.shardId, op.root) && k == (op.epoch, op.shardId)
                  then Some(op.root)
                  else if Find(b.roots, k.0, k.1).None? && !op.Store? && k.0 == after.currentEpoch && k.1 < b.shardCount
                  then Some(EMPTY_SHARD_STATE_ROOT)
                  else Find(b.roots, k.0, k.1)
  {
    hide NewCommittees, WellKept, Initialized, Stored, Find;
    match op
    case Store(epoch, shardId, root) =>
      if Accepted(b.shardCount, shardId, root) {
        LookupStored(b.roots, epoch, shardId, root, k);
      }
    case Register(_) => LookupInitialized(b.roots, b.currentEpoch, b.shardCount, k);
    case Replace(_) => LookupInitialized(b.roots, b.currentEpoch, b.shardCount, k);
    case Advance => LookupInitialized(b.roots, NextEpoch(b.currentEpoch), b.shardCount, k);
  }

  lemma NoRoots(k: Key)
    ensures WellKept([]) && Find<Bytes>([], k.0, k.1) == None
  {
  }

  // ----- The object -----

  class BeaconChain {
    const shardCount: nat
    var validators: seq<Validator>
    var currentEpoch: nat
    var committees: seq<ShardCommitteeAssignment>
    var roots: seq<ShardStateRoot>

    ghost function View(): Beacon
      reads this
    {
      Beacon(shardCount, validators, currentEpoch, committees, roots)
    }

    constructor (shardCount: nat, validators: seq<Validator>)
      requires shardCount > 0
      ensures View() == Genesis(shardCount, validators)
    {
      this.shardCount := shardCount;
      this.validators := Sort(validators, ValidatorLe);
      currentEpoch, committees, roots := 0, [], [];
      new;
      RebuildEpoch(0);
    }

    method RebuildEpoch(epoch: nat)
      requires shardCount > 0
      modifies this
      ensures View() == Rebuilt(old(View()), epoch)
    {
      hide Initialized, Assigned, EpochScore, Find;
      currentEpoch := epoch;
      var assignments := BuildCommitteeAssignments(epoch, shardCount, Active(validators));
      committees := Filter(committees, NotEpoch(epoch));
      committees := committees + assignments;
      committees := Sort(committees, KeyLe<seq<Bytes>>);
      InitializeStateRoots(epoch);
    }

    method InitializeStateRoots(epoch: nat)
      modifies this`roots
      ensures roots == Initialized(old(roots), epoch, shardCount)
    {
      for shardId := 0 to shardCount
        invariant roots == WithMissing(old(roots), epoch, shardId)
      {
        if Find(roots, epoch, shardId).None? {
          roots := roots + [Entry(epoch, shardId, EMPTY_SHARD_STATE_ROOT)];
        }
      }
      roots := Sort(roots, KeyLe<Bytes>);
    }

    method RegisterValidator(validator: Validator)
      requires shardCount > 0
      modifies this
      ensures View() == Apply(old(View()), Register(validator))
    {
      hide Rebuilt;
      validators := validators + [validator];
      validators := Sort(validators, ValidatorLe);
      RebuildEpoch(currentEpoch);
    }

    method ReplaceValidators(newValidators: seq<Validator>)
      requires shardCount > 0
      modifies this
      ensures View() == Apply(old(View()), Replace(newValidators))
    {
      hide Rebuilt;
      validators := Sort(newValidators, ValidatorLe);
      RebuildEpoch(currentEpoch);
    }

    method AdvanceEpoch()
      requires shardCount > 0
      modifies this
      ensures View() == Apply(old(View()), Advance)
    {
      hide Rebuilt;
      RebuildEpoch((currentEpoch + 1) % TWO_64);
    }

    method StoreShardStateRoot(epoch: nat, shardId: nat, root: Bytes) returns (r: Result<(), BeaconChainError>)
      requires shardCount > 0
      modifies this`roots
      ensures View() == Apply(old(View()), Store(epoch, shardId, root))
      ensures r.Success? <==> Accepted(shardCount, shardId, root)
      ensures r.Failure? ==>
                r.error == if shardId >= shardCount then InvalidShardId(shardId, shardCount)
                           else InvalidStateRootLength(|root|)
    {
      var checked := ValidateShardId(shardId, shardCount);
      if checked.Failure? {
        return checked;
      }
      checked := ValidateStateRootLength(root);
      if checked.Failure? {
        return checked;
      }
      var found, updated := OverwriteFirst(roots, epoch, shardId, root);
      if found {
        roots := updated;
        return Success(());
      }
      roots := roots + [Entry(epoch, shardId, root)];
      roots := Sort(roots, KeyLe<Bytes>);
      return Success(());
    }

    /** The search for the entry and its update in place. */
    static method OverwriteFirst(log: seq<ShardStateRoot>, epoch: nat, shardId: nat, root: Bytes)
      returns (found: bool, updated: seq<ShardStateRoot>)
      ensures found == Find(log, epoch, shardId).Some?
      ensures updated == if found then Overwritten(log, epoch, shardId, root) else log
    {
      for i := 0 to |log|
        invariant forall j :: 0 <= j < i ==> KeyOf(log[j]) != (epoch, shardId)
      {
        if log[i].epoch == epoch && log[i].shardId == shardId {
          FirstMatch(log, i, epoch, shardId, root);
          return true, log[i := log[i].(value := root)];
        }
      }
      NoMatch(log, epoch, shardId);
      return false, log;
    }
  }
}
