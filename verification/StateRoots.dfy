/** The state-root log of the beacon chain (src/sharding/mod.rs). */
module StateRoots {
  import opened Bytes
  import opened Wrappers
  import opened Sorting
  import opened EpochLog

  const SHARD_STATE_ROOT_LENGTH := 32
  const EMPTY_SHARD_STATE_ROOT: Bytes := ZEROS_32

  lemma EmptyRootIsZeros()
    ensures |EMPTY_SHARD_STATE_ROOT| == SHARD_STATE_ROOT_LENGTH == 32
    ensures forall i :: 0 <= i < 32 ==> EMPTY_SHARD_STATE_ROOT[i] == 0
  {
  }

  type ShardStateRoot = Entry<Bytes>

  datatype BeaconChainError =
    | InvalidShardId(shardId: nat, shardCount: nat)
    | InvalidStateRootLength(provided: nat)

  function ValidateShardId(shardId: nat, shardCount: nat): Result<(), BeaconChainError> {
    if shardId >= shardCount then Failure(InvalidShardId(shardId, shardCount)) else Success(())
  }

  function ValidateStateRootLength(root: Bytes): Result<(), BeaconChainError> {
    if |root| != SHARD_STATE_ROOT_LENGTH then Failure(InvalidStateRootLength(|root|)) else Success(())
  }

  /** What every operation keeps: sorted, one entry per key, roots of 32 bytes. */
  ghost predicate WellKept(log: seq<ShardStateRoot>) {
    UniqueKeys(log) && SortedBy(log, KeyLe<Bytes>) && RootsSized(log)
  }

  ghost predicate RootsSized(log: seq<ShardStateRoot>) {
    forall i :: 0 <= i < |log| ==> |log[i].value| == SHARD_STATE_ROOT_LENGTH
  }

  /** The list after `store_shard_state_root` accepted a root. */
  function Stored(log: seq<ShardStateRoot>, epoch: nat, shardId: nat, root: Bytes): seq<ShardStateRoot> {
    if Find(log, epoch, shardId).Some? then Overwritten(log, epoch, shardId, root)
    else Sort(log + [Entry(epoch, shardId, root)], KeyLe<Bytes>)
  }

  function WithShard(log: seq<ShardStateRoot>, epoch: nat, shardId: nat): seq<ShardStateRoot> {
    if Find(log, epoch, shardId).Some? then log else log + [Entry(epoch, shardId, EMPTY_SHARD_STATE_ROOT)]
  }

  /** The list with the empty root added for each missing shard below `count`. */
  function WithMissing(log: seq<ShardStateRoot>, epoch: nat, count: nat): seq<ShardStateRoot> {
    if count == 0 then log else WithShard(WithMissing(log, epoch, count - 1), epoch, count - 1)
  }

  /** The list after `initialize_state_roots_for_epoch`. */
  function Initialized(log: seq<ShardStateRoot>, epoch: nat, count: nat): seq<ShardStateRoot> {
    Sort(WithMissing(log, epoch, count), KeyLe<Bytes>)
  }

  ghost function EmptyRoots(epoch: nat, count: nat): map<Key, Bytes> {
    if count == 0 then map[] else EmptyRoots(epoch, count - 1)[(epoch, count - 1) := EMPTY_SHARD_STATE_ROOT]
  }

  lemma {:induction false} EmptyRootsKeys(epoch: nat, count: nat, k: Key)
    ensures k in EmptyRoots(epoch, count) <==> k.0 == epoch && k.1 < count
    ensures k in EmptyRoots(epoch, count) ==> EmptyRoots(epoch, count)[k] == EMPTY_SHARD_STATE_ROOT
  {
    if count > 0 {
      EmptyRootsKeys(epoch, count - 1, k);
    }
  }

  lemma SortSized(log: seq<ShardStateRoot>)
    requires RootsSized(log)
    ensures RootsSized(Sort(log, KeyLe<Bytes>))
  {
    var sorted := Sort(log, KeyLe<Bytes>);
    forall i | 0 <= i < |sorted| ensures |sorted[i].value| == SHARD_STATE_ROOT_LENGTH {
      InPermutation(sorted, log, sorted[i]);
    }
  }

  /** Storing refines a map update, and so touches no other key. */
  lemma StoredRefines(log: seq<ShardStateRoot>, epoch: nat, shardId: nat, root: Bytes)
    requires WellKept(log) && |root| == SHARD_STATE_ROOT_LENGTH
    ensures WellKept(Stored(log, epoch, shardId, root))
    ensures AsMap(Stored(log, epoch, shardId, root)) == AsMap(log)[(epoch, shardId) := root]
  {
    if Find(log, epoch, shardId).Some? {
      FindIsLookup(log, epoch, shardId);
      OverwrittenMap(log, epoch, shardId, root);
      OverwrittenKept(log, epoch, shardId, root);
    } else {
      StoredFresh(log, Entry(epoch, shardId, root));
    }
  }

  lemma StoredFresh(log: seq<ShardStateRoot>, e: ShardStateRoot)
    requires WellKept(log) && |e.value| == SHARD_STATE_ROOT_LENGTH && Find(log, e.epoch, e.shardId).None?
    ensures var sorted := Sort(log + [e], KeyLe<Bytes>);
            WellKept(sorted) && AsMap(sorted) == AsMap(log)[KeyOf(e) := e.value]
  {
    hide UniqueKeys, AsMap, SortedBy, Find;
    AppendFresh(log, e);
    SortKeepsMap(log + [e]);
    SortSized(log + [e]);
  }

  lemma OverwrittenKept(log: seq<ShardStateRoot>, epoch: nat, shardId: nat, root: Bytes)
    requires WellKept(log) && |root| == SHARD_STATE_ROOT_LENGTH
    ensures WellKept(Overwritten(log, epoch, shardId, root))
  {
    var r := Overwritten(log, epoch, shardId, root);
    forall i, j | 0 <= i < j < |r| ensures KeyOf(r[i]) != KeyOf(r[j]) && KeyLe(r[i], r[j]) {
      assert KeyOf(log[i]) != KeyOf(log[j]) && KeyLe(log[i], log[j]);
    }
    OverwrittenSized(log, epoch, shardId, root);
  }

  lemma {:induction false} OverwrittenSized(log: seq<ShardStateRoot>, epoch: nat, shardId: nat, root: Bytes)
    requires |root| == SHARD_STATE_ROOT_LENGTH && RootsSized(log)
    ensures RootsSized(Overwritten(log, epoch, shardId, root))
  {
    if log != [] {
      OverwrittenSized(log[1..], epoch, shardId, root);
    }
  }

  lemma {:induction false} WithMissingRefines(log: seq<ShardStateRoot>, epoch: nat, count: nat)
    requires UniqueKeys(log) && RootsSized(log)
    ensures var all := WithMissing(log, epoch, count);
            UniqueKeys(all) && RootsSized(all) && AsMap(all) == EmptyRoots(epoch, count) + AsMap(log)
  {
    hide UniqueKeys, Find, RootsSized, AsMap, WithShard;
    if count > 0 {
      var before := WithMissing(log, epoch, count - 1);
      WithMissingRefines(log, epoch, count - 1);
      WithShardRefines(before, epoch, count - 1);
      EmptyRootsKeys(epoch, count - 1, (epoch, count - 1));
    }
  }

  lemma WithShardRefines(log: seq<ShardStateRoot>, epoch: nat, shardId: nat)
    requires UniqueKeys(log) && RootsSized(log)
    ensures var more := WithShard(log, epoch, shardId);
            && UniqueKeys(more) && RootsSized(more)
            && AsMap(more) == map[(epoch, shardId) := EMPTY_SHARD_STATE_ROOT] + AsMap(log)
  {
    hide UniqueKeys;
    FindIsLookup(log, epoch, shardId);
    if Find(log, epoch, shardId).None? {
      AppendFresh(log, Entry(epoch, shardId, EMPTY_SHARD_STATE_ROOT));
    }
  }

  /** Initialising an epoch only fills gaps: roots already stored win. */
  lemma InitializedRefines(log: seq<ShardStateRoot>, epoch: nat, count: nat)
    requires WellKept(log)
    ensures WellKept(Initialized(log, epoch, count))
    ensures AsMap(Initialized(log, epoch, count)) == EmptyRoots(epoch, count) + AsMap(log)
  {
    WithMissingRefines(log, epoch, count);
    SortKeepsMap(WithMissing(log, epoch, count));
    SortSized(WithMissing(log, epoch, count));
  }
}
