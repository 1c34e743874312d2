/** Batches against single writes, isolation between contracts, and the storage roots of whole runs
    (src/storage/mod.rs). */
module StorageRuns {
  import opened Bytes
  import opened Wrappers
  import opened Types
  import opened Keys
  import opened Storage

  // ----- A batch is its writes, one by one -----

  lemma RecordsAreNoSlots(db: Db, address: Bytes, record: Bytes, other: Bytes)
    ensures SlotsOf(db[ContractKey(address) := record], other) == SlotsOf(db, other)
  {
    hide StorageKey, ContractKey;
    forall s ensures ContractKey(address) != StorageKey(other, s) {
      KindsSeparate(address, other, s);
    }
    NoSlotTouched(db, ContractKey(address), record, other);
  }

  /** One more write after a batch is one bigger batch. */
  lemma SetAfterBatch(sha: Hash, codec: Codec, db: Db, address: Bytes, writes: map<Bytes, Bytes>,
                      key: Bytes, value: Bytes)
    requires codec.RoundTrips() && ExistingContract(codec, db, address).Success?
    ensures SetSlot(sha, codec, CommitBatch(sha, codec, db, address, writes).value, address, key, value)
            == CommitBatch(sha, codec, db, address, writes[key := value])
  {
    hide PutAll, StoragePrefix, StorageKey, ContractKey, SlotsRoot, SlotsOf;
    var contract := ExistingContract(codec, db, address).value;
    PutMore(db, address, writes, key, value);
    assert key in writes[key := value];
    BatchIsSealed(sha, codec, db, address, writes[key := value]);
    if writes == map[] {
      PutNothing(db, address);
    } else {
      BatchIsSealed(sha, codec, db, address, writes);
      var put := PutAll(db, address, writes);
      KindsSeparate(address, address, key);
      ResealedOnce(sha, codec, contract, put, address, StorageKey(address, key), value);
    }
  }

  lemma ResealedOnce(sha: Hash, codec: Codec, contract: Contract, db: Db, address: Bytes, slot: Bytes, value: Bytes)
    requires codec.RoundTrips() && slot != ContractKey(address)
    ensures var sealed := Sealed(sha, codec, contract, db, address);
            && ExistingContract(codec, sealed, address).Success?
            && Sealed(sha, codec, ExistingContract(codec, sealed, address).value, sealed[slot := value], address)
               == Sealed(sha, codec, contract, db[slot := value], address)
  {
    hide ContractKey, SlotsRoot, SlotsOf;
    var sealed := Sealed(sha, codec, contract, db, address);
    var record := sealed[ContractKey(address)];
    assert sealed[slot := value] == db[slot := value][ContractKey(address) := record];
    RecordsAreNoSlots(db[slot := value], address, record, address);
  }

  /** `set_contract_storage` for each key of `order`, in that order. */
  ghost function SetAll(sha: Hash, codec: Codec, db: Db, address: Bytes, order: seq<Bytes>, writes: map<Bytes, Bytes>)
    : Result<Db, StorageError>
    requires forall k :: k in order ==> k in writes
  {
    if order == [] then Success(db)
    else
      var n := |order| - 1;
      match SetAll(sha, codec, db, address, order[..n], writes)
      case Failure(e) => Failure(e)
      case Success(d) => SetSlot(sha, codec, d, address, order[n], writes[order[n]])
  }

  lemma {:induction false} SetAllIsBatch(sha: Hash, codec: Codec, db: Db, address: Bytes, order: seq<Bytes>,
                                         writes: map<Bytes, Bytes>)
    requires codec.RoundTrips() && ExistingContract(codec, db, address).Success?
    requires forall k :: k in order ==> k in writes
    ensures SetAll(sha, codec, db, address, order, writes)
            == CommitBatch(sha, codec, db, address, Restricted(writes, order))
  {
    hide SetSlot, CommitBatch, ExistingContract;
    if order == [] {
      EmptyBatch(sha, codec, db, address);
      assert Restricted(writes, order) == map[];
    } else {
      var n := |order| - 1;
      var init, last := order[..n], order[n];
      SetAllIsBatch(sha, codec, db, address, init, writes);
      BatchSucceeds(sha, codec, db, address, Restricted(writes, init));
      SetAfterBatch(sha, codec, db, address, Restricted(writes, init), last, writes[last]);
      RestrictedSnoc(writes, order);
    }
  }

  lemma EmptyBatch(sha: Hash, codec: Codec, db: Db, address: Bytes)
    ensures CommitBatch(sha, codec, db, address, map[]) == Success(db)
  {
  }

  lemma BatchSucceeds(sha: Hash, codec: Codec, db: Db, address: Bytes, writes: map<Bytes, Bytes>)
    requires ExistingContract(codec, db, address).Success?
    ensures CommitBatch(sha, codec, db, address, writes).Success?
  {
  }

  lemma {:induction false} SetAllFails(sha: Hash, codec: Codec, db: Db, address: Bytes, order: seq<Bytes>,
                                       writes: map<Bytes, Bytes>)
    requires ExistingContract(codec, db, address).Failure? && order != []
    requires forall k :: k in order ==> k in writes
    ensures SetAll(sha, codec, db, address, order, writes)
            == Failure(ExistingContract(codec, db, address).error)
  {
    if |order| > 1 {
      SetAllFails(sha, codec, db, address, order[..|order| - 1], writes);
    } else {
      assert order[..|order| - 1] == [];
    }
  }

  /** A non-empty batch is the same as its writes made one at a time in any order, errors included. */
  lemma BatchEqualsSingles(sha: Hash, codec: Codec, db: Db, address: Bytes, order: seq<Bytes>,
                           writes: map<Bytes, Bytes>)
    requires codec.RoundTrips() && writes != map[]
    requires forall k :: k in order <==> k in writes
    ensures SetAll(sha, codec, db, address, order, writes) == CommitBatch(sha, codec, db, address, writes)
  {
    hide SetSlot, SetAll;
    RestrictedToAll(writes, order);
    if ExistingContract(codec, db, address).Success? {
      SetAllIsBatch(sha, codec, db, address, order, writes);
    } else {
      assert order != [] by {
        var k :| k in writes;
        assert k in order;
      }
      SetAllFails(sha, codec, db, address, order, writes);
    }
  }

  // ----- Isolation -----

  lemma PutElsewhere(db: Db, address: Bytes, writes: map<Bytes, Bytes>, other: Bytes)
    requires |address| == |other| && address != other
    ensures SlotsOf(PutAll(db, address, writes), other) == SlotsOf(db, other)
  {
    hide PutAll, StorageKey, StoragePrefix;
    var before, after := SlotsOf(db, other), SlotsOf(PutAll(db, address, writes), other);
    forall s ensures (s in after <==> s in before) && (s in after ==> after[s] == before[s]) {
      PutAllAt(db, address, writes, StorageKey(other, s));
      EqualLengthsSeparate(address, other, s);
    }
  }

  lemma PutKeepsRecords(db: Db, address: Bytes, writes: map<Bytes, Bytes>, other: Bytes)
    ensures var after := PutAll(db, address, writes);
            && (ContractKey(other) in after <==> ContractKey(other) in db)
            && (ContractKey(other) in db ==> after[ContractKey(other)] == db[ContractKey(other)])
            && (AccountKey(other) in after <==> AccountKey(other) in db)
            && (AccountKey(other) in db ==> after[AccountKey(other)] == db[AccountKey(other)])
  {
    hide PutAll, StorageKey, StoragePrefix, ContractKey, AccountKey;
    KindsSeparate(other, address, []);
    PutAllAt(db, address, writes, ContractKey(other));
    PutAllAt(db, address, writes, AccountKey(other));
  }

  /** Writing to one contract touches no other contract of the same address length: neither slots nor record. */
  lemma BatchTouchesOneContract(sha: Hash, codec: Codec, db: Db, address: Bytes, writes: map<Bytes, Bytes>,
                                other: Bytes)
    requires |address| == |other| && address != other
    requires CommitBatch(sha, codec, db, address, writes).Success?
    ensures var after := CommitBatch(sha, codec, db, address, writes).value;
            && SlotsOf(after, other) == SlotsOf(db, other)
            && GetContract(codec, after, other) == GetContract(codec, db, other)
            && GetAccount(codec, after, other) == GetAccount(codec, db, other)
  {
    hide PutAll, StorageKey, StoragePrefix, ContractKey, AccountKey, SlotsOf, SlotsRoot;
    var put := PutAll(db, address, writes);
    PutElsewhere(db, address, writes, other);
    PutKeepsRecords(db, address, writes, other);
    KindsSeparate(address, other, []);
    KindsSeparate(other, address, []);
    if writes != map[] {
      RecordsAreNoSlots(put, address, CommitBatch(sha, codec, db, address, writes).value[ContractKey(address)], other);
    }
  }

  // ----- Runs -----

  datatype Op =
    | DeployContract(sender: Bytes, code: Bytes)
    | SetOne(address: Bytes, key: Bytes, value: Bytes)
    | SetMany(address: Bytes, writes: map<Bytes, Bytes>)
    | PutOther(key: Bytes, value: Bytes)

  /** Keys of the other kinds of record: blocks, transactions, accounts, stakes, notes and indexes. */
  predicate OtherKind(key: Bytes) {
    key != [] && key[0] != 99 && key[0] != 109
  }

  ghost function Attempt(sha: Hash, codec: Codec, db: Db, op: Op): Result<Db, StorageError> {
    match op
    case DeployContract(sender, code) => Deploy(sha, codec, db, sender, code)
    case SetOne(address, key, value) => SetSlot(sha, codec, db, address, key, value)
    case SetMany(address, writes) => CommitBatch(sha, codec, db, address, writes)
    case PutOther(key, value) => Success(if OtherKind(key) then db[key := value] else db)
  }

  ghost function Run(sha: Hash, codec: Codec, ops: seq<Op>): Db {
    if ops == [] then map[]
    else
      var before := Run(sha, codec, ops[..|ops| - 1]);
      var after := Attempt(sha, codec, before, ops[|ops| - 1]);
      if after.Success? then after.value else before
  }

  /** The record of a contract is readable and its root is that of its slots. */
  ghost predicate RootCorrect(sha: Hash, codec: Codec, db: Db, address: Bytes) {
    var contract := ExistingContract(codec, db, address);
    contract.Success? && contract.value.storageRoot == SlotsRoot(sha, SlotsOf(db, address))
  }

  /** Contract addresses have 32 bytes, every root is correct, and slots belong to deployed contracts. */
  ghost predicate Consistent(sha: Hash, codec: Codec, db: Db) {
    && (forall a {:trigger ContractKey(a)} :: ContractKey(a) in db ==> |a| == 32 && RootCorrect(sha, codec, db, a))
    && (forall x :: x in db && CONTRACT_STORAGE_PREFIX <= x ==>
          exists a :: |a| == 32 && StoragePrefix(a) <= x && ContractKey(a) in db)
  }

  lemma SetIsBatch(sha: Hash, codec: Codec, db: Db, address: Bytes, key: Bytes, value: Bytes)
    requires codec.RoundTrips()
    ensures SetSlot(sha, codec, db, address, key, value)
            == CommitBatch(sha, codec, db, address, map[key := value])
  {
    var writes := map[key := value];
    assert key in writes;
    if ExistingContract(codec, db, address).Success? {
      EmptyBatch(sha, codec, db, address);
      SetAfterBatch(sha, codec, db, address, map[], key, value);
      assert map[][key := value] == writes;
    }
  }

  lemma BatchKeepsRoots(sha: Hash, codec: Codec, db: Db, address: Bytes, writes: map<Bytes, Bytes>, b: Bytes)
    requires codec.RoundTrips() && Consistent(sha, codec, db) && writes != map[]
    requires ExistingContract(codec, db, address).Success?
    requires ContractKey(b) in CommitBatch(sha, codec, db, address, writes).value
    ensures |b| == 32 && RootCorrect(sha, codec, CommitBatch(sha, codec, db, address, writes).value, b)
  {
    hide PutAll, StorageKey, StoragePrefix, ContractKey, SlotsOf, SlotsRoot;
    BatchIsSealed(sha, codec, db, address, writes);
    var contract := ExistingContract(codec, db, address).value;
    var put := PutAll(db, address, writes);
    if b == address {
      SealedSlots(sha, codec, contract, put, address, address);
    } else {
      KindsSeparate(address, b, []);
      KindsSeparate(b, address, []);
      PutKeepsRecords(db, address, writes, b);
      BatchTouchesOneContract(sha, codec, db, address, writes, b);
    }
  }

  lemma BatchKeepsOwners(sha: Hash, codec: Codec, db: Db, address: Bytes, writes: map<Bytes, Bytes>, x: Bytes)
    requires Consistent(sha, codec, db) && writes != map[] && ExistingContract(codec, db, address).Success?
    requires CONTRACT_STORAGE_PREFIX <= x && x in CommitBatch(sha, codec, db, address, writes).value
    ensures exists a :: |a| == 32 && StoragePrefix(a) <= x
                        && ContractKey(a) in CommitBatch(sha, codec, db, address, writes).value
  {
    hide PutAll, StorageKey, StoragePrefix, SlotsOf, SlotsRoot, RootCorrect;
    BatchIsSealed(sha, codec, db, address, writes);
    var put := PutAll(db, address, writes);
    assert x != ContractKey(address) by {
      assert x[0] == 109 && ContractKey(address)[0] == 99;
    }
    PutAllAt(db, address, writes, x);
    if Written(address, writes, x) {
      assert ContractKey(address) in db;
    } else {
      var a :| |a| == 32 && StoragePrefix(a) <= x && ContractKey(a) in db;
      PutKeepsRecords(db, address, writes, a);
    }
  }

  lemma BatchConsistent(sha: Hash, codec: Codec, db: Db, address: Bytes, writes: map<Bytes, Bytes>)
    requires codec.RoundTrips() && Consistent(sha, codec, db)
    requires CommitBatch(sha, codec, db, address, writes).Success?
    ensures Consistent(sha, codec, CommitBatch(sha, codec, db, address, writes).value)
  {
    hide PutAll, StorageKey, StoragePrefix, ContractKey, SlotsOf, SlotsRoot, RootCorrect;
    var after := CommitBatch(sha, codec, db, address, writes).value;
    if writes != map[] {
      forall a {:trigger ContractKey(a)} | ContractKey(a) in after
        ensures |a| == 32 && RootCorrect(sha, codec, after, a)
      {
        BatchKeepsRoots(sha, codec, db, address, writes, a);
      }
      forall x | x in after && CONTRACT_STORAGE_PREFIX <= x
        ensures exists a :: |a| == 32 && StoragePrefix(a) <= x && ContractKey(a) in after
      {
        BatchKeepsOwners(sha, codec, db, address, writes, x);
      }
    }
  }

  lemma OtherKindsApart(key: Bytes, a: Bytes, s: Bytes)
    requires OtherKind(key)
    ensures key != ContractKey(a) && key != StorageKey(a, s) && !(CONTRACT_STORAGE_PREFIX <= key)
  {
    assert ContractKey(a)[0] == 99 && StorageKey(a, s)[0] == 109;
  }

  lemma OtherConsistent(sha: Hash, codec: Codec, db: Db, key: Bytes, value: Bytes)
    requires Consistent(sha, codec, db) && OtherKind(key)
    ensures Consistent(sha, codec, db[key := value])
  {
    hide StorageKey, StoragePrefix, ContractKey, SlotsOf, SlotsRoot;
    var after := db[key := value];
    forall a {:trigger ContractKey(a)} | ContractKey(a) in after
      ensures |a| == 32 && RootCorrect(sha, codec, after, a)
    {
      forall s ensures key != StorageKey(a, s) {
        OtherKindsApart(key, a, s);
      }
      OtherKindsApart(key, a, []);
      NoSlotTouched(db, key, value, a);
    }
    forall x | x in after && CONTRACT_STORAGE_PREFIX <= x
      ensures exists a :: |a| == 32 && StoragePrefix(a) <= x && ContractKey(a) in after
    {
      OtherKindsApart(key, [], []);
      var a :| |a| == 32 && StoragePrefix(a) <= x && ContractKey(a) in db;
    }
  }

  lemma UndeployedHasNoSlots(sha: Hash, codec: Codec, db: Db, address: Bytes)
    requires Consistent(sha, codec, db) && |address| == 32 && ContractKey(address) !in db
    ensures SlotsOf(db, address) == map[]
  {
    hide StorageKey, StoragePrefix, ContractKey, RootCorrect;
    forall s ensures StorageKey(address, s) !in db {
      var x := StorageKey(address, s);
      assert CONTRACT_STORAGE_PREFIX <= x by { StorageKeyStart(address, s); }
      if x in db {
        var a :| |a| == 32 && StoragePrefix(a) <= x && ContractKey(a) in db;
        EqualLengthsSeparate(a, address, s);
      }
    }
    assert SlotsOf(db, address).Keys == {};
  }

  lemma StorageKeyStart(address: Bytes, s: Bytes)
    ensures CONTRACT_STORAGE_PREFIX <= StorageKey(address, s)
  {
  }

  lemma NewContractConsistent(sha: Hash, codec: Codec, db: Db, address: Bytes, code: Bytes)
    requires codec.RoundTrips() && Consistent(sha, codec, db) && |address| == 32 && ContractKey(address) !in db
    ensures Consistent(sha, codec, db[ContractKey(address) := codec.encodeContract(Contract(code, sha([])))])
  {
    hide StorageKey, StoragePrefix, ContractKey, SlotsOf;
    var record := codec.encodeContract(Contract(code, sha([])));
    var after := db[ContractKey(address) := record];
    forall a {:trigger ContractKey(a)} | ContractKey(a) in after
      ensures |a| == 32 && RootCorrect(sha, codec, after, a)
    {
      KindsSeparate(a, address, []);
      RecordsAreNoSlots(db, address, record, a);
      if a == address {
        UndeployedHasNoSlots(sha, codec, db, address);
        NoSlotsRoot(sha);
      }
    }
    forall x | x in after && CONTRACT_STORAGE_PREFIX <= x
      ensures exists a :: |a| == 32 && StoragePrefix(a) <= x && ContractKey(a) in after
    {
      ContractKeyStart(address);
      var a :| |a| == 32 && StoragePrefix(a) <= x && ContractKey(a) in db;
    }
  }

  lemma ContractKeyStart(address: Bytes)
    ensures !(CONTRACT_STORAGE_PREFIX <= ContractKey(address))
  {
    assert ContractKey(address)[0] != CONTRACT_STORAGE_PREFIX[0];
  }

  lemma NoSlotsRoot(sha: Hash)
    ensures SlotsRoot(sha, map[]) == sha([])
  {
  }

  lemma DeployConsistent(sha: Hash, codec: Codec, db: Db, sender: Bytes, code: Bytes)
    requires codec.RoundTrips() && Consistent(sha, codec, db) && Deploy(sha, codec, db, sender, code).Success?
    ensures Consistent(sha, codec, Deploy(sha, codec, db, sender, code).value)
  {
    hide Consistent, DerivedAddress, ContractKey;
    var address := DerivedAddress(sha, sender, code);
    NewContractConsistent(sha, codec, db, address, code);
    var deployed := db[ContractKey(address) := codec.encodeContract(Contract(code, sha([])))];
    assert AccountKey(address)[0] == 97;
    OtherConsistent(sha, codec, deployed, AccountKey(address), codec.encodeAccount(NewContractAccount(sha, code)));
  }

  /** Over every run of deployments, single writes and batches, with records of any other kind written in
      between, each contract's root is the root of its slots, and every slot belongs to a deployed contract.
      Addresses need no hypothesis: deployment gives 32 bytes to each. */
  lemma {:induction false} RunsKeepRoots(sha: Hash, codec: Codec, ops: seq<Op>)
    requires codec.RoundTrips()
    ensures Consistent(sha, codec, Run(sha, codec, ops))
  {
    hide Consistent, SetSlot, CommitBatch, Deploy;
    if ops == [] {
      EmptyConsistent(sha, codec);
    } else {
      var db := Run(sha, codec, ops[..|ops| - 1]);
      RunsKeepRoots(sha, codec, ops[..|ops| - 1]);
      match ops[|ops| - 1]
      case DeployContract(sender, code) =>
        if Deploy(sha, codec, db, sender, code).Success? {
          DeployConsistent(sha, codec, db, sender, code);
        }
      case SetOne(address, key, value) =>
        SetIsBatch(sha, codec, db, address, key, value);
        if CommitBatch(sha, codec, db, address, map[key := value]).Success? {
          BatchConsistent(sha, codec, db, address, map[key := value]);
        }
      case SetMany(address, writes) =>
        if CommitBatch(sha, codec, db, address, writes).Success? {
          BatchConsistent(sha, codec, db, address, writes);
        }
      case PutOther(key, value) =>
        if OtherKind(key) {
          OtherConsistent(sha, codec, db, key, value);
        }
    }
  }

  lemma EmptyConsistent(sha: Hash, codec: Codec)
    ensures Consistent(sha, codec, map[])
  {
  }
}
