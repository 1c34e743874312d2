/** Contract records, contract storage and storage roots over one ordered key-value database
    (src/storage/mod.rs). */
module Storage {
  import opened Bytes
  import opened Wrappers
  import opened Types
  import opened Keys
  import opened KeyOrder

  type Db = map<Bytes, Bytes>

  /** The serialisation of the two records used here. */
  datatype Codec = Codec(
    encodeContract: Contract -> Bytes,
    decodeContract: Bytes -> Option<Contract>,
    encodeAccount: Account -> Bytes,
    decodeAccount: Bytes -> Option<Account>)
  {
    ghost predicate RoundTrips() {
      && (forall c :: decodeContract(encodeContract(c)) == Some(c))
      && (forall a :: decodeAccount(encodeAccount(a)) == Some(a))
    }
  }

  datatype StorageError = EmptySender | EmptyCode | AddressExists | ContractMissing | Corrupt

  function GetContract(codec: Codec, db: Db, address: Bytes): Result<Option<Contract>, StorageError> {
    if ContractKey(address) !in db then Success(None)
    else
      var decoded := codec.decodeContract(db[ContractKey(address)]);
      if decoded.None? then Failure(Corrupt) else Success(decoded)
  }

  function GetAccount(codec: Codec, db: Db, address: Bytes): Result<Option<Account>, StorageError> {
    if AccountKey(address) !in db then Success(None)
    else
      var decoded := codec.decodeAccount(db[AccountKey(address)]);
      if decoded.None? then Failure(Corrupt) else Success(decoded)
  }

  /** `get_contract(..)?.ok_or(..)?`. */
  function ExistingContract(codec: Codec, db: Db, address: Bytes): Result<Contract, StorageError> {
    match GetContract(codec, db, address)
    case Failure(e) => Failure(e)
    case Success(None) => Failure(ContractMissing)
    case Success(Some(c)) => Success(c)
  }

  // ----- Slots and roots -----

  /** The slots of a contract: what is stored under its prefix. */
  ghost function SlotsOf(db: Db, address: Bytes): map<Bytes, Bytes> {
    map s | s in SlotKeys(db, address) :: db[StorageKey(address, s)]
  }

  ghost function SlotKeys(db: Db, address: Bytes): (r: set<Bytes>)
    ensures forall s :: s in r <==> StorageKey(address, s) in db
  {
    var r := set stored | stored in db && StoragePrefix(address) <= stored :: stored[|address| + 3..];
    forall s ensures s in r <==> StorageKey(address, s) in db {
      SlotKeyMember(db, address, s);
    }
    r
  }

  lemma SlotKeyMember(db: Db, address: Bytes, s: Bytes)
    ensures s in (set stored | stored in db && StoragePrefix(address) <= stored :: stored[|address| + 3..])
            <==> StorageKey(address, s) in db
  {
    hide StoragePrefix, StorageKey;
    StorageKeyParts(address, s);
    if stored :| stored in db && StoragePrefix(address) <= stored && stored[|address| + 3..] == s {
      StorageKeyOf(address, stored);
    }
  }

  /** Slot hashes in key order: the payload of a storage root. */
  ghost function RootPayload(sha: Hash, slots: map<Bytes, Bytes>, keys: seq<Bytes>): Bytes
    requires forall k :: k in keys ==> k in slots
  {
    if keys == [] then []
    else
      var n := |keys| - 1;
      RootPayload(sha, slots, keys[..n]) + sha(keys[n]) + sha(slots[keys[n]])
  }

  lemma RootPayloadStep(sha: Hash, slots: map<Bytes, Bytes>, keys: seq<Bytes>, i: nat)
    requires (forall k :: k in keys ==> k in slots) && i < |keys|
    ensures keys[i] in slots
    ensures RootPayload(sha, slots, keys[..i + 1])
            == RootPayload(sha, slots, keys[..i]) + sha(keys[i]) + sha(slots[keys[i]])
  {
    assert keys[..i + 1][..i] == keys[..i];
  }

  ghost function SlotsRoot(sha: Hash, slots: map<Bytes, Bytes>): Digest {
    SortedKeysFacts(slots.Keys);
    sha(RootPayload(sha, slots, SortedKeys(slots.Keys)))
  }

  /** The record with its root recomputed from the database. */
  ghost function Sealed(sha: Hash, codec: Codec, contract: Contract, db: Db, address: Bytes): Db {
    db[ContractKey(address) := codec.encodeContract(contract.(storageRoot := SlotsRoot(sha, SlotsOf(db, address))))]
  }

  lemma SealedSlots(sha: Hash, codec: Codec, contract: Contract, db: Db, address: Bytes, other: Bytes)
    ensures SlotsOf(Sealed(sha, codec, contract, db, address), other) == SlotsOf(db, other)
  {
    hide StorageKey, ContractKey, SlotsRoot, SlotsOf, SlotKeys;
    forall s ensures ContractKey(address) != StorageKey(other, s) {
      KindsSeparate(address, other, s);
    }
    var root := SlotsRoot(sha, SlotsOf(db, address));
    NoSlotTouched(db, ContractKey(address), codec.encodeContract(contract.(storageRoot := root)), other);
  }

  lemma NoSlotTouched(db: Db, key: Bytes, value: Bytes, other: Bytes)
    requires forall s :: key != StorageKey(other, s)
    ensures SlotsOf(db[key := value], other) == SlotsOf(db, other)
  {
    hide StorageKey;
    assert SlotsOf(db[key := value], other).Keys == SlotsOf(db, other).Keys;
  }

  // ----- Operations -----

  ghost function SetSlot(sha: Hash, codec: Codec, db: Db, address: Bytes, key: Bytes, value: Bytes)
    : Result<Db, StorageError>
  {
    match ExistingContract(codec, db, address)
    case Failure(e) => Failure(e)
    case Success(contract) => Success(Sealed(sha, codec, contract, db[StorageKey(address, key) := value], address))
  }

  function GetSlot(codec: Codec, db: Db, address: Bytes, key: Bytes): Result<Option<Bytes>, StorageError> {
    match ExistingContract(codec, db, address)
    case Failure(e) => Failure(e)
    case Success(_) =>
      Success(if StorageKey(address, key) in db then Some(db[StorageKey(address, key)]) else None)
  }

  /** The database with all the writes put under the contract's prefix. */
  ghost function PutAll(db: Db, address: Bytes, writes: map<Bytes, Bytes>): (r: Db) {
    map x | x in db.Keys + (set k | k in writes :: StorageKey(address, k)) ::
      if Written(address, writes, x) then writes[x[|address| + 3..]]
      else
        WrittenKeys(address, writes, x);
        db[x]
  }

  ghost predicate Written(address: Bytes, writes: map<Bytes, Bytes>, x: Bytes) {
    StoragePrefix(address) <= x && x[|address| + 3..] in writes
  }

  lemma WrittenKeys(address: Bytes, writes: map<Bytes, Bytes>, x: Bytes)
    ensures Written(address, writes, x) <==> x in (set k | k in writes :: StorageKey(address, k))
  {
    hide StoragePrefix, StorageKey;
    if Written(address, writes, x) {
      StorageKeyOf(address, x);
    }
    if k :| k in writes && StorageKey(address, k) == x {
      StorageKeyParts(address, k);
    }
  }

  lemma PutAllAt(db: Db, address: Bytes, writes: map<Bytes, Bytes>, x: Bytes)
    ensures var r := PutAll(db, address, writes);
            && (x in r <==> x in db || Written(address, writes, x))
            && (x in r ==> r[x] == if Written(address, writes, x) then writes[x[|address| + 3..]] else db[x])
  {
    hide Written;
    WrittenKeys(address, writes, x);
  }

  lemma PutAllSlot(db: Db, address: Bytes, writes: map<Bytes, Bytes>, s: Bytes)
    ensures var r := PutAll(db, address, writes);
            var x := StorageKey(address, s);
            && (x in r <==> x in db || s in writes)
            && (x in r ==> r[x] == if s in writes then writes[s] else db[x])
  {
    hide PutAll;
    PutAllAt(db, address, writes, StorageKey(address, s));
    StorageKeyParts(address, s);
  }

  lemma PutMore(db: Db, address: Bytes, writes: map<Bytes, Bytes>, key: Bytes, value: Bytes)
    ensures PutAll(db, address, writes)[StorageKey(address, key) := value]
            == PutAll(db, address, writes[key := value])
  {
    hide PutAll, StoragePrefix, StorageKey;
    var one, both := PutAll(db, address, writes)[StorageKey(address, key) := value],
                     PutAll(db, address, writes[key := value]);
    StorageKeyParts(address, key);
    forall x ensures x in one <==> x in both {
      PutMoreAt(db, address, writes, key, value, x);
    }
    forall x | x in one ensures one[x] == both[x] {
      PutMoreAt(db, address, writes, key, value, x);
    }
  }

  lemma PutMoreAt(db: Db, address: Bytes, writes: map<Bytes, Bytes>, key: Bytes, value: Bytes, x: Bytes)
    ensures var one, both := PutAll(db, address, writes)[StorageKey(address, key) := value],
                             PutAll(db, address, writes[key := value]);
            (x in one <==> x in both) && (x in one ==> one[x] == both[x])
  {
    hide PutAll, StoragePrefix, StorageKey;
    PutAllAt(db, address, writes, x);
    PutAllAt(db, address, writes[key := value], x);
    StorageKeyParts(address, key);
    if StoragePrefix(address) <= x {
      StorageKeyOf(address, x);
    }
  }

  lemma PutNothing(db: Db, address: Bytes)
    ensures PutAll(db, address, map[]) == db
  {
    hide PutAll, StoragePrefix;
    forall x ensures var r := PutAll(db, address, map[]); (x in r <==> x in db) && (x in r ==> r[x] == db[x]) {
      PutAllAt(db, address, map[], x);
    }
  }

  ghost function Restricted(writes: map<Bytes, Bytes>, keys: seq<Bytes>): map<Bytes, Bytes> {
    map k | k in writes && k in keys :: writes[k]
  }

  lemma RestrictedSnoc(writes: map<Bytes, Bytes>, keys: seq<Bytes>)
    requires keys != [] && keys[|keys| - 1] in writes
    ensures var n := |keys| - 1;
            Restricted(writes, keys[..n])[keys[n] := writes[keys[n]]] == Restricted(writes, keys)
  {
    assert keys == keys[..|keys| - 1] + [keys[|keys| - 1]];
  }

  lemma RestrictedToAll(writes: map<Bytes, Bytes>, keys: seq<Bytes>)
    requires forall k :: k in writes ==> k in keys
    ensures Restricted(writes, keys) == writes
  {
  }

  /** Putting the writes key by key. */
  ghost function PutOrder(db: Db, address: Bytes, keys: seq<Bytes>, writes: map<Bytes, Bytes>): Db
    requires forall k :: k in keys ==> k in writes
  {
    if keys == [] then db
    else
      var n := |keys| - 1;
      PutOrder(db, address, keys[..n], writes)[StorageKey(address, keys[n]) := writes[keys[n]]]
  }

  lemma PutOrderStep(db: Db, address: Bytes, keys: seq<Bytes>, writes: map<Bytes, Bytes>, i: nat)
    requires (forall k :: k in keys ==> k in writes) && i < |keys|
    ensures keys[i] in writes
    ensures PutOrder(db, address, keys[..i + 1], writes)
            == PutOrder(db, address, keys[..i], writes)[StorageKey(address, keys[i]) := writes[keys[i]]]
  {
    hide StorageKey;
    assert keys[..i + 1][..i] == keys[..i];
  }

  lemma {:induction false} PutOrderIsPutAll(db: Db, address: Bytes, keys: seq<Bytes>, writes: map<Bytes, Bytes>)
    requires forall k :: k in keys ==> k in writes
    ensures PutOrder(db, address, keys, writes) == PutAll(db, address, Restricted(writes, keys))
  {
    hide PutAll, StorageKey;
    if keys == [] {
      PutNothing(db, address);
      assert Restricted(writes, keys) == map[];
    } else {
      var n := |keys| - 1;
      var init, last := keys[..n], keys[n];
      PutOrderIsPutAll(db, address, init, writes);
      PutMore(db, address, Restricted(writes, init), last, writes[last]);
      RestrictedSnoc(writes, keys);
    }
  }

  /** A batch computes its root from the scanned slots and the writes before anything is put. */
  ghost function CommitBatch(sha: Hash, codec: Codec, db: Db, address: Bytes, writes: map<Bytes, Bytes>)
    : Result<Db, StorageError>
  {
    if writes == map[] then Success(db)
    else
      match ExistingContract(codec, db, address)
      case Failure(e) => Failure(e)
      case Success(contract) =>
        var root := SlotsRoot(sha, SlotsOf(db, address) + writes);
        Success(PutAll(db, address, writes)
                [ContractKey(address) := codec.encodeContract(contract.(storageRoot := root))])
  }

  lemma PutAllSlots(db: Db, address: Bytes, writes: map<Bytes, Bytes>)
    ensures SlotsOf(PutAll(db, address, writes), address) == SlotsOf(db, address) + writes
  {
    hide StoragePrefix, StorageKey, PutAll;
    var before, after := SlotsOf(db, address), SlotsOf(PutAll(db, address, writes), address);
    forall s ensures s in after <==> s in before + writes {
      PutAllSlot(db, address, writes, s);
    }
    forall s | s in after ensures after[s] == (before + writes)[s] {
      PutAllSlot(db, address, writes, s);
    }
  }

  /** The two root computations agree: a batch leaves the root that the database it leaves would give. */
  lemma BatchIsSealed(sha: Hash, codec: Codec, db: Db, address: Bytes, writes: map<Bytes, Bytes>)
    requires writes != map[] && ExistingContract(codec, db, address).Success?
    ensures CommitBatch(sha, codec, db, address, writes)
            == Success(Sealed(sha, codec, ExistingContract(codec, db, address).value,
                              PutAll(db, address, writes), address))
  {
    PutAllSlots(db, address, writes);
  }

  function DerivedAddress(sha: Hash, sender: Bytes, code: Bytes): Digest {
    sha(DEPLOY_TAG + sender + sha(code))
  }

  // ASCII of "prims-contract".
  const DEPLOY_TAG: Bytes := [112, 114, 105, 109, 115, 45, 99, 111, 110, 116, 114, 97, 99, 116]

  lemma DeployTagSpelled()
    ensures Spells(DEPLOY_TAG, "prims-contract")
  {
  }

  function NewContractAccount(sha: Hash, code: Bytes): Account {
    Account(0, 0, Some(sha(code)), AnonymousAccountState(None, []))
  }

  function Deploy(sha: Hash, codec: Codec, db: Db, sender: Bytes, code: Bytes): Result<Db, StorageError> {
    if sender == [] then Failure(EmptySender)
    else if code == [] then Failure(EmptyCode)
    else
      var address := DerivedAddress(sha, sender, code);
      var account := GetAccount(codec, db, address);
      var contract := GetContract(codec, db, address);
      if account.Failure? then Failure(account.error)
      else if account.value.Some? then Failure(AddressExists)
      else if contract.Failure? then Failure(contract.error)
      else if contract.value.Some? then Failure(AddressExists)
      else Success(db[ContractKey(address) := codec.encodeContract(Contract(code, sha([])))]
                     [AccountKey(address) := codec.encodeAccount(NewContractAccount(sha, code))])
  }
}
