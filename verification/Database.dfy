/** The storage object: the same operations as methods over the database, with the program's loops
    (src/storage/mod.rs). */
module Database {
  import opened Bytes
  import opened Wrappers
  import opened Types
  import opened Sorting
  import opened Keys
  import opened KeyOrder
  import opened Storage

  datatype KeyValue = KeyValue(key: Bytes, value: Bytes)

  predicate ByKey(a: KeyValue, b: KeyValue) {
    LexLe(a.key, b.key)
  }

  /** The entries of a key list. */
  ghost function Entries(db: Db, keys: seq<Bytes>): (r: seq<KeyValue>)
    requires forall k :: k in keys ==> k in db
    ensures |r| == |keys|
  {
    if keys == [] then []
    else
      var n := |keys| - 1;
      Entries(db, keys[..n]) + [KeyValue(keys[n], db[keys[n]])]
  }

  ghost function PrefixedKeys(db: Db, prefix: Bytes): (r: seq<Bytes>)
    ensures forall k :: k in r <==> k in db && prefix <= k
    ensures SortedBy(r, LexLe)
  {
    SortedKeysFacts(set k | k in db && prefix <= k);
    SortedKeys(set k | k in db && prefix <= k)
  }

  lemma {:induction false} EntriesSorted(db: Db, keys: seq<Bytes>)
    requires (forall k :: k in keys ==> k in db) && SortedBy(keys, LexLe)
    ensures SortedBy(Entries(db, keys), ByKey)
    ensures forall i :: 0 <= i < |keys| ==> Entries(db, keys)[i] == KeyValue(keys[i], db[keys[i]])
  {
    if keys != [] {
      EntriesSorted(db, keys[..|keys| - 1]);
    }
  }

  lemma SlotStored(db: Db, address: Bytes, x: Bytes)
    ensures x in db && StoragePrefix(address) <= x
            <==> exists s :: s in SlotKeys(db, address) && StoragePrefix(address) + s == x
  {
    hide StoragePrefix;
    if x in db && StoragePrefix(address) <= x {
      StorageKeyOf(address, x);
      assert StoragePrefix(address) + x[|address| + 3..] == x;
    }
    if s :| s in SlotKeys(db, address) && StoragePrefix(address) + s == x {
      StorageKeyParts(address, s);
      assert StorageKey(address, s) == x;
    }
  }

  /** A contract's stored keys in database order are its slot keys in slot order, prefixed. */
  lemma StoredKeysAreSlots(db: Db, address: Bytes)
    ensures PrefixedKeys(db, StoragePrefix(address))
            == Map(SortedKeys(SlotKeys(db, address)), Under(StoragePrefix(address)))
  {
    hide StoragePrefix, SortedKeys, StorageKey;
    var prefix := StoragePrefix(address);
    var suffixes := SlotKeys(db, address);
    SortedUnderPrefix(prefix, suffixes);
    var full, stored := set s | s in suffixes :: prefix + s, set x | x in db && prefix <= x;
    forall x ensures x in full <==> x in stored {
      SlotStored(db, address, x);
    }
    assert full == stored;
  }

  /** The hashes of entries, their keys stripped of `skip` bytes. */
  ghost function EntriesPayload(sha: Hash, entries: seq<KeyValue>, skip: nat): Bytes {
    if entries == [] then []
    else
      var n := |entries| - 1;
      EntriesPayload(sha, entries[..n], skip)
      + sha(if skip <= |entries[n].key| then entries[n].key[skip..] else []) + sha(entries[n].value)
  }

  /** The entries as a map from stripped keys. */
  ghost function EntriesMap(entries: seq<KeyValue>, skip: nat): map<Bytes, Bytes> {
    if entries == [] then map[]
    else
      var n := |entries| - 1;
      EntriesMap(entries[..n], skip)
      [(if skip <= |entries[n].key| then entries[n].key[skip..] else []) := entries[n].value]
  }

  /** Slot keys as stored. */
  ghost function StoredKeys(address: Bytes, slotKeys: seq<Bytes>): (r: seq<Bytes>)
    ensures |r| == |slotKeys|
  {
    Map(slotKeys, Under(StoragePrefix(address)))
  }

  lemma StoredKeysSnoc(address: Bytes, slotKeys: seq<Bytes>)
    requires slotKeys != []
    ensures var n := |slotKeys| - 1;
            var keys := StoredKeys(address, slotKeys);
            && keys[..n] == StoredKeys(address, slotKeys[..n])
            && keys[n] == StorageKey(address, slotKeys[n])
            && keys[n][|address| + 3..] == slotKeys[n] && |address| + 3 <= |keys[n]|
  {
    hide StoragePrefix, Map;
    StorageKeyParts(address, slotKeys[|slotKeys| - 1]);
  }

  lemma {:induction false} EntriesHashSlots(sha: Hash, db: Db, address: Bytes, slotKeys: seq<Bytes>)
    requires forall s :: s in slotKeys ==> s in SlotsOf(db, address)
    requires forall k :: k in StoredKeys(address, slotKeys) ==> k in db
    ensures EntriesPayload(sha, Entries(db, StoredKeys(address, slotKeys)), |address| + 3)
            == RootPayload(sha, SlotsOf(db, address), slotKeys)
  {
    hide StorageKey, StoredKeys;
    if slotKeys != [] {
      var n := |slotKeys| - 1;
      var keys := StoredKeys(address, slotKeys);
      StoredKeysSnoc(address, slotKeys);
      EntriesHashSlots(sha, db, address, slotKeys[..n]);
      assert Entries(db, keys)[..n] == Entries(db, keys[..n]);
      assert slotKeys[n] in slotKeys;
    }
  }

  lemma SlotValue(db: Db, address: Bytes, s: Bytes)
    requires s in SlotsOf(db, address)
    ensures StorageKey(address, s) in db && SlotsOf(db, address)[s] == db[StorageKey(address, s)]
  {
  }

  lemma NothingRestricted(slots: map<Bytes, Bytes>)
    ensures Restricted(slots, []) == map[]
  {
  }

  lemma {:induction false} EntriesMapSlots(db: Db, address: Bytes, slotKeys: seq<Bytes>)
    requires forall s :: s in slotKeys ==> s in SlotsOf(db, address)
    requires forall k :: k in StoredKeys(address, slotKeys) ==> k in db
    ensures EntriesMap(Entries(db, StoredKeys(address, slotKeys)), |address| + 3)
            == Restricted(SlotsOf(db, address), slotKeys)
  {
    hide StorageKey, StoredKeys, SlotsOf, Restricted;
    var slots := SlotsOf(db, address);
    if slotKeys == [] {
      NothingRestricted(slots);
    } else {
      var n := |slotKeys| - 1;
      var keys := StoredKeys(address, slotKeys);
      StoredKeysSnoc(address, slotKeys);
      EntriesMapSlots(db, address, slotKeys[..n]);
      assert Entries(db, keys)[..n] == Entries(db, keys[..n]);
      assert slotKeys[n] in slotKeys;
      SlotValue(db, address, slotKeys[n]);
      RestrictedSnoc(slots, slotKeys);
    }
  }

  /** What the scan of a contract's prefix yields: its slots, in order. */
  lemma ScanYieldsSlots(sha: Hash, db: Db, address: Bytes)
    ensures var entries := Entries(db, PrefixedKeys(db, StoragePrefix(address)));
            && sha(EntriesPayload(sha, entries, |address| + 3)) == SlotsRoot(sha, SlotsOf(db, address))
            && EntriesMap(entries, |address| + 3) == SlotsOf(db, address)
            && SortedBy(entries, ByKey)
            && forall i :: 0 <= i < |entries| ==> |entries[i].key| >= |address| + 3
  {
    hide StoragePrefix, SortedKeys, RootPayload, EntriesPayload, EntriesMap, Entries, SlotsOf, SortedBy;
    var keys := PrefixedKeys(db, StoragePrefix(address));
    var slotKeys := SortedKeys(SlotKeys(db, address));
    SlotKeysOfSlots(db, address);
    StoredKeysAreSlots(db, address);
    assert keys == StoredKeys(address, slotKeys);
    SortedKeysFacts(SlotKeys(db, address));
    EntriesHashSlots(sha, db, address, slotKeys);
    EntriesMapSlots(db, address, slotKeys);
    EntriesSorted(db, keys);
    forall i | 0 <= i < |keys| ensures |keys[i]| >= |address| + 3 {
      assert keys[i] in keys;
    }
    RestrictedToAll(SlotsOf(db, address), slotKeys);
  }

  lemma SlotKeysOfSlots(db: Db, address: Bytes)
    ensures SlotsOf(db, address).Keys == SlotKeys(db, address)
  {
  }

  /** The scan loop's result on an ordered key list. */
  ghost function Scanned(db: Db, keys: seq<Bytes>, prefix: Bytes): seq<KeyValue>
    requires forall k :: k in keys ==> k in db
  {
    if keys == [] || !(prefix <= keys[0]) then []
    else [KeyValue(keys[0], db[keys[0]])] + Scanned(db, keys[1..], prefix)
  }

  lemma {:induction false} EntriesCons(db: Db, k: Bytes, keys: seq<Bytes>)
    requires k in db && forall k :: k in keys ==> k in db
    ensures Entries(db, [k] + keys) == [KeyValue(k, db[k])] + Entries(db, keys)
  {
    var all := [k] + keys;
    if keys != [] {
      var n := |keys| - 1;
      assert all[..|all| - 1] == [k] + keys[..n];
      EntriesCons(db, k, keys[..n]);
    } else {
      assert all[..0] == [];
    }
  }

  lemma {:induction false} ScannedEntries(db: Db, keys: seq<Bytes>, prefix: Bytes)
    requires forall k :: k in keys ==> k in db
    ensures forall k :: k in ScanUntilMismatch(keys, prefix) ==> k in db
    ensures Scanned(db, keys, prefix) == Entries(db, ScanUntilMismatch(keys, prefix))
  {
    if keys != [] && prefix <= keys[0] {
      ScannedEntries(db, keys[1..], prefix);
      EntriesCons(db, keys[0], ScanUntilMismatch(keys[1..], prefix));
    }
  }

  class RocksDbStorage {
    const sha: Hash
    const codec: Codec
    var db: Db

    constructor (sha: Hash, codec: Codec)
      ensures this.sha == sha && this.codec == codec && db == map[]
    {
      this.sha, this.codec, db := sha, codec, map[];
    }

    /** Reads in database order from the prefix on and stops at the first key without it; this finds every
        key with the prefix. */
    method Iter(prefix: Bytes) returns (entries: seq<KeyValue>)
      ensures entries == Entries(db, PrefixedKeys(db, prefix))
    {
      var all := KeysInOrder(db.Keys);
      var keys := Filter(all, FromPrefix(prefix));
      ScanIsExact(db.Keys, prefix);
      SortedKeysFacts(db.Keys);
      FilterMembers(all, FromPrefix(prefix));
      ScannedEntries(db, keys, prefix);
      entries := ScanFrom(keys, prefix);
    }

    /** The iterator loop. */
    method ScanFrom(keys: seq<Bytes>, prefix: Bytes) returns (entries: seq<KeyValue>)
      requires forall k :: k in keys ==> k in db
      ensures entries == Scanned(db, keys, prefix)
    {
      entries := [];
      var i := 0;
      assert keys[0..] == keys;
      while i < |keys| && prefix <= keys[i]
        invariant 0 <= i <= |keys|
        invariant entries + Scanned(db, keys[i..], prefix) == Scanned(db, keys, prefix)
      {
        assert keys[i..][0] == keys[i] && keys[i..][1..] == keys[i + 1..];
        entries := entries + [KeyValue(keys[i], db[keys[i]])];
        i := i + 1;
      }
      assert Scanned(db, keys[i..], prefix) == [];
    }

    /** The single-write path: collects the stored entries, sorts them by stored key and hashes. */
    method ComputeContractStorageRoot(address: Bytes) returns (root: Digest)
      ensures root == SlotsRoot(sha, SlotsOf(db, address))
    {
      hide StoragePrefix, SlotsRoot, SlotsOf, Entries, PrefixedKeys, SortedBy, EntriesMap;
      var prefix := StoragePrefix(address);
      var entries := Iter(prefix);
      ScanYieldsSlots(sha, db, address);
      SortOfSorted(entries, ByKey);
      entries := Sort(entries, ByKey);
      if entries == [] {
        return sha([]);
      }
      root := HashEntries(entries, |prefix|);
    }

    /** The hashing loop of the single-write path. */
    method HashEntries(entries: seq<KeyValue>, skip: nat) returns (root: Digest)
      requires forall i :: 0 <= i < |entries| ==> |entries[i].key| >= skip
      ensures root == sha(EntriesPayload(sha, entries, skip))
    {
      var payload: Bytes := [];
      for i := 0 to |entries|
        invariant payload == EntriesPayload(sha, entries[..i], skip)
      {
        assert entries[..i + 1][..i] == entries[..i];
        var slotKey := entries[i].key[skip..];
        payload := payload + sha(slotKey) + sha(entries[i].value);
      }
      assert entries[..|entries|] == entries;
      return sha(payload);
    }

    method SetContractStorage(address: Bytes, key: Bytes, value: Bytes) returns (r: Result<(), StorageError>)
      modifies this`db
      ensures match SetSlot(sha, codec, old(db), address, key, value)
              case Failure(e) => r == Failure(e) && db == old(db)
              case Success(after) => r == Success(()) && db == after
    {
      hide SlotsRoot, SlotsOf;
      var existing := ExistingContract(codec, db, address);
      if existing.Failure? {
        return Failure(existing.error);
      }
      db := db[StorageKey(address, key) := value];
      var root := ComputeContractStorageRoot(address);
      db := db[ContractKey(address) := codec.encodeContract(existing.value.(storageRoot := root))];
      return Success(());
    }

    method GetContractStorage(address: Bytes, key: Bytes) returns (r: Result<Option<Bytes>, StorageError>)
      ensures r == GetSlot(codec, db, address, key)
    {
      var existing := ExistingContract(codec, db, address);
      if existing.Failure? {
        return Failure(existing.error);
      }
      var stored := StorageKey(address, key);
      return Success(if stored in db then Some(db[stored]) else None);
    }

    /** The slots as the batch path gathers them: stripped of the prefix into an ordered map. */
    method CollectSlots(address: Bytes) returns (slots: map<Bytes, Bytes>)
      ensures slots == SlotsOf(db, address)
    {
      hide StoragePrefix, SlotsRoot, SlotsOf, Entries, PrefixedKeys, SortedBy, EntriesPayload, EntriesMap;
      var prefix := StoragePrefix(address);
      var entries := Iter(prefix);
      ScanYieldsSlots(sha, db, address);
      slots := GatherSlots(entries, |prefix|);
    }

    /** The gathering loop of the batch path. */
    method GatherSlots(entries: seq<KeyValue>, skip: nat) returns (slots: map<Bytes, Bytes>)
      requires forall i :: 0 <= i < |entries| ==> |entries[i].key| >= skip
      ensures slots == EntriesMap(entries, skip)
    {
      slots := map[];
      for i := 0 to |entries|
        invariant slots == EntriesMap(entries[..i], skip)
      {
        assert entries[..i + 1][..i] == entries[..i];
        var slotKey := entries[i].key[skip..];
        slots := slots[slotKey := entries[i].value];
      }
      assert entries[..|entries|] == entries;
    }

    /** The hashing loop of the batch path. */
    method HashSlots(slots: map<Bytes, Bytes>) returns (root: Digest)
      ensures root == SlotsRoot(sha, slots)
    {
      var keys := KeysInOrder(slots.Keys);
      SortedKeysFacts(slots.Keys);
      var payload: Bytes := [];
      assert RootPayload(sha, slots, keys[..0]) == [];
      hide RootPayload, SortedKeys, SortedBy, Distinct;
      for i := 0 to |keys|
        invariant payload == RootPayload(sha, slots, keys[..i])
      {
        RootPayloadStep(sha, slots, keys, i);
        payload := payload + sha(keys[i]) + sha(slots[keys[i]]);
      }
      assert keys[..|keys|] == keys;
      return if payload == [] then sha([]) else sha(payload);
    }

    /** The writes as the batch holds them, put in key order. */
    method PutWrites(address: Bytes, writes: map<Bytes, Bytes>) returns (after: Db)
      ensures after == PutAll(db, address, writes)
    {
      var keys := KeysInOrder(writes.Keys);
      SortedKeysFacts(writes.Keys);
      after := db;
      assert PutOrder(db, address, keys[..0], writes) == db;
      hide PutAll, StorageKey, PutOrder, SortedKeys, SortedBy, Distinct;
      for i := 0 to |keys|
        invariant after == PutOrder(db, address, keys[..i], writes)
      {
        PutOrderStep(db, address, keys, writes, i);
        after := after[StorageKey(address, keys[i]) := writes[keys[i]]];
      }
      assert keys[..|keys|] == keys;
      PutOrderIsPutAll(db, address, keys, writes);
      RestrictedToAll(writes, keys);
    }

    method CommitContractStorageBatch(address: Bytes, writes: map<Bytes, Bytes>) returns (r: Result<(), StorageError>)
      modifies this`db
      ensures match CommitBatch(sha, codec, old(db), address, writes)
              case Failure(e) => r == Failure(e) && db == old(db)
              case Success(after) => r == Success(()) && db == after
    {
      hide SlotsRoot, SlotsOf, PutAll;
      if writes == map[] {
        return Success(());
      }
      var existing := ExistingContract(codec, db, address);
      if existing.Failure? {
        return Failure(existing.error);
      }
      var slots := CollectSlots(address);
      var root := HashSlots(slots + writes);
      var after := PutWrites(address, writes);
      db := after[ContractKey(address) := codec.encodeContract(existing.value.(storageRoot := root))];
      return Success(());
    }

    method DeployContract(sender: Bytes, code: Bytes) returns (r: Result<Bytes, StorageError>)
      modifies this`db
      ensures match Deploy(sha, codec, old(db), sender, code)
              case Failure(e) => r == Failure(e) && db == old(db)
              case Success(after) => r == Success(DerivedAddress(sha, sender, code)) && db == after
    {
      if sender == [] {
        return Failure(EmptySender);
      }
      if code == [] {
        return Failure(EmptyCode);
      }
      var address := DerivedAddress(sha, sender, code);
      var account := GetAccount(codec, db, address);
      if account.Failure? {
        return Failure(account.error);
      }
      if account.value.Some? {
        return Failure(AddressExists);
      }
      var contract := GetContract(codec, db, address);
      if contract.Failure? {
        return Failure(contract.error);
      }
      if contract.value.Some? {
        return Failure(AddressExists);
      }
      db := db[ContractKey(address) := codec.encodeContract(Contract(code, sha([])))];
      db := db[AccountKey(address) := codec.encodeAccount(NewContractAccount(sha, code))];
      return Success(address);
    }
  }
}
