/** Database keys (src/storage/keys.rs). */
module Keys {
  import opened Bytes

  // ASCII: "a:", "c:", "m:" and ":".
  const ACCOUNT_PREFIX: Bytes := [97, 58]
  const CONTRACT_CODE_PREFIX: Bytes := [99, 58]
  const CONTRACT_STORAGE_PREFIX: Bytes := [109, 58]
  const COLON: Bytes := [58]

  lemma PrefixesSpelled()
    ensures Spells(ACCOUNT_PREFIX, "a:") && Spells(CONTRACT_CODE_PREFIX, "c:")
    ensures Spells(CONTRACT_STORAGE_PREFIX, "m:") && Spells(COLON, ":")
  {
  }

  function AccountKey(address: Bytes): Bytes {
    ACCOUNT_PREFIX + address
  }

  function ContractKey(address: Bytes): Bytes {
    CONTRACT_CODE_PREFIX + address
  }

  function StoragePrefix(address: Bytes): (r: Bytes)
    ensures |r| == |address| + 3
  {
    CONTRACT_STORAGE_PREFIX + address + COLON
  }

  function StorageKey(address: Bytes, key: Bytes): Bytes {
    StoragePrefix(address) + key
  }

  /** Records of different kinds never share a key. */
  lemma KindsSeparate(a: Bytes, b: Bytes, key: Bytes)
    ensures ContractKey(a) != StorageKey(b, key) && ContractKey(a) != AccountKey(b)
    ensures AccountKey(a) != StorageKey(b, key)
    ensures !(StoragePrefix(b) <= ContractKey(a)) && !(StoragePrefix(b) <= AccountKey(a))
    ensures ContractKey(a) == ContractKey(b) <==> a == b
  {
    assert ContractKey(a)[0] == 99 && AccountKey(b)[0] == 97 && AccountKey(a)[0] == 97;
    assert StorageKey(b, key)[0] == 109 && StoragePrefix(b)[0] == 109;
    assert ContractKey(a)[2..] == a && ContractKey(b)[2..] == b;
  }

  /** A storage key splits back into its parts. */
  lemma StorageKeyParts(address: Bytes, key: Bytes)
    ensures StoragePrefix(address) <= StorageKey(address, key)
    ensures StorageKey(address, key)[|address| + 3..] == key
    ensures StorageKey(address, key)[2..|address| + 2] == address
    ensures StorageKey(address, key)[|address| + 2] == 58
  {
  }

  lemma StorageKeyOf(address: Bytes, stored: Bytes)
    requires StoragePrefix(address) <= stored
    ensures StorageKey(address, stored[|address| + 3..]) == stored
  {
  }

  /** Addresses of one length have disjoint storage: scanning one never meets a slot of another. */
  lemma EqualLengthsSeparate(a: Bytes, b: Bytes, key: Bytes)
    requires |a| == |b|
    ensures StoragePrefix(a) <= StorageKey(b, key) <==> a == b
  {
    StorageKeyParts(b, key);
    if StoragePrefix(a) <= StorageKey(b, key) {
      var stored := StorageKey(b, key);
      assert stored[..|a| + 3] == StoragePrefix(a);
      assert a == StoragePrefix(a)[2..|a| + 2] == stored[2..|a| + 2];
    }
  }

  /** For addresses of any lengths the exact condition: two contracts can share a storage key if and only if
      the scan prefix of one extends the scan prefix of the other. */
  lemma SharedKeyIff(a: Bytes, b: Bytes)
    ensures (exists k, l :: StorageKey(a, k) == StorageKey(b, l))
            <==> StoragePrefix(a) <= StoragePrefix(b) || StoragePrefix(b) <= StoragePrefix(a)
  {
    hide StoragePrefix;
    var p, q := StoragePrefix(a), StoragePrefix(b);
    if k, l :| StorageKey(a, k) == StorageKey(b, l) {
      var stored := StorageKey(a, k);
      assert stored[..|p|] == p && stored[..|q|] == q;
      if |p| <= |q| {
        assert q[..|p|] == p;
      } else {
        assert p[..|q|] == q;
      }
    }
    if p <= q {
      assert StorageKey(a, q[|p|..]) == StorageKey(b, []);
    }
    if q <= p {
      assert StorageKey(b, p[|q|..]) == StorageKey(a, []);
    }
  }

  /** Such addresses exist: with "x" and "x:y", key "y:z" of the first is key "z" of the second. */
  lemma SharedKeyExample()
    ensures StorageKey([120], [121, 58, 122]) == StorageKey([120, 58, 121], [122])
  {
  }
}
