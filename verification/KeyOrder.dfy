/** Lexicographic key order: sorted key lists, and the scan that stops at the first key without the prefix
    (src/storage/mod.rs). */
module KeyOrder {
  import opened Bytes
  import opened Sorting

  lemma LexOrder()
    ensures TotalPreorder(LexLe)
    ensures forall s :: Separates(LexLe, s)
  {
    LexLaws();
  }

  /** The members of a key set in database order. */
  ghost function SortedKeys(keys: set<Bytes>): (r: seq<Bytes>) {
    if keys == {} then []
    else
      var k :| k in keys;
      Insert(k, SortedKeys(keys - {k}), LexLe)
  }

  lemma InsertNew(k: Bytes, rest: seq<Bytes>)
    requires SortedBy(rest, LexLe) && Distinct(rest) && k !in rest
    ensures var r := Insert(k, rest, LexLe);
            SortedBy(r, LexLe) && Distinct(r) && forall x :: x in r <==> x == k || x in rest
  {
    LexOrder();
    InsertSorted(k, rest, LexLe);
    var all := [k] + rest;
    PermutationFacts(all, Insert(k, rest, LexLe));
    DistinctPermutation(all, Insert(k, rest, LexLe));
  }

  lemma {:induction false} SortedKeysFacts(keys: set<Bytes>)
    ensures SortedBy(SortedKeys(keys), LexLe) && Distinct(SortedKeys(keys))
    ensures forall x :: x in SortedKeys(keys) <==> x in keys
  {
    hide Distinct, SortedBy;
    if keys != {} {
      var k :| k in keys && SortedKeys(keys) == Insert(k, SortedKeys(keys - {k}), LexLe);
      SortedKeysFacts(keys - {k});
      InsertNew(k, SortedKeys(keys - {k}));
    } else {
      NoKeys();
    }
  }

  lemma NoKeys()
    ensures SortedBy<Bytes>([], LexLe) && Distinct<Bytes>([])
  {
  }

  /** A sorted list without repetition is determined by its members. */
  lemma SortedKeysUnique(s: seq<Bytes>, keys: set<Bytes>)
    requires SortedBy(s, LexLe) && Distinct(s) && forall x :: x in s <==> x in keys
    ensures s == SortedKeys(keys)
  {
    SortedKeysFacts(keys);
    StrictlySortedUnique(s, SortedKeys(keys));
  }

  lemma {:induction false} StrictlySortedUnique(a: seq<Bytes>, b: seq<Bytes>)
    requires SortedBy(a, LexLe) && Distinct(a) && SortedBy(b, LexLe) && Distinct(b)
    requires forall x :: x in a <==> x in b
    ensures a == b
  {
    if a != [] {
      assert a[0] in b;
      assert b[0] in a;
      SortedHead(a, b[0], LexLe);
      SortedHead(b, a[0], LexLe);
      LexLaws();
      assert a[0] == b[0];
      assert a == [a[0]] + a[1..] && b == [b[0]] + b[1..];
      forall x ensures x in a[1..] <==> x in b[1..] {
        assert x in a[1..] <==> x in a && x != a[0];
        assert x in b[1..] <==> x in b && x != b[0];
      }
      StrictlySortedUnique(a[1..], b[1..]);
    } else {
      HeadMember(b);
    }
  }

  function HasPrefix(prefix: Bytes): Bytes -> bool {
    (key: Bytes) => prefix <= key
  }

  function FromPrefix(prefix: Bytes): Bytes -> bool {
    (key: Bytes) => LexLe(prefix, key)
  }

  lemma {:induction false} PrefixIsLower(prefix: Bytes, key: Bytes)
    requires prefix <= key
    ensures LexLe(prefix, key)
  {
    if prefix != [] {
      assert prefix[1..] <= key[1..];
      PrefixIsLower(prefix[1..], key[1..]);
    }
  }

  /** Keys with the prefix are not interrupted: what lies between the prefix and one of them has it too. */
  lemma {:induction false} PrefixBetween(prefix: Bytes, a: Bytes, b: Bytes)
    requires LexLe(prefix, a) && LexLe(a, b) && prefix <= b
    ensures prefix <= a
  {
    if prefix != [] {
      assert a[0] == b[0] == prefix[0];
      PrefixBetween(prefix[1..], a[1..], b[1..]);
      assert prefix == [prefix[0]] + prefix[1..] && a == [a[0]] + a[1..];
    }
  }

  /** The scan: keys from the prefix on, up to the first one without it. */
  function ScanUntilMismatch(keys: seq<Bytes>, prefix: Bytes): seq<Bytes> {
    if keys == [] || !(prefix <= keys[0]) then [] else [keys[0]] + ScanUntilMismatch(keys[1..], prefix)
  }

  /** The scan misses nothing: stopping at the first mismatch finds every key with the prefix. */
  lemma {:induction false} ScanFindsAll(keys: seq<Bytes>, prefix: Bytes)
    requires SortedBy(keys, LexLe) && forall k :: k in keys ==> LexLe(prefix, k)
    ensures ScanUntilMismatch(keys, prefix) == Filter(keys, HasPrefix(prefix))
  {
    if keys != [] {
      if prefix <= keys[0] {
        ScanFindsAll(keys[1..], prefix);
      } else {
        var found := Filter(keys, HasPrefix(prefix));
        FilterMembers(keys, HasPrefix(prefix));
        forall k | k in keys ensures prefix <= k ==> prefix <= keys[0] {
          SortedHead(keys, k, LexLe);
          assert keys[0] in keys;
          if prefix <= k && keys[0] != k {
            PrefixBetween(prefix, keys[0], k);
          }
        }
        HeadMember(found);
      }
    }
  }

  lemma {:induction false} FilterSorted(s: seq<Bytes>, p: Bytes -> bool)
    requires SortedBy(s, LexLe) && Distinct(s)
    ensures SortedBy(Filter(s, p), LexLe) && Distinct(Filter(s, p))
  {
    if s != [] {
      var rest := Filter(s[1..], p);
      FilterSorted(s[1..], p);
      FilterMembers(s[1..], p);
      forall k | k in rest ensures LexLe(s[0], k) && s[0] != k {
        var i :| 0 <= i < |s[1..]| && s[1..][i] == k;
        assert s[i + 1] == k;
      }
    }
  }

  /** Reading the whole database in order from the prefix on and stopping at the first mismatch yields the
      keys with the prefix, in order. */
  lemma ScanIsExact(keys: set<Bytes>, prefix: Bytes)
    ensures ScanUntilMismatch(Filter(SortedKeys(keys), FromPrefix(prefix)), prefix)
            == SortedKeys(set k | k in keys && prefix <= k)
  {
    var all := SortedKeys(keys);
    var from := Filter(all, FromPrefix(prefix));
    var found := Filter(from, HasPrefix(prefix));
    SortedKeysFacts(keys);
    FilterSorted(all, FromPrefix(prefix));
    FilterMembers(all, FromPrefix(prefix));
    ScanFindsAll(from, prefix);
    FilterSorted(from, HasPrefix(prefix));
    FilterMembers(from, HasPrefix(prefix));
    forall k ensures k in found <==> k in (set k | k in keys && prefix <= k) {
      if prefix <= k {
        PrefixIsLower(prefix, k);
      }
    }
    SortedKeysUnique(found, set k | k in keys && prefix <= k);
  }

  function Under(prefix: Bytes): Bytes -> Bytes {
    (key: Bytes) => prefix + key
  }

  /** Keys under one prefix are ordered as their suffixes are. */
  lemma SortedUnderPrefix(prefix: Bytes, suffixes: set<Bytes>)
    ensures SortedKeys(set s | s in suffixes :: prefix + s) == Map(SortedKeys(suffixes), Under(prefix))
  {
    var sorted := SortedKeys(suffixes);
    var full := Map(sorted, Under(prefix));
    SortedKeysFacts(suffixes);
    forall i, j | 0 <= i < j < |full| ensures LexLe(full[i], full[j]) && full[i] != full[j] {
      LexPrefix(prefix, sorted[i], sorted[j]);
      assert sorted[i] == full[i][|prefix|..] && sorted[j] == full[j][|prefix|..];
    }
    forall k ensures k in full <==> k in (set s | s in suffixes :: prefix + s) {
      if k in full {
        var i :| 0 <= i < |full| && full[i] == k;
        assert sorted[i] in sorted;
      }
      if s :| s in suffixes && prefix + s == k {
        assert s in sorted;
        var i :| 0 <= i < |sorted| && sorted[i] == s;
        assert full[i] == k;
      }
    }
    SortedKeysUnique(full, set s | s in suffixes :: prefix + s);
  }

  /** The library's ordered iteration over a key set. */
  method KeysInOrder(keys: set<Bytes>) returns (r: seq<Bytes>)
    ensures r == SortedKeys(keys)
  {
    LexOrder();
    r := [];
    var remaining := keys;
    while remaining != {}
      invariant remaining <= keys
      invariant Distinct(r) && forall x :: x in r <==> x in keys - remaining
    {
      var k :| k in remaining;
      assert k !in r;
      r := r + [k];
      remaining := remaining - {k};
    }
    ghost var unsorted := r;
    r := Sort(r, LexLe);
    SortSorted(unsorted, LexLe);
    PermutationFacts(unsorted, r);
    DistinctPermutation(unsorted, r);
    SortedKeysUnique(r, keys);
  }
}
