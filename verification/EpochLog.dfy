/** A list of entries keyed by epoch and shard, kept sorted: the shape of both the committee log and the
    state-root log of the beacon chain (src/sharding/mod.rs). */
module EpochLog {
  import opened Wrappers
  import opened Sorting

  /** `ShardStateRoot` with a root as its value, `ShardCommitteeAssignment` with a list of addresses. */
  datatype Entry<V> = Entry(epoch: nat, shardId: nat, value: V)

  type Key = (nat, nat)

  function KeyOf<V>(e: Entry<V>): Key {
    (e.epoch, e.shardId)
  }

  predicate KeyLe<V>(a: Entry<V>, b: Entry<V>) {
    a.epoch < b.epoch || (a.epoch == b.epoch && a.shardId <= b.shardId)
  }

  lemma KeyOrder<V(!new)>()
    ensures TotalPreorder(KeyLe<V>)
  {
  }

  ghost predicate UniqueKeys<V>(log: seq<Entry<V>>) {
    forall i, j :: 0 <= i < j < |log| ==> KeyOf(log[i]) != KeyOf(log[j])
  }

  /** `iter().find(..)` by epoch and shard: the first match. */
  function Find<V>(log: seq<Entry<V>>, epoch: nat, shardId: nat): Option<V> {
    if log == [] then None
    else if log[0].epoch == epoch && log[0].shardId == shardId then Some(log[0].value)
    else Find(log[1..], epoch, shardId)
  }

  /** The map a log stands for. */
  ghost function AsMap<V>(log: seq<Entry<V>>): map<Key, V> {
    if log == [] then map[] else AsMap(log[1..])[KeyOf(log[0]) := log[0].value]
  }

  lemma {:induction false} FindIsLookup<V>(log: seq<Entry<V>>, epoch: nat, shardId: nat)
    ensures Find(log, epoch, shardId)
            == if (epoch, shardId) in AsMap(log) then Some(AsMap(log)[(epoch, shardId)]) else None
  {
    if log != [] {
      FindIsLookup(log[1..], epoch, shardId);
    }
  }

  /** With unique keys, an entry is in the list exactly when the map says so. */
  lemma {:induction false} MapMembers<V>(log: seq<Entry<V>>, e: Entry<V>)
    requires UniqueKeys(log)
    ensures e in log <==> KeyOf(e) in AsMap(log) && AsMap(log)[KeyOf(e)] == e.value
  {
    if log != [] {
      assert log == [log[0]] + log[1..];
      MapMembers(log[1..], e);
      forall i | 0 <= i < |log[1..]| ensures KeyOf(log[1..][i]) != KeyOf(log[0]) {
        assert log[1..][i] == log[i + 1];
      }
    }
  }

  lemma {:induction false} MapKeys<V>(log: seq<Entry<V>>, k: Key)
    ensures k in AsMap(log) <==> exists i :: 0 <= i < |log| && KeyOf(log[i]) == k
  {
    if log != [] {
      MapKeys(log[1..], k);
      if k in AsMap(log[1..]) {
        var i :| 0 <= i < |log[1..]| && KeyOf(log[1..][i]) == k;
        assert KeyOf(log[i + 1]) == k;
      }
      if i :| 0 <= i < |log| && KeyOf(log[i]) == k {
        if i > 0 {
          assert KeyOf(log[1..][i - 1]) == k;
        } else {
          assert KeyOf(log[0]) == k;
        }
      }
    }
  }

  lemma UniqueKeysPermutation<V(!new)>(a: seq<Entry<V>>, b: seq<Entry<V>>)
    requires multiset(a) == multiset(b) && UniqueKeys(a)
    ensures UniqueKeys(b) && AsMap(a) == AsMap(b)
  {
    assert Distinct(a) by {
      forall i, j | 0 <= i < j < |a| ensures a[i] != a[j] { assert KeyOf(a[i]) != KeyOf(a[j]); }
    }
    DistinctPermutation(a, b);
    PermutationFacts(a, b);
    forall i, j | 0 <= i < j < |b| ensures KeyOf(b[i]) != KeyOf(b[j]) {
      assert b[i] in a && b[j] in a;
      var k :| 0 <= k < |a| && a[k] == b[i];
      var l :| 0 <= l < |a| && a[l] == b[j];
      assert k != l;
    }
    SameMap(a, b);
    SameMap(b, a);
    assert AsMap(a).Keys == AsMap(b).Keys;
  }

  lemma SameMap<V>(a: seq<Entry<V>>, b: seq<Entry<V>>)
    requires UniqueKeys(a) && UniqueKeys(b) && forall x :: x in a ==> x in b
    ensures forall k :: k in AsMap(a) ==> k in AsMap(b) && AsMap(b)[k] == AsMap(a)[k]
  {
    forall k | k in AsMap(a) ensures k in AsMap(b) && AsMap(b)[k] == AsMap(a)[k] {
      var e := Entry(k.0, k.1, AsMap(a)[k]);
      MapMembers(a, e);
      MapMembers(b, e);
    }
  }

  /** Sorting by epoch then shard changes the list and not the map. */
  lemma SortKeepsMap<V(!new)>(log: seq<Entry<V>>)
    requires UniqueKeys(log)
    ensures var sorted := Sort(log, KeyLe<V>);
            UniqueKeys(sorted) && SortedBy(sorted, KeyLe<V>) && AsMap(sorted) == AsMap(log)
  {
    hide UniqueKeys, AsMap, SortedBy;
    KeyOrder<V>();
    SortSorted(log, KeyLe<V>);
    UniqueKeysPermutation(log, Sort(log, KeyLe<V>));
  }

  lemma {:induction false} AppendMap<V>(a: seq<Entry<V>>, b: seq<Entry<V>>)
    ensures AsMap(a + b) == AsMap(b) + AsMap(a)
  {
    if a == [] {
      assert a + b == b;
    } else {
      assert (a + b)[1..] == a[1..] + b;
      AppendMap(a[1..], b);
    }
  }

  lemma AppendUnique<V>(a: seq<Entry<V>>, b: seq<Entry<V>>)
    requires UniqueKeys(a) && UniqueKeys(b) && AsMap(a).Keys !! AsMap(b).Keys
    ensures UniqueKeys(a + b)
  {
    var c := a + b;
    forall i, j | 0 <= i < j < |c| ensures KeyOf(c[i]) != KeyOf(c[j]) {
      if i < |a| <= j {
        MapKeys(a, KeyOf(c[i]));
        MapKeys(b, KeyOf(c[j]));
        assert KeyOf(a[i]) in AsMap(a) && KeyOf(b[j - |a|]) in AsMap(b);
      }
    }
  }

  /** Pushing an entry with a new key. */
  lemma AppendFresh<V>(log: seq<Entry<V>>, e: Entry<V>)
    requires UniqueKeys(log) && Find(log, e.epoch, e.shardId).None?
    ensures UniqueKeys(log + [e]) && AsMap(log + [e]) == AsMap(log)[KeyOf(e) := e.value]
  {
    FindIsLookup(log, e.epoch, e.shardId);
    AppendMap(log, [e]);
    assert AsMap([e]) == map[KeyOf(e) := e.value];
    AppendUnique(log, [e]);
  }

  function NotEpoch<V>(epoch: nat): Entry<V> -> bool {
    (e: Entry<V>) => e.epoch != epoch
  }

  lemma KeptKeysApart<V>(log: seq<Entry<V>>, rest: seq<Entry<V>>)
    requires log != [] && UniqueKeys(log) && UniqueKeys(rest)
    requires forall k :: k in AsMap(rest) ==> k in AsMap(log[1..])
    ensures UniqueKeys([log[0]] + rest)
  {
    hide AsMap;
    MapKeys(log[1..], KeyOf(log[0]));
    forall j | 0 <= j < |rest| ensures KeyOf(rest[j]) != KeyOf(log[0]) {
      MapKeys(rest, KeyOf(rest[j]));
    }
  }

  ghost function OtherEpochs<V>(m: map<Key, V>, epoch: nat): map<Key, V> {
    map k | k in m && k.0 != epoch :: m[k]
  }

  lemma KeptSubset<V>(m: map<Key, V>, epoch: nat)
    ensures OtherEpochs(m, epoch).Keys <= m.Keys
  {
  }

  lemma OtherEpochsCons<V>(m: map<Key, V>, k: Key, v: V, epoch: nat)
    ensures OtherEpochs(m[k := v], epoch)
            == if k.0 == epoch then OtherEpochs(m, epoch) else OtherEpochs(m, epoch)[k := v]
  {
  }

  /** `retain`: drops the entries of one epoch. */
  lemma {:induction false} DropEpoch<V>(log: seq<Entry<V>>, epoch: nat)
    requires UniqueKeys(log)
    ensures var kept := Filter(log, NotEpoch(epoch));
            UniqueKeys(kept) && AsMap(kept) == OtherEpochs(AsMap(log), epoch)
  {
    hide OtherEpochs;
    if log != [] {
      var rest := Filter(log[1..], NotEpoch(epoch));
      DropEpoch(log[1..], epoch);
      OtherEpochsCons(AsMap(log[1..]), KeyOf(log[0]), log[0].value, epoch);
      if log[0].epoch != epoch {
        assert Filter(log, NotEpoch(epoch)) == [log[0]] + rest;
        assert ([log[0]] + rest)[1..] == rest;
        KeptSubset(AsMap(log[1..]), epoch);
        KeptKeysApart(log, rest);
      } else {
        assert Filter(log, NotEpoch(epoch)) == rest;
      }
    } else {
      KeptSubset<V>(map[], epoch);
    }
  }

  /** Replaces the entry with this key in place. */
  function Overwritten<V>(log: seq<Entry<V>>, epoch: nat, shardId: nat, value: V): (r: seq<Entry<V>>)
    ensures |r| == |log|
    ensures forall i :: 0 <= i < |log| ==> KeyOf(r[i]) == KeyOf(log[i])
  {
    if log == [] then []
    else if log[0].epoch == epoch && log[0].shardId == shardId then [Entry(epoch, shardId, value)] + log[1..]
    else [log[0]] + Overwritten(log[1..], epoch, shardId, value)
  }

  lemma {:induction false} OverwrittenMap<V>(log: seq<Entry<V>>, epoch: nat, shardId: nat, value: V)
    requires (epoch, shardId) in AsMap(log)
    ensures AsMap(Overwritten(log, epoch, shardId, value)) == AsMap(log)[(epoch, shardId) := value]
  {
    if KeyOf(log[0]) != (epoch, shardId) {
      OverwrittenMap(log[1..], epoch, shardId, value);
    }
  }

  lemma {:induction false} FirstMatch<V>(log: seq<Entry<V>>, i: nat, epoch: nat, shardId: nat, value: V)
    requires i < |log| && KeyOf(log[i]) == (epoch, shardId)
    requires forall j :: 0 <= j < i ==> KeyOf(log[j]) != (epoch, shardId)
    ensures Find(log, epoch, shardId).Some?
    ensures Overwritten(log, epoch, shardId, value) == log[i := Entry(epoch, shardId, value)]
  {
    var e := Entry(epoch, shardId, value);
    if i == 0 {
      assert log[0 := e] == [e] + log[1..];
    } else {
      assert KeyOf(log[0]) != (epoch, shardId);
      forall j | 0 <= j < i - 1 ensures KeyOf(log[1..][j]) != (epoch, shardId) {
        assert log[1..][j] == log[j + 1];
      }
      FirstMatch(log[1..], i - 1, epoch, shardId, value);
      assert log[i := e] == [log[0]] + log[1..][i - 1 := e];
    }
  }

  lemma {:induction false} NoMatch<V>(log: seq<Entry<V>>, epoch: nat, shardId: nat)
    requires forall j :: 0 <= j < |log| ==> KeyOf(log[j]) != (epoch, shardId)
    ensures Find(log, epoch, shardId).None?
  {
    if log != [] {
      assert KeyOf(log[0]) != (epoch, shardId);
      assert forall j :: 0 <= j < |log[1..]| ==> log[1..][j] == log[j + 1];
      NoMatch(log[1..], epoch, shardId);
    }
  }
}
